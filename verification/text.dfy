/** String operations of Python's `str` that the application relies on:
    `strip`, `lower`, `capitalize`, `startswith`, `endswith`, `split`,
    ordering, and `int(...)` on decimal text. Case mapping is ASCII only. */
module Text {
  import opened Wrappers

  /** The characters Python's `str.isspace()` accepts, i.e. those that
      `str.strip()` removes. */
  predicate IsSpace(c: char)
  {
    c in Whitespace
  }

  const Whitespace: set<char> := {
    ' ', '\t', '\n', '\U{B}', '\U{C}', '\r', '\U{1C}', '\U{1D}', '\U{1E}', '\U{1F}',
    '\U{85}', '\U{A0}', '\U{1680}',
    '\U{2000}', '\U{2001}', '\U{2002}', '\U{2003}', '\U{2004}', '\U{2005}',
    '\U{2006}', '\U{2007}', '\U{2008}', '\U{2009}', '\U{200A}',
    '\U{2028}', '\U{2029}', '\U{202F}', '\U{205F}', '\U{3000}'
  }

  /** Index of the first non-whitespace character of `s` at or after `i`
      (or `|s|`). */
  function SkipSpace(s: string, i: nat): (k: nat)
    requires i <= |s|
    ensures i <= k <= |s|
    ensures forall j :: i <= j < k ==> IsSpace(s[j])
    ensures k < |s| ==> !IsSpace(s[k])
    decreases |s| - i
  {
    if i < |s| && IsSpace(s[i]) then SkipSpace(s, i + 1) else i
  }

  /** The end of `s[lo..hi]` once its trailing whitespace is dropped. */
  function SkipSpaceBack(s: string, lo: nat, hi: nat): (k: nat)
    requires lo <= hi <= |s|
    ensures lo <= k <= hi
    ensures forall j :: k <= j < hi ==> IsSpace(s[j])
    ensures k > lo ==> !IsSpace(s[k - 1])
    decreases hi
  {
    if hi > lo && IsSpace(s[hi - 1]) then SkipSpaceBack(s, lo, hi - 1) else hi
  }

  /** Where `Strip(s)` begins inside `s`. */
  function StripStart(s: string): nat
  {
    SkipSpace(s, 0)
  }

  /** Python's `s.strip()`: the infix of `s` left after removing whitespace
      at both ends. */
  function Strip(s: string): (r: string)
    ensures |r| > 0 ==> !IsSpace(r[0]) && !IsSpace(r[|r| - 1])
    ensures var a := StripStart(s);
      && a + |r| <= |s|
      && r == s[a..a + |r|]
      && (forall i :: 0 <= i < a ==> IsSpace(s[i]))
      && (forall i :: a + |r| <= i < |s| ==> IsSpace(s[i]))
    ensures (|s| == 0 || (!IsSpace(s[0]) && !IsSpace(s[|s| - 1]))) ==> r == s
  {
    var a := SkipSpace(s, 0);
    var b := SkipSpaceBack(s, a, |s|);
    s[a..b]
  }

  function LowerChar(c: char): char
  {
    if 'A' <= c <= 'Z' then (c as int + 32) as char else c
  }

  function UpperChar(c: char): char
  {
    if 'a' <= c <= 'z' then (c as int - 32) as char else c
  }

  /** Python's `s.lower()` restricted to ASCII letters. */
  function Lower(s: string): (r: string)
    ensures |r| == |s|
    ensures forall i :: 0 <= i < |s| ==> r[i] == LowerChar(s[i])
  {
    seq(|s|, i requires 0 <= i < |s| => LowerChar(s[i]))
  }

  /** Python's `s.capitalize()`: first character upper case, the rest lower
      case (ASCII letters only). */
  function Capitalize(s: string): (r: string)
    ensures |r| == |s|
  {
    if |s| == 0 then "" else [UpperChar(s[0])] + Lower(s[1..])
  }

  /** Comparing with an already capitalised word after `capitalize()` is the
      same as comparing both sides ignoring case. */
  lemma CapitalizedMatchIgnoresCase(x: string, a: string)
    requires Capitalize(a) == a
    ensures Capitalize(x) == a <==> Lower(x) == Lower(a)
  {
    if |x| == |a| && |a| > 0 {
      assert UpperChar(a[0]) == a[0];
      assert UpperChar(x[0]) == a[0] <==> LowerChar(x[0]) == LowerChar(a[0]);
      forall i | 1 <= i < |a|
        ensures LowerChar(a[i]) == a[i]
      {
        assert Capitalize(a)[i] == Lower(a[1..])[i - 1];
      }
      if Capitalize(x) == a {
        forall i | 0 <= i < |a|
          ensures Lower(x)[i] == Lower(a)[i]
        {
          if i > 0 {
            assert Capitalize(x)[i] == Lower(x[1..])[i - 1];
          }
        }
      }
      if Lower(x) == Lower(a) {
        assert LowerChar(x[0]) == Lower(x)[0];
        forall i | 0 <= i < |a|
          ensures Capitalize(x)[i] == a[i]
        {
          if i > 0 {
            assert Capitalize(x)[i] == Lower(x[1..])[i - 1];
            assert Lower(x)[i] == Lower(a)[i];
          }
        }
      }
    }
  }

  predicate StartsWith(s: string, prefix: string)
  {
    |prefix| <= |s| && s[..|prefix|] == prefix
  }

  predicate EndsWith(s: string, suffix: string)
  {
    |suffix| <= |s| && s[|s| - |suffix|..] == suffix
  }

  /** `sep` occurs in `s` starting at index `i`. */
  predicate OccursAt(s: string, sep: string, i: nat)
  {
    i + |sep| <= |s| && s[i..i + |sep|] == sep
  }

  predicate NoOccurrence(s: string, sep: string)
  {
    forall i: nat :: i <= |s| ==> !OccursAt(s, sep, i)
  }

  /** Index of the leftmost occurrence of `sep` in `s` at or after `from`. */
  function FindFrom(s: string, sep: string, from: nat): (r: Option<nat>)
    requires |sep| > 0 && from <= |s|
    ensures r.Some? ==> from <= r.value && OccursAt(s, sep, r.value)
    ensures r.Some? ==> forall i: nat :: from <= i < r.value ==> !OccursAt(s, sep, i)
    ensures r.None? ==> forall i: nat :: from <= i <= |s| ==> !OccursAt(s, sep, i)
    decreases |s| - from
  {
    if from + |sep| > |s| then None
    else if s[from..from + |sep|] == sep then Some(from)
    else FindFrom(s, sep, from + 1)
  }

  lemma NoOccurrenceInPrefix(s: string, sep: string, n: nat)
    requires |sep| > 0 && n <= |s|
    requires forall i: nat :: i < n ==> !OccursAt(s, sep, i)
    ensures NoOccurrence(s[..n], sep)
  {
    forall i: nat | i <= n
      ensures !OccursAt(s[..n], sep, i)
    {
      if OccursAt(s[..n], sep, i) {
        assert s[..n][i..i + |sep|] == s[i..i + |sep|];
        assert OccursAt(s, sep, i);
      }
    }
  }

  /** Inverse of `Split`: the parts glued back with the separator. */
  function Join(parts: seq<string>, sep: string): string
    requires |parts| > 0
    decreases |parts|
  {
    if |parts| == 1 then parts[0] else parts[0] + sep + Join(parts[1..], sep)
  }

  /** Python's `s.split(sep)`: cut at every leftmost, non-overlapping
      occurrence of `sep`. Gluing the parts back gives `s`, and no part
      contains the separator; for a separator that does not overlap itself
      (such as "," or "<li>") these two facts determine the parts. */
  function Split(s: string, sep: string): (parts: seq<string>)
    requires |sep| > 0
    ensures |parts| > 0
    ensures Join(parts, sep) == s
    ensures forall k :: 0 <= k < |parts| ==> NoOccurrence(parts[k], sep)
    decreases |s|
  {
    match FindFrom(s, sep, 0)
    case None =>
      [s]
    case Some(i) =>
      var rest := Split(s[i + |sep|..], sep);
      NoOccurrenceInPrefix(s, sep, i);
      var parts := [s[..i]] + rest;
      assert parts[1..] == rest;
      assert s == s[..i] + sep + s[i + |sep|..];
      parts
  }

  /** With no occurrence of `sep` anywhere, `Split` gives the whole string. */
  lemma SplitWithoutSep(s: string, sep: string)
    requires |sep| > 0
    requires forall i: nat :: i < |s| ==> !OccursAt(s, sep, i)
    ensures Split(s, sep) == [s]
  {
    assert FindFrom(s, sep, 0).None?;
  }

  /** When the first occurrence of `sep` in `a + sep + b` is the one after
      `a`, the first part is `a` and the rest is split on its own. */
  lemma SplitAtFirst(a: string, sep: string, b: string)
    requires |sep| > 0
    requires forall i: nat :: i < |a| ==> !OccursAt(a + sep + b, sep, i)
    ensures Split(a + sep + b, sep) == [a] + Split(b, sep)
  {
    var s := a + sep + b;
    assert s[|a|..|a| + |sep|] == sep;
    assert OccursAt(s, sep, |a|);
    var r := FindFrom(s, sep, 0);
    assert r == Some(|a|);
    assert s[..|a|] == a;
    assert s[|a| + |sep|..] == b;
  }

  /** Python's `a <= b` on strings: lexicographic order by code point. */
  predicate LexLe(a: string, b: string)
    decreases |a|
  {
    |a| == 0 || (|b| > 0 && (a[0] < b[0] || (a[0] == b[0] && LexLe(a[1..], b[1..]))))
  }

  predicate LexLt(a: string, b: string)
  {
    LexLe(a, b) && a != b
  }

  lemma LexLeReflexive(a: string)
    ensures LexLe(a, a)
    decreases |a|
  {
    if |a| > 0 {
      LexLeReflexive(a[1..]);
    }
  }

  lemma LexLeTotal(a: string, b: string)
    ensures LexLe(a, b) || LexLe(b, a)
    decreases |a|
  {
    if |a| > 0 && |b| > 0 && a[0] == b[0] {
      LexLeTotal(a[1..], b[1..]);
    }
  }

  lemma LexLeAntisymmetric(a: string, b: string)
    requires LexLe(a, b) && LexLe(b, a)
    ensures a == b
    decreases |a|
  {
    if |a| > 0 && |b| > 0 {
      LexLeAntisymmetric(a[1..], b[1..]);
      assert a == [a[0]] + a[1..] && b == [b[0]] + b[1..];
    }
  }

  lemma LexLeTransitive(a: string, b: string, c: string)
    requires LexLe(a, b) && LexLe(b, c)
    ensures LexLe(a, c)
    decreases |a|
  {
    if |a| > 0 && |b| > 0 && |c| > 0 && a[0] == b[0] && b[0] == c[0] {
      LexLeTransitive(a[1..], b[1..], c[1..]);
    }
  }

  lemma LexLtTransitive(a: string, b: string, c: string)
    requires LexLt(a, b) && LexLt(b, c)
    ensures LexLt(a, c)
  {
    LexLeTransitive(a, b, c);
    if a == c {
      LexLeAntisymmetric(a, b);
    }
  }

  /** Of two different strings, one is strictly smaller. */
  lemma LexLtTotal(a: string, b: string)
    requires a != b
    ensures LexLt(a, b) || LexLt(b, a)
  {
    LexLeTotal(a, b);
  }

  predicate IsDigit(c: char)
  {
    '0' <= c <= '9'
  }

  predicate AllDigits(s: string)
  {
    forall i :: 0 <= i < |s| ==> IsDigit(s[i])
  }

  /** Value of a run of decimal digits, most significant first. */
  function DigitsValue(d: string): nat
    requires AllDigits(d)
    decreases |d|
  {
    if |d| == 0 then 0 else DigitsValue(d[..|d| - 1]) * 10 + (d[|d| - 1] as int - '0' as int)
  }

  /** Python's `int(s)` on decimal text: surrounding whitespace, an optional
      sign, then one or more ASCII digits; anything else raises (`None`). */
  function ParseInt(s: string): (r: Option<int>)
    ensures r.Some? ==> |Strip(s)| > 0
    ensures r.Some? ==> SpellsInt(Strip(s), r.value)
  {
    var t := Strip(s);
    if |t| > 0 && (t[0] == '-' || t[0] == '+') then
      var d := t[1..];
      if |d| > 0 && AllDigits(d) then
        var v: int := DigitsValue(d);
        SignedSpelling(t);
        Some(if t[0] == '-' then -v else v)
      else None
    else if |t| > 0 && AllDigits(t) then
      DigitsSpelling(t);
      Some(DigitsValue(t))
    else None
  }

  function Zeros(z: nat): (r: string)
    ensures |r| == z && AllDigits(r)
  {
    seq(z, _ => '0')
  }

  /** `t` is a text `int()` reads as `v`: an optional sign, any number of
      leading zeros, then the digits of `str(abs(v))`; a minus sign only in
      front of a value that is not positive (`-0` is 0). */
  ghost predicate SpellsInt(t: string, v: int)
  {
    var sign := if |t| > 0 && (t[0] == '-' || t[0] == '+') then t[..1] else "";
    var digits := ShowNat(if v < 0 then -v else v);
    && |sign| + |digits| <= |t|
    && t == sign + (Zeros(|t| - |sign| - |digits|) + digits)
    && (v < 0 ==> sign == "-")
    && (sign == "-" ==> v <= 0)
  }

  /** Decimal text of a natural number, as Python's `str(n)`. */
  function ShowNat(n: nat): (r: string)
    ensures |r| > 0 && AllDigits(r)
    decreases n
  {
    if n < 10 then [('0' as int + n) as char]
    else ShowNat(n / 10) + [('0' as int + n % 10) as char]
  }

  function ShowInt(n: int): string
  {
    if n < 0 then "-" + ShowNat(-n) else ShowNat(n)
  }

  lemma {:induction false} DigitsValueOfShowNat(n: nat)
    ensures DigitsValue(ShowNat(n)) == n
    decreases n
  {
    if n >= 10 {
      var s := ShowNat(n);
      DigitsValueOfShowNat(n / 10);
      assert s[..|s| - 1] == ShowNat(n / 10);
    }
  }

  /** A run of digits is its value's decimal text after some leading zeros. */
  lemma {:induction false} DigitsSpelling(d: string)
    requires |d| > 0 && AllDigits(d)
    ensures |ShowNat(DigitsValue(d))| <= |d|
    ensures d == Zeros(|d| - |ShowNat(DigitsValue(d))|) + ShowNat(DigitsValue(d))
    decreases |d|
  {
    var n := |d|;
    var c := d[n - 1];
    var k := c as int - '0' as int;
    var v := DigitsValue(d);
    if n == 1 {
      assert DigitsValue(d[..0]) == 0;
      assert v == k;
      assert ShowNat(v) == [c];
      assert d == Zeros(0) + [c];
    } else {
      var init := d[..n - 1];
      assert d == init + [c];
      var u := DigitsValue(init);
      assert v == u * 10 + k;
      DigitsSpelling(init);
      var z := |init| - |ShowNat(u)|;
      if u == 0 {
        assert ShowNat(0) == "0";
        assert init == Zeros(z) + "0" == Zeros(n - 1);
        assert ShowNat(v) == [c];
        assert d == Zeros(n - 1) + ShowNat(v);
      } else {
        assert v / 10 == u && v % 10 == k;
        assert ShowNat(v) == ShowNat(u) + [c];
        assert d == Zeros(z) + (ShowNat(u) + [c]);
      }
    }
  }

  /** A sign followed by digits spells the signed value of the digits. */
  lemma SignedSpelling(t: string)
    requires |t| > 1 && (t[0] == '-' || t[0] == '+') && AllDigits(t[1..])
    ensures SpellsInt(t, if t[0] == '-' then -(DigitsValue(t[1..]) as int) else DigitsValue(t[1..]))
  {
    var d := t[1..];
    DigitsSpelling(d);
    assert t == t[..1] + d;
  }

  /** Leading zeros add nothing to the value of a run of digits. */
  lemma {:induction false} DigitsValueAfterZeros(z: nat, d: string)
    requires AllDigits(d)
    ensures AllDigits(Zeros(z) + d)
    ensures DigitsValue(Zeros(z) + d) == DigitsValue(d)
    decreases |d|
  {
    var t := Zeros(z) + d;
    if |d| == 0 {
      assert t == Zeros(z);
      ZerosValue(z);
    } else {
      assert t[..|t| - 1] == Zeros(z) + d[..|d| - 1];
      DigitsValueAfterZeros(z, d[..|d| - 1]);
    }
  }

  lemma {:induction false} ZerosValue(z: nat)
    ensures DigitsValue(Zeros(z)) == 0
    decreases z
  {
    if z > 0 {
      assert Zeros(z)[..z - 1] == Zeros(z - 1);
      ZerosValue(z - 1);
    }
  }

  /** Zeros, then the digits of `m`: digits whose value is `m`. */
  function ZerosThenDigits(z: nat, m: nat): (d: string)
    ensures |d| > 0 && AllDigits(d) && DigitsValue(d) == m
  {
    DigitsValueAfterZeros(z, ShowNat(m));
    DigitsValueOfShowNat(m);
    Zeros(z) + ShowNat(m)
  }

  /** `int()` accepts exactly the spellings of `SpellsInt`: a text parses to
      `v` if and only if, once stripped, it spells `v`. */
  lemma ParseIntIff(s: string, v: int)
    ensures ParseInt(s) == Some(v) <==> SpellsInt(Strip(s), v)
  {
    var t := Strip(s);
    if SpellsInt(t, v) {
      var sign := if |t| > 0 && (t[0] == '-' || t[0] == '+') then t[..1] else "";
      var m: nat := if v < 0 then -v else v;
      ParseOfSpelling(s, sign, |t| - |sign| - |ShowNat(m)|, m);
    }
  }

  /** A text that strips to a sign, zeros and the digits of `m` parses to
      `m`, negated under a minus sign. */
  lemma ParseOfSpelling(s: string, sign: string, z: nat, m: nat)
    requires sign == "" || sign == "+" || sign == "-"
    requires Strip(s) == sign + (Zeros(z) + ShowNat(m))
    ensures ParseInt(s) == Some(if sign == "-" then -(m as int) else m)
  {
    var d := ZerosThenDigits(z, m);
    if sign == "" {
      assert Strip(s) == d;
      ParseOfDigits(s, d);
    } else {
      assert Strip(s) == [sign[0]] + d;
      ParseOfSigned(s, sign[0], d);
    }
  }

  lemma ParseOfDigits(s: string, d: string)
    requires |d| > 0 && AllDigits(d) && Strip(s) == d
    ensures ParseInt(s) == Some(DigitsValue(d))
  {
    assert IsDigit(d[0]);
  }

  lemma ParseOfSigned(s: string, c: char, d: string)
    requires (c == '-' || c == '+') && |d| > 0 && AllDigits(d) && Strip(s) == [c] + d
    ensures ParseInt(s) == Some(if c == '-' then -(DigitsValue(d) as int) else DigitsValue(d))
  {
    var t := Strip(s);
    assert t[0] == c;
    assert t[1..] == d;
    var v: int := DigitsValue(d);
    assert ParseInt(s) == Some(if c == '-' then -v else v);
  }

  lemma DigitIsNotSpace(c: char)
    requires IsDigit(c) || c == '-'
    ensures !IsSpace(c)
  {
  }

  lemma ShowIntIsTrimmed(n: int)
    ensures Strip(ShowInt(n)) == ShowInt(n)
  {
    var s := ShowInt(n);
    DigitIsNotSpace(s[0]);
    DigitIsNotSpace(s[|s| - 1]);
  }

  /** `int(str(n)) == n`: parsing undoes printing. */
  lemma ParseIntOfShowInt(n: int)
    ensures ParseInt(ShowInt(n)) == Some(n)
  {
    var s := ShowInt(n);
    ShowIntIsTrimmed(n);
    if n < 0 {
      DigitsValueOfShowNat(-n);
      assert s[1..] == ShowNat(-n);
    } else {
      DigitsValueOfShowNat(n);
      assert s[0] != '-' && s[0] != '+';
    }
  }
}
