/** The frequency rule deciding whether a task is due on a weekday: the
    literal "daily" in any case, or a comma-separated list of day names that
    are trimmed and capitalised before comparison. */
module Schedule {
  import opened Text
  import opened Calendar

  /** The frequency's comma-separated parts after `strip().capitalize()`. */
  function DayNames(frequency: string): (names: seq<string>)
    ensures |names| == |Split(frequency, ",")|
  {
    var parts := Split(frequency, ",");
    seq(|parts|, i requires 0 <= i < |parts| => Capitalize(Strip(parts[i])))
  }

  /** `frequency.lower() == "daily" or weekday in [day.strip().capitalize()
      for day in frequency.split(",")]`. */
  predicate IsDue(frequency: string, w: DayName)
  {
    Lower(frequency) == "daily" || Abbrev(w) in DayNames(frequency)
  }

  /** A task is due exactly when its frequency is "daily" ignoring case, or
      one of its comma-separated parts, trimmed, names the weekday ignoring
      case. */
  lemma IsDueIff(frequency: string, w: DayName)
    ensures IsDue(frequency, w) <==>
      || Lower(frequency) == "daily"
      || exists p :: p in Split(frequency, ",") && Lower(Strip(p)) == Lower(Abbrev(w))
  {
    if Abbrev(w) in DayNames(frequency) {
      DueByNameHasPart(frequency, w);
    }
    if exists p :: p in Split(frequency, ",") && Lower(Strip(p)) == Lower(Abbrev(w)) {
      SomePartMakesDue(frequency, w);
    }
  }

  lemma SomePartMakesDue(frequency: string, w: DayName)
    requires exists p :: p in Split(frequency, ",") && Lower(Strip(p)) == Lower(Abbrev(w))
    ensures Abbrev(w) in DayNames(frequency)
  {
    var parts := Split(frequency, ",");
    var p :| p in parts && Lower(Strip(p)) == Lower(Abbrev(w));
    var i :| 0 <= i < |parts| && parts[i] == p;
    PartMakesDue(frequency, w, i);
  }

  lemma DueByNameHasPart(frequency: string, w: DayName)
    requires Abbrev(w) in DayNames(frequency)
    ensures exists p :: p in Split(frequency, ",") && Lower(Strip(p)) == Lower(Abbrev(w))
  {
    var parts := Split(frequency, ",");
    var names := DayNames(frequency);
    var i :| 0 <= i < |names| && names[i] == Abbrev(w);
    PartMatches(frequency, w, i);
    assert parts[i] in parts;
  }

  lemma PartMakesDue(frequency: string, w: DayName, i: nat)
    requires i < |Split(frequency, ",")|
    requires Lower(Strip(Split(frequency, ",")[i])) == Lower(Abbrev(w))
    ensures Abbrev(w) in DayNames(frequency)
  {
    PartMatches(frequency, w, i);
    assert DayNames(frequency)[i] == Abbrev(w);
  }

  lemma PartMatches(frequency: string, w: DayName, i: nat)
    requires i < |Split(frequency, ",")|
    ensures DayNames(frequency)[i] == Abbrev(w)
        <==> Lower(Strip(Split(frequency, ",")[i])) == Lower(Abbrev(w))
  {
    CapitalizedMatchIgnoresCase(Strip(Split(frequency, ",")[i]), Abbrev(w));
  }

  lemma OccursAtSingle(s: string, c: char, i: nat)
    ensures OccursAt(s, [c], i) <==> i < |s| && s[i] == c
  {
    if i < |s| {
      assert s[i..i + 1] == [s[i]];
    }
  }

  /** A frequency without a comma is a single part. */
  lemma SplitWithoutComma(s: string)
    requires forall i :: 0 <= i < |s| ==> s[i] != ','
    ensures Split(s, ",") == [s]
  {
    forall i: nat
      ensures !OccursAt(s, ",", i)
    {
      OccursAtSingle(s, ',', i);
    }
    assert FindFrom(s, ",", 0).None?;
  }

  lemma LetterIsNotSpace(c: char)
    requires 'A' <= c <= 'Z' || 'a' <= c <= 'z'
    ensures !IsSpace(c)
  {
  }

  /** A word with no comma and no blank is a single part, kept as it is by
      `strip()`. */
  lemma PlainWordNames(f: string)
    requires forall i :: 0 <= i < |f| ==> f[i] != ',' && !IsSpace(f[i])
    ensures DayNames(f) == [Capitalize(f)]
  {
    SplitWithoutComma(f);
    if |f| > 0 {
      assert !IsSpace(f[0]) && !IsSpace(f[|f| - 1]);
    }
    assert Strip(f) == f;
  }

  /** A weekday abbreviation is a plain word of letters. */
  lemma AbbrevPlain(w: DayName)
    ensures forall i :: 0 <= i < |Abbrev(w)| ==> Abbrev(w)[i] != ',' && !IsSpace(Abbrev(w)[i])
  {
    var f := Abbrev(w);
    forall i | 0 <= i < |f|
      ensures f[i] != ',' && !IsSpace(f[i])
    {
      assert 'A' <= f[i] <= 'Z' || 'a' <= f[i] <= 'z';
      LetterIsNotSpace(f[i]);
    }
  }

  /** "mon" and " MON " are both due on Monday. */
  lemma DayNameIgnoresCaseAndBlanks()
    ensures IsDue("mon", Mon) && IsDue(" MON ", Mon)
  {
    LowerMonIsDue();
    PaddedMonIsDue();
  }

  lemma LowerMonIsDue()
    ensures IsDue("mon", Mon)
  {
    var f := "mon";
    SplitWithoutComma(f);
    LetterIsNotSpace('m');
    LetterIsNotSpace('n');
    assert Strip(f) == f;
    MonPartMakesDue(f);
  }

  lemma PaddedMonIsDue()
    ensures IsDue(" MON ", Mon)
  {
    var f := " MON ";
    assert f == [' '] + "MON" + [' '];
    SplitWithoutComma(f);
    LetterIsNotSpace('M');
    LetterIsNotSpace('N');
    StripOneBlankEachEnd("MON");
    MonPartMakesDue(f);
  }

  /** `strip()` removes one blank on each side of a word. */
  lemma StripOneBlankEachEnd(x: string)
    requires |x| > 0 && !IsSpace(x[0]) && !IsSpace(x[|x| - 1])
    ensures Strip([' '] + x + [' ']) == x
  {
    var s := [' '] + x + [' '];
    assert IsSpace(s[0]) && s[1] == x[0];
    assert SkipSpace(s, 1) == 1;
    assert SkipSpace(s, 0) == 1;
    assert IsSpace(s[|s| - 1]) && s[|s| - 2] == x[|x| - 1];
    assert SkipSpaceBack(s, 1, |s| - 1) == |s| - 1;
    assert SkipSpaceBack(s, 1, |s|) == |s| - 1;
    assert s[1..|s| - 1] == x;
  }

  lemma MonPartMakesDue(f: string)
    requires Split(f, ",") == [f]
    requires Strip(f) == "mon" || Strip(f) == "MON"
    ensures IsDue(f, Mon)
  {
    assert Lower(Strip(f)) == "mon" == Lower(Abbrev(Mon));
    assert Split(f, ",")[0] == f;
    PartMakesDue(f, Mon, 0);
  }

  /** A full day name such as "monday" is never due. */
  lemma FullDayNameNeverDue(w: DayName)
    ensures !IsDue("monday", w)
  {
    SplitWithoutComma("monday");
    LetterIsNotSpace('m');
    LetterIsNotSpace('y');
    assert Strip("monday") == "monday";
    assert |DayNames("monday")[0]| == 6;
    assert |Lower("monday")| != |"daily"|;
  }

  /** "daily" is due on every weekday, in any case. */
  lemma DailyAlwaysDue(w: DayName)
    ensures IsDue("daily", w) && IsDue("DAILY", w) && IsDue("Daily", w)
  {
    assert Lower("daily") == "daily";
    assert Lower("DAILY") == "daily";
    assert Lower("Daily") == "daily";
  }

  /** A frequency naming a single weekday, such as "Mon", is due on that
      weekday and on no other. */
  lemma SingleDayDueOnlyThatDay(v: DayName, w: DayName)
    ensures IsDue(Abbrev(v), w) <==> v == w
  {
    var f := Abbrev(v);
    AbbrevPlain(v);
    PlainWordNames(f);
    assert DayNames(f) == [f];
    assert |Lower(f)| != |"daily"|;
    if Abbrev(w) == f {
      AbbrevInjective(v, w);
    }
  }

  lemma AbbrevInjective(v: DayName, w: DayName)
    requires Abbrev(v) == Abbrev(w)
    ensures v == w
  {
    assert Abbrev(v)[0] == Abbrev(w)[0] && Abbrev(v)[1] == Abbrev(w)[1];
  }
}
