/** The hint request of the AI problems page: the questions are cut out of
    the generated HTML list, the 1-based question number picks one of them,
    and the child's age is whole days since the date of birth divided by
    365. The hint text itself comes from an outside service and is not
    modelled; the outcome records what the request would use. */
module AiProblems {
  import opened Wrappers
  import opened Seqs
  import opened Text
  import opened Calendar
  import opened Records
  import opened Difficulty
  import QuestionCache

  const ItemOpen: string := "<li>"
  const ItemClose: string := "</li>"

  /** `html.split('<li>')[1:4]`: the text after each of the first three
      `<li>` markers, up to the next marker. */
  function ExtractQuestions(html: string): (qs: seq<string>)
    ensures var parts := Split(html, ItemOpen);
      && |qs| == (if |parts| - 1 < 3 then |parts| - 1 else 3)
      && forall i :: 0 <= i < |qs| ==> qs[i] == parts[i + 1]
    ensures forall i :: 0 <= i < |qs| ==> NoOccurrence(qs[i], ItemOpen)
  {
    var parts := Split(html, ItemOpen);
    parts[1..if |parts| < 4 then |parts| else 4]
  }

  /** `q.split('</li>')[0]`: the question up to its first closing tag, or
      all of it when there is none. */
  function CutAtClose(q: string): (r: string)
    ensures StartsWith(q, r)
    ensures NoOccurrence(r, ItemClose)
    ensures r == q || OccursAt(q, ItemClose, |r|)
  {
    var parts := Split(q, ItemClose);
    JoinStartsWithFirst(parts, ItemClose);
    parts[0]
  }

  /** The joined text starts with the first part, followed by the
      separator when there is a second part. */
  lemma JoinStartsWithFirst(parts: seq<string>, sep: string)
    requires |parts| > 0
    ensures StartsWith(Join(parts, sep), parts[0])
    ensures |parts| == 1 ==> Join(parts, sep) == parts[0]
    ensures |parts| > 1 ==> OccursAt(Join(parts, sep), sep, |parts[0]|)
  {
    if |parts| > 1 {
      var j := Join(parts, sep);
      assert j == parts[0] + sep + Join(parts[1..], sep);
      assert j[..|parts[0]|] == parts[0];
      assert j[|parts[0]|..|parts[0]| + |sep|] == sep;
    }
  }

  /** `questions[question_id - 1].split('</li>')[0]` with Python list
      indexing: `None` where the index raises. Question number 0 picks the
      last question, as index -1 does. */
  function SelectQuestion(html: string, questionId: int): (r: Option<string>)
    ensures var qs := ExtractQuestions(html);
      r.Some? <==> -|qs| <= questionId - 1 < |qs|
    ensures var qs := ExtractQuestions(html);
      1 <= questionId <= |qs| ==> r == Some(CutAtClose(qs[questionId - 1]))
    ensures var qs := ExtractQuestions(html);
      -|qs| <= questionId - 1 < 0 ==> r == Some(CutAtClose(qs[|qs| + questionId - 1]))
  {
    match PyIndex(ExtractQuestions(html), questionId - 1)
    case None => None
    case Some(q) => Some(CutAtClose(q))
  }

  /** Question number 0 asks about the last extracted question. */
  lemma QuestionZeroIsTheLast(html: string)
    requires |ExtractQuestions(html)| > 0
    ensures SelectQuestion(html, 0) == SelectQuestion(html, |ExtractQuestions(html)|)
  {
  }

  /** A question text without markup. */
  predicate Plain(q: string)
  {
    forall i :: 0 <= i < |q| ==> q[i] != '<'
  }

  /** The HTML list `<ul><li>q1</li>...<li>qn</li></ul>`. */
  function Render(qs: seq<string>): string
  {
    "<ul>" + Items(qs)
  }

  function Items(qs: seq<string>): string
  {
    if |qs| == 0 then "</ul>" else ItemOpen + qs[0] + ItemClose + Items(qs[1..])
  }

  /** Every `<` of `s` is followed, inside `s`, by a character other than `c`. */
  predicate TagsAvoid(s: string, c: char)
  {
    forall i :: 0 <= i < |s| && s[i] == '<' ==> i + 1 < |s| && s[i + 1] != c
  }

  lemma TagsAvoidConcat(a: string, b: string, c: char)
    requires TagsAvoid(a, c) && TagsAvoid(b, c)
    ensures TagsAvoid(a + b, c)
  {
    var s := a + b;
    forall i | 0 <= i < |s| && s[i] == '<'
      ensures i + 1 < |s| && s[i + 1] != c
    {
      if i < |a| {
        assert s[i] == a[i] && s[i + 1] == a[i + 1];
      } else {
        assert s[i] == b[i - |a|] && s[i + 1] == b[i - |a| + 1];
      }
    }
  }

  /** A marker starting with `<` cannot begin inside a string whose tags
      avoid the marker's second character. */
  lemma NoMarkerInside(a: string, rest: string, sep: string)
    requires |sep| >= 2 && sep[0] == '<' && TagsAvoid(a, sep[1])
    ensures forall i: nat :: i < |a| ==> !OccursAt(a + rest, sep, i)
  {
    var s := a + rest;
    forall i: nat | i < |a|
      ensures !OccursAt(s, sep, i)
    {
      assert s[i] == a[i];
      if i + 1 < |a| {
        assert s[i + 1] == a[i + 1];
      }
      if i + |sep| <= |s| {
        assert s[i..i + |sep|][0] == s[i] && s[i..i + |sep|][1] == s[i + 1];
      }
    }
  }

  /** What follows the `n`-th `<li>` in `Items(qs)` for a non-empty `qs`. */
  function Tail(qs: seq<string>): string
    requires |qs| > 0
  {
    qs[0] + ItemClose + Items(qs[1..])
  }

  /** The expected split pieces of `Tail(qs)`. */
  function Pieces(qs: seq<string>): (p: seq<string>)
    requires |qs| > 0
    ensures |p| == |qs|
    ensures forall i :: 0 <= i < |qs| ==> StartsWith(p[i], qs[i] + ItemClose)
  {
    seq(|qs|, i requires 0 <= i < |qs| => qs[i] + ItemClose + (if i == |qs| - 1 then "</ul>" else ""))
  }

  lemma PlainAvoids(q: string, c: char)
    requires Plain(q)
    ensures TagsAvoid(q, c)
  {
  }

  lemma CloseAvoids()
    ensures TagsAvoid(ItemClose, 'l') && TagsAvoid("</ul>", 'l')
  {
  }

  lemma {:induction false} SplitTail(qs: seq<string>)
    requires |qs| > 0
    requires forall i :: 0 <= i < |qs| ==> Plain(qs[i])
    ensures Split(Tail(qs), ItemOpen) == Pieces(qs)
    decreases |qs|
  {
    if |qs| == 1 {
      SplitLastTail(qs);
    } else {
      SplitTail(qs[1..]);
      SplitTailStep(qs);
    }
  }

  lemma HeadAvoids(q: string)
    requires Plain(q)
    ensures TagsAvoid(q + ItemClose, 'l')
  {
    PlainAvoids(q, 'l');
    CloseAvoids();
    TagsAvoidConcat(q, ItemClose, 'l');
  }

  lemma SplitLastTail(qs: seq<string>)
    requires |qs| == 1 && Plain(qs[0])
    ensures Split(Tail(qs), ItemOpen) == Pieces(qs)
  {
    HeadAvoids(qs[0]);
    CloseAvoids();
    assert Items(qs[1..]) == "</ul>";
    TagsAvoidConcat(qs[0] + ItemClose, "</ul>", 'l');
    NoMarkerInside(Tail(qs), "", ItemOpen);
    assert Tail(qs) + "" == Tail(qs);
    SplitWithoutSep(Tail(qs), ItemOpen);
  }

  lemma SplitTailStep(qs: seq<string>)
    requires |qs| > 1 && Plain(qs[0])
    requires Split(Tail(qs[1..]), ItemOpen) == Pieces(qs[1..])
    ensures Split(Tail(qs), ItemOpen) == Pieces(qs)
  {
    var head := qs[0] + ItemClose;
    HeadAvoids(qs[0]);
    var rest := qs[1..];
    assert Items(rest) == ItemOpen + Tail(rest);
    assert Tail(qs) == head + ItemOpen + Tail(rest);
    NoMarkerInside(head, ItemOpen + Tail(rest), ItemOpen);
    assert head + (ItemOpen + Tail(rest)) == head + ItemOpen + Tail(rest);
    SplitAtFirst(head, ItemOpen, Tail(rest));
    PiecesStep(qs);
  }

  lemma PiecesStep(qs: seq<string>)
    requires |qs| > 1
    ensures Pieces(qs) == [qs[0] + ItemClose] + Pieces(qs[1..])
  {
    var p := Pieces(qs);
    var q := [qs[0] + ItemClose] + Pieces(qs[1..]);
    assert |p| == |q|;
    forall i | 0 <= i < |p|
      ensures p[i] == q[i]
    {
      if i > 0 {
        assert qs[1..][i - 1] == qs[i];
      }
    }
  }

  /** Cutting a piece at its closing tag gives the plain question back. */
  lemma CutPiece(q: string, after: string)
    requires Plain(q)
    ensures CutAtClose(q + ItemClose + after) == q
  {
    PlainAvoids(q, '/');
    NoMarkerInside(q, ItemClose + after, ItemClose);
    assert q + (ItemClose + after) == q + ItemClose + after;
    SplitAtFirst(q, ItemClose, after);
  }

  /** Round trip: from an HTML list of plain questions, question number `k`
      (1 to 3) is the `k`-th question, and at most three are extracted. */
  lemma SelectFromRendered(qs: seq<string>, k: int)
    requires |qs| > 0 && forall i :: 0 <= i < |qs| ==> Plain(qs[i])
    requires 1 <= k <= 3 && k <= |qs|
    ensures |ExtractQuestions(Render(qs))| == if |qs| < 3 then |qs| else 3
    ensures SelectQuestion(Render(qs), k) == Some(qs[k - 1])
  {
    assert Items(qs) == ItemOpen + Tail(qs);
    assert Render(qs) == "<ul>" + ItemOpen + Tail(qs);
    NoMarkerInside("<ul>", ItemOpen + Tail(qs), ItemOpen);
    assert "<ul>" + (ItemOpen + Tail(qs)) == "<ul>" + ItemOpen + Tail(qs);
    SplitAtFirst("<ul>", ItemOpen, Tail(qs));
    SplitTail(qs);
    var parts := Split(Render(qs), ItemOpen);
    assert parts == ["<ul>"] + Pieces(qs);
    var piece := Pieces(qs)[k - 1];
    assert ExtractQuestions(Render(qs))[k - 1] == piece;
    CutPiece(qs[k - 1], if k - 1 == |qs| - 1 then "</ul>" else "");
  }

  /** `(date.today() - dob).days // 365`: whole days divided by 365, rounded
      down (so a date of birth in the future gives a negative age). */
  function Age(today: Date, dob: Date): (a: int)
    requires ValidDate(today) && ValidDate(dob)
    ensures a * 365 <= Ordinal(today) - Ordinal(dob) < a * 365 + 365
  {
    (Ordinal(today) - Ordinal(dob)) / 365
  }

  /** A date of birth after today gives a negative age. */
  lemma FutureBirthGivesNegativeAge(today: Date, dob: Date)
    requires ValidDate(today) && ValidDate(dob) && Ordinal(dob) > Ordinal(today)
    ensures Age(today, dob) < 0
  {
  }

  /** Where `get_hint` ends: an uncaught error (`Raised`), one of the two
      redirects with a flashed message, or the hint prompt's inputs. */
  datatype HintOutcome = Raised | UserNotFound | DobMissing | Hint(age: int, question: string)

  /** `get_hint` for user `name`, form field `questionId`, and `problems`,
      the HTML that `fetch_ai_problems` returns for the user. The steps run in
      the source's order: the number is parsed first, then the user is looked
      up, the date of birth checked and parsed, and last the question picked. */
  function GetHint(questionId: Option<string>, users: seq<User>, name: string, today: Date, problems: string): (r: HintOutcome)
    requires ValidDate(today)
    ensures QuestionNumber(questionId).None? ==> r == Raised
    ensures r == UserNotFound <==> QuestionNumber(questionId).Some? && NoUserNamed(users, name)
    ensures forall i :: FirstNamed(users, name, i) ==>
      (r == DobMissing <==> QuestionNumber(questionId).Some? && users[i].dob == "")
    ensures forall i :: FirstNamed(users, name, i) && QuestionNumber(questionId).Some? && users[i].dob != "" ==>
      match ParseDate(users[i].dob)
      case None => r == Raised
      case Some(dob) =>
        match SelectQuestion(problems, QuestionNumber(questionId).value)
        case None => r == Raised
        case Some(q) => r == Hint(Age(today, dob), q)
    ensures r.Hint? ==> exists i :: (
      && FirstNamed(users, name, i)
      && ParseDate(users[i].dob).Some?
      && r.age == Age(today, ParseDate(users[i].dob).value)
      && Some(r.question) == SelectQuestion(problems, QuestionNumber(questionId).value))
  {
    if questionId.None? then Raised
    else match ParseInt(questionId.value)
      case None => Raised
      case Some(id) =>
        match NamedFirst(users, name)
        case None => UserNotFound
        case Some(i) =>
          var user := users[i];
          if user.dob == "" then DobMissing
          else match ParseDate(user.dob)
            case None => Raised
            case Some(dob) =>
              var age := Age(today, dob);
              match SelectQuestion(problems, id)
              case None => Raised
              case Some(q) => Hint(age, q)
  }

  /** `int(request.form.get('question_id'))`: `None` where it raises, for a
      missing field or text that is not an integer. */
  function QuestionNumber(questionId: Option<string>): Option<int>
  {
    if questionId.None? then None else ParseInt(questionId.value)
  }

  /** The whole request end to end: for a user whose date of birth is stored
      as `strftime` writes it, asking about question `k` of a rendered list
      of plain questions yields the age from that date and question `k`
      itself. */
  lemma HintForRenderedQuestions(users: seq<User>, name: string, i: nat, today: Date, dob: Date,
                                 qs: seq<string>, k: int)
    requires ValidDate(today) && ValidDate(dob)
    requires FirstNamed(users, name, i) && users[i].dob == FormatDate(dob)
    requires |qs| > 0 && forall j :: 0 <= j < |qs| ==> Plain(qs[j])
    requires 1 <= k <= 3 && k <= |qs|
    ensures GetHint(Some(ShowInt(k)), users, name, today, Render(qs)) == Hint(Age(today, dob), qs[k - 1])
  {
    ParseIntOfShowInt(k);
    assert QuestionNumber(Some(ShowInt(k))) == Some(k);
    ParseFormattedDate(dob);
    SelectFromRendered(qs, k);
  }

  /** The user whose questions `get_hint` fetches at line 52, the first step
      with an effect: reached only once the question number parses, the user
      is found, and a date of birth is present and parses. */
  function FetchingUser(questionId: Option<string>, users: seq<User>, name: string): (r: Option<nat>)
    ensures r.Some? <==> (QuestionNumber(questionId).Some? &&
      exists i :: FirstNamed(users, name, i) && users[i].dob != "" && ParseDate(users[i].dob).Some?)
    ensures r.Some? ==> FirstNamed(users, name, r.value)
  {
    if QuestionNumber(questionId).None? then None
    else match NamedFirst(users, name)
      case None => None
      case Some(i) => if users[i].dob != "" && ParseDate(users[i].dob).Some? then Some(i) else None
  }

  /** `get_hint` with both of its `fetch_ai_problems` calls (lines 52 and 74
      of routes/ai_problems.py), each for the user's stored difficulty
      without a forced refresh: the outcome and the question log afterwards.
      `day` is the cache's date; `stamp`, `reply` and `stamp2`, `reply2` are
      the clock and the generator's answer at the call of line 52 and at the
      call of line 74, which is reached only with a hint. An error at line 53
      comes after the first call has logged. */
  function HintRoute(questionId: Option<string>, users: seq<User>, name: string, today: Date,
                     log: seq<QuestionCache.CacheEntry>, day: string,
                     stamp: string, reply: Option<string>, stamp2: string, reply2: Option<string>)
    : (r: (HintOutcome, seq<QuestionCache.CacheEntry>))
    requires ValidDate(today)
    ensures FetchingUser(questionId, users, name).None? ==>
      r == (GetHint(questionId, users, name, today, ""), log)
    ensures FetchingUser(questionId, users, name).Some? ==>
      var i := FetchingUser(questionId, users, name).value;
      r.0 == GetHint(questionId, users, name, today,
                     QuestionCache.FetchAiProblems(log, name, users[i].aiDifficulty, false, day, stamp, reply).0)
    ensures |log| <= |r.1| <= |log| + 2 && r.1[..|log|] == log
  {
    match FetchingUser(questionId, users, name)
    case None => (GetHint(questionId, users, name, today, ""), log)
    case Some(i) =>
      var level := users[i].aiDifficulty;
      var first := QuestionCache.FetchAiProblems(log, name, level, false, day, stamp, reply);
      QuestionCache.FetchAppendsAtMostOne(log, name, level, false, day, stamp, reply);
      var outcome := GetHint(questionId, users, name, today, first.0);
      (outcome, LogAfterHint(outcome, first.1, name, level, day, stamp2, reply2))
  }

  /** The log after line 74: fetched again only when a hint was reached. */
  function LogAfterHint(outcome: HintOutcome, log: seq<QuestionCache.CacheEntry>, name: string, level: int,
                        day: string, stamp2: string, reply2: Option<string>): (r: seq<QuestionCache.CacheEntry>)
    ensures |log| <= |r| <= |log| + 1 && r[..|log|] == log
    ensures outcome.Hint? ==> r == QuestionCache.FetchAiProblems(log, name, level, false, day, stamp2, reply2).1
    ensures !outcome.Hint? ==> r == log
  {
    if outcome.Hint? then
      QuestionCache.FetchAppendsAtMostOne(log, name, level, false, day, stamp2, reply2);
      QuestionCache.FetchAiProblems(log, name, level, false, day, stamp2, reply2).1
    else log
  }

  /** A request that stops before line 52 has the same outcome whatever
      questions the cache would have shown. */
  lemma EarlyExitIgnoresQuestions(questionId: Option<string>, users: seq<User>, name: string, today: Date,
                                  p1: string, p2: string)
    requires ValidDate(today)
    requires FetchingUser(questionId, users, name).None?
    ensures GetHint(questionId, users, name, today, p1) == GetHint(questionId, users, name, today, p2)
  {
  }

  /** With the clock moving forward (the first call's stamp is of `day` and
      later than every entry of that day for the user and level), one hint
      request adds at most one entry to the question log: a list generated
      at line 52 is the one read back at line 74. */
  lemma HintRouteLogsAtMostOne(questionId: Option<string>, users: seq<User>, name: string, today: Date,
                               log: seq<QuestionCache.CacheEntry>, day: string,
                               stamp: string, reply: Option<string>, stamp2: string, reply2: Option<string>)
    requires ValidDate(today)
    requires StartsWith(stamp, day)
    requires forall i, j ::
      (FirstNamed(users, name, i) && 0 <= j < |log| && QuestionCache.Matches(log[j], name, users[i].aiDifficulty, day))
      ==> LexLt(log[j].timestamp, stamp)
    ensures var r := HintRoute(questionId, users, name, today, log, day, stamp, reply, stamp2, reply2);
      r.1 == log || (|r.1| == |log| + 1 && r.1[|log|].user == name)
  {
    match FetchingUser(questionId, users, name)
    case None =>
    case Some(i) =>
      var level := users[i].aiDifficulty;
      var first := QuestionCache.FetchAiProblems(log, name, level, false, day, stamp, reply);
      var outcome := GetHint(questionId, users, name, today, first.0);
      var r := HintRoute(questionId, users, name, today, log, day, stamp, reply, stamp2, reply2);
      assert r.1 == LogAfterHint(outcome, first.1, name, level, day, stamp2, reply2);
      QuestionCache.FetchAppendsAtMostOne(log, name, level, false, day, stamp, reply);
      if first.1 == log {
        QuestionCache.FetchAppendsAtMostOne(log, name, level, false, day, stamp2, reply2);
      } else {
        assert forall j :: 0 <= j < |log| && QuestionCache.Matches(log[j], name, level, day) ==>
          LexLt(log[j].timestamp, stamp);
        QuestionCache.SecondCallIsCached(log, name, level, false, day, stamp, reply.value, stamp2, reply2);
      }
  }

  /** A question number out of range raises at line 53 only after line 52
      has generated and logged the list: the entry stays in the log. */
  lemma ErrorAfterFetchKeepsEntry(questionId: Option<string>, users: seq<User>, name: string, today: Date,
                                  log: seq<QuestionCache.CacheEntry>, day: string,
                                  stamp: string, reply: string, stamp2: string, reply2: Option<string>, i: nat)
    requires ValidDate(today)
    requires FetchingUser(questionId, users, name) == Some(i)
    requires QuestionCache.NoMatch(log, name, users[i].aiDifficulty, day)
    requires GetHint(questionId, users, name, today, QuestionCache.StripFences(Strip(reply))) == Raised
    ensures HintRoute(questionId, users, name, today, log, day, stamp, Some(reply), stamp2, reply2)
         == (Raised, log + [QuestionCache.CacheEntry(name, users[i].aiDifficulty, QuestionCache.StripFences(Strip(reply)), stamp)])
  {
  }
}
