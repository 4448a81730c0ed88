/** The question cache of the AI problems feature: an append-only log of
    generated question lists, read back for the same user, difficulty and
    day unless a refresh is forced. The generator is an opaque reply that is
    either some text or a failure; the clock is a pair of parameters (the
    day `YYYY-MM-DD` and the stamp `YYYY-MM-DD HH:MM:SS` of the call). */
module QuestionCache {
  import opened Wrappers
  import opened Text

  /** One logged generation. */
  datatype CacheEntry = CacheEntry(user: string, difficulty: int, questions: string, timestamp: string)

  /** What the page shows when generation fails. */
  const ErrorHtml: string := "<p>Error fetching AI problems. Please try again later.</p>"

  const OpenFence: string := "```html"
  const CloseFence: string := "```"

  /** An entry for this user and difficulty stamped on day `today`. */
  predicate Matches(e: CacheEntry, user: string, difficulty: int, today: string)
  {
    e.user == user && e.difficulty == difficulty && StartsWith(e.timestamp, today)
  }

  /** Entry `i` is what `sorted(matching, key=timestamp, reverse=True)[0]`
      picks: it matches, no matching entry has a later stamp, and (the sort
      being stable) every earlier matching entry has a strictly earlier one. */
  predicate IsLatestMatch(log: seq<CacheEntry>, user: string, difficulty: int, today: string, i: int)
  {
    && 0 <= i < |log|
    && Matches(log[i], user, difficulty, today)
    && (forall j :: 0 <= j < |log| && Matches(log[j], user, difficulty, today) ==> LexLe(log[j].timestamp, log[i].timestamp))
    && (forall j :: 0 <= j < i && Matches(log[j], user, difficulty, today) ==> LexLt(log[j].timestamp, log[i].timestamp))
  }

  predicate NoMatch(log: seq<CacheEntry>, user: string, difficulty: int, today: string)
  {
    forall j :: 0 <= j < |log| ==> !Matches(log[j], user, difficulty, today)
  }

  /** The cached entry to reuse among the first `n` entries, if any. */
  function LatestMatchIn(log: seq<CacheEntry>, user: string, difficulty: int, today: string, n: nat): (r: Option<nat>)
    requires n <= |log|
    ensures r.None? <==> NoMatch(log[..n], user, difficulty, today)
    ensures r.Some? ==> IsLatestMatch(log[..n], user, difficulty, today, r.value)
    decreases n
  {
    if n == 0 then None
    else
      var best := LatestMatchIn(log, user, difficulty, today, n - 1);
      var prefix := log[..n];
      var e := log[n - 1];
      assert log[..n - 1] == prefix[..n - 1];
      if best.None? then
        FirstMatch(prefix, user, difficulty, today);
        if Matches(e, user, difficulty, today) then Some(n - 1) else None
      else if Matches(e, user, difficulty, today) && LexLt(log[best.value].timestamp, e.timestamp) then
        NewLatest(prefix, user, difficulty, today, best.value);
        Some(n - 1)
      else
        KeepBest(prefix, user, difficulty, today, best.value);
        best
  }

  /** After no match, the next entry is the latest match exactly when it
      matches. */
  lemma FirstMatch(log: seq<CacheEntry>, user: string, difficulty: int, today: string)
    requires |log| > 0 && NoMatch(log[..|log| - 1], user, difficulty, today)
    ensures NoMatch(log, user, difficulty, today) <==> !Matches(log[|log| - 1], user, difficulty, today)
    ensures Matches(log[|log| - 1], user, difficulty, today) ==> IsLatestMatch(log, user, difficulty, today, |log| - 1)
  {
    var last := log[|log| - 1];
    LexLeReflexive(last.timestamp);
    forall j | 0 <= j < |log| - 1
      ensures !Matches(log[j], user, difficulty, today)
    {
      assert log[..|log| - 1][j] == log[j];
    }
  }

  /** The latest match so far stays the latest when the next entry does not
      match or is not stamped strictly later. */
  lemma KeepBest(log: seq<CacheEntry>, user: string, difficulty: int, today: string, b: nat)
    requires |log| > 0 && b < |log| - 1
    requires IsLatestMatch(log[..|log| - 1], user, difficulty, today, b)
    requires !(Matches(log[|log| - 1], user, difficulty, today) && LexLt(log[b].timestamp, log[|log| - 1].timestamp))
    ensures IsLatestMatch(log, user, difficulty, today, b)
  {
    var last := log[|log| - 1];
    assert log[..|log| - 1][b] == log[b];
    if Matches(last, user, difficulty, today) {
      LexLeTotal(last.timestamp, log[b].timestamp);
    }
    forall j | 0 <= j < |log| - 1
      ensures log[..|log| - 1][j] == log[j]
    {
    }
  }

  lemma NewLatest(log: seq<CacheEntry>, user: string, difficulty: int, today: string, b: nat)
    requires |log| > 0 && b < |log| - 1
    requires IsLatestMatch(log[..|log| - 1], user, difficulty, today, b)
    requires Matches(log[|log| - 1], user, difficulty, today)
    requires LexLt(log[b].timestamp, log[|log| - 1].timestamp)
    ensures IsLatestMatch(log, user, difficulty, today, |log| - 1)
  {
    var last := log[|log| - 1];
    LexLeReflexive(last.timestamp);
    forall j | 0 <= j < |log| - 1 && Matches(log[j], user, difficulty, today)
      ensures LexLt(log[j].timestamp, last.timestamp)
    {
      assert log[..|log| - 1][j] == log[j];
      LexLeLtTransitive(log[j].timestamp, log[b].timestamp, last.timestamp);
    }
  }

  lemma LexLeLtTransitive(a: string, b: string, c: string)
    requires LexLe(a, b) && LexLt(b, c)
    ensures LexLt(a, c)
  {
    if a == b {
    } else {
      LexLtTransitive(a, b, c);
    }
  }

  /** The cached entry `fetch_ai_problems` reuses, if any. */
  function LatestMatch(log: seq<CacheEntry>, user: string, difficulty: int, today: string): (r: Option<nat>)
    ensures r.None? <==> NoMatch(log, user, difficulty, today)
    ensures r.Some? ==> IsLatestMatch(log, user, difficulty, today, r.value)
  {
    assert log[..|log|] == log;
    LatestMatchIn(log, user, difficulty, today, |log|)
  }

  /** Removes a leading "```html" (7 characters) and then a trailing "```"
      (3 characters), each only when present. */
  function StripFences(s: string): (r: string)
    ensures !StartsWith(s, OpenFence) && !EndsWith(s, CloseFence) ==> r == s
    ensures StartsWith(s, OpenFence) && !EndsWith(s[7..], CloseFence) ==> r == s[7..]
    ensures !StartsWith(s, OpenFence) && EndsWith(s, CloseFence) ==> r == s[..|s| - 3]
    ensures StartsWith(s, OpenFence) && EndsWith(s[7..], CloseFence) ==> r == s[7..|s| - 3]
  {
    var a := if StartsWith(s, OpenFence) then s[|OpenFence|..] else s;
    if EndsWith(a, CloseFence) then a[..|a| - |CloseFence|] else a
  }

  /** Fencing a reply in "```html" ... "```" and stripping the fences gives
      the reply back. */
  lemma StripFencesOfFenced(body: string)
    ensures StripFences(OpenFence + body + CloseFence) == body
  {
    var s := OpenFence + body + CloseFence;
    assert s[..7] == OpenFence;
    assert s[7..] == body + CloseFence;
    assert s[7..][|s[7..]| - 3..] == CloseFence;
    assert s[7..|s| - 3] == body;
  }

  /** `save_questions_to_json`: appends one entry at the end and keeps every
      earlier entry in place. */
  function SaveQuestions(log: seq<CacheEntry>, user: string, difficulty: int, questions: string, stamp: string): (r: seq<CacheEntry>)
    ensures |r| == |log| + 1
    ensures r[..|log|] == log
    ensures r[|log|] == CacheEntry(user, difficulty, questions, stamp)
  {
    log + [CacheEntry(user, difficulty, questions, stamp)]
  }

  /** `fetch_ai_problems`: the shown HTML and the log afterwards. Without a
      forced refresh, a matching entry of the day is reused and the log is
      left alone. Otherwise the reply is stripped of blanks and fences,
      logged with `stamp` and shown; a failed reply shows the error text and
      logs nothing. */
  function FetchAiProblems(log: seq<CacheEntry>, user: string, difficulty: int, forceRefresh: bool,
                           today: string, stamp: string, reply: Option<string>): (r: (string, seq<CacheEntry>))
    ensures !forceRefresh && !NoMatch(log, user, difficulty, today) ==>
      r.1 == log && exists i :: IsLatestMatch(log, user, difficulty, today, i) && r.0 == log[i].questions
    ensures (forceRefresh || NoMatch(log, user, difficulty, today)) && reply.Some? ==>
      r.0 == StripFences(Strip(reply.value)) && r.1 == SaveQuestions(log, user, difficulty, r.0, stamp)
    ensures (forceRefresh || NoMatch(log, user, difficulty, today)) && reply.None? ==>
      r == (ErrorHtml, log)
  {
    var cached := if forceRefresh then None else LatestMatch(log, user, difficulty, today);
    if cached.Some? then (log[cached.value].questions, log)
    else match reply
      case None => (ErrorHtml, log)
      case Some(content) =>
        var html := StripFences(Strip(content));
        (html, SaveQuestions(log, user, difficulty, html, stamp))
  }

  /** A call leaves the log as it was or appends exactly one entry; a failed
      reply never appends. */
  lemma FetchAppendsAtMostOne(log: seq<CacheEntry>, user: string, difficulty: int, forceRefresh: bool,
                              today: string, stamp: string, reply: Option<string>)
    ensures var r := FetchAiProblems(log, user, difficulty, forceRefresh, today, stamp, reply);
      r.1 == log || r.1 == log + [CacheEntry(user, difficulty, r.0, stamp)]
    ensures reply.None? ==> FetchAiProblems(log, user, difficulty, forceRefresh, today, stamp, reply).1 == log
  {
  }

  /** A forced refresh never reads the log: its result is the same for any
      two logs, up to the entry it appends. */
  lemma ForceRefreshIgnoresCache(log1: seq<CacheEntry>, log2: seq<CacheEntry>, user: string, difficulty: int,
                                 today: string, stamp: string, reply: Option<string>)
    ensures FetchAiProblems(log1, user, difficulty, true, today, stamp, reply).0
         == FetchAiProblems(log2, user, difficulty, true, today, stamp, reply).0
  {
  }

  /** With a clock that moves forward, a second call on the same day without
      a refresh serves what the first call showed and logs nothing more. */
  lemma SecondCallIsCached(log: seq<CacheEntry>, user: string, difficulty: int, forceRefresh: bool,
                           today: string, stamp: string, reply: string, stamp2: string, reply2: Option<string>)
    requires StartsWith(stamp, today)
    requires forall j :: 0 <= j < |log| && Matches(log[j], user, difficulty, today) ==> LexLt(log[j].timestamp, stamp)
    ensures var first := FetchAiProblems(log, user, difficulty, forceRefresh, today, stamp, Some(reply));
      FetchAiProblems(first.1, user, difficulty, false, today, stamp2, reply2) == first
  {
    var first := FetchAiProblems(log, user, difficulty, forceRefresh, today, stamp, Some(reply));
    if forceRefresh || NoMatch(log, user, difficulty, today) {
      var l1 := first.1;
      var n := |log|;
      assert l1[n] == CacheEntry(user, difficulty, first.0, stamp);
      assert Matches(l1[n], user, difficulty, today);
      assert !NoMatch(l1, user, difficulty, today);
      var i := LatestMatch(l1, user, difficulty, today).value;
      if i < n {
        assert l1[i] == log[i];
        assert LexLt(l1[i].timestamp, stamp);
        assert LexLe(stamp, l1[i].timestamp);
        LexLeAntisymmetric(stamp, l1[i].timestamp);
      }
    }
  }
}
