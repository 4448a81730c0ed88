/** The "done before noon" rule that both the daily page and the history
    page apply to a day's completion times: there is at least one time, every
    time parses as `HH:MM:SS`, and the latest of them is before 12:00. */
module Streak {
  import opened Wrappers
  import opened Calendar

  /** Python treats `None` and the empty string as false. */
  predicate Truthy(t: Option<string>)
  {
    t.Some? && t.value != ""
  }

  /** `[t for t in times if t]`. */
  function PresentTimes(times: seq<Option<string>>): (r: seq<string>)
    ensures |r| <= |times|
    ensures forall s :: s in r <==> Some(s) in times && s != ""
    decreases |times|
  {
    if |times| == 0 then []
    else
      var rest := PresentTimes(times[1..]);
      assert times == [times[0]] + times[1..];
      if Truthy(times[0]) then [times[0].value] + rest else rest
  }

  /** Parses every time; `None` when any of them does not parse, as the
      `strptime` inside Python's `max(...)` would raise. */
  function ParseAll(times: seq<string>): (r: Option<seq<Time>>)
    ensures r.Some? <==> forall i :: 0 <= i < |times| ==> ParseTime(times[i]).Some?
    ensures r.Some? ==> |r.value| == |times|
    ensures r.Some? ==> forall i :: 0 <= i < |times| ==> r.value[i] == ParseTime(times[i]).value
  {
    var parsed := seq(|times|, i requires 0 <= i < |times| => ParseTime(times[i]));
    assert forall i :: 0 <= i < |times| ==> parsed[i] == ParseTime(times[i]);
    AllSome(parsed)
  }

  /** All the values when every option holds one, else `None`. */
  function AllSome<T>(xs: seq<Option<T>>): (r: Option<seq<T>>)
    ensures r.Some? <==> forall i :: 0 <= i < |xs| ==> xs[i].Some?
    ensures r.Some? ==> |r.value| == |xs|
    ensures r.Some? ==> forall i :: 0 <= i < |xs| ==> r.value[i] == xs[i].value
    decreases |xs|
  {
    if |xs| == 0 then Some([])
    else
      var rest := AllSome(xs[1..]);
      assert forall i :: 1 <= i < |xs| ==> xs[1..][i - 1] == xs[i];
      if xs[0].Some? && rest.Some? then Some([xs[0].value] + rest.value)
      else None
  }

  /** The latest of some times, as Python's `max` picks it. */
  function Latest(ts: seq<Time>): (t: Time)
    requires |ts| > 0
    ensures t in ts
    ensures forall u :: u in ts ==> SecondOfDay(u) <= SecondOfDay(t)
    decreases |ts|
  {
    if |ts| == 1 then ts[0]
    else
      var m := Latest(ts[1..]);
      assert ts == [ts[0]] + ts[1..];
      if SecondOfDay(ts[0]) >= SecondOfDay(m) then ts[0] else m
  }

  /** `s` parses as `HH:MM:SS` with an hour before 12. */
  predicate MorningTime(s: string)
  {
    ParseTime(s).Some? && ParseTime(s).value.hour < 12
  }

  /** `max(strptime(t) for t in times).hour < 12` guarded by "times is not
      empty" and by "any parse error gives False". It holds exactly when
      there is a time and every time parses with an hour before 12. */
  function LatestBeforeNoon(times: seq<string>): (r: bool)
    ensures r <==> |times| > 0 && forall i :: 0 <= i < |times| ==> MorningTime(times[i])
  {
    if |times| == 0 then false
    else
      match ParseAll(times)
      case None => false
      case Some(ts) =>
        var latest := Latest(ts);
        LatestHourBound(ts, latest);
        latest.hour < 12
  }

  lemma LatestHourBound(ts: seq<Time>, latest: Time)
    requires forall u :: u in ts ==> ValidTime(u)
    requires latest in ts
    requires forall u :: u in ts ==> SecondOfDay(u) <= SecondOfDay(latest)
    ensures latest.hour < 12 <==> forall u :: u in ts ==> u.hour < 12
  {
    if latest.hour < 12 {
      forall u | u in ts
        ensures u.hour < 12
      {
        assert SecondOfDay(u) <= SecondOfDay(latest) < 12 * 3600;
      }
    }
  }

  /** The before-noon rule applied to optional completion times: true
      exactly when some time is present (not `None`, not empty) and every
      present time parses with an hour before 12. */
  function BeforeNoonOf(times: seq<Option<string>>): (r: bool)
    ensures r <==>
      && (exists i :: 0 <= i < |times| && Truthy(times[i]))
      && (forall i :: 0 <= i < |times| && Truthy(times[i]) ==> MorningTime(times[i].value))
  {
    var present := PresentTimes(times);
    PresentTimesNonEmpty(times);
    PresentTimesAllMorning(times);
    LatestBeforeNoon(present)
  }

  lemma PresentTimesNonEmpty(times: seq<Option<string>>)
    ensures |PresentTimes(times)| > 0 <==> exists i :: 0 <= i < |times| && Truthy(times[i])
  {
    var present := PresentTimes(times);
    if |present| > 0 {
      assert present[0] in present;
      var i :| 0 <= i < |times| && times[i] == Some(present[0]);
      assert Truthy(times[i]);
    }
    if exists i :: 0 <= i < |times| && Truthy(times[i]) {
      var i :| 0 <= i < |times| && Truthy(times[i]);
      assert times[i].value in present;
    }
  }

  lemma PresentTimesAllMorning(times: seq<Option<string>>)
    ensures (forall j :: 0 <= j < |PresentTimes(times)| ==> MorningTime(PresentTimes(times)[j]))
        <==> (forall i :: 0 <= i < |times| && Truthy(times[i]) ==> MorningTime(times[i].value))
  {
    var present := PresentTimes(times);
    if forall j :: 0 <= j < |present| ==> MorningTime(present[j]) {
      forall i | 0 <= i < |times| && Truthy(times[i])
        ensures MorningTime(times[i].value)
      {
        assert times[i].value in present;
      }
    }
    if forall i :: 0 <= i < |times| && Truthy(times[i]) ==> MorningTime(times[i].value) {
      forall j | 0 <= j < |present|
        ensures MorningTime(present[j])
      {
        assert present[j] in present;
        var i :| 0 <= i < |times| && times[i] == Some(present[j]);
        assert Truthy(times[i]);
      }
    }
  }
}
