/** Background refreshes on show: one at a time per widget, and throttled (internal/server/server.go). */
module BackgroundRefresh {
  import opened Prelude

  const THROTTLE: int := 10 * SECOND

  /**
   * refreshing only ever holds true, so its keys say it all. running is what the two maps stand
   * for: the fetches in flight, by a serial number of their goroutine.
   */
  datatype State = State(refreshing: set<int>, lastRefresh: map<int, int>, running: map<nat, int>, serial: nat)

  const IDLE: State := State({}, map[], map[], 0)

  /** A widget is shown: the clock is read for the throttle and, if that lets it pass, once more. */
  datatype Event = Show(widget: int, checked: int, recorded: int) | Finish(fetch: nat)

  predicate Starts(refreshing: set<int>, lastRefresh: map<int, int>, widget: int, checked: int) {
    widget !in refreshing && (widget in lastRefresh ==> checked - lastRefresh[widget] >= THROTTLE)
  }

  function Step(s: State, e: Event): State {
    match e
    case Show(widget, checked, recorded) =>
      if !Starts(s.refreshing, s.lastRefresh, widget, checked) then s
      else State(s.refreshing + {widget}, s.lastRefresh[widget := recorded],
                 s.running[s.serial := widget], s.serial + 1)
    case Finish(fetch) =>
      if fetch !in s.running then s
      else s.(refreshing := s.refreshing - {s.running[fetch]}, running := s.running - {fetch})
  }

  function After(trace: seq<Event>): State
    decreases |trace|
  {
    if trace == [] then IDLE else Step(After(trace[..|trace| - 1]), trace[|trace| - 1])
  }

  class Refresher {
    var refreshing: map<int, bool>
    var lastRefresh: map<int, int>
    ghost var running: map<nat, int>
    ghost var serial: nat

    ghost predicate Valid()
      reads this
    {
      forall w :: w in refreshing ==> refreshing[w]
    }

    ghost function Value(): State
      reads this
    {
      State(refreshing.Keys, lastRefresh, running, serial)
    }

    constructor ()
      ensures Valid() && Value() == IDLE
    {
      refreshing, lastRefresh, running, serial := map[], map[], map[], 0;
    }

    /** started says whether a fetch was sent off, which calls Done when it ends. */
    method BgRefresh(widget: int, checked: int, recorded: int) returns (started: bool)
      requires Valid()
      modifies this
      ensures Valid()
      ensures started == old(Starts(refreshing.Keys, lastRefresh, widget, checked))
      ensures Value() == Step(old(Value()), Show(widget, checked, recorded))
    {
      if widget in refreshing && refreshing[widget] {
        return false;
      }
      if widget in lastRefresh && checked - lastRefresh[widget] < THROTTLE {
        return false;
      }
      refreshing := refreshing[widget := true];
      lastRefresh := lastRefresh[widget := recorded];
      running, serial := running[serial := widget], serial + 1;
      return true;
    }

    /** The deferred end of a fetch. */
    method Done(widget: int, ghost fetch: nat)
      requires Valid() && fetch in running && running[fetch] == widget
      modifies this
      ensures Valid()
      ensures Value() == Step(old(Value()), Finish(fetch))
    {
      refreshing := refreshing - {widget};
      running := running - {fetch};
    }
  }

  // ---------- one fetch per widget ----------

  lemma {:induction false} RefreshingIsInFlight(trace: seq<Event>)
    ensures var s := After(trace);
            && s.refreshing == s.running.Values
            && (forall f :: f in s.running ==> f < s.serial)
            && (forall f, g :: f in s.running && g in s.running && s.running[f] == s.running[g] ==> f == g)
    decreases |trace|
  {
    if trace != [] {
      var init, e := trace[..|trace| - 1], trace[|trace| - 1];
      RefreshingIsInFlight(init);
      var s, t := After(init), After(trace);
      if t != s {
        forall w ensures w in t.refreshing <==> w in t.running.Values {
          if e.Show? && w == e.widget {
            assert t.running[s.serial] == w;
          } else if w in s.refreshing {
            var f :| f in s.running && s.running[f] == w;
            assert e.Show? || f != e.fetch ==> f in t.running && t.running[f] == w;
          }
        }
      }
    }
  }

  // ---------- the throttle ----------

  /** The clock does not run backwards between the two reads of one call. */
  ghost predicate Monotone(trace: seq<Event>) {
    forall i :: 0 <= i < |trace| && trace[i].Show? ==> trace[i].checked <= trace[i].recorded
  }

  /** When the widget's background fetches were started. */
  function StartTimes(trace: seq<Event>, widget: int): seq<int>
    decreases |trace|
  {
    if trace == [] then []
    else
      var init, e := trace[..|trace| - 1], trace[|trace| - 1];
      var s := After(init);
      StartTimes(init, widget)
      + if e.Show? && e.widget == widget && Starts(s.refreshing, s.lastRefresh, widget, e.checked) then [e.recorded] else []
  }

  ghost predicate Spaced(times: seq<int>) {
    forall i :: 0 < i < |times| ==> times[i] - times[i - 1] >= 10 * SECOND
  }

  /** One event more: a start is recorded, or nothing changes for the widget. */
  lemma LastEvent(trace: seq<Event>, widget: int)
    requires trace != []
    ensures var init, e := trace[..|trace| - 1], trace[|trace| - 1];
            var times, s, last := StartTimes(init, widget), After(init), After(trace).lastRefresh;
            if e.Show? && e.widget == widget && Starts(s.refreshing, s.lastRefresh, widget, e.checked)
            then StartTimes(trace, widget) == times + [e.recorded] && widget in last && last[widget] == e.recorded
            else
              && StartTimes(trace, widget) == times
              && (widget in last <==> widget in s.lastRefresh)
              && (widget in last ==> last[widget] == s.lastRefresh[widget])
  {
  }

  lemma {:induction false} StartsAreSpaced(trace: seq<Event>, widget: int)
    requires Monotone(trace)
    ensures var times, last := StartTimes(trace, widget), After(trace).lastRefresh;
            && Spaced(times)
            && (times != [] <==> widget in last)
            && (times != [] ==> last[widget] == times[|times| - 1])
    decreases |trace|
  {
    if trace != [] {
      hide After, StartTimes, Step;
      var e := trace[|trace| - 1];
      StartsAreSpaced(trace[..|trace| - 1], widget);
      LastEvent(trace, widget);
      assert e.Show? ==> e.checked <= e.recorded;
    }
  }

  function CountIn(times: seq<int>, from: int, to: int): nat {
    if times == [] then 0
    else
      var t := times[|times| - 1];
      CountIn(times[..|times| - 1], from, to) + if from <= t <= to then 1 else 0
  }

  lemma {:induction false} CountOfSpaced(times: seq<int>, from: int, to: int)
    requires Spaced(times) && from <= to
    ensures var c := CountIn(times, from, to);
            c > 0 ==> (c - 1) * THROTTLE <= times[|times| - 1] - from && (c - 1) * THROTTLE <= to - from
    decreases |times|
  {
    if times != [] {
      var init := times[..|times| - 1];
      CountOfSpaced(init, from, to);
      if init != [] {
        assert times[|init|] - times[|init| - 1] >= THROTTLE;
      }
    }
  }

  /** At most one start per started throttle period, over any window whatever else happens. */
  lemma StartsPerWindow(trace: seq<Event>, widget: int, from: int, length: nat)
    requires Monotone(trace)
    ensures CountIn(StartTimes(trace, widget), from, from + length) <= length / (10 * SECOND) + 1
  {
    hide StartTimes, CountIn;
    StartsAreSpaced(trace, widget);
    CountOfSpaced(StartTimes(trace, widget), from, from + length);
  }

  /** What can keep a widget from being fetched: a fetch in flight, or one started under ten seconds before. */
  lemma ShownWidgetIsFetchedUnless(trace: seq<Event>, widget: int, checked: int, recorded: int)
    requires Monotone(trace)
    ensures var times, s := StartTimes(trace, widget), After(trace);
            var more := trace + [Show(widget, checked, recorded)];
            if widget in s.running.Values || (times != [] && checked - times[|times| - 1] < 10 * SECOND)
            then StartTimes(more, widget) == times && After(more) == s
            else
              && StartTimes(more, widget) == times + [recorded]
              && s.serial !in s.running && After(more).running == s.running[s.serial := widget]
  {
    RefreshingIsInFlight(trace);
    StartsAreSpaced(trace, widget);
    assert (trace + [Show(widget, checked, recorded)])[..|trace|] == trace;
  }

  /** The end of a fetch ends that one, and its widget can start again once the ten seconds are over. */
  lemma FinishedFetchIsOver(trace: seq<Event>, fetch: nat)
    requires fetch in After(trace).running
    ensures var s, t := After(trace), After(trace + [Finish(fetch)]);
            && t.running == s.running - {fetch} && t.lastRefresh == s.lastRefresh
            && s.running[fetch] !in t.running.Values && s.running[fetch] !in t.refreshing
  {
    RefreshingIsInFlight(trace);
    assert (trace + [Finish(fetch)])[..|trace|] == trace;
  }
}
