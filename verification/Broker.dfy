/** The refresh broker and the last-good cache rows it writes (internal/broker/broker.go). */
module Broker {
  import opened Prelude
  import opened Text

  datatype Status = Ok | Stale | Error
  /** expires is in whole seconds, the resolution of the stored timestamps. */
  datatype Row = Row(data: string, expires: int, status: Status, error: string)
  type Table = map<int, Row>

  const NOTHING: string := "null"

  // ---------- the cadence ----------

  const DEFAULT_INTERVAL_SECS: int := 15 * 60

  /** The interval setting, if it is stored and reads as a positive number; never under 30 seconds. */
  function GlobalIntervalSecs(setting: Option<string>): (secs: int)
    ensures secs >= 30
    ensures setting.Some? && Atoi(setting.value).Some? && Atoi(setting.value).value > 0 ==>
              secs == Max(Atoi(setting.value).value, 30)
    ensures setting.None? || Atoi(setting.value).None? || Atoi(setting.value).value <= 0 ==> secs == 15 * 60
  {
    var n := if setting.None? then None else Atoi(setting.value);
    var secs := if n.Some? && n.value > 0 then n.value else DEFAULT_INTERVAL_SECS;
    if secs < 30 then 30 else secs
  }

  function IntervalOf(secs: int, global: int): int {
    if secs <= 0 then global else secs
  }

  ghost predicate IsLeastInterval(m: int, intervals: seq<int>, global: int) {
    && (exists i :: 0 <= i < |intervals| && m == IntervalOf(intervals[i], global))
    && (forall i :: 0 <= i < |intervals| ==> m <= IntervalOf(intervals[i], global))
  }

  /** The least interval: no source's own positive one is smaller, nor the global one if a source has none; and it is one of these. */
  lemma LeastIntervalIs(m: int, intervals: seq<int>, global: int)
    requires IsLeastInterval(m, intervals, global)
    ensures forall i :: 0 <= i < |intervals| && intervals[i] > 0 ==> m <= intervals[i]
    ensures (exists i :: 0 <= i < |intervals| && intervals[i] <= 0) ==> m <= global
    ensures (m > 0 && m in intervals) || (m == global && exists i :: 0 <= i < |intervals| && intervals[i] <= 0)
  {
    var i :| 0 <= i < |intervals| && m == IntervalOf(intervals[i], global);
  }

  /** best == 0 stands for "none yet", which no effective interval can be. */
  method RefreshCap(intervals: seq<int>, setting: Option<string>) returns (cap: int, ghost least: int)
    ensures intervals == [] ==> cap == 0
    ensures intervals != [] ==>
              && IsLeastInterval(least, intervals, GlobalIntervalSecs(setting)) && least > 0
              && cap == Wrap64(least * SECOND)
  {
    if |intervals| == 0 {
      return 0, 0;
    }
    var global := GlobalIntervalSecs(setting);
    var best := 0;
    for i := 0 to |intervals|
      invariant i == 0 ==> best == 0
      invariant i > 0 ==> best > 0 && IsLeastInterval(best, intervals[..i], global)
    {
      var iv := intervals[i];
      if iv <= 0 {
        iv := global;
      }
      assert intervals[..i + 1][..i] == intervals[..i] && intervals[..i + 1][i] == intervals[i];
      forall j | 0 <= j < i ensures intervals[..i + 1][j] == intervals[..i][j] {}
      if best == 0 || iv < best {
        best := iv;
      }
    }
    assert intervals[..|intervals|] == intervals;
    return Wrap64(best * SECOND), best;
  }

  /** How long a fetched value is kept: the sources' cadence, else the provider's own time to live. */
  function Lifetime(cap: int, ttl: int): int {
    if cap > 0 then cap else if ttl <= 0 then 30 * SECOND else ttl
  }

  /** The configured cadence is kept exactly up to the longest Duration; ttl is any Duration. */
  lemma CadenceIsLeastIntervalIff(least: int, ttl: int)
    requires least > 0 && ttl < 0x8000_0000_0000_0000
    ensures Lifetime(Wrap64(least * SECOND), ttl) == least * SECOND <==> least <= MAX_DURATION_SECS
  {
  }

  function ExpiryAt(now: int, lifetime: int): int {
    (now + lifetime) / SECOND
  }

  /** A cap wins over the provider's own time, which counts only where it is positive. */
  lemma LifetimeIs(cap: int, ttl: int)
    ensures cap > 0 ==> Lifetime(cap, ttl) == cap
    ensures cap <= 0 && ttl > 0 ==> Lifetime(cap, ttl) == ttl
    ensures cap <= 0 && ttl <= 0 ==> Lifetime(cap, ttl) == 30_000_000_000
  {
  }

  /** The stored second is the last one not after the moment of expiry. */
  lemma ExpiryIsTruncated(now: int, lifetime: int)
    ensures var e := ExpiryAt(now, lifetime);
            e * 1_000_000_000 <= now + lifetime < (e + 1) * 1_000_000_000
  {
  }

  // ---------- the writes, one at a time ----------

  /** A refresh that failed first looks the row up and then writes; others may write in between. */
  datatype Event =
    | Succeed(id: int, data: string, expires: int)
    | Lookup(job: int, id: int, readOk: bool)
    | Fail(job: int, expires: int, msg: string)
    | Clear

  datatype Found = Found(id: int, row: bool)
  datatype System = System(table: Table, looked: map<int, Found>)

  function MarkStale(table: Table, id: int, msg: string): Table {
    if id in table then table[id := table[id].(status := Stale, error := msg)] else table
  }

  function Step(s: System, e: Event): System {
    match e
    case Succeed(id, data, expires) => s.(table := s.table[id := Row(data, expires, Ok, "")])
    case Lookup(job, id, readOk) => s.(looked := s.looked[job := Found(id, readOk && id in s.table)])
    case Fail(job, expires, msg) =>
      if job !in s.looked then s
      else
        var f := s.looked[job];
        System(if f.row then MarkStale(s.table, f.id, msg) else s.table[f.id := Row(NOTHING, expires, Error, msg)],
               s.looked - {job})
    case Clear => s.(table := map[])
  }

  function Run(s: System, trace: seq<Event>): System
    decreases |trace|
  {
    if trace == [] then s else Step(Run(s, trace[..|trace| - 1]), trace[|trace| - 1])
  }

  const EMPTY: System := System(map[], map[])

  function After(trace: seq<Event>): System {
    Run(EMPTY, trace)
  }

  lemma AfterNext(trace: seq<Event>, e: Event)
    ensures After(trace + [e]) == Step(After(trace), e)
  {
    assert (trace + [e])[..|trace|] == trace;
  }

  datatype Outcome =
    | UnknownType
    | ProviderFailed(msg: string)
    | FetchFailed(msg: string)
    | MarshalFailed(msg: string)
    | Fetched(json: string, ttl: int)

  /** What each write leaves in the row it reaches, and that it touches no other. */
  lemma WritesLeave(s: System, e: Event, id: int)
    ensures e.Succeed? && e.id == id ==>
              id in Step(s, e).table && Step(s, e).table[id] == Row(e.data, e.expires, Ok, "")
    ensures e.Fail? && e.job in s.looked && s.looked[e.job] == Found(id, true) && id in s.table ==>
              id in Step(s, e).table && Step(s, e).table[id] == Row(s.table[id].data, s.table[id].expires, Stale, e.msg)
    ensures e.Fail? && e.job in s.looked && s.looked[e.job] == Found(id, true) && id !in s.table ==> id !in Step(s, e).table
    ensures e.Fail? && e.job in s.looked && s.looked[e.job] == Found(id, false) ==>
              id in Step(s, e).table && Step(s, e).table[id] == Row("null", e.expires, Error, e.msg)
    ensures e.Lookup? || (e.Succeed? && e.id != id) || (e.Fail? && (e.job !in s.looked || s.looked[e.job].id != id)) ==>
              (id in Step(s, e).table <==> id in s.table) && (id in s.table ==> Step(s, e).table[id] == s.table[id])
    ensures e.Clear? ==> id !in Step(s, e).table
    ensures e.Lookup? ==> e.job in Step(s, e).looked && Step(s, e).looked[e.job] == Found(e.id, e.readOk && e.id in s.table)
  {
  }

  /** What one refresh does to the table when nothing comes between its two accesses. */
  function FailureEvents(id: int, expires: int, msg: string, readOk: bool, writeOk: bool): seq<Event> {
    [Lookup(0, id, readOk)] + if writeOk then [Fail(0, expires, msg)] else []
  }

  lemma RunFailure(table: Table, id: int, expires: int, msg: string, readOk: bool, writeOk: bool)
    ensures Run(System(table, map[]), FailureEvents(id, expires, msg, readOk, writeOk)).table ==
            if !writeOk then table
            else if readOk && id in table then MarkStale(table, id, msg)
            else table[id := Row(NOTHING, expires, Error, msg)]
  {
    var look, fail := Lookup(0, id, readOk), Fail(0, expires, msg);
    var s := System(table, map[]);
    assert [look][..0] == [] && [look, fail][..1] == [look];
    assert Run(s, [look]) == Step(s, look);
    assert Run(s, [look, fail]) == Step(Step(s, look), fail);
  }

  class Broker {
    var cache: Table
    const interval: int := 10 * SECOND

    method MarkErr(id: int, msg: string, readOk: bool, writeOk: bool, now: int)
      modifies this
      ensures cache == Run(System(old(cache), map[]),
                           FailureEvents(id, ExpiryAt(now, 10 * SECOND), msg, readOk, writeOk)).table
      ensures cache == if !writeOk then old(cache)
                       else if readOk && id in old(cache) then old(cache)[id := old(cache)[id].(status := Stale, error := msg)]
                       else old(cache)[id := Row("null", ExpiryAt(now, 10 * SECOND), Error, msg)]
    {
      RunFailure(cache, id, ExpiryAt(now, interval), msg, readOk, writeOk);
      if readOk && id in cache {
        if writeOk {
          cache := MarkStale(cache, id, msg);
        }
      } else if writeOk {
        cache := cache[id := Row(NOTHING, ExpiryAt(now, interval), Error, msg)];
      }
    }

    method RefreshWidget(id: int, outcome: Outcome, intervals: seq<int>, setting: Option<string>,
                         readOk: bool, writeOk: bool, now: int)
      returns (ghost lifetime: int)
      modifies this
      ensures !outcome.Fetched? ==>
                cache == Run(System(old(cache), map[]),
                             FailureEvents(id, ExpiryAt(now, 10 * SECOND),
                                           if outcome.UnknownType? then "unknown widget type" else outcome.msg,
                                           readOk, writeOk)).table
      ensures outcome.Fetched? && !writeOk ==> cache == old(cache)
      ensures outcome.Fetched? && writeOk ==>
                cache == Step(System(old(cache), map[]), Succeed(id, outcome.json, ExpiryAt(now, lifetime))).table
      ensures outcome.Fetched? && intervals == [] ==>
                lifetime == if outcome.ttl <= 0 then 30 * SECOND else outcome.ttl
      ensures outcome.Fetched? && intervals != [] ==>
                exists least :: IsLeastInterval(least, intervals, GlobalIntervalSecs(setting))
                                && lifetime == Lifetime(Wrap64(least * SECOND), outcome.ttl)
    {
      lifetime := 0;
      if outcome.UnknownType? {
        MarkErr(id, "unknown widget type", readOk, writeOk, now);
        return;
      }
      if !outcome.Fetched? {
        MarkErr(id, outcome.msg, readOk, writeOk, now);
        return;
      }
      var ttl := outcome.ttl;
      if ttl <= 0 {
        ttl := 30 * SECOND;
      }
      var cap, _ := RefreshCap(intervals, setting);
      if cap > 0 {
        ttl := cap;
      }
      lifetime := ttl;
      if writeOk {
        cache := cache[id := Row(outcome.json, ExpiryAt(now, ttl), Ok, "")];
      }
    }
  }

  // ---------- the row against the history ----------

  /** The data of the last success since the last clear, "null" if there is none. */
  function LastGood(trace: seq<Event>, id: int): string
    decreases |trace|
  {
    if trace == [] then NOTHING
    else
      var e := trace[|trace| - 1];
      if e.Clear? then NOTHING
      else if e.Succeed? && e.id == id then e.data
      else LastGood(trace[..|trace| - 1], id)
  }

  ghost predicate ShowsLastGood(trace: seq<Event>) {
    forall id :: id in After(trace).table ==> After(trace).table[id].data == LastGood(trace, id)
  }

  /** e is about to write an empty row over whatever is there. */
  predicate Blanks(s: System, e: Event) {
    e.Fail? && e.job in s.looked && !s.looked[e.job].row
  }

  /** If e writes an empty row, there is no row, or one without data. */
  predicate Harmless(s: System, e: Event) {
    Blanks(s, e) ==> var id := s.looked[e.job].id; id in s.table ==> s.table[id].data == NOTHING
  }

  lemma {:induction false} GoodRowsStay(trace: seq<Event>, id: int)
    ensures LastGood(trace, id) != NOTHING ==> id in After(trace).table
  {
    if trace != [] {
      GoodRowsStay(trace[..|trace| - 1], id);
    }
  }

  lemma ShowsLastGoodStep(trace: seq<Event>, e: Event)
    requires ShowsLastGood(trace)
    ensures ShowsLastGood(trace + [e]) <==> Harmless(After(trace), e)
  {
    var more, s := trace + [e], After(trace);
    assert more[..|more| - 1] == trace;
    assert After(more) == Step(s, e);
    forall id ensures LastGood(more, id) == if e.Clear? then NOTHING
                                            else if e.Succeed? && e.id == id then e.data else LastGood(trace, id) {}
    if Blanks(s, e) {
      GoodRowsStay(trace, s.looked[e.job].id);
      assert After(more).table[s.looked[e.job].id].data == NOTHING;
    }
  }

  ghost predicate AlwaysShown(trace: seq<Event>) {
    forall n :: 0 <= n <= |trace| ==> ShowsLastGood(trace[..n])
  }

  ghost predicate AllHarmless(trace: seq<Event>) {
    forall n :: 0 <= n < |trace| ==> Harmless(After(trace[..n]), trace[n])
  }

  lemma AlwaysShownStep(trace: seq<Event>, e: Event)
    ensures AlwaysShown(trace + [e]) <==> AlwaysShown(trace) && ShowsLastGood(trace + [e])
  {
    hide ShowsLastGood;
    var more := trace + [e];
    assert more[..|more|] == more;
    forall n | 0 <= n <= |trace| ensures more[..n] == trace[..n] {}
  }

  lemma AllHarmlessStep(trace: seq<Event>, e: Event)
    ensures AllHarmless(trace + [e]) <==> AllHarmless(trace) && Harmless(After(trace), e)
  {
    hide Harmless;
    var more := trace + [e];
    assert more[..|trace|] == trace && more[|trace|] == e;
    forall n | 0 <= n < |trace| ensures more[..n] == trace[..n] && more[n] == trace[n] {}
  }

  lemma NothingToShow()
    ensures AlwaysShown([]) && AllHarmless([])
  {
    assert ShowsLastGood([]);
  }

  lemma ShownInTheEnd(trace: seq<Event>)
    requires AlwaysShown(trace)
    ensures ShowsLastGood(trace)
  {
    assert trace[..|trace|] == trace;
  }

  /**
   * Every row shows the last good data all along, exactly when no failed refresh that had not
   * seen the row overwrites a good one.
   */
  lemma {:induction false} LastGoodIsKeptIff(trace: seq<Event>)
    ensures AlwaysShown(trace) <==> AllHarmless(trace)
    decreases |trace|
  {
    hide ShowsLastGood, Harmless, AllHarmless, AlwaysShown;
    if trace == [] {
      NothingToShow();
    } else {
      var init, e := trace[..|trace| - 1], trace[|trace| - 1];
      LastGoodIsKeptIff(init);
      AlwaysShownStep(init, e);
      AllHarmlessStep(init, e);
      assert init + [e] == trace;
      if AlwaysShown(init) {
        ShownInTheEnd(init);
        ShowsLastGoodStep(init, e);
      }
    }
  }

  /** The failed refresh writing at n looked at the row at m, read it properly, and no success came in between. */
  ghost predicate LookedAt(trace: seq<Event>, m: int, n: int) {
    && 0 <= m < n < |trace| && trace[n].Fail? && trace[m].Lookup?
    && trace[m].job == trace[n].job && trace[m].readOk
    && (forall k :: m < k < n ==> trace[k].Lookup? ==> trace[k].job != trace[m].job)
    && (forall k :: m < k < n ==> trace[k].Fail? ==> trace[k].job != trace[m].job)
    && (forall k :: m < k < n ==> trace[k].Succeed? ==> trace[k].id != trace[m].id)
  }

  /** What refreshing a widget one at a time amounts to, together with reads that do not fail. */
  ghost predicate Serialised(trace: seq<Event>) {
    forall n :: 0 <= n < |trace| && trace[n].Fail? ==> exists m :: LookedAt(trace, m, n)
  }

  lemma {:induction false} StillLooked(trace: seq<Event>, m: nat, n: nat, k: nat)
    requires LookedAt(trace, m, n) && m < k <= n
    ensures var before, s := After(trace[..m]), After(trace[..k]);
            && trace[m].job in s.looked
            && s.looked[trace[m].job] == Found(trace[m].id, trace[m].id in before.table)
            && (trace[m].id !in before.table ==> LastGood(trace[..k], trace[m].id) == NOTHING)
    decreases k
  {
    assert trace[..k][..k - 1] == trace[..k - 1];
    assert After(trace[..k]) == Step(After(trace[..k - 1]), trace[k - 1]);
    if m + 1 < k {
      StillLooked(trace, m, n, k - 1);
    } else {
      GoodRowsStay(trace[..m], trace[m].id);
    }
  }

  lemma {:induction false} SerialisedUpTo(trace: seq<Event>, n: nat)
    requires Serialised(trace) && n <= |trace|
    ensures ShowsLastGood(trace[..n])
    decreases n
  {
    if n > 0 {
      var init, e := trace[..n - 1], trace[n - 1];
      SerialisedUpTo(trace, n - 1);
      assert trace[..n] == init + [e];
      if e.Fail? {
        var m :| LookedAt(trace, m, n - 1);
        StillLooked(trace, m, n - 1, n - 1);
      }
      ShowsLastGoodStep(init, e);
    }
  }

  lemma SerialisedRefreshesKeepLastGood(trace: seq<Event>)
    requires Serialised(trace)
    ensures AlwaysShown(trace)
  {
    forall n | 0 <= n <= |trace| ensures ShowsLastGood(trace[..n]) {
      SerialisedUpTo(trace, n);
    }
  }

  /** A failure that found no row, overtaken by a first success: the fetched data is gone. */
  lemma OvertakenFailureDestroysGoodData(id: int, data: string, expires: int, later: int, msg: string)
    requires data != NOTHING
    ensures var trace := [Lookup(1, id, true), Succeed(id, data, expires), Fail(1, later, msg)];
            && After(trace).table == map[id := Row(NOTHING, later, Error, msg)]
            && LastGood(trace, id) == data
  {
    var a, b, c := Lookup(1, id, true), Succeed(id, data, expires), Fail(1, later, msg);
    assert [] + [a] == [a] && [a] + [b] == [a, b] && [a, b] + [c] == [a, b, c];
    AfterNext([], a);
    AfterNext([a], b);
    AfterNext([a, b], c);
    assert LastGood([a, b], id) == data;
    assert [a, b, c][..2] == [a, b];
  }

  // ---------- status and expiry ----------

  /** Whether a write of e reaches the row of the widget. */
  predicate Writes(s: System, e: Event, id: int) {
    || (e.Succeed? && e.id == id)
    || (e.Fail? && e.job in s.looked && s.looked[e.job].id == id && (s.looked[e.job].row ==> id in s.table))
  }

  /** The latest write to the row since the last clear was a success. */
  predicate LastWriteSucceeded(trace: seq<Event>, id: int)
    decreases |trace|
  {
    if trace == [] then false
    else
      var init, e := trace[..|trace| - 1], trace[|trace| - 1];
      if e.Clear? then false
      else if Writes(After(init), e, id) then e.Succeed?
      else LastWriteSucceeded(init, id)
  }

  lemma {:induction false} StatusIsOkIff(trace: seq<Event>, id: int)
    requires id in After(trace).table
    ensures After(trace).table[id].status == Ok <==> LastWriteSucceeded(trace, id)
    decreases |trace|
  {
    var init, e := trace[..|trace| - 1], trace[|trace| - 1];
    assert After(trace) == Step(After(init), e);
    if !e.Clear? && !Writes(After(init), e, id) {
      StatusIsOkIff(init, id);
    }
  }

  /** Selected by the broker's next scan at a time in whole seconds. */
  predicate Due(s: System, id: int, now: int) {
    id !in s.table || s.table[id].expires <= now
  }

  /** A widget without a row is always due, one with a row from its expiry on. */
  lemma DueIs(s: System, id: int, now: int)
    ensures id !in s.table ==> Due(s, id, now)
    ensures id in s.table ==> (Due(s, id, now) <==> now >= s.table[id].expires)
  {
  }

  /** From the success at m on, no other success for the widget and no clear. */
  ghost predicate LastSuccessAt(trace: seq<Event>, m: int, id: int) {
    && 0 <= m < |trace| && trace[m].Succeed? && trace[m].id == id
    && forall k :: m < k < |trace| ==> trace[k] != Clear && (trace[k].Succeed? ==> trace[k].id != id)
  }

  /** The row still holds the data and the expiry of the success at m before event k. */
  ghost predicate Kept(trace: seq<Event>, m: int, id: int, k: int)
    requires 0 <= m < |trace| && trace[m].Succeed? && 0 <= k <= |trace|
  {
    var t := After(trace[..k]).table;
    id in t && t[id].data == trace[m].data && t[id].expires == trace[m].expires
  }

  /** Event n writes an empty row for the widget, other than the very row the success at m stored. */
  ghost predicate Overwrites(trace: seq<Event>, m: int, id: int, n: int)
    requires 0 <= m < |trace| && trace[m].Succeed? && 0 <= n < |trace|
  {
    var s, e := After(trace[..n]), trace[n];
    Blanks(s, e) && s.looked[e.job].id == id && (trace[m].data != NOTHING || e.expires != trace[m].expires)
  }

  lemma KeptStep(trace: seq<Event>, m: nat, id: int, k: nat)
    requires LastSuccessAt(trace, m, id) && m <= k < |trace| && (m < k ==> Kept(trace, m, id, k))
    ensures Kept(trace, m, id, k + 1) <==> m == k || !Overwrites(trace, m, id, k)
  {
    hide Run;
    assert trace[..k + 1] == trace[..k] + [trace[k]];
    AfterNext(trace[..k], trace[k]);
  }

  lemma {:induction false} KeptUpToIff(trace: seq<Event>, m: nat, id: int, k: nat)
    requires LastSuccessAt(trace, m, id) && m < k <= |trace|
    ensures (forall j :: m < j <= k ==> Kept(trace, m, id, j)) <==> (forall n :: m < n < k ==> !Overwrites(trace, m, id, n))
    decreases k
  {
    hide Kept, Overwrites;
    if m + 1 < k {
      KeptUpToIff(trace, m, id, k - 1);
    }
    if m + 1 == k || Kept(trace, m, id, k - 1) {
      KeptStep(trace, m, id, k - 1);
    }
  }

  /**
   * Over every interleaving, a success keeps its data and its expiry for as long as no other success
   * and no clear follows, exactly when no failure that found no row overwrites it.
   */
  lemma SuccessIsKeptIff(trace: seq<Event>, m: nat, id: int)
    requires LastSuccessAt(trace, m, id)
    ensures (forall k :: m < k <= |trace| ==> Kept(trace, m, id, k))
            <==> (forall n :: m < n < |trace| ==> !Overwrites(trace, m, id, n))
  {
    KeptUpToIff(trace, m, id, |trace|);
  }

  lemma {:induction false} SerialisedNeverOverwrites(trace: seq<Event>, m: nat, id: int, n: nat)
    requires Serialised(trace) && LastSuccessAt(trace, m, id) && m < n < |trace|
    ensures !Overwrites(trace, m, id, n)
    decreases n
  {
    if trace[n].Fail? {
      var i :| LookedAt(trace, i, n);
      StillLooked(trace, i, n, n);
      if trace[i].id == id {
        assert i > m;
        forall k | m < k < i ensures !Overwrites(trace, m, id, k) {
          SerialisedNeverOverwrites(trace, m, id, k);
        }
        KeptUpToIff(trace, m, id, i);
        assert Kept(trace, m, id, i);
      }
    }
  }

  /**
   * With every failure looking properly and no success between its look and its write, a success
   * decides when the widget is fetched again, however many refreshes fail after it: the scans skip
   * it until its expiry and select it at every time from then on.
   */
  lemma FailuresNeverMoveTheExpiry(trace: seq<Event>, m: nat, id: int, now: int)
    requires Serialised(trace) && LastSuccessAt(trace, m, id)
    ensures Due(After(trace), id, now) <==> trace[m].expires <= now
    ensures id in After(trace).table && After(trace).table[id].data == trace[m].data
  {
    forall n | m < n < |trace| ensures !Overwrites(trace, m, id, n) {
      SerialisedNeverOverwrites(trace, m, id, n);
    }
    SuccessIsKeptIff(trace, m, id);
    assert Kept(trace, m, id, |trace|);
    assert trace[..|trace|] == trace;
  }

  /** A success at time now with lifetime of whole seconds is due again after exactly that many seconds. */
  lemma DueAfterLifetime(now: int, secs: int, at: int)
    ensures ExpiryAt(now, secs * SECOND) <= at / SECOND <==> at / SECOND - now / SECOND >= secs
  {
  }
}
