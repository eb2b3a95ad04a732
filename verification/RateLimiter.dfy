/**
 * The per-key token bucket that throttles passphrase attempts (internal/server/ratelimit.go).
 *
 * Times are nanoseconds of a monotone clock. Token counts are scaled by the refill period per, so
 * that a nanosecond earns burst units, an attempt costs per units and a full bucket holds burst * per.
 */
module RateLimiter {
  import opened Prelude

  type Key = string

  const PRUNE_EVERY: int := MINUTE
  const IDLE: int := 10 * MINUTE

  datatype Bucket = Bucket(tokens: int, seen: int)
  type Buckets = map<Key, Bucket>
  datatype Rate = Rate(burst: nat, per: int)
  datatype Attempt = Attempt(key: Key, at: int)
  /** lastPrune None is Go's zero time: longer ago than any interval. */
  datatype Limiter = Limiter(buckets: Buckets, lastPrune: Option<int>)

  const EMPTY: Limiter := Limiter(map[], None)

  function Full(r: Rate): int { r.burst * r.per }

  /** What a bucket holding x units holds d nanoseconds later. */
  function Refilled(r: Rate, x: int, d: int): int {
    Min(Full(r), x + r.burst * d)
  }

  /** What an attempt at time t finds: a key without a bucket gets a full one. */
  function Level(r: Rate, m: Buckets, key: Key, t: int): int {
    if key in m then Refilled(r, m[key].tokens, t - m[key].seen) else Full(r)
  }

  /** One attempt on the buckets, without the pruning in front of it. */
  function Take(r: Rate, m: Buckets, a: Attempt): (Buckets, bool) {
    var level := Level(r, m, a.key, a.at);
    if level < r.per then (m[a.key := Bucket(level, a.at)], false)
    else (m[a.key := Bucket(level - r.per, a.at)], true)
  }

  predicate PruneDue(l: Limiter, now: int) {
    l.lastPrune.None? || now - l.lastPrune.value >= PRUNE_EVERY
  }

  function Kept(m: Buckets, now: int): Buckets {
    map k | k in m && now - m[k].seen <= IDLE :: m[k]
  }

  function Pruned(l: Limiter, now: int): Limiter {
    if PruneDue(l, now) then Limiter(Kept(l.buckets, now), Some(now)) else l
  }

  /** The whole of allow; with prunes == false, a limiter that never forgets a key. */
  function Attempted(r: Rate, l: Limiter, a: Attempt, prunes: bool): (Limiter, bool) {
    var p := if prunes then Pruned(l, a.at) else l;
    var (m, ok) := Take(r, p.buckets, a);
    (Limiter(m, p.lastPrune), ok)
  }

  function Answers(r: Rate, l: Limiter, trace: seq<Attempt>, prunes: bool): (oks: seq<bool>)
    ensures |oks| == |trace|
    decreases |trace|
  {
    if trace == [] then []
    else
      var (l', ok) := Attempted(r, l, trace[0], prunes);
      [ok] + Answers(r, l', trace[1..], prunes)
  }

  function After(r: Rate, l: Limiter, trace: seq<Attempt>, prunes: bool): Limiter
    decreases |trace|
  {
    if trace == [] then l else After(r, Attempted(r, l, trace[0], prunes).0, trace[1..], prunes)
  }

  ghost predicate Monotone(trace: seq<Attempt>) {
    forall i, j :: 0 <= i <= j < |trace| ==> trace[i].at <= trace[j].at
  }

  ghost predicate From(trace: seq<Attempt>, t: int) {
    Monotone(trace) && (trace != [] ==> t <= trace[0].at)
  }

  lemma TailFrom(trace: seq<Attempt>)
    requires Monotone(trace) && trace != []
    ensures From(trace[1..], trace[0].at)
  {
    forall i, j | 0 <= i <= j < |trace[1..]|
      ensures trace[1..][i].at <= trace[1..][j].at
    {
      assert trace[1..][i] == trace[i + 1] && trace[1..][j] == trace[j + 1];
    }
  }

  // ---------- buckets as levels ----------

  ghost predicate Sound(r: Rate, m: Buckets, t: int) {
    r.per > 0 && forall k :: k in m ==> m[k].seen <= t && 0 <= m[k].tokens <= Full(r)
  }

  /** Two maps of buckets that no attempt at time t can tell apart. */
  ghost predicate SameLevels(r: Rate, m: Buckets, n: Buckets, t: int) {
    forall k: Key :: Level(r, m, k, t) == Level(r, n, k, t)
  }

  lemma FullIsPositive(r: Rate)
    requires r.per > 0
    ensures Full(r) >= 0
  {
    assert r.burst * r.per >= 0;
  }

  /** Lazy capped refill composes: refilling in two instalments is refilling once. */
  lemma RefillComposes(r: Rate, x: int, d: nat, e: nat)
    ensures Refilled(r, Refilled(r, x, d), e) == Refilled(r, x, d + e)
  {
    assert r.burst * (d + e) == r.burst * d + r.burst * e;
    assert r.burst * e >= 0;
  }

  lemma LevelLater(r: Rate, m: Buckets, k: Key, t: int, u: int)
    requires Sound(r, m, t) && t <= u
    ensures Level(r, m, k, u) == Refilled(r, Level(r, m, k, t), u - t)
    ensures 0 <= Level(r, m, k, t) <= Full(r)
  {
    FullIsPositive(r);
    assert r.burst * (u - t) >= 0;
    if k in m {
      RefillComposes(r, m[k].tokens, t - m[k].seen, u - t);
      assert t - m[k].seen - (-(u - t)) == u - m[k].seen;
      assert r.burst * (t - m[k].seen) >= 0;
    }
  }

  lemma TakeIsSound(r: Rate, m: Buckets, a: Attempt, t: int)
    requires Sound(r, m, t) && t <= a.at
    ensures Sound(r, Take(r, m, a).0, a.at)
  {
    LevelLater(r, m, a.key, t, a.at);
    LevelLater(r, m, a.key, a.at, a.at);
  }

  /** An attempt answers by the level alone, and keeps the levels of two indistinguishable maps equal. */
  lemma TakeRespectsLevels(r: Rate, m: Buckets, n: Buckets, a: Attempt, t: int)
    requires Sound(r, m, t) && Sound(r, n, t) && SameLevels(r, m, n, t) && t <= a.at
    ensures Take(r, m, a).1 == Take(r, n, a).1
    ensures SameLevels(r, Take(r, m, a).0, Take(r, n, a).0, a.at)
  {
    forall k: Key
      ensures Level(r, m, k, a.at) == Level(r, n, k, a.at)
    {
      LevelLater(r, m, k, t, a.at);
      LevelLater(r, n, k, t, a.at);
    }
    var m', n' := Take(r, m, a).0, Take(r, n, a).0;
    assert m'[a.key] == n'[a.key];
    forall k: Key
      ensures Level(r, m', k, a.at) == Level(r, n', k, a.at)
    {
      if k != a.key {
        assert Level(r, m', k, a.at) == Level(r, m, k, a.at);
        assert Level(r, n', k, a.at) == Level(r, n, k, a.at);
      }
    }
  }

  lemma IdleIsFull(r: Rate, x: nat, d: int)
    requires d >= r.per
    ensures Refilled(r, x, d) == Full(r)
  {
    assert r.burst * (d - r.per) >= 0;
    assert r.burst * d == r.burst * (d - r.per) + r.burst * r.per;
  }

  /** A bucket idle for longer than per is full, so forgetting it changes no level. */
  lemma PruningKeepsLevels(r: Rate, l: Limiter, now: int)
    requires Sound(r, l.buckets, now) && r.per <= 10 * MINUTE + 1
    ensures SameLevels(r, Pruned(l, now).buckets, l.buckets, now)
    ensures Sound(r, Pruned(l, now).buckets, now)
  {
    forall k: Key
      ensures Level(r, Pruned(l, now).buckets, k, now) == Level(r, l.buckets, k, now)
    {
      if k in l.buckets && k !in Pruned(l, now).buckets {
        IdleIsFull(r, l.buckets[k].tokens, now - l.buckets[k].seen);
      }
    }
  }

  lemma {:induction false} SameLevelsSameAnswers(r: Rate, l: Limiter, n: Limiter, trace: seq<Attempt>, t: int, prunes: bool)
    requires Sound(r, l.buckets, t) && Sound(r, n.buckets, t) && SameLevels(r, l.buckets, n.buckets, t)
    requires From(trace, t) && (prunes ==> r.per <= IDLE + 1)
    ensures Answers(r, l, trace, prunes) == Answers(r, n, trace, false)
    decreases |trace|
  {
    if trace != [] {
      var a := trace[0];
      assert Sound(r, l.buckets, a.at) && Sound(r, n.buckets, a.at);
      forall k: Key
        ensures Level(r, l.buckets, k, a.at) == Level(r, n.buckets, k, a.at)
      {
        LevelLater(r, l.buckets, k, t, a.at);
        LevelLater(r, n.buckets, k, t, a.at);
      }
      var p := if prunes then Pruned(l, a.at) else l;
      if prunes {
        PruningKeepsLevels(r, l, a.at);
      }
      assert SameLevels(r, p.buckets, n.buckets, a.at);
      TakeRespectsLevels(r, p.buckets, n.buckets, a, a.at);
      TakeIsSound(r, p.buckets, a, a.at);
      TakeIsSound(r, n.buckets, a, a.at);
      TailFrom(trace);
      SameLevelsSameAnswers(r, Attempted(r, l, a, prunes).0, Attempted(r, n, a, false).0, trace[1..], a.at, prunes);
    }
  }

  // ---------- pruning ----------

  /**
   * A call forgets a key exactly if the last sweep is at least a minute old, or there was none, and
   * the key was idle for more than ten minutes; a sweep is then what the next minute is counted from.
   */
  lemma ForgottenExactlyWhenIdle(l: Limiter, now: int, key: Key)
    ensures var swept := l.lastPrune.None? || now - l.lastPrune.value >= 60_000_000_000;
            && (key in Pruned(l, now).buckets <==>
                  key in l.buckets && !(swept && now - l.buckets[key].seen > 600_000_000_000))
            && (key in Pruned(l, now).buckets ==> Pruned(l, now).buckets[key] == l.buckets[key])
            && Pruned(l, now).lastPrune == if swept then Some(now) else l.lastPrune
  {
  }

  /** With a refill period of at most ten minutes (and a nanosecond), pruning is unobservable. */
  lemma PruningIsUnobservable(r: Rate, trace: seq<Attempt>)
    requires 0 < r.per <= 10 * MINUTE + 1 && Monotone(trace)
    ensures Answers(r, EMPTY, trace, true) == Answers(r, EMPTY, trace, false)
  {
    SameLevelsSameAnswers(r, EMPTY, EMPTY, trace, if trace == [] then 0 else trace[0].at, true);
  }

  // ---------- the rate bound ----------

  function Granted(trace: seq<Attempt>, oks: seq<bool>, key: Key): nat
    requires |trace| == |oks|
  {
    if trace == [] then 0
    else (if trace[0].key == key && oks[0] then 1 else 0) + Granted(trace[1..], oks[1..], key)
  }

  /** A granted attempt costs per units, and the time up to it earned burst units a nanosecond. */
  lemma GrantStep(r: Rate, m: Buckets, a: Attempt, t: int, key: Key)
    requires Sound(r, m, t) && t <= a.at
    ensures var (m', ok) := Take(r, m, a);
            (if a.key == key && ok then r.per else 0) + Level(r, m', key, a.at)
            <= Level(r, m, key, t) + r.burst * (a.at - t)
  {
    LevelLater(r, m, key, t, a.at);
    TakeIsSound(r, m, a, t);
    assert r.burst * 0 == 0;
  }

  lemma Budget(r: Rate, g: nat, d: int, e: int)
    ensures (1 + g) * r.per == r.per + g * r.per && r.burst * (d + e) == r.burst * d + r.burst * e
  {
  }

  /** What a key is granted is paid for by what its bucket held plus what was earned since. */
  lemma {:induction false} GrantsArePaidFor(r: Rate, l: Limiter, trace: seq<Attempt>, t: int, key: Key)
    requires Sound(r, l.buckets, t) && From(trace, t)
    ensures var last := if trace == [] then t else trace[|trace| - 1].at;
            Granted(trace, Answers(r, l, trace, false), key) * r.per
            <= Level(r, l.buckets, key, t) + r.burst * (last - t)
    decreases |trace|
  {
    if trace == [] {
      LevelLater(r, l.buckets, key, t, t);
    } else {
      var a := trace[0];
      var (l', ok) := Attempted(r, l, a, false);
      var rest := trace[1..];
      GrantStep(r, l.buckets, a, t, key);
      TakeIsSound(r, l.buckets, a, t);
      TailFrom(trace);
      GrantsArePaidFor(r, l', rest, a.at, key);
      assert Answers(r, l, trace, false)[1..] == Answers(r, l', rest, false);
      var last := if rest == [] then a.at else rest[|rest| - 1].at;
      assert last == trace[|trace| - 1].at;
      Budget(r, Granted(rest, Answers(r, l', rest, false), key), last - a.at, a.at - t);
    }
  }

  lemma {:induction false} AnswersSplit(r: Rate, l: Limiter, trace: seq<Attempt>, i: nat, prunes: bool)
    requires i <= |trace|
    ensures Answers(r, l, trace, prunes)[i..] == Answers(r, After(r, l, trace[..i], prunes), trace[i..], prunes)
    decreases |trace|
  {
    if i > 0 {
      var l' := Attempted(r, l, trace[0], prunes).0;
      AnswersSplit(r, l', trace[1..], i - 1, prunes);
      assert trace[..i][1..] == trace[1..][..i - 1];
      assert trace[1..][i - 1..] == trace[i..];
      assert Answers(r, l, trace, prunes)[i..] == Answers(r, l', trace[1..], prunes)[i - 1..];
    } else {
      assert trace[..i] == [] && trace[i..] == trace;
    }
  }

  lemma {:induction false} AnswersOfPrefix(r: Rate, l: Limiter, trace: seq<Attempt>, j: nat, prunes: bool)
    requires j <= |trace|
    ensures Answers(r, l, trace, prunes)[..j] == Answers(r, l, trace[..j], prunes)
    decreases |trace|
  {
    if j > 0 {
      var l' := Attempted(r, l, trace[0], prunes).0;
      AnswersOfPrefix(r, l', trace[1..], j - 1, prunes);
      assert trace[..j][1..] == trace[1..][..j - 1];
      assert Answers(r, l, trace, prunes)[..j] == [Attempted(r, l, trace[0], prunes).1] + Answers(r, l', trace[1..], prunes)[..j - 1];
    }
  }

  lemma {:induction false} AfterIsSound(r: Rate, l: Limiter, trace: seq<Attempt>, t: int)
    requires Sound(r, l.buckets, t) && From(trace, t)
    ensures Sound(r, After(r, l, trace, false).buckets, if trace == [] then t else trace[|trace| - 1].at)
    decreases |trace|
  {
    if trace != [] {
      TakeIsSound(r, l.buckets, trace[0], t);
      TailFrom(trace);
      AfterIsSound(r, Attempted(r, l, trace[0], false).0, trace[1..], trace[0].at);
    }
  }

  lemma AnswersOfWindow(r: Rate, trace: seq<Attempt>, i: nat, j: nat)
    requires i <= j <= |trace|
    ensures Answers(r, EMPTY, trace, false)[i..j]
            == Answers(r, After(r, EMPTY, trace[..i], false), trace[i..j], false)
  {
    AnswersOfPrefix(r, EMPTY, trace, j, false);
    AnswersSplit(r, EMPTY, trace[..j], i, false);
    assert trace[..j][..i] == trace[..i] && trace[..j][i..] == trace[i..j];
  }

  /**
   * The bound of the real, pruning limiter over any window: among the attempts i..j of any trace, a
   * key is granted at most burst + refill * T, T being the time between the first and the last.
   */
  lemma RateIsBounded(r: Rate, trace: seq<Attempt>, i: nat, j: nat, key: Key)
    requires 0 < r.per <= 10 * MINUTE + 1 && Monotone(trace) && i < j <= |trace|
    ensures Granted(trace[i..j], Answers(r, EMPTY, trace, true)[i..j], key) * r.per
            <= r.burst * r.per + r.burst * (trace[j - 1].at - trace[i].at)
  {
    PruningIsUnobservable(r, trace);
    var l, t := After(r, EMPTY, trace[..i], false), trace[i].at;
    AnswersOfWindow(r, trace, i, j);
    AfterIsSound(r, EMPTY, trace[..i], trace[0].at);
    assert Sound(r, l.buckets, t);
    assert From(trace[i..j], t);
    GrantsArePaidFor(r, l, trace[i..j], t, key);
    LevelLater(r, l.buckets, key, t, t);
  }

  // ---------- no needless denial ----------

  /** What the bound leaves a key at time u for the window that starts with attempt i. */
  function Slack(r: Rate, trace: seq<Attempt>, oks: seq<bool>, key: Key, i: nat, u: int): int
    requires i < |trace| == |oks|
  {
    Full(r) + r.burst * (u - trace[i].at) - r.per * Granted(trace[i..], oks[i..], key)
  }

  /** What is left of what the key had at time t. */
  function Remaining(r: Rate, l: Limiter, trace: seq<Attempt>, oks: seq<bool>, key: Key, t: int, u: int): int
    requires |trace| == |oks|
  {
    Level(r, l.buckets, key, t) + r.burst * (u - t) - r.per * Granted(trace, oks, key)
  }

  /** What the first attempt of a trace takes from a key: nothing, or one attempt's cost. */
  lemma FirstAttempt(r: Rate, l: Limiter, trace: seq<Attempt>, t: int, key: Key) returns (g: nat)
    requires Sound(r, l.buckets, t) && From(trace, t) && trace != []
    ensures var a, l', oks := trace[0], Attempted(r, l, trace[0], false).0, Answers(r, l, trace, false);
            && g <= 1 && oks[1..] == Answers(r, l', trace[1..], false)
            && Granted(trace, oks, key) == g + Granted(trace[1..], oks[1..], key)
            && Level(r, l'.buckets, key, a.at)
               == Refilled(r, Level(r, l.buckets, key, t), a.at - t) - if g == 1 then r.per else 0
  {
    var a := trace[0];
    var (l', ok) := Attempted(r, l, a, false);
    g := if a.key == key && ok then 1 else 0;
    LevelLater(r, l.buckets, key, t, a.at);
    LevelLater(r, l.buckets, key, a.at, a.at);
    TakeIsSound(r, l.buckets, a, t);
    assert r.burst * 0 == 0;
  }

  lemma Instalments(r: Rate, level: int, t: int, a: int, u: int, g: nat, rest: nat)
    requires g <= 1
    ensures Refilled(r, level, a - t) - (if g == 1 then r.per else 0) + r.burst * (u - a) - r.per * rest
            == Min(Full(r) + r.burst * (u - a) - r.per * (g + rest), level + r.burst * (u - t) - r.per * (g + rest))
  {
    assert r.burst * (a - t) + r.burst * (u - a) == r.burst * (u - t);
    assert r.per * (g + rest) == (if g == 1 then r.per else 0) + r.per * rest;
  }

  lemma SlackOfRest(r: Rate, trace: seq<Attempt>, oks: seq<bool>, key: Key, i: nat, u: int)
    requires 0 < i < |trace| == |oks|
    ensures Slack(r, trace, oks, key, i, u) == Slack(r, trace[1..], oks[1..], key, i - 1, u)
  {
    assert trace[1..][i - 1..] == trace[i..] && oks[1..][i - 1..] == oks[i..];
  }

  /** The first step of a trace: what remains is least of two. */
  lemma RemainingStep(r: Rate, l: Limiter, trace: seq<Attempt>, key: Key, t: int, u: int)
    requires Sound(r, l.buckets, t) && From(trace, t) && trace != []
    ensures var l', oks := Attempted(r, l, trace[0], false).0, Answers(r, l, trace, false);
            && oks[1..] == Answers(r, l', trace[1..], false)
            && Remaining(r, l', trace[1..], oks[1..], key, trace[0].at, u)
               == Min(Slack(r, trace, oks, key, 0, u), Remaining(r, l, trace, oks, key, t, u))
  {
    hide Granted, Answers, Attempted, Level, Refilled, Full, Min;
    var a, oks := trace[0], Answers(r, l, trace, false);
    var g := FirstAttempt(r, l, trace, t, key);
    assert trace[0..] == trace && oks[0..] == oks;
    Instalments(r, Level(r, l.buckets, key, t), t, a.at, u, g, Granted(trace[1..], oks[1..], key));
  }

  /** The level is what the tightest window leaves, or a full bucket. */
  lemma {:induction false} LevelIsLeastSlack(r: Rate, l: Limiter, trace: seq<Attempt>, t: int, key: Key, u: int)
    requires Sound(r, l.buckets, t) && From(trace, t) && (if trace == [] then t else trace[|trace| - 1].at) <= u
    ensures var level, oks := Level(r, After(r, l, trace, false).buckets, key, u), Answers(r, l, trace, false);
            && level <= Full(r) && level <= Remaining(r, l, trace, oks, key, t, u)
            && (forall i :: 0 <= i < |trace| ==> level <= Slack(r, trace, oks, key, i, u))
            && (level == Full(r) || level == Remaining(r, l, trace, oks, key, t, u)
                || exists i :: 0 <= i < |trace| && level == Slack(r, trace, oks, key, i, u))
    decreases |trace|
  {
    if trace == [] {
      LevelLater(r, l.buckets, key, t, u);
    } else {
      var l', oks := Attempted(r, l, trace[0], false).0, Answers(r, l, trace, false);
      var level := Level(r, After(r, l, trace, false).buckets, key, u);
      RemainingStep(r, l, trace, key, t, u);
      TakeIsSound(r, l.buckets, trace[0], t);
      TailFrom(trace);
      LevelIsLeastSlack(r, l', trace[1..], trace[0].at, key, u);
      hide Slack, Remaining, Level, Attempted, After, Answers;
      forall i | 0 < i < |trace|
        ensures Slack(r, trace, oks, key, i, u) == Slack(r, trace[1..], oks[1..], key, i - 1, u)
      {
        SlackOfRest(r, trace, oks, key, i, u);
      }
      forall i | 0 <= i < |trace| ensures level <= Slack(r, trace, oks, key, i, u) {
        if i > 0 {
          assert level <= Slack(r, trace[1..], oks[1..], key, i - 1, u);
        }
      }
      if j :| 0 <= j < |trace[1..]| && level == Slack(r, trace[1..], oks[1..], key, j, u) {
        assert level == Slack(r, trace, oks, key, j + 1, u);
      }
    }
  }

  /**
   * The limiter is as lenient as its bound allows: an attempt is granted if and only if one more
   * grant keeps every window that ends with it within burst + refill * T.
   */
  lemma GrantedIffBoundAllows(r: Rate, trace: seq<Attempt>, a: Attempt)
    requires 0 < r.per <= 10 * MINUTE + 1 && Monotone(trace + [a])
    ensures var oks := Answers(r, EMPTY, trace, true);
            Answers(r, EMPTY, trace + [a], true)[|trace|] <==>
            r.per <= Full(r) && forall i :: 0 <= i < |trace| ==> r.per <= Slack(r, trace, oks, a.key, i, a.at)
  {
    var all, t := trace + [a], if trace == [] then a.at else trace[0].at;
    MonotonePrefix(trace, a);
    PruningIsUnobservable(r, trace);
    PruningIsUnobservable(r, all);
    AnswersSplit(r, EMPTY, all, |trace|, false);
    assert all[..|trace|] == trace && all[|trace|..] == [a];
    LastAnswer(r, After(r, EMPTY, trace, false), a);
    LevelIsLeastSlack(r, EMPTY, trace, t, a.key, a.at);
    var oks := Answers(r, EMPTY, trace, false);
    hide Slack, Level, Answers, After, Granted;
    if trace == [] {
      assert r.burst * 0 == 0;
    } else {
      StartsFull(r, trace, oks, a.key, a.at);
    }
  }

  lemma MonotonePrefix(trace: seq<Attempt>, a: Attempt)
    requires Monotone(trace + [a])
    ensures Monotone(trace) && (trace != [] ==> trace[|trace| - 1].at <= a.at)
  {
    var all := trace + [a];
    forall i, j | 0 <= i <= j < |trace| ensures trace[i].at <= trace[j].at {
      assert all[i].at <= all[j].at;
    }
    assert trace != [] ==> all[|trace| - 1].at <= all[|trace|].at;
  }

  lemma LastAnswer(r: Rate, l: Limiter, a: Attempt)
    ensures Answers(r, l, [a], false) == [Level(r, l.buckets, a.key, a.at) >= r.per]
  {
    assert [a][1..] == [];
  }

  lemma StartsFull(r: Rate, trace: seq<Attempt>, oks: seq<bool>, key: Key, u: int)
    requires trace != [] && |trace| == |oks|
    ensures Remaining(r, EMPTY, trace, oks, key, trace[0].at, u) == Slack(r, trace, oks, key, 0, u)
  {
    assert trace[0..] == trace && oks[0..] == oks;
  }

  /** Ten attempts a minute, the rate for passphrases. */
  const PASSPHRASES: Rate := Rate(10, MINUTE)

  /** In any window of T nanoseconds a client gets at most ten attempts and one for every six seconds of it. */
  lemma PassphraseAttempts(trace: seq<Attempt>, i: nat, j: nat, key: Key)
    requires Monotone(trace) && i < j <= |trace|
    ensures Granted(trace[i..j], Answers(PASSPHRASES, EMPTY, trace, true)[i..j], key)
            <= 10 + (trace[j - 1].at - trace[i].at) / (6 * SECOND)
  {
    RateIsBounded(PASSPHRASES, trace, i, j, key);
    hide Answers, Granted, Monotone;
  }

  // ---------- denied attempts leave no trace ----------

  function Without<T>(s: seq<T>, drop: seq<bool>): seq<T>
    requires |s| == |drop|
  {
    if s == [] then [] else (if drop[0] then [] else [s[0]]) + Without(s[1..], drop[1..])
  }

  lemma DenialKeepsLevels(r: Rate, l: Limiter, a: Attempt, t: int)
    requires Sound(r, l.buckets, t) && t <= a.at && !Attempted(r, l, a, false).1
    ensures SameLevels(r, Attempted(r, l, a, false).0.buckets, l.buckets, a.at)
  {
    LevelLater(r, l.buckets, a.key, t, a.at);
    var m := Attempted(r, l, a, false).0.buckets;
    forall k: Key
      ensures Level(r, m, k, a.at) == Level(r, l.buckets, k, a.at)
    {
      if k == a.key {
        LevelLater(r, l.buckets, k, t, a.at);
        LevelLater(r, l.buckets, k, a.at, a.at);
      }
    }
  }

  lemma {:induction false} KeepsMonotone(trace: seq<Attempt>, drop: seq<bool>, t: int)
    requires |trace| == |drop| && From(trace, t)
    ensures From(Without(trace, drop), t)
  {
    if trace != [] {
      TailFrom(trace);
      KeepsMonotone(trace[1..], drop[1..], trace[0].at);
      var w := Without(trace[1..], drop[1..]);
      forall i, j | 0 <= i <= j < |[trace[0]] + w|
        ensures ([trace[0]] + w)[i].at <= ([trace[0]] + w)[j].at
      {
        if i > 0 {
          assert w[i - 1].at <= w[j - 1].at;
        } else if j > 0 {
          assert w[0].at <= w[j - 1].at;
        }
      }
    }
  }

  lemma DenialIsForgotten(r: Rate, l: Limiter, a: Attempt, t: int, later: seq<Attempt>)
    requires Sound(r, l.buckets, t) && t <= a.at && !Attempted(r, l, a, false).1 && From(later, a.at)
    ensures Answers(r, Attempted(r, l, a, false).0, later, false) == Answers(r, l, later, false)
  {
    DenialKeepsLevels(r, l, a, t);
    TakeIsSound(r, l.buckets, a, t);
    SameLevelsSameAnswers(r, Attempted(r, l, a, false).0, l, later, a.at, false);
  }

  lemma {:induction false} DroppingDenialsUnpruned(r: Rate, l: Limiter, trace: seq<Attempt>, drop: seq<bool>, t: int)
    requires Sound(r, l.buckets, t) && From(trace, t) && |drop| == |trace|
    requires forall i :: 0 <= i < |trace| && drop[i] ==> !Answers(r, l, trace, false)[i]
    ensures Answers(r, l, Without(trace, drop), false) == Without(Answers(r, l, trace, false), drop)
    decreases |trace|
  {
    if trace != [] {
      var a, rest := trace[0], trace[1..];
      var (l', ok) := Attempted(r, l, a, false);
      TakeIsSound(r, l.buckets, a, t);
      TailFrom(trace);
      var oks := Answers(r, l', rest, false);
      assert Answers(r, l, trace, false) == [ok] + oks;
      assert forall i :: 0 <= i < |rest| ==> drop[1..][i] == drop[i + 1] && oks[i] == ([ok] + oks)[i + 1];
      DroppingDenialsUnpruned(r, l', rest, drop[1..], a.at);
      var w := Without(rest, drop[1..]);
      assert ([ok] + oks)[1..] == oks;
      if drop[0] {
        assert [] + w == w && [] + Without(oks, drop[1..]) == Without(oks, drop[1..]);
        KeepsMonotone(rest, drop[1..], a.at);
        DenialIsForgotten(r, l, a, t, w);
      } else {
        assert ([a] + w)[1..] == w;
      }
    }
  }

  /** Striking any denied attempts from a trace changes none of the other answers. */
  lemma DeniedAttemptsLeaveNoTrace(r: Rate, trace: seq<Attempt>, drop: seq<bool>)
    requires 0 < r.per <= 10 * MINUTE + 1 && Monotone(trace) && |drop| == |trace|
    requires forall i :: 0 <= i < |trace| && drop[i] ==> !Answers(r, EMPTY, trace, true)[i]
    ensures Answers(r, EMPTY, Without(trace, drop), true) == Without(Answers(r, EMPTY, trace, true), drop)
  {
    var t := if trace == [] then 0 else trace[0].at;
    PruningIsUnobservable(r, trace);
    DroppingDenialsUnpruned(r, EMPTY, trace, drop, t);
    KeepsMonotone(trace, drop, t);
    PruningIsUnobservable(r, Without(trace, drop));
  }

  // ---------- the exact limit of pruning ----------

  function Repeat(key: Key, at: int, n: nat): seq<Attempt> {
    if n == 0 then [] else [Attempt(key, at)] + Repeat(key, at, n - 1)
  }

  lemma {:induction false} RepeatShape(key: Key, at: int, n: nat)
    ensures |Repeat(key, at, n)| == n && forall i :: 0 <= i < n ==> Repeat(key, at, n)[i] == Attempt(key, at)
  {
    if n > 0 {
      RepeatShape(key, at, n - 1);
    }
  }

  function ForAttempt(l: Limiter, at: int, prunes: bool): Limiter {
    if prunes then Pruned(l, at) else l
  }

  lemma Costs(r: Rate, n: nat)
    requires r.per > 0 && 1 <= n <= r.burst
    ensures n * r.per == (n - 1) * r.per + r.per && 0 <= (n - 1) * r.per && n * r.per <= Full(r)
    ensures r.burst * 0 == 0
  {
    assert (r.burst - n) * r.per >= 0;
  }

  lemma DrainOne(r: Rate, l: Limiter, key: Key, at: int, n: nat, prunes: bool)
    requires r.per > 0 && 1 <= n <= r.burst && Level(r, ForAttempt(l, at, prunes).buckets, key, at) == n * r.per
    ensures var (l', ok) := Attempted(r, l, Attempt(key, at), prunes);
            ok && ForAttempt(l', at, prunes) == l'
            && l'.buckets == ForAttempt(l, at, prunes).buckets[key := Bucket((n - 1) * r.per, at)]
            && l'.lastPrune == ForAttempt(l, at, prunes).lastPrune
            && Level(r, l'.buckets, key, at) == (n - 1) * r.per
  {
    Costs(r, n);
  }

  /** A level of n attempts serves n attempts at once, and is then empty. */
  lemma {:induction false} Drain(r: Rate, l: Limiter, key: Key, at: int, n: nat, prunes: bool)
    requires r.per > 0 && n <= r.burst && Level(r, ForAttempt(l, at, prunes).buckets, key, at) == n * r.per
    ensures forall i :: 0 <= i < |Repeat(key, at, n)| ==> Answers(r, l, Repeat(key, at, n), prunes)[i]
    ensures n > 0 ==>
              var m := After(r, l, Repeat(key, at, n), prunes);
              m.lastPrune == ForAttempt(l, at, prunes).lastPrune
              && m.buckets == ForAttempt(l, at, prunes).buckets[key := Bucket(0, at)]
    decreases n
  {
    if n > 0 {
      DrainOne(r, l, key, at, n, prunes);
      var l' := Attempted(r, l, Attempt(key, at), prunes).0;
      Drain(r, l', key, at, n - 1, prunes);
      assert Repeat(key, at, n)[1..] == Repeat(key, at, n - 1);
      if n == 1 {
        assert 0 * r.per == 0;
        assert After(r, l', [], prunes) == l';
      }
    }
  }

  lemma {:induction false} GrantedEvery(trace: seq<Attempt>, oks: seq<bool>, key: Key)
    requires |trace| == |oks| && forall i :: 0 <= i < |trace| ==> trace[i].key == key && oks[i]
    ensures Granted(trace, oks, key) == |trace|
  {
    if trace != [] {
      GrantedEvery(trace[1..], oks[1..], key);
    }
  }

  /** A full burst at time 0 and another one as soon as the bucket may be forgotten. */
  function TwoBursts(burst: nat): seq<Attempt> {
    Repeat("k", 0, burst) + Repeat("k", IDLE + 1, burst)
  }

  lemma TwoBurstsMonotone(burst: nat)
    ensures Monotone(TwoBursts(burst)) && |TwoBursts(burst)| == 2 * burst
    ensures TwoBursts(burst)[..burst] == Repeat("k", 0, burst)
    ensures TwoBursts(burst)[burst..] == Repeat("k", IDLE + 1, burst)
  {
    RepeatShape("k", 0, burst);
    RepeatShape("k", IDLE + 1, burst);
  }

  lemma ShortOfABurst(r: Rate, d: int)
    requires r.burst >= 1 && d < r.per
    ensures r.burst * d < r.burst * r.per && r.burst * 0 == 0
  {
    assert r.burst * (r.per - d) >= 1;
  }

  /** A bucket that is not full does not serve a whole burst. */
  lemma NotFullNoBurst(r: Rate, l: Limiter, key: Key, at: int)
    requires r.burst >= 1 && Sound(r, l.buckets, at)
    ensures Level(r, l.buckets, key, at) < Full(r) ==>
              exists i :: 0 <= i < |Repeat(key, at, r.burst)| && !Answers(r, l, Repeat(key, at, r.burst), false)[i]
  {
    if Level(r, l.buckets, key, at) >= Full(r) {
      return;
    }
    var burst := Repeat(key, at, r.burst);
    RepeatShape(key, at, r.burst);
    assert From(burst, at) && burst[|burst| - 1].at == at;
    GrantsArePaidFor(r, l, burst, at, key);
    assert r.burst * 0 == 0;
    assert Granted(burst, Answers(r, l, burst, false), key) * r.per < r.burst * r.per;
    if forall i :: 0 <= i < |burst| ==> Answers(r, l, burst, false)[i] {
      GrantedEvery(burst, Answers(r, l, burst, false), key);
      assert false;
    }
  }

  /** An empty bucket that had less than per to refill does not serve a whole burst. */
  lemma TooEarlyForABurst(r: Rate, l: Limiter, key: Key, at: int)
    requires r.burst >= 1 && Sound(r, l.buckets, at) && key in l.buckets
    requires l.buckets[key].tokens == 0 && at - l.buckets[key].seen < r.per
    ensures exists i :: 0 <= i < |Repeat(key, at, r.burst)| && !Answers(r, l, Repeat(key, at, r.burst), false)[i]
  {
    ShortOfABurst(r, at - l.buckets[key].seen);
    NotFullNoBurst(r, l, key, at);
  }

  /** Beyond the limit the forgetful limiter serves the second burst in full, the exact one does not. */
  lemma TwoBurstsTellThemApart(r: Rate)
    requires r.burst >= 1 && r.per > IDLE + 1
    ensures Answers(r, EMPTY, TwoBursts(r.burst), true) != Answers(r, EMPTY, TwoBursts(r.burst), false)
  {
    var b, trace, later := r.burst, TwoBursts(r.burst), IDLE + 1;
    TwoBurstsMonotone(b);
    RepeatShape("k", 0, b);
    var forgetful, exact := After(r, EMPTY, trace[..b], true), After(r, EMPTY, trace[..b], false);
    Drain(r, EMPTY, "k", 0, b, true);
    Drain(r, EMPTY, "k", 0, b, false);
    assert ForAttempt(forgetful, later, true).buckets == map[];
    Drain(r, forgetful, "k", later, b, true);
    AfterIsSound(r, EMPTY, trace[..b], 0);
    TooEarlyForABurst(r, exact, "k", later);
    AnswersSplit(r, EMPTY, trace, b, true);
    AnswersSplit(r, EMPTY, trace, b, false);
    assert Answers(r, EMPTY, trace, true)[b..] != Answers(r, EMPTY, trace, false)[b..];
  }

  /** The limit is exact: pruning goes unnoticed on all traces iff per is at most ten minutes and 1 ns. */
  lemma PruningIsUnobservableIff(r: Rate)
    requires r.burst >= 1 && r.per >= 1
    ensures (forall trace :: Monotone(trace) ==> Answers(r, EMPTY, trace, true) == Answers(r, EMPTY, trace, false))
            <==> r.per <= 10 * MINUTE + 1
  {
    if r.per <= IDLE + 1 {
      forall trace | Monotone(trace)
        ensures Answers(r, EMPTY, trace, true) == Answers(r, EMPTY, trace, false)
      {
        PruningIsUnobservable(r, trace);
      }
    } else {
      TwoBurstsMonotone(r.burst);
      TwoBurstsTellThemApart(r);
    }
  }

  /** Beyond the limit both bursts are served in full. */
  lemma BothBurstsAreServed(r: Rate)
    requires r.burst >= 1 && r.per > IDLE + 1
    ensures var trace, oks := TwoBursts(r.burst), Answers(r, EMPTY, TwoBursts(r.burst), true);
            forall i :: 0 <= i < |trace| ==> trace[i].key == "k" && oks[i]
  {
    var b, trace, later := r.burst, TwoBursts(r.burst), IDLE + 1;
    TwoBurstsMonotone(b);
    RepeatShape("k", 0, b);
    RepeatShape("k", later, b);
    var forgetful := After(r, EMPTY, trace[..b], true);
    Drain(r, EMPTY, "k", 0, b, true);
    assert ForAttempt(forgetful, later, true).buckets == map[];
    Drain(r, forgetful, "k", later, b, true);
    AnswersOfPrefix(r, EMPTY, trace, b, true);
    AnswersSplit(r, EMPTY, trace, b, true);
    var oks := Answers(r, EMPTY, trace, true);
    forall i | 0 <= i < |trace| ensures trace[i].key == "k" && oks[i] {
      if i < b {
        assert oks[..b][i] == oks[i] && trace[..b][i] == trace[i];
      } else {
        assert oks[b..][i - b] == oks[i] && trace[b..][i - b] == trace[i];
      }
    }
  }

  /** The promised bound on the attempts i..j of a trace. */
  ghost predicate WithinBound(r: Rate, trace: seq<Attempt>, i: nat, j: nat, key: Key)
    requires i < j <= |trace|
  {
    Granted(trace[i..j], Answers(r, EMPTY, trace, true)[i..j], key) * r.per
    <= r.burst * r.per + r.burst * (trace[j - 1].at - trace[i].at)
  }

  lemma TwoBurstsExceed(r: Rate)
    requires r.burst >= 1 && r.per > IDLE + 1
    ensures |TwoBursts(r.burst)| == 2 * r.burst && !WithinBound(r, TwoBursts(r.burst), 0, 2 * r.burst, "k")
  {
    var b, trace := r.burst, TwoBursts(r.burst);
    TwoBurstsMonotone(b);
    RepeatShape("k", 0, b);
    RepeatShape("k", IDLE + 1, b);
    BothBurstsAreServed(r);
    assert trace[0] == trace[..b][0];
    hide Answers, TwoBursts, Repeat;
    var oks := Answers(r, EMPTY, trace, true);
    GrantedEvery(trace, oks, "k");
    assert trace[0..2 * b] == trace && oks[0..2 * b] == oks;
    assert trace[0].at == 0 && trace[2 * b - 1] == trace[b..][b - 1];
    hide Granted;
    TwoBurstsCost(r, IDLE + 1);
  }

  lemma TwoBurstsCost(r: Rate, d: int)
    requires r.burst >= 1 && d < r.per
    ensures 2 * r.burst * r.per > r.burst * r.per + r.burst * d
  {
    ShortOfABurst(r, d);
    assert 2 * r.burst * r.per == r.burst * r.per + r.burst * r.per;
  }

  /** The pruning limiter keeps its bound over all windows of all traces iff per is at most ten minutes and 1 ns. */
  lemma RateIsBoundedIff(r: Rate)
    requires r.burst >= 1 && r.per >= 1
    ensures (forall trace, i: nat, j: nat, key :: Monotone(trace) && i < j <= |trace| ==> WithinBound(r, trace, i, j, key))
            <==> r.per <= 10 * MINUTE + 1
  {
    if r.per <= IDLE + 1 {
      forall trace, i: nat, j: nat, key | Monotone(trace) && i < j <= |trace|
        ensures WithinBound(r, trace, i, j, key)
      {
        RateIsBounded(r, trace, i, j, key);
      }
    } else {
      TwoBurstsMonotone(r.burst);
      TwoBurstsExceed(r);
    }
  }

  /** The next attempt is granted exactly when the bound leaves room for it in every window that ends with it. */
  ghost predicate BoundDecides(r: Rate, trace: seq<Attempt>, a: Attempt) {
    var oks := Answers(r, EMPTY, trace, true);
    Answers(r, EMPTY, trace + [a], true)[|trace|] <==>
    r.per <= Full(r) && forall i :: 0 <= i < |trace| ==> r.per <= Slack(r, trace, oks, a.key, i, a.at)
  }

  /** Beyond the limit, the last attempt of the second burst is granted though the first window has no room for it. */
  lemma LastOfTwoBursts(r: Rate) returns (trace: seq<Attempt>, a: Attempt)
    requires r.burst >= 1 && r.per > IDLE + 1
    ensures Monotone(trace + [a]) && !BoundDecides(r, trace, a)
  {
    var all, n := TwoBursts(r.burst), 2 * r.burst - 1;
    TwoBurstsMonotone(r.burst);
    RepeatShape("k", 0, r.burst);
    RepeatShape("k", IDLE + 1, r.burst);
    BothBurstsAreServed(r);
    assert all[0] == all[..r.burst][0] && all[n] == all[r.burst..][r.burst - 1];
    trace, a := all[..n], all[n];
    assert all == trace + [a];
    AnswersOfPrefix(r, EMPTY, all, n, true);
    hide Answers, TwoBursts, Repeat, Granted, Monotone, Full;
    var oks := Answers(r, EMPTY, trace, true);
    GrantedEvery(trace, oks, "k");
    assert trace[0..] == trace && oks[0..] == oks;
    LastOfTwoCosts(r, IDLE + 1);
    assert Slack(r, trace, oks, "k", 0, a.at) < r.per;
  }

  lemma LastOfTwoCosts(r: Rate, d: int)
    requires r.burst >= 1 && d < r.per
    ensures Full(r) + r.burst * d - r.per * (2 * r.burst - 1) < r.per
  {
    TwoBurstsCost(r, d);
    assert r.per * (2 * r.burst - 1) + r.per == 2 * r.burst * r.per;
  }

  /** The bound decides every attempt iff per is at most ten minutes and 1 ns. */
  lemma GrantedIffBoundAllowsIff(r: Rate)
    requires r.burst >= 1 && r.per >= 1
    ensures (forall trace, a :: Monotone(trace + [a]) ==> BoundDecides(r, trace, a)) <==> r.per <= 10 * MINUTE + 1
  {
    if r.per <= IDLE + 1 {
      forall trace, a | Monotone(trace + [a])
        ensures BoundDecides(r, trace, a)
      {
        GrantedIffBoundAllows(r, trace, a);
      }
    } else {
      var trace, a := LastOfTwoBursts(r);
    }
  }

  // ---------- bounded memory ----------

  ghost predicate RecentlyPruned(l: Limiter, now: int) {
    l.lastPrune.Some? && l.lastPrune.value <= now < l.lastPrune.value + PRUNE_EVERY
    && forall k :: k in l.buckets ==> l.buckets[k].seen >= l.lastPrune.value - IDLE
  }

  lemma {:induction false} PruningKeepsUp(r: Rate, l: Limiter, trace: seq<Attempt>, t: int)
    requires From(trace, t) && (RecentlyPruned(l, t) || (l == EMPTY && trace != []))
    ensures RecentlyPruned(After(r, l, trace, true), if trace == [] then t else trace[|trace| - 1].at)
    decreases |trace|
  {
    if trace != [] {
      var l' := Attempted(r, l, trace[0], true).0;
      assert RecentlyPruned(Pruned(l, trace[0].at), trace[0].at);
      assert RecentlyPruned(l', trace[0].at);
      TailFrom(trace);
      PruningKeepsUp(r, l', trace[1..], trace[0].at);
    }
  }

  /** After every call, each bucket still in memory was used less than eleven minutes ago. */
  lemma KeptBucketsAreRecent(r: Rate, trace: seq<Attempt>, key: Key)
    requires Monotone(trace) && trace != [] && key in After(r, EMPTY, trace, true).buckets
    ensures trace[|trace| - 1].at - After(r, EMPTY, trace, true).buckets[key].seen < 11 * MINUTE
  {
    PruningKeepsUp(r, EMPTY, trace, trace[0].at);
  }

  // ---------- the exact limit for denied attempts ----------

  /** Striking denied attempts changes no other answer. */
  ghost predicate DenialsCanGo(r: Rate, trace: seq<Attempt>, drop: seq<bool>)
    requires |drop| == |trace|
  {
    Answers(r, EMPTY, Without(trace, drop), true) == Without(Answers(r, EMPTY, trace, true), drop)
  }

  ghost predicate OnlyDenied(r: Rate, trace: seq<Attempt>, drop: seq<bool>) {
    |drop| == |trace| && forall i :: 0 <= i < |trace| && drop[i] ==> !Answers(r, EMPTY, trace, true)[i]
  }

  /** Where a nanosecond earns a whole attempt, a denied attempt finds its bucket used at the same instant. */
  lemma DenialIsNoStep(r: Rate, l: Limiter, a: Attempt, t: int)
    requires 1 <= r.per <= r.burst && Sound(r, l.buckets, t) && t <= a.at
    requires RecentlyPruned(l, t) || l == EMPTY
    ensures !Attempted(r, l, a, true).1 ==> Attempted(r, l, a, true).0 == l
  {
    if Attempted(r, l, a, true).1 {
      return;
    }
    Costs(r, 1);
    var m := Pruned(l, a.at).buckets;
    if a.key in m && m[a.key].seen < a.at {
      EarnsAnAttempt(r, a.at - m[a.key].seen);
    }
    assert a.key in m && m[a.key].seen == a.at == t;
    assert r.burst * 0 == 0;
    assert m[a.key := m[a.key]] == m;
  }

  lemma EarnsAnAttempt(r: Rate, d: nat)
    requires 1 <= r.per <= r.burst && d >= 1
    ensures r.burst * d >= r.per
  {
    assert r.burst * (d - 1) >= 0;
  }

  lemma AttemptKeepsUp(r: Rate, l: Limiter, a: Attempt, t: int)
    requires r.per >= 1 && Sound(r, l.buckets, t) && t <= a.at && (RecentlyPruned(l, t) || l == EMPTY)
    ensures var l' := Attempted(r, l, a, true).0; Sound(r, l'.buckets, a.at) && RecentlyPruned(l', a.at)
  {
    var p := Pruned(l, a.at);
    assert Sound(r, p.buckets, a.at) && RecentlyPruned(p, a.at);
    TakeIsSound(r, p.buckets, a, a.at);
  }

  lemma {:induction false} DroppingNoSteps(r: Rate, l: Limiter, trace: seq<Attempt>, drop: seq<bool>, t: int)
    requires 1 <= r.per <= r.burst && Sound(r, l.buckets, t) && From(trace, t) && |drop| == |trace|
    requires RecentlyPruned(l, t) || l == EMPTY
    requires forall i :: 0 <= i < |trace| && drop[i] ==> !Answers(r, l, trace, true)[i]
    ensures Answers(r, l, Without(trace, drop), true) == Without(Answers(r, l, trace, true), drop)
    decreases |trace|
  {
    if trace != [] {
      var a, rest := trace[0], trace[1..];
      var (l', ok) := Attempted(r, l, a, true);
      var oks := Answers(r, l', rest, true);
      assert Answers(r, l, trace, true) == [ok] + oks && ([ok] + oks)[1..] == oks;
      AttemptKeepsUp(r, l, a, t);
      TailFrom(trace);
      hide Attempted, RecentlyPruned, Sound;
      assert forall i :: 0 <= i < |rest| ==> drop[1..][i] == drop[i + 1] && oks[i] == ([ok] + oks)[i + 1];
      DroppingNoSteps(r, l', rest, drop[1..], a.at);
      var w := Without(rest, drop[1..]);
      if drop[0] {
        assert !([ok] + oks)[0];
        DenialIsNoStep(r, l, a, t);
        assert [] + w == w && [] + Without(oks, drop[1..]) == Without(oks, drop[1..]);
      } else {
        assert ([a] + w)[1..] == w;
      }
    }
  }

  /** At one instant nothing is pruned twice. */
  lemma {:induction false} SameInstant(r: Rate, l: Limiter, n: Limiter, key: Key, at: int, count: nat)
    requires l.buckets == n.buckets == Pruned(l, at).buckets
    ensures Answers(r, l, Repeat(key, at, count), true) == Answers(r, n, Repeat(key, at, count), false)
    decreases count
  {
    if count > 0 {
      var a := Attempt(key, at);
      var l', n' := Attempted(r, l, a, true).0, Attempted(r, n, a, false).0;
      assert Pruned(l', at) == l';
      SameInstant(r, l', n', key, at, count - 1);
      assert Repeat(key, at, count)[1..] == Repeat(key, at, count - 1);
    }
  }

  lemma {:induction false} WithoutSplit<T>(a: seq<T>, da: seq<bool>, b: seq<T>, db: seq<bool>)
    requires |a| == |da| && |b| == |db|
    ensures Without(a + b, da + db) == Without(a, da) + Without(b, db)
  {
    if a == [] {
      assert a + b == b && da + db == db;
    } else {
      WithoutSplit(a[1..], da[1..], b, db);
      assert (a + b)[1..] == a[1..] + b && (da + db)[1..] == da[1..] + db;
      var first := if da[0] then [] else [a[0]];
      assert Without(a + b, da + db) == first + Without(a[1..] + b, da[1..] + db);
      hide Without;
      assert first + (Without(a[1..], da[1..]) + Without(b, db)) == first + Without(a[1..], da[1..]) + Without(b, db);
    }
  }

  lemma {:induction false} WithoutNothing<T>(s: seq<T>, drop: seq<bool>)
    requires |s| == |drop| && forall i :: 0 <= i < |s| ==> !drop[i]
    ensures Without(s, drop) == s
  {
    if s != [] {
      WithoutNothing(s[1..], drop[1..]);
      assert [s[0]] + s[1..] == s;
    }
  }

  lemma WithoutMiddle<T>(a: seq<T>, x: T, b: seq<T>, da: seq<bool>, db: seq<bool>)
    requires |a| == |da| && |b| == |db|
    requires (forall i :: 0 <= i < |a| ==> !da[i]) && (forall i :: 0 <= i < |b| ==> !db[i])
    ensures Without(a + [x] + b, da + [true] + db) == a + b
  {
    hide Without;
    WithoutNothing(a, da);
    WithoutNothing(b, db);
    WithoutSplit(a, da, [x], [true]);
    WithoutSplit(a + [x], da + [true], b, db);
    WithoutOne(x);
    assert a + [] == a;
  }

  lemma WithoutOne<T>(x: T)
    ensures Without([x], [true]) == []
  {
    assert [x][1..] == [] && [true][1..] == [];
  }

  /** Two bursts with one attempt in between, just after the first. */
  function Disturbed(burst: nat): seq<Attempt> {
    Repeat("k", 0, burst) + [Attempt("k", 1)] + Repeat("k", IDLE + 1, burst)
  }

  function Middle(burst: nat): seq<bool> {
    seq(burst, i => false) + [true] + seq(burst, i => false)
  }

  lemma DisturbedShape(burst: nat)
    ensures Monotone(Disturbed(burst)) && |Disturbed(burst)| == |Middle(burst)| == 2 * burst + 1
    ensures Disturbed(burst)[..burst] == Repeat("k", 0, burst) && Disturbed(burst)[burst] == Attempt("k", 1)
    ensures Disturbed(burst)[..burst + 1] == Repeat("k", 0, burst) + [Attempt("k", 1)]
    ensures Disturbed(burst)[burst + 1..] == Repeat("k", IDLE + 1, burst)
    ensures Without(Disturbed(burst), Middle(burst)) == TwoBursts(burst)
    ensures forall i :: 0 <= i < 2 * burst + 1 ==> (Middle(burst)[i] <==> i == burst)
  {
    RepeatShape("k", 0, burst);
    RepeatShape("k", IDLE + 1, burst);
    WithoutMiddle(Repeat("k", 0, burst), Attempt("k", 1), Repeat("k", IDLE + 1, burst),
                  seq(burst, i => false), seq(burst, i => false));
  }

  lemma {:induction false} AfterSnoc(r: Rate, l: Limiter, trace: seq<Attempt>, a: Attempt, prunes: bool)
    ensures After(r, l, trace + [a], prunes) == Attempted(r, After(r, l, trace, prunes), a, prunes).0
    decreases |trace|
  {
    if trace == [] {
      assert (trace + [a])[1..] == [] && (trace + [a])[0] == a;
    } else {
      assert (trace + [a])[1..] == trace[1..] + [a];
      AfterSnoc(r, Attempted(r, l, trace[0], prunes).0, trace[1..], a, prunes);
    }
  }

  /** The attempt in between is denied, and makes the limiter remember the key when the second burst comes. */
  lemma DisturbanceIsRemembered(r: Rate)
    requires 1 <= r.burst < r.per
    ensures var b, trace := r.burst, Disturbed(r.burst);
            var l := After(r, EMPTY, Repeat("k", 0, b) + [Attempt("k", 1)], true);
            && |trace| == 2 * b + 1 && !Answers(r, EMPTY, trace, true)[b]
            && l == Limiter(map["k" := Bucket(b, 1)], Some(0))
  {
    var b, trace, first := r.burst, Disturbed(r.burst), Repeat("k", 0, r.burst);
    DisturbedShape(b);
    var l, a := After(r, EMPTY, first, true), Attempt("k", 1);
    Drain(r, EMPTY, "k", 0, b, true);
    assert l == Limiter(map["k" := Bucket(0, 0)], Some(0));
    AnswersSplit(r, EMPTY, trace, b, true);
    assert trace[b..][0] == a;
    FirstEarnings(r);
    AfterSnoc(r, EMPTY, first, a, true);
    assert l.buckets["k" := Bucket(b, 1)] == map["k" := Bucket(b, 1)];
  }

  lemma FirstEarnings(r: Rate)
    requires 1 <= r.burst < r.per
    ensures Refilled(r, 0, 1) == r.burst
  {
    assert r.burst * (r.per - 1) >= 0;
  }

  lemma DisturbedBurstFails(r: Rate) returns (i: nat)
    requires 1 <= r.burst < r.per && r.per > IDLE + 1
    ensures |Disturbed(r.burst)| == 2 * r.burst + 1 && r.burst < i < 2 * r.burst + 1
    ensures !Answers(r, EMPTY, Disturbed(r.burst), true)[i]
  {
    var b, trace, later := r.burst, Disturbed(r.burst), IDLE + 1;
    DisturbedShape(b);
    DisturbanceIsRemembered(r);
    RepeatShape("k", later, b);
    var l := After(r, EMPTY, trace[..b + 1], true);
    AnswersSplit(r, EMPTY, trace, b + 1, true);
    assert Pruned(l, later).buckets == l.buckets;
    hide Answers, After, Repeat, Disturbed, Middle, Pruned;
    SameInstant(r, l, l, "k", later, b);
    LevelOfRemembered(r, l, later);
    NotFullNoBurst(r, l, "k", later);
    var k :| 0 <= k < |Repeat("k", later, b)| && !Answers(r, l, Repeat("k", later, b), false)[k];
    i := b + 1 + k;
    assert Answers(r, EMPTY, trace, true)[b + 1..][k] == Answers(r, EMPTY, trace, true)[i];
  }

  lemma FailureRemains(oks: seq<bool>, burst: nat, i: nat)
    requires |oks| == 2 * burst + 1 && burst < i < |oks| && !oks[i]
    ensures |Middle(burst)| == |oks| && exists k :: 0 <= k < |Without(oks, Middle(burst))| && !Without(oks, Middle(burst))[k]
  {
    hide Without;
    var a, b := oks[..burst], oks[burst + 1..];
    assert oks == a + [oks[burst]] + b;
    WithoutMiddle(a, oks[burst], b, seq(burst, i => false), seq(burst, i => false));
    assert (a + b)[i - 1] == oks[i];
  }

  lemma DroppingTheDisturbanceShows(r: Rate)
    requires 1 <= r.burst < r.per && r.per > IDLE + 1
    ensures |Middle(r.burst)| == |Disturbed(r.burst)| && OnlyDenied(r, Disturbed(r.burst), Middle(r.burst))
    ensures Monotone(Disturbed(r.burst)) && !DenialsCanGo(r, Disturbed(r.burst), Middle(r.burst))
  {
    hide Answers, After, Repeat, Disturbed, Middle, TwoBursts, Monotone, Without;
    DisturbedShape(r.burst);
    DisturbanceIsRemembered(r);
    BothBurstsAreServed(r);
    var i := DisturbedBurstFails(r);
    FailureRemains(Answers(r, EMPTY, Disturbed(r.burst), true), r.burst, i);
  }

  lemma LevelOfRemembered(r: Rate, l: Limiter, later: int)
    requires 1 <= r.burst && r.per > later && later == IDLE + 1 && l.buckets == map["k" := Bucket(r.burst, 1)]
    ensures Sound(r, l.buckets, later) && Level(r, l.buckets, "k", later) < Full(r)
  {
    ShortOfABurst(r, later);
    assert r.burst + r.burst * IDLE == r.burst * later;
    assert r.burst * (r.per - 1) >= 0;
  }

  /**
   * Denied attempts leave no trace in the pruning limiter iff per is at most ten minutes and 1 ns, or
   * every nanosecond earns a whole attempt: otherwise a denied attempt can keep a bucket remembered.
   */
  lemma DeniedAttemptsLeaveNoTraceIff(r: Rate)
    requires r.burst >= 1 && r.per >= 1
    ensures (forall trace: seq<Attempt>, drop: seq<bool> :: Monotone(trace) && OnlyDenied(r, trace, drop) ==> DenialsCanGo(r, trace, drop))
            <==> r.per <= 10 * MINUTE + 1 || r.per <= r.burst
  {
    if r.per <= IDLE + 1 || r.per <= r.burst {
      forall trace: seq<Attempt>, drop: seq<bool> | Monotone(trace) && OnlyDenied(r, trace, drop)
        ensures DenialsCanGo(r, trace, drop)
      {
        if r.per <= IDLE + 1 {
          DeniedAttemptsLeaveNoTrace(r, trace, drop);
        } else {
          DroppingNoSteps(r, EMPTY, trace, drop, if trace == [] then 0 else trace[0].at);
        }
      }
    } else {
      DroppingTheDisturbanceShows(r);
    }
  }

  // ---------- the mutable limiter ----------

  class RateLimiter {
    var buckets: Buckets
    var lastPrune: Option<int>
    const rate: Rate

    ghost function Value(): Limiter
      reads this
    {
      Limiter(buckets, lastPrune)
    }

    constructor (burst: nat, per: int)
      requires per > 0
      ensures Value() == EMPTY && rate == Rate(burst, per)
    {
      buckets, lastPrune, rate := map[], None, Rate(burst, per);
    }

    method Allow(key: Key, now: int) returns (ok: bool)
      modifies this
      ensures (Value(), ok) == Attempted(rate, old(Value()), Attempt(key, now), true)
    {
      Prune(now);
      ghost var kept := buckets;
      if key !in buckets {
        buckets := buckets[key := Bucket(Full(rate), now)];
      }
      var b := buckets[key];
      assert rate.burst * 0 == 0;
      var tokens := b.tokens + rate.burst * (now - b.seen);
      if tokens > Full(rate) {
        tokens := Full(rate);
      }
      if tokens < rate.per {
        buckets := buckets[key := Bucket(tokens, now)];
        assert buckets == kept[key := Bucket(tokens, now)];
        return false;
      }
      buckets := buckets[key := Bucket(tokens - rate.per, now)];
      assert buckets == kept[key := Bucket(tokens - rate.per, now)];
      return true;
    }

    method Prune(now: int)
      modifies this
      ensures Value() == Pruned(old(Value()), now)
    {
      if lastPrune.Some? && now - lastPrune.value < PRUNE_EVERY {
        return;
      }
      lastPrune := Some(now);
      ghost var was := buckets;
      var todo := buckets.Keys;
      while todo != {}
        invariant todo <= was.Keys && lastPrune == Some(now)
        invariant buckets == map k | k in was && (k in todo || now - was[k].seen <= IDLE) :: was[k]
      {
        var k :| k in todo;
        if now - buckets[k].seen > IDLE {
          buckets := buckets - {k};
        }
        todo := todo - {k};
      }
    }
  }
}
