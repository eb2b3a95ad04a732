/** When the voice clock chimes, and how far ahead (internal/voiceclock/voiceclock.go). */
module VoiceClock {
  import opened Prelude
  import opened Text

  const HOUR: int := 3_600_000_000_000
  const QUARTER: int := 900_000_000_000
  const DAY_MINUTES: int := 1440

  /**
   * Instants are nanoseconds on a line; the zone adds a constant offset to get the wall clock,
   * whose day starts at the multiples of DAY.
   */
  function HourOf(local: int): (h: int)
    ensures 0 <= h < 24
  {
    local % DAY / HOUR
  }

  function MinuteOf(local: int): (m: int)
    ensures 0 <= m < 60
  {
    local % HOUR / MINUTE
  }

  function MinuteOfDay(local: int): (m: int)
    ensures 0 <= m < DAY_MINUTES
  {
    HourOf(local) * 60 + MinuteOf(local)
  }

  // ---------- the beats ----------

  predicate IsBoundary(offset: int, t: int) {
    (t + offset) % QUARTER == 0
  }

  /** Built from the wall clock's date, hour and minute, as the source does. */
  function NextBoundary(offset: int, now: int): int {
    var local := now + offset;
    var b := local / DAY * DAY + HourOf(local) * HOUR + MinuteOf(local) / 15 * 15 * MINUTE - offset;
    if b > now then b else b + QUARTER
  }

  lemma QuarterOfDay(local: int)
    ensures local / DAY * DAY + HourOf(local) * HOUR + MinuteOf(local) / 15 * 15 * MINUTE == local / QUARTER * QUARTER
  {
    var day, inDay := local / DAY, local % DAY;
    var h, inHour := inDay / HOUR, inDay % HOUR;
    var q, rest := inHour / MINUTE / 15, inHour - inHour / MINUTE / 15 * 15 * MINUTE;
    DivModUnique(local, HOUR, day * 24 + h, inHour);
    DivModUnique(local, QUARTER, day * 96 + h * 4 + q, rest);
  }

  lemma NextBoundaryIsLeast(offset: int, now: int, t: int)
    ensures var b := NextBoundary(offset, now);
            && now < b <= now + QUARTER && IsBoundary(offset, b)
            && (now < t < b ==> !IsBoundary(offset, t))
  {
    var local, b := now + offset, NextBoundary(offset, now);
    QuarterOfDay(local);
    var k := local / QUARTER;
    assert b == (k + 1) * QUARTER - offset;
    hide NextBoundary;
    DivModUnique(b + offset, QUARTER, k + 1, 0);
    if now < t < b {
      DivModUnique(t + offset, QUARTER, k, t + offset - k * QUARTER);
    }
  }

  /** The n-th beat the stream loop aims at after connecting. */
  function Beat(offset: int, connected: int, n: nat): int {
    if n == 0 then NextBoundary(offset, connected) else NextBoundary(offset, Beat(offset, connected, n - 1))
  }

  lemma BeatNext(offset: int, connected: int, n: nat)
    ensures Beat(offset, connected, n) ==
            NextBoundary(offset, if n == 0 then connected else Beat(offset, connected, n - 1))
  {
  }

  lemma BoundaryAfterBoundary(offset: int, b: int)
    requires IsBoundary(offset, b)
    ensures NextBoundary(offset, b) == b + QUARTER
  {
    QuarterOfDay(b + offset);
  }

  lemma {:induction false} BeatsAreQuartersApart(offset: int, connected: int, n: nat)
    ensures Beat(offset, connected, n) == Beat(offset, connected, 0) + n * QUARTER
    ensures IsBoundary(offset, Beat(offset, connected, n))
  {
    NextBoundaryIsLeast(offset, connected, connected);
    if n > 0 {
      var before := Beat(offset, connected, n - 1);
      BeatsAreQuartersApart(offset, connected, n - 1);
      NextBoundaryIsLeast(offset, before, before);
      BoundaryAfterBoundary(offset, before);
    }
  }

  lemma QuartersBetween(offset: int, b: int, t: int)
    requires IsBoundary(offset, b) && IsBoundary(offset, t) && b <= t
    ensures t == b + (t - b) / QUARTER * QUARTER
  {
    var p, q := (b + offset) / QUARTER, (t + offset) / QUARTER;
    DivModUnique(t - b, QUARTER, q - p, 0);
  }

  /** Exactly the quarter-hours after the connection, each once and in order. */
  lemma BeatsAreTheQuarterHours(offset: int, connected: int, n: nat, t: int)
    ensures Beat(offset, connected, n) == Beat(offset, connected, 0) + n * QUARTER
    ensures connected < t <= Beat(offset, connected, n) && IsBoundary(offset, t) <==>
            exists k :: 0 <= k <= n && t == Beat(offset, connected, k)
  {
    var first := Beat(offset, connected, 0);
    NextBoundaryIsLeast(offset, connected, t);
    BeatsAreQuartersApart(offset, connected, n);
    hide NextBoundary, IsBoundary;
    if connected < t <= Beat(offset, connected, n) && IsBoundary(offset, t) {
      BeatsAreQuartersApart(offset, connected, 0);
      QuartersBetween(offset, first, t);
      BeatsAreQuartersApart(offset, connected, (t - first) / QUARTER);
    }
    forall k | 0 <= k <= n
      ensures connected < Beat(offset, connected, k) <= Beat(offset, connected, n)
              && IsBoundary(offset, Beat(offset, connected, k))
    {
      BeatsAreQuartersApart(offset, connected, k);
    }
  }

  // ---------- what to chime ----------

  const NONE: string := "none"
  const BONG: string := "bong"
  const BING_BONG: string := "bingbong"
  const TIME_SIGNAL: string := "timesignal"
  const SOUNDS: seq<string> := [NONE, "bing", BONG, BING_BONG, "gong", "pips", TIME_SIGNAL, "westminster"]

  function ValidSound(s: string, default: string): string {
    if s in SOUNDS then s else default
  }

  type Minute = m: int | 0 <= m < DAY_MINUTES

  /** A quiet bound is None where it does not parse as a time. */
  datatype Config = Config(enabled: bool, quietStart: Option<Minute>, quietEnd: Option<Minute>,
                           quarterSound: string, halfSound: string, hourSound: string,
                           announce: bool, attention: bool, announceRate: string)
  {
    function SoundForQuarter(q: int): string {
      if q == 0 then ValidSound(hourSound, TIME_SIGNAL)
      else if q == 2 then ValidSound(halfSound, BONG)
      else ValidSound(quarterSound, BING_BONG)
    }

    predicate InQuiet(local: int) {
      && quietStart.Some? && quietEnd.Some? && quietStart != quietEnd
      && var cur := MinuteOfDay(local);
      if quietStart.value < quietEnd.value then quietStart.value <= cur < quietEnd.value
      else cur >= quietStart.value || cur < quietEnd.value
    }
  }

  datatype Chime = Chime(sound: string, quarter: int, hour: int, announce: bool, text: string,
                         attention: bool, rate: real)

  const HOURS: seq<string> := ["twaalf", "\U{E9}\U{E9}n", "twee", "drie", "vier", "vijf",
                               "zes", "zeven", "acht", "negen", "tien", "elf"]

  function DutchHour(h: int): string {
    HOURS[h % 12] + " uur"
  }

  function RateValue(name: string): real {
    if name == "fast" then 1.0 else if name == "normal" then 0.85 else 0.7
  }

  function Decide(cfg: Config, local: int): Option<Chime> {
    if !cfg.enabled || cfg.InQuiet(local) then None
    else
      var q := MinuteOf(local) / 15 % 4;
      var sound := cfg.SoundForQuarter(q);
      if q != 0 then
        if sound == NONE then None else Some(Chime(sound, q, HourOf(local), false, "", false, 0.0))
      else if sound == NONE && !cfg.announce then None
      else if cfg.announce then
        Some(Chime(sound, 0, HourOf(local), true, DutchHour(HourOf(local)), cfg.attention, RateValue(cfg.announceRate)))
      else Some(Chime(sound, 0, HourOf(local), false, "", false, 0.0))
  }

  function Lead(ch: Chime): (lead: int)
    ensures lead >= 0
  {
    if ch.sound != TIME_SIGNAL then 0
    else if !ch.announce then 2 * SECOND
    else
      var rate := if ch.rate <= 0.0 then 0.85 else ch.rate;
      var words := 8 + |Fields(ch.text, IsSpace)|;
      var speech := words as real * 0.6 / rate;
      2 * SECOND + (if ch.attention then 3 * SECOND else 0) + (speech * SECOND as real).Floor
  }

  lemma HourIsAWord(k: nat)
    requires k < 12
    ensures Word(HOURS[k], IsSpace)
  {
    forall c | c in HOURS[k] ensures !IsSpace(c) {
      assert 'a' <= c <= 'z' || c == '\U{E9}';
    }
  }

  lemma DutchHourIsTwoWords(h: int)
    ensures Fields(DutchHour(h), IsSpace) == [HOURS[h % 12], "uur"]
  {
    hide Fields, WordLength;
    var w := HOURS[h % 12];
    HourIsAWord(h % 12);
    FieldsConcat(w, "uur", IsSpace);
    FieldsOfWord(w, "", IsSpace);
    FieldsOfWord("uur", "", IsSpace);
    FieldsFromSpace("", IsSpace);
    assert w + "" == w && "uur" + "" == "uur";
    assert w + [' '] + "uur" == DutchHour(h);
  }

  /** The spoken hours of a day, noon and midnight being twelve. */
  lemma DutchHourIs(h: int)
    requires 0 <= h < 24
    ensures h == 0 || h == 12 ==> DutchHour(h) == "twaalf uur"
    ensures h == 1 || h == 13 ==> DutchHour(h) == "\U{E9}\U{E9}n uur"
    ensures h == 2 || h == 14 ==> DutchHour(h) == "twee uur"
    ensures h == 3 || h == 15 ==> DutchHour(h) == "drie uur"
    ensures h == 4 || h == 16 ==> DutchHour(h) == "vier uur"
    ensures h == 5 || h == 17 ==> DutchHour(h) == "vijf uur"
    ensures h == 6 || h == 18 ==> DutchHour(h) == "zes uur"
    ensures h == 7 || h == 19 ==> DutchHour(h) == "zeven uur"
    ensures h == 8 || h == 20 ==> DutchHour(h) == "acht uur"
    ensures h == 9 || h == 21 ==> DutchHour(h) == "negen uur"
    ensures h == 10 || h == 22 ==> DutchHour(h) == "tien uur"
    ensures h == 11 || h == 23 ==> DutchHour(h) == "elf uur"
  {
  }

  /** The sound of each beat of the hour: the configured one if it is known, else the beat's own default. */
  lemma SoundIs(cfg: Config)
    ensures var known := ["none", "bing", "bong", "bingbong", "gong", "pips", "timesignal", "westminster"];
            && cfg.SoundForQuarter(0) == (if cfg.hourSound in known then cfg.hourSound else "timesignal")
            && cfg.SoundForQuarter(1) == (if cfg.quarterSound in known then cfg.quarterSound else "bingbong")
            && cfg.SoundForQuarter(2) == (if cfg.halfSound in known then cfg.halfSound else "bong")
            && cfg.SoundForQuarter(3) == (if cfg.quarterSound in known then cfg.quarterSound else "bingbong")
  {
  }

  /** However it is configured, a chime is sent less than 14 seconds ahead of its beat. */
  lemma LeadIsUnder14Seconds(cfg: Config, local: int)
    ensures Decide(cfg, local).Some? ==> 0 <= Lead(Decide(cfg, local).value) < 14 * SECOND
  {
    hide Fields;
    DutchHourIsTwoWords(HourOf(local));
  }

  /** A beat is silent exactly when disabled, quiet or unconfigured; its chime tells its own time of day. */
  lemma ChimeTellsItsBeat(cfg: Config, offset: int, beat: int)
    requires IsBoundary(offset, beat)
    ensures var local := beat + offset;
            var onTheHour := MinuteOf(local) == 0;
            Decide(cfg, local).None? <==>
            || !cfg.enabled || cfg.InQuiet(local)
            || (cfg.SoundForQuarter(MinuteOf(local) / 15) == NONE && !(onTheHour && cfg.announce))
    ensures Decide(cfg, beat + offset).Some? ==>
              var ch := Decide(cfg, beat + offset).value;
              && MinuteOfDay(beat + offset) == ch.hour * 60 + ch.quarter * 15
              && ch.sound == cfg.SoundForQuarter(ch.quarter)
              && (ch.announce <==> ch.quarter == 0 && cfg.announce)
              && (ch.announce ==> ch.text == DutchHour(ch.hour) && ch.attention == cfg.attention
                                  && ch.rate == RateValue(cfg.announceRate))
              && (!ch.announce ==> ch.text == "" && !ch.attention && ch.rate == 0.0)
  {
    hide DutchHour, HourOf, MinuteOf;
    BoundaryMinute(beat + offset);
  }

  lemma BoundaryMinute(local: int)
    requires local % QUARTER == 0
    ensures MinuteOf(local) % 15 == 0
  {
    var inHour := local % HOUR;
    DivModUnique(local, QUARTER, local / HOUR * 4 + inHour / QUARTER, inHour % QUARTER);
    DivModUnique(inHour, MINUTE, inHour / QUARTER * 15, 0);
  }

  // ---------- the loop's timer ----------

  function LeadOf(cfg: Config, local: int): int {
    var ch := Decide(cfg, local);
    if ch.Some? then Lead(ch.value) else 0
  }

  /**
   * The lead of every beat: none when it is silent or without the time signal, two seconds with it, and for an
   * announcement the time to speak ten words at the configured rate, plus three seconds for attention.
   */
  lemma LeadIs(cfg: Config, local: int)
    ensures var ch := Decide(cfg, local);
            LeadOf(cfg, local) ==
              if ch.None? || ch.value.sound != "timesignal" then 0
              else if !ch.value.announce then 2_000_000_000
              else (if cfg.attention then 5_000_000_000 else 2_000_000_000)
                   + if cfg.announceRate == "fast" then 6_000_000_000
                     else if cfg.announceRate == "normal" then 7_058_823_529 else 8_571_428_571
  {
    hide Fields;
    DutchHourIsTwoWords(HourOf(local));
  }

  function ChimeDelay(cfg: Config, offset: int, now: int, beat: int): int {
    var d := beat - now - LeadOf(cfg, beat + offset);
    if d < 0 then 0 else d
  }

  /** The beat aimed at and when the pending timer fires. */
  datatype Pending = Pending(beat: int, deadline: int)

  /**
   * One passage through the chime branch: it decides at one moment and plans the next beat at a
   * later one, and the settings are loaded anew each time.
   */
  datatype Firing = Firing(at: int, decided: Config, planAt: int, planned: Config)

  function Connect(cfg: Config, offset: int, now: int, now': int): Pending {
    var beat := NextBoundary(offset, now);
    Pending(beat, now' + ChimeDelay(cfg, offset, now', beat))
  }

  function Rearm(p: Pending, f: Firing, offset: int): Pending {
    var beat := NextBoundary(offset, p.beat);
    Pending(beat, f.planAt + ChimeDelay(f.planned, offset, f.planAt, beat))
  }

  function Pendings(p: Pending, firings: seq<Firing>, offset: int): Pending
    decreases |firings|
  {
    if firings == [] then p
    else Rearm(Pendings(p, firings[..|firings| - 1], offset), firings[|firings| - 1], offset)
  }

  /**
   * After n firings, at whatever times and under whatever settings, the n-th quarter-hour is pending.
   * Its timer fires by the lead ahead of it, so less than 14 s, or at once if planned later than that.
   */
  lemma {:induction false} EveryBeatIsDueOnce(cfg: Config, offset: int, now: int, now': int, firings: seq<Firing>)
    requires now <= now'
    ensures var p := Pendings(Connect(cfg, offset, now, now'), firings, offset);
            && p.beat == Beat(offset, now, |firings|)
            && p.deadline > p.beat - 14 * SECOND
            && (if firings == [] then p.deadline == Max(now', p.beat - LeadOf(cfg, p.beat + offset))
                else
                  var f := firings[|firings| - 1];
                  p.deadline == Max(f.planAt, p.beat - LeadOf(f.planned, p.beat + offset)))
    decreases |firings|
  {
    hide Decide, Lead, NextBoundary, Beat;
    BeatNext(offset, now, |firings|);
    if firings == [] {
      LeadIsUnder14Seconds(cfg, NextBoundary(offset, now) + offset);
    } else {
      var last := |firings| - 1;
      EveryBeatIsDueOnce(cfg, offset, now, now', firings[..last]);
      LeadIsUnder14Seconds(firings[last].planned, Beat(offset, now, |firings|) + offset);
    }
  }

  /** No timer fires ahead of its deadline, and planning comes after deciding. */
  ghost predicate Timely(p: Pending, firings: seq<Firing>, offset: int) {
    forall n :: 0 <= n < |firings| ==>
      Pendings(p, firings[..n], offset).deadline <= firings[n].at <= firings[n].planAt
  }

  /** The n-th chime that goes out, if any. */
  function Sent(p: Pending, firings: seq<Firing>, offset: int, n: nat): Option<Chime>
    requires n < |firings|
  {
    Decide(firings[n].decided, Pendings(p, firings[..n], offset).beat + offset)
  }

  /** In every run the n-th firing is for the n-th quarter-hour after connecting, and with true timers less than 14 s ahead of it. */
  lemma ChimeIsNeverEarly(cfg: Config, offset: int, now: int, now': int, firings: seq<Firing>, n: nat)
    requires now <= now' && n < |firings|
    ensures Timely(Connect(cfg, offset, now, now'), firings, offset) ==> firings[n].at > Beat(offset, now, n) - 14 * SECOND
    ensures Sent(Connect(cfg, offset, now, now'), firings, offset, n) == Decide(firings[n].decided, Beat(offset, now, n) + offset)
  {
    hide Decide, Beat, Connect, Pendings;
    EveryBeatIsDueOnce(cfg, offset, now, now', firings[..n]);
    assert |firings[..n]| == n;
  }

  /** Later beats have later deadlines, even if the settings changed in between. */
  lemma DeadlinesIncrease(cfg: Config, cfg': Config, offset: int, b: int)
    requires IsBoundary(offset, b)
    ensures b - LeadOf(cfg, b + offset) < NextBoundary(offset, b) - LeadOf(cfg', NextBoundary(offset, b) + offset)
  {
    hide Decide, Lead;
    BoundaryAfterBoundary(offset, b);
    LeadIsUnder14Seconds(cfg', b + QUARTER + offset);
  }

  // ---------- quiet hours ----------

  /** Quiet lasts from the start until the end comes round, over midnight or not. */
  lemma QuietIsTheSpan(cfg: Config, local: int)
    requires cfg.quietStart.Some? && cfg.quietEnd.Some?
    ensures cfg.InQuiet(local) <==>
            (MinuteOfDay(local) - cfg.quietStart.value) % DAY_MINUTES
            < (cfg.quietEnd.value - cfg.quietStart.value) % DAY_MINUTES
  {
    var c, s, e := MinuteOfDay(local), cfg.quietStart.value, cfg.quietEnd.value;
    assert (c - s) % DAY_MINUTES == if c >= s then c - s else c - s + DAY_MINUTES;
    assert (e - s) % DAY_MINUTES == if e >= s then e - s else e - s + DAY_MINUTES;
  }

  /** The quiet ones among the first n minutes of a day. */
  function QuietMinutes(cfg: Config, midnight: int, n: nat): nat {
    if n == 0 then 0
    else QuietMinutes(cfg, midnight, n - 1) + if cfg.InQuiet(midnight + (n - 1) * MINUTE) then 1 else 0
  }

  lemma MinuteOfDayAt(midnight: int, m: int)
    requires midnight % DAY == 0 && 0 <= m < DAY_MINUTES
    ensures MinuteOfDay(midnight + m * MINUTE) == m
  {
    var local, day, h, mi := midnight + m * MINUTE, midnight / DAY, m / 60, m % 60;
    DivModUnique(local, DAY, day, m * MINUTE);
    DivModUnique(m * MINUTE, HOUR, h, mi * MINUTE);
    DivModUnique(local, HOUR, day * 24 + h, mi * MINUTE);
    DivModUnique(mi * MINUTE, MINUTE, mi, 0);
  }

  lemma {:induction false} QuietMinutesUpTo(cfg: Config, midnight: int, n: nat)
    requires cfg.quietStart.Some? && cfg.quietEnd.Some?
    requires midnight % DAY == 0 && n <= DAY_MINUTES
    ensures var s, e := cfg.quietStart.value, cfg.quietEnd.value;
            QuietMinutes(cfg, midnight, n) == Min(n, e) - Min(n, s) + if s <= e then 0 else n
  {
    if n > 0 {
      QuietMinutesUpTo(cfg, midnight, n - 1);
      MinuteOfDayAt(midnight, n - 1);
      hide MinuteOfDay;
    }
  }

  /** Equal bounds mean never quiet, not always. */
  lemma QuietMinutesOfADay(cfg: Config, midnight: int)
    requires cfg.quietStart.Some? && cfg.quietEnd.Some? && midnight % DAY == 0
    ensures QuietMinutes(cfg, midnight, DAY_MINUTES) == (cfg.quietEnd.value - cfg.quietStart.value) % DAY_MINUTES
  {
    hide QuietMinutes;
    QuietMinutesUpTo(cfg, midnight, DAY_MINUTES);
  }
}
