/** The items of a stream and their dwells (deviceItems in internal/server/server.go). */
module StreamItems {
  import opened Prelude
  import opened Rotation
  import opened KioskStream

  /** A row of the assigned playlist, with its own dwell in seconds (0: the playlist's). */
  datatype Row = Row(viewID: int, dwellSeconds: int)

  /** Seconds as a 64-bit Duration: too many of them wrap around. */
  function Seconds(secs: int): int {
    Wrap64(secs * SECOND)
  }

  function Dwell(own: int, default: int): int {
    var d := if Seconds(own) <= 0 then Seconds(default) else Seconds(own);
    if d < 3 * SECOND then 3 * SECOND else d
  }

  /** deviceItems, on the rows of the playlist in their order. */
  method DeviceItems(rows: seq<Row>, defaultSeconds: int) returns (out: seq<Item>)
    ensures |out| == |rows|
    ensures forall i :: 0 <= i < |rows| ==> out[i] == Item(rows[i].viewID, Dwell(rows[i].dwellSeconds, defaultSeconds))
  {
    out := [];
    for i := 0 to |rows|
      invariant |out| == i
      invariant forall k :: 0 <= k < i ==> out[k] == Item(rows[k].viewID, Dwell(rows[k].dwellSeconds, defaultSeconds))
    {
      var d := Wrap64(rows[i].dwellSeconds * SECOND);
      if d <= 0 {
        d := Wrap64(defaultSeconds * SECOND);
      }
      if d < 3 * SECOND {
        d := 3 * SECOND;
      }
      out := out + [Item(rows[i].viewID, d)];
    }
  }

  /**
   * A row's own dwell, or the playlist's where it has none, is kept but for the floor of three
   * seconds, exactly up to the longest Duration; the floor holds for any numbers.
   */
  lemma DwellIsAskedIff(own: int, default: int)
    requires own >= 0 && (own == 0 ==> default >= 0)
    ensures var asked := if own > 0 then own else default;
            Dwell(own, default) == Max(asked, 3) * SECOND <==> asked <= MAX_DURATION_SECS
    ensures Dwell(own, default) >= 3 * SECOND
  {
  }

  ghost predicate Floored(items: seq<Item>) {
    forall i :: 0 <= i < |items| ==> items[i].dwell >= 3 * SECOND
  }

  /** With the floor of three seconds, a countdown of 0 tells the kiosk exactly that it is paused. */
  lemma ZeroCountdownMeansPaused(c: Cursor)
    requires Floored(c.items)
    ensures Countdown(c) == 0 <==> c.paused
    ensures !c.paused ==> Countdown(c) >= 3
  {
    var it := c.Current();
    assert it.Some? && it.value.dwell > 0 ==> it.value.dwell >= 3 * SECOND;
  }
}
