/** What a playlist edit does to a live stream, in the state machine of KioskStream, and what it leaves undone. */
module KioskEdits {
  import opened Prelude
  import opened Rotation
  import opened KioskStream

  /**
   * A playlist edit alone wakes nobody. From any state at rest and for any edit, the kiosk is then
   * right about the view exactly when the edit left the view to show, and, with the same view or
   * another, right about the countdown exactly when it left the countdown. The advance timer fits
   * exactly when the edit left what it is to run for. Reading the same rows changes nothing.
   */
  lemma EditIsHarmlessIff(s: Stream, o: Oracle, o': Oracle) returns (s1: Stream, s2: Stream, s3: Stream)
    requires Inv(s) && AtRest(s)
    ensures Takes(s, WakeRefresh, s1) && Takes(s1, Proceed(o), s2) && Takes(s2, Proceed(o'), s3)
    ensures s3.loop.Select? && !WakeUpDue(s3) && s3.cursor == s.cursor.SetItems(o.items)
    ensures ScreenRight(s3) <==> ViewOf(s.cursor.SetItems(o.items)) == ViewOf(s.cursor)
    ensures s.cursor.Current().Some? && s3.cursor.Current().Some? ==>
              (CountdownRight(s3) <==> Countdown(s.cursor.SetItems(o.items)) == Countdown(s.cursor))
    ensures TimerRight(s3) <==> TimerFor(s.cursor.SetItems(o.items).Current(), s.kiosk.capped) == TimerFor(s.cursor.Current(), s.kiosk.capped)
    ensures o.items == s.cursor.items ==> s3.cursor == s.cursor
  {
    assert ScreenRight(s) && CountdownRight(s) && TimerRight(s);
    if o.items == s.cursor.items {
      SetItemsKeepsTheCursor(s.cursor, o.items);
    }
    s1 := Do(s, WakeRefresh);
    s2 := Do(s1, Proceed(o));
    s3 := Do(s2, Proceed(o'));
    assert s3.remotes == s.remotes && !WakeUpDue(s3);
  }

  /** An edit to another single view leaves the kiosk on the old one exactly when no goto override hides it. */
  lemma EditAloneLeavesTheScreenBehind(s: Stream, view: int, dwell: int, o: Oracle, o': Oracle)
    returns (s1: Stream, s2: Stream, s3: Stream)
    requires Inv(s) && AtRest(s) && s.kiosk.screen != Some(view) && o.items == [Item(view, dwell)]
    ensures Takes(s, WakeRefresh, s1) && Takes(s1, Proceed(o), s2) && Takes(s2, Proceed(o'), s3)
    ensures s3.loop.Select? && !WakeUpDue(s3)
    ensures !ScreenRight(s3) <==> s.cursor.override == 0
  {
    assert ScreenRight(s);
    s1, s2, s3 := EditIsHarmlessIff(s, o, o');
  }
}
