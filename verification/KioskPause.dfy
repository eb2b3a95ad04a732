/**
 * What a pause means to a live stream, in the state machine of KioskStream: when the cursor may still
 * move by itself, and what it is then.
 */
module KioskPause {
  import opened Prelude
  import opened Rotation
  import opened KioskStream

  /** The loop is past its Paused() check and may still move the cursor on its own. */
  predicate CommittedToMove(l: Loop) {
    l.AdvanceMove? || l.ChimeCompare? || l.ChimeMove?
  }

  /** The loop itself moves the cursor with this action. */
  predicate AutoMove(s: Stream, a: Action) {
    a.Proceed? && (s.loop.AdvanceMove? || s.loop.ChimeMove?)
  }

  function AutoMoves(s: Stream, run: seq<Action>): nat
    requires Legal(s, run)
    decreases |run|
  {
    if run == [] then 0
    else (if AutoMove(s, run[0]) then 1 else 0) + AutoMoves(Do(s, run[0]), run[1..])
  }

  const RESUME: Request := Step(CmdResume)

  /** The lock section of a phone's resume. */
  predicate Resumes(s: Stream, a: Action) {
    a.Mutate? && a.id in s.remotes && s.remotes[a.id] == Looked(RESUME)
  }

  predicate NoResumeTakesEffect(s: Stream, run: seq<Action>)
    requires Legal(s, run)
    decreases |run|
  {
    run == [] || (!Resumes(s, run[0]) && NoResumeTakesEffect(Do(s, run[0]), run[1..]))
  }

  lemma PausedProceed(s: Stream, o: Oracle)
    requires s.cursor.paused && Enabled(s, Proceed(o))
    ensures var t := Proceeded(s, o);
            && t.cursor.paused && (CommittedToMove(t.loop) ==> CommittedToMove(s.loop))
            && (s.loop.AdvanceMove? || s.loop.ChimeMove? ==> !CommittedToMove(t.loop))
  {
    LockSectionsKeepPaused(s.cursor, o.items, if s.loop.ChimeMove? then s.loop.target else 0);
    if Telling(s.loop) {
      ToldOnly(s, o);
      hide Told;
    } else {
      ActedCursor(s, o);
      hide Cursor.Repaired, Cursor.SetItems, Cursor.Next, Cursor.Goto, Cursor.Current;
    }
  }

  lemma LockSectionsKeepPaused(c: Cursor, items: seq<Item>, viewID: int)
    ensures c.Repaired().paused == c.SetItems(items).paused == c.Next().paused == c.Goto(viewID).paused == c.paused
  {
  }

  lemma PausedStep(s: Stream, a: Action)
    requires s.cursor.paused && Enabled(s, a) && !Resumes(s, a)
    ensures Do(s, a).cursor.paused
    ensures AutoMove(s, a) ==> CommittedToMove(s.loop) && !CommittedToMove(Do(s, a).loop)
    ensures CommittedToMove(Do(s, a).loop) ==> CommittedToMove(s.loop)
  {
    hide Proceeded;
    if a.Proceed? {
      PausedProceed(s, a.oracle);
    }
  }

  /**
   * From a pause taking effect until a resume takes effect, the loop moves the cursor on its own at
   * most once, and only when it was already past its check at that moment.
   */
  lemma {:induction false} PauseStopsRotation(s: Stream, run: seq<Action>)
    requires s.cursor.paused && Legal(s, run) && NoResumeTakesEffect(s, run)
    ensures After(s, run).cursor.paused
    ensures AutoMoves(s, run) <= if CommittedToMove(s.loop) then 1 else 0
    decreases |run|
  {
    if run != [] {
      PausedStep(s, run[0]);
      PauseStopsRotation(Do(s, run[0]), run[1..]);
    }
  }

  lemma {:induction false} FreshId(ids: set<nat>) returns (id: nat)
    ensures forall k :: k in ids ==> k < id
    decreases |ids|
  {
    if ids == {} {
      id := 0;
    } else {
      var k :| k in ids;
      var above := FreshId(ids - {k});
      id := if k < above then above else k + 1;
      assert forall j :: j in ids ==> j == k || j in ids - {k};
    }
  }

  /** A legal run on which no resume takes effect and the loop moves the cursor. */
  ghost predicate MovesOn(s: Stream, run: seq<Action>) {
    Legal(s, run) && NoResumeTakesEffect(s, run) && AutoMoves(s, run) > 0
  }

  lemma MovesOnFirst(s: Stream, a: Action)
    requires Enabled(s, a) && AutoMove(s, a)
    ensures MovesOn(s, [a])
  {
    assert [a][1..] == [];
  }

  lemma MovesOnLater(s: Stream, a: Action, run: seq<Action>)
    requires Enabled(s, a) && !Resumes(s, a) && MovesOn(Do(s, a), run)
    ensures MovesOn(s, [a] + run)
  {
    assert ([a] + run)[1..] == run;
  }

  /** Past its check, the loop can still move; before comparing views it may take a phone's jump to another one. */
  lemma CommittedLoopCanMove(s: Stream) returns (run: seq<Action>)
    requires CommittedToMove(s.loop)
    ensures MovesOn(s, run)
  {
    var go := Proceed(Oracle([], false, None));
    if !s.loop.ChimeCompare? {
      MovesOnFirst(s, go);
      return [go];
    }
    hide MovesOn;
    var id := FreshId(s.remotes.Keys);
    var other := if s.loop.target == 1 then 2 else 1;
    var issued := Do(s, Issue(id, Jump(other)));
    var jumped := Do(issued, Mutate(id));
    GotoShowsTheView(issued.cursor, other);
    var compared := Do(jumped, go);
    MovesOnFirst(compared, go);
    MovesOnLater(jumped, go, [go]);
    MovesOnLater(issued, Mutate(id), [go] + [go]);
    MovesOnLater(s, Issue(id, Jump(other)), [Mutate(id)] + ([go] + [go]));
    run := [Issue(id, Jump(other))] + ([Mutate(id)] + ([go] + [go]));
  }

  /**
   * A paused stream stays put on every legal run without a resume taking effect, whatever else
   * happens, exactly when its loop is not past a check of the paused flag.
   */
  lemma PausedNeverMovesIff(s: Stream)
    requires s.cursor.paused
    ensures (forall run :: !MovesOn(s, run)) <==> !CommittedToMove(s.loop)
  {
    if CommittedToMove(s.loop) {
      var run := CommittedLoopCanMove(s);
    } else {
      forall run ensures !MovesOn(s, run) {
        if Legal(s, run) && NoResumeTakesEffect(s, run) {
          PauseStopsRotation(s, run);
        }
      }
    }
  }

  /** Actions with which somebody else moves the cursor: a phone's lock section or a playlist edit. */
  predicate OutsideMove(s: Stream, a: Action) {
    a.Mutate? || (a.Proceed? && s.loop.RefreshItems?)
  }

  predicate NoOutsideMoves(s: Stream, run: seq<Action>)
    requires Legal(s, run)
    decreases |run|
  {
    run == [] || (!OutsideMove(s, run[0]) && NoOutsideMoves(Do(s, run[0]), run[1..]))
  }

  /** A paused stream whose loop is not past its check keeps showing what it shows. */
  lemma {:induction false} PausedCursorIsFrozen(s: Stream, run: seq<Action>)
    requires s.cursor.InRange() && s.cursor.paused && !CommittedToMove(s.loop)
    requires Legal(s, run) && NoOutsideMoves(s, run)
    ensures After(s, run).cursor == s.cursor
    decreases |run|
  {
    if run != [] {
      RepairedSame(s.cursor);
      PausedCursorIsFrozen(Do(s, run[0]), run[1..]);
    }
  }

  /** What phones and playlist edits alone make of a cursor. */
  function Outside(c: Cursor, s: Stream, a: Action): Cursor
    requires Enabled(s, a)
  {
    match a
    case Mutate(id) => Mutated(c, s.remotes[id].cmd)
    case PauseAfterJump(_) => c.SetPaused(true)
    case Proceed(o) => if s.loop.RefreshItems? then c.SetItems(o.items) else c
    case _ => c
  }

  function OutsideRun(c: Cursor, s: Stream, run: seq<Action>): Cursor
    requires Legal(s, run)
    decreases |run|
  {
    if run == [] then c else OutsideRun(Outside(c, s, run[0]), Do(s, run[0]), run[1..])
  }

  lemma PausedStepIsOutside(s: Stream, a: Action)
    requires s.cursor.InRange() && s.cursor.paused && !CommittedToMove(s.loop) && Enabled(s, a) && !Resumes(s, a)
    ensures Do(s, a).cursor == Outside(s.cursor, s, a) && Do(s, a).cursor.InRange()
  {
    RepairedSame(s.cursor);
    if a.Proceed? {
      ProceedKeepsRange(s, a.oracle);
    } else if a.Mutate? {
      var req := s.remotes[a.id].cmd;
      LockSectionsKeepRange(s.cursor, [], if req.Jump? then req.viewID else 0, true);
    }
  }

  /**
   * Until a resume takes effect, index and override of a paused stream follow phones and playlist
   * edits alone: every dwell expiry, chime and wake-up in between leaves them as they are.
   */
  lemma {:induction false} PausedCursorFollowsRequests(s: Stream, run: seq<Action>)
    requires s.cursor.InRange() && s.cursor.paused && !CommittedToMove(s.loop)
    requires Legal(s, run) && NoResumeTakesEffect(s, run)
    ensures After(s, run).cursor == OutsideRun(s.cursor, s, run)
    decreases |run|
  {
    if run != [] {
      PausedStepIsOutside(s, run[0]);
      PausedStep(s, run[0]);
      PausedCursorFollowsRequests(Do(s, run[0]), run[1..]);
    }
  }

  /**
   * The bound of one move is met: wherever the loop waits unpaused, a pause can take effect between
   * its check and its move, and the cursor then still advances.
   */
  lemma PauseCanBeOvertakenOnce(s: Stream, id: nat, o: Oracle)
    returns (s1: Stream, s2: Stream, s3: Stream, s4: Stream, s5: Stream)
    requires s.loop.Select? && !s.cursor.paused && id !in s.remotes
    ensures Takes(s, WakeAdvance, s1) && Takes(s1, Proceed(o), s2)
    ensures Takes(s2, Issue(id, Step(CmdPause)), s3) && Takes(s3, Mutate(id), s4) && Takes(s4, Proceed(o), s5)
    ensures s4.cursor == s.cursor.SetPaused(true) && s5.cursor == s4.cursor.Next()
  {
    s1 := Do(s, WakeAdvance);
    s2 := Do(s1, Proceed(o));
    s3 := Do(s2, Issue(id, Step(CmdPause)));
    s4 := Do(s3, Mutate(id));
    s5 := Do(s4, Proceed(o));
  }
}
