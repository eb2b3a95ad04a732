/**
 * The live stream of one kiosk (handleKioskStream in internal/server/server.go) racing against the
 * phones that command it (Manager.Command and Manager.Goto in internal/rotation/rotation.go).
 *
 * One action is one lock section, one channel operation or one event sent to the kiosk; a run is any
 * interleaving of them. Timers are not timed: any of them may fire whenever the loop waits.
 */
module KioskStream {
  import opened Prelude
  import opened Rotation

  /** The configured dwell, or 30 s when there is none: what the kiosk's progress bar shows. */
  function DisplayDwell(it: Option<Item>): int {
    if it.Some? && it.value.dwell > 0 then it.value.dwell else 30 * SECOND
  }

  function DisplaySecs(it: Option<Item>): int {
    DisplayDwell(it) / SECOND
  }

  /** The countdown that belongs to a cursor: 0 stands for paused. */
  function Countdown(c: Cursor): int {
    if c.paused then 0 else DisplaySecs(c.Current())
  }

  /** Where a phone request stands inside Manager.Command or Manager.Goto. */
  datatype Remote =
    | Looked(cmd: Request)  // found the stream, has not touched its state
    | Jumped                // Goto moved the cursor, the pause is still to come
    | Changed               // the state is as the request wants it, the signal is still to come

  datatype Request = Step(cmd: Command) | Jump(viewID: int)

  /** Where the stream loop stands. */
  datatype Loop =
    | Select
    | Read                              // sendCurrent: about to read the current item
    | Navigate(item: Option<Item>)      //   about to send it
    | ReadPaused                        //   about to read the paused flag
    | ReadDwell                         //   about to read the item for its countdown
    | SendDwell(secs: int)              //   about to send the countdown
    | ArmFirst                          // dwell(): about to read the item for the advance timer
    | ArmSecond                         //   about to read it again for its dwell
    | Forward(cmd: string)              // command branch: received one, about to send it
    | RefreshItems | RefreshTick        // refresh branch
    | AdvanceCheck | AdvanceMove        // advance branch, before and after its Paused() check
    | ChimeCheck                        // chime branch, before its Paused() check
    | ChimeCompare(target: int)         //   past the check, about to compare with the current view
    | ChimeMove(target: int)            //   about to jump
    | Closed

  /**
   * screen and countdown are what the kiosk was last told (screen None: that nothing is to show);
   * armed is what the advance timer was last set to, and capped whether that was the cap because the
   * item was found to advance on its own end.
   */
  datatype Kiosk = Kiosk(screen: Option<int>, countdown: int, armed: int, capped: bool)

  /** The UI commands accepted from phones, those sent to the kiosk, and the one in hand when the stream closed. */
  datatype Log = Log(accepted: seq<string>, forwarded: seq<string>, lost: seq<string>)

  /** edited and log are history: edited says that SetItems changed the item to show since the loop last read it. */
  datatype Stream = Stream(
    cursor: Cursor, notify: bool, cmds: seq<string>, remotes: map<nat, Remote>, loop: Loop,
    kiosk: Kiosk, edited: bool, log: Log)

  function Opened(items: seq<Item>): Stream {
    Stream(NewCursor(items), false, [], map[], Read, Kiosk(None, 0, 0, false), false, Log([], [], []))
  }

  /** What the database and the voice clock answer when the loop asks. */
  datatype Oracle = Oracle(items: seq<Item>, onEnd: bool, announce: Option<int>)

  datatype Action =
    | Issue(id: nat, req: Request)  // a phone request finds the stream
    | Mutate(id: nat)               // its (first) lock section
    | PauseAfterJump(id: nat)       // the second lock section of Goto
    | Signal(id: nat)
    | SendCmd(cmd: string)          // Manager.SendClientCmd
    | WakeNotify | WakeCmd | WakeRefresh | WakeAdvance | WakeChime
    | Proceed(oracle: Oracle)       // the loop's next step inside a branch
    | HangUp                        // the client is gone, or a send failed

  predicate Enabled(s: Stream, a: Action) {
    match a
    case Issue(id, req) => id !in s.remotes && req != Step(CmdUnknown)
    case Mutate(id) => id in s.remotes && s.remotes[id].Looked?
    case PauseAfterJump(id) => id in s.remotes && s.remotes[id].Jumped?
    case Signal(id) => id in s.remotes && s.remotes[id].Changed?
    case SendCmd(_) => |s.cmds| < CMD_BUFFER
    case WakeNotify => s.loop.Select? && s.notify
    case WakeCmd => s.loop.Select? && s.cmds != []
    case WakeRefresh => s.loop.Select?
    case WakeAdvance => s.loop.Select?
    case WakeChime => s.loop.Select?
    case Proceed(_) => !s.loop.Select? && !s.loop.Closed?
    case HangUp => !s.loop.Closed?
  }

  function Mutated(c: Cursor, req: Request): Cursor {
    match req
    case Step(cmd) => Commanded(c, cmd)
    case Jump(v) => c.Goto(v)
  }

  predicate Sending(l: Loop) {
    l.Navigate? || l.ReadPaused? || l.ReadDwell? || l.SendDwell? || l.ArmFirst? || l.ArmSecond?
  }

  /** Inside sendCurrent and the re-arming of the advance timer. */
  predicate Telling(l: Loop) {
    l.Read? || Sending(l)
  }

  function Told(s: Stream, o: Oracle): Stream
    requires Telling(s.loop)
  {
    var cur := s.cursor.Current();
    var read := s.(cursor := s.cursor.Repaired());
    match s.loop
    case Read => read.(loop := Navigate(cur), edited := false)
    case Navigate(item) =>
      if item.None? then s.(kiosk := s.kiosk.(screen := None), loop := ArmFirst)
      else s.(kiosk := s.kiosk.(screen := Some(item.value.viewID)), loop := ReadPaused)
    case ReadPaused => s.(loop := if s.cursor.paused then SendDwell(0) else ReadDwell)
    case ReadDwell => read.(loop := SendDwell(DisplaySecs(cur)))
    case SendDwell(secs) => s.(kiosk := s.kiosk.(countdown := secs), loop := ArmFirst)
    case ArmFirst =>
      if cur.None? then read.(kiosk := s.kiosk.(armed := 30 * SECOND, capped := false), loop := Select)
      else if o.onEnd then read.(kiosk := s.kiosk.(armed := 30 * MINUTE, capped := true), loop := Select)
      else read.(kiosk := s.kiosk.(capped := false), loop := ArmSecond)
    case ArmSecond => read.(kiosk := s.kiosk.(armed := DisplayDwell(cur)), loop := Select)
  }

  /** The steps of the other branches. */
  function Acted(s: Stream, o: Oracle): Stream
    requires !Telling(s.loop) && !s.loop.Select? && !s.loop.Closed?
  {
    var cur := s.cursor.Current();
    var read := s.(cursor := s.cursor.Repaired());
    match s.loop
    case Forward(cmd) => s.(log := s.log.(forwarded := s.log.forwarded + [cmd]), loop := Select)
    case RefreshItems =>
      var c := s.cursor.SetItems(o.items);
      s.(cursor := c, edited := s.edited || c.Current() != cur, loop := RefreshTick)
    case RefreshTick => s.(loop := Select)
    case AdvanceCheck => s.(loop := if s.cursor.paused then Read else AdvanceMove)
    case AdvanceMove => s.(cursor := s.cursor.Next(), loop := Read)
    case ChimeCheck =>
      if s.cursor.paused || o.announce.None? then s.(loop := Select)
      else s.(loop := ChimeCompare(o.announce.value))
    case ChimeCompare(target) =>
      if cur.Some? && cur.value.viewID == target then read.(loop := Select)
      else read.(loop := ChimeMove(target))
    case ChimeMove(target) => s.(cursor := s.cursor.Goto(target), loop := Read)
  }

  function Proceeded(s: Stream, o: Oracle): Stream
    requires Enabled(s, Proceed(o))
  {
    if Telling(s.loop) then Told(s, o) else Acted(s, o)
  }

  /** The command that was received and is not sent: at most one, and for good once the stream has closed. */
  function InHand(s: Stream): seq<string> {
    if s.loop.Forward? then [s.loop.cmd] else s.log.lost
  }

  function Do(s: Stream, a: Action): Stream
    requires Enabled(s, a)
  {
    match a
    case Issue(id, req) => s.(remotes := s.remotes[id := Looked(req)])
    case Mutate(id) =>
      var req := s.remotes[id].cmd;
      s.(cursor := Mutated(s.cursor, req), remotes := s.remotes[id := if req.Jump? then Jumped else Changed])
    case PauseAfterJump(id) => s.(cursor := s.cursor.SetPaused(true), remotes := s.remotes[id := Changed])
    case Signal(id) => s.(notify := true, remotes := s.remotes - {id})
    case SendCmd(cmd) => s.(cmds := s.cmds + [cmd], log := s.log.(accepted := s.log.accepted + [cmd]))
    case WakeNotify => s.(notify := false, loop := Read)
    case WakeCmd => s.(cmds := s.cmds[1..], loop := Forward(s.cmds[0]))
    case WakeRefresh => s.(loop := RefreshItems)
    case WakeAdvance => s.(loop := AdvanceCheck)
    case WakeChime => s.(loop := ChimeCheck)
    case Proceed(o) => Proceeded(s, o)
    case HangUp => s.(log := s.log.(lost := InHand(s)), loop := Closed)
  }

  predicate Legal(s: Stream, run: seq<Action>)
    decreases |run|
  {
    run == [] || (Enabled(s, run[0]) && Legal(Do(s, run[0]), run[1..]))
  }

  function After(s: Stream, run: seq<Action>): Stream
    requires Legal(s, run)
    decreases |run|
  {
    if run == [] then s else After(Do(s, run[0]), run[1..])
  }

  /** The view that belongs to a cursor, None for nothing to show. */
  function ViewOf(c: Cursor): Option<int> {
    if c.Current().None? then None else Some(c.Current().value.viewID)
  }

  predicate Takes(s: Stream, a: Action, t: Stream) {
    Enabled(s, a) && t == Do(s, a)
  }

  // ---------- what the kiosk was told agrees with the state ----------

  ghost predicate ScreenRight(s: Stream) {
    s.kiosk.screen == match s.cursor.Current() case None => None case Some(it) => Some(it.viewID)
  }

  ghost predicate CountdownRight(s: Stream) {
    s.cursor.Current().Some? ==> s.kiosk.countdown == Countdown(s.cursor)
  }

  /** What the advance timer is set to: the item's dwell, or the 30-minute cap of an on_end view. */
  function TimerFor(it: Option<Item>, onEnd: bool): int {
    if it.Some? && onEnd then 30 * MINUTE else DisplayDwell(it)
  }

  ghost predicate TimerRight(s: Stream) {
    s.kiosk.armed == TimerFor(s.cursor.Current(), s.kiosk.capped)
  }

  ghost predicate KioskAgrees(s: Stream) {
    ScreenRight(s) && CountdownRight(s) && TimerRight(s)
  }

  /** A phone request changed the state and its wake-up is not consumed yet. */
  ghost predicate WakeUpDue(s: Stream) {
    s.notify || exists id :: id in s.remotes && !s.remotes[id].Looked?
  }

  /** The loop waits, no wake-up is due, and no playlist edit changed the item since it was sent. */
  ghost predicate AtRest(s: Stream) {
    s.loop.Select? && !WakeUpDue(s) && !s.edited
  }

  /** What holds at each point of the loop as long as no wake-up is due. */
  ghost predicate LoopKnows(s: Stream) {
    match s.loop
    case Read => true
    case Navigate(item) => item == s.cursor.Current()
    case ReadPaused => ScreenRight(s) && s.cursor.Current().Some?
    case ReadDwell => ScreenRight(s) && s.cursor.Current().Some? && !s.cursor.paused
    case SendDwell(secs) => ScreenRight(s) && s.cursor.Current().Some? && secs == Countdown(s.cursor)
    case ArmFirst => ScreenRight(s) && CountdownRight(s)
    case ArmSecond => ScreenRight(s) && CountdownRight(s) && !s.kiosk.capped
    case Closed => true
    case _ => s.edited || KioskAgrees(s)
  }

  ghost predicate Inv(s: Stream) {
    && s.cursor.InRange()
    && (Sending(s.loop) ==> !s.edited)
    && (!WakeUpDue(s) ==> LoopKnows(s))
    && |s.cmds| <= CMD_BUFFER
    && (!s.loop.Closed? ==> s.log.lost == []) && |s.log.lost| <= 1
    && s.log.forwarded + InHand(s) + s.cmds == s.log.accepted
  }

  // ---------- what every step keeps ----------

  function StepsLeft(l: Loop): nat {
    match l
    case Select => 0 case Closed => 0
    case ArmSecond => 1 case ArmFirst => 2 case SendDwell(_) => 3 case ReadDwell => 4
    case ReadPaused => 5 case Navigate(_) => 6 case Read => 7
    case Forward(_) => 1 case RefreshTick => 1 case RefreshItems => 2
    case AdvanceMove => 8 case AdvanceCheck => 9
    case ChimeMove(_) => 8 case ChimeCompare(_) => 9 case ChimeCheck => 10
  }

  /** Neither phones' requests nor the buffer are touched, and the loop comes closer to its select. */
  predicate LoopOnly(s: Stream, t: Stream) {
    && t.notify == s.notify && t.remotes == s.remotes && t.cmds == s.cmds
    && t.log.accepted == s.log.accepted && t.log.lost == s.log.lost
    && !t.loop.Closed? && StepsLeft(t.loop) < StepsLeft(s.loop)
  }

  lemma StepKeepsInv(s: Stream, a: Action)
    requires Inv(s) && Enabled(s, a)
    ensures Inv(Do(s, a))
  {
    match a {
      case Issue(_, _) => RemoteKeepsInv(s, a);
      case Mutate(_) => RemoteKeepsInv(s, a);
      case PauseAfterJump(_) => RemoteKeepsInv(s, a);
      case Signal(_) => RemoteKeepsInv(s, a);
      case Proceed(o) => ProceedKeepsInv(s, o);
      case SendCmd(cmd) =>
        assert s.log.forwarded + InHand(s) + (s.cmds + [cmd]) == (s.log.forwarded + InHand(s) + s.cmds) + [cmd];
      case WakeCmd =>
        assert s.log.forwarded + [s.cmds[0]] + s.cmds[1..] == s.log.forwarded + InHand(s) + s.cmds;
      case _ =>
    }
  }

  lemma {:induction false} RunKeepsInv(s: Stream, run: seq<Action>)
    requires Inv(s) && Legal(s, run)
    ensures Inv(After(s, run))
    decreases |run|
  {
    if run != [] {
      StepKeepsInv(s, run[0]);
      RunKeepsInv(Do(s, run[0]), run[1..]);
    }
  }

  /**
   * No wake-up is ever lost: in every interleaving, whenever the stream is at rest the kiosk has been
   * told the current view and the current countdown, and the advance timer runs for that item.
   */
  lemma NoLostWakeUp(items: seq<Item>, run: seq<Action>)
    requires Legal(Opened(items), run)
    ensures var s := After(Opened(items), run); AtRest(s) ==> KioskAgrees(s)
  {
    RunKeepsInv(Opened(items), run);
  }

  /**
   * UI commands reach the kiosk in the order they were accepted, none skipped or repeated. What is
   * missing is the command the loop has in hand and then the buffer: at most nine, and at most
   * eight where the loop waits. In a closed stream the one in hand is the one whose sending failed.
   */
  lemma UICommandsAreForwardedInOrder(items: seq<Item>, run: seq<Action>)
    requires Legal(Opened(items), run)
    ensures var s := After(Opened(items), run);
            && s.log.forwarded <= s.log.accepted && s.log.accepted[|s.log.forwarded|..] == InHand(s) + s.cmds
            && |InHand(s)| <= 1 && |s.cmds| <= CMD_BUFFER
            && (s.loop.Select? ==> InHand(s) == [])
  {
    RunKeepsInv(Opened(items), run);
    var s := After(Opened(items), run);
    assert s.log.forwarded + (InHand(s) + s.cmds) == s.log.forwarded + InHand(s) + s.cmds;
  }

  /** Nine is met: with a full buffer, a receive makes room for one more before the first is sent. */
  lemma NineCommandsCanBeMissing(s: Stream, cmd: string) returns (s1: Stream, s2: Stream)
    requires Inv(s) && s.loop.Select? && |s.cmds| == CMD_BUFFER
    ensures Enabled(s, WakeCmd) && s1 == Do(s, WakeCmd) && Enabled(s1, SendCmd(cmd)) && s2 == Do(s1, SendCmd(cmd))
    ensures |s2.log.accepted| == |s2.log.forwarded| + 9
  {
    s1 := Do(s, WakeCmd);
    s2 := Do(s1, SendCmd(cmd));
  }

  /**
   * What a hang-up drops, for good: the command in hand, the buffer, and whatever phones that still
   * hold the stream put into the buffer later. Everything sent before stays sent, nothing is sent after.
   */
  lemma HangUpDropsHandAndBuffer(items: seq<Item>, run: seq<Action>, later: seq<Action>)
    requires Legal(Opened(items), run)
    requires var s := After(Opened(items), run); Enabled(s, HangUp) && Legal(Do(s, HangUp), later)
    ensures var s := After(Opened(items), run);
            var t := After(Do(s, HangUp), later);
            && t.log.forwarded == s.log.forwarded && s.cmds <= t.cmds && |t.cmds| <= CMD_BUFFER
            && t.log.accepted == s.log.forwarded + InHand(s) + t.cmds
  {
    RunKeepsInv(Opened(items), run);
    var s := After(Opened(items), run);
    StepKeepsInv(s, HangUp);
    RunKeepsInv(Do(s, HangUp), later);
    NothingForwardedOnceClosed(Do(s, HangUp), later);
  }

  /** The loop serves its command branch until the buffer is empty. */
  function CommandsServed(s: Stream): Stream
    requires s.loop.Select?
    decreases |s.cmds|
  {
    if s.cmds == [] then s else CommandsServed(Proceeded(Do(s, WakeCmd), Oracle([], false, None)))
  }

  /** An open stream loses no command: with the buffer served, all that was accepted has been sent, and nothing else changed. */
  lemma {:induction false} ServingSendsEverything(s: Stream)
    requires Inv(s) && s.loop.Select?
    ensures CommandsServed(s) == s.(cmds := [], log := s.log.(forwarded := s.log.accepted))
    decreases |s.cmds|
  {
    if s.cmds == [] {
      assert s.log.forwarded + InHand(s) + s.cmds == s.log.forwarded;
    } else {
      var o := Oracle([], false, None);
      StepKeepsInv(s, WakeCmd);
      ProceedKeepsInv(Do(s, WakeCmd), o);
      ServingSendsEverything(Proceeded(Do(s, WakeCmd), o));
    }
  }

  // ---------- a wake-up, once due, is always acted upon ----------

  /** The loop runs alone until it waits again; each of its steps gets its own answers. */
  function FinishBranch(s: Stream, o: nat -> Oracle): Stream
    decreases StepsLeft(s.loop)
  {
    if s.loop.Select? || s.loop.Closed? then s else ProceedIsLoopOnly(s, o(StepsLeft(s.loop))); FinishBranch(Proceeded(s, o(StepsLeft(s.loop))), o)
  }

  /**
   * Coalescing loses nothing: whatever is pending in any reachable state, once the requests in
   * flight have signalled, the loop needs one pass to finish its branch and one for the single
   * slot, and the kiosk then agrees with everything that was requested.
   */
  lemma OnePassPerSignalSuffices(items: seq<Item>, run: seq<Action>, o: nat -> Oracle, o': nat -> Oracle)
    requires Legal(Opened(items), run)
    requires var s := After(Opened(items), run);
             !s.loop.Closed? && s.notify && forall id :: id in s.remotes ==> s.remotes[id].Looked?
    ensures var s := FinishBranch(After(Opened(items), run), o);
            Enabled(s, WakeNotify)
            && var t := FinishBranch(Do(s, WakeNotify), o');
               AtRest(t) && KioskAgrees(t) && t.cursor == s.cursor
  {
    var r := After(Opened(items), run);
    RunKeepsInv(Opened(items), run);
    FinishBranchKeepsInv(r, o);
    FinishBranchReachesSelect(r, o);
    var w := Do(FinishBranch(r, o), WakeNotify);
    StepKeepsInv(FinishBranch(r, o), WakeNotify);
    FinishBranchKeepsInv(w, o');
    FinishBranchReachesSelect(w, o');
    SendingLeavesCursor(w, o');
    assert !WakeUpDue(FinishBranch(w, o'));
  }

  /** Each dwell expiry, too, makes the kiosk agree, paused or not and whatever was edited before. */
  lemma DwellExpirySuffices(s: Stream, o: nat -> Oracle)
    requires Inv(s) && s.loop.Select? && !WakeUpDue(s)
    ensures var t := FinishBranch(Do(s, WakeAdvance), o);
            AtRest(t) && KioskAgrees(t) && t.cursor == if s.cursor.paused then s.cursor else s.cursor.Next()
  {
    var w := Do(s, WakeAdvance);
    StepKeepsInv(s, WakeAdvance);
    var c := Proceeded(w, o(StepsLeft(w.loop)));
    ProceedKeepsInv(w, o(StepsLeft(w.loop)));
    var m := if c.loop.Read? then c else Proceeded(c, o(StepsLeft(c.loop)));
    if !c.loop.Read? {
      ProceedKeepsInv(c, o(StepsLeft(c.loop)));
    }
    FinishBranchKeepsInv(m, o);
    FinishBranchReachesSelect(m, o);
    SendingLeavesCursor(m, o);
    assert !WakeUpDue(FinishBranch(m, o));
  }

  /** The dwell of an item, 30 seconds without a positive one. */
  function OwnDwell(it: Item): int {
    if it.dwell > 0 then it.dwell else 30 * SECOND
  }

  /**
   * The re-armed timer, to the nanosecond: 30 minutes exactly if the view was found to advance on its
   * own end, else the item's dwell; a goto override and an empty playlist get 30 seconds.
   */
  lemma AdvanceTimerIsExact(s: Stream, o: nat -> Oracle)
    requires s.loop.ArmFirst? && s.cursor.InRange()
    ensures var t, c := FinishBranch(s, o), s.cursor;
            && t.loop.Select?
            && (c.override != 0 ==> t.kiosk.armed == if o(2).onEnd then 30 * MINUTE else 30 * SECOND)
            && (c.override == 0 && c.items == [] ==> t.kiosk.armed == 30 * SECOND)
            && (c.override == 0 && c.items != [] ==>
                  t.kiosk.armed == if o(2).onEnd then 30 * MINUTE else OwnDwell(c.items[c.index]))
  {
    var t := Proceeded(s, o(2));
    if !t.loop.Select? {
      var u := Proceeded(t, o(1));
      assert FinishBranch(t, o) == FinishBranch(u, o) == u;
    } else {
      assert FinishBranch(t, o) == t;
    }
  }

  /** What the kiosk was told wherever the stream is at rest, read off the state's own fields. */
  lemma AtRestTheKioskShowsTheItem(items: seq<Item>, run: seq<Action>)
    requires Legal(Opened(items), run)
    ensures var s := After(Opened(items), run);
            var c := s.cursor;
            AtRest(s) ==>
              && c.InRange()
              && (c.override != 0 ==> s.kiosk.screen == Some(c.override) && s.kiosk.countdown == if c.paused then 0 else 30)
              && (c.override == 0 && c.items == [] ==> s.kiosk.screen == None && s.kiosk.armed == 30 * SECOND)
              && (c.override == 0 && c.items != [] ==>
                    && s.kiosk.screen == Some(c.items[c.index].viewID)
                    && s.kiosk.countdown == (if c.paused then 0 else OwnDwell(c.items[c.index]) / SECOND)
                    && s.kiosk.armed == if s.kiosk.capped then 30 * MINUTE else OwnDwell(c.items[c.index]))
  {
    RunKeepsInv(Opened(items), run);
    NoLostWakeUp(items, run);
  }

  /** What a phone's request, run without interruption, makes of the cursor. */
  function Requested(c: Cursor, req: Request): Cursor {
    match req
    case Step(cmd) => Commanded(c, cmd)
    case Jump(v) => c.Goto(v).SetPaused(true)
  }

  /**
   * A request that finds a waiting stream is served: after its lock sections and its signal, one pass
   * of the loop shows the kiosk exactly what was asked for. A jump shows its view, paused.
   */
  lemma RequestIsServed(s: Stream, id: nat, req: Request, o: nat -> Oracle)
    returns (s1: Stream, s2: Stream, s3: Stream, u: Stream)
    requires Inv(s) && s.loop.Select? && !WakeUpDue(s) && Enabled(s, Issue(id, req))
    ensures Takes(s, Issue(id, req), s1) && Takes(s1, Mutate(id), s2) && Takes(s3, Signal(id), u)
    ensures if req.Jump? then Takes(s2, PauseAfterJump(id), s3) else s3 == s2
    ensures Enabled(u, WakeNotify)
    ensures var t := FinishBranch(Do(u, WakeNotify), o);
            && AtRest(t) && KioskAgrees(t) && t.cursor == Requested(s.cursor, req)
            && (req.Jump? && req.viewID != 0 ==> t.kiosk.screen == Some(req.viewID) && t.kiosk.countdown == 0)
  {
    s1 := Do(s, Issue(id, req));
    StepKeepsInv(s, Issue(id, req));
    s2 := Do(s1, Mutate(id));
    StepKeepsInv(s1, Mutate(id));
    s3 := s2;
    if req.Jump? {
      s3 := Do(s2, PauseAfterJump(id));
      StepKeepsInv(s2, PauseAfterJump(id));
      GotoShowsTheView(s.cursor, req.viewID);
    }
    u := Do(s3, Signal(id));
    StepKeepsInv(s3, Signal(id));
    assert u.remotes == s.remotes && u.cursor == Requested(s.cursor, req);
    hide Inv, Requested;
    var w := Do(u, WakeNotify);
    StepKeepsInv(u, WakeNotify);
    ServedPass(w, o);
  }

  /** A chime with a clock view to show jumps to it, unless paused or already there; without one it moves nothing. */
  lemma ChimeShowsTheClock(s: Stream, o: nat -> Oracle)
    requires Inv(s) && AtRest(s)
    ensures var t, clock := FinishBranch(Do(s, WakeChime), o), o(10).announce;
            && AtRest(t) && KioskAgrees(t)
            && (s.cursor.paused || clock.None? || ViewOf(s.cursor) == clock ==> t.cursor == s.cursor)
            && (!s.cursor.paused && clock.Some? && ViewOf(s.cursor) != clock ==> t.cursor == s.cursor.Goto(clock.value))
            && (!s.cursor.paused && clock.Some? && clock.value != 0 ==> t.kiosk.screen == clock)
  {
    assert KioskAgrees(s);
    hide FinishBranch, LoopKnows;
    var w, clock := Do(s, WakeChime), o(10).announce;
    StepKeepsInv(s, WakeChime);
    ProceedKeepsInv(w, o(10));
    assert Proceeded(w, o(10)).remotes == s.remotes && !WakeUpDue(Proceeded(w, o(10)));
    RepairedSame(s.cursor);
    if clock.Some? {
      GotoShowsTheView(s.cursor, clock.value);
    }
    FinishNext(w, o);
    if s.cursor.paused || clock.None? {
      FinishNext(Proceeded(w, o(10)), o);
    } else {
      ChimePass(Proceeded(w, o(10)), clock.value, o);
    }
  }

  // ---------- the parts: how a branch ends, and what one step does ----------

  /** The rest of the chime branch, past its check. */
  lemma ChimePass(a: Stream, target: int, o: nat -> Oracle)
    requires a.cursor.InRange() && a.loop == ChimeCompare(target) && !WakeUpDue(a) && |a.cmds| <= CMD_BUFFER
    requires Inv(a) && !a.edited && KioskAgrees(a)
    ensures var t := FinishBranch(a, o);
            && AtRest(t) && KioskAgrees(t)
            && t.cursor == if ViewOf(a.cursor) == Some(target) then a.cursor else a.cursor.Goto(target)
  {
    hide FinishBranch;
    RepairedSame(a.cursor);
    var b := Proceeded(a, o(9));
    FinishNext(a, o);
    if b.loop.Select? {
      FinishNext(b, o);
    } else {
      ProceedKeepsInv(a, o(9));
      ProceedKeepsInv(b, o(8));
      FinishNext(b, o);
      hide Inv, LoopKnows;
      ServedPass(Proceeded(b, o(8)), o);
    }
  }

  /** A pass of sendCurrent with nothing due. */
  lemma ServedPass(w: Stream, o: nat -> Oracle)
    requires Inv(w) && w.loop.Read? && !WakeUpDue(w)
    ensures var t := FinishBranch(w, o); AtRest(t) && KioskAgrees(t) && t.cursor == w.cursor
  {
    FinishBranchKeepsInv(w, o);
    FinishBranchReachesSelect(w, o);
    SendingLeavesCursor(w, o);
    assert !WakeUpDue(FinishBranch(w, o));
  }

  /** sendCurrent and the re-arming only look at the cursor. */
  lemma {:induction false} SendingLeavesCursor(s: Stream, o: nat -> Oracle)
    requires s.cursor.InRange() && (s.loop.Read? || (Sending(s.loop) && !s.edited))
    ensures FinishBranch(s, o).cursor == s.cursor && !FinishBranch(s, o).edited
    decreases StepsLeft(s.loop)
  {
    RepairedSame(s.cursor);
    var t := Proceeded(s, o(StepsLeft(s.loop)));
    if t.loop.Select? {
      assert FinishBranch(t, o) == t;
    } else {
      SendingLeavesCursor(t, o);
    }
  }

  lemma {:induction false} FinishBranchKeepsInv(s: Stream, o: nat -> Oracle)
    requires Inv(s)
    ensures Inv(FinishBranch(s, o))
    decreases StepsLeft(s.loop)
  {
    if !s.loop.Select? && !s.loop.Closed? {
      ProceedKeepsInv(s, o(StepsLeft(s.loop)));
      ProceedIsLoopOnly(s, o(StepsLeft(s.loop)));
      hide Proceeded, Inv;
      FinishBranchKeepsInv(Proceeded(s, o(StepsLeft(s.loop))), o);
    }
  }

  lemma {:induction false} FinishBranchReachesSelect(s: Stream, o: nat -> Oracle)
    requires !s.loop.Closed?
    ensures var f := FinishBranch(s, o); f.loop.Select? && f.notify == s.notify && f.remotes == s.remotes
    decreases StepsLeft(s.loop)
  {
    if !s.loop.Select? {
      ProceedIsLoopOnly(s, o(StepsLeft(s.loop)));
      hide Proceeded;
      FinishBranchReachesSelect(Proceeded(s, o(StepsLeft(s.loop))), o);
    }
  }

  lemma FinishNext(s: Stream, o: nat -> Oracle)
    ensures !s.loop.Select? && !s.loop.Closed? ==>
              FinishBranch(s, o) == FinishBranch(Proceeded(s, o(StepsLeft(s.loop))), o)
    ensures s.loop.Select? ==> FinishBranch(s, o) == s
  {
  }

  lemma RepairedSame(c: Cursor)
    requires c.InRange()
    ensures c.Repaired() == c
  {
  }

  lemma ToldOnly(s: Stream, o: Oracle)
    requires Telling(s.loop)
    ensures var t := Told(s, o);
            && LoopOnly(s, t) && t.log.forwarded == s.log.forwarded && (Sending(t.loop) || t.loop.Select?)
            && (t.cursor == s.cursor || t.cursor == s.cursor.Repaired())
            && t.edited == (!s.loop.Read? && s.edited)
  {
    hide DisplayDwell, DisplaySecs, Cursor.Repaired, Cursor.Current;
  }

  lemma ActedOnly(s: Stream, o: Oracle)
    requires !Telling(s.loop) && !s.loop.Select? && !s.loop.Closed?
    ensures var t := Acted(s, o);
            && LoopOnly(s, t) && !Sending(t.loop) && !t.loop.Forward?
            && t.log.forwarded == s.log.forwarded + (if s.loop.Forward? then [s.loop.cmd] else [])
  {
    hide Cursor.Repaired, Cursor.Current, Cursor.SetItems, Cursor.Next, Cursor.Goto;
  }

  lemma ActedCursor(s: Stream, o: Oracle)
    requires !Telling(s.loop) && !s.loop.Select? && !s.loop.Closed?
    ensures Acted(s, o).cursor == match s.loop
            case RefreshItems => s.cursor.SetItems(o.items)
            case AdvanceMove => s.cursor.Next()
            case ChimeMove(target) => s.cursor.Goto(target)
            case ChimeCompare(_) => s.cursor.Repaired()
            case _ => s.cursor
  {
    hide Cursor.Repaired, Cursor.Current, Cursor.SetItems, Cursor.Next, Cursor.Goto;
  }

  lemma ProceedIsLoopOnly(s: Stream, o: Oracle)
    requires Enabled(s, Proceed(o))
    ensures LoopOnly(s, Proceeded(s, o))
    ensures Proceeded(s, o).log.forwarded == s.log.forwarded + (if s.loop.Forward? then [s.loop.cmd] else [])
    ensures !Proceeded(s, o).loop.Forward?
  {
    hide Told, Acted, LoopOnly;
    if Telling(s.loop) {
      ToldOnly(s, o);
    } else {
      ActedOnly(s, o);
    }
  }

  lemma ProceedKeepsRange(s: Stream, o: Oracle)
    requires s.cursor.InRange() && Enabled(s, Proceed(o))
    ensures Proceeded(s, o).cursor.InRange()
    ensures (Sending(s.loop) ==> !s.edited) ==> Sending(Proceeded(s, o).loop) ==> !Proceeded(s, o).edited
  {
    LockSectionsKeepRange(s.cursor, o.items, if s.loop.ChimeMove? then s.loop.target else 0, true);
    hide Told, Acted, LoopOnly;
    if Telling(s.loop) {
      ToldOnly(s, o);
    } else {
      ActedOnly(s, o);
      ActedCursor(s, o);
    }
  }

  lemma ToldKeepsKnowledge(s: Stream, o: Oracle)
    requires s.cursor.InRange() && (Sending(s.loop) ==> !s.edited) && LoopKnows(s) && Telling(s.loop)
    ensures LoopKnows(Told(s, o))
  {
    assert s.cursor.Repaired() == s.cursor;
    hide Cursor.Repaired;
  }

  lemma ActedKeepsKnowledge(s: Stream, o: Oracle)
    requires s.cursor.InRange() && LoopKnows(s) && !Telling(s.loop) && !s.loop.Select? && !s.loop.Closed?
    ensures LoopKnows(Acted(s, o))
  {
    assert s.cursor.Repaired() == s.cursor;
    if s.loop.RefreshItems? && !s.edited && s.cursor.SetItems(o.items).Current() == s.cursor.Current() {
      assert KioskAgrees(Acted(s, o));
    }
  }

  lemma ProceedKeepsKnowledge(s: Stream, o: Oracle)
    requires s.cursor.InRange() && (Sending(s.loop) ==> !s.edited) && LoopKnows(s) && Enabled(s, Proceed(o))
    ensures LoopKnows(Proceeded(s, o))
  {
    hide Told, Acted, LoopKnows;
    if Telling(s.loop) {
      ToldKeepsKnowledge(s, o);
    } else {
      ActedKeepsKnowledge(s, o);
    }
  }

  lemma ProceedKeepsInv(s: Stream, o: Oracle)
    requires Inv(s) && Enabled(s, Proceed(o))
    ensures Inv(Proceeded(s, o))
  {
    ProceedKeepsRange(s, o);
    ProceedIsLoopOnly(s, o);
    if !WakeUpDue(s) {
      ProceedKeepsKnowledge(s, o);
    }
    hide Proceeded, LoopKnows;
    var s' := Proceeded(s, o);
    assert WakeUpDue(s) <==> WakeUpDue(s');
  }

  lemma RemoteKeepsInv(s: Stream, a: Action)
    requires Inv(s) && Enabled(s, a)
    requires a.Issue? || a.Mutate? || a.PauseAfterJump? || a.Signal?
    ensures Inv(Do(s, a))
  {
    var s' := Do(s, a);
    match a {
      case Issue(id, req) =>
        assert forall k :: k in s.remotes ==> k in s'.remotes && s'.remotes[k] == s.remotes[k];
      case Mutate(id) =>
        var req := s.remotes[id].cmd;
        LockSectionsKeepRange(s.cursor, [], if req.Jump? then req.viewID else 0, req == Step(CmdPause));
        assert id in s'.remotes && !s'.remotes[id].Looked?;
      case PauseAfterJump(id) =>
        assert id in s'.remotes && !s'.remotes[id].Looked?;
      case Signal(id) =>
    }
  }

  lemma {:induction false} NothingForwardedOnceClosed(s: Stream, run: seq<Action>)
    requires s.loop.Closed? && Legal(s, run)
    ensures var t := After(s, run);
            t.loop.Closed? && t.log.forwarded == s.log.forwarded && t.log.lost == s.log.lost && s.cmds <= t.cmds && s.log.accepted <= t.log.accepted
    decreases |run|
  {
    if run != [] {
      NothingForwardedOnceClosed(Do(s, run[0]), run[1..]);
    }
  }
}
