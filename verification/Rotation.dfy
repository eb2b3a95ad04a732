/** Playback state of one device and the registry of live streams (internal/rotation/rotation.go). */
module Rotation {
  import opened Prelude

  datatype Item = Item(viewID: int, dwell: int)

  /** Go's remainder: it has the sign of the dividend. */
  function Rem(a: int, b: int): int
    requires b > 0
  {
    if a >= 0 then a % b else -((-a) % b)
  }

  /** Position of the first item showing the view; |items| when there is none. */
  function FirstIndex(items: seq<Item>, viewID: int): (i: nat)
    ensures i <= |items|
    ensures i < |items| ==> items[i].viewID == viewID
    ensures forall k :: 0 <= k < i ==> items[k].viewID != viewID
  {
    if items == [] then 0
    else if items[0].viewID == viewID then 0
    else 1 + FirstIndex(items[1..], viewID)
  }

  /** The four guarded fields of a State, as a value. Each function is one lock section. */
  datatype Cursor = Cursor(items: seq<Item>, index: int, paused: bool, override: int) {

    /** What every lock section keeps: the index addresses an item, or is 0 when there are none. */
    predicate InRange() {
      0 <= index && (index < |items| || (items == [] && index == 0))
    }

    function SetItems(replacement: seq<Item>): Cursor {
      Cursor(replacement, if index >= |replacement| then 0 else index, paused, override)
    }

    /** The index repair that Current performs before it reads an item. */
    function Repaired(): Cursor {
      if override == 0 && items != [] && (index < 0 || index >= |items|) then this.(index := 0) else this
    }

    function Current(): Option<Item> {
      if override != 0 then Some(Item(override, 0))
      else if items == [] then None
      else if index < 0 || index >= |items| then Some(items[0])
      else Some(items[index])
    }

    function Next(): Cursor {
      if items == [] then this.(override := 0)
      else this.(override := 0, index := Rem(index + 1, |items|))
    }

    function Prev(): Cursor {
      if items == [] then this.(override := 0)
      else this.(override := 0, index := Rem(index - 1 + |items|, |items|))
    }

    function Goto(viewID: int): Cursor {
      var i := FirstIndex(items, viewID);
      if i < |items| then this.(index := i, override := 0) else this.(override := viewID)
    }

    function SetPaused(p: bool): Cursor {
      this.(paused := p)
    }
  }

  function NewCursor(items: seq<Item>): Cursor {
    Cursor(items, 0, false, 0)
  }

  /** Every lock section keeps the index in range, so the repair in Current never fires. */
  lemma LockSectionsKeepRange(c: Cursor, items: seq<Item>, viewID: int, p: bool)
    requires c.InRange()
    ensures NewCursor(items).InRange()
    ensures c.SetItems(items).InRange() && c.Next().InRange() && c.Prev().InRange()
    ensures c.Goto(viewID).InRange() && c.SetPaused(p).InRange()
    ensures c.Repaired() == c
  {
    if c.items != [] {
      RemWraps(c.index + 1, |c.items|);
      RemWraps(c.index - 1 + |c.items|, |c.items|);
    }
  }

  lemma RemWraps(a: int, n: nat)
    requires n > 0 && 0 <= a < 2 * n
    ensures Rem(a, n) == if a < n then a else a - n
  {
    DivModUnique(a, n, if a < n then 0 else 1, if a < n then a else a - n);
  }

  lemma RemSteps(a: nat, n: nat)
    requires n > 0
    ensures Rem(a % n + 1, n) == (a + 1) % n
  {
    RemWraps(a % n + 1, n);
    if a % n + 1 < n {
      DivModUnique(a + 1, n, a / n, a % n + 1);
    } else {
      assert n * (a / n + 1) == n * (a / n) + n;
      DivModUnique(a + 1, n, a / n + 1, 0);
    }
  }

  /** Prev undoes Next and Next undoes Prev, except that both drop an override. */
  lemma NextAndPrevAreInverse(c: Cursor)
    requires c.InRange()
    ensures c.Next().Prev() == c.(override := 0)
    ensures c.Prev().Next() == c.(override := 0)
  {
    if c.items != [] {
      var n := |c.items|;
      RemWraps(c.index + 1, n);
      RemWraps(c.Next().index - 1 + n, n);
      RemWraps(c.index - 1 + n, n);
      RemWraps(c.Prev().index + 1, n);
    }
  }

  /** A new stream starts unpaused at the first item. */
  lemma NewCursorShowsTheFirstItem(items: seq<Item>)
    ensures var c := NewCursor(items);
            c.items == items && !c.paused && c.Current() == if items == [] then None else Some(items[0])
  {
  }

  /**
   * A replaced playlist keeps the cursor where it was, and everything else; only where it got
   * shorter than that does the first item show. A goto override stays.
   */
  lemma SetItemsKeepsTheCursor(c: Cursor, items: seq<Item>)
    requires c.InRange()
    ensures var t := c.SetItems(items);
            && t.items == items && t.paused == c.paused && t.override == c.override
            && (c.index < |items| ==> t.index == c.index)
            && (c.override != 0 ==> t.Current() == c.Current())
            && (c.override == 0 && c.index < |items| ==> t.Current() == Some(items[c.index]))
            && (c.override == 0 && 0 < |items| <= c.index ==> t.Current() == Some(items[0]))
            && (c.override == 0 && items == [] ==> t.Current() == None)
    ensures c.SetItems(c.items) == c
  {
  }

  function NextTimes(c: Cursor, k: nat): Cursor {
    if k == 0 then c else NextTimes(c, k - 1).Next()
  }

  /**
   * Auto-advance is a round robin: k advances from position p show item (p + k) mod n, so any n
   * consecutive ones show every item of the playlist exactly once.
   */
  lemma {:induction false} AdvancesGoRoundRobin(c: Cursor, k: nat)
    requires c.InRange() && c.items != [] && c.override == 0
    ensures NextTimes(c, k).Current() == Some(c.items[(c.index + k) % |c.items|])
    ensures NextTimes(c, k) == c.(index := (c.index + k) % |c.items|)
  {
    var n := |c.items|;
    if k == 0 {
      DivModUnique(c.index, n, 0, c.index);
    } else {
      AdvancesGoRoundRobin(c, k - 1);
      RemSteps(c.index + k - 1, n);
    }
  }

  /** A jump shows the asked view, unless that is view 0 and the playlist does not hold it. */
  lemma GotoShowsTheView(c: Cursor, viewID: int)
    ensures (c.Goto(viewID).Current().Some? && c.Goto(viewID).Current().value.viewID == viewID)
            <==> (viewID != 0 || exists i :: 0 <= i < |c.items| && c.items[i].viewID == 0)
  {
    var k := FirstIndex(c.items, viewID);
    if k < |c.items| {
      assert c.items[k].viewID == viewID;
    }
  }

  // ---------- the mutable objects ----------

  class State {
    var items: seq<Item>
    var index: int
    var paused: bool
    var override: int

    ghost function Value(): Cursor
      reads this
    {
      Cursor(items, index, paused, override)
    }

    constructor (items: seq<Item>)
      ensures Value() == NewCursor(items)
    {
      this.items, index, paused, override := items, 0, false, 0;
    }

    method SetItems(items: seq<Item>)
      modifies this
      ensures Value() == old(Value()).SetItems(items)
    {
      this.items := items;
      if index >= |items| {
        index := 0;
      }
    }

    method Current() returns (it: Item, ok: bool)
      modifies this
      ensures Value() == old(Value()).Repaired()
      ensures ok <==> old(Value()).Current().Some?
      ensures ok ==> it == old(Value()).Current().value
    {
      if override != 0 {
        return Item(override, 0), true;
      }
      if |items| == 0 {
        return Item(0, 0), false;
      }
      if index < 0 || index >= |items| {
        index := 0;
      }
      return items[index], true;
    }

    method Next()
      modifies this
      ensures Value() == old(Value()).Next()
    {
      override := 0;
      if |items| > 0 {
        index := Rem(index + 1, |items|);
      }
    }

    method Prev()
      modifies this
      ensures Value() == old(Value()).Prev()
    {
      override := 0;
      if |items| > 0 {
        index := Rem(index - 1 + |items|, |items|);
      }
    }

    method Goto(viewID: int) returns (ok: bool)
      modifies this
      ensures ok && Value() == old(Value()).Goto(viewID)
    {
      var i := 0;
      while i < |items|
        invariant 0 <= i <= |items|
        invariant forall k :: 0 <= k < i ==> items[k].viewID != viewID
        invariant Value() == old(Value())
      {
        if items[i].viewID == viewID {
          index, override := i, 0;
          return true;
        }
        i := i + 1;
      }
      override := viewID;
      return true;
    }

    method SetPaused(p: bool)
      modifies this
      ensures Value() == old(Value()).SetPaused(p)
    {
      paused := p;
    }
  }

  /** A jump moves the index to the first item showing the view, or shows a view of no item by itself. */
  lemma GotoMovesTheCursor(c: Cursor, viewID: int)
    ensures forall i :: 0 <= i < |c.items| && c.items[i].viewID == viewID
                        && (forall k :: 0 <= k < i ==> c.items[k].viewID != viewID)
                        ==> c.Goto(viewID) == c.(index := i, override := 0)
    ensures (forall i :: 0 <= i < |c.items| ==> c.items[i].viewID != viewID) ==> c.Goto(viewID) == c.(override := viewID)
  {
    var first := FirstIndex(c.items, viewID);
  }

  datatype Command = CmdNext | CmdPrev | CmdPause | CmdResume | CmdUnknown

  /** The lock section a command runs; an unknown command runs none. */
  function Commanded(c: Cursor, cmd: Command): Cursor {
    match cmd
    case CmdNext => c.Next()
    case CmdPrev => c.Prev()
    case CmdPause => c.SetPaused(true)
    case CmdResume => c.SetPaused(false)
    case CmdUnknown => c
  }

  /** Next and previous step round the items and drop an override; pause and resume touch the flag alone. */
  lemma CommandsDoWhatTheySay(c: Cursor)
    requires c.InRange()
    ensures c.items != [] ==>
              && Commanded(c, CmdNext) == c.(index := (c.index + 1) % |c.items|, override := 0)
              && Commanded(c, CmdPrev) == c.(index := (c.index - 1) % |c.items|, override := 0)
    ensures c.items == [] ==>
              Commanded(c, CmdNext) == c.(override := 0) && Commanded(c, CmdPrev) == c.(override := 0)
    ensures Commanded(c, CmdPause) == c.(paused := true) && Commanded(c, CmdResume) == c.(paused := false)
    ensures Commanded(c, CmdUnknown) == c
  {
    var n := |c.items|;
    if n > 0 {
      RemWraps(c.index + 1, n);
      RemWraps(c.index - 1 + n, n);
      DivModUnique(c.index + 1, n, if c.index + 1 < n then 0 else 1, if c.index + 1 < n then c.index + 1 else 0);
      DivModUnique(c.index - 1, n, if c.index > 0 then 0 else -1, if c.index > 0 then c.index - 1 else n - 1);
    }
  }

  /** One stream: its state, a one-slot notify channel and an eight-slot channel of UI commands. */
  class Conn {
    const state: State
    var notify: bool
    var cmds: seq<string>

    constructor (items: seq<Item>)
      ensures fresh(state) && state.Value() == NewCursor(items)
      ensures !notify && cmds == []
    {
      state := new State(items);
      notify, cmds := false, [];
    }

    /** A send on a full slot is dropped: the pending signal already covers it. */
    method Signal()
      modifies this`notify
      ensures notify
    {
      if !notify {
        notify := true;
      }
    }
  }

  const CMD_BUFFER: nat := 8

  /** What happened to the registry: a stream of a device opened, or its release func ran. */
  datatype LinkEvent<C> = Connected(device: int, conn: C) | Released(device: int, conn: C)

  function Applied<C(==)>(m: map<int, C>, e: LinkEvent<C>): map<int, C> {
    match e
    case Connected(d, c) => m[d := c]
    case Released(d, c) => if d in m && m[d] == c then m - {d} else m
  }

  function Replay<C(==)>(log: seq<LinkEvent<C>>): map<int, C> {
    if log == [] then map[] else Applied(Replay(log[..|log| - 1]), log[|log| - 1])
  }

  /** conn is the newest stream the device opened, and that very stream was not released. */
  ghost predicate NewestAndOpen<C>(log: seq<LinkEvent<C>>, device: int, conn: C) {
    exists i :: 0 <= i < |log| && log[i] == Connected(device, conn) && UntouchedSince(log, i, device, conn)
  }

  ghost predicate UntouchedSince<C>(log: seq<LinkEvent<C>>, i: int, device: int, conn: C)
    requires 0 <= i < |log|
  {
    forall j :: i < j < |log| ==>
      log[j] != Released(device, conn) && !(log[j].Connected? && log[j].device == device)
  }

  /**
   * Over any history, commands reach exactly the newest stream of a device while it is open: a
   * release of an older stream never drops it, however often and whenever it runs.
   */
  lemma {:induction false} StaleReleaseNeverDropsNewerStream<C>(log: seq<LinkEvent<C>>, device: int, conn: C)
    ensures (device in Replay(log) && Replay(log)[device] == conn) <==> NewestAndOpen(log, device, conn)
  {
    if log != [] {
      var n := |log| - 1;
      var past := log[..n];
      StaleReleaseNeverDropsNewerStream(past, device, conn);
      if NewestAndOpen(past, device, conn) && log[n] != Released(device, conn)
         && !(log[n].Connected? && log[n].device == device) {
        var i :| 0 <= i < |past| && past[i] == Connected(device, conn) && UntouchedSince(past, i, device, conn);
        assert log[i] == Connected(device, conn) && UntouchedSince(log, i, device, conn);
      }
      if NewestAndOpen(log, device, conn) {
        var i :| 0 <= i < |log| && log[i] == Connected(device, conn) && UntouchedSince(log, i, device, conn);
        if i < n {
          assert past[i] == Connected(device, conn);
          assert UntouchedSince(past, i, device, conn) by {
            forall j | i < j < |past|
              ensures past[j] != Released(device, conn) && !(past[j].Connected? && past[j].device == device)
            {
              assert past[j] == log[j];
            }
          }
        }
      }
      if log[n] == Connected(device, conn) {
        assert UntouchedSince(log, n, device, conn);
      }
    }
  }

  /** The other side of the coin: when the newest stream is released, an older open one stays unreachable. */
  lemma OlderStreamIsOrphaned<C>(device: int, older: C, newer: C)
    requires older != newer
    ensures Replay([Connected(device, older), Connected(device, newer), Released(device, newer)]) == map[]
  {
    var log := [Connected(device, older), Connected(device, newer), Released(device, newer)];
    var two := log[..2];
    var one := two[..1];
    assert Replay(one) == map[device := older];
    assert Replay(two) == map[device := newer];
  }

  class Manager {
    var devices: map<int, Conn>
    ghost var log: seq<LinkEvent<Conn>>

    ghost predicate Valid()
      reads this
    {
      devices == Replay(log)
    }

    constructor ()
      ensures Valid() && log == []
    {
      devices, log := map[], [];
    }

    method Connect(deviceID: int, items: seq<Item>) returns (c: Conn)
      requires Valid()
      modifies this
      ensures Valid() && log == old(log) + [Connected(deviceID, c)]
      ensures fresh(c) && fresh(c.state) && c.state.Value() == NewCursor(items)
      ensures !c.notify && c.cmds == []
    {
      c := new Conn(items);
      devices := devices[deviceID := c];
      log := log + [Connected(deviceID, c)];
    }

    /** The release func returned by Connect. */
    method Release(deviceID: int, c: Conn)
      requires Valid()
      modifies this
      ensures Valid() && log == old(log) + [Released(deviceID, c)]
    {
      if deviceID in devices && devices[deviceID] == c {
        devices := devices - {deviceID};
      }
      log := log + [Released(deviceID, c)];
    }

    /** The objects a command to this device may change. */
    ghost function Reach(deviceID: int): set<object>
      reads this
    {
      if deviceID in devices then {devices[deviceID], devices[deviceID].state} else {}
    }

    method SendClientCmd(deviceID: int, cmd: string) returns (sent: bool)
      modifies Reach(deviceID)
      ensures sent <==> deviceID in devices && |old(devices[deviceID].cmds)| < CMD_BUFFER
      ensures deviceID in devices ==>
                var c := devices[deviceID];
                c.cmds == (if sent then old(c.cmds) + [cmd] else old(c.cmds))
                && c.notify == old(c.notify) && c.state.Value() == old(c.state.Value())
    {
      if deviceID !in devices {
        return false;
      }
      var c := devices[deviceID];
      if |c.cmds| < CMD_BUFFER {
        c.cmds := c.cmds + [cmd];
        return true;
      }
      return false;
    }

    method Command(deviceID: int, cmd: Command) returns (ok: bool)
      modifies Reach(deviceID)
      ensures ok <==> deviceID in devices && cmd != CmdUnknown
      ensures deviceID in devices ==>
                var c := devices[deviceID];
                c.state.Value() == Commanded(old(c.state.Value()), cmd)
                && c.notify == (ok || old(c.notify)) && c.cmds == old(c.cmds)
    {
      if deviceID !in devices {
        return false;
      }
      var c := devices[deviceID];
      match cmd {
        case CmdNext => c.state.Next();
        case CmdPrev => c.state.Prev();
        case CmdPause => c.state.SetPaused(true);
        case CmdResume => c.state.SetPaused(false);
        case CmdUnknown => return false;
      }
      c.Signal();
      return true;
    }

    method Goto(deviceID: int, viewID: int) returns (ok: bool)
      modifies Reach(deviceID)
      ensures ok <==> deviceID in devices
      ensures ok ==>
                var c := devices[deviceID];
                c.state.Value() == old(c.state.Value()).Goto(viewID).SetPaused(true)
                && c.notify && c.cmds == old(c.cmds)
    {
      if deviceID !in devices {
        return false;
      }
      var c := devices[deviceID];
      var jumped := c.state.Goto(viewID);
      c.state.SetPaused(true);
      c.Signal();
      return true;
    }
  }
}
