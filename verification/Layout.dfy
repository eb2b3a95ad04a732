/** A view's arrangement as a recursive split tree, as a value (internal/layout/layout.go). */
module Layout {
  import opened Prelude

  const ROW: string := "row"
  const COL: string := "col"

  datatype Leaf = Leaf(widgetID: int, config: string)
  datatype Child = Child(weight: real, node: Node)
  datatype Split = Split(dir: string, children: seq<Child>)
  /** A tree read from JSON may have both kinds or neither; Validate is what rules that out. */
  datatype Node = Node(split: Option<Split>, leaf: Option<Leaf>)

  type Path = seq<int>

  function Pane(leaf: Leaf): Node { Node(None, Some(leaf)) }
  function Divided(dir: string, children: seq<Child>): Node { Node(Some(Split(dir, children)), None) }
  function SingleLeaf(widgetID: int): Node { Pane(Leaf(widgetID, "")) }

  datatype Fault = BothKinds | NeitherKind | BadDirection | TooFewChildren | PathNotFound | NotALeaf
    | RootStays | ParentNotSplit | BadChildIndex | RootHasNoWeight | WeightNotPositive | BadPath

  ghost predicate Valid(n: Node) {
    n.split.Some? != n.leaf.Some?
    && (n.split.Some? ==>
          (n.split.value.dir == ROW || n.split.value.dir == COL) && |n.split.value.children| >= 2
          && forall i :: 0 <= i < |n.split.value.children| ==> Valid(n.split.value.children[i].node))
  }

  function Validate(n: Node): (fault: Option<Fault>)
    ensures fault.None? <==> Valid(n)
    decreases n, 0
  {
    if n.leaf.Some? && n.split.Some? then Some(BothKinds)
    else if n.leaf.None? && n.split.None? then Some(NeitherKind)
    else if n.split.Some? then
      if n.split.value.dir != ROW && n.split.value.dir != COL then Some(BadDirection)
      else if |n.split.value.children| < 2 then Some(TooFewChildren)
      else ValidateAll(n.split.value.children)
    else None
  }

  function ValidateAll(cs: seq<Child>): (fault: Option<Fault>)
    ensures fault.None? <==> forall i :: 0 <= i < |cs| ==> Valid(cs[i].node)
    decreases cs, 1
  {
    if cs == [] then None
    else
      assert cs decreases to cs[0];
      var first := Validate(cs[0].node);
      if first.Some? then first else ValidateAll(cs[1..])
  }

  // ---------- addressing ----------

  predicate HasChild(n: Node, i: int) {
    n.split.Some? && 0 <= i < |n.split.value.children|
  }

  /** The node a path of child indices leads to; None where at returns nil. */
  function At(n: Node, path: Path): Option<Node>
    decreases |path|
  {
    if path == [] then Some(n)
    else if !HasChild(n, path[0]) then None
    else At(n.split.value.children[path[0]].node, path[1..])
  }

  function WithChild(n: Node, i: int, m: Node): Node
    requires HasChild(n, i)
  {
    var s := n.split.value;
    n.(split := Some(s.(children := s.children[i := s.children[i].(node := m)])))
  }

  /** The tree after the node at path was overwritten in place. */
  function Put(n: Node, path: Path, m: Node): Node
    requires At(n, path).Some?
    decreases |path|
  {
    if path == [] then m
    else WithChild(n, path[0], Put(n.split.value.children[path[0]].node, path[1..], m))
  }

  lemma {:induction false} AtConcat(n: Node, p: Path, q: Path)
    ensures At(n, p + q) == if At(n, p).None? then None else At(At(n, p).value, q)
    decreases |p|
  {
    if p == [] {
      assert p + q == q;
    } else if HasChild(n, p[0]) {
      assert (p + q)[1..] == p[1..] + q;
      AtConcat(n.split.value.children[p[0]].node, p[1..], q);
    }
  }

  lemma {:induction false} AtUnderPut(n: Node, p: Path, m: Node, q: Path)
    requires At(n, p).Some?
    ensures At(Put(n, p, m), p + q) == At(m, q)
    decreases |p|
  {
    if p == [] {
      assert p + q == q;
    } else {
      assert (p + q)[1..] == p[1..] + q;
      AtUnderPut(n.split.value.children[p[0]].node, p[1..], m, q);
    }
  }

  /** Neither path leads through the other's node. */
  ghost predicate Apart(p: Path, q: Path) {
    !(p <= q) && !(q <= p)
  }

  lemma {:induction false} AtBesidePut(n: Node, p: Path, m: Node, q: Path)
    requires At(n, p).Some? && Apart(p, q)
    ensures At(Put(n, p, m), q) == At(n, q)
    decreases |p|
  {
    if p[0] == q[0] && HasChild(n, p[0]) {
      assert Apart(p[1..], q[1..]) by {
        assert p == [p[0]] + p[1..] && q == [q[0]] + q[1..];
      }
      AtBesidePut(n.split.value.children[p[0]].node, p[1..], m, q[1..]);
    }
  }

  lemma {:induction false} PutTwice(n: Node, p: Path, m: Node, k: Node)
    requires At(n, p).Some?
    ensures At(Put(n, p, m), p) == Some(m)
    ensures Put(Put(n, p, m), p, k) == Put(n, p, k)
    decreases |p|
  {
    if p != [] {
      var i := p[0];
      var child := n.split.value.children[i].node;
      PutTwice(child, p[1..], m, k);
      var n1 := Put(n, p, m);
      assert n1.split.value.children[i].node == Put(child, p[1..], m);
      assert Put(n1, p, k).split.value.children == Put(n, p, k).split.value.children;
    }
  }

  lemma {:induction false} PutSame(n: Node, p: Path)
    requires At(n, p).Some?
    ensures Put(n, p, At(n, p).value) == n
    decreases |p|
  {
    if p != [] {
      PutSame(n.split.value.children[p[0]].node, p[1..]);
      assert Put(n, p, At(n, p).value).split.value.children == n.split.value.children;
    }
  }

  lemma {:induction false} ValidAt(n: Node, p: Path)
    requires Valid(n) && At(n, p).Some?
    ensures Valid(At(n, p).value)
    decreases |p|
  {
    if p != [] {
      ValidAt(n.split.value.children[p[0]].node, p[1..]);
    }
  }

  lemma {:induction false} ValidPut(n: Node, p: Path, m: Node)
    requires Valid(n) && At(n, p).Some? && Valid(m)
    ensures Valid(Put(n, p, m))
    decreases |p|
  {
    if p != [] {
      ValidPut(n.split.value.children[p[0]].node, p[1..], m);
    }
  }

  // ---------- the panes from left to right ----------

  function Leaves(n: Node): seq<Leaf>
    decreases n, 0
  {
    if n.split.Some? then LeavesOf(n.split.value.children)
    else if n.leaf.Some? then [n.leaf.value] else []
  }

  function LeavesOf(cs: seq<Child>): seq<Leaf>
    decreases cs, 1
  {
    if cs == [] then []
    else
      assert cs decreases to cs[0];
      Leaves(cs[0].node) + LeavesOf(cs[1..])
  }

  lemma {:induction false} LeavesOfConcat(a: seq<Child>, b: seq<Child>)
    ensures LeavesOf(a + b) == LeavesOf(a) + LeavesOf(b)
    decreases |a|
  {
    if a == [] {
      assert a + b == b;
    } else {
      assert (a + b)[1..] == a[1..] + b;
      LeavesOfConcat(a[1..], b);
    }
  }

  lemma LeavesOfCut(cs: seq<Child>, i: nat, c: Child)
    requires i < |cs|
    ensures LeavesOf(cs[i := c]) == LeavesOf(cs[..i]) + Leaves(c.node) + LeavesOf(cs[i + 1..])
  {
    assert cs[i := c] == cs[..i] + ([c] + cs[i + 1..]);
    LeavesOfConcat(cs[..i], [c] + cs[i + 1..]);
    assert ([c] + cs[i + 1..])[1..] == cs[i + 1..];
  }

  /** The panes to the left of the addressed subtree. */
  function LeavesBefore(n: Node, path: Path): seq<Leaf>
    requires At(n, path).Some?
    decreases |path|
  {
    if path == [] then []
    else
      var cs := n.split.value.children;
      LeavesOf(cs[..path[0]]) + LeavesBefore(cs[path[0]].node, path[1..])
  }

  /** The panes to its right. */
  function LeavesAfter(n: Node, path: Path): seq<Leaf>
    requires At(n, path).Some?
    decreases |path|
  {
    if path == [] then []
    else
      var cs := n.split.value.children;
      LeavesAfter(cs[path[0]].node, path[1..]) + LeavesOf(cs[path[0] + 1..])
  }

  /** Overwriting a node replaces exactly its own, contiguous panes. */
  lemma {:induction false} LeavesOfPut(n: Node, path: Path, m: Node)
    requires At(n, path).Some?
    ensures Leaves(Put(n, path, m)) == LeavesBefore(n, path) + Leaves(m) + LeavesAfter(n, path)
    decreases |path|
  {
    if path != [] {
      var cs, i := n.split.value.children, path[0];
      var child := cs[i].node;
      LeavesOfPut(child, path[1..], m);
      var child' := Put(child, path[1..], m);
      LeavesOfCut(cs, i, cs[i].(node := child'));
    }
  }

  lemma LeavesAround(n: Node, path: Path)
    requires At(n, path).Some?
    ensures Leaves(n) == LeavesBefore(n, path) + Leaves(At(n, path).value) + LeavesAfter(n, path)
  {
    LeavesOfPut(n, path, At(n, path).value);
    PutSame(n, path);
  }

  // ---------- the operations ----------

  /** What an operation leaves behind: the tree, and its complaint if it refused. */
  datatype Outcome = Outcome(tree: Node, fault: Option<Fault>)

  function Refused(n: Node, fault: Fault): Outcome { Outcome(n, Some(fault)) }

  function Init(path: Path): Path requires path != [] { path[..|path| - 1] }
  function Last(path: Path): int requires path != [] { path[|path| - 1] }

  function Halves(was: Node, dir: string): Node {
    Divided(dir, [Child(1.0, was), Child(1.0, SingleLeaf(0))])
  }

  function SplitLeaf(n: Node, path: Path, dir: string): Outcome {
    if dir != ROW && dir != COL then Refused(n, BadDirection)
    else if At(n, path).None? then Refused(n, PathNotFound)
    else if At(n, path).value.leaf.None? then Refused(n, NotALeaf)
    else Outcome(Put(n, path, Halves(At(n, path).value, dir)), None)
  }

  /** A split without its i-th child, collapsed into the remaining child when only one is left. */
  function Shrunk(parent: Node, i: int): Node
    requires HasChild(parent, i)
  {
    var cs := parent.split.value.children;
    var rest := cs[..i] + cs[i + 1..];
    if |rest| == 1 then rest[0].node else parent.(split := Some(parent.split.value.(children := rest)))
  }

  function Remove(n: Node, path: Path): Outcome {
    if path == [] then Refused(n, RootStays)
    else
      var parent := At(n, Init(path));
      if parent.None? || parent.value.split.None? then Refused(n, ParentNotSplit)
      else if !HasChild(parent.value, Last(path)) then Refused(n, BadChildIndex)
      else Outcome(Put(n, Init(path), Shrunk(parent.value, Last(path))), None)
  }

  function SetWidget(n: Node, path: Path, widgetID: int): Outcome {
    var t := At(n, path);
    if t.None? || t.value.leaf.None? then Refused(n, NotALeaf)
    else Outcome(Put(n, path, t.value.(leaf := Some(t.value.leaf.value.(widgetID := widgetID)))), None)
  }

  function Reweighted(parent: Node, i: int, weight: real): Node
    requires HasChild(parent, i)
  {
    var s := parent.split.value;
    parent.(split := Some(s.(children := s.children[i := s.children[i].(weight := weight)])))
  }

  function SetWeight(n: Node, path: Path, weight: real): Outcome {
    if path == [] then Refused(n, RootHasNoWeight)
    else if weight <= 0.0 then Refused(n, WeightNotPositive)
    else
      var parent := At(n, Init(path));
      if parent.None? || !HasChild(parent.value, Last(path)) then Refused(n, BadPath)
      else Outcome(Put(n, Init(path), Reweighted(parent.value, Last(path), weight)), None)
  }

  // ---------- when an operation is refused ----------

  /** Any node but the root can be removed. */
  lemma RemovalSucceedsIff(n: Node, path: Path)
    ensures Remove(n, path).fault.None? <==> path != [] && At(n, path).Some?
  {
    if path != [] {
      assert path == Init(path) + [Last(path)];
      AtConcat(n, Init(path), [Last(path)]);
      if At(n, Init(path)).Some? {
        AtChild(At(n, Init(path)).value, Last(path));
      }
    }
  }

  /** A pane can be split or filled, and a positive weight set wherever a removal is possible. */
  lemma OperationsSucceedIff(n: Node, path: Path, dir: string, widgetID: int, weight: real)
    ensures SplitLeaf(n, path, dir).fault.None? <==>
            (dir == "row" || dir == "col") && At(n, path).Some? && At(n, path).value.leaf.Some?
    ensures SetWidget(n, path, widgetID).fault.None? <==> At(n, path).Some? && At(n, path).value.leaf.Some?
    ensures SetWeight(n, path, weight).fault.None? <==> weight > 0.0 && Remove(n, path).fault.None?
  {
  }

  /** What a refused call complains about: the first of its conditions that fails. */
  lemma RefusalsSay(n: Node, path: Path, dir: string, widgetID: int, weight: real)
    ensures var fault := SplitLeaf(n, path, dir).fault;
            && (dir != "row" && dir != "col" ==> fault == Some(BadDirection))
            && ((dir == "row" || dir == "col") && At(n, path).None? ==> fault == Some(PathNotFound))
            && ((dir == "row" || dir == "col") && At(n, path).Some? && At(n, path).value.leaf.None? ==>
                  fault == Some(NotALeaf))
    ensures var fault := Remove(n, path).fault;
            && (path == [] ==> fault == Some(RootStays))
            && (path != [] ==>
                  var parent := At(n, path[..|path| - 1]);
                  && (parent.None? || parent.value.split.None? ==> fault == Some(ParentNotSplit))
                  && (parent.Some? && parent.value.split.Some? && fault.Some? ==> fault == Some(BadChildIndex)))
    ensures SetWidget(n, path, widgetID).fault.Some? ==> SetWidget(n, path, widgetID).fault == Some(NotALeaf)
    ensures var fault := SetWeight(n, path, weight).fault;
            && (path == [] ==> fault == Some(RootHasNoWeight))
            && (path != [] && weight <= 0.0 ==> fault == Some(WeightNotPositive))
            && (path != [] && weight > 0.0 && fault.Some? ==> fault == Some(BadPath))
  {
  }

  // ---------- what a split does ----------

  /** A split keeps every pane and puts exactly one empty pane right after the one it splits. */
  lemma SplitInsertsOnePane(n: Node, path: Path, dir: string)
    requires Valid(n) && SplitLeaf(n, path, dir).fault.None?
    ensures var was := At(n, path).value.leaf.value;
            Leaves(n) == LeavesBefore(n, path) + [was] + LeavesAfter(n, path)
            && Leaves(SplitLeaf(n, path, dir).tree)
               == LeavesBefore(n, path) + [was, Leaf(0, "")] + LeavesAfter(n, path)
  {
    ValidAt(n, path);
    LeavesAround(n, path);
    var was := At(n, path).value;
    var halves := Halves(was, dir);
    LeavesOfPut(n, path, halves);
    var cs := halves.split.value.children;
    var second := cs[1..];
    assert second == [Child(1.0, SingleLeaf(0))] && second[1..] == [];
    assert LeavesOf(second) == [Leaf(0, "")];
    assert LeavesOf(cs) == Leaves(was) + LeavesOf(second);
  }

  /** The old content moves to child 0, the empty pane is child 1, nothing beside the target moves. */
  lemma SplitMovesOnlyTheTarget(n: Node, path: Path, dir: string, q: Path)
    requires SplitLeaf(n, path, dir).fault.None?
    ensures var n' := SplitLeaf(n, path, dir).tree;
            At(n', path + [0]) == At(n, path) && At(n', path + [1]) == Some(SingleLeaf(0))
            && (Apart(path, q) ==> At(n', q) == At(n, q))
    ensures var m := At(SplitLeaf(n, path, dir).tree, path);
            && m.Some? && m.value.leaf.None? && m.value.split.Some? && m.value.split.value.dir == dir
            && |m.value.split.value.children| == 2
            && m.value.split.value.children[0].weight == m.value.split.value.children[1].weight == 1.0
  {
    var halves := Halves(At(n, path).value, dir);
    PutTwice(n, path, halves, halves);
    AtUnderPut(n, path, halves, [0]);
    AtUnderPut(n, path, halves, [1]);
    if Apart(path, q) {
      AtBesidePut(n, path, halves, q);
    }
  }

  /** Removing the pane a split created restores the tree exactly, weights included. */
  lemma RemoveUndoesSplit(n: Node, path: Path, dir: string)
    requires SplitLeaf(n, path, dir).fault.None?
    ensures Remove(SplitLeaf(n, path, dir).tree, path + [1]) == Outcome(n, None)
  {
    var was := At(n, path).value;
    var halves := Halves(was, dir);
    var n' := SplitLeaf(n, path, dir).tree;
    assert Init(path + [1]) == path;
    PutTwice(n, path, halves, was);
    var cs := halves.split.value.children;
    assert cs[..1] + cs[2..] == [cs[0]];
    PutSame(n, path);
  }

  // ---------- what a removal does ----------

  lemma LeavesOfShrunk(parent: Node, i: int)
    requires HasChild(parent, i)
    ensures var cs := parent.split.value.children;
            Leaves(Shrunk(parent, i)) == LeavesOf(cs[..i]) + LeavesOf(cs[i + 1..])
  {
    var cs := parent.split.value.children;
    var rest := cs[..i] + cs[i + 1..];
    LeavesOfConcat(cs[..i], cs[i + 1..]);
    if |rest| == 1 {
      assert rest[1..] == [];
      assert LeavesOf(rest) == Leaves(rest[0].node) + [];
    }
  }

  lemma {:induction false} AroundChild(n: Node, p: Path, i: int)
    requires At(n, p + [i]).Some? && At(n, p).Some? && HasChild(At(n, p).value, i)
    ensures var cs := At(n, p).value.split.value.children;
            LeavesBefore(n, p + [i]) == LeavesBefore(n, p) + LeavesOf(cs[..i])
            && LeavesAfter(n, p + [i]) == LeavesOf(cs[i + 1..]) + LeavesAfter(n, p)
    decreases |p|
  {
    if p == [] {
      assert p + [i] == [i] && [i][1..] == [];
    } else {
      assert (p + [i])[1..] == p[1..] + [i];
      AroundChild(n.split.value.children[p[0]].node, p[1..], i);
    }
  }

  lemma AtChild(n: Node, i: int)
    ensures At(n, [i]) == if HasChild(n, i) then Some(n.split.value.children[i].node) else None
  {
    if HasChild(n, i) {
      assert [i][1..] == [];
    }
  }

  predicate Removable(n: Node, path: Path) {
    path != [] && At(n, Init(path)).Some? && HasChild(At(n, Init(path)).value, Last(path))
  }

  lemma RemoveTarget(n: Node, path: Path)
    requires Removable(n, path)
    ensures path == Init(path) + [Last(path)]
    ensures At(n, path) == Some(At(n, Init(path)).value.split.value.children[Last(path)].node)
  {
    assert path == Init(path) + [Last(path)];
    AtConcat(n, Init(path), [Last(path)]);
    AtChild(At(n, Init(path)).value, Last(path));
  }

  lemma LeavesWithoutChild(n: Node, p: Path, i: int)
    requires At(n, p).Some? && HasChild(At(n, p).value, i) && At(n, p + [i]).Some?
    ensures Leaves(Put(n, p, Shrunk(At(n, p).value, i))) == LeavesBefore(n, p + [i]) + LeavesAfter(n, p + [i])
  {
    var parent := At(n, p).value;
    var cs := parent.split.value.children;
    var shrunk := Shrunk(parent, i);
    LeavesOfPut(n, p, shrunk);
    assert Leaves(shrunk) == LeavesOf(cs[..i]) + LeavesOf(cs[i + 1..]) by { LeavesOfShrunk(parent, i); }
    AroundChild(n, p, i);
  }

  /** A removal deletes exactly the addressed subtree's contiguous panes. */
  lemma RemoveDeletesOneSubtree(n: Node, path: Path)
    requires Remove(n, path).fault.None?
    ensures At(n, path).Some?
    ensures Leaves(n) == LeavesBefore(n, path) + Leaves(At(n, path).value) + LeavesAfter(n, path)
    ensures Leaves(Remove(n, path).tree) == LeavesBefore(n, path) + LeavesAfter(n, path)
  {
    RemoveTarget(n, path);
    LeavesAround(n, path);
    LeavesWithoutChild(n, Init(path), Last(path));
  }

  /** The parent of a removed child keeps its direction and its other children, weights included, or becomes the one left. */
  lemma RemoveKeepsSiblings(n: Node, path: Path)
    requires Remove(n, path).fault.None?
    ensures var p, i := path[..|path| - 1], path[|path| - 1];
            var was, now := At(n, p), At(Remove(n, path).tree, p);
            && was.Some? && was.value.split.Some? && 0 <= i < |was.value.split.value.children| && now.Some?
            && var cs := was.value.split.value.children;
               if |cs| == 2 then now.value == cs[1 - i].node
               else
                 && now.value.split.Some? && now.value.leaf == was.value.leaf
                 && now.value.split.value.dir == was.value.split.value.dir
                 && |now.value.split.value.children| == |cs| - 1
                 && forall j :: 0 <= j < |cs| - 1 ==> now.value.split.value.children[j] == cs[if j < i then j else j + 1]
  {
    var p, i := Init(path), Last(path);
    var was := At(n, p).value;
    PutTwice(n, p, Shrunk(was, i), was);
    var cs := was.split.value.children;
    assert |cs| == 2 ==> (cs[..i] + cs[i + 1..])[0] == cs[1 - i];
  }

  /** Where the node at q is found once the node at path is gone. */
  function Shifted(n: Node, path: Path, q: Path): Path
    requires path != [] && At(n, Init(path)).Some? && HasChild(At(n, Init(path)).value, Last(path))
  {
    var p, i := Init(path), Last(path);
    if !(p < q) then q
    else
      var j, r := q[|p|], q[|p| + 1..];
      if |At(n, p).value.split.value.children| == 2 then p + r
      else p + ([if j > i then j - 1 else j] + r)
  }

  lemma ShrunkKeepsSiblings(parent: Node, i: int, j: int, r: Path)
    requires HasChild(parent, i) && HasChild(parent, j) && i != j
    ensures var cs := parent.split.value.children;
            At(Shrunk(parent, i), if |cs| == 2 then r else [if j > i then j - 1 else j] + r) == At(cs[j].node, r)
  {
    var cs := parent.split.value.children;
    var rest := cs[..i] + cs[i + 1..];
    var k := if j > i then j - 1 else j;
    assert rest[k] == cs[j];
    if |cs| != 2 {
      assert ([k] + r)[1..] == r;
    }
  }

  lemma SiblingShifts(n: Node, p: Path, i: int, j: int, r: Path)
    requires At(n, p).Some? && HasChild(At(n, p).value, i) && i != j && At(n, p + [j] + r).Some?
    ensures var cs := At(n, p).value.split.value.children;
            At(Put(n, p, Shrunk(At(n, p).value, i)), p + if |cs| == 2 then r else [if j > i then j - 1 else j] + r)
            == At(n, p + [j] + r)
  {
    var parent := At(n, p).value;
    assert p + [j] + r == p + ([j] + r) && ([j] + r)[1..] == r;
    AtConcat(n, p, [j] + r);
    ShrunkKeepsSiblings(parent, i, j, r);
    AtUnderPut(n, p, Shrunk(parent, i),
               if |parent.split.value.children| == 2 then r else [if j > i then j - 1 else j] + r);
  }

  lemma ApartFromParent(path: Path, q: Path)
    requires path != [] && Apart(path, q)
    ensures if Init(path) < q then q == Init(path) + [q[|path| - 1]] + q[|path|..] && q[|path| - 1] != Last(path)
            else Apart(Init(path), q)
  {
    var p := Init(path);
    assert path == p + [Last(path)];
    if p < q {
      assert q == p + [q[|p|]] + q[|path|..];
    } else {
      assert q <= p ==> q <= path;
    }
  }

  /** Every node outside the removed subtree and off the way to it survives, at its shifted path. */
  lemma RemoveShiftsPaths(n: Node, path: Path, q: Path)
    requires Remove(n, path).fault.None? && At(n, q).Some? && Apart(path, q)
    ensures At(Remove(n, path).tree, Shifted(n, path, q)) == At(n, q)
  {
    var p, i := Init(path), Last(path);
    ApartFromParent(path, q);
    if p < q {
      SiblingShifts(n, p, i, q[|p|], q[|p| + 1..]);
    } else {
      AtBesidePut(n, p, Shrunk(At(n, p).value, i), q);
    }
  }

  /** Setting a widget changes the widget of one pane and keeps its configuration and all else. */
  lemma SetWidgetChangesOnePane(n: Node, path: Path, widgetID: int)
    requires Valid(n) && SetWidget(n, path, widgetID).fault.None?
    ensures var was := At(n, path).value.leaf.value;
            Leaves(n) == LeavesBefore(n, path) + [was] + LeavesAfter(n, path)
            && Leaves(SetWidget(n, path, widgetID).tree)
               == LeavesBefore(n, path) + [Leaf(widgetID, was.config)] + LeavesAfter(n, path)
  {
    ValidAt(n, path);
    LeavesAround(n, path);
    var t := At(n, path).value;
    LeavesOfPut(n, path, t.(leaf := Some(t.leaf.value.(widgetID := widgetID))));
  }

  // ---------- what every operation keeps ----------

  lemma ShrunkIsValid(parent: Node, i: int)
    requires Valid(parent) && HasChild(parent, i)
    ensures Valid(Shrunk(parent, i))
  {
    var cs := parent.split.value.children;
    var rest := cs[..i] + cs[i + 1..];
    forall k | 0 <= k < |rest|
      ensures Valid(rest[k].node)
    {
      assert rest[k] == cs[if k < i then k else k + 1];
    }
  }

  ghost predicate KeepsValid(n: Node, o: Outcome) {
    Valid(o.tree) && (o.fault.Some? ==> o.tree == n)
  }

  lemma SplitKeepsValid(n: Node, path: Path, dir: string)
    requires Valid(n)
    ensures KeepsValid(n, SplitLeaf(n, path, dir))
  {
    if SplitLeaf(n, path, dir).fault.None? {
      ValidAt(n, path);
      ValidPut(n, path, Halves(At(n, path).value, dir));
    }
  }

  lemma RemoveKeepsValid(n: Node, path: Path)
    requires Valid(n)
    ensures KeepsValid(n, Remove(n, path))
  {
    if Remove(n, path).fault.None? {
      var parent := At(n, Init(path)).value;
      ValidAt(n, Init(path));
      ShrunkIsValid(parent, Last(path));
      ValidPut(n, Init(path), Shrunk(parent, Last(path)));
    }
  }

  lemma SetWidgetKeepsValid(n: Node, path: Path, widgetID: int)
    requires Valid(n)
    ensures KeepsValid(n, SetWidget(n, path, widgetID))
  {
    if SetWidget(n, path, widgetID).fault.None? {
      ValidAt(n, path);
      var t := At(n, path).value;
      ValidPut(n, path, t.(leaf := Some(t.leaf.value.(widgetID := widgetID))));
    }
  }

  lemma SetWeightKeepsValid(n: Node, path: Path, weight: real)
    requires Valid(n)
    ensures KeepsValid(n, SetWeight(n, path, weight))
  {
    if SetWeight(n, path, weight).fault.None? {
      ValidAt(n, Init(path));
      ValidPut(n, Init(path), Reweighted(At(n, Init(path)).value, Last(path), weight));
    }
  }
}
