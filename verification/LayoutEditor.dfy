/** The layout editor's paths and requests (internal/server/admin_layout.go). */
module LayoutEditor {
  import opened Prelude
  import opened Text
  import opened Layout
  import Tree = LayoutTree

  // ---------- dotted paths ----------

  /** How buildEditorVM extends the path of a node to its i-th child. */
  function Extend(path: string, i: nat): string {
    if path != "" then path + "." + Itoa(i) else Itoa(i)
  }

  function PathString(path: seq<nat>): string {
    if path == [] then "" else Extend(PathString(path[..|path| - 1]), path[|path| - 1])
  }

  function ParseParts(parts: seq<string>): Option<Path> {
    if parts == [] then Some([])
    else
      var first, rest := Atoi(parts[0]), ParseParts(parts[1..]);
      if first.None? || rest.None? then None else Some([first.value] + rest.value)
  }

  /** What a request's path parameter addresses: a part that is no number makes it address the root. */
  function PathOf(s: string): Path {
    if s == "" then []
    else
      var p := ParseParts(Cut(s, '.'));
      if p.None? then [] else p.value
  }

  function Prefixed(out: Path, rest: Option<Path>): Option<Path> {
    if rest.None? then None else Some(out + rest.value)
  }

  lemma PrefixedOnce(a: Path, b: Path, rest: Option<Path>)
    ensures Prefixed(a + b, rest) == Prefixed(a, Prefixed(b, rest)) && Prefixed([], rest) == rest
  {
    if rest.Some? {
      assert a + b + rest.value == a + (b + rest.value) && [] + rest.value == rest.value;
    }
  }

  method ParsePath(s: string) returns (out: Path)
    ensures out == PathOf(s)
  {
    if s == "" {
      return [];
    }
    var parts := Cut(s, '.');
    out := [];
    var i := 0;
    assert parts[0..] == parts;
    PrefixedOnce([], [], ParseParts(parts));
    while i < |parts|
      invariant 0 <= i <= |parts|
      invariant ParseParts(parts) == Prefixed(out, ParseParts(parts[i..]))
    {
      assert parts[i..][1..] == parts[i + 1..];
      var n := Atoi(parts[i]);
      if n.None? {
        return [];
      }
      PrefixedOnce(out, [n.value], ParseParts(parts[i + 1..]));
      out := out + [n.value];
      i := i + 1;
    }
  }

  lemma {:induction false} ParsePartsConcat(a: seq<string>, b: seq<string>)
    requires ParseParts(a).Some? && ParseParts(b).Some?
    ensures ParseParts(a + b) == Some(ParseParts(a).value + ParseParts(b).value)
  {
    if a == [] {
      assert a + b == b && [] + ParseParts(b).value == ParseParts(b).value;
    } else {
      assert (a + b)[1..] == a[1..] + b;
      ParsePartsConcat(a[1..], b);
      var v := Atoi(a[0]).value;
      assert [v] + ParseParts(a[1..]).value + ParseParts(b).value == [v] + (ParseParts(a[1..]).value + ParseParts(b).value);
    }
  }

  lemma ParseNumber(i: nat)
    requires i <= MAX_INT
    ensures Cut(Itoa(i), '.') == [Itoa(i)] && ParseParts([Itoa(i)]) == Some([i])
  {
    CutWhole(Itoa(i), '.');
    AtoiOfItoa(i);
    assert [Itoa(i)][1..] == [] && ParseParts([]) == Some([]);
    assert [i] + [] == [i];
  }

  /** Parsing a printed path gives the path back; in particular distinct paths print differently. */
  lemma {:induction false} PathRoundTrip(path: seq<nat>)
    requires forall k :: 0 <= k < |path| ==> path[k] <= MAX_INT
    ensures PathOf(PathString(path)) == path
    ensures path != [] ==> PathString(path) != "" && ParseParts(Cut(PathString(path), '.')) == Some(path)
  {
    if path != [] {
      var init, i := path[..|path| - 1], path[|path| - 1];
      PathRoundTrip(init);
      ParseNumber(i);
      var s := PathString(init);
      if init != [] {
        CutConcat(s, Itoa(i), '.');
        assert Extend(s, i) == s + ['.'] + Itoa(i);
        ParsePartsConcat(Cut(s, '.'), [Itoa(i)]);
      }
      assert path == init + [i];
    }
  }

  // ---------- the editor's view of a tree ----------

  datatype EditorChild = EditorChild(weight: real, node: EditorNode)
  datatype EditorNode = EditorNode(path: string, isLeaf: bool, widgetID: int, widgetName: string,
                                   dir: string, children: seq<EditorChild>)

  function BuildEditor(n: Node, path: string, names: map<int, string>): EditorNode
    requires Valid(n)
    decreases n, 0
  {
    if n.leaf.Some? then
      var id := n.leaf.value.widgetID;
      EditorNode(path, true, id, if id != 0 && id in names then names[id] else "", "", [])
    else
      EditorNode(path, false, 0, "", n.split.value.dir, BuildChildren(n.split.value.children, 0, path, names))
  }

  /** The children from the i-th on. */
  function BuildChildren(cs: seq<Child>, i: nat, path: string, names: map<int, string>): seq<EditorChild>
    requires forall k :: 0 <= k < |cs| ==> Valid(cs[k].node)
    decreases cs, 1
  {
    if cs == [] then []
    else
      assert cs decreases to cs[0];
      [EditorChild(cs[0].weight, BuildEditor(cs[0].node, Extend(path, i), names))]
      + BuildChildren(cs[1..], i + 1, path, names)
  }

  lemma {:induction false} ChildBuilt(cs: seq<Child>, i: nat, path: string, names: map<int, string>, k: nat)
    requires (forall j :: 0 <= j < |cs| ==> Valid(cs[j].node)) && k < |cs|
    ensures |BuildChildren(cs, i, path, names)| == |cs|
    ensures BuildChildren(cs, i, path, names)[k]
            == EditorChild(cs[k].weight, BuildEditor(cs[k].node, Extend(path, i + k), names))
    decreases |cs|
  {
    hide BuildEditor, Valid, Extend;
    if |cs| > 1 {
      ChildBuilt(cs[1..], i + 1, path, names, if k > 0 then k - 1 else 0);
    }
  }

  function EditorAt(v: EditorNode, path: Path): Option<EditorNode>
    decreases |path|
  {
    if path == [] then Some(v)
    else if !(0 <= path[0] < |v.children|) then None
    else EditorAt(v.children[path[0]].node, path[1..])
  }

  /** No split holds more children than a Go slice can. */
  predicate Addressable(n: Node) {
    n.split.Some? ==>
      |n.split.value.children| <= MAX_INT
      && forall i :: 0 <= i < |n.split.value.children| ==> Addressable(n.split.value.children[i].node)
  }

  lemma {:induction false} IndicesFit(n: Node, path: Path)
    requires Addressable(n) && At(n, path).Some?
    ensures forall k :: 0 <= k < |path| ==> 0 <= path[k] <= MAX_INT
    decreases |path|
  {
    if path != [] {
      IndicesFit(n.split.value.children[path[0]].node, path[1..]);
      assert forall k :: 1 <= k < |path| ==> path[k] == path[1..][k - 1];
    }
  }

  lemma EditorStep(n: Node, base: seq<nat>, names: map<int, string>, path: seq<nat>)
    requires Valid(n) && path != [] && HasChild(n, path[0])
    ensures EditorAt(BuildEditor(n, PathString(base), names), path)
            == EditorAt(BuildEditor(n.split.value.children[path[0]].node, PathString(base + [path[0]]), names), path[1..])
  {
    var i := path[0];
    ChildBuilt(n.split.value.children, 0, PathString(base), names, i);
    var deeper := base + [i];
    assert deeper[..|deeper| - 1] == base;
    assert PathString(deeper) == Extend(PathString(base), i);
    assert BuildEditor(n, PathString(base), names).children
        == BuildChildren(n.split.value.children, 0, PathString(base), names);
    hide BuildEditor, BuildChildren, PathString, Extend, Valid;
  }

  lemma {:induction false} EditorMirrors(n: Node, base: seq<nat>, names: map<int, string>, path: seq<nat>)
    requires Valid(n) && At(n, path).Some? && Valid(At(n, path).value)
    ensures EditorAt(BuildEditor(n, PathString(base), names), path)
            == Some(BuildEditor(At(n, path).value, PathString(base + path), names))
    decreases |path|
  {
    if path == [] {
      assert base + path == base;
    } else {
      var child := n.split.value.children[path[0]].node;
      assert At(n, path) == At(child, path[1..]);
      assert base + [path[0]] + path[1..] == base + path;
      EditorStep(n, base, names, path);
      EditorMirrors(child, base + [path[0]], names, path[1..]);
    }
  }

  /**
   * The editor and the server agree on addresses: the entry the editor shows at any place of a valid
   * tree carries a path string which, parsed back from a request, leads At to exactly that node.
   */
  lemma EditorPathsLeadBack(n: Node, names: map<int, string>, path: seq<nat>)
    requires Valid(n) && Addressable(n) && At(n, path).Some?
    ensures var v := EditorAt(BuildEditor(n, "", names), path);
            v.Some? && PathOf(v.value.path) == path && At(n, PathOf(v.value.path)) == At(n, path)
            && v.value.isLeaf == At(n, path).value.leaf.Some?
            && (v.value.isLeaf ==> v.value.widgetID == At(n, path).value.leaf.value.widgetID)
  {
    ValidAt(n, path);
    EditorMirrors(n, [], names, path);
    assert [] + path == path;
    IndicesFit(n, path);
    PathRoundTrip(path);
  }

  /** The editor shows a pane with its widget and the widget's name, a split with its direction, weights and children. */
  lemma EditorShowsTheNode(n: Node, path: string, names: map<int, string>)
    requires Valid(n)
    ensures var v := BuildEditor(n, path, names);
            && v.path == path && v.isLeaf == n.leaf.Some?
            && (n.leaf.Some? ==>
                  var id := n.leaf.value.widgetID;
                  && v.widgetID == id && v.dir == "" && v.children == []
                  && v.widgetName == if id != 0 && id in names then names[id] else "")
            && (n.split.Some? ==>
                  && v.widgetID == 0 && v.widgetName == "" && v.dir == n.split.value.dir
                  && |v.children| == |n.split.value.children|
                  && forall i :: 0 <= i < |v.children| ==>
                       v.children[i].weight == n.split.value.children[i].weight)
  {
    if n.split.Some? {
      var cs := n.split.value.children;
      ChildBuilt(cs, 0, path, names, 0);
      forall i | 0 <= i < |cs| ensures BuildChildren(cs, 0, path, names)[i].weight == cs[i].weight {
        ChildBuilt(cs, 0, path, names, i);
      }
    }
  }

  /** Distinct nodes are shown with distinct path strings. */
  lemma EditorPathsAreDistinct(n: Node, names: map<int, string>, p: seq<nat>, q: seq<nat>)
    requires Valid(n) && Addressable(n) && At(n, p).Some? && At(n, q).Some? && p != q
    ensures var v := BuildEditor(n, "", names);
            EditorAt(v, p).Some? && EditorAt(v, q).Some? && EditorAt(v, p).value.path != EditorAt(v, q).value.path
  {
    EditorPathsLeadBack(n, names, p);
    EditorPathsLeadBack(n, names, q);
  }

  // ---------- requests ----------

  /** weights are the parsed numbers of a drag, None where a number did not parse. */
  datatype Request =
    | SplitRequest(path: string, dir: string)
    | RemoveRequest(path: string)
    | WidgetRequest(path: string, widgetID: int)
    | WeightsRequest(path: string, weights: seq<Option<real>>)

  /** The stored JSON: None when it is blank or does not decode. */
  type Stored = Option<Node>

  function Load(stored: Stored): Node {
    if stored.Some? && Validate(stored.value).None? then stored.value else SingleLeaf(0)
  }

  function Weighted(n: Node, path: Path, weights: seq<Option<real>>, i: nat): Node
    requires i <= |weights|
    decreases |weights| - i
  {
    if i == |weights| then n
    else if weights[i].None? || weights[i].value <= 0.0 then Weighted(n, path, weights, i + 1)
    else Weighted(SetWeight(n, path + [i], weights[i].value).tree, path, weights, i + 1)
  }

  function Edited(n: Node, r: Request): Node {
    match r
    case SplitRequest(path, dir) => SplitLeaf(n, PathOf(path), dir).tree
    case RemoveRequest(path) => Remove(n, PathOf(path)).tree
    case WidgetRequest(path, id) => SetWidget(n, PathOf(path), id).tree
    case WeightsRequest(path, ws) => Weighted(n, PathOf(path), ws, 0)
  }

  /** What is stored after a request; a weights request stores without validating. */
  function Handled(stored: Stored, r: Request): Stored {
    var n := Edited(Load(stored), r);
    if !r.WeightsRequest? && Validate(n).Some? then stored else Some(n)
  }

  /** A layout that does not decode or is not valid counts as one empty pane, any other as itself. */
  lemma LoadIs(stored: Stored)
    ensures stored.Some? && Valid(stored.value) ==> Load(stored) == stored.value
    ensures stored.None? || !Valid(stored.value) ==> Load(stored) == Node(None, Some(Leaf(0, "")))
  {
  }

  /** A request sent with the path the editor shows stores the edit of exactly that node. */
  lemma RequestsEditTheShownNode(n: Node, names: map<int, string>, path: seq<nat>, dir: string, widgetID: int,
                                 weights: seq<Option<real>>)
    requires Valid(n) && Addressable(n) && At(n, path).Some?
    ensures var v := EditorAt(BuildEditor(n, "", names), path);
            && v.Some?
            && Handled(Some(n), SplitRequest(v.value.path, dir)) == Some(SplitLeaf(n, path, dir).tree)
            && Handled(Some(n), RemoveRequest(v.value.path)) == Some(Remove(n, path).tree)
            && Handled(Some(n), WidgetRequest(v.value.path, widgetID)) == Some(SetWidget(n, path, widgetID).tree)
            && Handled(Some(n), WeightsRequest(v.value.path, weights)) == Some(Weighted(n, path, weights, 0))
  {
    EditorPathsLeadBack(n, names, path);
    LoadIs(Some(n));
    SplitKeepsValid(n, path, dir);
    RemoveKeepsValid(n, path);
    SetWidgetKeepsValid(n, path, widgetID);
    hide BuildEditor, EditorAt, PathOf, Valid, SplitLeaf, Remove, SetWidget, Weighted;
  }

  function Run(stored: Stored, rs: seq<Request>): Stored
    decreases |rs|
  {
    if rs == [] then stored else Run(Handled(stored, rs[0]), rs[1..])
  }

  lemma {:induction false} WeightedKeepsValid(n: Node, path: Path, ws: seq<Option<real>>, i: nat)
    requires Valid(n) && i <= |ws|
    ensures Valid(Weighted(n, path, ws, i))
    decreases |ws| - i
  {
    if i < |ws| {
      if ws[i].Some? && ws[i].value > 0.0 {
        var o := SetWeight(n, path + [i], ws[i].value);
        SetWeightKeepsValid(n, path + [i], ws[i].value);
        WeightedKeepsValid(o.tree, path, ws, i + 1);
      } else {
        WeightedKeepsValid(n, path, ws, i + 1);
      }
    }
  }

  lemma EditedKeepsValid(n: Node, r: Request)
    requires Valid(n)
    ensures Valid(Edited(n, r))
  {
    match r {
      case SplitRequest(path, dir) =>
        SplitKeepsValid(n, PathOf(path), dir);
      case RemoveRequest(path) =>
        RemoveKeepsValid(n, PathOf(path));
      case WidgetRequest(path, id) =>
        SetWidgetKeepsValid(n, PathOf(path), id);
      case WeightsRequest(path, ws) =>
        WeightedKeepsValid(n, PathOf(path), ws, 0);
    }
  }

  lemma HandledStoresEdit(stored: Stored, r: Request)
    ensures Handled(stored, r) == Some(Edited(Load(stored), r)) && Valid(Handled(stored, r).value)
  {
    EditedKeepsValid(Load(stored), r);
  }

  /**
   * Whatever the database held at first, after any number of requests the stored layout is valid,
   * and no request was ever turned down by the validation in mutateLayout.
   */
  lemma {:induction false} StoredLayoutsAreValid(stored: Stored, rs: seq<Request>)
    requires rs != []
    ensures Run(stored, rs).Some? && Valid(Run(stored, rs).value)
    ensures Run(stored, rs) == Some(Edited(Load(Run(stored, rs[..|rs| - 1])), rs[|rs| - 1]))
    decreases |rs|
  {
    hide Valid, Validate, Edited, Load;
    HandledStoresEdit(stored, rs[0]);
    hide Handled;
    var next := Handled(stored, rs[0]);
    if |rs| == 1 {
      assert rs[1..] == [] && rs[..0] == [];
      assert Run(stored, rs) == next;
    } else {
      StoredLayoutsAreValid(next, rs[1..]);
      assert rs[..|rs| - 1][1..] == rs[1..][..|rs[1..]| - 1];
      assert Run(stored, rs) == Run(next, rs[1..]);
    }
  }

  // ---------- dragged weights ----------

  /** The children after a drag: positive numbers replace weights by position, all else stays. */
  function Dragged(cs: seq<Child>, ws: seq<Option<real>>, from: nat): seq<Child> {
    seq(|cs|, k requires 0 <= k < |cs| =>
      if from <= k < |ws| && ws[k].Some? && ws[k].value > 0.0 then cs[k].(weight := ws[k].value) else cs[k])
  }

  lemma {:induction false} WeightsLandByPosition(n: Node, path: Path, ws: seq<Option<real>>, i: nat)
    requires i <= |ws|
    ensures var parent := At(n, path);
            Weighted(n, path, ws, i) ==
              if parent.None? || parent.value.split.None? then n
              else
                var s := parent.value.split.value;
                Put(n, path, parent.value.(split := Some(s.(children := Dragged(s.children, ws, i)))))
    decreases |ws| - i
  {
    hide At, Put;
    var parent := At(n, path);
    if parent.Some? && parent.value.split.Some? {
      PutSame(n, path);
      var s := parent.value.split.value;
      if i == |ws| {
        assert Dragged(s.children, ws, i) == s.children;
      } else {
        assert Init(path + [i]) == path;
        var n' := if ws[i].None? || ws[i].value <= 0.0 then n else SetWeight(n, path + [i], ws[i].value).tree;
        WeightsLandByPosition(n', path, ws, i + 1);
        if n' == n {
          if i < |s.children| && ws[i].Some? && ws[i].value > 0.0 {
            PutTwice(n, path, Reweighted(parent.value, i, ws[i].value), n);
            assert Dragged(s.children, ws, i)[i].weight == ws[i].value;
            assert At(n, path).value == Reweighted(parent.value, i, ws[i].value);
          }
          assert Dragged(s.children, ws, i) == Dragged(s.children, ws, i + 1);
        } else {
          var p' := Reweighted(parent.value, i, ws[i].value);
          var s' := p'.split.value;
          assert Dragged(s'.children, ws, i + 1) == Dragged(s.children, ws, i);
          PutTwice(n, path, p', p'.(split := Some(s'.(children := Dragged(s'.children, ws, i + 1)))));
        }
      }
    } else if i < |ws| {
      assert Init(path + [i]) == path;
      WeightsLandByPosition(n, path, ws, i + 1);
    }
  }

  /** The loop of handleLayoutWeights, on the tree in place. */
  method ApplyWeights(tree: Tree.LayoutTree, parent: Path, weights: seq<Option<real>>)
    requires tree.Valid()
    modifies tree.cells
    ensures tree.Valid() && tree.Value() == Weighted(old(tree.Value()), parent, weights, 0)
  {
    hide Layout.SetWeight;
    for i := 0 to |weights|
      invariant tree.Valid() && tree.cells == old(tree.cells)
      invariant Weighted(old(tree.Value()), parent, weights, 0) == Weighted(tree.Value(), parent, weights, i)
    {
      if weights[i].None? || weights[i].value <= 0.0 {
        continue;
      }
      var _ := tree.SetWeight(parent + [i], weights[i].value);
    }
  }

  /** The edits of the requests that go through mutateLayout, on the tree in place. */
  method EditInPlace(tree: Tree.LayoutTree, r: Request)
    requires tree.Valid() && !r.WeightsRequest?
    modifies tree, tree.cells
    ensures tree.Valid() && tree.Value() == Edited(old(tree.Value()), r)
  {
    hide Layout.SplitLeaf, Layout.Remove, Layout.SetWidget;
    match r {
      case SplitRequest(path, dir) =>
        var p := ParsePath(path);
        var _ := tree.SplitLeaf(p, dir);
      case RemoveRequest(path) =>
        var p := ParsePath(path);
        var _ := tree.Remove(p);
      case WidgetRequest(path, id) =>
        var p := ParsePath(path);
        var _ := tree.SetWidget(p, id);
    }
  }

  /** The stored layout of one view and the handlers that replace it. */
  class ViewLayout {
    var stored: Stored

    constructor (stored: Stored)
      ensures this.stored == stored
    {
      this.stored := stored;
    }

    /** mutateLayout; turnedDown is its answer "invalid layout", which never comes. */
    method Mutate(r: Request) returns (turnedDown: bool)
      requires !r.WeightsRequest?
      modifies this
      ensures stored == Handled(old(stored), r) && !turnedDown
    {
      HandledStoresEdit(stored, r);
      hide Handled, Edited, Load, Valid;
      var tree := new Tree.LayoutTree.FromNode(Load(stored));
      EditInPlace(tree, r);
      var root := tree.ToNode();
      if Validate(root).Some? {
        return true;
      }
      stored := Some(root);
      return false;
    }

    /** handleLayoutWeights. */
    method DragWeights(path: string, weights: seq<Option<real>>)
      modifies this
      ensures stored == Handled(old(stored), WeightsRequest(path, weights))
    {
      hide Load, PathOf, Weighted, Valid;
      var tree := new Tree.LayoutTree.FromNode(Load(stored));
      var parent := ParsePath(path);
      ApplyWeights(tree, parent, weights);
      var root := tree.ToNode();
      stored := Some(root);
    }
  }

  // ---------- trees grown from one pane ----------

  ghost predicate Binary(n: Node) {
    n.split.Some? ==>
      |n.split.value.children| == 2
      && Binary(n.split.value.children[0].node) && Binary(n.split.value.children[1].node)
  }

  function Splits(n: Node): nat
    decreases n, 0
  {
    if n.split.None? then 0 else 1 + SplitsOf(n.split.value.children)
  }

  function SplitsOf(cs: seq<Child>): nat
    decreases cs, 1
  {
    if cs == [] then 0
    else
      assert cs decreases to cs[0];
      Splits(cs[0].node) + SplitsOf(cs[1..])
  }

  lemma {:induction false} BinaryHasOnePaneMore(n: Node)
    requires Valid(n) && Binary(n)
    ensures |Leaves(n)| == Splits(n) + 1
  {
    if n.split.Some? {
      var cs := n.split.value.children;
      BinaryHasOnePaneMore(cs[0].node);
      BinaryHasOnePaneMore(cs[1].node);
      assert cs[1..] == [cs[1]] && [cs[1]][1..] == [];
      assert LeavesOf(cs[1..]) == Leaves(cs[1].node) + LeavesOf([]);
      assert SplitsOf(cs[1..]) == Splits(cs[1].node) + SplitsOf([]);
    }
  }

  lemma {:induction false} BinaryAt(n: Node, p: Path)
    requires Binary(n) && At(n, p).Some?
    ensures Binary(At(n, p).value)
    decreases |p|
  {
    if p != [] {
      BinaryAt(n.split.value.children[p[0]].node, p[1..]);
    }
  }

  lemma {:induction false} BinaryPut(n: Node, p: Path, m: Node)
    requires Binary(n) && At(n, p).Some? && Binary(m)
    ensures Binary(Put(n, p, m))
    decreases |p|
  {
    if p != [] {
      BinaryPut(n.split.value.children[p[0]].node, p[1..], m);
    }
  }

  lemma {:induction false} WeightedKeepsBinary(n: Node, path: Path, ws: seq<Option<real>>, i: nat)
    requires Binary(n) && i <= |ws|
    ensures Binary(Weighted(n, path, ws, i))
    decreases |ws| - i
  {
    if i < |ws| {
      if ws[i].Some? && ws[i].value > 0.0 {
        var o := SetWeight(n, path + [i], ws[i].value);
        if o.fault.None? {
          BinaryAt(n, Init(path + [i]));
          BinaryPut(n, Init(path + [i]), Reweighted(At(n, Init(path + [i])).value, i, ws[i].value));
        }
        WeightedKeepsBinary(o.tree, path, ws, i + 1);
      } else {
        WeightedKeepsBinary(n, path, ws, i + 1);
      }
    }
  }

  lemma EditedKeepsBinary(n: Node, r: Request)
    requires Valid(n) && Binary(n)
    ensures Binary(Edited(n, r))
  {
    match r {
      case SplitRequest(s, dir) =>
        var path := PathOf(s);
        if SplitLeaf(n, path, dir).fault.None? {
          ValidAt(n, path);
          BinaryPut(n, path, Halves(At(n, path).value, dir));
        }
      case RemoveRequest(s) =>
        var path := PathOf(s);
        if Remove(n, path).fault.None? {
          BinaryAt(n, Init(path));
          BinaryPut(n, Init(path), Shrunk(At(n, Init(path)).value, Last(path)));
        }
      case WidgetRequest(s, id) =>
        var path := PathOf(s);
        if SetWidget(n, path, id).fault.None? {
          ValidAt(n, path);
          var t := At(n, path).value;
          BinaryPut(n, path, t.(leaf := Some(t.leaf.value.(widgetID := id))));
        }
      case WeightsRequest(s, ws) =>
        WeightedKeepsBinary(n, PathOf(s), ws, 0);
    }
  }

  /** A layout grown by requests from the default single pane is strictly binary: one pane more than splits. */
  lemma {:induction false} GrownLayoutsAreBinary(stored: Stored, rs: seq<Request>)
    requires Binary(Load(stored))
    ensures var n := Load(Run(stored, rs)); Valid(n) && Binary(n) && |Leaves(n)| == Splits(n) + 1
    decreases |rs|
  {
    if rs == [] {
      BinaryHasOnePaneMore(Load(stored));
    } else {
      EditedKeepsValid(Load(stored), rs[0]);
      EditedKeepsBinary(Load(stored), rs[0]);
      GrownLayoutsAreBinary(Handled(stored, rs[0]), rs[1..]);
    }
  }
}
