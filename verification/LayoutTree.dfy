/**
 * The split tree as the program holds it: nodes that are overwritten in place through the pointer
 * that at returns (internal/layout/layout.go). Every method is proved to have exactly the effect of
 * its counterpart on values in module Layout.
 */
module LayoutTree {
  import opened Prelude
  import opened Layout

  datatype ChildRef = ChildRef(weight: real, cell: Cell)
  datatype SplitRef = SplitRef(dir: string, children: seq<ChildRef>)
  datatype Contents = Held(split: Option<SplitRef>, leaf: Option<Leaf>)

  /** A Node at its address. */
  class Cell {
    var split: Option<SplitRef>
    var leaf: Option<Leaf>

    ghost function Contents(): Contents
      reads this
    {
      Held(split, leaf)
    }

    constructor (split: Option<SplitRef>, leaf: Option<Leaf>)
      ensures this.split == split && this.leaf == leaf
    {
      this.split, this.leaf := split, leaf;
    }
  }

  /** What a set of cells holds at one moment. */
  type Memory = map<Cell, Contents>

  /** Which cells make up the tree below a cell. */
  datatype Skeleton = Skeleton(cell: Cell, kids: seq<Skeleton>)

  ghost function Cells(k: Skeleton): set<Cell> {
    {k.cell} + set i, c | 0 <= i < |k.kids| && c in Cells(k.kids[i]) :: c
  }

  /** No cell occurs twice. */
  ghost predicate Separate(k: Skeleton) {
    (forall i :: 0 <= i < |k.kids| ==> k.cell !in Cells(k.kids[i]) && Separate(k.kids[i]))
    && (forall i, j :: 0 <= i < |k.kids| && 0 <= j < |k.kids| && i != j ==> Cells(k.kids[i]) !! Cells(k.kids[j]))
  }

  /** The memory links the cells as the skeleton says. */
  ghost predicate Fits(h: Memory, k: Skeleton) {
    k.cell in h
    && var s := h[k.cell].split;
       if s.None? then k.kids == []
       else
         |s.value.children| == |k.kids|
         && forall i :: 0 <= i < |k.kids| ==> s.value.children[i].cell == k.kids[i].cell && Fits(h, k.kids[i])
  }

  /** The tree as a value. */
  ghost function Tree(h: Memory, k: Skeleton): Node
    requires Fits(h, k)
    decreases k, 0
  {
    var v := h[k.cell];
    Node(if v.split.None? then None else Some(Split(v.split.value.dir, Trees(h, v.split.value.children, k.kids))), v.leaf)
  }

  ghost function Trees(h: Memory, cs: seq<ChildRef>, ks: seq<Skeleton>): (trees: seq<Child>)
    requires |cs| == |ks| && forall i :: 0 <= i < |ks| ==> Fits(h, ks[i])
    ensures |trees| == |ks|
    ensures forall i :: 0 <= i < |ks| ==> trees[i] == Child(cs[i].weight, Tree(h, ks[i]))
    decreases ks, 1
  {
    if ks == [] then []
    else [Child(cs[0].weight, Tree(h, ks[0]))] + Trees(h, cs[1..], ks[1..])
  }

  ghost function Below(k: Skeleton, path: Path): Option<Skeleton>
    decreases |path|
  {
    if path == [] then Some(k)
    else if !(0 <= path[0] < |k.kids|) then None
    else Below(k.kids[path[0]], path[1..])
  }

  ghost function Grafted(k: Skeleton, path: Path, m: Skeleton): Skeleton
    requires Below(k, path).Some?
    decreases |path|
  {
    if path == [] then m
    else k.(kids := k.kids[path[0] := Grafted(k.kids[path[0]], path[1..], m)])
  }

  lemma {:induction false} BelowIsAt(h: Memory, k: Skeleton, path: Path)
    requires Fits(h, k) && Separate(k)
    ensures Below(k, path).Some? <==> At(Tree(h, k), path).Some?
    ensures Below(k, path).Some? ==>
              var b := Below(k, path).value;
              Cells(b) <= Cells(k) && Fits(h, b) && Separate(b) && At(Tree(h, k), path) == Some(Tree(h, b))
    decreases |path|
  {
    if path != [] && 0 <= path[0] < |k.kids| {
      BelowIsAt(h, k.kids[path[0]], path[1..]);
    }
  }

  ghost predicate AgreeOn(h: Memory, g: Memory, cs: set<Cell>) {
    forall c :: c in cs ==> c in h && c in g && h[c] == g[c]
  }

  lemma {:induction false} CellsInMemory(h: Memory, k: Skeleton)
    requires Fits(h, k)
    ensures Cells(k) <= h.Keys
  {
    forall i | 0 <= i < |k.kids|
      ensures Cells(k.kids[i]) <= h.Keys
    {
      CellsInMemory(h, k.kids[i]);
    }
  }

  /** A tree depends on its own cells only. */
  lemma {:induction false} TreeFrame(h: Memory, g: Memory, k: Skeleton)
    requires Fits(h, k) && AgreeOn(h, g, Cells(k))
    ensures Fits(g, k) && Tree(g, k) == Tree(h, k)
    decreases k
  {
    assert k.cell in Cells(k);
    forall i | 0 <= i < |k.kids|
      ensures Fits(g, k.kids[i]) && Tree(g, k.kids[i]) == Tree(h, k.kids[i])
    {
      TreeFrame(h, g, k.kids[i]);
    }
    assert Fits(g, k);
    var s := h[k.cell].split;
    if s.Some? {
      assert Trees(g, s.value.children, k.kids) == Trees(h, s.value.children, k.kids);
    }
  }

  lemma KidCells(k: Skeleton, i: nat)
    requires i < |k.kids|
    ensures Cells(k.kids[i]) <= Cells(k)
  {
  }

  lemma KidCell(k: Skeleton, c: Cell) returns (i: nat)
    requires c in Cells(k) && c != k.cell
    ensures i < |k.kids| && c in Cells(k.kids[i])
  {
    i :| 0 <= i < |k.kids| && c in Cells(k.kids[i]);
  }

  /** kid replaces the i-th kid, using none of the other cells of k. */
  ghost predicate MayReplace(k: Skeleton, i: nat, kid: Skeleton) {
    i < |k.kids| && kid.cell == k.kids[i].cell && Separate(k) && Separate(kid) && Cells(kid) * Cells(k) <= Cells(k.kids[i])
  }

  lemma KidApart(k: Skeleton, i: nat, j: nat)
    requires Separate(k) && i < |k.kids| && j < |k.kids| && i != j
    ensures Cells(k.kids[j]) <= Cells(k) - Cells(k.kids[i])
  {
    KidCells(k, j);
    assert Cells(k.kids[j]) !! Cells(k.kids[i]);
  }

  lemma OwnCell(k: Skeleton, i: nat)
    requires Separate(k) && i < |k.kids|
    ensures k.cell in Cells(k) - Cells(k.kids[i])
  {
  }

  lemma RegraftSeparate(k: Skeleton, i: nat, kid: Skeleton)
    requires MayReplace(k, i, kid)
    ensures var t := k.(kids := k.kids[i := kid]); Separate(t) && Cells(t) <= Cells(k) + Cells(kid)
  {
    var t := k.(kids := k.kids[i := kid]);
    assert k.cell in Cells(k) && k.cell !in Cells(k.kids[i]);
    forall j | 0 <= j < |k.kids| && j != i
      ensures Cells(k.kids[j]) !! Cells(kid)
    {
      KidCells(k, j);
    }
    forall c | c in Cells(t)
      ensures c in Cells(k) + Cells(kid)
    {
      if c != k.cell {
        var j := KidCell(t, c);
        if j != i {
          KidCells(k, j);
        }
      }
    }
  }

  lemma OtherKids(h: Memory, g: Memory, k: Skeleton, i: nat)
    requires Fits(h, k) && Separate(k) && i < |k.kids| && AgreeOn(h, g, Cells(k) - Cells(k.kids[i]))
    ensures k.cell in g && g[k.cell] == h[k.cell]
    ensures forall j :: 0 <= j < |k.kids| && j != i ==> Fits(g, k.kids[j]) && Tree(g, k.kids[j]) == Tree(h, k.kids[j])
  {
    OwnCell(k, i);
    forall j | 0 <= j < |k.kids| && j != i
      ensures Fits(g, k.kids[j]) && Tree(g, k.kids[j]) == Tree(h, k.kids[j])
    {
      KidApart(k, i, j);
      TreeFrame(h, g, k.kids[j]);
    }
  }

  /** One step of the frame argument: a kid was replaced below a cell that stayed as it was. */
  lemma Regraft(h: Memory, g: Memory, k: Skeleton, i: nat, kid: Skeleton)
    requires MayReplace(k, i, kid) && Fits(h, k) && Fits(g, kid)
    requires AgreeOn(h, g, Cells(k) - Cells(k.kids[i]))
    ensures var t := k.(kids := k.kids[i := kid]);
            Fits(g, t) && HasChild(Tree(h, k), i) && Tree(g, t) == WithChild(Tree(h, k), i, Tree(g, kid))
  {
    hide Cells, Separate, AgreeOn;
    OtherKids(h, g, k, i);
    var t := k.(kids := k.kids[i := kid]);
    assert Fits(g, t);
    var s := h[k.cell].split.value;
    assert Trees(g, s.children, t.kids)
        == Trees(h, s.children, k.kids)[i := Child(s.children[i].weight, Tree(g, kid))];
  }

  lemma KidTree(h: Memory, k: Skeleton, i: nat)
    requires Fits(h, k) && Separate(k) && i < |k.kids|
    ensures Fits(h, k.kids[i]) && Separate(k.kids[i])
    ensures HasChild(Tree(h, k), i) && Tree(h, k).split.value.children[i].node == Tree(h, k.kids[i])
  {
  }

  lemma BelowKid(h: Memory, k: Skeleton, path: Path)
    requires Fits(h, k) && Separate(k) && path != [] && Below(k, path).Some?
    ensures 0 <= path[0] < |k.kids| && Below(k.kids[path[0]], path[1..]) == Below(k, path)
    ensures var kid := k.kids[path[0]];
            Cells(kid) <= Cells(k) && Cells(Below(k, path).value) <= Cells(kid)
            && Below(k, path).value.cell in Cells(kid) && k.cell !in Cells(kid)
  {
    KidTree(h, k, path[0]);
    KidCells(k, path[0]);
    BelowIsAt(h, k.kids[path[0]], path[1..]);
  }

  lemma SetsBelow(all: set<Cell>, kid: set<Cell>, sub: set<Cell>, m: set<Cell>, grown: set<Cell>)
    requires sub <= kid <= all && m * all <= sub
    ensures m * kid <= sub
    ensures grown <= kid + m ==> grown * all <= kid
  {
  }

  lemma AgreeOnLess(h: Memory, g: Memory, cs: set<Cell>, less: set<Cell>)
    requires AgreeOn(h, g, cs) && less <= cs
    ensures AgreeOn(h, g, less)
  {
  }

  /**
   * The frame argument of every operation: when only the addressed cell of a tree was overwritten,
   * and the cells now below it are ones it had or new ones, the whole tree is the old one with that
   * node put in its place.
   */
  lemma {:induction false} PutInPlace(h: Memory, g: Memory, k: Skeleton, path: Path, m: Skeleton)
    requires Fits(h, k) && Separate(k) && Below(k, path).Some?
    requires m.cell == Below(k, path).value.cell
    requires AgreeOn(h, g, Cells(k) - {m.cell})
    requires Fits(g, m) && Separate(m) && Cells(m) * Cells(k) <= Cells(Below(k, path).value)
    ensures At(Tree(h, k), path).Some?
    ensures var t := Grafted(k, path, m);
            t.cell == k.cell && Fits(g, t) && Separate(t) && Tree(g, t) == Put(Tree(h, k), path, Tree(g, m))
            && Cells(t) <= Cells(k) + Cells(m)
    decreases |path|
  {
    if path != [] {
      hide Cells, Separate, Fits, Tree, Below, AgreeOn;
      var i := path[0];
      BelowKid(h, k, path);
      var kid := k.kids[i];
      KidTree(h, k, i);
      var t := Grafted(kid, path[1..], m);
      SetsBelow(Cells(k), Cells(kid), Cells(Below(k, path).value), Cells(m), Cells(t));
      AgreeOnLess(h, g, Cells(k) - {m.cell}, Cells(kid) - {m.cell});
      AgreeOnLess(h, g, Cells(k) - {m.cell}, Cells(k) - Cells(kid));
      PutInPlace(h, g, kid, path[1..], m);
      RegraftSeparate(k, i, t);
      Regraft(h, g, k, i, t);
    }
  }

  // ---------- the effect of each operation on the cells ----------

  /** The i-th cell on the way down, found without following the whole path. */
  lemma StepDown(h: Memory, at: Skeleton, path: Path, i: nat)
    requires Fits(h, at) && Separate(at) && i < |path|
    ensures at.cell in h
    ensures var s, idx := h[at.cell].split, path[i];
            if s.None? || idx < 0 || idx >= |s.value.children| then Below(at, path[i..]).None?
            else
              idx < |at.kids| && Fits(h, at.kids[idx]) && Separate(at.kids[idx])
              && at.kids[idx].cell == s.value.children[idx].cell
              && Below(at, path[i..]) == Below(at.kids[idx], path[i + 1..])
  {
    assert path[i..][1..] == path[i + 1..];
  }

  ghost function SplitSkeleton(sub: Skeleton, first: Cell, second: Cell): Skeleton {
    Skeleton(sub.cell, [Skeleton(first, sub.kids), Skeleton(second, [])])
  }

  lemma KidsFrame(h: Memory, g: Memory, k: Skeleton)
    requires Fits(h, k) && Separate(k) && AgreeOn(h, g, Cells(k) - {k.cell})
    ensures forall i :: 0 <= i < |k.kids| ==> Fits(g, k.kids[i]) && Tree(g, k.kids[i]) == Tree(h, k.kids[i])
    ensures forall i :: 0 <= i < |k.kids| ==> Cells(k.kids[i]) <= Cells(k) - {k.cell}
  {
    forall i | 0 <= i < |k.kids|
      ensures Fits(g, k.kids[i]) && Tree(g, k.kids[i]) == Tree(h, k.kids[i]) && Cells(k.kids[i]) <= Cells(k) - {k.cell}
    {
      KidCells(k, i);
      TreeFrame(h, g, k.kids[i]);
    }
  }

  lemma SameKidsCells(k: Skeleton, c: Cell)
    requires Separate(k) && c !in Cells(k)
    ensures var m := Skeleton(c, k.kids); Separate(m) && Cells(m) == Cells(k) - {k.cell} + {c}
  {
    var m := Skeleton(c, k.kids);
    forall x | x in Cells(m)
      ensures x in Cells(k) - {k.cell} + {c}
    {
      if x != c {
        var i := KidCell(m, x);
        KidCells(k, i);
      }
    }
    forall x | x in Cells(k) && x != k.cell
      ensures x in Cells(m)
    {
      var i := KidCell(k, x);
      KidCells(m, i);
    }
    forall i | 0 <= i < |m.kids|
      ensures c !in Cells(m.kids[i])
    {
      KidCells(k, i);
    }
  }

  /** A node copied to another cell is the same node. */
  lemma Relocated(h: Memory, g: Memory, k: Skeleton, c: Cell)
    requires Fits(h, k) && Separate(k)
    requires AgreeOn(h, g, Cells(k) - {k.cell}) && c in g && g[c] == h[k.cell]
    ensures Fits(g, Skeleton(c, k.kids)) && Tree(g, Skeleton(c, k.kids)) == Tree(h, k)
  {
    var m := Skeleton(c, k.kids);
    KidsFrame(h, g, k);
    assert Fits(g, m);
    var s := g[c].split;
    if s.Some? {
      assert Trees(g, s.value.children, m.kids) == Trees(h, s.value.children, k.kids);
    }
  }

  lemma TwoKidsCells(c: Cell, a: Skeleton, b: Skeleton)
    requires Separate(a) && Separate(b) && Cells(a) !! Cells(b) && c !in Cells(a) && c !in Cells(b)
    ensures var m := Skeleton(c, [a, b]); Separate(m) && Cells(m) == {c} + Cells(a) + Cells(b)
  {
    var m := Skeleton(c, [a, b]);
    assert m.kids[0] == a && m.kids[1] == b;
    KidCells(m, 0);
    KidCells(m, 1);
    forall x | x in Cells(m) && x != c ensures x in Cells(a) + Cells(b) {
      var i := KidCell(m, x);
    }
    hide Cells;
  }

  lemma TwoKids(g: Memory, c: Cell, dir: string, a: Skeleton, b: Skeleton)
    requires Fits(g, a) && Fits(g, b) && Separate(a) && Separate(b) && Cells(a) !! Cells(b)
    requires c !in Cells(a) && c !in Cells(b) && c in g
    requires g[c] == Held(Some(SplitRef(dir, [ChildRef(1.0, a.cell), ChildRef(1.0, b.cell)])), None)
    ensures var m := Skeleton(c, [a, b]);
            Fits(g, m) && Separate(m) && Cells(m) == {c} + Cells(a) + Cells(b)
            && Tree(g, m) == Divided(dir, [Child(1.0, Tree(g, a)), Child(1.0, Tree(g, b))])
  {
    hide Cells, Separate;
    TwoKidsCells(c, a, b);
    var m := Skeleton(c, [a, b]);
    assert m.kids[0] == a && m.kids[1] == b;
    assert Fits(g, m);
    assert Trees(g, g[c].split.value.children, m.kids) == [Child(1.0, Tree(g, a)), Child(1.0, Tree(g, b))];
  }

  lemma SplitCells(h: Memory, g: Memory, sub: Skeleton, dir: string, first: Cell, second: Cell)
    requires Fits(h, sub) && Separate(sub)
    requires first !in Cells(sub) && second !in Cells(sub) && first != second
    requires AgreeOn(h, g, Cells(sub) - {sub.cell}) && {sub.cell, first, second} <= g.Keys
    requires g[first] == h[sub.cell] && g[second] == Held(None, Some(Leaf(0, "")))
    requires g[sub.cell] == Held(Some(SplitRef(dir, [ChildRef(1.0, first), ChildRef(1.0, second)])), None)
    ensures var m := SplitSkeleton(sub, first, second);
            Fits(g, m) && Separate(m) && Tree(g, m) == Halves(Tree(h, sub), dir)
            && Cells(m) == Cells(sub) + {first, second}
  {
    Relocated(h, g, sub, first);
    SameKidsCells(sub, first);
    var e := Skeleton(second, []);
    assert Fits(g, e) && Cells(e) == {second} && Tree(g, e) == SingleLeaf(0);
    assert sub.cell in Cells(sub);
    TwoKids(g, sub.cell, dir, Skeleton(first, sub.kids), e);
  }

  /** The parent of a removed child: what it then holds, and which cells are then below it. */
  ghost function ShrunkContents(h: Memory, sub: Skeleton, i: nat): Contents
    requires Fits(h, sub) && i < |sub.kids|
  {
    var s := h[sub.cell].split.value;
    var rest := s.children[..i] + s.children[i + 1..];
    if |rest| == 1 && rest[0].cell in h then h[rest[0].cell]
    else Held(Some(s.(children := rest)), h[sub.cell].leaf)
  }

  ghost function ShrunkSkeleton(sub: Skeleton, i: nat): Skeleton
    requires i < |sub.kids|
  {
    var rest := sub.kids[..i] + sub.kids[i + 1..];
    if |rest| == 1 then Skeleton(sub.cell, rest[0].kids) else Skeleton(sub.cell, rest)
  }

  lemma FewerKidsCells(k: Skeleton, i: nat)
    requires Separate(k) && i < |k.kids|
    ensures var m := Skeleton(k.cell, k.kids[..i] + k.kids[i + 1..]); Separate(m) && Cells(m) <= Cells(k)
  {
    var rest := k.kids[..i] + k.kids[i + 1..];
    var m := Skeleton(k.cell, rest);
    assert forall j :: 0 <= j < |rest| ==> rest[j] == k.kids[if j < i then j else j + 1];
    forall x | x in Cells(m)
      ensures x in Cells(k)
    {
      if x != k.cell {
        var j := KidCell(m, x);
        KidCells(k, if j < i then j else j + 1);
      }
    }
  }

  ghost function Without<T>(s: seq<T>, i: nat): (r: seq<T>)
    requires i < |s|
    ensures |r| == |s| - 1 && forall j :: 0 <= j < |r| ==> r[j] == s[if j < i then j else j + 1]
  {
    s[..i] + s[i + 1..]
  }

  lemma FewerKidsTree(h: Memory, g: Memory, sub: Skeleton, i: nat)
    requires Fits(h, sub) && Separate(sub) && i < |sub.kids| && AgreeOn(h, g, Cells(sub) - {sub.cell})
    requires var s := h[sub.cell].split.value;
             sub.cell in g && g[sub.cell] == Held(Some(s.(children := Without(s.children, i))), h[sub.cell].leaf)
    ensures var m := Skeleton(sub.cell, Without(sub.kids, i));
            Fits(g, m)
            && var s := Tree(h, sub).split.value;
               Tree(g, m) == Tree(h, sub).(split := Some(s.(children := Without(s.children, i))))
  {
    hide Cells, Separate, AgreeOn;
    var rest := Without(sub.kids, i);
    var m := Skeleton(sub.cell, rest);
    var refs := h[sub.cell].split.value.children;
    KidsFrame(h, g, sub);
    assert Fits(g, m);
    assert Trees(g, Without(refs, i), rest) == Without(Trees(h, refs, sub.kids), i);
  }

  lemma ShrunkCells(h: Memory, g: Memory, sub: Skeleton, i: nat)
    requires Fits(h, sub) && Separate(sub) && i < |sub.kids|
    requires AgreeOn(h, g, Cells(sub) - {sub.cell}) && sub.cell in g && g[sub.cell] == ShrunkContents(h, sub, i)
    ensures var m := ShrunkSkeleton(sub, i);
            Fits(g, m) && Separate(m) && Cells(m) <= Cells(sub)
            && HasChild(Tree(h, sub), i) && Tree(g, m) == Shrunk(Tree(h, sub), i)
  {
    if |sub.kids| == 2 {
      var kid := sub.kids[1 - i];
      assert (sub.kids[..i] + sub.kids[i + 1..])[0] == kid;
      KidCells(sub, 1 - i);
      assert kid.cell in Cells(kid) && kid.cell in h;
      Relocated(h, g, kid, sub.cell);
      SameKidsCells(kid, sub.cell);
    } else {
      FewerKidsCells(sub, i);
      FewerKidsTree(h, g, sub, i);
    }
  }

  /** The whole effect of SplitLeaf on the cells. */
  lemma SplitEffect(h: Memory, g: Memory, k: Skeleton, path: Path, dir: string, first: Cell, second: Cell)
    requires Fits(h, k) && Separate(k) && Below(k, path).Some?
    requires var target := Below(k, path).value.cell;
             first !in Cells(k) && second !in Cells(k) && first != second
             && AgreeOn(h, g, Cells(k) - {target}) && {target, first, second} <= g.Keys && target in h
             && g[first] == h[target] && g[second] == Held(None, Some(Leaf(0, "")))
             && g[target] == Held(Some(SplitRef(dir, [ChildRef(1.0, first), ChildRef(1.0, second)])), None)
    ensures At(Tree(h, k), path).Some?
    ensures var t := Grafted(k, path, SplitSkeleton(Below(k, path).value, first, second));
            t.cell == k.cell && Fits(g, t) && Separate(t) && Cells(t) <= Cells(k) + {first, second}
            && Tree(g, t) == Put(Tree(h, k), path, Halves(At(Tree(h, k), path).value, dir))
  {
    hide Cells, Separate, Fits, Tree, Below, AgreeOn, At, Put, Grafted;
    var sub := Below(k, path).value;
    BelowIsAt(h, k, path);
    AgreeOnLess(h, g, Cells(k) - {sub.cell}, Cells(sub) - {sub.cell});
    SplitCells(h, g, sub, dir, first, second);
    PutInPlace(h, g, k, path, SplitSkeleton(sub, first, second));
  }

  /** The whole effect of Remove on the cells. */
  lemma RemoveEffect(h: Memory, g: Memory, k: Skeleton, path: Path, i: nat)
    requires Fits(h, k) && Separate(k) && Below(k, path).Some?
    requires var sub := Below(k, path).value;
             Fits(h, sub) && i < |sub.kids| && AgreeOn(h, g, Cells(k) - {sub.cell})
             && sub.cell in g && g[sub.cell] == ShrunkContents(h, sub, i)
    ensures At(Tree(h, k), path).Some? && HasChild(At(Tree(h, k), path).value, i)
    ensures var t := Grafted(k, path, ShrunkSkeleton(Below(k, path).value, i));
            t.cell == k.cell && Fits(g, t) && Separate(t) && Cells(t) <= Cells(k)
            && Tree(g, t) == Put(Tree(h, k), path, Shrunk(At(Tree(h, k), path).value, i))
  {
    var sub := Below(k, path).value;
    BelowIsAt(h, k, path);
    ShrunkCells(h, g, sub, i);
    PutInPlace(h, g, k, path, ShrunkSkeleton(sub, i));
  }

  lemma {:induction false} GraftSame(k: Skeleton, path: Path)
    requires Below(k, path).Some?
    ensures Grafted(k, path, Below(k, path).value) == k
    decreases |path|
  {
    if path != [] {
      GraftSame(k.kids[path[0]], path[1..]);
      assert k.kids[path[0] := k.kids[path[0]]] == k.kids;
    }
  }

  /** The effect of a new widget in a pane. */
  lemma WidgetEffect(h: Memory, g: Memory, k: Skeleton, path: Path, leaf: Leaf)
    requires Fits(h, k) && Separate(k) && Below(k, path).Some?
    requires var c := Below(k, path).value.cell;
             AgreeOn(h, g, Cells(k) - {c}) && c in h && c in g && g[c] == h[c].(leaf := Some(leaf))
    ensures Fits(g, k) && At(Tree(h, k), path).Some?
    ensures Tree(g, k) == Put(Tree(h, k), path, At(Tree(h, k), path).value.(leaf := Some(leaf)))
  {
    var sub := Below(k, path).value;
    BelowIsAt(h, k, path);
    KidsFrame(h, g, sub);
    assert Fits(g, sub);
    if h[sub.cell].split.Some? {
      var cs := h[sub.cell].split.value.children;
      assert Trees(g, cs, sub.kids) == Trees(h, cs, sub.kids);
    }
    PutInPlace(h, g, k, path, sub);
    GraftSame(k, path);
  }

  ghost function Weighed(v: Contents, i: nat, weight: real): Contents
    requires v.split.Some? && i < |v.split.value.children|
  {
    var s := v.split.value;
    v.(split := Some(s.(children := s.children[i := s.children[i].(weight := weight)])))
  }

  lemma WeightCells(h: Memory, g: Memory, sub: Skeleton, i: nat, weight: real)
    requires Fits(h, sub) && Separate(sub) && AgreeOn(h, g, Cells(sub) - {sub.cell}) && sub.cell in g
    requires i < |sub.kids| && g[sub.cell] == Weighed(h[sub.cell], i, weight)
    ensures Fits(g, sub) && HasChild(Tree(h, sub), i) && Tree(g, sub) == Reweighted(Tree(h, sub), i, weight)
  {
    hide Cells, Separate, Below;
    KidsFrame(h, g, sub);
    var was, now := h[sub.cell].split.value.children, g[sub.cell].split.value.children;
    assert forall j :: 0 <= j < |was| ==> now[j].cell == was[j].cell;
    assert Fits(g, sub);
    var ts := Trees(h, was, sub.kids);
    assert Trees(g, now, sub.kids) == ts[i := ts[i].(weight := weight)];
  }

  /** The effect of a new weight of a child. */
  lemma WeightEffect(h: Memory, g: Memory, k: Skeleton, path: Path, i: nat, weight: real)
    requires Fits(h, k) && Separate(k) && Below(k, path).Some?
    requires var sub := Below(k, path).value;
             AgreeOn(h, g, Cells(k) - {sub.cell}) && sub.cell in h && sub.cell in g && Fits(h, sub) && i < |sub.kids|
             && g[sub.cell] == Weighed(h[sub.cell], i, weight)
    ensures Fits(g, k) && At(Tree(h, k), path).Some? && HasChild(At(Tree(h, k), path).value, i)
    ensures Tree(g, k) == Put(Tree(h, k), path, Reweighted(At(Tree(h, k), path).value, i, weight))
  {
    var sub := Below(k, path).value;
    BelowIsAt(h, k, path);
    WeightCells(h, g, sub, i, weight);
    PutInPlace(h, g, k, path, sub);
    GraftSame(k, path);
  }

  lemma RestInMemory(h: Memory, sub: Skeleton, i: nat)
    requires Fits(h, sub) && Separate(sub) && i < |sub.kids|
    ensures var s := h[sub.cell].split.value;
            forall j :: 0 <= j < |s.children| ==> s.children[j].cell in h && s.children[j].cell != sub.cell
  {
    forall j | 0 <= j < |sub.kids|
      ensures sub.kids[j].cell in h && sub.kids[j].cell != sub.cell
    {
      CellsInMemory(h, sub.kids[j]);
      assert sub.kids[j].cell in Cells(sub.kids[j]);
    }
  }

  // ---------- the mutable tree ----------

  ghost function Snapshot(cells: set<Cell>): (h: Memory)
    reads cells
  {
    map c | c in cells :: c.Contents()
  }

  /** A later snapshot of fewer cells shows the same tree. */
  lemma SameSnapshot(g: Memory, t: Skeleton)
    requires Fits(g, t) && forall c :: c in Cells(t) && c in g ==> c.Contents() == g[c]
    ensures Fits(Snapshot(Cells(t)), t) && Tree(Snapshot(Cells(t)), t) == Tree(g, t)
  {
    CellsInMemory(g, t);
    TreeFrame(g, Snapshot(Cells(t)), t);
  }

  // ---------- loading and storing ----------

  /** The first |kids| children of a split, built as separate trees. */
  ghost predicate KidsBuilt(h: Memory, cs: seq<Child>, refs: seq<ChildRef>, kids: seq<Skeleton>) {
    && |refs| == |kids| <= |cs|
    && (forall j :: 0 <= j < |kids| ==>
          && refs[j] == ChildRef(cs[j].weight, kids[j].cell)
          && Separate(kids[j]) && Fits(h, kids[j]) && Tree(h, kids[j]) == cs[j].node)
    && (forall i, j :: 0 <= i < |kids| && 0 <= j < |kids| && i != j ==> Cells(kids[i]) !! Cells(kids[j]))
  }

  lemma KidsStayBuilt(h: Memory, g: Memory, cs: seq<Child>, refs: seq<ChildRef>, kids: seq<Skeleton>)
    requires KidsBuilt(h, cs, refs, kids) && AgreeOn(h, g, h.Keys)
    ensures KidsBuilt(g, cs, refs, kids)
  {
    hide Cells, Separate;
    forall j | 0 <= j < |kids| ensures Fits(g, kids[j]) && Tree(g, kids[j]) == Tree(h, kids[j]) {
      CellsInMemory(h, kids[j]);
      AgreeOnLess(h, g, h.Keys, Cells(kids[j]));
      TreeFrame(h, g, kids[j]);
    }
  }

  lemma OneKidMore(h: Memory, g: Memory, cs: seq<Child>, refs: seq<ChildRef>, kids: seq<Skeleton>, kid: Skeleton)
    requires KidsBuilt(h, cs, refs, kids) && AgreeOn(h, g, h.Keys) && |kids| < |cs|
    requires Separate(kid) && Fits(g, kid) && Tree(g, kid) == cs[|kids|].node && Cells(kid) !! h.Keys
    ensures KidsBuilt(g, cs, refs + [ChildRef(cs[|kids|].weight, kid.cell)], kids + [kid])
  {
    KidsStayBuilt(h, g, cs, refs, kids);
    hide Cells, Separate, Fits, Tree;
    forall j | 0 <= j < |kids| ensures Cells(kids[j]) !! Cells(kid) {
      CellsInMemory(h, kids[j]);
    }
  }

  lemma AllKidsBuilt(h: Memory, g: Memory, n: Node, refs: seq<ChildRef>, kids: seq<Skeleton>, c: Cell)
    requires n.split.Some? && KidsBuilt(h, n.split.value.children, refs, kids)
    requires |kids| == |n.split.value.children|
    requires AgreeOn(h, g, h.Keys) && c !in h && c in g && g[c] == Held(Some(SplitRef(n.split.value.dir, refs)), n.leaf)
    ensures var k := Skeleton(c, kids); Separate(k) && Fits(g, k) && Tree(g, k) == n && Cells(k) <= h.Keys + {c}
  {
    var k := Skeleton(c, kids);
    KidsStayBuilt(h, g, n.split.value.children, refs, kids);
    forall j | 0 <= j < |kids| ensures Cells(kids[j]) <= h.Keys {
      CellsInMemory(h, kids[j]);
    }
    assert Separate(k) && Cells(k) <= h.Keys + {c};
    hide Cells, Separate;
    assert Fits(g, k);
    assert Trees(g, refs, kids) == n.split.value.children;
  }

  /** A node laid out in new cells. */
  method Build(n: Node) returns (c: Cell, ghost k: Skeleton)
    ensures k.cell == c && Separate(k) && fresh(Cells(k))
    ensures Fits(Snapshot(Cells(k)), k) && Tree(Snapshot(Cells(k)), k) == n
    decreases n, 0
  {
    hide Cells, Separate, Fits, Tree, AgreeOn, KidsBuilt, Snapshot;
    if n.split.None? {
      c := new Cell(None, n.leaf);
      k := Skeleton(c, []);
      SingleCell(c);
      return;
    }
    var s := n.split.value;
    var refs, kids, cells := BuildAll(s.children);
    c := new Cell(Some(SplitRef(s.dir, refs)), n.leaf);
    k := Skeleton(c, kids);
    SnapshotsAgree(cells, cells + {c});
    SnapshotAt(cells + {c}, c);
    AllKidsBuilt(Snapshot(cells), Snapshot(cells + {c}), n, refs, kids, c);
    InFewerCells(k, cells + {c});
  }

  method BuildAll(cs: seq<Child>) returns (refs: seq<ChildRef>, ghost kids: seq<Skeleton>, ghost cells: set<Cell>)
    ensures fresh(cells) && |kids| == |cs| && KidsBuilt(Snapshot(cells), cs, refs, kids)
    decreases cs, 1
  {
    hide Cells, Separate, Fits, Tree, AgreeOn, KidsBuilt, Snapshot;
    refs, kids, cells := [], [], {};
    NoKidsBuilt(Snapshot({}), cs);
    for i := 0 to |cs|
      invariant |kids| == i && fresh(cells)
      invariant KidsBuilt(Snapshot(cells), cs, refs, kids)
    {
      assert cs decreases to cs[i];
      var cell, kid := Build(cs[i].node);
      ghost var more := cells + Cells(kid);
      InMoreCells(kid, more);
      SnapshotsAgree(cells, more);
      OneKidMore(Snapshot(cells), Snapshot(more), cs, refs, kids, kid);
      refs := refs + [ChildRef(cs[i].weight, cell)];
      kids, cells := kids + [kid], more;
    }
  }

  lemma SingleCell(c: Cell)
    requires c.split.None?
    ensures var k := Skeleton(c, []);
            && Separate(k) && Cells(k) == {c} && Fits(Snapshot({c}), k)
            && Tree(Snapshot({c}), k) == Node(None, c.leaf)
  {
  }

  lemma NoKidsBuilt(h: Memory, cs: seq<Child>)
    ensures KidsBuilt(h, cs, [], [])
  {
  }

  lemma SnapshotsAgree(cells: set<Cell>, more: set<Cell>)
    requires cells <= more
    ensures AgreeOn(Snapshot(cells), Snapshot(more), Snapshot(cells).Keys) && Snapshot(cells).Keys == cells
  {
  }

  lemma SnapshotAt(cells: set<Cell>, c: Cell)
    requires c in cells
    ensures c in Snapshot(cells) && Snapshot(cells)[c] == Held(c.split, c.leaf)
  {
  }

  lemma InMoreCells(k: Skeleton, more: set<Cell>)
    requires Cells(k) <= more
    ensures Fits(Snapshot(Cells(k)), k) ==>
              Fits(Snapshot(more), k) && Tree(Snapshot(more), k) == Tree(Snapshot(Cells(k)), k)
  {
    if Fits(Snapshot(Cells(k)), k) {
      TreeFrame(Snapshot(Cells(k)), Snapshot(more), k);
    }
  }

  lemma InFewerCells(k: Skeleton, more: set<Cell>)
    requires Cells(k) <= more && Fits(Snapshot(more), k)
    ensures Fits(Snapshot(Cells(k)), k) && Tree(Snapshot(Cells(k)), k) == Tree(Snapshot(more), k)
  {
    TreeFrame(Snapshot(more), Snapshot(Cells(k)), k);
  }

  lemma TreeAtCell(h: Memory, k: Skeleton)
    requires Fits(h, k)
    ensures k.cell in Cells(k) && k.cell in h
    ensures forall i :: 0 <= i < |k.kids| ==> Fits(h, k.kids[i]) && Cells(k.kids[i]) <= Cells(k)
    ensures var v := h[k.cell];
            if v.split.None? then Tree(h, k) == Node(None, v.leaf)
            else
              && |v.split.value.children| == |k.kids|
              && (forall i :: 0 <= i < |k.kids| ==> v.split.value.children[i].cell == k.kids[i].cell)
              && Tree(h, k) == Node(Some(Split(v.split.value.dir, Trees(h, v.split.value.children, k.kids))), v.leaf)
  {
    forall i | 0 <= i < |k.kids| ensures Cells(k.kids[i]) <= Cells(k) {
      KidCells(k, i);
    }
  }

  /** The node that a cell and those below it hold. */
  method Export(c: Cell, ghost k: Skeleton, ghost cells: set<Cell>) returns (n: Node)
    requires k.cell == c && Cells(k) <= cells && Fits(Snapshot(cells), k)
    ensures n == Tree(Snapshot(cells), k)
    decreases k
  {
    hide Cells, Fits, Tree, Trees;
    ghost var h := Snapshot(cells);
    TreeAtCell(h, k);
    if c.split.None? {
      return Node(None, c.leaf);
    }
    var s := c.split.value;
    var children: seq<Child> := [];
    for i := 0 to |s.children|
      invariant |children| == i
      invariant forall j :: 0 <= j < i ==> children[j] == Child(s.children[j].weight, Tree(h, k.kids[j]))
    {
      var node := Export(s.children[i].cell, k.kids[i], cells);
      children := children + [Child(s.children[i].weight, node)];
    }
    assert children == Trees(h, s.children, k.kids);
    return Node(Some(Split(s.dir, children)), c.leaf);
  }

  class LayoutTree {
    const root: Cell
    ghost var skeleton: Skeleton
    ghost var cells: set<Cell>

    ghost predicate Valid()
      reads this, cells
    {
      skeleton.cell == root && cells == Cells(skeleton) && Separate(skeleton) && Fits(Snapshot(cells), skeleton)
    }

    /** What the object stands for. */
    ghost function Value(): Node
      requires Valid()
      reads this, cells
    {
      Tree(Snapshot(cells), skeleton)
    }

    constructor (widgetID: int)
      ensures Valid() && fresh(cells) && Value() == SingleLeaf(widgetID)
    {
      root := new Cell(None, Some(Leaf(widgetID, "")));
      skeleton, cells := Skeleton(root, []), {root};
    }

    /** The tree of a loaded layout. */
    constructor FromNode(n: Node)
      ensures Valid() && fresh(cells) && Value() == n
    {
      hide Cells, Separate, Fits, Tree, Snapshot;
      var c, k := Build(n);
      root, skeleton, cells := c, k, Cells(k);
    }

    /** The value to store. */
    method ToNode() returns (n: Node)
      requires Valid()
      ensures n == Value()
    {
      n := Export(root, skeleton, cells);
    }

    /** A pointer to the addressed node, or null. */
    method Find(path: Path) returns (cur: Cell?)
      requires Valid()
      ensures Valid() && Value() == old(Value())
      ensures cur == null <==> At(Value(), path).None?
      ensures cur != null ==>
                Below(skeleton, path).Some? && cur == Below(skeleton, path).value.cell && cur in cells
                && var n := At(Value(), path).value;
                   cur.leaf == n.leaf && (cur.split.Some? <==> n.split.Some?)
                   && (cur.split.Some? ==> |cur.split.value.children| == |n.split.value.children|)
    {
      BelowIsAt(Snapshot(cells), skeleton, path);
      hide Cells, Separate, Tree, At;
      cur := root;
      ghost var h, at := Snapshot(cells), skeleton;
      var i := 0;
      assert path[0..] == path;
      while i < |path|
        invariant 0 <= i <= |path|
        invariant h == Snapshot(cells) && Fits(h, at) && Separate(at) && cur == at.cell
        invariant Below(skeleton, path) == Below(at, path[i..])
      {
        var idx := path[i];
        StepDown(h, at, path, i);
        if cur.split.None? || idx < 0 || idx >= |cur.split.value.children| {
          return null;
        }
        cur := cur.split.value.children[idx].cell;
        at := at.kids[idx];
        i := i + 1;
      }
    }

    method SplitLeaf(path: Path, dir: string) returns (fault: Option<Fault>)
      requires Valid()
      modifies this, cells
      ensures Valid() && fresh(cells - old(cells))
      ensures Outcome(Value(), fault) == Layout.SplitLeaf(old(Value()), path, dir)
    {
      hide Cells, Separate, Fits, Tree, Put;
      if dir != ROW && dir != COL {
        return Some(BadDirection);
      }
      var target := Find(path);
      if target == null {
        return Some(PathNotFound);
      }
      if target.leaf.None? {
        return Some(NotALeaf);
      }
      Halve(target, path, dir);
      return None;
    }

    /** The overwrite at the end of SplitLeaf. */
    method Halve(target: Cell, ghost path: Path, dir: string)
      requires Valid() && Below(skeleton, path).Some? && target == Below(skeleton, path).value.cell
      requires target in cells
      modifies this, cells
      ensures Valid() && fresh(cells - old(cells))
      ensures At(old(Value()), path).Some?
      ensures Value() == Put(old(Value()), path, Halves(At(old(Value()), path).value, dir))
    {
      hide Cells, Separate, Fits, Tree, Below, Grafted;
      ghost var h, k := Snapshot(cells), skeleton;
      var first := new Cell(target.split, target.leaf);
      var second := new Cell(None, Some(Leaf(0, "")));
      target.split, target.leaf := Some(SplitRef(dir, [ChildRef(1.0, first), ChildRef(1.0, second)])), None;
      ghost var g := Snapshot(cells + {first, second});
      forall c | c in cells && c != target
        ensures h[c] == g[c]
      {
      }
      SplitEffect(h, g, k, path, dir, first, second);
      skeleton := Grafted(k, path, SplitSkeleton(Below(k, path).value, first, second));
      cells := Cells(skeleton);
      SameSnapshot(g, skeleton);
    }

    method Remove(path: Path) returns (fault: Option<Fault>)
      requires Valid()
      modifies this, cells
      ensures Valid() && cells <= old(cells)
      ensures Outcome(Value(), fault) == Layout.Remove(old(Value()), path)
    {
      hide Cells, Separate, Fits, Tree, Put;
      if |path| == 0 {
        return Some(RootStays);
      }
      var parent := Find(path[..|path| - 1]);
      var idx := path[|path| - 1];
      if parent == null || parent.split.None? {
        return Some(ParentNotSplit);
      }
      if idx < 0 || idx >= |parent.split.value.children| {
        return Some(BadChildIndex);
      }
      Shrink(parent, Init(path), idx);
      return None;
    }

    /** The overwrites at the end of Remove. */
    method Shrink(parent: Cell, ghost path: Path, idx: nat)
      requires Valid() && Below(skeleton, path).Some? && parent == Below(skeleton, path).value.cell
      requires parent in cells && parent.split.Some? && idx < |parent.split.value.children|
      modifies this, cells
      ensures Valid() && cells <= old(cells)
      ensures At(old(Value()), path).Some? && HasChild(At(old(Value()), path).value, idx)
      ensures Value() == Put(old(Value()), path, Shrunk(At(old(Value()), path).value, idx))
    {
      hide Cells, Separate, Tree, At, Below, Grafted;
      ghost var h, k := Snapshot(cells), skeleton;
      BelowIsAt(h, k, path);
      ghost var sub := Below(k, path).value;
      RestInMemory(h, sub, idx);
      var ch := parent.split.value.children;
      parent.split := Some(parent.split.value.(children := ch[..idx] + ch[idx + 1..]));
      if |parent.split.value.children| == 1 {
        var rest := parent.split.value.children[0].cell;
        parent.split, parent.leaf := rest.split, rest.leaf;
      }
      ghost var g := Snapshot(cells);
      assert AgreeOn(h, g, cells - {parent});
      RemoveEffect(h, g, k, path, idx);
      skeleton := Grafted(k, path, ShrunkSkeleton(sub, idx));
      cells := Cells(skeleton);
      SameSnapshot(g, skeleton);
    }

    method SetWidget(path: Path, widgetID: int) returns (fault: Option<Fault>)
      requires Valid()
      modifies cells
      ensures Valid()
      ensures Outcome(Value(), fault) == Layout.SetWidget(old(Value()), path, widgetID)
    {
      ghost var h, k := Snapshot(cells), skeleton;
      var t := Find(path);
      if t == null || t.leaf.None? {
        return Some(NotALeaf);
      }
      t.leaf := Some(t.leaf.value.(widgetID := widgetID));
      WidgetEffect(h, Snapshot(cells), k, path, t.leaf.value);
      return None;
    }

    method SetWeight(path: Path, weight: real) returns (fault: Option<Fault>)
      requires Valid()
      modifies cells
      ensures Valid()
      ensures Outcome(Value(), fault) == Layout.SetWeight(old(Value()), path, weight)
    {
      hide Cells, Separate, Tree, Put;
      if |path| == 0 {
        return Some(RootHasNoWeight);
      }
      if weight <= 0.0 {
        return Some(WeightNotPositive);
      }
      ghost var h, k := Snapshot(cells), skeleton;
      var parent := Find(path[..|path| - 1]);
      var idx := path[|path| - 1];
      if parent == null || parent.split.None? || idx < 0 || idx >= |parent.split.value.children| {
        return Some(BadPath);
      }
      var s := parent.split.value;
      parent.split := Some(s.(children := s.children[idx := s.children[idx].(weight := weight)]));
      BelowIsAt(h, k, Init(path));
      WeightEffect(h, Snapshot(cells), k, Init(path), idx, weight);
      return None;
    }
  }
}
