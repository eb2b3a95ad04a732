/** Playlist items as rows with a position, and the order they list in (internal/server/admin_playlists.go). */
module Playlist {
  import opened Prelude

  datatype Item = Item(id: int, playlist: int, view: int, pos: int, dwell: int)
  /** Rows in order of insertion; next is the identifier the table will hand out. */
  datatype Db = Db(rows: seq<Item>, next: int)

  // ---------- the queries ----------

  predicate Before(x: Item, y: Item) {
    x.pos < y.pos || (x.pos == y.pos && x.id < y.id)
  }

  function Place(x: Item, items: seq<Item>): seq<Item> {
    if items == [] || Before(x, items[0]) then [x] + items else [items[0]] + Place(x, items[1..])
  }

  /** The rows of a playlist, ordered by position and then identifier. */
  function List(rows: seq<Item>, playlist: int): seq<Item> {
    if rows == [] then []
    else
      var last, items := rows[|rows| - 1], List(rows[..|rows| - 1], playlist);
      if last.playlist == playlist then Place(last, items) else items
  }

  function Highest(rows: seq<Item>, playlist: int): (max: Option<int>)
    ensures max.None? ==> forall i :: 0 <= i < |rows| ==> rows[i].playlist != playlist
    ensures max.Some? ==> exists i :: 0 <= i < |rows| && rows[i].playlist == playlist && rows[i].pos == max.value
    ensures max.Some? ==> forall i :: 0 <= i < |rows| && rows[i].playlist == playlist ==> rows[i].pos <= max.value
  {
    if rows == [] then None
    else
      var last, max := rows[|rows| - 1], Highest(rows[..|rows| - 1], playlist);
      if last.playlist == playlist && (max.None? || last.pos > max.value) then Some(last.pos) else max
  }

  /** The largest position of the playlist, -1 without items. */
  function MaxPosition(rows: seq<Item>, playlist: int): (max: int)
    ensures forall i :: 0 <= i < |rows| && rows[i].playlist == playlist ==> rows[i].pos <= max
  {
    var max := Highest(rows, playlist);
    if max.None? then -1 else max.value
  }

  function RowOf(rows: seq<Item>, id: int): (row: Option<Item>)
    ensures row.Some? ==> row.value in rows && row.value.id == id
    ensures row.None? ==> forall i :: 0 <= i < |rows| ==> rows[i].id != id
  {
    if rows == [] then None else if rows[0].id == id then Some(rows[0]) else RowOf(rows[1..], id)
  }

  function Without(rows: seq<Item>, id: int): seq<Item> {
    if rows == [] then [] else (if rows[0].id == id then [] else [rows[0]]) + Without(rows[1..], id)
  }

  function SetPosition(rows: seq<Item>, id: int, pos: int): (r: seq<Item>)
    ensures |r| == |rows|
    ensures forall i :: 0 <= i < |rows| ==> r[i] == if rows[i].id == id then rows[i].(pos := pos) else rows[i]
  {
    seq(|rows|, i requires 0 <= i < |rows| => if rows[i].id == id then rows[i].(pos := pos) else rows[i])
  }

  // ---------- the handlers ----------

  datatype Event = Add(playlist: int, view: int, dwell: int) | Delete(id: int) | Move(id: int, dir: string)

  function IndexIn(items: seq<Item>, id: int): (idx: int)
    ensures -1 <= idx < |items|
    ensures idx >= 0 ==> items[idx].id == id && forall i :: 0 <= i < idx ==> items[i].id != id
    ensures idx == -1 ==> forall i :: 0 <= i < |items| ==> items[i].id != id
  {
    if items == [] then -1
    else if items[0].id == id then 0
    else var rest := IndexIn(items[1..], id); if rest == -1 then -1 else rest + 1
  }

  /** The index to exchange with, -1 for none. */
  function Neighbour(idx: int, length: nat, dir: string): (swap: int)
    requires -1 <= idx < length
    ensures -1 <= swap < length
    ensures swap >= 0 <==> (dir == "up" && idx > 0) || (dir == "down" && 0 <= idx < length - 1)
    ensures swap >= 0 ==> swap == if dir == "up" then idx - 1 else idx + 1
  {
    if dir == "up" then (if idx > 0 then idx - 1 else -1)
    else if dir == "down" then (if 0 <= idx < length - 1 then idx + 1 else -1)
    else -1
  }

  function Exchanged(rows: seq<Item>, a: Item, b: Item): seq<Item> {
    SetPosition(SetPosition(rows, a.id, b.pos), b.id, a.pos)
  }

  function Moved(rows: seq<Item>, id: int, dir: string): seq<Item> {
    var item := RowOf(rows, id);
    if item.None? then rows
    else
      var items := List(rows, item.value.playlist);
      var idx := IndexIn(items, id);
      var swap := Neighbour(idx, |items|, dir);
      if swap >= 0 then Exchanged(rows, items[idx], items[swap]) else rows
  }

  function Step(db: Db, e: Event): Db {
    match e
    case Add(playlist, view, dwell) =>
      Db(db.rows + [Item(db.next, playlist, view, MaxPosition(db.rows, playlist) + 1, dwell)], db.next + 1)
    case Delete(id) => db.(rows := Without(db.rows, id))
    case Move(id, dir) => db.(rows := Moved(db.rows, id, dir))
  }

  class PlaylistTable {
    var rows: seq<Item>
    var next: int

    function Contents(): Db
      reads this
    {
      Db(rows, next)
    }

    method AddItem(playlist: int, view: int, dwell: Option<int>)
      modifies this
      ensures Contents() == Step(old(Contents()), Add(playlist, view,
                                 if dwell.Some? && dwell.value > 0 then dwell.value else 0))
    {
      var secs := 0;
      if dwell.Some? && dwell.value > 0 {
        secs := dwell.value;
      }
      var maxPos := MaxPosition(rows, playlist);
      rows := rows + [Item(next, playlist, view, maxPos + 1, secs)];
      next := next + 1;
    }

    method DeleteItem(id: int) returns (found: bool)
      modifies this
      ensures Contents() == Step(old(Contents()), Delete(id))
      ensures found == old(RowOf(rows, id)).Some?
    {
      var item := RowOf(rows, id);
      if item.None? {
        NothingToDelete(rows, id);
        return false;
      }
      rows := Without(rows, id);
      return true;
    }

    method MoveItem(id: int, dir: string) returns (found: bool)
      modifies this
      ensures Contents() == Step(old(Contents()), Move(id, dir))
      ensures found == old(RowOf(rows, id)).Some?
    {
      hide List, RowOf, IndexIn;
      var item := RowOf(rows, id);
      if item.None? {
        return false;
      }
      var items := List(rows, item.value.playlist);
      var idx := -1;
      for i := 0 to |items|
        invariant idx == -1 && forall j :: 0 <= j < i ==> items[j].id != id
      {
        if items[i].id == id {
          idx := i;
          break;
        }
      }
      assert idx == IndexIn(items, id);
      var swap := -1;
      if dir == "up" {
        if idx > 0 {
          swap := idx - 1;
        }
      } else if dir == "down" {
        if idx >= 0 && idx < |items| - 1 {
          swap := idx + 1;
        }
      }
      if swap >= 0 {
        var a, b := items[idx], items[swap];
        rows := SetPosition(rows, a.id, b.pos);
        rows := SetPosition(rows, b.id, a.pos);
      }
      return true;
    }
  }

  lemma {:induction false} NothingToDelete(rows: seq<Item>, id: int)
    requires forall i :: 0 <= i < |rows| ==> rows[i].id != id
    ensures Without(rows, id) == rows
  {
    if rows != [] {
      NothingToDelete(rows[1..], id);
    }
  }

  // ---------- the listing ----------

  ghost predicate Ascending(items: seq<Item>) {
    forall i, j :: 0 <= i < j < |items| ==> Before(items[i], items[j])
  }

  ghost predicate Distinct(rows: seq<Item>) {
    forall i, j :: 0 <= i < j < |rows| ==> rows[i].id != rows[j].id
  }

  /** Exactly the playlist's rows, each before the next. */
  ghost predicate Lists(items: seq<Item>, rows: seq<Item>, playlist: int) {
    Ascending(items) && forall x :: x in items <==> x in rows && x.playlist == playlist
  }

  lemma {:induction false} PlaceKeeps(x: Item, items: seq<Item>)
    requires Ascending(items) && forall i :: 0 <= i < |items| ==> items[i].id != x.id
    ensures Ascending(Place(x, items))
    ensures forall y :: y in Place(x, items) <==> y == x || y in items
  {
    var r := Place(x, items);
    if items != [] && !Before(x, items[0]) {
      PlaceKeeps(x, items[1..]);
      forall i | 1 <= i < |r| ensures Before(items[0], r[i]) {
        assert r[i] in Place(x, items[1..]);
      }
      assert items == [items[0]] + items[1..];
    }
  }

  lemma {:induction false} ListLists(rows: seq<Item>, playlist: int)
    requires Distinct(rows)
    ensures Lists(List(rows, playlist), rows, playlist)
  {
    if rows != [] {
      var init, last := rows[..|rows| - 1], rows[|rows| - 1];
      ListLists(init, playlist);
      var items := List(init, playlist);
      assert rows == init + [last];
      forall i | 0 <= i < |items| ensures items[i].id != last.id {
        assert items[i] in init;
      }
      if last.playlist == playlist {
        PlaceKeeps(last, items);
      }
    }
  }

  lemma FirstIsMember(items: seq<Item>)
    requires items != []
    ensures items[0] in items
  {
  }

  lemma {:induction false} ListingIsUnique(a: seq<Item>, b: seq<Item>)
    requires Ascending(a) && Ascending(b) && forall x :: x in a <==> x in b
    ensures a == b
  {
    if a == [] {
      if b != [] {
        FirstIsMember(b);
        assert false;
      }
    } else {
      assert a[0] in b && b != [];
      assert b[0] in a;
      assert a[0] == b[0];
      forall x ensures x in a[1..] <==> x in b[1..] {
        assert x in a <==> x == a[0] || x in a[1..];
        assert x in b <==> x == b[0] || x in b[1..];
      }
      ListingIsUnique(a[1..], b[1..]);
    }
  }

  lemma ListIs(items: seq<Item>, rows: seq<Item>, playlist: int)
    requires Distinct(rows) && Lists(items, rows, playlist)
    ensures List(rows, playlist) == items
  {
    ListLists(rows, playlist);
    ListingIsUnique(List(rows, playlist), items);
  }

  // ---------- what each request does to the order ----------

  ghost predicate Ordered(rows: seq<Item>) {
    forall i, j :: 0 <= i < j < |rows| ==> rows[i].id < rows[j].id
  }

  ghost predicate Apart(rows: seq<Item>) {
    forall x, y :: x in rows && y in rows && x.playlist == y.playlist && x.pos == y.pos ==> x == y
  }

  /** What every run keeps: identifiers in order of insertion, positions apart within a playlist. */
  ghost predicate Valid(db: Db) {
    Ordered(db.rows) && Apart(db.rows) && forall x :: x in db.rows ==> x.id < db.next
  }

  lemma AddKeepsValid(db: Db, playlist: int, view: int, dwell: int)
    requires Valid(db)
    ensures Valid(Step(db, Add(playlist, view, dwell)))
  {
    var rows := Step(db, Add(playlist, view, dwell)).rows;
    var item := rows[|db.rows|];
    forall i, j | 0 <= i < j < |rows| ensures rows[i].id < rows[j].id {
      assert rows[i] in db.rows;
    }
    forall x | x in db.rows && x.playlist == playlist ensures x.pos < item.pos {
      var i :| 0 <= i < |db.rows| && db.rows[i] == x;
    }
  }

  lemma AddListsLast(rows: seq<Item>, item: Item)
    requires Distinct(rows + [item]) && forall x :: x in rows && x.playlist == item.playlist ==> x.pos < item.pos
    ensures List(rows + [item], item.playlist) == List(rows, item.playlist) + [item]
  {
    hide List;
    var items := List(rows, item.playlist);
    assert Distinct(rows) by { DistinctPrefix(rows, item); }
    ListLists(rows, item.playlist);
    forall i | 0 <= i < |items| ensures Before(items[i], item) {
      assert items[i] in rows;
    }
    ListIs(items + [item], rows + [item], item.playlist);
  }

  lemma AddLeavesOthers(rows: seq<Item>, item: Item, other: int)
    requires Distinct(rows + [item]) && other != item.playlist
    ensures List(rows + [item], other) == List(rows, other)
  {
    hide List;
    assert Distinct(rows) by { DistinctPrefix(rows, item); }
    ListLists(rows, other);
    ListIs(List(rows, other), rows + [item], other);
  }

  lemma DistinctPrefix(rows: seq<Item>, item: Item)
    requires Distinct(rows + [item])
    ensures Distinct(rows)
  {
    forall i, j | 0 <= i < j < |rows| ensures rows[i].id != rows[j].id {
      assert (rows + [item])[i].id != (rows + [item])[j].id;
    }
  }

  lemma AddedPosition(rows: seq<Item>, playlist: int)
    ensures (forall x :: x in rows ==> x.playlist != playlist) ==> MaxPosition(rows, playlist) == -1
    ensures (exists x :: x in rows && x.playlist == playlist) ==>
              exists x :: x in rows && x.playlist == playlist && MaxPosition(rows, playlist) == x.pos
  {
    var max := Highest(rows, playlist);
    if max.Some? {
      var i :| 0 <= i < |rows| && rows[i].playlist == playlist && rows[i].pos == max.value;
      assert rows[i] in rows;
    }
  }

  lemma BelowMaxPosition(rows: seq<Item>, playlist: int)
    ensures forall x :: x in rows && x.playlist == playlist ==> x.pos <= MaxPosition(rows, playlist)
  {
  }

  lemma AddAppendsLast(db: Db, playlist: int, view: int, dwell: int, other: int)
    requires Valid(db)
    ensures var after := Step(db, Add(playlist, view, dwell));
            && Valid(after)
            && List(after.rows, other) == List(db.rows, other)
               + if other == playlist then [after.rows[|db.rows|]] else []
    ensures var item := Step(db, Add(playlist, view, dwell)).rows[|db.rows|];
            && item.id == db.next && item.playlist == playlist && item.view == view && item.dwell == dwell
            && ((forall x :: x in db.rows ==> x.playlist != playlist) ==> item.pos == 0)
            && ((exists x :: x in db.rows && x.playlist == playlist) ==>
                  exists x :: x in db.rows && x.playlist == playlist && item.pos == x.pos + 1)
  {
    AddedPosition(db.rows, playlist);
    AddKeepsValid(db, playlist, view, dwell);
    BelowMaxPosition(db.rows, playlist);
    hide Apart, MaxPosition, List;
    var item := Step(db, Add(playlist, view, dwell)).rows[|db.rows|];
    if other == playlist {
      AddListsLast(db.rows, item);
    } else {
      AddLeavesOthers(db.rows, item, other);
      assert List(db.rows, other) + [] == List(db.rows, other);
    }
  }

  lemma {:induction false} WithoutIs(rows: seq<Item>, id: int)
    ensures forall x :: x in Without(rows, id) <==> x in rows && x.id != id
  {
    if rows != [] {
      WithoutIs(rows[1..], id);
      assert rows == [rows[0]] + rows[1..];
    }
  }

  lemma {:induction false} WithoutKeepsOrder(rows: seq<Item>, id: int)
    requires Ordered(rows)
    ensures Ordered(Without(rows, id))
  {
    if rows != [] {
      WithoutKeepsOrder(rows[1..], id);
      WithoutIs(rows[1..], id);
      var r := Without(rows[1..], id);
      forall i | 0 <= i < |r| ensures rows[0].id < r[i].id {
        assert r[i] in rows[1..];
      }
    }
  }

  lemma {:induction false} WithoutKeepsAscending(items: seq<Item>, id: int)
    requires Ascending(items)
    ensures Ascending(Without(items, id))
  {
    if items != [] {
      WithoutKeepsAscending(items[1..], id);
      WithoutIs(items[1..], id);
      var r := Without(items[1..], id);
      forall i | 0 <= i < |r| ensures Before(items[0], r[i]) {
        assert r[i] in items[1..];
      }
    }
  }

  lemma DeleteTakesOneOut(db: Db, id: int, playlist: int)
    requires Valid(db)
    ensures var after := Step(db, Delete(id));
            Valid(after) && List(after.rows, playlist) == Without(List(db.rows, playlist), id)
  {
    var rows, items := Without(db.rows, id), List(db.rows, playlist);
    WithoutKeepsOrder(db.rows, id);
    WithoutIs(db.rows, id);
    assert Apart(rows);
    hide Apart, Without, List;
    ListLists(db.rows, playlist);
    WithoutKeepsAscending(items, id);
    WithoutIs(items, id);
    ListIs(Without(items, id), rows, playlist);
  }

  /** items with the entries at i and j exchanged, each taking over the other's position. */
  function Transposed(items: seq<Item>, i: int, j: int): (t: seq<Item>)
    requires 0 <= i < |items| && 0 <= j < |items|
    ensures |t| == |items| && forall k :: 0 <= k < |t| ==> t[k].pos == items[k].pos
  {
    items[i := items[j].(pos := items[i].pos)][j := items[i].(pos := items[j].pos)]
  }

  lemma SetPositionMembers(rows: seq<Item>, a: Item, pos: int)
    requires Ordered(rows) && a in rows
    ensures var r := SetPosition(rows, a.id, pos);
            Ordered(r) && forall x :: x in r <==> if x.id == a.id then x == a.(pos := pos) else x in rows
  {
    var r := SetPosition(rows, a.id, pos);
    var i :| 0 <= i < |rows| && rows[i] == a;
    assert r[i] == a.(pos := pos);
    forall x | x in rows && x.id != a.id ensures x in r {
      var k :| 0 <= k < |rows| && rows[k] == x;
      assert r[k] == x;
    }
  }

  lemma ExchangedMembers(rows: seq<Item>, a: Item, b: Item)
    requires Ordered(rows) && a in rows && b in rows && a.id != b.id
    ensures var r := Exchanged(rows, a, b);
            Ordered(r) && forall x :: x in r <==>
              if x.id == a.id then x == a.(pos := b.pos) else if x.id == b.id then x == b.(pos := a.pos) else x in rows
  {
    hide Ordered;
    SetPositionMembers(rows, a, b.pos);
    SetPositionMembers(SetPosition(rows, a.id, b.pos), b, a.pos);
  }

  lemma ExchangeKeepsValid(db: Db, a: Item, b: Item)
    requires Valid(db) && a in db.rows && b in db.rows && a.playlist == b.playlist && a.id != b.id
    ensures Valid(db.(rows := Exchanged(db.rows, a, b)))
  {
    ExchangedMembers(db.rows, a, b);
    hide Ordered, Exchanged;
    var r := Exchanged(db.rows, a, b);
    forall x, y | x in r && y in r && x.playlist == y.playlist && x.pos == y.pos ensures x == y {
      assert a.pos != b.pos;
      assert x.id != a.id && x.id != b.id ==> x in db.rows;
      assert y.id != a.id && y.id != b.id ==> y in db.rows;
    }
  }

  lemma {:induction false} TransposedMembers(items: seq<Item>, i: int, j: int)
    requires 0 <= i < |items| && 0 <= j < |items| && i != j && Distinct(items)
    ensures forall x :: x in Transposed(items, i, j) <==>
            if x.id == items[i].id then x == items[i].(pos := items[j].pos)
            else if x.id == items[j].id then x == items[j].(pos := items[i].pos) else x in items
  {
    var t := Transposed(items, i, j);
    assert t[j] == items[i].(pos := items[j].pos) && t[i] == items[j].(pos := items[i].pos);
    forall x | x in items && x.id != items[i].id && x.id != items[j].id ensures x in t {
      var k :| 0 <= k < |items| && items[k] == x;
      assert t[k] == x;
    }
  }

  /** With positions apart, a listing ascends in position alone and names each row once. */
  lemma ListingAscends(db: Db, playlist: int)
    requires Valid(db)
    ensures var items := List(db.rows, playlist);
            && Lists(items, db.rows, playlist)
            && (forall i, j :: 0 <= i < j < |items| ==> items[i].pos < items[j].pos && items[i].id != items[j].id)
  {
    ListLists(db.rows, playlist);
    var items := List(db.rows, playlist);
    forall i, j | 0 <= i < j < |items| ensures items[i].pos < items[j].pos && items[i].id != items[j].id {
      assert items[i] in db.rows && items[j] in db.rows;
      assert Before(items[i], items[j]);
    }
  }

  lemma OnlyRow(db: Db, x: Item)
    requires Valid(db) && x in db.rows
    ensures forall y :: y in db.rows && y.id == x.id ==> y == x
  {
    hide Apart;
    forall y | y in db.rows && y.id == x.id ensures y == x {
      var i :| 0 <= i < |db.rows| && db.rows[i] == x;
      var j :| 0 <= j < |db.rows| && db.rows[j] == y;
    }
  }

  lemma ExchangeTransposesThis(db: Db, playlist: int, i: int, j: int)
    requires Valid(db)
    requires 0 <= i < |List(db.rows, playlist)| && 0 <= j < |List(db.rows, playlist)| && i != j
    ensures var items := List(db.rows, playlist);
            List(Exchanged(db.rows, items[i], items[j]), playlist) == Transposed(items, i, j)
  {
    hide List, Transposed, Exchanged, Apart;
    ListingAscends(db, playlist);
    var items := List(db.rows, playlist);
    var a, b := items[i], items[j];
    ExchangedMembers(db.rows, a, b);
    TransposedMembers(items, i, j);
    ListIs(Transposed(items, i, j), Exchanged(db.rows, a, b), playlist);
  }

  lemma ExchangeLeavesOthers(db: Db, a: Item, b: Item, other: int)
    requires Valid(db) && a in db.rows && b in db.rows && a.id != b.id && a.playlist == b.playlist != other
    ensures List(Exchanged(db.rows, a, b), other) == List(db.rows, other)
  {
    hide List, Exchanged, Apart;
    ExchangedMembers(db.rows, a, b);
    ListLists(db.rows, other);
    OnlyRow(db, a);
    OnlyRow(db, b);
    ListIs(List(db.rows, other), Exchanged(db.rows, a, b), other);
  }

  /** Exchanging two positions transposes the listing; other playlists list as before. */
  lemma ExchangeTransposes(db: Db, playlist: int, i: int, j: int, other: int)
    requires Valid(db)
    requires 0 <= i < |List(db.rows, playlist)| && 0 <= j < |List(db.rows, playlist)| && i != j
    ensures var items := List(db.rows, playlist);
            var after := db.(rows := Exchanged(db.rows, items[i], items[j]));
            && Valid(after)
            && List(after.rows, other) == if other == playlist then Transposed(items, i, j) else List(db.rows, other)
  {
    ListingAscends(db, playlist);
    hide List, Transposed, Exchanged, Valid, Ascending;
    var items := List(db.rows, playlist);
    var a, b := items[i], items[j];
    assert a in db.rows && b in db.rows && a.playlist == b.playlist == playlist;
    ExchangeKeepsValid(db, a, b);
    if other == playlist {
      ExchangeTransposesThis(db, playlist, i, j);
    } else {
      ExchangeLeavesOthers(db, a, b, other);
    }
  }

  // ---------- moving ----------

  lemma RowIsListed(db: Db, x: Item)
    requires Valid(db) && x in db.rows
    ensures RowOf(db.rows, x.id) == Some(x)
    ensures var items := List(db.rows, x.playlist); var idx := IndexIn(items, x.id); idx >= 0 && items[idx] == x
  {
    OnlyRow(db, x);
    ListingAscends(db, x.playlist);
    hide List, Apart, Ordered, RowOf, IndexIn, Valid;
    var items := List(db.rows, x.playlist);
    var k :| 0 <= k < |items| && items[k] == x;
    var idx := IndexIn(items, x.id);
    assert idx >= 0 && items[idx] in items;
    RowIsFound(db.rows, x);
  }

  lemma RowIsFound(rows: seq<Item>, x: Item)
    requires x in rows
    ensures RowOf(rows, x.id).Some?
  {
    hide RowOf;
    var k :| 0 <= k < |rows| && rows[k] == x;
  }

  /** A move exchanges the row with its neighbour in the listing, or does nothing at the end of it. */
  lemma MoveIsAdjacentTransposition(db: Db, x: Item, dir: string, other: int)
    requires Valid(db) && x in db.rows
    ensures var after := Step(db, Move(x.id, dir));
            var items := List(db.rows, x.playlist);
            var idx := IndexIn(items, x.id);
            var swap := Neighbour(idx, |items|, dir);
            && Valid(after) && idx >= 0 && items[idx] == x
            && List(after.rows, other) == if swap >= 0 && other == x.playlist then Transposed(items, idx, swap)
                                          else List(db.rows, other)
  {
    hide List, Exchanged, Valid;
    RowIsListed(db, x);
    var items := List(db.rows, x.playlist);
    var idx := IndexIn(items, x.id);
    var swap := Neighbour(idx, |items|, dir);
    if swap >= 0 {
      ExchangeTransposes(db, x.playlist, idx, swap, other);
    }
  }

  function Opposite(dir: string): string {
    if dir == "up" then "down" else "up"
  }

  lemma ExchangeTwice(rows: seq<Item>, a: Item, b: Item)
    requires Ordered(rows) && a in rows && b in rows && a.id != b.id
    ensures Exchanged(Exchanged(rows, a, b), a.(pos := b.pos), b.(pos := a.pos)) == rows
  {
    var i :| 0 <= i < |rows| && rows[i] == a;
    var j :| 0 <= j < |rows| && rows[j] == b;
    var r := Exchanged(rows, a, b);
    forall k | 0 <= k < |rows| ensures rows[k].id == a.id ==> k == i {}
    forall k | 0 <= k < |rows| ensures rows[k].id == b.id ==> k == j {}
    assert Exchanged(r, a.(pos := b.pos), b.(pos := a.pos)) == rows;
  }

  /** The row after its move, and where it is then listed. */
  lemma MovedRow(db: Db, x: Item, b: Item, dir: string) returns (x': Item)
    requires Valid(db) && x in db.rows
    requires var items := List(db.rows, x.playlist);
             var swap := Neighbour(IndexIn(items, x.id), |items|, dir);
             swap >= 0 && items[swap] == b
    ensures b in db.rows && b.id != x.id
    ensures x' == x.(pos := b.pos) && x' in Step(db, Move(x.id, dir)).rows
    ensures var items := List(db.rows, x.playlist);
            IndexIn(List(Step(db, Move(x.id, dir)).rows, x.playlist), x.id) == Neighbour(IndexIn(items, x.id), |items|, dir)
  {
    hide List, Exchanged, Apart, Ordered;
    var items := List(db.rows, x.playlist);
    var idx := IndexIn(items, x.id);
    var swap := Neighbour(idx, |items|, dir);
    RowIsListed(db, x);
    ListingAscends(db, x.playlist);
    MoveIsAdjacentTransposition(db, x, dir, x.playlist);
    ExchangedMembers(db.rows, x, b);
    x' := x.(pos := b.pos);
    var after := Step(db, Move(x.id, dir));
    ListingAscends(after, x.playlist);
    assert List(after.rows, x.playlist)[swap] == x';
  }

  /** Moving back restores the whole table, unless the first move had nowhere to go. */
  lemma MoveIsUndone(db: Db, x: Item, dir: string)
    requires Valid(db) && x in db.rows
    ensures var after := Step(db, Move(x.id, dir));
            after != db ==> Step(after, Move(x.id, Opposite(dir))) == db
  {
    hide List, Exchanged, Apart, Ordered;
    var after := Step(db, Move(x.id, dir));
    RowIsListed(db, x);
    var items := List(db.rows, x.playlist);
    var idx := IndexIn(items, x.id);
    var swap := Neighbour(idx, |items|, dir);
    if swap >= 0 {
      var b := items[swap];
      var x' := MovedRow(db, x, b, dir);
      MoveIsAdjacentTransposition(db, x, dir, x.playlist);
      RowIsListed(after, x');
      assert List(after.rows, x.playlist)[idx] == b.(pos := x.pos);
      ExchangeTwice(db.rows, x, b);
    }
  }

  // ---------- every run, against a plain list of identifiers ----------

  function Run(db: Db, trace: seq<Event>): Db
    decreases |trace|
  {
    if trace == [] then db else Step(Run(db, trace[..|trace| - 1]), trace[|trace| - 1])
  }

  function Ids(items: seq<Item>): (ids: seq<int>)
    ensures |ids| == |items| && forall i :: 0 <= i < |items| ==> ids[i] == items[i].id
  {
    seq(|items|, i requires 0 <= i < |items| => items[i].id)
  }

  function Remove(ids: seq<int>, id: int): seq<int> {
    if ids == [] then [] else (if ids[0] == id then [] else [ids[0]]) + Remove(ids[1..], id)
  }

  function PositionOf(ids: seq<int>, id: int): (idx: int)
    ensures -1 <= idx < |ids|
    ensures idx >= 0 ==> ids[idx] == id
    ensures idx == -1 ==> id !in ids
  {
    if ids == [] then -1
    else if ids[0] == id then 0
    else var rest := PositionOf(ids[1..], id); if rest == -1 then -1 else rest + 1
  }

  /** What an administrator means: append, take out, step one place up or down. */
  function Intended(ids: seq<int>, playlist: int, e: Event, next: int): seq<int> {
    match e
    case Add(p, _, _) => if p == playlist then ids + [next] else ids
    case Delete(id) => Remove(ids, id)
    case Move(id, dir) =>
      var idx := PositionOf(ids, id);
      if dir == "up" && idx > 0 then ids[idx - 1 := id][idx := ids[idx - 1]]
      else if dir == "down" && 0 <= idx < |ids| - 1 then ids[idx + 1 := id][idx := ids[idx + 1]]
      else ids
  }

  function IntendedRun(ids: seq<int>, playlist: int, trace: seq<Event>, next: int): (seq<int>, int)
    decreases |trace|
  {
    if trace == [] then (ids, next)
    else
      var (before, n) := IntendedRun(ids, playlist, trace[..|trace| - 1], next);
      var e := trace[|trace| - 1];
      (Intended(before, playlist, e, n), if e.Add? then n + 1 else n)
  }

  lemma {:induction false} PositionOfIds(items: seq<Item>, id: int)
    ensures PositionOf(Ids(items), id) == IndexIn(items, id)
  {
    if items != [] {
      PositionOfIds(items[1..], id);
      assert Ids(items)[1..] == Ids(items[1..]);
    }
  }

  lemma {:induction false} IdsWithout(items: seq<Item>, id: int)
    ensures Ids(Without(items, id)) == Remove(Ids(items), id)
  {
    if items != [] {
      IdsWithout(items[1..], id);
      assert Ids(items)[1..] == Ids(items[1..]);
      assert Ids([items[0]] + Without(items[1..], id)) == [items[0].id] + Ids(Without(items[1..], id));
    }
  }

  lemma NotListed(db: Db, id: int, playlist: int)
    requires Valid(db) && forall x :: x in db.rows && x.id == id ==> x.playlist != playlist
    ensures IndexIn(List(db.rows, playlist), id) == -1
  {
    ListLists(db.rows, playlist);
    var items := List(db.rows, playlist);
    forall i | 0 <= i < |items| ensures items[i].id != id {
      assert items[i] in db.rows;
    }
  }

  lemma MissingRow(rows: seq<Item>, id: int)
    requires RowOf(rows, id).None?
    ensures forall x :: x in rows ==> x.id != id
  {
  }

  lemma IdsTransposed(items: seq<Item>, i: int, j: int)
    requires 0 <= i < |items| && 0 <= j < |items|
    ensures Ids(Transposed(items, i, j)) == Ids(items)[i := items[j].id][j := items[i].id]
  {
  }

  lemma MoveIsIntended(db: Db, id: int, dir: string, playlist: int)
    requires Valid(db)
    ensures var after := Step(db, Move(id, dir));
            && Valid(after) && after.next == db.next
            && Ids(List(after.rows, playlist)) == Intended(Ids(List(db.rows, playlist)), playlist, Move(id, dir), db.next)
  {
    hide List, Valid, Exchanged, RowOf, IndexIn, PositionOf, Neighbour, Transposed;
    var items := List(db.rows, playlist);
    PositionOfIds(items, id);
    var row := RowOf(db.rows, id);
    if row.None? {
      MissingRow(db.rows, id);
      NotListed(db, id, playlist);
    } else {
      MoveIsAdjacentTransposition(db, row.value, dir, playlist);
      if row.value.playlist != playlist {
        OnlyRow(db, row.value);
        NotListed(db, id, playlist);
      } else {
        var idx := IndexIn(items, id);
        var swap := Neighbour(idx, |items|, dir);
        if swap >= 0 {
          IdsTransposed(items, idx, swap);
        }
      }
    }
  }

  lemma StepIsIntended(db: Db, e: Event, playlist: int)
    requires Valid(db)
    ensures var after := Step(db, e);
            && Valid(after) && after.next == (if e.Add? then db.next + 1 else db.next)
            && Ids(List(after.rows, playlist)) == Intended(Ids(List(db.rows, playlist)), playlist, e, db.next)
  {
    hide List, Valid, Moved, MaxPosition;
    match e {
      case Add(p, view, dwell) =>
        AddAppendsLast(db, p, view, dwell, playlist);
      case Delete(id) =>
        DeleteTakesOneOut(db, id, playlist);
        IdsWithout(List(db.rows, playlist), id);
      case Move(id, dir) =>
        MoveIsIntended(db, id, dir, playlist);
    }
  }

  /** Any run of requests from any table with positions apart lists what was meant. */
  lemma {:induction false} RunIsIntended(db: Db, trace: seq<Event>, playlist: int)
    requires Valid(db)
    ensures Valid(Run(db, trace))
    ensures (Ids(List(Run(db, trace).rows, playlist)), Run(db, trace).next) ==
            IntendedRun(Ids(List(db.rows, playlist)), playlist, trace, db.next)
    decreases |trace|
  {
    hide Run, IntendedRun, Step, Intended, List, Valid, Ids;
    if trace == [] {
      NothingRun(db, Ids(List(db.rows, playlist)), playlist, db.next);
    } else {
      var init, e := trace[..|trace| - 1], trace[|trace| - 1];
      RunIsIntended(db, init, playlist);
      StepIsIntended(Run(db, init), e, playlist);
      RunLast(db, trace, Ids(List(db.rows, playlist)), playlist, db.next);
    }
  }

  lemma NothingRun(db: Db, ids: seq<int>, playlist: int, next: int)
    ensures Run(db, []) == db && IntendedRun(ids, playlist, [], next) == (ids, next)
  {
  }

  lemma RunLast(db: Db, trace: seq<Event>, ids: seq<int>, playlist: int, next: int)
    requires trace != []
    ensures var init, e := trace[..|trace| - 1], trace[|trace| - 1];
            var (before, n) := IntendedRun(ids, playlist, init, next);
            && Run(db, trace) == Step(Run(db, init), e)
            && IntendedRun(ids, playlist, trace, next) ==
               (Intended(before, playlist, e, n), if e.Add? then n + 1 else n)
  {
    hide Step, Intended;
  }

  /** A move leaves the table alone exactly when there is no neighbour to pass, or one at the same position. */
  lemma EqualPositionsStick(rows: seq<Item>, id: int, dir: string)
    requires Distinct(rows) && RowOf(rows, id).Some?
    ensures var items := List(rows, RowOf(rows, id).value.playlist);
            var idx := IndexIn(items, id);
            var swap := Neighbour(idx, |items|, dir);
            Moved(rows, id, dir) == rows <==> swap == -1 || items[idx].pos == items[swap].pos
  {
    var playlist := RowOf(rows, id).value.playlist;
    ListLists(rows, playlist);
    hide List, RowOf, IndexIn;
    var items := List(rows, playlist);
    var idx := IndexIn(items, id);
    var swap := Neighbour(idx, |items|, dir);
    if swap >= 0 {
      var a, b := items[idx], items[swap];
      assert a in rows && b in rows;
      assert Before(a, b) || Before(b, a);
      ExchangeIsIdleIff(rows, a, b);
    }
  }

  lemma ExchangeIsIdleIff(rows: seq<Item>, a: Item, b: Item)
    requires Distinct(rows) && a in rows && b in rows && a != b
    ensures Exchanged(rows, a, b) == rows <==> a.pos == b.pos
  {
    var i :| 0 <= i < |rows| && rows[i] == a;
    var j :| 0 <= j < |rows| && rows[j] == b;
    assert a.id != b.id;
    assert Exchanged(rows, a, b)[i].pos == b.pos;
    if a.pos == b.pos {
      forall k | 0 <= k < |rows| ensures Exchanged(rows, a, b)[k] == rows[k] {
        assert rows[k].id == a.id ==> k == i;
        assert rows[k].id == b.id ==> k == j;
      }
    }
  }
}
