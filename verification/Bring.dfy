/** The Bring shopping list: the section catalogue and the grouping of items (internal/widget/bring.go). */
module Bring {
  import opened Prelude

  datatype Entry = Entry(itemID: string, name: string)
  datatype Section = Section(name: string, items: seq<Entry>)
  datatype Purchase = Purchase(name: string, specification: string)
  datatype Line = Header(section: string) | Item(text: string)

  type Index = map<string, string>

  const OTHER: string := "Overig"

  // ---------- the section catalogue ----------

  datatype Filing = Filing(key: string, section: string)

  function EntryFilings(lower: string -> string, section: string, e: Entry): seq<Filing> {
    (if e.name != "" then [Filing(lower(e.name), section)] else [])
    + (if e.itemID != "" then [Filing(lower(e.itemID), section)] else [])
  }

  function SectionFilings(lower: string -> string, section: string, items: seq<Entry>): seq<Filing> {
    if items == [] then []
    else SectionFilings(lower, section, items[..|items| - 1]) + EntryFilings(lower, section, items[|items| - 1])
  }

  /** Everything the catalogue files, in the order it lists it. */
  function Filings(lower: string -> string, sections: seq<Section>): seq<Filing> {
    if sections == [] then []
    else
      var last := sections[|sections| - 1];
      Filings(lower, sections[..|sections| - 1]) + SectionFilings(lower, last.name, last.items)
  }

  function Names(sections: seq<Section>): (names: seq<string>)
    ensures |names| == |sections| && forall i :: 0 <= i < |sections| ==> names[i] == sections[i].name
  {
    seq(|sections|, i requires 0 <= i < |sections| => sections[i].name)
  }

  /** Each key is in the section that files it last. */
  ghost predicate IndexOf(m: Index, filings: seq<Filing>) {
    && (forall i :: 0 <= i < |filings| ==> filings[i].key in m)
    && (forall k :: k in m ==> exists i :: LastFiling(filings, k, i) && m[k] == filings[i].section)
  }

  ghost predicate LastFiling(filings: seq<Filing>, key: string, i: int) {
    0 <= i < |filings| && filings[i].key == key && forall j :: i < j < |filings| ==> filings[j].key != key
  }

  lemma IndexWith(m: Index, filings: seq<Filing>, f: Filing)
    requires IndexOf(m, filings)
    ensures IndexOf(m[f.key := f.section], filings + [f])
  {
    var more, m' := filings + [f], m[f.key := f.section];
    forall k | k in m' ensures exists i :: LastFiling(more, k, i) && m'[k] == more[i].section {
      if k == f.key {
        assert LastFiling(more, k, |filings|);
      } else {
        var i :| LastFiling(filings, k, i) && m[k] == filings[i].section;
        assert LastFiling(more, k, i);
      }
    }
  }

  lemma FilingsNext(lower: string -> string, sections: seq<Section>, n: nat)
    requires n < |sections|
    ensures Filings(lower, sections[..n + 1]) ==
            Filings(lower, sections[..n]) + SectionFilings(lower, sections[n].name, sections[n].items)
  {
    assert sections[..n + 1][..n] == sections[..n];
  }

  lemma SectionFilingsNext(lower: string -> string, section: string, items: seq<Entry>, k: nat, before: seq<Filing>)
    requires k < |items|
    ensures before + SectionFilings(lower, section, items[..k + 1]) ==
            before + SectionFilings(lower, section, items[..k]) + EntryFilings(lower, section, items[k])
  {
    assert items[..k + 1][..k] == items[..k];
  }

  lemma NothingFiled(lower: string -> string, section: string, before: seq<Filing>)
    ensures before + SectionFilings(lower, section, []) == before
    ensures Filings(lower, []) == [] && IndexOf(map[], [])
  {
  }

  method BuildSections(lower: string -> string, sections: seq<Section>) returns (m: Index, order: seq<string>)
    ensures order == Names(sections)
    ensures IndexOf(m, Filings(lower, sections))
  {
    hide IndexOf, Filings, SectionFilings;
    m, order := map[], [];
    NothingFiled(lower, "", []);
    for n := 0 to |sections|
      invariant order == Names(sections[..n])
      invariant IndexOf(m, Filings(lower, sections[..n]))
    {
      var sec := sections[n];
      ghost var before := Filings(lower, sections[..n]);
      order := order + [sec.name];
      NothingFiled(lower, sec.name, before);
      for k := 0 to |sec.items|
        invariant IndexOf(m, before + SectionFilings(lower, sec.name, sec.items[..k]))
      {
        var it := sec.items[k];
        ghost var filed := before + SectionFilings(lower, sec.name, sec.items[..k]);
        SectionFilingsNext(lower, sec.name, sec.items, k, before);
        if it.name != "" {
          IndexWith(m, filed, Filing(lower(it.name), sec.name));
          m := m[lower(it.name) := sec.name];
          filed := filed + [Filing(lower(it.name), sec.name)];
        }
        if it.itemID != "" {
          IndexWith(m, filed, Filing(lower(it.itemID), sec.name));
          m := m[lower(it.itemID) := sec.name];
          filed := filed + [Filing(lower(it.itemID), sec.name)];
        }
        assert filed == before + SectionFilings(lower, sec.name, sec.items[..k + 1]);
      }
      assert sec.items[..|sec.items|] == sec.items;
      FilingsNext(lower, sections, n);
    }
    assert sections[..|sections|] == sections;
  }

  /** Whatever the index answers is a name of the catalogue's order. */
  ghost predicate Consistent(m: Index, order: seq<string>) {
    forall k :: k in m ==> m[k] in order
  }

  lemma {:induction false} EntryIsFiled(lower: string -> string, section: string, items: seq<Entry>, j: nat)
    requires j < |items|
    ensures items[j].name != "" ==> Filing(lower(items[j].name), section) in SectionFilings(lower, section, items)
    ensures items[j].itemID != "" ==> Filing(lower(items[j].itemID), section) in SectionFilings(lower, section, items)
  {
    if j < |items| - 1 {
      EntryIsFiled(lower, section, items[..|items| - 1], j);
    }
  }

  lemma {:induction false} SectionIsFiled(lower: string -> string, sections: seq<Section>, i: nat, f: Filing)
    requires i < |sections| && f in SectionFilings(lower, sections[i].name, sections[i].items)
    ensures f in Filings(lower, sections)
  {
    if i < |sections| - 1 {
      SectionIsFiled(lower, sections[..|sections| - 1], i, f);
    }
  }

  /** Every entry can be looked up by its lower-cased name and by its lower-cased identifier. */
  lemma EveryEntryIsFound(lower: string -> string, sections: seq<Section>, m: Index, i: nat, j: nat)
    requires IndexOf(m, Filings(lower, sections)) && i < |sections| && j < |sections[i].items|
    ensures var e := sections[i].items[j];
            && (e.name != "" ==> lower(e.name) in m) && (e.itemID != "" ==> lower(e.itemID) in m)
  {
    var s, e := sections[i], sections[i].items[j];
    EntryIsFiled(lower, s.name, s.items, j);
    if e.name != "" {
      SectionIsFiled(lower, sections, i, Filing(lower(e.name), s.name));
    }
    if e.itemID != "" {
      SectionIsFiled(lower, sections, i, Filing(lower(e.itemID), s.name));
    }
  }

  /** An entry of the section that files the key. */
  ghost predicate FiledBy(lower: string -> string, s: Section, key: string) {
    exists j :: 0 <= j < |s.items| &&
      ((s.items[j].name != "" && lower(s.items[j].name) == key) || (s.items[j].itemID != "" && lower(s.items[j].itemID) == key))
  }

  lemma {:induction false} FiledByAnEntry(lower: string -> string, s: Section, items: seq<Entry>, f: Filing)
    requires items <= s.items && f in SectionFilings(lower, s.name, items)
    ensures f.section == s.name && FiledBy(lower, s, f.key)
  {
    if items != [] {
      var init, last := items[..|items| - 1], items[|items| - 1];
      if f in SectionFilings(lower, s.name, init) {
        FiledByAnEntry(lower, s, init, f);
      } else {
        assert s.items[|init|] == last;
      }
    }
  }

  lemma {:induction false} FiledByASection(lower: string -> string, sections: seq<Section>, f: Filing) returns (i: nat)
    requires f in Filings(lower, sections)
    ensures i < |sections| && f.section == sections[i].name && FiledBy(lower, sections[i], f.key)
  {
    var init, last := sections[..|sections| - 1], sections[|sections| - 1];
    if f in SectionFilings(lower, last.name, last.items) {
      FiledByAnEntry(lower, last, last.items, f);
      i := |init|;
    } else {
      i := FiledByASection(lower, init, f);
    }
  }

  /** And whatever the index answers is a section that lists the key under one of its entries. */
  lemma AnswersAreFiled(lower: string -> string, sections: seq<Section>, m: Index, key: string) returns (i: nat)
    requires IndexOf(m, Filings(lower, sections)) && key in m
    ensures i < |sections| && m[key] == sections[i].name && FiledBy(lower, sections[i], key)
  {
    var filings := Filings(lower, sections);
    var k :| LastFiling(filings, key, k) && m[key] == filings[k].section;
    i := FiledByASection(lower, sections, filings[k]);
  }

  lemma {:induction false} FiledInSection(lower: string -> string, section: string, items: seq<Entry>, i: nat)
    requires i < |SectionFilings(lower, section, items)|
    ensures SectionFilings(lower, section, items)[i].section == section
  {
    var init := items[..|items| - 1];
    if i < |SectionFilings(lower, section, init)| {
      FiledInSection(lower, section, init, i);
    }
  }

  lemma {:induction false} FiledInOrder(lower: string -> string, sections: seq<Section>, i: nat)
    requires i < |Filings(lower, sections)|
    ensures Filings(lower, sections)[i].section in Names(sections)
  {
    var init, last := sections[..|sections| - 1], sections[|sections| - 1];
    assert Names(sections)[|init|] == last.name;
    if i < |Filings(lower, init)| {
      FiledInOrder(lower, init, i);
      assert Names(sections)[..|init|] == Names(init);
    } else {
      FiledInSection(lower, last.name, last.items, i - |Filings(lower, init)|);
    }
  }

  lemma BuiltIndexIsConsistent(lower: string -> string, sections: seq<Section>, m: Index)
    requires IndexOf(m, Filings(lower, sections))
    ensures Consistent(m, Names(sections))
  {
    var filings := Filings(lower, sections);
    forall k | k in m ensures m[k] in Names(sections) {
      var i :| LastFiling(filings, k, i) && m[k] == filings[i].section;
      FiledInOrder(lower, sections, i);
    }
  }

  // ---------- grouping ----------

  function Localize(cat: Index, name: string): string {
    if name in cat && cat[name] != "" then cat[name] else name
  }

  function Display(name: string, specification: string): string {
    if specification != "" then name + " (" + specification + ")" else name
  }

  /** Go's map read: a missing key gives "". */
  function Read(m: Index, key: string): string {
    if key in m then m[key] else ""
  }

  function SectionFor(lower: string -> string, cat: Index, secs: Index, p: Purchase): string {
    var byLocal, byName := Read(secs, lower(Localize(cat, p.name))), Read(secs, lower(p.name));
    if byLocal != "" then byLocal else if byName != "" then byName else OTHER
  }

  /** One displayed item and the section it belongs to. */
  datatype Tagged = Tagged(section: string, text: string)

  function Tag(lower: string -> string, cat: Index, secs: Index, p: Purchase): Tagged {
    Tagged(SectionFor(lower, cat, secs, p), Display(Localize(cat, p.name), p.specification))
  }

  /** The text of an item: its Dutch name where the catalogue has one, and its specification in brackets. */
  lemma ItemTextIs(lower: string -> string, cat: Index, secs: Index, p: Purchase)
    ensures p.name !in cat || cat[p.name] == "" ==> Localize(cat, p.name) == p.name
    ensures p.name in cat && cat[p.name] != "" ==> Localize(cat, p.name) == cat[p.name]
    ensures p.specification == "" ==> Tag(lower, cat, secs, p).text == Localize(cat, p.name)
    ensures p.specification != "" ==>
              Tag(lower, cat, secs, p).text == Localize(cat, p.name) + " (" + p.specification + ")"
  {
  }

  /** The section of an item: by its Dutch name, else by its own, else "Overig"; a blank section counts as none. */
  lemma ItemSectionIs(lower: string -> string, cat: Index, secs: Index, p: Purchase)
    ensures var dutch, own := lower(Localize(cat, p.name)), lower(p.name);
            var section := Tag(lower, cat, secs, p).section;
            && (dutch in secs && secs[dutch] != "" ==> section == secs[dutch])
            && (dutch !in secs || secs[dutch] == "" ==>
                  && (own in secs && secs[own] != "" ==> section == secs[own])
                  && (own !in secs || secs[own] == "" ==> section == "Overig"))
  {
  }

  function Tags(lower: string -> string, cat: Index, secs: Index, ps: seq<Purchase>): (ts: seq<Tagged>)
    ensures |ts| == |ps| && forall i :: 0 <= i < |ps| ==> ts[i] == Tag(lower, cat, secs, ps[i])
  {
    seq(|ps|, i requires 0 <= i < |ps| => Tag(lower, cat, secs, ps[i]))
  }

  function FlatItems(cat: Index, ps: seq<Purchase>): (items: seq<string>)
    ensures |items| == |ps| && forall i :: 0 <= i < |ps| ==> items[i] == Display(Localize(cat, ps[i].name), ps[i].specification)
  {
    seq(|ps|, i requires 0 <= i < |ps| => Display(Localize(cat, ps[i].name), ps[i].specification))
  }

  /** The items of one section, in list order. */
  function Group(ts: seq<Tagged>, section: string): seq<string> {
    if ts == [] then []
    else
      var last := ts[|ts| - 1];
      Group(ts[..|ts| - 1], section) + (if last.section == section then [last.text] else [])
  }

  function Items(texts: seq<string>): (lines: seq<Line>)
    ensures |lines| == |texts| && forall i :: 0 <= i < |texts| ==> lines[i] == Item(texts[i])
  {
    seq(|texts|, i requires 0 <= i < |texts| => Item(texts[i]))
  }

  /** What emitting the named sections one after another appends, given the sections already emitted. */
  function Emitted(ts: seq<Tagged>, names: seq<string>, gone: set<string>): seq<Line> {
    if names == [] then []
    else if names[0] in gone || Group(ts, names[0]) == [] then Emitted(ts, names[1..], gone)
    else [Header(names[0])] + Items(Group(ts, names[0])) + Emitted(ts, names[1..], gone + {names[0]})
  }

  function Grouped(ts: seq<Tagged>, order: seq<string>): seq<Line> {
    Emitted(ts, order + [OTHER], {})
  }

  type Groups = map<string, seq<string>>

  function Held(groups: Groups, section: string): seq<string> {
    if section in groups then groups[section] else []
  }

  ghost predicate Holds(groups: Groups, ts: seq<Tagged>, gone: set<string>) {
    forall s :: Held(groups, s) == if s in gone then [] else Group(ts, s)
  }

  method Emit(groups: Groups, out: seq<Line>, sec: string, ghost ts: seq<Tagged>, ghost gone: set<string>,
              ghost rest: seq<string>)
    returns (groups': Groups, out': seq<Line>, ghost gone': set<string>)
    requires Holds(groups, ts, gone)
    ensures Holds(groups', ts, gone')
    ensures out + Emitted(ts, [sec] + rest, gone) == out' + Emitted(ts, rest, gone')
  {
    hide Group, Emitted;
    groups', out', gone' := groups, out, gone;
    EmittedNext(ts, sec, rest, gone);
    var its := Held(groups, sec);
    assert its == if sec in gone then [] else Group(ts, sec);
    if |its| > 0 {
      out' := out' + [Header(sec)];
      out' := out' + Items(its);
      groups' := groups - {sec};
      gone' := gone + {sec};
      forall s ensures Held(groups', s) == if s in gone' then [] else Group(ts, s) {
        assert s != sec ==> Held(groups', s) == Held(groups, s);
      }
      ghost var block, tail := [Header(sec)] + Items(its), Emitted(ts, rest, gone');
      assert out + (block + tail) == out' + tail;
    }
  }

  lemma EmittedNext(ts: seq<Tagged>, sec: string, rest: seq<string>, gone: set<string>)
    ensures Emitted(ts, [sec] + rest, gone) ==
            if sec in gone || Group(ts, sec) == [] then Emitted(ts, rest, gone)
            else [Header(sec)] + Items(Group(ts, sec)) + Emitted(ts, rest, gone + {sec})
  {
    hide Group;
    assert ([sec] + rest)[1..] == rest;
  }

  lemma NothingHeld()
    ensures Holds(map[], [], {})
  {
  }

  lemma NothingEmitted(ts: seq<Tagged>, gone: set<string>)
    ensures Emitted(ts, [], gone) == []
  {
  }

  lemma HoldsNext(groups: Groups, ts: seq<Tagged>, n: nat)
    requires n < |ts| && Holds(groups, ts[..n], {})
    ensures var t := ts[n]; Holds(groups[t.section := Held(groups, t.section) + [t.text]], ts[..n + 1], {})
  {
    assert ts[..n + 1][..n] == ts[..n];
    forall s ensures Group(ts[..n + 1], s) == Held(groups, s) + if s == ts[n].section then [ts[n].text] else [] {
      assert Held(groups, s) == Group(ts[..n], s);
    }
  }

  method FileItems(lower: string -> string, cat: Index, secs: Index, purchase: seq<Purchase>) returns (groups: Groups)
    ensures Holds(groups, Tags(lower, cat, secs, purchase), {})
  {
    hide Holds;
    ghost var ts := Tags(lower, cat, secs, purchase);
    groups := map[];
    assert Holds(groups, [], {}) by { NothingHeld(); }
    for n := 0 to |purchase|
      invariant Holds(groups, ts[..n], {})
    {
      var p := purchase[n];
      var name := Localize(cat, p.name);
      var sec := Read(secs, lower(name));
      if sec == "" {
        sec := Read(secs, lower(p.name));
      }
      if sec == "" {
        sec := OTHER;
      }
      HoldsNext(groups, ts, n);
      groups := groups[sec := Held(groups, sec) + [Display(name, p.specification)]];
    }
    assert ts[..|purchase|] == ts;
  }

  method GroupItems(lower: string -> string, cat: Index, secs: Index, order: seq<string>, purchase: seq<Purchase>)
    returns (out: seq<Line>)
    ensures out == Grouped(Tags(lower, cat, secs, purchase), order)
  {
    hide Holds, Emitted;
    ghost var ts := Tags(lower, cat, secs, purchase);
    var groups := FileItems(lower, cat, secs, purchase);
    out := [];
    ghost var gone: set<string> := {};
    ghost var names := order + [OTHER];
    for n := 0 to |order|
      invariant Holds(groups, ts, gone)
      invariant out + Emitted(ts, names[n..], gone) == Grouped(ts, order)
    {
      assert names[n..] == [order[n]] + names[n + 1..];
      groups, out, gone := Emit(groups, out, order[n], ts, gone, names[n + 1..]);
    }
    assert names[|order|..] == [OTHER] + [];
    groups, out, gone := Emit(groups, out, OTHER, ts, gone, []);
    NothingEmitted(ts, gone);
  }

  // ---------- the cached catalogue ----------

  class SectionCache {
    var secMap: Option<Index>
    var secOrder: seq<string>
    var secAt: int

    ghost predicate Valid()
      reads this
    {
      secMap.Some? ==> Consistent(secMap.value, secOrder)
    }

    constructor ()
      ensures Valid() && secMap.None?
    {
      secMap, secOrder, secAt := None, [], 0;
    }

    /** doc is what the download gave: None for any failure. */
    method Sections(lower: string -> string, doc: Option<seq<Section>>, now: int, done: int)
      returns (m: Option<Index>, order: seq<string>)
      requires Valid()
      modifies this
      ensures Valid() && m == secMap && order == secOrder
      ensures old(secMap.Some? && now - secAt < DAY) || doc.None? || doc.value == [] ==>
                secMap == old(secMap) && secOrder == old(secOrder) && secAt == old(secAt)
      ensures !(old(secMap.Some? && now - secAt < DAY) || doc.None? || doc.value == []) ==>
                && secMap.Some? && IndexOf(secMap.value, Filings(lower, doc.value))
                && secOrder == Names(doc.value) && secAt == done
    {
      if secMap.Some? && now - secAt < DAY {
        return secMap, secOrder;
      }
      if doc.None? || |doc.value| == 0 {
        return secMap, secOrder;
      }
      var built, names := BuildSections(lower, doc.value);
      BuiltIndexIsConsistent(lower, doc.value, built);
      secMap, secOrder, secAt := Some(built), names, done;
      return secMap, secOrder;
    }

    method ListItems(lower: string -> string, cat: Index, purchase: seq<Purchase>, group: bool,
                     doc: Option<seq<Section>>, now: int, done: int)
      returns (lines: seq<Line>)
      requires Valid()
      modifies this
      ensures Valid()
      ensures lines == if group && secMap.Some? then Grouped(Tags(lower, cat, secMap.value, purchase), secOrder)
                       else Items(FlatItems(cat, purchase))
      ensures !group ==> secMap == old(secMap) && secOrder == old(secOrder) && secAt == old(secAt)
    {
      if !group {
        return Items(FlatItems(cat, purchase));
      }
      var secs, order := Sections(lower, doc, now, done);
      if secs.None? {
        return Items(FlatItems(cat, purchase));
      }
      lines := GroupItems(lower, cat, secs.value, order, purchase);
    }
  }

  // ---------- what grouping keeps ----------

  function WithoutHeaders(lines: seq<Line>): seq<string> {
    if lines == [] then []
    else (if lines[0].Item? then [lines[0].text] else []) + WithoutHeaders(lines[1..])
  }

  function Headers(lines: seq<Line>): seq<string> {
    if lines == [] then []
    else (if lines[0].Header? then [lines[0].section] else []) + Headers(lines[1..])
  }

  /** The items a reader sees under the header of a section. */
  function Under(lines: seq<Line>, heading: Option<string>, section: string): seq<string> {
    if lines == [] then []
    else if lines[0].Header? then Under(lines[1..], Some(lines[0].section), section)
    else (if heading == Some(section) then [lines[0].text] else []) + Under(lines[1..], heading, section)
  }

  lemma {:induction false} SplitItems(texts: seq<string>, rest: seq<Line>, heading: Option<string>, section: string)
    ensures WithoutHeaders(Items(texts) + rest) == texts + WithoutHeaders(rest)
    ensures Headers(Items(texts) + rest) == Headers(rest)
    ensures Under(Items(texts) + rest, heading, section) ==
            (if heading == Some(section) then texts else []) + Under(rest, heading, section)
  {
    if texts == [] {
      assert Items(texts) + rest == rest;
    } else {
      var lines := Items(texts) + rest;
      assert lines[0] == Item(texts[0]) && lines[1..] == Items(texts[1..]) + rest;
      SplitItems(texts[1..], rest, heading, section);
      assert [texts[0]] + (texts[1..] + WithoutHeaders(rest)) == texts + WithoutHeaders(rest);
      assert [texts[0]] + (texts[1..] + Under(rest, heading, section)) == texts + Under(rest, heading, section);
    }
  }

  lemma SplitBlock(section: string, texts: seq<string>, rest: seq<Line>, heading: Option<string>, asked: string)
    ensures var lines := [Header(section)] + Items(texts) + rest;
            && WithoutHeaders(lines) == texts + WithoutHeaders(rest)
            && Headers(lines) == [section] + Headers(rest)
            && Under(lines, heading, asked) == (if section == asked then texts else []) + Under(rest, Some(section), asked)
  {
    var lines := [Header(section)] + Items(texts) + rest;
    assert lines[1..] == Items(texts) + rest;
    SplitItems(texts, rest, Some(section), asked);
  }

  /** The items whose section is one of the given ones. */
  function Belonging(ts: seq<Tagged>, sections: set<string>): seq<string> {
    if ts == [] then []
    else
      var last := ts[|ts| - 1];
      Belonging(ts[..|ts| - 1], sections) + (if last.section in sections then [last.text] else [])
  }

  lemma {:induction false} BelongingSplit(ts: seq<Tagged>, section: string, others: set<string>)
    requires section !in others
    ensures multiset(Belonging(ts, others + {section})) == multiset(Group(ts, section)) + multiset(Belonging(ts, others))
  {
    if ts != [] {
      BelongingSplit(ts[..|ts| - 1], section, others);
    }
  }

  function Set(names: seq<string>): set<string> {
    set s | s in names
  }

  lemma {:induction false} EmittedItems(ts: seq<Tagged>, names: seq<string>, gone: set<string>)
    ensures multiset(WithoutHeaders(Emitted(ts, names, gone))) == multiset(Belonging(ts, Set(names) - gone))
  {
    hide Group, Belonging, WithoutHeaders;
    if names == [] {
      NothingBelongs(ts);
      assert Set(names) - gone == {};
    } else {
      var s, rest := names[0], names[1..];
      if s in gone {
        EmittedItems(ts, rest, gone);
        assert Set(names) - gone == Set(rest) - gone;
      } else if Group(ts, s) == [] {
        EmittedItems(ts, rest, gone);
        var others := Set(rest) - gone - {s};
        BelongingSplit(ts, s, others);
        assert Set(names) - gone == others + {s};
        assert s in rest || Set(rest) - gone == others;
        assert s in rest ==> Set(rest) - gone == others + {s};
      } else {
        EmittedItems(ts, rest, gone + {s});
        SplitBlock(s, Group(ts, s), Emitted(ts, rest, gone + {s}), None, s);
        BelongingSplit(ts, s, Set(rest) - (gone + {s}));
        assert Set(names) - gone == Set(rest) - (gone + {s}) + {s};
      }
    }
  }

  lemma {:induction false} NothingBelongs(ts: seq<Tagged>)
    ensures Belonging(ts, {}) == [] && WithoutHeaders([]) == []
  {
    if ts != [] {
      NothingBelongs(ts[..|ts| - 1]);
    }
  }

  lemma {:induction false} BelongingAll(ts: seq<Tagged>, sections: set<string>)
    ensures |Belonging(ts, sections)| <= |ts|
    ensures |Belonging(ts, sections)| == |ts| <==> forall i :: 0 <= i < |ts| ==> ts[i].section in sections
    ensures |Belonging(ts, sections)| == |ts| ==> Belonging(ts, sections) == Texts(ts)
  {
    if ts != [] {
      BelongingAll(ts[..|ts| - 1], sections);
    }
  }

  function Texts(ts: seq<Tagged>): (texts: seq<string>)
    ensures |texts| == |ts| && forall i :: 0 <= i < |ts| ==> texts[i] == ts[i].text
  {
    seq(|ts|, i requires 0 <= i < |ts| => ts[i].text)
  }

  lemma {:induction false} EmittedUnder(ts: seq<Tagged>, names: seq<string>, gone: set<string>,
                                        heading: Option<string>, section: string)
    ensures Under(Emitted(ts, names, gone), heading, section) ==
            if section in names && section !in gone then Group(ts, section) else []
    decreases |names|
  {
    hide Group;
    if names != [] {
      var s, rest := names[0], names[1..];
      assert section in names <==> section == s || section in rest;
      if s in gone || Group(ts, s) == [] {
        EmittedUnder(ts, rest, gone, heading, section);
      } else {
        EmittedUnder(ts, rest, gone + {s}, Some(s), section);
        SplitBlock(s, Group(ts, s), Emitted(ts, rest, gone + {s}), heading, section);
      }
    }
  }

  /** Position of the first occurrence. */
  function First(names: seq<string>, name: string): (i: nat)
    requires name in names
    ensures i < |names| && names[i] == name && name !in names[..i]
  {
    if names[0] == name then 0 else 1 + First(names[1..], name)
  }

  /** Each name occurs in hs no more than once, in the order of first occurrence in names. */
  ghost predicate InCatalogueOrder(hs: seq<string>, names: seq<string>) {
    && (forall i :: 0 <= i < |hs| ==> hs[i] in names)
    && (forall i, j :: 0 <= i < j < |hs| ==> First(names, hs[i]) < First(names, hs[j]))
  }

  lemma {:induction false} EmittedHeaders(ts: seq<Tagged>, names: seq<string>, gone: set<string>)
    ensures var hs := Headers(Emitted(ts, names, gone));
            && InCatalogueOrder(hs, names)
            && forall s :: s in hs <==> s in names && s !in gone && Group(ts, s) != []
  {
    hide Group;
    if names != [] {
      var s, rest := names[0], names[1..];
      var gone' := if s in gone || Group(ts, s) == [] then gone else gone + {s};
      EmittedHeaders(ts, rest, gone');
      var tail := Headers(Emitted(ts, rest, gone'));
      forall i | 0 <= i < |tail| ensures tail[i] != s && tail[i] in names && First(names, tail[i]) == 1 + First(rest, tail[i]) {
        assert tail[i] in tail;
      }
      if s !in gone && Group(ts, s) != [] {
        SplitBlock(s, Group(ts, s), Emitted(ts, rest, gone'), None, s);
        assert Headers(Emitted(ts, names, gone)) == [s] + tail;
      }
    }
  }

  /** Nothing is lost or doubled, exactly when every section used is emitted at all. */
  lemma GroupingKeepsEveryItemIff(ts: seq<Tagged>, order: seq<string>)
    ensures multiset(WithoutHeaders(Grouped(ts, order))) == multiset(Texts(ts)) <==>
            forall i :: 0 <= i < |ts| ==> ts[i].section in order + [OTHER]
  {
    var names := order + [OTHER];
    EmittedItems(ts, names, {});
    BelongingAll(ts, Set(names) - {});
    var kept := Belonging(ts, Set(names) - {});
    assert |multiset(kept)| == |kept| && |multiset(Texts(ts))| == |ts|;
  }

  /** With an index and an order from the same catalogue, duplicate and empty names included. */
  lemma GroupingConservesTheList(lower: string -> string, cat: Index, secs: Index, order: seq<string>,
                                 ps: seq<Purchase>)
    requires Consistent(secs, order)
    ensures var out, ts := Grouped(Tags(lower, cat, secs, ps), order), Tags(lower, cat, secs, ps);
            && multiset(WithoutHeaders(out)) == multiset(FlatItems(cat, ps))
            && (forall s :: Under(out, None, s) == Group(ts, s))
            && (forall s :: s in Headers(out) <==> Group(ts, s) != [])
            && InCatalogueOrder(Headers(out), order + [OTHER])
  {
    var ts, names := Tags(lower, cat, secs, ps), order + [OTHER];
    forall i | 0 <= i < |ts| ensures ts[i].section in names {
      assert ts[i] == Tag(lower, cat, secs, ps[i]);
    }
    GroupingKeepsEveryItemIff(ts, order);
    assert Texts(ts) == FlatItems(cat, ps);
    EmittedHeaders(ts, names, {});
    forall s ensures Under(Grouped(ts, order), None, s) == Group(ts, s) {
      EmittedUnder(ts, names, {}, None, s);
      OnlyUsedSections(ts, s, names);
    }
    forall s ensures Group(ts, s) != [] ==> s in names {
      OnlyUsedSections(ts, s, names);
    }
  }

  lemma {:induction false} OnlyUsedSections(ts: seq<Tagged>, section: string, names: seq<string>)
    requires forall i :: 0 <= i < |ts| ==> ts[i].section in names
    ensures Group(ts, section) != [] ==> section in names
  {
    if ts != [] {
      OnlyUsedSections(ts[..|ts| - 1], section, names);
    }
  }
}
