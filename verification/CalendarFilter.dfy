/** The filter language of the calendar widget (internal/widget/calendar.go): a comma is OR, a space is AND. */
module CalendarFilter {
  import opened Text

  /** What the filter code takes from the unicode package: lower-casing and white space. */
  datatype Charset = Charset(lower: char -> char, space: char -> bool) {
    ghost predicate Sane() {
      && (forall c :: lower(lower(c)) == lower(c))
      && (forall c :: (lower(c) == ',' <==> c == ',') && (lower(c) == ':' <==> c == ':'))
      && (forall c :: space(lower(c)) == space(c))
      && !space(',') && !space(':') && space(' ')
    }

    function ToLower(s: string): (r: string)
      ensures |r| == |s| && forall i :: 0 <= i < |s| ==> r[i] == lower(s[i])
    {
      seq(|s|, i requires 0 <= i < |s| => lower(s[i]))
    }
  }

  function AsciiLower(c: char): char {
    if 'A' <= c <= 'Z' then (c as int + 32) as char else c
  }

  lemma AsciiIsSane()
    ensures Charset(AsciiLower, IsSpace).Sane()
  {
  }

  /** prop == "" addresses the summary and the categories. */
  datatype Term = Term(prop: string, val: string)
  type Clause = seq<Term>
  type Filter = seq<Clause>

  predicate IsColon(c: char) { c == ':' }

  function TermOf(cs: Charset, tok: string): Term {
    var i := WordLength(tok, IsColon);
    if 0 < i < |tok| then Term(cs.ToLower(tok[..i]), cs.ToLower(tok[i + 1..]))
    else Term("", cs.ToLower(tok))
  }

  /** A token whose value is empty adds no term, a part without terms no clause. */
  function KeptTerm(cs: Charset, tok: string): Clause {
    var t := TermOf(cs, tok);
    if t.val != "" then [t] else []
  }

  function ClauseOf(cs: Charset, toks: seq<string>): Clause {
    if toks == [] then [] else KeptTerm(cs, toks[0]) + ClauseOf(cs, toks[1..])
  }

  function KeptClause(cs: Charset, part: string): Filter {
    var c := ClauseOf(cs, Fields(part, cs.space));
    if c != [] then [c] else []
  }

  function FilterOf(cs: Charset, parts: seq<string>): Filter {
    if parts == [] then [] else KeptClause(cs, parts[0]) + FilterOf(cs, parts[1..])
  }

  /** The filter a configuration string denotes. */
  function Parsed(cs: Charset, s: string): Filter {
    FilterOf(cs, Cut(s, ','))
  }

  predicate Contains(s: string, sub: string) {
    exists i :: 0 <= i <= |s| && sub <= s[i..]
  }

  predicate Holds(cs: Charset, t: Term, get: string -> string) {
    Contains(cs.ToLower(get(t.prop)), t.val)
  }

  predicate Satisfies(cs: Charset, clause: Clause, get: string -> string) {
    forall k :: 0 <= k < |clause| ==> Holds(cs, clause[k], get)
  }

  predicate Matches(cs: Charset, f: Filter, get: string -> string) {
    f == [] || exists n :: 0 <= n < |f| && Satisfies(cs, f[n], get)
  }

  // ---------- the loops ----------

  lemma NothingParsed(cs: Charset)
    ensures ClauseOf(cs, []) == [] && FilterOf(cs, []) == []
  {
  }

  lemma ClauseOfCons(cs: Charset, tok: string, toks: seq<string>)
    ensures ClauseOf(cs, [tok] + toks) == KeptTerm(cs, tok) + ClauseOf(cs, toks)
  {
    hide KeptTerm;
    assert ([tok] + toks)[1..] == toks;
  }

  lemma {:induction false} ClauseOfConcat(cs: Charset, a: seq<string>, b: seq<string>)
    ensures ClauseOf(cs, a + b) == ClauseOf(cs, a) + ClauseOf(cs, b)
  {
    hide KeptTerm, ClauseOf;
    if a == [] {
      NothingParsed(cs);
      assert a + b == b;
    } else {
      ClauseOfConcat(cs, a[1..], b);
      ClauseOfCons(cs, a[0], a[1..]);
      ClauseOfCons(cs, a[0], a[1..] + b);
      assert a + b == [a[0]] + (a[1..] + b) && a == [a[0]] + a[1..];
    }
  }

  lemma FilterOfCons(cs: Charset, part: string, parts: seq<string>)
    ensures FilterOf(cs, [part] + parts) == KeptClause(cs, part) + FilterOf(cs, parts)
  {
    hide KeptClause;
    assert ([part] + parts)[1..] == parts;
  }

  lemma {:induction false} FilterOfConcat(cs: Charset, a: seq<string>, b: seq<string>)
    ensures FilterOf(cs, a + b) == FilterOf(cs, a) + FilterOf(cs, b)
  {
    hide KeptClause, FilterOf;
    if a == [] {
      NothingParsed(cs);
      assert a + b == b;
    } else {
      FilterOfConcat(cs, a[1..], b);
      FilterOfCons(cs, a[0], a[1..]);
      FilterOfCons(cs, a[0], a[1..] + b);
      assert a + b == [a[0]] + (a[1..] + b) && a == [a[0]] + a[1..];
    }
  }

  lemma ClauseOfNext(cs: Charset, toks: seq<string>, k: nat)
    requires k < |toks|
    ensures ClauseOf(cs, toks[..k + 1]) == ClauseOf(cs, toks[..k]) + KeptTerm(cs, toks[k])
  {
    hide KeptTerm;
    ClauseOfConcat(cs, toks[..k], [toks[k]]);
    assert toks[..k + 1] == toks[..k] + [toks[k]];
    assert ClauseOf(cs, [toks[k]]) == KeptTerm(cs, toks[k]) + [];
  }

  lemma FilterOfNext(cs: Charset, parts: seq<string>, n: nat)
    requires n < |parts|
    ensures FilterOf(cs, parts[..n + 1]) == FilterOf(cs, parts[..n]) + KeptClause(cs, parts[n])
  {
    hide KeptClause;
    FilterOfConcat(cs, parts[..n], [parts[n]]);
    assert parts[..n + 1] == parts[..n] + [parts[n]];
    assert FilterOf(cs, [parts[n]]) == KeptClause(cs, parts[n]) + [];
  }

  method ParseFilter(cs: Charset, s: string) returns (f: Filter)
    ensures f == Parsed(cs, s)
  {
    hide Cut, Fields, WordLength, ClauseOf, FilterOf;
    var clauses := Cut(s, ',');
    f := [];
    NothingParsed(cs);
    for n := 0 to |clauses|
      invariant f == FilterOf(cs, clauses[..n])
    {
      var toks := Fields(clauses[n], cs.space);
      var clause := [];
      for k := 0 to |toks|
        invariant clause == ClauseOf(cs, toks[..k])
      {
        var tok := toks[k];
        var prop, val := "", cs.ToLower(tok);
        var i := WordLength(tok, IsColon);
        if 0 < i < |tok| {
          prop, val := cs.ToLower(tok[..i]), cs.ToLower(tok[i + 1..]);
        }
        ClauseOfNext(cs, toks, k);
        if val != "" {
          clause := clause + [Term(prop, val)];
        }
      }
      assert toks[..|toks|] == toks;
      FilterOfNext(cs, clauses, n);
      if |clause| > 0 {
        f := f + [clause];
      }
    }
    assert clauses[..|clauses|] == clauses;
  }

  method Match(cs: Charset, f: Filter, get: string -> string) returns (matched: bool)
    ensures matched == Matches(cs, f, get)
  {
    if |f| == 0 {
      return true;
    }
    for n := 0 to |f|
      invariant forall j :: 0 <= j < n ==> !Satisfies(cs, f[j], get)
    {
      var ok := true;
      for k := 0 to |f[n]|
        invariant ok && forall j :: 0 <= j < k ==> Holds(cs, f[n][j], get)
      {
        if !Contains(cs.ToLower(get(f[n][k].prop)), f[n][k].val) {
          assert !Holds(cs, f[n][k], get);
          ok := false;
          break;
        }
      }
      if ok {
        return true;
      }
    }
    return false;
  }

  lemma EmptyFilterMatches(cs: Charset, get: string -> string)
    ensures Matches(cs, [], get)
  {
  }

  lemma ContainsIff(s: string, sub: string)
    ensures Contains(s, sub) <==> exists a, b :: s == a + sub + b
  {
    if Contains(s, sub) {
      var i :| 0 <= i <= |s| && sub <= s[i..];
      assert s == s[..i] + sub + s[i + |sub|..];
    }
    if a, b :| s == a + sub + b {
      assert s[|a|..] == sub + b;
    }
  }

  /** A one-term filter matches exactly the events whose property, lower-cased, holds the value somewhere inside. */
  lemma TermMatchesInside(cs: Charset, t: Term, get: string -> string)
    ensures Matches(cs, [[t]], get) <==> exists a, b :: cs.ToLower(get(t.prop)) == a + t.val + b
  {
    ContainsIff(cs.ToLower(get(t.prop)), t.val);
    hide Contains;
    var clause := [t];
    assert clause[0] == t;
    assert Satisfies(cs, clause, get) <==> Holds(cs, t, get);
    assert [clause][0] == clause;
  }

  /** In particular, lower-case text around a value does not hide it. */
  lemma ValueInsideMatches(cs: Charset, prop: string, a: string, v: string, b: string, get: string -> string)
    requires cs.ToLower(a) == a && cs.ToLower(v) == v && cs.ToLower(b) == b && get(prop) == a + v + b
    ensures Matches(cs, [[Term(prop, v)]], get)
  {
    LowerConcat(cs, a, v);
    LowerConcat(cs, a + v, b);
    TermMatchesInside(cs, Term(prop, v), get);
    assert cs.ToLower(get(prop)) == a + v + b;
  }

  // ---------- comma is OR, space is AND ----------

  lemma CommaConcatenates(cs: Charset, a: string, b: string)
    ensures Parsed(cs, a + [','] + b) == Parsed(cs, a) + Parsed(cs, b)
  {
    CutConcat(a, b, ',');
    FilterOfConcat(cs, Cut(a, ','), Cut(b, ','));
  }

  /** A side without any clause drops out; it does not match everything the way it would on its own. */
  lemma CommaIsOr(cs: Charset, a: string, b: string, get: string -> string)
    ensures var (fa, fb) := (Parsed(cs, a), Parsed(cs, b));
            Matches(cs, Parsed(cs, a + [','] + b), get) ==
            if fa == [] then Matches(cs, fb, get)
            else if fb == [] then Matches(cs, fa, get)
            else Matches(cs, fa, get) || Matches(cs, fb, get)
  {
    hide Parsed, Satisfies;
    CommaConcatenates(cs, a, b);
    var fa, fb, f := Parsed(cs, a), Parsed(cs, b), Parsed(cs, a + [','] + b);
    assert f == fa + fb;
    assert fb == [] ==> f == fa;
    forall n | 0 <= n < |fa| ensures f[n] == fa[n] {}
    forall n | 0 <= n < |fb| ensures f[|fa| + n] == fb[n] {}
  }

  lemma OneClause(cs: Charset, s: string)
    requires ',' !in s
    ensures var c := ClauseOf(cs, Fields(s, cs.space)); Parsed(cs, s) == if c == [] then [] else [c]
  {
    CutWhole(s, ',');
    assert FilterOf(cs, [s][1..]) == [];
  }

  lemma MatchesOneClause(cs: Charset, s: string, get: string -> string)
    requires ',' !in s
    ensures Matches(cs, Parsed(cs, s), get) == Satisfies(cs, ClauseOf(cs, Fields(s, cs.space)), get)
  {
    OneClause(cs, s);
    var c := ClauseOf(cs, Fields(s, cs.space));
    if c != [] {
      assert Parsed(cs, s)[0] == c;
    }
  }

  lemma SpaceIsAnd(cs: Charset, a: string, b: string, get: string -> string)
    requires cs.Sane() && ',' !in a && ',' !in b
    ensures Matches(cs, Parsed(cs, a + [' '] + b), get) <==>
            Matches(cs, Parsed(cs, a), get) && Matches(cs, Parsed(cs, b), get)
  {
    hide Fields, ClauseOf, Parsed, Matches, Holds;
    MatchesOneClause(cs, a, get);
    MatchesOneClause(cs, b, get);
    MatchesOneClause(cs, a + [' '] + b, get);
    FieldsConcat(a, b, cs.space);
    ClauseOfConcat(cs, Fields(a, cs.space), Fields(b, cs.space));
    var ca, cb := ClauseOf(cs, Fields(a, cs.space)), ClauseOf(cs, Fields(b, cs.space));
    forall k | 0 <= k < |ca| ensures (ca + cb)[k] == ca[k] {}
    forall k | 0 <= k < |cb| ensures (ca + cb)[|ca| + k] == cb[k] {}
  }

  // ---------- printing and parsing again ----------

  function TermText(t: Term): string {
    if t.prop == "" then t.val else t.prop + [':'] + t.val
  }

  function TermTexts(c: Clause): seq<string> {
    seq(|c|, k requires 0 <= k < |c| => TermText(c[k]))
  }

  function ClauseText(c: Clause): string {
    Join(TermTexts(c), ' ')
  }

  function ClauseTexts(f: Filter): seq<string> {
    seq(|f|, n requires 0 <= n < |f| => ClauseText(f[n]))
  }

  function FilterText(f: Filter): string {
    Join(ClauseTexts(f), ',')
  }

  ghost predicate Plain(cs: Charset, s: string) {
    forall c :: c in s ==> c != ',' && !cs.space(c) && cs.lower(c) == c
  }

  /** A bare value may start with a colon, but has none further on unless it starts with one. */
  ghost predicate NormalTerm(cs: Charset, t: Term) {
    && t.val != "" && Plain(cs, t.prop) && Plain(cs, t.val)
    && (if t.prop == "" then t.val[0] == ':' || ':' !in t.val else ':' !in t.prop)
  }

  ghost predicate NormalClause(cs: Charset, c: Clause) {
    c != [] && forall k :: 0 <= k < |c| ==> NormalTerm(cs, c[k])
  }

  ghost predicate Normal(cs: Charset, f: Filter) {
    forall n :: 0 <= n < |f| ==> NormalClause(cs, f[n])
  }

  lemma LowerPlain(cs: Charset, s: string)
    requires Plain(cs, s)
    ensures cs.ToLower(s) == s
  {
    forall i | 0 <= i < |s| ensures cs.ToLower(s)[i] == s[i] {
      assert s[i] in s;
    }
  }

  lemma TermParsesBack(cs: Charset, t: Term)
    requires NormalTerm(cs, t)
    ensures TermOf(cs, TermText(t)) == t && KeptTerm(cs, TermText(t)) == [t]
  {
    LowerPlain(cs, t.prop);
    LowerPlain(cs, t.val);
    if t.prop != "" {
      var tail := [':'] + t.val;
      assert TermText(t) == t.prop + tail;
      WordLengthOf(t.prop, tail, IsColon);
      assert TermText(t)[..|t.prop|] == t.prop && TermText(t)[|t.prop| + 1..] == t.val;
    } else if t.val[0] != ':' {
      WordLengthOf(t.val, "", IsColon);
      assert t.val + "" == t.val;
    }
  }

  lemma TermTextIsWord(cs: Charset, t: Term)
    requires cs.Sane() && NormalTerm(cs, t)
    ensures Word(TermText(t), cs.space) && ',' !in TermText(t)
  {
  }

  lemma {:induction false} ClauseParsesBack(cs: Charset, c: Clause)
    requires forall k :: 0 <= k < |c| ==> NormalTerm(cs, c[k])
    ensures ClauseOf(cs, TermTexts(c)) == c
  {
    hide ClauseOf, KeptTerm, TermOf, TermText, NormalTerm;
    if c == [] {
      NothingParsed(cs);
    } else {
      TermParsesBack(cs, c[0]);
      ClauseParsesBack(cs, c[1..]);
      ClauseOfCons(cs, TermText(c[0]), TermTexts(c[1..]));
      assert TermTexts(c) == [TermText(c[0])] + TermTexts(c[1..]);
      assert [c[0]] + c[1..] == c;
    }
  }

  lemma {:induction false} JoinLacks(parts: seq<string>, sep: char, c: char)
    requires c != sep && forall i :: 0 <= i < |parts| ==> c !in parts[i]
    ensures c !in Join(parts, sep)
  {
    if |parts| > 1 {
      JoinLacks(parts[1..], sep, c);
    }
  }

  lemma ClauseTextParsesBack(cs: Charset, c: Clause)
    requires cs.Sane() && NormalClause(cs, c)
    ensures ',' !in ClauseText(c)
    ensures ClauseOf(cs, Fields(ClauseText(c), cs.space)) == c
  {
    forall k | 0 <= k < |c| ensures Word(TermTexts(c)[k], cs.space) && ',' !in TermTexts(c)[k] {
      TermTextIsWord(cs, c[k]);
    }
    FieldsJoin(TermTexts(c), cs.space);
    ClauseParsesBack(cs, c);
    JoinLacks(TermTexts(c), ' ', ',');
  }

  lemma {:induction false} ClausesParseBack(cs: Charset, f: Filter)
    requires cs.Sane() && Normal(cs, f)
    ensures FilterOf(cs, ClauseTexts(f)) == f
  {
    hide FilterOf, ClauseOf, Fields, ClauseText, NormalClause;
    if f == [] {
      NothingParsed(cs);
    } else {
      assert NormalClause(cs, f[0]);
      ClauseIsKept(cs, f[0]);
      ClausesParseBack(cs, f[1..]);
      FilterOfCons(cs, ClauseText(f[0]), ClauseTexts(f[1..]));
      assert ClauseTexts(f) == [ClauseText(f[0])] + ClauseTexts(f[1..]);
      assert [f[0]] + f[1..] == f;
    }
  }

  lemma ClauseIsKept(cs: Charset, c: Clause)
    requires cs.Sane() && NormalClause(cs, c)
    ensures KeptClause(cs, ClauseText(c)) == [c]
  {
    hide Fields, ClauseOf, ClauseText;
    ClauseTextParsesBack(cs, c);
  }

  lemma NormalFilterParsesBack(cs: Charset, f: Filter)
    requires cs.Sane() && Normal(cs, f)
    ensures Parsed(cs, FilterText(f)) == f
  {
    if f == [] {
      OneClause(cs, "");
    } else {
      forall n | 0 <= n < |f| ensures ',' !in ClauseTexts(f)[n] {
        ClauseTextParsesBack(cs, f[n]);
      }
      CutJoin(ClauseTexts(f), ',');
      ClausesParseBack(cs, f);
    }
  }

  lemma LowerIsPlain(cs: Charset, s: string)
    requires cs.Sane() && forall c :: c in s ==> c != ',' && !cs.space(c)
    ensures Plain(cs, cs.ToLower(s))
    ensures ':' in cs.ToLower(s) <==> ':' in s
  {
    var r := cs.ToLower(s);
    forall c | c in r ensures c != ',' && !cs.space(c) && cs.lower(c) == c {
      var i :| 0 <= i < |r| && r[i] == c;
      assert s[i] in s;
    }
    if ':' in s {
      var i :| 0 <= i < |s| && s[i] == ':';
      assert r[i] == ':';
    }
  }

  lemma TermIsNormal(cs: Charset, tok: string)
    requires cs.Sane() && Word(tok, cs.space) && ',' !in tok
    ensures TermOf(cs, tok).val != "" ==> NormalTerm(cs, TermOf(cs, tok))
  {
    var i := WordLength(tok, IsColon);
    LowerIsPlain(cs, tok);
    LowerIsPlain(cs, tok[..i]);
    if 0 < i < |tok| {
      LowerIsPlain(cs, tok[i + 1..]);
    } else if i == |tok| {
      assert ':' !in tok;
    }
  }

  lemma {:induction false} ClauseIsNormal(cs: Charset, toks: seq<string>)
    requires cs.Sane() && forall tok :: tok in toks ==> Word(tok, cs.space) && ',' !in tok
    ensures forall k :: 0 <= k < |ClauseOf(cs, toks)| ==> NormalTerm(cs, ClauseOf(cs, toks)[k])
  {
    if toks != [] {
      TermIsNormal(cs, toks[0]);
      ClauseIsNormal(cs, toks[1..]);
    }
  }

  lemma {:induction false} FilterIsNormal(cs: Charset, parts: seq<string>)
    requires cs.Sane() && forall n :: 0 <= n < |parts| ==> ',' !in parts[n]
    ensures Normal(cs, FilterOf(cs, parts))
  {
    if parts != [] {
      FieldsAreWords(parts[0], cs.space);
      ClauseIsNormal(cs, Fields(parts[0], cs.space));
      FilterIsNormal(cs, parts[1..]);
    }
  }

  /** Parsing yields a normal filter, so parse, print, parse gives what the first parse gave. */
  lemma PrintedFilterParsesBack(cs: Charset, s: string)
    requires cs.Sane()
    ensures Normal(cs, Parsed(cs, s))
    ensures Parsed(cs, FilterText(Parsed(cs, s))) == Parsed(cs, s)
  {
    PartsHaveNoSeparator(s, ',');
    FilterIsNormal(cs, Cut(s, ','));
    NormalFilterParsesBack(cs, Parsed(cs, s));
  }

  // ---------- letter case never matters ----------

  function LowerAll(cs: Charset, parts: seq<string>): seq<string> {
    seq(|parts|, i requires 0 <= i < |parts| => cs.ToLower(parts[i]))
  }

  lemma LowerConcat(cs: Charset, a: string, b: string)
    ensures cs.ToLower(a + b) == cs.ToLower(a) + cs.ToLower(b)
  {
  }

  lemma LowerAllConcat(cs: Charset, a: seq<string>, b: seq<string>)
    ensures LowerAll(cs, a + b) == LowerAll(cs, a) + LowerAll(cs, b)
  {
  }

  lemma {:induction false} CutOfLower(cs: Charset, s: string)
    requires cs.Sane()
    ensures Cut(cs.ToLower(s), ',') == LowerAll(cs, Cut(s, ','))
  {
    if s != "" {
      var rest := Cut(s[1..], ',');
      CutOfLower(cs, s[1..]);
      assert cs.ToLower(s)[1..] == cs.ToLower(s[1..]);
      LowerConcat(cs, [s[0]], rest[0]);
      assert cs.ToLower([s[0]]) == [cs.lower(s[0])];
      assert LowerAll(cs, rest)[1..] == LowerAll(cs, rest[1..]);
      LowerAllConcat(cs, [[s[0]] + rest[0]], rest[1..]);
      LowerAllConcat(cs, [""], rest);
    }
  }

  lemma {:induction false} WordLengthOfLower(cs: Charset, s: string, stop: char -> bool)
    requires forall c :: stop(cs.lower(c)) == stop(c)
    ensures WordLength(cs.ToLower(s), stop) == WordLength(s, stop)
  {
    if s != "" {
      WordLengthOfLower(cs, s[1..], stop);
      assert cs.ToLower(s)[1..] == cs.ToLower(s[1..]);
    }
  }

  lemma LowerFromWord(cs: Charset, s: string, n: nat)
    requires cs.Sane() && s != "" && !cs.space(s[0]) && n == WordLength(s, cs.space)
    ensures Fields(cs.ToLower(s), cs.space) == [cs.ToLower(s[..n])] + Fields(cs.ToLower(s[n..]), cs.space)
  {
    var low := cs.ToLower(s);
    WordLengthOfLower(cs, s, cs.space);
    assert low[..n] == cs.ToLower(s[..n]) && low[n..] == cs.ToLower(s[n..]);
    FieldsFromWord(low, cs.space);
  }

  lemma {:induction false} FieldsOfLower(cs: Charset, s: string)
    requires cs.Sane()
    ensures Fields(cs.ToLower(s), cs.space) == LowerAll(cs, Fields(s, cs.space))
    decreases |s|
  {
    hide Fields, WordLength;
    var low := cs.ToLower(s);
    if s == "" || cs.space(s[0]) {
      FieldsFromSpace(s, cs.space);
      FieldsFromSpace(low, cs.space);
      if s != "" {
        FieldsOfLower(cs, s[1..]);
        assert low[1..] == cs.ToLower(s[1..]);
      }
    } else {
      var n := WordLength(s, cs.space);
      assert n > 0;
      FieldsOfLower(cs, s[n..]);
      LowerFromWord(cs, s, n);
      FieldsFromWord(s, cs.space);
      LowerAllConcat(cs, [s[..n]], Fields(s[n..], cs.space));
    }
  }

  lemma TermOfLower(cs: Charset, tok: string)
    requires cs.Sane()
    ensures TermOf(cs, cs.ToLower(tok)) == TermOf(cs, tok)
  {
    var low := cs.ToLower(tok);
    WordLengthOfLower(cs, tok, IsColon);
    var i := WordLength(tok, IsColon);
    assert cs.ToLower(low) == low;
    if 0 < i < |tok| {
      assert cs.ToLower(low[..i]) == cs.ToLower(tok[..i]);
      assert cs.ToLower(low[i + 1..]) == cs.ToLower(tok[i + 1..]);
    }
  }

  lemma {:induction false} ClauseOfLower(cs: Charset, toks: seq<string>)
    requires cs.Sane()
    ensures ClauseOf(cs, LowerAll(cs, toks)) == ClauseOf(cs, toks)
  {
    if toks != [] {
      TermOfLower(cs, toks[0]);
      ClauseOfLower(cs, toks[1..]);
      assert LowerAll(cs, toks)[1..] == LowerAll(cs, toks[1..]);
    }
  }

  lemma {:induction false} FilterOfLower(cs: Charset, parts: seq<string>)
    requires cs.Sane()
    ensures FilterOf(cs, LowerAll(cs, parts)) == FilterOf(cs, parts)
  {
    if parts != [] {
      assert KeptClause(cs, cs.ToLower(parts[0])) == KeptClause(cs, parts[0]) by {
        FieldsOfLower(cs, parts[0]);
        ClauseOfLower(cs, Fields(parts[0], cs.space));
      }
      hide KeptClause;
      FilterOfLower(cs, parts[1..]);
      assert LowerAll(cs, parts)[1..] == LowerAll(cs, parts[1..]);
    }
  }

  ghost predicate SameUpToCase(cs: Charset, a: string, b: string) {
    cs.ToLower(a) == cs.ToLower(b)
  }

  lemma HoldsUpToCase(cs: Charset, f: Filter, get: string -> string, got: string -> string)
    requires forall p :: SameUpToCase(cs, get(p), got(p))
    ensures Matches(cs, f, get) == Matches(cs, f, got)
  {
    forall t | true ensures Holds(cs, t, get) == Holds(cs, t, got) {
      assert SameUpToCase(cs, get(t.prop), got(t.prop));
    }
    forall n | 0 <= n < |f| ensures Satisfies(cs, f[n], get) == Satisfies(cs, f[n], got) {}
  }

  /** Neither the case of the filter nor that of the event changes an answer. */
  lemma CaseNeverMatters(cs: Charset, s: string, t: string, get: string -> string, got: string -> string)
    requires cs.Sane() && SameUpToCase(cs, s, t) && forall p :: SameUpToCase(cs, get(p), got(p))
    ensures Parsed(cs, s) == Parsed(cs, t)
    ensures Matches(cs, Parsed(cs, s), get) == Matches(cs, Parsed(cs, t), got)
  {
    CutOfLower(cs, s);
    FilterOfLower(cs, Cut(s, ','));
    CutOfLower(cs, t);
    FilterOfLower(cs, Cut(t, ','));
    HoldsUpToCase(cs, Parsed(cs, s), get, got);
  }
}
