/** The few string functions of Go's strings and strconv packages that the modelled code relies on. */
module Text {
  import opened Prelude

  // ---------- strings.Split on a one-character separator ----------

  function Cut(s: string, sep: char): (parts: seq<string>)
    ensures |parts| >= 1
  {
    if s == "" then [""]
    else
      var rest := Cut(s[1..], sep);
      if s[0] == sep then [""] + rest else [[s[0]] + rest[0]] + rest[1..]
  }

  lemma {:induction false} CutWhole(s: string, sep: char)
    requires sep !in s
    ensures Cut(s, sep) == [s]
  {
    if s != "" {
      CutWhole(s[1..], sep);
      assert s[0] in s;
      assert [s[0]] + s[1..] == s;
    }
  }

  /** Splitting at a separator cuts the work in two. */
  lemma {:induction false} CutConcat(a: string, b: string, sep: char)
    ensures Cut(a + [sep] + b, sep) == Cut(a, sep) + Cut(b, sep)
  {
    var s := a + [sep] + b;
    if a == "" {
      assert s[1..] == b;
    } else {
      assert s[1..] == a[1..] + [sep] + b;
      CutConcat(a[1..], b, sep);
    }
  }

  lemma {:induction false} PartsHaveNoSeparator(s: string, sep: char)
    ensures forall i :: 0 <= i < |Cut(s, sep)| ==> sep !in Cut(s, sep)[i]
  {
    if s != "" {
      PartsHaveNoSeparator(s[1..], sep);
    }
  }

  function Join(parts: seq<string>, sep: char): string {
    if parts == [] then ""
    else if |parts| == 1 then parts[0]
    else parts[0] + [sep] + Join(parts[1..], sep)
  }

  lemma {:induction false} CutJoin(parts: seq<string>, sep: char)
    requires parts != [] && forall i :: 0 <= i < |parts| ==> sep !in parts[i]
    ensures Cut(Join(parts, sep), sep) == parts
  {
    CutWhole(parts[0], sep);
    if |parts| > 1 {
      CutJoin(parts[1..], sep);
      CutConcat(parts[0], Join(parts[1..], sep), sep);
      assert [parts[0]] + parts[1..] == parts;
    }
  }

  // ---------- strings.Fields ----------

  /** Unicode's White Space property. */
  predicate IsSpace(c: char) {
    var n := c as int;
    9 <= n <= 13 || n == 0x20 || n == 0x85 || n == 0xA0 || n == 0x1680 || 0x2000 <= n <= 0x200A
    || n == 0x2028 || n == 0x2029 || n == 0x202F || n == 0x205F || n == 0x3000
  }

  /** Length of the leading run of non-space characters. */
  function WordLength(s: string, space: char -> bool): (n: nat)
    ensures n <= |s|
    ensures forall i :: 0 <= i < n ==> !space(s[i])
    ensures n < |s| ==> space(s[n])
  {
    if s == "" || space(s[0]) then 0 else 1 + WordLength(s[1..], space)
  }

  function Fields(s: string, space: char -> bool): seq<string>
    decreases |s|
  {
    if s == "" then []
    else if space(s[0]) then Fields(s[1..], space)
    else var n := WordLength(s, space); [s[..n]] + Fields(s[n..], space)
  }

  ghost predicate Word(w: string, space: char -> bool) {
    w != "" && forall c :: c in w ==> !space(c)
  }

  lemma {:induction false} FieldsAreWords(s: string, space: char -> bool)
    ensures forall w :: w in Fields(s, space) ==> Word(w, space) && forall c :: c in w ==> c in s
    decreases |s|
  {
    if s != "" && space(s[0]) {
      FieldsAreWords(s[1..], space);
    } else if s != "" {
      FieldsAreWords(s[WordLength(s, space)..], space);
    }
  }

  lemma FieldsFromWord(s: string, space: char -> bool)
    requires s != "" && !space(s[0])
    ensures var n := WordLength(s, space); Fields(s, space) == [s[..n]] + Fields(s[n..], space)
  {
  }

  lemma FieldsFromSpace(s: string, space: char -> bool)
    requires s == "" || space(s[0])
    ensures Fields(s, space) == if s == "" then [] else Fields(s[1..], space)
  {
  }

  lemma {:induction false} WordLengthOf(w: string, tail: string, space: char -> bool)
    requires (forall c :: c in w ==> !space(c)) && (tail == "" || space(tail[0]))
    ensures WordLength(w + tail, space) == |w|
  {
    if w == "" {
      assert w + tail == tail;
    } else {
      assert w[0] in w;
      WordLengthOf(w[1..], tail, space);
      assert (w + tail)[1..] == w[1..] + tail;
    }
  }

  lemma FieldsOfWord(w: string, tail: string, space: char -> bool)
    requires Word(w, space) && (tail == "" || space(tail[0]))
    ensures Fields(w + tail, space) == [w] + Fields(tail, space)
  {
    hide Fields;
    WordLengthOf(w, tail, space);
    var s := w + tail;
    assert s[0] == w[0] && w[0] in w;
    assert s[..|w|] == w && s[|w|..] == tail;
    FieldsFromWord(s, space);
  }

  /** A space in between cuts the work in two. */
  lemma {:induction false} FieldsConcat(a: string, b: string, space: char -> bool)
    requires space(' ')
    ensures Fields(a + [' '] + b, space) == Fields(a, space) + Fields(b, space)
    decreases |a|
  {
    hide Fields;
    var s := a + [' '] + b;
    if a == "" || space(a[0]) {
      FieldsFromSpace(a, space);
      FieldsFromSpace(s, space);
      if a == "" {
        assert s[1..] == b;
      } else {
        assert s[1..] == a[1..] + [' '] + b;
        FieldsConcat(a[1..], b, space);
      }
    } else {
      var n := WordLength(a, space);
      assert s == a[..n] + (a[n..] + [' '] + b);
      FieldsOfWord(a[..n], a[n..] + [' '] + b, space);
      FieldsFromWord(a, space);
      FieldsConcat(a[n..], b, space);
    }
  }

  lemma {:induction false} FieldsJoin(words: seq<string>, space: char -> bool)
    requires space(' ') && forall i :: 0 <= i < |words| ==> Word(words[i], space)
    ensures Fields(Join(words, ' '), space) == words
  {
    hide Fields;
    FieldsFromSpace("", space);
    if |words| == 1 {
      FieldsOfWord(words[0], "", space);
      assert words[0] + "" == words[0];
    } else if |words| > 1 {
      FieldsJoin(words[1..], space);
      FieldsConcat(words[0], Join(words[1..], ' '), space);
      FieldsOfWord(words[0], "", space);
      assert words[0] + "" == words[0];
      assert [words[0]] + words[1..] == words;
    }
  }

  // ---------- strconv.Itoa and Atoi ----------

  const MAX_INT: nat := 0x7FFF_FFFF_FFFF_FFFF

  function Digit(d: nat): char
    requires d < 10
  {
    (48 + d) as char
  }

  predicate IsDigit(c: char) {
    '0' <= c <= '9'
  }

  function Itoa(n: nat): (s: string)
    ensures s != "" && forall i :: 0 <= i < |s| ==> IsDigit(s[i])
  {
    if n < 10 then [Digit(n)] else Itoa(n / 10) + [Digit(n % 10)]
  }

  /** The value of a non-empty run of digits. */
  function DigitsValue(s: string): Option<nat> {
    if s == "" then None
    else
      var last := s[|s| - 1];
      if !IsDigit(last) then None
      else if |s| == 1 then Some(last as int - 48)
      else
        var high := DigitsValue(s[..|s| - 1]);
        if high.None? then None else Some(10 * high.value + (last as int - 48))
  }

  /** None for a syntax error or a value outside 64 bits. */
  function Atoi(s: string): Option<int> {
    var signed := s != "" && (s[0] == '-' || s[0] == '+');
    var v := DigitsValue(if signed then s[1..] else s);
    if v.None? then None
    else if signed && s[0] == '-' then (if v.value <= MAX_INT + 1 then Some(0 - v.value as int) else None)
    else if v.value <= MAX_INT then Some(v.value) else None
  }

  lemma {:induction false} DigitsValueOfItoa(n: nat)
    ensures DigitsValue(Itoa(n)) == Some(n)
  {
    var s := Itoa(n);
    if n >= 10 {
      DigitsValueOfItoa(n / 10);
      assert s[..|s| - 1] == Itoa(n / 10);
    }
  }

  lemma AtoiOfItoa(n: nat)
    requires n <= MAX_INT
    ensures Atoi(Itoa(n)) == Some(n)
  {
    DigitsValueOfItoa(n);
    assert IsDigit(Itoa(n)[0]);
  }
}
