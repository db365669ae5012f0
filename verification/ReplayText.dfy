/** Replay traces as text: one `key=value` line each, values escaped, lists sorted. */
module ReplayText {
  import opened Wrappers
  import opened ByteText
  import opened Splitting

  const BACKSLASH: Byte := 0x5c
  const NEWLINE: Byte := 0x0a
  const RETURN: Byte := 0x0d
  const LETTER_N: Byte := 0x6e
  const LETTER_R: Byte := 0x72

  // ----- Escaping -----

  function EscapeByte(c: Byte): Bytes {
    if c == BACKSLASH then [BACKSLASH, BACKSLASH]
    else if c == NEWLINE then [BACKSLASH, LETTER_N]
    else if c == RETURN then [BACKSLASH, LETTER_R]
    else [c]
  }

  function Escape(value: Bytes): Bytes {
    if value == [] then [] else EscapeByte(value[0]) + Escape(value[1..])
  }

  function Unescaped(c: Byte): Option<Byte> {
    if c == BACKSLASH then Some(BACKSLASH)
    else if c == LETTER_N then Some(NEWLINE)
    else if c == LETTER_R then Some(RETURN)
    else None
  }

  /** Defined on escaped texts only: no raw newline or return, every backslash followed by one of three bytes. */
  function Unescape(text: Bytes): Option<Bytes> {
    if text == [] then Some([])
    else if text[0] == BACKSLASH then
      if |text| < 2 || Unescaped(text[1]).None? then None else Cons(Unescaped(text[1]).value, Unescape(text[2..]))
    else if text[0] == NEWLINE || text[0] == RETURN then None
    else Cons(text[0], Unescape(text[1..]))
  }

  lemma UnescapeByte(c: Byte, rest: Bytes)
    ensures Unescape(EscapeByte(c) + rest) == Cons(c, Unescape(rest))
  {
    var text := EscapeByte(c) + rest;
    if |EscapeByte(c)| == 1 {
      assert text[1..] == rest;
    } else {
      assert text[2..] == rest;
    }
  }

  /** Unescaping undoes escaping, on every value. */
  lemma {:induction false} UnescapeEscape(value: Bytes)
    ensures Unescape(Escape(value)) == Some(value)
  {
    if value != [] {
      UnescapeEscape(value[1..]);
      UnescapeByte(value[0], Escape(value[1..]));
      assert [value[0]] + value[1..] == value;
    }
  }

  lemma EscapeOf(c: Byte)
    ensures Unescaped(c).Some? ==> EscapeByte(Unescaped(c).value) == [BACKSLASH, c]
    ensures c != BACKSLASH && c != NEWLINE && c != RETURN ==> EscapeByte(c) == [c]
  {
  }

  /** And escaping undoes unescaping, wherever it is defined: the escaped texts are exactly the readable ones. */
  lemma {:induction false} EscapeUnescape(text: Bytes)
    requires Unescape(text).Some?
    ensures Escape(Unescape(text).value) == text
  {
    if text != [] {
      var value := Unescape(text).value;
      var n := if text[0] == BACKSLASH then 2 else 1;
      EscapeUnescape(text[n..]);
      EscapeOf(text[n - 1]);
      assert value[1..] == Unescape(text[n..]).value;
      assert EscapeByte(value[0]) == text[..n];
      assert text == text[..n] + text[n..];
    }
  }

  lemma EscapeByteAvoids(c: Byte)
    ensures Avoids(EscapeByte(c), NEWLINE) && Avoids(EscapeByte(c), RETURN)
  {
  }

  /** An escaped value holds no raw newline and no carriage return. */
  lemma {:induction false} EscapeAvoids(value: Bytes)
    ensures Avoids(Escape(value), NEWLINE) && Avoids(Escape(value), RETURN)
  {
    if value != [] {
      EscapeByteAvoids(value[0]);
      EscapeAvoids(value[1..]);
    }
  }

  lemma AppendAssociates(a: Bytes, b: Bytes, c: Bytes)
    ensures a + b + c == a + (b + c)
  {
  }

  lemma {:induction false} EscapeSnoc(value: Bytes, c: Byte)
    ensures Escape(value + [c]) == Escape(value) + EscapeByte(c)
  {
    if value == [] {
      assert (value + [c])[1..] == [];
      assert Escape(value + [c]) == EscapeByte(c) + Escape([]);
    } else {
      EscapeSnoc(value[1..], c);
      assert (value + [c])[1..] == value[1..] + [c];
      AppendAssociates(EscapeByte(value[0]), Escape(value[1..]), EscapeByte(c));
    }
  }

  method EscapeReplayValue(value: Bytes) returns (escaped: Bytes)
    ensures escaped == Escape(value)
  {
    escaped := [];
    for i := 0 to |value|
      invariant escaped == Escape(value[..i])
    {
      EscapeSnoc(value[..i], value[i]);
      assert value[..i] + [value[i]] == value[..i + 1];
      escaped := escaped + EscapeByte(value[i]);
    }
    assert value[..|value|] == value;
  }

  // ----- Lines -----

  datatype Pair = Pair(key: Bytes, value: Bytes)

  function Line(p: Pair): Bytes {
    p.key + [EQUALS] + Escape(p.value) + [NEWLINE]
  }

  function Text(pairs: seq<Pair>): Bytes {
    if pairs == [] then [] else Line(pairs[0]) + Text(pairs[1..])
  }

  predicate PlainKey(key: Bytes) {
    Avoids(key, EQUALS) && Avoids(key, NEWLINE)
  }

  function ReadLine(line: Bytes): Option<Pair> {
    match Find(line, EQUALS)
    case None => None
    case Some(i) =>
      match Unescape(line[i + 1..])
      case None => None
      case Some(value) => Some(Pair(line[..i], value))
  }

  /** Line after line; every line must end with a newline and hold a key. */
  function Read(text: Bytes): Option<seq<Pair>> {
    if text == [] then Some([])
    else
      match Find(text, NEWLINE)
      case None => None
      case Some(n) =>
        var first, rest := ReadLine(text[..n]), Read(text[n + 1..]);
        if first.Some? && rest.Some? then Some([first.value] + rest.value) else None
  }

  lemma ReadOneLine(p: Pair)
    requires PlainKey(p.key)
    ensures var body := p.key + [EQUALS] + Escape(p.value); ReadLine(body) == Some(p) && Avoids(body, NEWLINE)
  {
    var body := p.key + [EQUALS] + Escape(p.value);
    assert body[..|p.key|] == p.key;
    FindAt(body, EQUALS, |p.key|);
    assert body[|p.key| + 1..] == Escape(p.value);
    UnescapeEscape(p.value);
    EscapeAvoids(p.value);
  }

  lemma {:induction false} ReadText(pairs: seq<Pair>)
    requires forall i :: 0 <= i < |pairs| ==> PlainKey(pairs[i].key)
    ensures Read(Text(pairs)) == Some(pairs)
  {
    if pairs != [] {
      var p, rest := pairs[0], Text(pairs[1..]);
      var body, text := p.key + [EQUALS] + Escape(p.value), Text(pairs);
      ReadOneLine(p);
      ReadText(pairs[1..]);
      assert text[..|body|] == body && text[|body|] == NEWLINE;
      FindAt(text, NEWLINE, |body|);
      assert text[|body| + 1..] == rest;
      assert [p] + pairs[1..] == pairs;
    }
  }

  lemma LineKeyIsPlain(line: Bytes)
    requires Avoids(line, NEWLINE) && ReadLine(line).Some?
    ensures PlainKey(ReadLine(line).value.key)
  {
  }

  lemma {:induction false} ReadKeysArePlain(text: Bytes)
    ensures Read(text).Some? ==> forall i :: 0 <= i < |Read(text).value| ==> PlainKey(Read(text).value[i].key)
  {
    if text != [] && Read(text).Some? {
      var n := Find(text, NEWLINE).value;
      var rest := Read(text[n + 1..]).value;
      LineKeyIsPlain(text[..n]);
      ReadKeysArePlain(text[n + 1..]);
      assert Read(text).value == [ReadLine(text[..n]).value] + rest;
    }
  }

  /** A text of lines reads back to its key and value list exactly when no key holds an equals sign or a newline. */
  lemma ReadsBackExactly(pairs: seq<Pair>)
    ensures Read(Text(pairs)) == Some(pairs) <==> forall i :: 0 <= i < |pairs| ==> PlainKey(pairs[i].key)
  {
    if forall i :: 0 <= i < |pairs| ==> PlainKey(pairs[i].key) {
      ReadText(pairs);
    } else {
      ReadKeysArePlain(Text(pairs));
    }
  }

  lemma {:induction false} TextSnoc(pairs: seq<Pair>, p: Pair)
    ensures Text(pairs + [p]) == Text(pairs) + Line(p)
  {
    if pairs == [] {
      assert Text([p]) == Line(p) + Text([]);
    } else {
      TextSnoc(pairs[1..], p);
      assert (pairs + [p])[1..] == pairs[1..] + [p];
      AppendAssociates(Line(pairs[0]), Text(pairs[1..]), Line(p));
    }
  }

  method AppendReplayLine(serialized: Bytes, key: Bytes, value: Bytes) returns (s: Bytes)
    ensures s == serialized + Line(Pair(key, value))
  {
    var escaped := EscapeReplayValue(value);
    s := serialized + key;
    s := s + [EQUALS];
    s := s + escaped;
    s := s + [NEWLINE];
  }

  // ----- Sorted lists -----

  /** `std::string` order: lexicographic on unsigned bytes. */
  predicate AtMost(a: Bytes, b: Bytes) {
    a == [] || (b != [] && (a[0] as int < b[0] as int || (a[0] == b[0] && AtMost(a[1..], b[1..]))))
  }

  lemma {:induction false} Total(a: Bytes, b: Bytes)
    ensures AtMost(a, b) || AtMost(b, a)
  {
    if a != [] && b != [] && a[0] as int == b[0] as int {
      SameByte(a[0], b[0]);
      Total(a[1..], b[1..]);
    }
  }

  lemma {:induction false} Antisymmetric(a: Bytes, b: Bytes)
    requires AtMost(a, b) && AtMost(b, a)
    ensures a == b
  {
    if a != [] && b != [] {
      Antisymmetric(a[1..], b[1..]);
      assert a == [a[0]] + a[1..] && b == [b[0]] + b[1..];
    }
  }

  lemma {:induction false} Transitive(a: Bytes, b: Bytes, c: Bytes)
    requires AtMost(a, b) && AtMost(b, c)
    ensures AtMost(a, c)
  {
    if a != [] && a[0] == b[0] && b[0] == c[0] {
      Transitive(a[1..], b[1..], c[1..]);
    }
  }

  function Insert(v: Bytes, s: seq<Bytes>): seq<Bytes> {
    if s == [] || AtMost(v, s[0]) then [v] + s else [s[0]] + Insert(v, s[1..])
  }

  /** What `std::sort` computes. */
  function Sort(s: seq<Bytes>): seq<Bytes> {
    if s == [] then [] else Insert(s[0], Sort(s[1..]))
  }

  ghost predicate Ordered(s: seq<Bytes>) {
    forall i, j :: 0 <= i < j < |s| ==> AtMost(s[i], s[j])
  }

  lemma {:induction false} InsertOrdered(v: Bytes, s: seq<Bytes>)
    requires Ordered(s)
    ensures Ordered(Insert(v, s)) && multiset(Insert(v, s)) == multiset{v} + multiset(s)
  {
    if s == [] {
    } else if AtMost(v, s[0]) {
      forall i | 0 <= i < |s| ensures AtMost(v, s[i]) {
        if i > 0 {
          Transitive(v, s[0], s[i]);
        }
      }
    } else {
      Total(v, s[0]);
      InsertOrdered(v, s[1..]);
      var r := Insert(v, s[1..]);
      assert s == [s[0]] + s[1..];
      forall i | 0 <= i < |r| ensures AtMost(s[0], r[i]) {
        assert r[i] in multiset(r);
      }
    }
  }

  lemma {:induction false} SortOrdered(s: seq<Bytes>)
    ensures Ordered(Sort(s)) && multiset(Sort(s)) == multiset(s)
  {
    if s != [] {
      SortOrdered(s[1..]);
      InsertOrdered(s[0], Sort(s[1..]));
      assert s == [s[0]] + s[1..];
    }
  }

  lemma SameLeast(a: seq<Bytes>, b: seq<Bytes>)
    requires Ordered(a) && Ordered(b) && multiset(a) == multiset(b) && a != [] && b != []
    ensures a[0] == b[0]
  {
    assert a[0] in multiset(b) && b[0] in multiset(a);
    LeastFirst(a, b[0]);
    LeastFirst(b, a[0]);
    Antisymmetric(a[0], b[0]);
  }

  lemma WithoutFirst(s: seq<Bytes>)
    requires s != []
    ensures s == [s[0]] + s[1..] && multiset(s[1..]) == multiset(s) - multiset{s[0]}
    ensures Ordered(s) ==> Ordered(s[1..])
  {
    assert s == [s[0]] + s[1..];
  }

  /** There is one ordered arrangement of the same values. */
  lemma {:induction false} OrderedUnique(a: seq<Bytes>, b: seq<Bytes>)
    requires Ordered(a) && Ordered(b) && multiset(a) == multiset(b)
    ensures a == b
  {
    assert |multiset(a)| == |a| && |multiset(b)| == |b|;
    if a != [] {
      SameLeast(a, b);
      WithoutFirst(a);
      WithoutFirst(b);
      OrderedUnique(a[1..], b[1..]);
    }
  }

  lemma {:induction false} Reflexive(v: Bytes)
    ensures AtMost(v, v)
  {
    if v != [] {
      Reflexive(v[1..]);
    }
  }

  lemma LeastFirst(s: seq<Bytes>, v: Bytes)
    requires Ordered(s) && v in s
    ensures AtMost(s[0], v)
  {
    Reflexive(v);
  }

  function IndexKey(prefix: Bytes, i: nat): Bytes {
    prefix + [DOT] + Digits(i)
  }

  function IndexedPairs(prefix: Bytes, values: seq<Bytes>, n: nat): (pairs: seq<Pair>)
    requires n <= |values|
    ensures |pairs| == n
    ensures forall i :: 0 <= i < n ==> pairs[i] == Pair(IndexKey(prefix, i), values[i])
  {
    if n == 0 then [] else IndexedPairs(prefix, values, n - 1) + [Pair(IndexKey(prefix, n - 1), values[n - 1])]
  }

  /** The count line comes first; its key ends in `suffix`, which is `COUNT_SUFFIX` in the source. */
  function SortedPairs(prefix: Bytes, suffix: Bytes, values: seq<Bytes>): seq<Pair> {
    var sorted := Sort(values);
    [Pair(prefix + suffix, Digits(|sorted|))] + IndexedPairs(prefix, sorted, |sorted|)
  }

  lemma SortedText(prefix: Bytes, suffix: Bytes, values: seq<Bytes>)
    ensures var sorted := Sort(values);
            Text(SortedPairs(prefix, suffix, values))
            == Line(Pair(prefix + suffix, Digits(|sorted|))) + Text(IndexedPairs(prefix, sorted, |sorted|))
  {
    var sorted := Sort(values);
    var pairs := SortedPairs(prefix, suffix, values);
    assert pairs[1..] == IndexedPairs(prefix, sorted, |sorted|);
  }

  method AppendIndexed(start: Bytes, prefix: Bytes, sorted: seq<Bytes>) returns (s: Bytes)
    ensures s == start + Text(IndexedPairs(prefix, sorted, |sorted|))
  {
    s := start;
    for index := 0 to |sorted|
      invariant s == start + Text(IndexedPairs(prefix, sorted, index))
    {
      ghost var p := Pair(IndexKey(prefix, index), sorted[index]);
      TextSnoc(IndexedPairs(prefix, sorted, index), p);
      AppendAssociates(start, Text(IndexedPairs(prefix, sorted, index)), Line(p));
      s := AppendReplayLine(s, IndexKey(prefix, index), sorted[index]);
    }
  }

  method AppendReplaySortedValues(serialized: Bytes, prefix: Bytes, suffix: Bytes, values: seq<Bytes>)
    returns (s: Bytes)
    ensures s == serialized + Text(SortedPairs(prefix, suffix, values))
  {
    var sorted := Sort(values);
    s := AppendReplayLine(serialized, prefix + suffix, Digits(|sorted|));
    SortedText(prefix, suffix, values);
    AppendAssociates(serialized, Line(Pair(prefix + suffix, Digits(|sorted|))),
                     Text(IndexedPairs(prefix, sorted, |sorted|)));
    s := AppendIndexed(s, prefix, sorted);
  }

  lemma DigitsArePlain(n: nat)
    ensures PlainKey(Digits(n))
  {
    DigitsRoundTrip(n);
    assert !IsDigit(EQUALS) && !IsDigit(NEWLINE);
  }

  lemma PlainAppend(a: Bytes, b: Bytes)
    requires PlainKey(a) && PlainKey(b)
    ensures PlainKey(a + b)
  {
  }

  lemma IndexKeyPlain(prefix: Bytes, i: nat)
    requires PlainKey(prefix)
    ensures PlainKey(IndexKey(prefix, i))
  {
    DigitsArePlain(i);
    PlainAppend(prefix, [DOT]);
    PlainAppend(prefix + [DOT], Digits(i));
  }

  lemma SortedPairsPlain(prefix: Bytes, suffix: Bytes, values: seq<Bytes>)
    requires PlainKey(prefix) && PlainKey(suffix)
    ensures var pairs := SortedPairs(prefix, suffix, values);
            forall i :: 0 <= i < |pairs| ==> PlainKey(pairs[i].key)
  {
    var sorted := Sort(values);
    var rest := IndexedPairs(prefix, sorted, |sorted|);
    PlainAppend(prefix, suffix);
    forall i | 0 <= i < |rest| ensures PlainKey(rest[i].key) {
      IndexKeyPlain(prefix, i);
    }
  }

  /** Two lists serialise alike exactly when they are permutations of each other. */
  lemma SerialiseAlike(prefix: Bytes, suffix: Bytes, a: seq<Bytes>, b: seq<Bytes>)
    requires PlainKey(prefix) && PlainKey(suffix)
    ensures Text(SortedPairs(prefix, suffix, a)) == Text(SortedPairs(prefix, suffix, b)) <==> multiset(a) == multiset(b)
  {
    SortOrdered(a);
    SortOrdered(b);
    if multiset(a) == multiset(b) {
      OrderedUnique(Sort(a), Sort(b));
    }
    if Text(SortedPairs(prefix, suffix, a)) == Text(SortedPairs(prefix, suffix, b)) {
      SortedPairsPlain(prefix, suffix, a);
      SortedPairsPlain(prefix, suffix, b);
      ReadText(SortedPairs(prefix, suffix, a));
      ReadText(SortedPairs(prefix, suffix, b));
      SamePairs(prefix, suffix, a, b);
    }
  }

  lemma SamePairs(prefix: Bytes, suffix: Bytes, a: seq<Bytes>, b: seq<Bytes>)
    requires SortedPairs(prefix, suffix, a) == SortedPairs(prefix, suffix, b)
    ensures Sort(a) == Sort(b)
  {
    var pa, pb := SortedPairs(prefix, suffix, a), SortedPairs(prefix, suffix, b);
    assert |Sort(a)| == |pa| - 1 && |Sort(b)| == |pb| - 1;
    forall i | 0 <= i < |Sort(a)| ensures Sort(a)[i] == Sort(b)[i] {
      assert pa[i + 1].value == Sort(a)[i] && pb[i + 1].value == Sort(b)[i];
    }
  }

  const COUNT_SUFFIX: Bytes := Ascii("_count")

  /** With the suffix of the source, under every plain prefix. */
  lemma ReplayAlike(prefix: Bytes, a: seq<Bytes>, b: seq<Bytes>)
    requires PlainKey(prefix)
    ensures Text(SortedPairs(prefix, COUNT_SUFFIX, a)) == Text(SortedPairs(prefix, COUNT_SUFFIX, b))
            <==> multiset(a) == multiset(b)
  {
    WordAvoids("_count", EQUALS);
    WordAvoids("_count", NEWLINE);
    SerialiseAlike(prefix, COUNT_SUFFIX, a, b);
  }
}
