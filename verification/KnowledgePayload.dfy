/**
 Knowledge commands as text: `key=value` items between semicolons, values percent-encoded,
 and keywords in canonical form.
 */
module KnowledgePayload {
  import opened Wrappers
  import opened ByteText
  import opened Splitting

  // ----- Percent decoding, section 2.1 of RFC 3986 -----

  const PERCENT: Byte := 0x25
  const SEMICOLON: Byte := 0x3b

  function HexDigit(c: Byte): (v: Option<Byte>)
    ensures v.Some? ==> v.value < 16
  {
    if 0x30 <= c <= 0x39 then Some(c - 0x30)
    else if 0x61 <= c <= 0x66 then Some(c - 0x61 + 10)
    else if 0x41 <= c <= 0x46 then Some(c - 0x41 + 10)
    else None
  }

  /** Two hexadecimal digits follow the byte at `i`. */
  predicate HexPair(text: Bytes, i: nat) {
    i + 2 < |text| && HexDigit(text[i + 1]).Some? && HexDigit(text[i + 2]).Some?
  }

  function Joined(high: Byte, low: Byte): Byte {
    (high << 4) | low
  }

  function PairValue(text: Bytes, i: nat): Byte
    requires HexPair(text, i)
  {
    Joined(HexDigit(text[i + 1]).value, HexDigit(text[i + 2]).value)
  }

  function PercentDecode(text: Bytes): Option<Bytes> {
    if text == [] then Some([])
    else if text[0] != PERCENT then Cons(text[0], PercentDecode(text[1..]))
    else if HexPair(text, 0) then Cons(PairValue(text, 0), PercentDecode(text[3..]))
    else None
  }

  /** The scan that starts at `from` looks at position `k`. */
  predicate Met(text: Bytes, from: nat, k: nat)
    decreases |text| - from
  {
    from < |text| && (from == k || Met(text, from + (if text[from] == PERCENT then 3 else 1), k))
  }

  lemma MetAhead(text: Bytes, from: nat, k: nat)
    requires Met(text, from, k)
    ensures from <= k < |text|
    decreases |text| - from
  {
    if from != k {
      MetAhead(text, from + (if text[from] == PERCENT then 3 else 1), k);
    }
  }

  /** The capital of a small letter that is a hexadecimal digit; any other byte stays. */
  function Raised(c: Byte): Byte {
    if 0x61 <= c <= 0x66 then c - 0x20 else c
  }

  lemma RaisedDigit(c: Byte)
    ensures HexDigit(Raised(c)) == HexDigit(c)
  {
  }

  /** Small and capital hexadecimal digits decode alike. */
  lemma DecodesCaseless(high: Byte, low: Byte, rest: Bytes)
    ensures PercentDecode([PERCENT, high, low] + rest) == PercentDecode([PERCENT, Raised(high), Raised(low)] + rest)
  {
    RaisedDigit(high);
    RaisedDigit(low);
    var s, t := [PERCENT, high, low] + rest, [PERCENT, Raised(high), Raised(low)] + rest;
    assert s[3..] == rest && t[3..] == rest;
  }

  predicate BrokenAt(text: Bytes, k: nat) {
    k < |text| && text[k] == PERCENT && !HexPair(text, k)
  }

  ghost predicate BreaksFrom(text: Bytes, from: nat) {
    exists k: nat :: Met(text, from, k) && BrokenAt(text, k)
  }

  lemma BreaksStep(text: Bytes, from: nat)
    requires from < |text|
    ensures BreaksFrom(text, from) <==>
              BrokenAt(text, from) || BreaksFrom(text, from + (if text[from] == PERCENT then 3 else 1))
  {
    var next := from + (if text[from] == PERCENT then 3 else 1);
    if BreaksFrom(text, from) {
      var k: nat :| Met(text, from, k) && BrokenAt(text, k);
      if k != from {
        assert Met(text, next, k);
      }
    }
    if BrokenAt(text, from) {
      assert Met(text, from, from);
    }
    if BreaksFrom(text, next) {
      var k: nat :| Met(text, next, k) && BrokenAt(text, k);
      assert Met(text, from, k);
    }
  }

  lemma {:induction false} DecodeFails(text: Bytes, from: nat)
    requires from <= |text|
    ensures PercentDecode(text[from..]).None? <==> BreaksFrom(text, from)
    decreases |text| - from
  {
    var rest := text[from..];
    if from < |text| {
      BreaksStep(text, from);
      if text[from] != PERCENT {
        assert rest[1..] == text[from + 1..];
        DecodeFails(text, from + 1);
      } else if HexPair(text, from) {
        assert rest[3..] == text[from + 3..];
        DecodeFails(text, from + 3);
      }
    }
  }

  /** Decoding fails exactly when the scan meets a percent sign without two hexadecimal digits after it. */
  lemma DecodeFailsExactly(text: Bytes)
    ensures PercentDecode(text).None? <==> exists k: nat :: Met(text, 0, k) && BrokenAt(text, k)
  {
    assert text[0..] == text;
    DecodeFails(text, 0);
  }

  method PercentDecodeValue(text: Bytes) returns (decoded: Option<Bytes>)
    ensures decoded == PercentDecode(text)
  {
    var done: Bytes := [];
    var index := 0;
    assert text[0..] == text;
    OntoNothing([], PercentDecode(text));
    while index < |text|
      invariant index <= |text|
      invariant PercentDecode(text) == Onto(done, PercentDecode(text[index..]))
    {
      ghost var rest := text[index..];
      var character := text[index];
      if character != PERCENT {
        OntoCons(done, character, PercentDecode(rest[1..]));
        assert rest[1..] == text[index + 1..];
        done := done + [character];
        index := index + 1;
      } else {
        if index + 2 >= |text| {
          return None;
        }
        var high, low := HexDigit(text[index + 1]), HexDigit(text[index + 2]);
        if high.None? || low.None? {
          return None;
        }
        OntoCons(done, Joined(high.value, low.value), PercentDecode(rest[3..]));
        assert rest[3..] == text[index + 3..];
        done := done + [Joined(high.value, low.value)];
        index := index + 3;
      }
    }
    assert text[|text|..] == [];
    OntoNothing(done, Some([]));
    return Some(done);
  }

  function Onto(done: Bytes, rest: Option<Bytes>): Option<Bytes> {
    if rest.Some? then Some(done + rest.value) else None
  }

  lemma OntoNothing(done: Bytes, rest: Option<Bytes>)
    ensures Onto([], rest) == rest && Onto(done, Some([])) == Some(done)
  {
    if rest.Some? {
      assert [] + rest.value == rest.value;
    }
    assert done + [] == done;
  }

  lemma OntoCons(done: Bytes, c: Byte, rest: Option<Bytes>)
    ensures Onto(done, Cons(c, rest)) == Onto(done + [c], rest)
  {
    if rest.Some? {
      assert done + ([c] + rest.value) == done + [c] + rest.value;
    }
  }

  /**
   `text` encodes `value`: byte by byte, raw or as a percent sign and two hexadecimal digits
   of either case; percent signs and semicolons are never raw.
   */
  predicate Encodes(text: Bytes, value: Bytes)
    decreases |value|
  {
    if value == [] then text == []
    else if text == [] then false
    else if text[0] == PERCENT then HexPair(text, 0) && PairValue(text, 0) == value[0] && Encodes(text[3..], value[1..])
    else text[0] == value[0] && text[0] != SEMICOLON && Encodes(text[1..], value[1..])
  }

  lemma SemicolonIsNoHex()
    ensures HexDigit(SEMICOLON).None? && SEMICOLON != PERCENT
  {
  }

  /**
   An encoded value decodes to itself, whatever bytes the encoder left raw; and nothing else
   does, without semicolons.
   */
  lemma {:induction false} DecodesExactly(text: Bytes, value: Bytes)
    ensures Encodes(text, value) <==> PercentDecode(text) == Some(value) && Avoids(text, SEMICOLON)
    decreases |text|
  {
    SemicolonIsNoHex();
    if text != [] && (text[0] != PERCENT || HexPair(text, 0)) {
      var n := if text[0] == PERCENT then 3 else 1;
      var tail := if value == [] then [] else value[1..];
      DecodesExactly(text[n..], tail);
      assert Avoids(text, SEMICOLON) <==> Avoids(text[..n], SEMICOLON) && Avoids(text[n..], SEMICOLON) by {
        assert text == text[..n] + text[n..];
      }
      if value != [] {
        assert value == [value[0]] + value[1..];
      }
    }
  }

  // ----- Canonical keywords -----

  const UNDERSCORE: Byte := 0x5f

  predicate IsSeparator(c: Byte) {
    c as int == 0x2d || c as int == 0x5f || c as int == 0x20 || 0x09 <= c as int <= 0x0d
  }

  predicate IsUpper(c: Byte) {
    0x41 <= c as int <= 0x5a
  }

  function Lower(c: Byte): Byte {
    if IsUpper(c) then ByteOf(c as int + 0x20) else c
  }

  /** A byte a canonical keyword may hold besides underscores. */
  predicate IsWordByte(c: Byte) {
    IsAlnum(c) && !IsUpper(c)
  }

  lemma LowerIsWordByte(c: Byte)
    requires IsAlnum(c)
    ensures IsWordByte(Lower(c)) && (IsWordByte(c) ==> Lower(c) == c)
  {
  }

  lemma UnderscoreIsSeparator()
    ensures IsSeparator(UNDERSCORE) && !IsAlnum(UNDERSCORE)
  {
  }

  /** The scan: letters and digits in lower case, a run of separators as one underscore, none in front. */
  function Scan(value: Bytes, done: Bytes, afterSeparator: bool): Option<Bytes>
    decreases |value|
  {
    if value == [] then Some(done)
    else if IsAlnum(value[0]) then Scan(value[1..], done + [Lower(value[0])], false)
    else if !IsSeparator(value[0]) then None
    else if done != [] && !afterSeparator then Scan(value[1..], done + [UNDERSCORE], true)
    else Scan(value[1..], done, afterSeparator)
  }

  function TrimEnd(s: Bytes): Bytes {
    if s != [] && s[|s| - 1] == UNDERSCORE then TrimEnd(s[..|s| - 1]) else s
  }

  /** `canonicalize_keyword_token`; a byte that is neither makes the result empty. */
  function Canonical(value: Bytes): Bytes {
    match Scan(value, [], false)
    case None => []
    case Some(done) => TrimEnd(done)
  }

  /** What the scan has built so far. */
  ghost predicate Building(s: Bytes, afterSeparator: bool) {
    (forall i :: 0 <= i < |s| ==> IsWordByte(s[i]) || s[i] == UNDERSCORE)
    && (forall i :: 0 < i < |s| && s[i] == UNDERSCORE ==> s[i - 1] != UNDERSCORE)
    && (s != [] ==> s[0] != UNDERSCORE)
    && (afterSeparator <==> s != [] && s[|s| - 1] == UNDERSCORE)
  }

  /** A canonical keyword: words of lower-case letters and digits, single underscores between them. */
  ghost predicate IsToken(s: Bytes) {
    Building(s, false)
  }

  lemma {:induction false} ScanBuilds(value: Bytes, done: Bytes, afterSeparator: bool)
    requires Building(done, afterSeparator)
    ensures var r := Scan(value, done, afterSeparator);
            r.Some? ==> Building(r.value, r.value != [] && r.value[|r.value| - 1] == UNDERSCORE)
    decreases |value|
  {
    if value != [] {
      UnderscoreIsSeparator();
      var c := value[0];
      if IsAlnum(c) {
        LowerIsWordByte(c);
        ScanBuilds(value[1..], done + [Lower(c)], false);
      } else if IsSeparator(c) {
        if done != [] && !afterSeparator {
          ScanBuilds(value[1..], done + [UNDERSCORE], true);
        } else {
          ScanBuilds(value[1..], done, afterSeparator);
        }
      }
    }
  }

  lemma TrimBuilding(s: Bytes)
    requires Building(s, s != [] && s[|s| - 1] == UNDERSCORE)
    ensures IsToken(TrimEnd(s))
  {
    if s != [] && s[|s| - 1] == UNDERSCORE {
      var shorter := s[..|s| - 1];
      if shorter != [] {
        assert shorter[|shorter| - 1] == s[|s| - 2];
      }
      assert Building(shorter, false);
      assert TrimEnd(shorter) == shorter;
    }
  }

  lemma CanonicalIsToken(value: Bytes)
    ensures IsToken(Canonical(value))
  {
    ScanBuilds(value, [], false);
    var r := Scan(value, [], false);
    if r.Some? {
      TrimBuilding(r.value);
    }
  }

  lemma {:induction false} ScanOfToken(s: Bytes, i: nat)
    requires IsToken(s) && i <= |s|
    ensures Scan(s[i..], s[..i], i > 0 && s[i - 1] == UNDERSCORE) == Some(s)
    decreases |s| - i
  {
    if i == |s| {
      assert s[..i] == s && s[i..] == [];
    } else {
      UnderscoreIsSeparator();
      ScanOfToken(s, i + 1);
      assert s[i..][1..] == s[i + 1..] && s[..i] + [s[i]] == s[..i + 1];
      if IsAlnum(s[i]) {
        LowerIsWordByte(s[i]);
      }
    }
  }

  lemma TokenIsFixed(s: Bytes)
    requires IsToken(s)
    ensures Canonical(s) == s
  {
    ScanOfToken(s, 0);
    assert s[0..] == s && s[..0] == [];
  }

  /** Canonicalisation is idempotent, and the texts it leaves alone are exactly the canonical keywords. */
  lemma CanonicalIdempotent(value: Bytes)
    ensures Canonical(Canonical(value)) == Canonical(value)
    ensures Canonical(value) == value <==> IsToken(value)
  {
    CanonicalIsToken(value);
    TokenIsFixed(Canonical(value));
    if IsToken(value) {
      TokenIsFixed(value);
    }
  }

  /** The letters and digits of a text, in lower case, in order. */
  function Letters(s: Bytes): Bytes {
    if s == [] then []
    else if IsAlnum(s[|s| - 1]) then Letters(s[..|s| - 1]) + [Lower(s[|s| - 1])]
    else Letters(s[..|s| - 1])
  }

  predicate KeywordBytes(s: Bytes) {
    forall i :: 0 <= i < |s| ==> IsAlnum(s[i]) || IsSeparator(s[i])
  }

  lemma LettersSnoc(s: Bytes, c: Byte)
    ensures Letters(s + [c]) == if IsAlnum(c) then Letters(s) + [Lower(c)] else Letters(s)
  {
    assert (s + [c])[..|s|] == s;
  }

  /** One turn of the scan, at the byte `c`. */
  function ScanFrom(c: Byte, rest: Bytes, done: Bytes, afterSeparator: bool): Option<Bytes> {
    if IsAlnum(c) then Scan(rest, done + [Lower(c)], false)
    else if !IsSeparator(c) then None
    else if done != [] && !afterSeparator then Scan(rest, done + [UNDERSCORE], true)
    else Scan(rest, done, afterSeparator)
  }

  lemma ScanAt(value: Bytes, i: nat, done: Bytes, afterSeparator: bool)
    requires i < |value|
    ensures Scan(value[i..], done, afterSeparator) == ScanFrom(value[i], value[i + 1..], done, afterSeparator)
  {
    assert value[i..][1..] == value[i + 1..];
  }

  /** The scan of a suffix, told from what was read: it keeps exactly the letters and digits. */
  lemma {:induction false} ScanKeepsLetters(value: Bytes, i: nat, done: Bytes, afterSeparator: bool)
    requires i <= |value| && KeywordBytes(value[..i]) && Letters(done) == Letters(value[..i])
    ensures var r := Scan(value[i..], done, afterSeparator);
            (r.Some? <==> KeywordBytes(value)) && (r.Some? ==> Letters(r.value) == Letters(value))
    decreases |value| - i
  {
    UnderscoreIsSeparator();
    if i == |value| {
      assert value[..i] == value;
    } else {
      var c := value[i];
      ScanAt(value, i, done, afterSeparator);
      assert value[..i + 1] == value[..i] + [c];
      LettersSnoc(value[..i], c);
      if IsAlnum(c) {
        LettersSnoc(done, Lower(c));
        LowerIsWordByte(c);
        LowerIsWordByte(Lower(c));
        ScanKeepsLetters(value, i + 1, done + [Lower(c)], false);
      } else if IsSeparator(c) {
        LettersSnoc(done, UNDERSCORE);
        if done != [] && !afterSeparator {
          ScanKeepsLetters(value, i + 1, done + [UNDERSCORE], true);
        } else {
          ScanKeepsLetters(value, i + 1, done, afterSeparator);
        }
      }
    }
  }

  lemma {:induction false} TrimKeepsLetters(s: Bytes)
    ensures Letters(TrimEnd(s)) == Letters(s)
  {
    if s != [] && s[|s| - 1] == UNDERSCORE {
      UnderscoreIsSeparator();
      TrimKeepsLetters(s[..|s| - 1]);
    }
  }

  /**
   A text of letters, digits and separators keeps its letters and digits, lower-cased; any
   other text becomes empty.
   */
  lemma CanonicalKeepsLetters(value: Bytes)
    ensures KeywordBytes(value) ==> Letters(Canonical(value)) == Letters(value)
    ensures !KeywordBytes(value) ==> Canonical(value) == []
  {
    assert value[0..] == value && value[..0] == [];
    ScanKeepsLetters(value, 0, [], false);
    if KeywordBytes(value) {
      TrimKeepsLetters(Scan(value, [], false).value);
    }
  }

  method CanonicalizeKeyword(value: Bytes) returns (canonical: Bytes)
    ensures canonical == Canonical(value)
  {
    canonical := [];
    var afterSeparator := false;
    assert value[0..] == value;
    for i := 0 to |value|
      invariant Scan(value, [], false) == Scan(value[i..], canonical, afterSeparator)
    {
      assert value[i..][1..] == value[i + 1..];
      var c := value[i];
      if IsAlnum(c) {
        canonical := canonical + [Lower(c)];
        afterSeparator := false;
      } else if IsSeparator(c) {
        if canonical != [] && !afterSeparator {
          canonical := canonical + [UNDERSCORE];
          afterSeparator := true;
        }
      } else {
        return [];
      }
    }
    assert value[|value|..] == [];
    while canonical != [] && canonical[|canonical| - 1] == UNDERSCORE
      invariant TrimEnd(canonical) == Canonical(value)
      decreases |canonical|
    {
      canonical := canonical[..|canonical| - 1];
    }
  }

  // ----- The payload -----

  datatype Mode = LexicalOnly | DenseOnly | Hybrid
  datatype Kind = FactLookup | ProcedureLookup | DiagnosticContext | PolicyEvidence | MultiHop

  datatype Field =
    | Operation | QueryText | PreferredMode | QueryKind
    | AllowedCorpus | DomainTag | RequiredTag | RequiredLanguage | ChangedSource
    | UnknownField

  datatype Record = Record(
    operation: Bytes,
    queryText: Bytes,
    mode: Option<Mode>,
    kind: Option<Kind>,
    corpora: seq<Bytes>,
    domainTags: seq<Bytes>,
    requiredTags: seq<Bytes>,
    language: Option<Bytes>,
    changedSources: seq<Bytes>
  )

  const EMPTY := Record([], [], None, None, [], [], [], None, [])

  /** The words of the format: field names, mode and kind names, operations. */
  datatype Words = Words(
    fieldOf: Bytes -> Field,
    modeOf: Bytes -> Option<Mode>,
    kindOf: Bytes -> Option<Kind>,
    health: Bytes,
    retrieve: Bytes,
    refresh: Bytes
  )

  function SetOnce(w: Words, r: Record, f: Field, v: Bytes): Option<Record> {
    match f
    case Operation => if r.operation != [] then None else Some(r.(operation := v))
    case QueryText => if r.queryText != [] then None else Some(r.(queryText := v))
    case PreferredMode => if r.mode.Some? || w.modeOf(v).None? then None else Some(r.(mode := w.modeOf(v)))
    case QueryKind => if r.kind.Some? || w.kindOf(v).None? then None else Some(r.(kind := w.kindOf(v)))
    case RequiredLanguage => if r.language.Some? || Canonical(v) == [] then None else Some(r.(language := Some(v)))
    case UnknownField => Some(r)
    case _ => if v == [] then None else Some(WithList(r, f, ListOf(r, f) + [v]))
  }

  predicate IsListField(f: Field) {
    f.AllowedCorpus? || f.DomainTag? || f.RequiredTag? || f.ChangedSource?
  }

  function ListOf(r: Record, f: Field): seq<Bytes> {
    match f
    case AllowedCorpus => r.corpora
    case DomainTag => r.domainTags
    case RequiredTag => r.requiredTags
    case ChangedSource => r.changedSources
    case _ => []
  }

  function WithList(r: Record, f: Field, values: seq<Bytes>): Record {
    match f
    case AllowedCorpus => r.(corpora := values)
    case DomainTag => r.(domainTags := values)
    case RequiredTag => r.(requiredTags := values)
    case ChangedSource => r.(changedSources := values)
    case _ => r
  }

  /** An item that is not empty needs a key, an equals sign and a decodable value; unknown keys are skipped. */
  function ReadItem(w: Words, r: Record, item: Bytes): Option<Record> {
    if item == [] then Some(r)
    else
      match Find(item, EQUALS)
      case None => None
      case Some(eq) =>
        if eq == 0 then None
        else
          match PercentDecode(item[eq + 1..])
          case None => None
          case Some(v) => SetOnce(w, r, w.fieldOf(item[..eq]), v)
  }

  function ReadItems(w: Words, r: Record, items: seq<Bytes>): Option<Record>
    decreases |items|
  {
    if items == [] then Some(r)
    else
      match ReadItem(w, r, items[0])
      case None => None
      case Some(r') => ReadItems(w, r', items[1..])
  }

  predicate HasQuerySurface(r: Record) {
    r.mode.Some? || r.kind.Some? || r.language.Some? || r.corpora != [] || r.domainTags != [] || r.requiredTags != []
  }

  /** The rules between the fields. */
  predicate FieldsAgree(w: Words, r: Record) {
    (r.operation == w.health || r.operation == w.retrieve || r.operation == w.refresh)
    && (r.operation == w.retrieve <==> r.queryText != [])
    && (r.operation != w.retrieve ==> !HasQuerySurface(r))
    && (r.operation != w.refresh ==> r.changedSources == [])
  }

  function Parse(w: Words, payload: Bytes): Option<Record> {
    if payload == [] then None
    else
      match ReadItems(w, EMPTY, Split(payload, SEMICOLON))
      case None => None
      case Some(r) => if FieldsAgree(w, r) then Some(r) else None
  }

  method ParsePayload(w: Words, payload: Bytes) returns (parsed: Option<Record>)
    ensures parsed == Parse(w, payload)
  {
    if payload == [] {
      return None;
    }
    var r := EMPTY;
    var start := 0;
    var more := true;
    ghost var all := Remaining(w, EMPTY, payload);
    assert payload[0..] == payload;
    while more
      invariant start <= |payload|
      invariant all == if more then Remaining(w, r, payload[start..]) else Some(r)
      decreases more, |payload| - start
    {
      var rest := payload[start..];
      var end := Find(rest, SEMICOLON);
      var item := if end.None? then rest else rest[..end.value];
      var next := ReadOneItem(w, r, item);
      NextItem(w, r, rest);
      if next.None? {
        return None;
      }
      r := next.value;
      if end.None? {
        more := false;
      } else {
        var after := start + end.value + 1;
        assert payload[after..] == rest[end.value + 1..];
        start := after;
      }
    }
    return if FieldsAgree(w, r) then Some(r) else None;
  }

  function Remaining(w: Words, r: Record, rest: Bytes): Option<Record> {
    ReadItems(w, r, Split(rest, SEMICOLON))
  }

  function ReadThen(w: Words, r: Option<Record>, items: seq<Bytes>): Option<Record> {
    match r
    case None => None
    case Some(r') => ReadItems(w, r', items)
  }

  lemma NextItem(w: Words, r: Record, rest: Bytes)
    ensures match Find(rest, SEMICOLON)
            case None => Remaining(w, r, rest) == ReadItem(w, r, rest)
            case Some(n) =>
              var next := ReadItem(w, r, rest[..n]);
              Remaining(w, r, rest) == if next.None? then None else Remaining(w, next.value, rest[n + 1..])
  {
    CutFirst(rest, SEMICOLON);
    match Find(rest, SEMICOLON)
    case None => LastItem(w, r, rest);
    case Some(n) => FirstItem(w, r, rest[..n], Split(rest[n + 1..], SEMICOLON));
  }

  lemma LastItem(w: Words, r: Record, item: Bytes)
    ensures ReadItems(w, r, [item]) == ReadItem(w, r, item)
  {
    FirstItem(w, r, item, []);
    assert [item] + [] == [item];
  }

  lemma FirstItem(w: Words, r: Record, item: Bytes, items: seq<Bytes>)
    ensures ReadItems(w, r, [item] + items) == ReadThen(w, ReadItem(w, r, item), items)
  {
    assert ([item] + items)[1..] == items;
  }

  lemma CutFirst(text: Bytes, sep: Byte)
    ensures Split(text, sep) == match Find(text, sep)
                                case None => [text]
                                case Some(n) => [text[..n]] + Split(text[n + 1..], sep)
  {
    match Find(text, sep)
    case None => SplitWord(text, sep);
    case Some(n) =>
      CutParts(text, n);
      SplitAtSep(text[..n], text[n + 1..], sep);
  }

  lemma CutParts(text: Bytes, n: nat)
    requires n < |text|
    ensures text[..n] + [text[n]] + text[n + 1..] == text
  {
  }

  method ReadOneItem(w: Words, r: Record, item: Bytes) returns (next: Option<Record>)
    ensures next == ReadItem(w, r, item)
  {
    if item == [] {
      return Some(r);
    }
    var eq := Find(item, EQUALS);
    if eq.None? || eq.value == 0 || eq.value + 1 > |item| {
      return None;
    }
    var value := PercentDecodeValue(item[eq.value + 1..]);
    if value.None? {
      return None;
    }
    next := SetOnce(w, r, w.fieldOf(item[..eq.value]), value.value);
  }

  // ----- Valid records are exactly what is parsed -----

  ghost predicate NoBlank(values: seq<Bytes>) {
    forall i :: 0 <= i < |values| ==> values[i] != []
  }

  /** What a record built item by item meets, whatever the items. */
  ghost predicate Built(r: Record) {
    NoBlank(r.corpora) && NoBlank(r.domainTags) && NoBlank(r.requiredTags) && NoBlank(r.changedSources)
    && (r.language.Some? ==> Canonical(r.language.value) != [])
  }

  ghost predicate Valid(w: Words, r: Record) {
    Built(r) && FieldsAgree(w, r)
  }

  lemma SetOnceBuilds(w: Words, r: Record, f: Field, v: Bytes)
    requires Built(r) && SetOnce(w, r, f, v).Some?
    ensures Built(SetOnce(w, r, f, v).value)
  {
  }

  lemma {:induction false} ReadItemsBuild(w: Words, r: Record, items: seq<Bytes>)
    requires Built(r) && ReadItems(w, r, items).Some?
    ensures Built(ReadItems(w, r, items).value)
    decreases |items|
  {
    if items != [] {
      var item := items[0];
      if item != [] {
        var eq := Find(item, EQUALS).value;
        SetOnceBuilds(w, r, w.fieldOf(item[..eq]), PercentDecode(item[eq + 1..]).value);
      }
      ReadItemsBuild(w, ReadItem(w, r, item).value, items[1..]);
    }
  }

  lemma ParsedIsValid(w: Words, payload: Bytes)
    requires Parse(w, payload).Some?
    ensures Valid(w, Parse(w, payload).value)
  {
    ReadItemsBuild(w, EMPTY, Split(payload, SEMICOLON));
  }

  // ----- Printing -----

  /** How a printer names what the words of the format name. */
  datatype Names = Names(nameOf: Field -> Bytes, modeName: Mode -> Bytes, kindName: Kind -> Bytes)

  ghost predicate GoodNames(w: Words, n: Names) {
    (forall f :: f != UnknownField ==>
       w.fieldOf(n.nameOf(f)) == f && n.nameOf(f) != [] && Avoids(n.nameOf(f), EQUALS)
       && Avoids(n.nameOf(f), SEMICOLON))
    && (forall m :: w.modeOf(n.modeName(m)) == Some(m))
    && (forall k :: w.kindOf(n.kindName(k)) == Some(k))
    && w.health != [] && w.retrieve != [] && w.refresh != []
  }

  datatype Item = Item(field: Field, value: Bytes)

  function Each(f: Field, values: seq<Bytes>): seq<Item> {
    if values == [] then [] else [Item(f, values[0])] + Each(f, values[1..])
  }

  function Filled(f: Field, value: Bytes): seq<Item> {
    if value == [] then [] else [Item(f, value)]
  }

  /** The items of a record, in one order. */
  function Pairs(n: Names, r: Record): seq<Item> {
    Filled(Operation, r.operation)
    + (Filled(QueryText, r.queryText)
       + ((if r.mode.Some? then [Item(PreferredMode, n.modeName(r.mode.value))] else [])
          + ((if r.kind.Some? then [Item(QueryKind, n.kindName(r.kind.value))] else [])
             + ((if r.language.Some? then [Item(RequiredLanguage, r.language.value)] else [])
                + (Each(AllowedCorpus, r.corpora)
                   + (Each(DomainTag, r.domainTags)
                      + (Each(RequiredTag, r.requiredTags) + Each(ChangedSource, r.changedSources))))))))
  }

  function SetAll(w: Words, r: Record, pairs: seq<Item>): Option<Record>
    decreases |pairs|
  {
    if pairs == [] then Some(r)
    else
      match SetOnce(w, r, pairs[0].field, pairs[0].value)
      case None => None
      case Some(r') => SetAll(w, r', pairs[1..])
  }

  lemma {:induction false} SetThen(w: Words, r: Record, a: seq<Item>, b: seq<Item>)
    requires SetAll(w, r, a).Some?
    ensures SetAll(w, r, a + b) == SetAll(w, SetAll(w, r, a).value, b)
    decreases |a|
  {
    if a == [] {
      assert a + b == b;
    } else {
      assert (a + b)[1..] == a[1..] + b;
      SetThen(w, SetOnce(w, r, a[0].field, a[0].value).value, a[1..], b);
    }
  }

  lemma {:induction false} SetEach(w: Words, r: Record, f: Field, values: seq<Bytes>)
    requires IsListField(f) && NoBlank(values)
    ensures SetAll(w, r, Each(f, values)) == Some(WithList(r, f, ListOf(r, f) + values))
    decreases |values|
  {
    var start := ListOf(r, f);
    if values == [] {
      assert start + values == start;
      assert WithList(r, f, start) == r;
    } else {
      var r' := WithList(r, f, start + [values[0]]);
      SetEach(w, r', f, values[1..]);
      assert Each(f, values)[1..] == Each(f, values[1..]);
      assert ListOf(r', f) == start + [values[0]];
      assert start + [values[0]] + values[1..] == start + values;
    }
  }

  lemma SetFront(w: Words, n: Names, r: Record, rest: seq<Item>)
    requires GoodNames(w, n) && Valid(w, r)
    ensures var front := EMPTY.(operation := r.operation, queryText := r.queryText);
            SetAll(w, EMPTY, Filled(Operation, r.operation) + (Filled(QueryText, r.queryText) + rest))
            == SetAll(w, front, rest)
  {
    var r1 := EMPTY.(operation := r.operation);
    SetThen(w, EMPTY, Filled(Operation, r.operation), Filled(QueryText, r.queryText) + rest);
    assert SetAll(w, EMPTY, Filled(Operation, r.operation)) == Some(r1);
    SetThen(w, r1, Filled(QueryText, r.queryText), rest);
  }

  lemma SetOptions(w: Words, n: Names, front: Record, r: Record, rest: seq<Item>)
    requires GoodNames(w, n) && Valid(w, r)
    requires front == EMPTY.(operation := r.operation, queryText := r.queryText)
    ensures SetAll(w, front,
                   (if r.mode.Some? then [Item(PreferredMode, n.modeName(r.mode.value))] else [])
                   + ((if r.kind.Some? then [Item(QueryKind, n.kindName(r.kind.value))] else [])
                      + ((if r.language.Some? then [Item(RequiredLanguage, r.language.value)] else []) + rest)))
            == SetAll(w, front.(mode := r.mode, kind := r.kind, language := r.language), rest)
  {
    var modes := if r.mode.Some? then [Item(PreferredMode, n.modeName(r.mode.value))] else [];
    var kinds := if r.kind.Some? then [Item(QueryKind, n.kindName(r.kind.value))] else [];
    var languages := if r.language.Some? then [Item(RequiredLanguage, r.language.value)] else [];
    SetThen(w, front, modes, kinds + (languages + rest));
    var r1 := front.(mode := r.mode);
    SetThen(w, r1, kinds, languages + rest);
    var r2 := r1.(kind := r.kind);
    SetThen(w, r2, languages, rest);
  }

  lemma SetListThen(w: Words, r: Record, f: Field, values: seq<Bytes>, rest: seq<Item>)
    requires IsListField(f) && NoBlank(values) && ListOf(r, f) == []
    ensures SetAll(w, r, Each(f, values) + rest) == SetAll(w, WithList(r, f, values), rest)
  {
    SetEach(w, r, f, values);
    assert [] + values == values;
    SetThen(w, r, Each(f, values), rest);
  }

  lemma SetTwoLists(w: Words, front: Record, r: Record)
    requires Built(r) && front == r.(requiredTags := [], changedSources := [])
    ensures SetAll(w, front, Each(RequiredTag, r.requiredTags) + Each(ChangedSource, r.changedSources)) == Some(r)
  {
    SetListThen(w, front, RequiredTag, r.requiredTags, Each(ChangedSource, r.changedSources));
    var almost := r.(changedSources := []);
    assert WithList(front, RequiredTag, r.requiredTags) == almost;
    SetEach(w, almost, ChangedSource, r.changedSources);
    assert [] + r.changedSources == r.changedSources;
    assert WithList(almost, ChangedSource, r.changedSources) == r;
  }

  lemma SetLists(w: Words, front: Record, r: Record)
    requires Built(r) && front == r.(corpora := [], domainTags := [], requiredTags := [], changedSources := [])
    ensures SetAll(w, front,
                   Each(AllowedCorpus, r.corpora)
                   + (Each(DomainTag, r.domainTags) + (Each(RequiredTag, r.requiredTags)
                                                       + Each(ChangedSource, r.changedSources))))
            == Some(r)
  {
    var rest := Each(RequiredTag, r.requiredTags) + Each(ChangedSource, r.changedSources);
    SetListThen(w, front, AllowedCorpus, r.corpora, Each(DomainTag, r.domainTags) + rest);
    var second := front.(corpora := r.corpora);
    assert WithList(front, AllowedCorpus, r.corpora) == second;
    SetListThen(w, second, DomainTag, r.domainTags, rest);
    var third := second.(domainTags := r.domainTags);
    assert WithList(second, DomainTag, r.domainTags) == third;
    SetTwoLists(w, third, r);
  }

  lemma SetPairs(w: Words, n: Names, r: Record)
    requires GoodNames(w, n) && Valid(w, r)
    ensures SetAll(w, EMPTY, Pairs(n, r)) == Some(r)
  {
    var lists := Each(AllowedCorpus, r.corpora)
                 + (Each(DomainTag, r.domainTags) + (Each(RequiredTag, r.requiredTags)
                                                     + Each(ChangedSource, r.changedSources)));
    var options := (if r.mode.Some? then [Item(PreferredMode, n.modeName(r.mode.value))] else [])
                   + ((if r.kind.Some? then [Item(QueryKind, n.kindName(r.kind.value))] else [])
                      + ((if r.language.Some? then [Item(RequiredLanguage, r.language.value)] else []) + lists));
    var front := EMPTY.(operation := r.operation, queryText := r.queryText);
    SetFront(w, n, r, options);
    SetOptions(w, n, front, r, lists);
    SetLists(w, front.(mode := r.mode, kind := r.kind, language := r.language), r);
  }

  /** `item` is a printed pair: its name, an equals sign and any encoding of its value. */
  predicate PrintedItem(n: Names, item: Bytes, p: Item) {
    var name := n.nameOf(p.field);
    |item| > |name| && item[..|name|] == name && item[|name|] == EQUALS && Encodes(item[|name| + 1..], p.value)
  }

  ghost predicate Printed(n: Names, items: seq<Bytes>, pairs: seq<Item>) {
    |items| == |pairs| && forall i :: 0 <= i < |items| ==> PrintedItem(n, items[i], pairs[i])
  }

  lemma PrintedParts(n: Names, item: Bytes, p: Item)
    requires PrintedItem(n, item, p)
    ensures var name := n.nameOf(p.field); item == name + [EQUALS] + item[|name| + 1..]
  {
  }

  lemma PrintedReads(w: Words, n: Names, r: Record, item: Bytes, p: Item)
    requires GoodNames(w, n) && p.field != UnknownField && PrintedItem(n, item, p)
    ensures ReadItem(w, r, item) == SetOnce(w, r, p.field, p.value)
  {
    var name := n.nameOf(p.field);
    DecodesExactly(item[|name| + 1..], p.value);
    FindAt(item, EQUALS, |name|);
    assert Find(item, EQUALS) == Some(|name|);
  }

  lemma PrintedAvoids(w: Words, n: Names, item: Bytes, p: Item)
    requires GoodNames(w, n) && p.field != UnknownField && PrintedItem(n, item, p)
    ensures item != [] && Avoids(item, SEMICOLON)
  {
    var name := n.nameOf(p.field);
    var text := item[|name| + 1..];
    DecodesExactly(text, p.value);
    PrintedParts(n, item, p);
  }

  lemma {:induction false} PrintedItemsRead(w: Words, n: Names, r: Record, items: seq<Bytes>, pairs: seq<Item>)
    requires GoodNames(w, n) && Printed(n, items, pairs) && Known(pairs)
    ensures ReadItems(w, r, items) == SetAll(w, r, pairs)
    ensures EachAvoids(items, SEMICOLON) && forall i :: 0 <= i < |items| ==> items[i] != []
    decreases |items|
  {
    if items != [] {
      PrintedReads(w, n, r, items[0], pairs[0]);
      PrintedAvoids(w, n, items[0], pairs[0]);
      var r' := SetOnce(w, r, pairs[0].field, pairs[0].value);
      PrintedItemsRead(w, n, r'.GetOr(r), items[1..], pairs[1..]);
      assert forall i :: 1 <= i < |items| ==> items[i] == items[1..][i - 1];
    }
  }

  ghost predicate Known(pairs: seq<Item>) {
    forall i :: 0 <= i < |pairs| ==> pairs[i].field != UnknownField
  }

  lemma {:induction false} EachKnown(f: Field, values: seq<Bytes>)
    requires f != UnknownField
    ensures Known(Each(f, values))
  {
    if values != [] {
      EachKnown(f, values[1..]);
    }
  }

  lemma KnownAppend(a: seq<Item>, b: seq<Item>)
    requires Known(a) && Known(b)
    ensures Known(a + b)
  {
  }

  lemma ListsKnown(r: Record)
    ensures Known(Each(AllowedCorpus, r.corpora)
                  + (Each(DomainTag, r.domainTags) + (Each(RequiredTag, r.requiredTags)
                                                      + Each(ChangedSource, r.changedSources))))
  {
    EachKnown(AllowedCorpus, r.corpora);
    EachKnown(DomainTag, r.domainTags);
    EachKnown(RequiredTag, r.requiredTags);
    EachKnown(ChangedSource, r.changedSources);
    var tags, sources := Each(RequiredTag, r.requiredTags), Each(ChangedSource, r.changedSources);
    KnownAppend(tags, sources);
    KnownAppend(Each(DomainTag, r.domainTags), tags + sources);
    KnownAppend(Each(AllowedCorpus, r.corpora), Each(DomainTag, r.domainTags) + (tags + sources));
  }

  lemma OptionsKnown(n: Names, r: Record, lists: seq<Item>)
    requires Known(lists)
    ensures Known((if r.mode.Some? then [Item(PreferredMode, n.modeName(r.mode.value))] else [])
                  + ((if r.kind.Some? then [Item(QueryKind, n.kindName(r.kind.value))] else [])
                     + ((if r.language.Some? then [Item(RequiredLanguage, r.language.value)] else []) + lists)))
  {
    var languages := if r.language.Some? then [Item(RequiredLanguage, r.language.value)] else [];
    var kinds := if r.kind.Some? then [Item(QueryKind, n.kindName(r.kind.value))] else [];
    var modes := if r.mode.Some? then [Item(PreferredMode, n.modeName(r.mode.value))] else [];
    KnownAppend(languages, lists);
    KnownAppend(kinds, languages + lists);
    KnownAppend(modes, kinds + (languages + lists));
  }

  lemma FilledKnown(r: Record, rest: seq<Item>)
    requires Known(rest)
    ensures Known(Filled(Operation, r.operation) + (Filled(QueryText, r.queryText) + rest))
  {
    KnownAppend(Filled(QueryText, r.queryText), rest);
    KnownAppend(Filled(Operation, r.operation), Filled(QueryText, r.queryText) + rest);
  }

  lemma PairsKnown(n: Names, r: Record)
    ensures Known(Pairs(n, r))
  {
    var lists := Each(AllowedCorpus, r.corpora)
                 + (Each(DomainTag, r.domainTags) + (Each(RequiredTag, r.requiredTags)
                                                     + Each(ChangedSource, r.changedSources)));
    ListsKnown(r);
    OptionsKnown(n, r, lists);
    FilledKnown(r, (if r.mode.Some? then [Item(PreferredMode, n.modeName(r.mode.value))] else [])
                   + ((if r.kind.Some? then [Item(QueryKind, n.kindName(r.kind.value))] else [])
                      + ((if r.language.Some? then [Item(RequiredLanguage, r.language.value)] else []) + lists)));
  }

  lemma JoinFilled(items: seq<Bytes>)
    requires items != [] && items[0] != []
    ensures Join(items, SEMICOLON) != []
  {
  }

  /** Every valid record, printed with any encoding of its values, parses back to itself. */
  lemma PayloadRoundTrip(w: Words, n: Names, r: Record, items: seq<Bytes>)
    requires GoodNames(w, n) && Valid(w, r) && Printed(n, items, Pairs(n, r))
    ensures items != [] && Parse(w, Join(items, SEMICOLON)) == Some(r)
  {
    PairsKnown(n, r);
    PrintedItemsRead(w, n, EMPTY, items, Pairs(n, r));
    SetPairs(w, n, r);
    assert r.operation != [];
    assert items != [];
    SplitJoin(items, SEMICOLON);
    JoinFilled(items);
  }

  function HexChar(v: Byte): Byte {
    if v < 10 then 0x30 + v else 0x37 + v
  }

  /** One encoder: every byte escaped. So every valid record is the reading of some payload. */
  function EscapeAll(value: Bytes): Bytes {
    if value == [] then [] else [PERCENT, HexChar(value[0] >> 4), HexChar(value[0] & 0xf)] + EscapeAll(value[1..])
  }

  lemma HexCharDigit(v: Byte)
    requires v < 16
    ensures HexDigit(HexChar(v)) == Some(v)
  {
  }

  lemma NibblesJoin(b: Byte)
    ensures b >> 4 < 16 && b & 0xf < 16 && Joined(b >> 4, b & 0xf) == b
  {
  }

  lemma {:induction false} EscapeAllEncodes(value: Bytes)
    ensures Encodes(EscapeAll(value), value)
  {
    if value != [] {
      NibblesJoin(value[0]);
      HexCharDigit(value[0] >> 4);
      HexCharDigit(value[0] & 0xf);
      EscapeAllEncodes(value[1..]);
      assert EscapeAll(value)[3..] == EscapeAll(value[1..]);
    }
  }

  function PrintAll(n: Names, pairs: seq<Item>): seq<Bytes> {
    if pairs == [] then []
    else [n.nameOf(pairs[0].field) + [EQUALS] + EscapeAll(pairs[0].value)] + PrintAll(n, pairs[1..])
  }

  lemma {:induction false} PrintAllPrints(n: Names, pairs: seq<Item>)
    ensures Printed(n, PrintAll(n, pairs), pairs)
  {
    if pairs != [] {
      PrintAllPrints(n, pairs[1..]);
      var name, text := n.nameOf(pairs[0].field), EscapeAll(pairs[0].value);
      var item := name + [EQUALS] + text;
      EscapeAllEncodes(pairs[0].value);
      assert item[..|name|] == name && item[|name| + 1..] == text;
    }
  }

  /** The records that parsing can return are exactly the valid ones. */
  lemma ParseImage(w: Words, n: Names, r: Record)
    requires GoodNames(w, n)
    ensures Valid(w, r) <==> exists payload :: Parse(w, payload) == Some(r)
  {
    if Valid(w, r) {
      PrintAllPrints(n, Pairs(n, r));
      PayloadRoundTrip(w, n, r, PrintAll(n, Pairs(n, r)));
      assert Parse(w, Join(PrintAll(n, Pairs(n, r)), SEMICOLON)) == Some(r);
    }
    if payload :| Parse(w, payload) == Some(r) {
      ParsedIsValid(w, payload);
    }
  }

  // ----- The words of the source -----

  function FieldName(f: Field): string {
    match f
    case Operation => "operation"
    case QueryText => "query_text"
    case PreferredMode => "preferred_mode"
    case QueryKind => "query_kind"
    case AllowedCorpus => "allowed_corpus"
    case DomainTag => "domain_tag"
    case RequiredTag => "required_tag"
    case RequiredLanguage => "required_language"
    case ChangedSource => "changed_source"
    case UnknownField => ""
  }

  function NameOf(f: Field): Bytes {
    Ascii(FieldName(f))
  }

  function FieldOf(key: Bytes): Field {
    if key == NameOf(Operation) then Operation
    else if key == NameOf(QueryText) then QueryText
    else if key == NameOf(PreferredMode) then PreferredMode
    else if key == NameOf(QueryKind) then QueryKind
    else if key == NameOf(AllowedCorpus) then AllowedCorpus
    else if key == NameOf(DomainTag) then DomainTag
    else if key == NameOf(RequiredTag) then RequiredTag
    else if key == NameOf(RequiredLanguage) then RequiredLanguage
    else if key == NameOf(ChangedSource) then ChangedSource
    else UnknownField
  }

  function ModeText(m: Mode): string {
    match m
    case LexicalOnly => "lexical_only"
    case DenseOnly => "dense_only"
    case Hybrid => "hybrid"
  }

  function ModeName(m: Mode): Bytes {
    Ascii(ModeText(m))
  }

  function ModeOf(value: Bytes): Option<Mode> {
    var c := Canonical(value);
    if c == ModeName(LexicalOnly) then Some(LexicalOnly)
    else if c == ModeName(DenseOnly) then Some(DenseOnly)
    else if c == ModeName(Hybrid) then Some(Hybrid)
    else None
  }

  function KindText(k: Kind): string {
    match k
    case FactLookup => "fact_lookup"
    case ProcedureLookup => "procedure_lookup"
    case DiagnosticContext => "diagnostic_context"
    case PolicyEvidence => "policy_evidence"
    case MultiHop => "multi_hop"
  }

  function KindName(k: Kind): Bytes {
    Ascii(KindText(k))
  }

  function KindOf(value: Bytes): Option<Kind> {
    var c := Canonical(value);
    if c == KindName(FactLookup) then Some(FactLookup)
    else if c == KindName(ProcedureLookup) then Some(ProcedureLookup)
    else if c == KindName(DiagnosticContext) then Some(DiagnosticContext)
    else if c == KindName(PolicyEvidence) then Some(PolicyEvidence)
    else if c == KindName(MultiHop) then Some(MultiHop)
    else None
  }

  const WORDS: Words := Words(FieldOf, ModeOf, KindOf, Ascii("health"), Ascii("retrieve"), Ascii("refresh"))
  const NAMES: Names := Names(NameOf, ModeName, KindName)

  lemma NamesAreWords(f: Field)
    requires f != UnknownField
    ensures IsWord(FieldName(f)) && FieldName(f) != ""
  {
  }

  lemma NamesDiffer(f: Field, g: Field)
    requires f != g && f != UnknownField && g != UnknownField
    ensures NameOf(f) != NameOf(g)
  {
    var i := if f.QueryText? || g.QueryText? then 6 else 0;
    AsciiDiffers(FieldName(f), FieldName(g), i);
  }

  lemma FieldOfName(f: Field)
    requires f != UnknownField
    ensures FieldOf(NameOf(f)) == f
  {
    forall g | g != f && g != UnknownField ensures NameOf(g) != NameOf(f) {
      NamesDiffer(f, g);
    }
  }

  lemma FieldNames(f: Field)
    requires f != UnknownField
    ensures FieldOf(NameOf(f)) == f && NameOf(f) != [] && Avoids(NameOf(f), EQUALS) && Avoids(NameOf(f), SEMICOLON)
  {
    FieldOfName(f);
    NamesAreWords(f);
    WordAvoids(FieldName(f), EQUALS);
    WordAvoids(FieldName(f), SEMICOLON);
  }

  /** Words with single underscores inside. */
  ghost predicate IsKeyword(s: string) {
    IsWord(s) && s != "" && s[0] != '_' && s[|s| - 1] != '_'
    && forall i :: 0 < i < |s| && s[i] == '_' ==> s[i - 1] != '_'
  }

  lemma KeywordByte(s: string, i: nat)
    requires IsWord(s) && i < |s|
    ensures if s[i] == '_' then Ascii(s)[i] == UNDERSCORE else IsWordByte(Ascii(s)[i]) && Ascii(s)[i] != UNDERSCORE
  {
    assert Ascii(s)[i] as int == s[i] as int % 256;
    if s[i] == '_' {
      SameByte(Ascii(s)[i], UNDERSCORE);
    }
  }

  lemma KeywordIsToken(s: string)
    requires IsKeyword(s)
    ensures IsToken(Ascii(s)) && Canonical(Ascii(s)) == Ascii(s)
  {
    var b := Ascii(s);
    forall i | 0 <= i < |s|
      ensures (IsWordByte(b[i]) || b[i] == UNDERSCORE) && (b[i] == UNDERSCORE <==> s[i] == '_')
    {
      KeywordByte(s, i);
    }
    TokenIsFixed(b);
  }

  lemma ModeIsKeyword(m: Mode)
    ensures IsKeyword(ModeText(m))
  {
  }

  lemma ModesDiffer(m: Mode, o: Mode)
    requires m != o
    ensures ModeName(m) != ModeName(o)
  {
    AsciiDiffers(ModeText(m), ModeText(o), 0);
  }

  lemma ModeNames(m: Mode)
    ensures ModeOf(ModeName(m)) == Some(m)
  {
    ModeIsKeyword(m);
    KeywordIsToken(ModeText(m));
    forall o | o != m ensures ModeName(o) != ModeName(m) {
      ModesDiffer(m, o);
    }
  }

  lemma KindIsWord(k: Kind)
    ensures IsWord(KindText(k))
  {
  }

  lemma KindIsKeyword(k: Kind)
    ensures IsKeyword(KindText(k))
  {
    KindIsWord(k);
  }

  lemma KindsDiffer(k: Kind, o: Kind)
    requires k != o
    ensures KindName(k) != KindName(o)
  {
    AsciiDiffers(KindText(k), KindText(o), 0);
  }

  lemma KindNames(k: Kind)
    ensures KindOf(KindName(k)) == Some(k)
  {
    KindIsKeyword(k);
    KeywordIsToken(KindText(k));
    forall o | o != k ensures KindName(o) != KindName(k) {
      KindsDiffer(k, o);
    }
  }

  /** The words of the source are told apart, so the round trip holds for them. */
  lemma WordsAreGood()
    ensures GoodNames(WORDS, NAMES)
  {
    forall f | f != UnknownField
      ensures FieldOf(NameOf(f)) == f && NameOf(f) != [] && Avoids(NameOf(f), EQUALS) && Avoids(NameOf(f), SEMICOLON)
    {
      FieldNames(f);
    }
    forall m ensures ModeOf(ModeName(m)) == Some(m) {
      ModeNames(m);
    }
    forall k ensures KindOf(KindName(k)) == Some(k) {
      KindNames(k);
    }
  }
}
