/** Cutting texts at a separator and joining them again. */
module Splitting {
  import opened Wrappers
  import opened ByteText

  /** The first position of a byte. */
  function Find(text: Bytes, c: Byte): (i: Option<nat>)
    ensures i.Some? ==> i.value < |text| && text[i.value] == c && Avoids(text[..i.value], c)
    ensures i.None? ==> Avoids(text, c)
  {
    if text == [] then None
    else if text[0] == c then Some(0)
    else
      match Find(text[1..], c)
      case None => None
      case Some(i) =>
        assert text[..i + 1] == [text[0]] + text[1..][..i];
        Some(i + 1)
  }

  lemma {:induction false} FindAt(text: Bytes, c: Byte, n: nat)
    requires n < |text| && text[n] == c && Avoids(text[..n], c)
    ensures Find(text, c) == Some(n)
  {
    if n > 0 {
      assert text[..n][0] != c;
      assert text[..n][1..] == text[1..][..n - 1];
      FindAt(text[1..], c, n - 1);
    }
  }

  function Join(parts: seq<Bytes>, sep: Byte): Bytes
    requires parts != []
  {
    if |parts| == 1 then parts[0] else parts[0] + [sep] + Join(parts[1..], sep)
  }

  function Split(text: Bytes, sep: Byte): (parts: seq<Bytes>)
    ensures parts != []
  {
    if text == [] then [[]]
    else if text[0] == sep then [[]] + Split(text[1..], sep)
    else OntoFirst(text[0], Split(text[1..], sep))
  }

  function OntoFirst(b: Byte, parts: seq<Bytes>): (r: seq<Bytes>)
    requires parts != []
    ensures r != []
  {
    [[b] + parts[0]] + parts[1..]
  }

  ghost predicate EachAvoids(parts: seq<Bytes>, sep: Byte) {
    forall i :: 0 <= i < |parts| ==> Avoids(parts[i], sep)
  }

  lemma AvoidsTail(text: Bytes, sep: Byte)
    requires text != []
    ensures Avoids(text, sep) <==> text[0] != sep && Avoids(text[1..], sep)
  {
    assert forall i :: 1 <= i < |text| ==> text[i] == text[1..][i - 1];
  }

  lemma {:induction false} SplitWord(word: Bytes, sep: Byte)
    requires Avoids(word, sep)
    ensures Split(word, sep) == [word]
  {
    if word != [] {
      AvoidsTail(word, sep);
      SplitWord(word[1..], sep);
      assert [word[0]] + word[1..] == word;
    }
  }

  lemma {:induction false} SplitAtSep(word: Bytes, rest: Bytes, sep: Byte)
    requires Avoids(word, sep)
    ensures Split(word + [sep] + rest, sep) == [word] + Split(rest, sep)
  {
    var text := word + [sep] + rest;
    if word == [] {
      assert text[1..] == rest;
    } else {
      AvoidsTail(word, sep);
      SplitAtSep(word[1..], rest, sep);
      assert text[1..] == word[1..] + [sep] + rest;
      assert [word[0]] + word[1..] == word;
    }
  }

  /** Splitting undoes joining, on parts without the separator. */
  lemma {:induction false} SplitJoin(parts: seq<Bytes>, sep: Byte)
    requires parts != [] && EachAvoids(parts, sep)
    ensures Split(Join(parts, sep), sep) == parts
  {
    if |parts| == 1 {
      SplitWord(parts[0], sep);
    } else {
      SplitJoin(parts[1..], sep);
      SplitAtSep(parts[0], Join(parts[1..], sep), sep);
    }
  }

  /** Joining undoes splitting, on every text, and no part holds the separator. */
  lemma {:induction false} JoinSplit(text: Bytes, sep: Byte)
    ensures EachAvoids(Split(text, sep), sep) && Join(Split(text, sep), sep) == text
  {
    if text != [] {
      JoinSplit(text[1..], sep);
      var rest := Split(text[1..], sep);
      assert text == [text[0]] + text[1..];
      if text[0] == sep {
        assert ([[]] + rest)[1..] == rest;
      } else {
        OntoFirstJoin(text[0], rest, sep);
      }
    }
  }

  lemma OntoFirstJoin(b: Byte, parts: seq<Bytes>, sep: Byte)
    requires parts != [] && EachAvoids(parts, sep) && b != sep
    ensures EachAvoids(OntoFirst(b, parts), sep) && Join(OntoFirst(b, parts), sep) == [b] + Join(parts, sep)
  {
    var r := OntoFirst(b, parts);
    assert r[1..] == parts[1..];
    AvoidsTail(r[0], sep);
    assert r[0][1..] == parts[0];
    forall i | 0 <= i < |r| ensures Avoids(r[i], sep) {
      if i > 0 {
        assert r[i] == parts[i];
      }
    }
  }

  lemma {:induction false} JoinLast(parts: seq<Bytes>, last: Bytes, sep: Byte)
    requires parts != []
    ensures Join(parts + [last], sep) == Join(parts, sep) + [sep] + last
  {
    if |parts| == 1 {
      assert (parts + [last])[1..] == [last];
    } else {
      JoinLast(parts[1..], last, sep);
      assert (parts + [last])[1..] == parts[1..] + [last];
    }
  }

  lemma JoinCons(first: Bytes, joined: Bytes, rest: Bytes, sep: Byte)
    ensures first + [sep] + joined + [sep] + rest == first + [sep] + (joined + [sep] + rest)
  {
  }

  lemma ConsAppend(parts: seq<Bytes>, more: seq<Bytes>)
    requires parts != []
    ensures [parts[0]] + (parts[1..] + more) == parts + more
  {
  }

  lemma {:induction false} MoreParts(parts: seq<Bytes>, rest: Bytes, sep: Byte)
    requires parts != [] && EachAvoids(parts, sep)
    ensures Split(Join(parts, sep) + [sep] + rest, sep) == parts + Split(rest, sep)
  {
    var first, others := parts[0], parts[1..];
    if others == [] {
      SplitAtSep(first, rest, sep);
    } else {
      var joined := Join(others, sep);
      MoreParts(others, rest, sep);
      JoinCons(first, joined, rest, sep);
      SplitAtSep(first, joined + [sep] + rest, sep);
      ConsAppend(parts, Split(rest, sep));
    }
  }

  lemma {:induction false} SplitLength(text: Bytes, sep: Byte)
    ensures |Split(text, sep)| == 1 <==> Avoids(text, sep)
  {
    if text != [] {
      SplitLength(text[1..], sep);
      AvoidsTail(text, sep);
    }
  }

  // ----- A cutting loop -----

  lemma {:induction false} SplitPrefix(text: Bytes, start: nat, index: nat, sep: Byte)
    requires start <= index < |text| && text[index] == sep && Avoids(text[start..index], sep)
    ensures Split(text[start..], sep) == [text[start..index]] + Split(text[index + 1..], sep)
  {
    SplitAtSep(text[start..index], text[index + 1..], sep);
    assert text[start..] == text[start..index] + [sep] + text[index + 1..];
  }

  lemma AvoidsOneMore(text: Bytes, start: nat, index: nat, sep: Byte)
    requires start <= index < |text| && text[index] != sep && Avoids(text[start..index], sep)
    ensures Avoids(text[start..index + 1], sep)
  {
    assert text[start..index + 1] == text[start..index] + [text[index]];
  }

  /** Where the loop stands: the parts cut so far, and those still to come. */
  ghost predicate Cut(text: Bytes, done: seq<Bytes>, start: nat, index: nat, sep: Byte) {
    if index <= |text| then
      start <= index && Avoids(text[start..index], sep) && Split(text, sep) == done + Split(text[start..], sep)
    else Split(text, sep) == done
  }

  lemma CutHere(text: Bytes, done: seq<Bytes>, start: nat, index: nat, sep: Byte)
    requires index <= |text| && Cut(text, done, start, index, sep) && (index == |text| || text[index] == sep)
    ensures Cut(text, done + [text[start..index]], index + 1, index + 1, sep)
    ensures |Split(text, sep)| > |done|
  {
    var part := text[start..index];
    if index == |text| {
      assert text[start..] == part;
      SplitWord(part, sep);
    } else {
      SplitPrefix(text, start, index, sep);
      assert done + ([part] + Split(text[index + 1..], sep)) == done + [part] + Split(text[index + 1..], sep);
      assert text[index + 1..index + 1] == [];
    }
  }

  lemma CutLater(text: Bytes, done: seq<Bytes>, start: nat, index: nat, sep: Byte)
    requires index < |text| && Cut(text, done, start, index, sep) && text[index] != sep
    ensures Cut(text, done, start, index + 1, sep)
  {
    AvoidsOneMore(text, start, index, sep);
  }
}
