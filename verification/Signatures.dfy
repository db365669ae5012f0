/** Four parts joined by three separators: when the joined text has one reading only. */
module Signatures {
  import opened ByteText

  datatype Parts = Parts(entryType: Bytes, protocolKind: Bytes, actorRef: Bytes, key: Bytes)

  function Joined(p: Parts, c: Byte): Bytes {
    p.entryType + [c] + (p.protocolKind + [c] + (p.actorRef + [c] + p.key))
  }

  /** The separator stands in none of the parts before the key. */
  predicate Plain(p: Parts, c: Byte) {
    Avoids(p.entryType, c) && Avoids(p.protocolKind, c) && Avoids(p.actorRef, c)
  }

  /** Beside the separators it may stand in the last place of the key only. */
  predicate Unmistakable(p: Parts, c: Byte) {
    Plain(p, c) && forall i :: 0 <= i < |p.key| - 1 ==> p.key[i] != c
  }

  /** What is before the first separator, and after it, is determined by the whole. */
  lemma CutOnce(x: Bytes, y: Bytes, u: Bytes, v: Bytes, c: Byte)
    requires Avoids(x, c) && Avoids(y, c) && x + [c] + u == y + [c] + v
    ensures x == y && u == v
  {
    var s, t := x + [c] + u, y + [c] + v;
    assert s[|x|] == c && t[|y|] == c;
    assert forall i :: 0 <= i < |x| ==> s[i] == x[i];
    assert forall i :: 0 <= i < |y| ==> t[i] == y[i];
    assert |x| == |y|;
    assert s[..|x|] == x && t[..|y|] == y;
    assert s[|x| + 1..] == u && t[|y| + 1..] == v;
  }

  /** Plain parts are determined by their joined text. */
  lemma JoinedPlain(p: Parts, q: Parts, c: Byte)
    requires Plain(p, c) && Plain(q, c) && Joined(p, c) == Joined(q, c)
    ensures p == q
  {
    var s, t := p.actorRef + [c] + p.key, q.actorRef + [c] + q.key;
    CutOnce(p.entryType, q.entryType, p.protocolKind + [c] + s, q.protocolKind + [c] + t, c);
    CutOnce(p.protocolKind, q.protocolKind, s, t, c);
    CutOnce(p.actorRef, q.actorRef, p.key, q.key, c);
  }

  // ----- Counting separators -----

  function Count(x: Bytes, c: Byte): nat {
    if x == [] then 0 else (if x[0] == c then 1 else 0) + Count(x[1..], c)
  }

  lemma {:induction false} CountPlus(x: Bytes, y: Bytes, c: Byte)
    ensures Count(x + y, c) == Count(x, c) + Count(y, c)
  {
    if x == [] {
      assert x + y == y;
    } else {
      CountPlus(x[1..], y, c);
      assert (x + y)[1..] == x[1..] + y;
    }
  }

  lemma {:induction false} CountNone(x: Bytes, c: Byte)
    ensures Avoids(x, c) <==> Count(x, c) == 0
  {
    if x != [] {
      CountNone(x[1..], c);
      assert forall i :: 1 <= i < |x| ==> x[i] == x[1..][i - 1];
    }
  }

  lemma CountCut(x: Bytes, y: Bytes, c: Byte)
    ensures Count(x + [c] + y, c) == Count(x, c) + 1 + Count(y, c)
  {
    CountPlus(x + [c], y, c);
    CountPlus(x, [c], c);
    assert [c][1..] == [];
  }

  lemma CountJoined(p: Parts, c: Byte)
    ensures Count(Joined(p, c), c)
            == Count(p.entryType, c) + Count(p.protocolKind, c) + Count(p.actorRef, c) + Count(p.key, c) + 3
  {
    CountCut(p.actorRef, p.key, c);
    CountCut(p.protocolKind, p.actorRef + [c] + p.key, c);
    CountCut(p.entryType, p.protocolKind + [c] + (p.actorRef + [c] + p.key), c);
  }

  function Last(x: Bytes): Byte
    requires x != []
  {
    x[|x| - 1]
  }

  lemma CountFront(key: Bytes, c: Byte)
    requires key != []
    ensures Count(key, c) == Count(key[..|key| - 1], c) + if Last(key) == c then 1 else 0
  {
    CountPlus(key[..|key| - 1], [Last(key)], c);
    assert key == key[..|key| - 1] + [Last(key)];
    assert [Last(key)][1..] == [];
  }

  lemma JoinedLast(p: Parts, c: Byte)
    requires p.key != []
    ensures Joined(p, c) != [] && Last(Joined(p, c)) == Last(p.key)
  {
  }

  lemma PlainByCount(p: Parts, c: Byte)
    ensures Plain(p, c) <==> Count(p.entryType, c) + Count(p.protocolKind, c) + Count(p.actorRef, c) == 0
  {
    CountNone(p.entryType, c);
    CountNone(p.protocolKind, c);
    CountNone(p.actorRef, c);
  }

  lemma Unmistaken(p: Parts, q: Parts, c: Byte)
    requires Joined(p, c) == Joined(q, c) && Unmistakable(p, c) && p.key != [] && q.key != []
    ensures p == q
  {
    CountJoined(p, c);
    CountJoined(q, c);
    JoinedLast(p, c);
    JoinedLast(q, c);
    CountFront(p.key, c);
    CountFront(q.key, c);
    CountNone(p.key[..|p.key| - 1], c);
    PlainByCount(p, c);
    PlainByCount(q, c);
    JoinedPlain(p, q, c);
  }

  // ----- Cutting at another separator -----

  lemma Cut(x: Bytes, i: nat, c: Byte)
    requires i < |x| && x[i] == c
    ensures x == x[..i] + [c] + x[i + 1..]
  {
  }

  lemma Associate(x: Bytes, y: Bytes, z: Bytes, c: Byte)
    ensures (x + [c] + y) + [c] + z == x + [c] + (y + [c] + z)
  {
  }

  /** A separator in any other place lets the text be cut into other parts. */
  lemma Mistaken(p: Parts, c: Byte) returns (q: Parts)
    requires p.key != [] && !Unmistakable(p, c)
    ensures Joined(q, c) == Joined(p, c) && q != p && q.key != []
  {
    var Parts(e, k, u, y) := p;
    if !Avoids(e, c) {
      var i :| 0 <= i < |e| && e[i] == c;
      Cut(e, i, c);
      Associate(e[..i], e[i + 1..], k + [c] + (u + [c] + y), c);
      Associate(k, u, y, c);
      q := Parts(e[..i], e[i + 1..], k + [c] + u, y);
    } else if !Avoids(k, c) {
      var i :| 0 <= i < |k| && k[i] == c;
      Cut(k, i, c);
      Associate(k[..i], k[i + 1..], u + [c] + y, c);
      Associate(k[i + 1..], u, y, c);
      q := Parts(e, k[..i], k[i + 1..] + [c] + u, y);
    } else if !Avoids(u, c) {
      var i :| 0 <= i < |u| && u[i] == c;
      Cut(u, i, c);
      Associate(u[..i], u[i + 1..], y, c);
      q := Parts(e, k, u[..i], u[i + 1..] + [c] + y);
    } else {
      var i :| 0 <= i < |y| - 1 && y[i] == c;
      Cut(y, i, c);
      Associate(u, y[..i], y[i + 1..], c);
      q := Parts(e, k, u + [c] + y[..i], y[i + 1..]);
    }
  }
}
