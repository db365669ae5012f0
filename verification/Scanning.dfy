/** Counting a text piece by piece, for any way of taking the first piece. */
module Scanning {
  import opened ByteText

  datatype Counts = Counts(ascii: nat, cjk: nat, other: nat)

  const NONE := Counts(0, 0, 0)

  function Plus(x: Counts, y: Counts): Counts {
    Counts(x.ascii + y.ascii, x.cjk + y.cjk, x.other + y.other)
  }

  function Total(x: Counts): nat {
    x.ascii + x.cjk + x.other
  }

  /** The first piece of a text: what it counts as, and how long it is. */
  datatype Piece = Piece(counts: Counts, length: nat)

  type Scan = Bytes -> Piece

  predicate Takes(scan: Scan, text: Bytes) {
    text != [] && 1 <= scan(text).length <= |text|
  }

  ghost predicate Sane(scan: Scan) {
    forall t :: t != [] ==> Takes(scan, t) && Total(scan(t).counts) == 1
  }

  function CountBy(scan: Scan, text: Bytes): Counts
    decreases |text|
  {
    if !Takes(scan, text) then NONE else Plus(scan(text).counts, CountBy(scan, text[scan(text).length..]))
  }

  /** No suffix where a piece starts is one that more bytes could change. */
  predicate ClosedBy(scan: Scan, pending: Bytes -> bool, text: Bytes)
    decreases |text|
  {
    !Takes(scan, text) || (!pending(text) && ClosedBy(scan, pending, text[scan(text).length..]))
  }

  ghost predicate Steady(scan: Scan, pending: Bytes -> bool) {
    forall t, u :: t != [] && !pending(t) ==> scan(t + u) == scan(t)
  }

  /** A pending text has a completion into one single piece. */
  ghost predicate Completes(scan: Scan, pending: Bytes -> bool, complete: Bytes -> Bytes) {
    forall t :: t != [] && pending(t) ==>
      complete(t) != [] && scan(t + complete(t)).length == |t| + |complete(t)|
  }

  lemma DropAppend(a: Bytes, b: Bytes, n: nat)
    requires n <= |a|
    ensures (a + b)[n..] == a[n..] + b
  {
  }

  lemma AppendStep(scan: Scan, pending: Bytes -> bool, a: Bytes, b: Bytes)
    requires Sane(scan) && Steady(scan, pending) && a != [] && !pending(a)
    ensures var n := scan(a).length;
            n <= |a| && CountBy(scan, a) == Plus(scan(a).counts, CountBy(scan, a[n..]))
            && CountBy(scan, a + b) == Plus(scan(a).counts, CountBy(scan, a[n..] + b))
  {
    assert Takes(scan, a) && Takes(scan, a + b) && scan(a + b) == scan(a);
    DropAppend(a, b, scan(a).length);
  }

  lemma PlusAssociates(x: Counts, y: Counts, z: Counts)
    ensures Plus(Plus(x, y), z) == Plus(x, Plus(y, z))
  {
  }

  lemma PlusNone(x: Counts)
    ensures Plus(NONE, x) == x && Plus(x, NONE) == x
  {
  }

  lemma ClosedStep(scan: Scan, pending: Bytes -> bool, a: Bytes)
    requires Sane(scan) && ClosedBy(scan, pending, a) && a != []
    ensures !pending(a) && 1 <= scan(a).length <= |a| && ClosedBy(scan, pending, a[scan(a).length..])
  {
    assert Takes(scan, a);
  }

  lemma {:induction false} AppendBy(scan: Scan, pending: Bytes -> bool, a: Bytes, b: Bytes)
    requires Sane(scan) && Steady(scan, pending) && ClosedBy(scan, pending, a)
    ensures CountBy(scan, a + b) == Plus(CountBy(scan, a), CountBy(scan, b))
    decreases |a|
  {
    if a == [] {
      assert a + b == b && CountBy(scan, a) == NONE;
      PlusNone(CountBy(scan, b));
    } else {
      ClosedStep(scan, pending, a);
      var rest := a[scan(a).length..];
      AppendStep(scan, pending, a, b);
      AppendBy(scan, pending, rest, b);
      PlusAssociates(scan(a).counts, CountBy(scan, rest), CountBy(scan, b));
    }
  }

  lemma SomeCount(scan: Scan, text: Bytes)
    requires Sane(scan) && text != []
    ensures Total(CountBy(scan, text)) >= 1
  {
    assert Takes(scan, text) && Total(scan(text).counts) == 1;
  }

  lemma OnePiece(scan: Scan, text: Bytes)
    requires Sane(scan) && text != [] && scan(text).length == |text|
    ensures Total(CountBy(scan, text)) == 1
  {
    assert Takes(scan, text) && Total(scan(text).counts) == 1;
    assert text[|text|..] == [];
  }

  lemma CountNothing(scan: Scan, text: Bytes)
    requires text == []
    ensures CountBy(scan, text) == NONE
  {
  }

  lemma TwoPieces(scan: Scan, text: Bytes, rest: Bytes)
    requires Sane(scan) && |text| == 2 && scan(text).length == 1 && rest == text[1..] && scan(rest).length == 1
    ensures Total(CountBy(scan, text)) == 2
  {
    OnePiece(scan, rest);
    assert Takes(scan, text) && Total(scan(text).counts) == 1;
  }

  lemma {:induction false} Finisher(scan: Scan, pending: Bytes -> bool, complete: Bytes -> Bytes, a: Bytes)
    returns (b: Bytes)
    requires Sane(scan) && Steady(scan, pending) && Completes(scan, pending, complete) && !ClosedBy(scan, pending, a)
    ensures CountBy(scan, a + b) != Plus(CountBy(scan, a), CountBy(scan, b))
    decreases |a|
  {
    if pending(a) {
      b := complete(a);
      OnePiece(scan, a + b);
      SomeCount(scan, a);
      SomeCount(scan, b);
    } else {
      b := Finisher(scan, pending, complete, a[scan(a).length..]);
      AppendStep(scan, pending, a, b);
    }
  }

  /** The counts of the parts add up whatever follows exactly when the first part is closed. */
  lemma AddsExactly(scan: Scan, pending: Bytes -> bool, complete: Bytes -> Bytes, a: Bytes)
    requires Sane(scan) && Steady(scan, pending) && Completes(scan, pending, complete)
    ensures (forall b :: CountBy(scan, a + b) == Plus(CountBy(scan, a), CountBy(scan, b))) <==>
              ClosedBy(scan, pending, a)
  {
    if ClosedBy(scan, pending, a) {
      forall b ensures CountBy(scan, a + b) == Plus(CountBy(scan, a), CountBy(scan, b)) {
        AppendBy(scan, pending, a, b);
      }
    } else {
      var b := Finisher(scan, pending, complete, a);
      assert CountBy(scan, a + b) != Plus(CountBy(scan, a), CountBy(scan, b));
    }
  }
}
