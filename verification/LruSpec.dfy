/**
 The result replay cache as one ordered list of items, most recent first, with a capacity
 and a time to live. The class of `ReplayCache` refines it.
 */
module LruSpec {
  import opened ByteText
  import opened Wrappers

  type Key = Bytes

  datatype Item<V> = Item(key: Key, envelope: V, expiresAt: int)

  /** Most recently used first. */
  type Lru<V> = seq<Item<V>>

  ghost predicate Distinct<V>(s: Lru<V>) {
    forall i, j :: 0 <= i < j < |s| ==> s[i].key != s[j].key
  }

  /** The position of `k`, or `|s|` when it is absent. */
  function Index<V>(s: Lru<V>, k: Key): (i: nat)
    ensures i <= |s|
    ensures i < |s| ==> s[i].key == k
    ensures forall j :: 0 <= j < i ==> s[j].key != k
  {
    if s == [] || s[0].key == k then 0 else 1 + Index(s[1..], k)
  }

  function Drop<T>(s: seq<T>, i: nat): seq<T>
    requires i < |s|
  {
    s[..i] + s[i + 1..]
  }

  function Without<V>(s: Lru<V>, k: Key): Lru<V> {
    var i := Index(s, k);
    if i < |s| then Drop(s, i) else s
  }

  function Truncate<T>(s: seq<T>, n: nat): seq<T> {
    if |s| <= n then s else s[..n]
  }

  predicate Expired<V>(item: Item<V>, now: int) {
    now >= item.expiresAt
  }

  // ----- The operations -----

  function Put<V>(s: Lru<V>, item: Item<V>, capacity: nat): Lru<V> {
    Truncate([item] + Without(s, item.key), capacity)
  }

  function Hit<V>(s: Lru<V>, k: Key, now: int): Option<V> {
    var i := Index(s, k);
    if i < |s| && !Expired(s[i], now) then Some(s[i].envelope) else None
  }

  function Lookup<V>(s: Lru<V>, k: Key, now: int): Lru<V> {
    var i := Index(s, k);
    if i == |s| then s
    else if Expired(s[i], now) then Without(s, k)
    else [s[i]] + Without(s, k)
  }

  /** `clock(k)` is the time at which the entry of `k` is looked at. */
  function Live<V>(s: Lru<V>, clock: Key -> int): Lru<V> {
    if s == [] then []
    else if Expired(s[0], clock(s[0].key)) then Live(s[1..], clock)
    else [s[0]] + Live(s[1..], clock)
  }

  datatype Op<V> =
    | PutOp(key: Key, envelope: V, now: int)
    | LookupOp(key: Key, now: int)
    | EraseOp(key: Key)
    | EvictOp(clock: Key -> int)

  datatype Config = Config(capacity: nat, ttl: int)

  const DEFAULT_TTL_MS := 600000

  /** What the constructor makes of its arguments. */
  function Configure(capacity: nat, ttl: int): (c: Config)
    ensures c.capacity >= 1 && c.ttl > 0
  {
    Config(if capacity == 0 then 1 else capacity, if ttl <= 0 then DEFAULT_TTL_MS else ttl)
  }

  function Apply<V>(c: Config, s: Lru<V>, op: Op<V>): Lru<V> {
    match op
    case PutOp(k, v, now) => Put(s, Item(k, v, now + c.ttl), c.capacity)
    case LookupOp(k, now) => Lookup(s, k, now)
    case EraseOp(k) => Without(s, k)
    case EvictOp(clock) => Live(s, clock)
  }

  function Output<V>(s: Lru<V>, op: Op<V>): Option<V> {
    if op.LookupOp? then Hit(s, op.key, op.now) else None
  }

  function Run<V>(c: Config, s: Lru<V>, ops: seq<Op<V>>): Lru<V>
    decreases |ops|
  {
    if ops == [] then s else Run(c, Apply(c, s, ops[0]), ops[1..])
  }

  // ----- What every operation keeps -----

  lemma IndexOfMember<V>(s: Lru<V>, i: nat)
    requires Distinct(s) && i < |s|
    ensures Index(s, s[i].key) == i
  {
    var j := Index(s, s[i].key);
    assert j <= i;
  }

  /** Evicting keeps exactly the items that were not expired when looked at. */
  lemma {:induction false} LiveMembers<V>(s: Lru<V>, clock: Key -> int, item: Item<V>)
    ensures item in Live(s, clock) <==> item in s && !Expired(item, clock(item.key))
  {
    if s != [] {
      LiveMembers(s[1..], clock, item);
      assert s == [s[0]] + s[1..];
    }
  }

  lemma {:induction false} LiveKeeps<V>(s: Lru<V>, clock: Key -> int)
    requires Distinct(s)
    ensures Distinct(Live(s, clock)) && |Live(s, clock)| <= |s|
  {
    if s != [] {
      LiveKeeps(s[1..], clock);
      var t := Live(s[1..], clock);
      forall i | 0 <= i < |t| ensures t[i].key != s[0].key {
        LiveMembers(s[1..], clock, t[i]);
        var j :| 0 <= j < |s[1..]| && s[1..][j] == t[i];
        assert s[j + 1].key == t[i].key;
      }
    }
  }

  ghost predicate WellFormed<V>(c: Config, s: Lru<V>) {
    Distinct(s) && |s| <= c.capacity
  }

  lemma DropAt<T>(s: seq<T>, i: nat, j: nat)
    requires i < |s| && j < |s| - 1
    ensures |Drop(s, i)| == |s| - 1
    ensures Drop(s, i)[j] == s[if j < i then j else j + 1]
  {
  }

  lemma DropDistinct<V>(s: Lru<V>, i: nat)
    requires Distinct(s) && i < |s|
    ensures Distinct(Drop(s, i))
    ensures forall j :: 0 <= j < |s| - 1 ==> Drop(s, i)[j].key != s[i].key
  {
    var t := Drop(s, i);
    forall a, b | 0 <= a < b < |t| ensures t[a].key != t[b].key {
      DropAt(s, i, a);
      DropAt(s, i, b);
    }
    forall j | 0 <= j < |t| ensures t[j].key != s[i].key {
      DropAt(s, i, j);
    }
  }

  lemma WithoutKeeps<V>(s: Lru<V>, k: Key)
    requires Distinct(s)
    ensures Distinct(Without(s, k)) && |Without(s, k)| <= |s|
    ensures forall i :: 0 <= i < |Without(s, k)| ==> Without(s, k)[i].key != k
  {
    var i := Index(s, k);
    if i < |s| {
      DropDistinct(s, i);
    }
  }

  lemma WithoutMembers<V>(s: Lru<V>, k: Key, item: Item<V>)
    requires Distinct(s)
    ensures item in Without(s, k) <==> item in s && item.key != k
  {
    var i, t := Index(s, k), Without(s, k);
    WithoutKeeps(s, k);
    if i < |s| {
      if item in t {
        var j :| 0 <= j < |t| && t[j] == item;
        DropAt(s, i, j);
      }
      if item in s && item.key != k {
        var j :| 0 <= j < |s| && s[j] == item;
        DropAt(s, i, if j < i then j else j - 1);
      }
    } else if item in s {
      var j :| 0 <= j < |s| && s[j] == item;
    }
  }

  /** No key is listed twice and the capacity is never exceeded, whatever the operation. */
  lemma ApplyKeeps<V>(c: Config, s: Lru<V>, op: Op<V>)
    requires c.capacity >= 1 && WellFormed(c, s)
    ensures WellFormed(c, Apply(c, s, op))
  {
    match op
    case PutOp(k, v, now) => WithoutKeeps(s, k);
    case LookupOp(k, now) => WithoutKeeps(s, k);
    case EraseOp(k) => WithoutKeeps(s, k);
    case EvictOp(clock) => LiveKeeps(s, clock);
  }

  /** In every run from a fresh cache. */
  lemma {:induction false} RunKeeps<V>(c: Config, s: Lru<V>, ops: seq<Op<V>>)
    requires c.capacity >= 1 && WellFormed(c, s)
    ensures WellFormed(c, Run(c, s, ops))
    decreases |ops|
  {
    if ops != [] {
      ApplyKeeps(c, s, ops[0]);
      RunKeeps(c, Apply(c, s, ops[0]), ops[1..]);
    }
  }

  // ----- Evicting in a loop over the map, in any order -----

  /** What is left once the keys of `visited` have been looked at. */
  function Swept<V>(s: Lru<V>, clock: Key -> int, visited: set<Key>): Lru<V> {
    if s == [] then []
    else if s[0].key in visited && Expired(s[0], clock(s[0].key)) then Swept(s[1..], clock, visited)
    else [s[0]] + Swept(s[1..], clock, visited)
  }

  lemma {:induction false} SweptNothing<V>(s: Lru<V>, clock: Key -> int)
    ensures Swept(s, clock, {}) == s
  {
    if s != [] {
      SweptNothing(s[1..], clock);
    }
  }

  lemma {:induction false} SweptAll<V>(s: Lru<V>, clock: Key -> int, visited: set<Key>)
    requires forall i :: 0 <= i < |s| ==> s[i].key in visited
    ensures Swept(s, clock, visited) == Live(s, clock)
  {
    if s != [] {
      SweptAll(s[1..], clock, visited);
    }
  }

  lemma {:induction false} SweptElsewhere<V>(s: Lru<V>, clock: Key -> int, visited: set<Key>, k: Key)
    requires forall i :: 0 <= i < |s| ==> s[i].key != k
    ensures Swept(s, clock, visited + {k}) == Swept(s, clock, visited)
    ensures Index(Swept(s, clock, visited), k) == |Swept(s, clock, visited)|
  {
    if s != [] {
      SweptElsewhere(s[1..], clock, visited, k);
      var t := Swept(s, clock, visited);
      if t != Swept(s[1..], clock, visited) {
        assert t[0] == s[0] && t[1..] == Swept(s[1..], clock, visited);
      }
    }
  }

  lemma IndexCons<V>(x: Item<V>, s: Lru<V>, k: Key)
    requires x.key != k
    ensures Index([x] + s, k) == Index(s, k) + 1
    ensures Without([x] + s, k) == [x] + Without(s, k)
  {
    var t := [x] + s;
    assert t[1..] == s;
    var i := Index(s, k);
    if i < |s| {
      assert Drop(t, i + 1) == [x] + Drop(s, i);
    }
  }

  lemma {:induction false} SweptOne<V>(s: Lru<V>, clock: Key -> int, visited: set<Key>, k: Key)
    requires Distinct(s) && k !in visited
    ensures var t := Swept(s, clock, visited);
            Swept(s, clock, visited + {k})
            == if Index(t, k) < |t| && Expired(t[Index(t, k)], clock(k)) then Without(t, k) else t
  {
    if s != [] {
      var rest := Swept(s[1..], clock, visited);
      if s[0].key == k {
        assert forall i :: 0 <= i < |s[1..]| ==> s[1..][i].key != k;
        SweptElsewhere(s[1..], clock, visited, k);
        assert Without([s[0]] + rest, k) == rest;
      } else {
        SweptOne(s[1..], clock, visited, k);
        IndexCons(s[0], rest, k);
        if s[0].key in visited && Expired(s[0], clock(s[0].key)) {
          assert Swept(s, clock, visited) == rest;
        } else {
          assert Swept(s, clock, visited) == [s[0]] + rest;
          assert ([s[0]] + rest)[Index(rest, k) + 1..] == rest[Index(rest, k)..];
        }
      }
    }
  }

  // ----- Inclusion: a larger cache keeps everything a smaller one keeps -----

  /** `large` is `small`, in the same order, with at most one item more. */
  ghost predicate OneMore<T>(small: seq<T>, large: seq<T>) {
    small == large || exists i: nat :: i < |large| && small == Drop(large, i)
  }

  lemma PushOneMore<T>(x: T, small: seq<T>, large: seq<T>)
    requires OneMore(small, large)
    ensures OneMore([x] + small, [x] + large)
  {
    if small != large {
      var i: nat :| i < |large| && small == Drop(large, i);
      assert [x] + small == Drop([x] + large, i + 1);
    }
  }

  lemma PushOnLarger<T>(x: T, s: seq<T>)
    ensures OneMore(s, [x] + s)
  {
    assert s == Drop([x] + s, 0);
  }

  lemma TruncateOneMore<T>(small: seq<T>, large: seq<T>, n: nat)
    requires OneMore(small, large) && |large| <= n + 2 && |small| <= n + 1
    ensures OneMore(Truncate(small, n), Truncate(large, n + 1))
  {
    var a, b := Truncate(small, n), Truncate(large, n + 1);
    if small == large {
      if |small| == n + 1 {
        assert a == Drop(b, n);
      }
    } else {
      var i: nat :| i < |large| && small == Drop(large, i);
      if |large| == n + 2 {
        if i == n + 1 {
          assert a == Drop(b, n);
        } else {
          assert a == Drop(b, i);
        }
      } else {
        assert b == large && a == small;
      }
    }
  }

  /** Removing the key at `j` from both, when it is not the extra item at `i`. */
  lemma DropBoth<T>(large: seq<T>, i: nat, j: nat)
    requires i < |large| && j < |large| && i != j
    ensures var j' := if j < i then j else j - 1;
            Drop(large, i)[j'] == large[j]
            && OneMore(Drop(Drop(large, i), j'), Drop(large, j))
  {
    if j < i {
      assert Drop(Drop(large, i), j) == Drop(Drop(large, j), i - 1);
    } else {
      assert Drop(Drop(large, i), j - 1) == Drop(Drop(large, j), i);
    }
  }

  lemma WithoutOneMore<V>(small: Lru<V>, large: Lru<V>, k: Key)
    requires Distinct(large) && OneMore(small, large)
    ensures OneMore(Without(small, k), Without(large, k))
    ensures Index(small, k) < |small| ==>
              Index(large, k) < |large| && large[Index(large, k)] == small[Index(small, k)]
    ensures Index(large, k) < |large| && Index(small, k) == |small| ==> small == Without(large, k)
  {
    if small != large {
      var i: nat :| i < |large| && small == Drop(large, i);
      DropDistinct(large, i);
      var j, m := Index(large, k), Index(small, k);
      if m < |small| {
        DropAt(large, i, m);
        IndexOfMember(large, if m < i then m else m + 1);
      }
      if j < |large| && j != i {
        DropBoth(large, i, j);
        IndexOfMember(small, if j < i then j else j - 1);
      }
    }
  }

  lemma {:induction false} LiveOneMore<V>(small: Lru<V>, large: Lru<V>, clock: Key -> int)
    requires OneMore(small, large)
    ensures OneMore(Live(small, clock), Live(large, clock))
  {
    if small != large {
      var i: nat :| i < |large| && small == Drop(large, i);
      if i == 0 {
        assert small == large[1..];
        var t := Live(large[1..], clock);
        assert Drop([large[0]] + t, 0) == t;
      } else {
        assert small[0] == large[0];
        assert small[1..] == Drop(large[1..], i - 1);
        LiveOneMore(small[1..], large[1..], clock);
        PushOneMore(large[0], Live(small[1..], clock), Live(large[1..], clock));
      }
    }
  }

  lemma PutOneMore<V>(small: Lru<V>, large: Lru<V>, item: Item<V>, n: nat)
    requires Distinct(small) && Distinct(large) && |small| <= n && |large| <= n + 1
    requires OneMore(small, large)
    ensures OneMore(Put(small, item, n), Put(large, item, n + 1))
  {
    WithoutKeeps(small, item.key);
    WithoutKeeps(large, item.key);
    WithoutOneMore(small, large, item.key);
    PushOneMore(item, Without(small, item.key), Without(large, item.key));
    TruncateOneMore([item] + Without(small, item.key), [item] + Without(large, item.key), n);
  }

  lemma LookupOneMore<V>(small: Lru<V>, large: Lru<V>, k: Key, now: int)
    requires Distinct(large) && OneMore(small, large)
    ensures OneMore(Lookup(small, k, now), Lookup(large, k, now))
    ensures Hit(small, k, now).Some? ==> Hit(large, k, now) == Hit(small, k, now)
  {
    var i, j := Index(small, k), Index(large, k);
    var a, b := Without(small, k), Without(large, k);
    WithoutOneMore(small, large, k);
    if i < |small| {
      if !Expired(small[i], now) {
        PushOneMore(small[i], a, b);
      }
    } else if j < |large| && !Expired(large[j], now) {
      // Only the item the smaller cache lacks can be in the larger one alone.
      assert small == b;
      PushOnLarger(large[j], small);
    }
  }

  /** One step of the simulation; in particular every hit of the smaller is the same hit of the larger. */
  lemma InclusionStep<V>(c: Config, small: Lru<V>, large: Lru<V>, op: Op<V>)
    requires WellFormed(c, small) && WellFormed(c.(capacity := c.capacity + 1), large)
    requires OneMore(small, large)
    ensures OneMore(Apply(c, small, op), Apply(c.(capacity := c.capacity + 1), large, op))
    ensures Output(small, op).Some? ==> Output(large, op) == Output(small, op)
  {
    match op
    case PutOp(k, v, now) => PutOneMore(small, large, Item(k, v, now + c.ttl), c.capacity);
    case LookupOp(k, now) => LookupOneMore(small, large, k, now);
    case EraseOp(k) => WithoutOneMore(small, large, k);
    case EvictOp(clock) => LiveOneMore(small, large, clock);
  }

  /**
   LRU inclusion over whole runs. Run the same operations at the same times with
   capacities `n` and `n + 1`: after any prefix the smaller list is the larger one
   with at most one item missing (so shared keys agree on envelope and expiry), and
   the next operation's hit in the smaller is the same hit in the larger.
   */
  lemma {:induction false} Inclusion<V>(c: Config, small: Lru<V>, large: Lru<V>, ops: seq<Op<V>>, next: Op<V>)
    requires c.capacity >= 1
    requires WellFormed(c, small) && WellFormed(c.(capacity := c.capacity + 1), large)
    requires OneMore(small, large)
    ensures var a, b := Run(c, small, ops), Run(c.(capacity := c.capacity + 1), large, ops);
            OneMore(a, b) && (Output(a, next).Some? ==> Output(b, next) == Output(a, next))
    decreases |ops|
  {
    var c' := c.(capacity := c.capacity + 1);
    if ops == [] {
      InclusionStep(c, small, large, next);
    } else {
      InclusionStep(c, small, large, ops[0]);
      ApplyKeeps(c, small, ops[0]);
      ApplyKeeps(c', large, ops[0]);
      Inclusion(c, Apply(c, small, ops[0]), Apply(c', large, ops[0]), ops[1..], next);
    }
  }

  /** The same, from two fresh caches built with capacity arguments `n` and `n + 1`. */
  lemma FreshInclusion<V>(n: nat, ttl: int, ops: seq<Op<V>>, next: Op<V>)
    ensures var a, b := Run(Configure(n, ttl), [], ops), Run(Configure(n + 1, ttl), [], ops);
            OneMore(a, b) && (Output(a, next).Some? ==> Output(b, next) == Output(a, next))
  {
    var small, large := Configure(n, ttl), Configure(n + 1, ttl);
    if n > 0 {
      assert large == small.(capacity := small.capacity + 1);
      Inclusion(small, [], [], ops, next);
    } else {
      assert small == large;
    }
  }

  lemma {:induction false} Stays<T>(f: nat -> Option<T>, n: nat, m: nat)
    requires n <= m && f(n).Some?
    requires forall k: nat :: f(k).Some? ==> f(k + 1) == f(k)
    ensures f(m) == f(n)
    decreases m
  {
    if n < m {
      Stays(f, n, m - 1);
    }
  }

  /** So no hit is ever lost by giving the cache more room. */
  lemma MoreRoomKeepsHits<V>(n: nat, m: nat, ttl: int, ops: seq<Op<V>>, next: Op<V>)
    requires n <= m
    requires Output(Run(Configure(n, ttl), [], ops), next).Some?
    ensures Output(Run(Configure(m, ttl), [], ops), next) == Output(Run(Configure(n, ttl), [], ops), next)
  {
    var f := (k: nat) => Output(Run(Configure(k, ttl), [], ops), next);
    forall k: nat | f(k).Some? ensures f(k + 1) == f(k) {
      FreshInclusion(k, ttl, ops, next);
    }
    Stays(f, n, m);
  }

  lemma ApplyPut<V>(c: Config, s: Lru<V>, k: Key, envelope: V, now: int)
    ensures Apply(c, s, PutOp(k, envelope, now))
            == Truncate([Item(k, envelope, now + c.ttl)] + Without(s, k), c.capacity)
  {
  }

  // ----- Soundness: a cached item is always the last put -----

  /** What the operations alone say `k` was last given, if it was not erased since. */
  function LastPut<V>(c: Config, ops: seq<Op<V>>, k: Key): Option<Item<V>> {
    if ops == [] then None
    else
      var op := ops[|ops| - 1];
      if op.PutOp? && op.key == k then Some(Item(k, op.envelope, op.now + c.ttl))
      else if op.EraseOp? && op.key == k then None
      else LastPut(c, ops[..|ops| - 1], k)
  }

  lemma {:induction false} RunSnoc<V>(c: Config, s: Lru<V>, ops: seq<Op<V>>)
    requires ops != []
    ensures Run(c, s, ops) == Apply(c, Run(c, s, ops[..|ops| - 1]), ops[|ops| - 1])
    decreases |ops|
  {
    if |ops| > 1 {
      RunSnoc(c, Apply(c, s, ops[0]), ops[1..]);
      assert ops[1..][..|ops| - 2] == ops[..|ops| - 1][1..];
    }
  }

  lemma ApplyMembers<V>(c: Config, s: Lru<V>, op: Op<V>, item: Item<V>)
    requires c.capacity >= 1 && WellFormed(c, s) && item in Apply(c, s, op)
    ensures item in s || (op.PutOp? && item == Item(op.key, op.envelope, op.now + c.ttl))
    ensures op.EraseOp? ==> item.key != op.key
    ensures op.PutOp? && item.key == op.key ==> item == Item(op.key, op.envelope, op.now + c.ttl)
    ensures op.LookupOp? && item.key == op.key ==> !Expired(item, op.now)
    ensures op.EvictOp? ==> !Expired(item, op.clock(item.key))
  {
    match op
    case PutOp(k, v, now) => WithoutMembers(s, k, item);
    case LookupOp(k, now) => WithoutMembers(s, k, item);
    case EraseOp(k) => WithoutMembers(s, k, item);
    case EvictOp(clock) => LiveMembers(s, clock, item);
  }

  /** Whatever is cached is exactly what was last put under its key. */
  lemma {:induction false} CachedIsLastPut<V>(c: Config, ops: seq<Op<V>>, item: Item<V>)
    requires c.capacity >= 1 && item in Run(c, [], ops)
    ensures LastPut(c, ops, item.key) == Some(item)
    decreases |ops|
  {
    if ops != [] {
      var prefix := ops[..|ops| - 1];
      RunSnoc(c, [], ops);
      RunKeeps(c, [], prefix);
      ApplyMembers(c, Run(c, [], prefix), ops[|ops| - 1], item);
      if item in Run(c, [], prefix) {
        CachedIsLastPut(c, prefix, item);
      }
    }
  }

  /** A hit therefore returns the envelope of the last put, and only before that put's time to live is over. */
  lemma HitIsLastPut<V>(c: Config, ops: seq<Op<V>>, k: Key, now: int)
    requires c.capacity >= 1
    ensures Hit(Run(c, [], ops), k, now).Some? ==>
              LastPut(c, ops, k).Some?
              && Hit(Run(c, [], ops), k, now) == Some(LastPut(c, ops, k).value.envelope)
              && now < LastPut(c, ops, k).value.expiresAt
  {
    var s := Run(c, [], ops);
    var i := Index(s, k);
    if i < |s| {
      CachedIsLastPut(c, ops, s[i]);
    }
  }

  // ----- Survival: the converse, as long as few other keys are used -----

  /** The key an operation moves to the front: the one it puts or hits. */
  function Touched<V>(s: Lru<V>, op: Op<V>): set<Key> {
    if op.PutOp? || Output(s, op).Some? then {op.key} else {}
  }

  /** The other keys put or hit since `k` itself was last put or hit. */
  function OthersSince<V>(s: Lru<V>, op: Op<V>, k: Key, others: set<Key>): set<Key> {
    if k in Touched(s, op) then {} else others + Touched(s, op)
  }

  /** The operation does not erase `k` and does not find it expired. */
  predicate Spares<V>(op: Op<V>, item: Item<V>) {
    match op
    case PutOp(_, _, _) => true
    case LookupOp(k, now) => k == item.key ==> !Expired(item, now)
    case EraseOp(k) => k != item.key
    case EvictOp(clock) => !Expired(item, clock(item.key))
  }

  function Renewed<V>(c: Config, op: Op<V>, item: Item<V>): Item<V> {
    if op.PutOp? && op.key == item.key then Item(op.key, op.envelope, op.now + c.ttl) else item
  }

  /** Along the run, `item` is spared and fewer than `capacity` others are used between its own uses. */
  predicate Undisturbed<V>(c: Config, s: Lru<V>, ops: seq<Op<V>>, item: Item<V>, others: set<Key>)
    decreases |ops|
  {
    |others| < c.capacity &&
    (ops != [] ==>
       Spares(ops[0], item) &&
       Undisturbed(c, Apply(c, s, ops[0]), ops[1..], Renewed(c, ops[0], item),
                   OthersSince(s, ops[0], item.key, others)))
  }

  /** `item` is cached at `i` and only keys from `others` are more recent. */
  ghost predicate HoldsAt<V>(s: Lru<V>, i: nat, item: Item<V>, others: set<Key>) {
    i < |s| && s[i] == item && forall j :: 0 <= j < i ==> s[j].key in others
  }

  ghost predicate Holds<V>(s: Lru<V>, item: Item<V>, others: set<Key>) {
    exists i: nat :: HoldsAt(s, i, item, others)
  }

  lemma {:induction false} PrefixFits<V>(s: Lru<V>, n: nat, others: set<Key>)
    requires Distinct(s) && n <= |s|
    requires forall j :: 0 <= j < n ==> s[j].key in others
    ensures n <= |others|
  {
    if n > 0 {
      forall j | 0 <= j < n - 1 ensures s[j].key in others - {s[n - 1].key} {
      }
      PrefixFits(s, n - 1, others - {s[n - 1].key});
    }
  }

  lemma {:induction false} LiveHolds<V>(s: Lru<V>, clock: Key -> int, i: nat, item: Item<V>, others: set<Key>)
    requires HoldsAt(s, i, item, others) && !Expired(item, clock(item.key))
    ensures Holds(Live(s, clock), item, others)
    decreases |s|
  {
    if i == 0 {
      assert HoldsAt(Live(s, clock), 0, item, others);
    } else {
      assert HoldsAt(s[1..], i - 1, item, others);
      LiveHolds(s[1..], clock, i - 1, item, others);
      var t := Live(s[1..], clock);
      if !Expired(s[0], clock(s[0].key)) {
        var m: nat :| HoldsAt(t, m, item, others);
        assert HoldsAt([s[0]] + t, m + 1, item, others);
      }
    }
  }

  lemma WithoutHolds<V>(s: Lru<V>, k: Key, i: nat, item: Item<V>, others: set<Key>)
    requires HoldsAt(s, i, item, others) && item.key != k
    ensures Holds(Without(s, k), item, others)
  {
    var x, t := Index(s, k), Without(s, k);
    if x == |s| {
      assert HoldsAt(t, i, item, others);
    } else {
      var m := if x < i then i - 1 else i;
      DropAt(s, x, m);
      forall j | 0 <= j < m ensures t[j].key in others {
        DropAt(s, x, j);
      }
      assert HoldsAt(t, m, item, others);
    }
  }

  lemma PushHolds<V>(s: Lru<V>, x: Item<V>, item: Item<V>, others: set<Key>)
    requires Holds(s, item, others)
    ensures Holds([x] + s, item, others + {x.key})
  {
    var i: nat :| HoldsAt(s, i, item, others);
    assert HoldsAt([x] + s, i + 1, item, others + {x.key});
  }

  lemma TruncateHolds<V>(s: Lru<V>, n: nat, item: Item<V>, others: set<Key>)
    requires Distinct(s) && Holds(s, item, others) && |others| < n
    ensures Holds(Truncate(s, n), item, others)
  {
    var i: nat :| HoldsAt(s, i, item, others);
    PrefixFits(s, i, others);
    assert HoldsAt(Truncate(s, n), i, item, others);
  }

  lemma PutHolds<V>(s: Lru<V>, n: nat, newest: Item<V>, i: nat, item: Item<V>, others: set<Key>)
    requires Distinct(s) && HoldsAt(s, i, item, others)
    requires newest.key != item.key && |others + {newest.key}| < n
    ensures Holds(Put(s, newest, n), item, others + {newest.key})
  {
    WithoutKeeps(s, newest.key);
    WithoutHolds(s, newest.key, i, item, others);
    PushHolds(Without(s, newest.key), newest, item, others);
    TruncateHolds([newest] + Without(s, newest.key), n, item, others + {newest.key});
  }

  lemma LookupHolds<V>(s: Lru<V>, k: Key, now: int, i: nat, item: Item<V>, others: set<Key>)
    requires HoldsAt(s, i, item, others) && k != item.key
    ensures Holds(Lookup(s, k, now), item, others + if Hit(s, k, now).Some? then {k} else {})
  {
    WithoutHolds(s, k, i, item, others);
    assert others + {} == others;
    if Hit(s, k, now).Some? {
      PushHolds(Without(s, k), s[Index(s, k)], item, others);
    }
  }

  lemma SurvivalStep<V>(c: Config, s: Lru<V>, op: Op<V>, item: Item<V>, others: set<Key>)
    requires c.capacity >= 1 && WellFormed(c, s)
    requires Holds(s, item, others) && Spares(op, item)
    requires |OthersSince(s, op, item.key, others)| < c.capacity
    ensures Holds(Apply(c, s, op), Renewed(c, op, item), OthersSince(s, op, item.key, others))
  {
    var i: nat :| HoldsAt(s, i, item, others);
    match op
    case PutOp(k, v, now) =>
      var newest := Item(k, v, now + c.ttl);
      if k == item.key {
        assert HoldsAt(Apply(c, s, op), 0, newest, {});
      } else {
        PutHolds(s, c.capacity, newest, i, item, others);
      }
    case LookupOp(k, now) =>
      if k == item.key {
        IndexOfMember(s, i);
        assert HoldsAt(Apply(c, s, op), 0, item, {});
      } else {
        LookupHolds(s, k, now, i, item, others);
      }
    case EraseOp(k) => WithoutHolds(s, k, i, item, others);
    case EvictOp(clock) => LiveHolds(s, clock, i, item, others);
  }

  function LastRenewed<V>(c: Config, ops: seq<Op<V>>, item: Item<V>): Item<V> {
    if ops == [] then item else LastRenewed(c, ops[1..], Renewed(c, ops[0], item))
  }

  lemma {:induction false} SurvivalRun<V>(c: Config, s: Lru<V>, ops: seq<Op<V>>, item: Item<V>, others: set<Key>)
    requires c.capacity >= 1 && WellFormed(c, s)
    requires Holds(s, item, others) && Undisturbed(c, s, ops, item, others)
    ensures LastRenewed(c, ops, item) in Run(c, s, ops) && LastRenewed(c, ops, item).key == item.key
    decreases |ops|
  {
    if ops != [] {
      SurvivalStep(c, s, ops[0], item, others);
      ApplyKeeps(c, s, ops[0]);
      SurvivalRun(c, Apply(c, s, ops[0]), ops[1..], Renewed(c, ops[0], item), OthersSince(s, ops[0], item.key, others));
    }
  }

  /**
   Survival. After a put of `k`, run any operations that neither erase `k` nor find it
   expired, with fewer than `capacity` distinct other keys put or hit between two uses
   of `k`: a lookup of `k` before its expiry then hits, with the last envelope put.
   */
  lemma Survival<V>(c: Config, s: Lru<V>, put: Op<V>, ops: seq<Op<V>>, now: int)
    requires c.capacity >= 1 && WellFormed(c, s) && put.PutOp?
    requires Undisturbed(c, Apply(c, s, put), ops, Item(put.key, put.envelope, put.now + c.ttl), {})
    ensures var last := LastRenewed(c, ops, Item(put.key, put.envelope, put.now + c.ttl));
            now < last.expiresAt ==>
              Hit(Run(c, Apply(c, s, put), ops), put.key, now) == Some(last.envelope)
  {
    var item := Item(put.key, put.envelope, put.now + c.ttl);
    var s' := Apply(c, s, put);
    ApplyKeeps(c, s, put);
    assert HoldsAt(s', 0, item, {});
    SurvivalRun(c, s', ops, item, {});
    var t := Run(c, s', ops);
    RunKeeps(c, s', ops);
    var last := LastRenewed(c, ops, item);
    var i :| 0 <= i < |t| && t[i] == last;
    IndexOfMember(t, i);
  }
}
