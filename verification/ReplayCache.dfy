/** The replay cache: a list of nodes and a map of entries, changed in place and kept in step. */
module ReplayCache {
  import opened LruSpec
  import opened ByteText
  import opened Wrappers

  /** A node of the `std::list`; an iterator is the identity of the node it points to. */
  datatype Node = Node(id: nat, key: Key)

  datatype Entry<V> = Entry(envelope: V, expiresAt: int, lruIt: nat)

  /** The position of the node an iterator points to, or the length when it dangles. */
  function Position(nodes: seq<Node>, it: nat): (i: nat)
    ensures i <= |nodes|
    ensures i < |nodes| ==> nodes[i].id == it
    ensures forall j :: 0 <= j < i ==> nodes[j].id != it
  {
    if nodes == [] || nodes[0].id == it then 0 else 1 + Position(nodes[1..], it)
  }

  /** The entry of the node's key points back to the node. */
  ghost predicate Named<V>(node: Node, entries: map<Key, Entry<V>>) {
    node.key in entries && entries[node.key].lruIt == node.id
  }

  ghost predicate DistinctIds(nodes: seq<Node>) {
    forall i, j :: 0 <= i < j < |nodes| ==> nodes[i].id != nodes[j].id
  }

  ghost predicate HasNode(nodes: seq<Node>, k: Key) {
    exists i :: 0 <= i < |nodes| && nodes[i].key == k
  }

  /** Every node is named by the entry of its key, and every entry has its node. */
  ghost predicate InStep<V>(nodes: seq<Node>, entries: map<Key, Entry<V>>) {
    (forall i :: 0 <= i < |nodes| ==> Named(nodes[i], entries))
    && DistinctIds(nodes)
    && (forall k :: k in entries ==> HasNode(nodes, k))
  }

  ghost function ItemAt<V>(nodes: seq<Node>, entries: map<Key, Entry<V>>, i: nat): Item<V>
    requires i < |nodes| && Named(nodes[i], entries)
  {
    var e := entries[nodes[i].key];
    Item(nodes[i].key, e.envelope, e.expiresAt)
  }

  ghost function Items<V>(nodes: seq<Node>, entries: map<Key, Entry<V>>): (s: Lru<V>)
    requires forall i :: 0 <= i < |nodes| ==> Named(nodes[i], entries)
    ensures |s| == |nodes|
    ensures forall i :: 0 <= i < |s| ==> s[i] == ItemAt(nodes, entries, i)
  {
    seq(|nodes|, i requires 0 <= i < |nodes| => ItemAt(nodes, entries, i))
  }

  lemma PositionOf(nodes: seq<Node>, i: nat)
    requires i < |nodes| && DistinctIds(nodes)
    ensures Position(nodes, nodes[i].id) == i
  {
    var j := Position(nodes, nodes[i].id);
    assert j <= i;
  }

  /** The iterator kept in an entry never dangles: it points to the node of its key. */
  lemma IteratorValid<V>(nodes: seq<Node>, entries: map<Key, Entry<V>>, k: Key)
    requires InStep(nodes, entries) && k in entries
    ensures Position(nodes, entries[k].lruIt) < |nodes|
    ensures nodes[Position(nodes, entries[k].lruIt)].key == k
    ensures Position(nodes, entries[k].lruIt) == Index(Items(nodes, entries), k)
  {
    assert HasNode(nodes, k);
    var i :| 0 <= i < |nodes| && nodes[i].key == k;
    assert Named(nodes[i], entries);
    PositionOf(nodes, i);
    InStepDistinct(nodes, entries);
    IndexOfMember(Items(nodes, entries), i);
  }

  /** The list holds no key twice. */
  lemma InStepDistinct<V>(nodes: seq<Node>, entries: map<Key, Entry<V>>)
    requires InStep(nodes, entries)
    ensures Distinct(Items(nodes, entries))
    ensures forall i, j :: 0 <= i < j < |nodes| ==> nodes[i].key != nodes[j].key
  {
    forall i, j | 0 <= i < j < |nodes| ensures nodes[i].key != nodes[j].key {
      assert Named(nodes[i], entries) && Named(nodes[j], entries);
    }
  }

  /** The list holds exactly the keys of the map. */
  lemma SameKeys<V>(nodes: seq<Node>, entries: map<Key, Entry<V>>)
    requires InStep(nodes, entries)
    ensures (set i | 0 <= i < |nodes| :: nodes[i].key) == entries.Keys
    ensures |nodes| == |entries|
  {
    var keys := set i | 0 <= i < |nodes| :: nodes[i].key;
    forall k | k in entries.Keys ensures k in keys {
      assert HasNode(nodes, k);
    }
    forall k | k in keys ensures k in entries.Keys {
      var i :| 0 <= i < |nodes| && nodes[i].key == k;
      assert Named(nodes[i], entries);
    }
    InStepDistinct(nodes, entries);
    KeyCount(nodes);
  }

  lemma {:induction false} KeyCount(nodes: seq<Node>)
    requires forall i, j :: 0 <= i < j < |nodes| ==> nodes[i].key != nodes[j].key
    ensures |set i | 0 <= i < |nodes| :: nodes[i].key| == |nodes|
  {
    var keys := set i | 0 <= i < |nodes| :: nodes[i].key;
    if nodes != [] {
      var n := |nodes| - 1;
      var rest := nodes[..n];
      KeyCount(rest);
      var restKeys := set i | 0 <= i < |rest| :: rest[i].key;
      assert keys == restKeys + {nodes[n].key} by {
        forall k | k in keys ensures k in restKeys + {nodes[n].key} {
          var i :| 0 <= i < |nodes| && nodes[i].key == k;
          if i < n {
            assert rest[i].key == k;
          }
        }
        forall k | k in restKeys ensures k in keys {
          var i :| 0 <= i < |rest| && rest[i].key == k;
          assert nodes[i].key == k;
        }
      }
      assert nodes[n].key !in restKeys;
    }
  }

  lemma UnlinkNamed<V>(nodes: seq<Node>, entries: map<Key, Entry<V>>, k: Key, p: nat, i: nat)
    requires InStep(nodes, entries) && p < |nodes| && nodes[p].key == k && i < |Drop(nodes, p)|
    ensures Named(Drop(nodes, p)[i], entries - {k})
  {
    InStepDistinct(nodes, entries);
    DropAt(nodes, p, i);
    assert Named(nodes[if i < p then i else i + 1], entries);
  }

  lemma UnlinkHas(nodes: seq<Node>, p: nat, q: Key)
    requires p < |nodes| && HasNode(nodes, q) && q != nodes[p].key
    ensures HasNode(Drop(nodes, p), q)
  {
    var x :| 0 <= x < |nodes| && nodes[x].key == q;
    DropAt(nodes, p, if x < p then x else x - 1);
  }

  lemma UnlinkInStep<V>(nodes: seq<Node>, entries: map<Key, Entry<V>>, k: Key, p: nat)
    requires InStep(nodes, entries) && k in entries && p < |nodes| && nodes[p].key == k
    ensures InStep(Drop(nodes, p), entries - {k})
  {
    var nodes' := Drop(nodes, p);
    forall i | 0 <= i < |nodes'| ensures Named(nodes'[i], entries - {k}) {
      UnlinkNamed(nodes, entries, k, p, i);
    }
    forall a, b | 0 <= a < b < |nodes'| ensures nodes'[a].id != nodes'[b].id {
      DropAt(nodes, p, a);
      DropAt(nodes, p, b);
    }
    forall q | q in entries - {k} ensures HasNode(nodes', q) {
      UnlinkHas(nodes, p, q);
    }
  }

  /** Unlinking the node of one entry and forgetting the entry removes exactly that item. */
  lemma UnlinkKeeps<V>(nodes: seq<Node>, entries: map<Key, Entry<V>>, k: Key)
    requires InStep(nodes, entries) && k in entries
    ensures var p := Position(nodes, entries[k].lruIt);
            p < |nodes| && p == Index(Items(nodes, entries), k)
            && InStep(Drop(nodes, p), entries - {k})
            && Items(Drop(nodes, p), entries - {k}) == Without(Items(nodes, entries), k)
  {
    var p := Position(nodes, entries[k].lruIt);
    IteratorValid(nodes, entries, k);
    UnlinkInStep(nodes, entries, k, p);
    var s, t := Items(nodes, entries), Items(Drop(nodes, p), entries - {k});
    var u := Without(s, k);
    assert |t| == |u|;
    forall i | 0 <= i < |t| ensures t[i] == u[i] {
      DropAt(s, p, i);
      DropAt(nodes, p, i);
      assert Named(Drop(nodes, p)[i], entries - {k});
    }
  }

  lemma LinkInStep<V>(nodes: seq<Node>, entries: map<Key, Entry<V>>, node: Node, e: Entry<V>)
    requires InStep(nodes, entries) && node.key !in entries && e.lruIt == node.id
    requires forall i :: 0 <= i < |nodes| ==> nodes[i].id < node.id
    ensures InStep([node] + nodes, entries[node.key := e])
  {
    var nodes', entries' := [node] + nodes, entries[node.key := e];
    forall i | 0 <= i < |nodes'| ensures Named(nodes'[i], entries') {
      if i > 0 {
        assert nodes'[i] == nodes[i - 1] && Named(nodes[i - 1], entries);
      }
    }
    forall k | k in entries' ensures HasNode(nodes', k) {
      if k == node.key {
        assert nodes'[0].key == k;
      } else {
        assert HasNode(nodes, k);
        var i :| 0 <= i < |nodes| && nodes[i].key == k;
        assert nodes'[i + 1].key == k;
      }
    }
  }

  /** Linking a new node in front, with its entry, pushes one item. */
  lemma LinkKeeps<V>(nodes: seq<Node>, entries: map<Key, Entry<V>>, node: Node, e: Entry<V>)
    requires InStep(nodes, entries) && node.key !in entries && e.lruIt == node.id
    requires forall i :: 0 <= i < |nodes| ==> nodes[i].id < node.id
    ensures InStep([node] + nodes, entries[node.key := e])
    ensures Items([node] + nodes, entries[node.key := e])
            == [Item(node.key, e.envelope, e.expiresAt)] + Items(nodes, entries)
  {
    LinkInStep(nodes, entries, node, e);
    var s, t := Items(nodes, entries), Items([node] + nodes, entries[node.key := e]);
    forall i | 0 < i < |t| ensures t[i] == s[i - 1] {
      assert Named(([node] + nodes)[i], entries[node.key := e]) && Named(nodes[i - 1], entries);
    }
  }

  /** The cached item of `k` moved to a new node in front. */
  lemma TouchKeeps<V>(nodes: seq<Node>, entries: map<Key, Entry<V>>, k: Key, id: nat)
    requires InStep(nodes, entries) && k in entries && forall i :: 0 <= i < |nodes| ==> nodes[i].id < id
    ensures var p, items := Position(nodes, entries[k].lruIt), Items(nodes, entries);
            var nodes', entries' := [Node(id, k)] + Drop(nodes, p), entries[k := entries[k].(lruIt := id)];
            p < |nodes| && p == Index(items, k) && InStep(nodes', entries')
            && Items(nodes', entries') == [items[p]] + Without(items, k)
  {
    UnlinkKeeps(nodes, entries, k);
    var p, e := Position(nodes, entries[k].lruIt), entries[k].(lruIt := id);
    assert Named(nodes[p], entries);
    LinkKeeps(Drop(nodes, p), entries - {k}, Node(id, k), e);
    assert (entries - {k})[k := e] == entries[k := e];
  }

  class ResultReplayCache<V> {
    const capacity: nat
    const ttl: int
    var lruKeys: seq<Node>
    var entries: map<Key, Entry<V>>
    var nextNode: nat
    /** The cache as one ordered list. */
    ghost var contents: Lru<V>

    ghost predicate Linked()
      reads this
    {
      capacity >= 1 && ttl > 0 && InStep(lruKeys, entries)
      && contents == Items(lruKeys, entries)
      && forall i :: 0 <= i < |lruKeys| ==> lruKeys[i].id < nextNode
    }

    /** The list and the map agree and fit the capacity. */
    ghost predicate Valid()
      reads this
    {
      Linked() && |entries| == |lruKeys| == |contents| <= capacity
    }

    function Settings(): Config {
      Config(capacity, ttl)
    }

    constructor (capacity: nat, ttl: int)
      ensures Valid() && contents == [] && Settings() == Configure(capacity, ttl)
    {
      var c := Configure(capacity, ttl);
      this.capacity, this.ttl := c.capacity, c.ttl;
      lruKeys, entries, nextNode, contents := [], map[], 0, [];
    }

    predicate IsExpired(e: Entry<V>, now: int) {
      now >= e.expiresAt
    }

    /** Unlinks the node of an entry and forgets the entry. */
    method Unlink(k: Key)
      requires Linked() && k in entries
      modifies this`lruKeys, this`entries, this`contents
      ensures Linked() && contents == Without(old(contents), k)
      ensures entries == old(entries) - {k} && |contents| == |old(contents)| - 1
    {
      UnlinkKeeps(lruKeys, entries, k);
      var p := Position(lruKeys, entries[k].lruIt);
      lruKeys := Drop(lruKeys, p);
      entries := entries - {k};
      contents := Items(lruKeys, entries);
    }

    method LinkFront(k: Key, envelope: V, expiresAt: int)
      requires Linked() && k !in entries
      modifies this`lruKeys, this`entries, this`nextNode, this`contents
      ensures Linked() && contents == [Item(k, envelope, expiresAt)] + old(contents)
    {
      var node, e := Node(nextNode, k), Entry(envelope, expiresAt, nextNode);
      LinkKeeps(lruKeys, entries, node, e);
      nextNode := nextNode + 1;
      lruKeys := [node] + lruKeys;
      entries := entries[k := e];
      contents := Items(lruKeys, entries);
    }

    /** `touch_lru_locked`: a new node in front, named by the same entry. */
    method TouchLru(k: Key)
      requires Linked() && k in entries && Index(contents, k) < |contents|
      modifies this`lruKeys, this`entries, this`nextNode, this`contents
      ensures Linked() && k in entries && entries[k].envelope == old(entries[k].envelope)
      ensures contents == [old(contents)[Index(old(contents), k)]] + Without(old(contents), k)
    {
      TouchKeeps(lruKeys, entries, k, nextNode);
      var p := Position(lruKeys, entries[k].lruIt);
      contents := [contents[p]] + Without(contents, k);
      lruKeys := Drop(lruKeys, p);
      lruKeys := [Node(nextNode, k)] + lruKeys;
      entries := entries[k := entries[k].(lruIt := nextNode)];
      nextNode := nextNode + 1;
    }

    method PopBack()
      requires Linked() && |lruKeys| > 0
      modifies this`lruKeys, this`entries, this`contents
      ensures Linked() && |contents| == |old(contents)| - 1
      ensures contents == old(contents)[..|contents|]
    {
      var last := |lruKeys| - 1;
      var key := lruKeys[last].key;
      assert Named(lruKeys[last], entries);
      UnlinkKeeps(lruKeys, entries, key);
      PositionOf(lruKeys, last);
      assert Drop(lruKeys, last) == lruKeys[..last];
      if key in entries {
        entries := entries - {key};
      }
      lruKeys := lruKeys[..last];
      contents := contents[..last];
    }

    /** One turn of the eviction loop. */
    method EvictLast()
      requires Linked() && |lruKeys| > 0
      modifies this`lruKeys, this`entries, this`contents
      ensures Linked() && |entries| == |lruKeys| == |contents| == |old(contents)| - 1
      ensures contents == old(contents)[..|contents|]
    {
      PopBack();
      SameKeys(lruKeys, entries);
    }

    /** `rounds` counts how often the loop body runs. */
    method EvictIfNeeded() returns (ghost rounds: nat)
      requires Linked()
      modifies this`lruKeys, this`entries, this`contents
      ensures Valid() && contents == Truncate(old(contents), capacity)
      ensures rounds == if |old(contents)| <= capacity then 0 else |old(contents)| - capacity
    {
      rounds := 0;
      ghost var all := contents;
      SameKeys(lruKeys, entries);
      while |entries| > capacity
        invariant Linked() && |entries| == |lruKeys| == |contents| && rounds + |contents| == |all|
        invariant |all| <= capacity ==> rounds == 0
        invariant |all| > capacity ==> |contents| >= capacity
        invariant contents == all[..|contents|]
        decreases |contents|
      {
        EvictLast();
        rounds := rounds + 1;
      }
    }

    lemma AbsentKey(k: Key)
      requires Linked() && k !in entries
      ensures Index(contents, k) == |contents| && Without(contents, k) == contents
    {
    }

    lemma PresentKey(k: Key)
      requires Linked() && k in entries
      ensures var i := Index(contents, k);
              i < |contents| && contents[i] == Item(k, entries[k].envelope, entries[k].expiresAt)
    {
      IteratorValid(lruKeys, entries, k);
      assert Named(lruKeys[Index(contents, k)], entries);
    }

    lemma ListedKeys()
      requires Linked()
      ensures Distinct(contents) && forall i :: 0 <= i < |contents| ==> contents[i].key in entries.Keys
    {
      InStepDistinct(lruKeys, entries);
      forall i | 0 <= i < |contents| ensures contents[i].key in entries.Keys {
        assert Named(lruKeys[i], entries);
      }
    }

    /** Replaces any entry of `k` by a new one in front; the list grows by at most one. */
    method InsertFront(k: Key, envelope: V, expiresAt: int)
      requires Linked()
      modifies this`lruKeys, this`entries, this`nextNode, this`contents
      ensures Linked() && |contents| <= |old(contents)| + 1
      ensures contents == [Item(k, envelope, expiresAt)] + Without(old(contents), k)
    {
      if k in entries {
        Unlink(k);
      } else {
        AbsentKey(k);
      }
      LinkFront(k, envelope, expiresAt);
    }

    /** The eviction loop runs at most once per put, and never drops the key just put. */
    method PutEnvelope(k: Key, envelope: V, now: int) returns (ghost rounds: nat)
      requires Valid()
      modifies this`lruKeys, this`entries, this`nextNode, this`contents
      ensures Valid() && contents == Apply(Settings(), old(contents), PutOp(k, envelope, now))
      ensures rounds <= 1 && |contents| > 0 && contents[0] == Item(k, envelope, now + ttl)
    {
      var expiresAt := now + ttl;
      ApplyPut(Settings(), contents, k, envelope, now);
      InsertFront(k, envelope, expiresAt);
      rounds := EvictIfNeeded();
    }

    method LookupEnvelope(k: Key, now: int) returns (r: Option<V>)
      requires Valid()
      modifies this`lruKeys, this`entries, this`nextNode, this`contents
      ensures Valid() && contents == Apply(Settings(), old(contents), LookupOp(k, now))
      ensures r == Output(old(contents), LookupOp(k, now))
    {
      if k !in entries {
        AbsentKey(k);
        return None;
      }
      PresentKey(k);
      if IsExpired(entries[k], now) {
        Unlink(k);
        r := None;
      } else {
        TouchLru(k);
        r := Some(entries[k].envelope);
      }
      SameKeys(lruKeys, entries);
    }

    method EraseKey(k: Key) returns (erased: bool)
      requires Valid()
      modifies this`lruKeys, this`entries, this`contents
      ensures Valid() && contents == Apply(Settings(), old(contents), EraseOp(k))
      ensures erased <==> Index(old(contents), k) < |old(contents)|
    {
      if k !in entries {
        AbsentKey(k);
        return false;
      }
      PresentKey(k);
      Unlink(k);
      SameKeys(lruKeys, entries);
      return true;
    }

    /** One step of the sweep: the entry of `k` goes when it is expired at `now`. */
    method EvictOne(k: Key, now: int) returns (gone: bool)
      requires Valid() && k in entries
      modifies this`lruKeys, this`entries, this`contents
      ensures Valid() && entries.Keys == old(entries.Keys) - (if gone then {k} else {})
      ensures var before := old(contents);
              Index(before, k) < |before| && gone == Expired(before[Index(before, k)], now)
              && contents == (if gone then Without(before, k) else before)
              && |contents| == |before| - (if gone then 1 else 0)
    {
      PresentKey(k);
      gone := IsExpired(entries[k], now);
      if gone {
        Unlink(k);
        SameKeys(lruKeys, entries);
      }
    }

    /** The map is walked in any order; `clock(k)` is the time read when `k` is reached. */
    method EvictExpired(clock: Key -> int) returns (evicted: nat)
      requires Valid()
      modifies this`lruKeys, this`entries, this`contents
      ensures Valid() && contents == Apply(Settings(), old(contents), EvictOp(clock))
      ensures evicted == |old(contents)| - |contents|
    {
      evicted := 0;
      var pending := entries.Keys;
      ghost var visited: set<Key> := {};
      ghost var all := contents;
      ListedKeys();
      SweptNothing(all, clock);
      while pending != {}
        invariant Valid() && pending <= entries.Keys && pending !! visited
        invariant forall i :: 0 <= i < |all| ==> all[i].key in pending || all[i].key in visited
        invariant contents == Swept(all, clock, visited) && evicted + |contents| == |all|
        decreases |pending|
      {
        var k :| k in pending;
        SweptOne(all, clock, visited, k);
        var gone := EvictOne(k, clock(k));
        if gone {
          evicted := evicted + 1;
        }
        pending := pending - {k};
        visited := visited + {k};
      }
      SweptAll(all, clock, visited);
    }
  }
}
