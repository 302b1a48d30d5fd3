/** The hash table object of thash.c, run with HASH_NO_LOCK: every latch helper is a no-op,
    so each operation is the sequential algorithm below. */
module THash {
  import opened HashTypes
  import opened Chains
  import opened RemoveSpec
  import opened Resize

  /** taosHashCapacity: the slot count for a requested length, doubling from 4. */
  method Capacity(length: int) returns (i: nat)
    ensures IsPow2(i) && 4 <= i <= HashMaxCapacity
    ensures i >= Min(length, HashMaxCapacity)
    ensures i == 4 || i / 2 < Min(length, HashMaxCapacity)
  {
    var len := Min(length, HashMaxCapacity);
    MaxCapacityIsPow2();
    i := 4;
    assert IsPow2(4) by { Pow2Double(1); Pow2Double(2); }
    while i < len
      invariant IsPow2(i) && 4 <= i <= HashMaxCapacity
      invariant i == 4 || i / 2 < len
      decreases len - i
    {
      Pow2Gap(i, HashMaxCapacity);
      Pow2Double(i);
      i := 2 * i;
    }
  }

  /** A key the table refuses: a NULL key pointer or keyLen == 0. */
  predicate BadKey(key: Option<Bytes>)
  {
    key.None? || key.value == []
  }

  /** HASH_NEED_RESIZE: size >= 0.75 * capacity, in integers. */
  predicate NeedResize(size: nat, capacity: nat)
  {
    4 * size >= 3 * capacity
  }

  /** Whether a put finds the table over its load factor with room to double. */
  predicate Grows(size: nat, capacity: nat)
  {
    NeedResize(size, capacity) && 2 * capacity <= HashMaxCapacity
  }

  /** The slot count after the resize a put may start with. */
  function GrownCapacity(size: nat, capacity: nat): nat
  {
    if Grows(size, capacity) then 2 * capacity else capacity
  }

  /** The chains after the resize a put may start with. */
  ghost function GrownChains(nodes: seq<Node>, cs: seq<seq<nat>>, size: nat, capacity: nat): (r: seq<seq<nat>>)
    requires capacity > 0 && |cs| == capacity && AllWithin(cs, |nodes|)
    ensures |r| == GrownCapacity(size, capacity) && AllWithin(r, |nodes|)
  {
    if Grows(size, capacity) then
      PartialWithin(nodes, cs, capacity, capacity);
      Rehash(nodes, cs, capacity)
    else cs
  }

  /** The node doCreateHashNode makes: one reference, not removed. */
  function NewNode(key: Bytes, data: Bytes, hashVal: u32): Node
  {
    Node(key, data, hashVal, 1, false)
  }

  /** A put of a key that is present, with updates disabled, discards its new node. When
      the key has one live node, the lookup afterwards stops where it did before, even
      when the put first doubled the directory. hv is the key's hash, which every node
      with the key caches. */
  lemma DiscardKeepsLookup(nodes: seq<Node>, cs: seq<seq<nat>>, size: nat, cap: nat, key: Bytes,
                           data: Bytes, hv: u32)
    requires cap > 0 && |cs| == cap && AllWithin(cs, |nodes|)
    requires forall a | 0 <= a < |nodes| && KeyEquals(nodes[a], key) :: nodes[a].hashVal == hv
    requires OneLive(nodes, cs[HashIndex(hv, cap)], key)
    ensures var nodes' := nodes + [NewNode(key, data, hv)];
      var c := GrownChains(nodes, cs, size, cap)[HashIndex(hv, GrownCapacity(size, cap))];
      var c0 := cs[HashIndex(hv, cap)];
      && Within(c, |nodes'|) && Within(c0, |nodes|)
      && PtrTo(c, FirstMatch(nodes', c, key)) == PtrTo(c0, FirstMatch(nodes, c0, key))
  {
    var nodes' := nodes + [NewNode(key, data, hv)];
    var c := GrownChains(nodes, cs, size, cap)[HashIndex(hv, GrownCapacity(size, cap))];
    var c0 := cs[HashIndex(hv, cap)];
    assert Within(c, |nodes|) && Within(c0, |nodes|);
    if Grows(size, cap) {
      RehashKeepsLookup(nodes, cs, cap, key, hv);
    }
    FirstMatchFrame(nodes, nodes', c, key);
  }

  /** A node with the key pushed in front of a chain where the key has no live node is the
      key's one live node there, and the one a lookup finds. */
  lemma OnlyMatchInFront(nodes: seq<Node>, c: seq<nat>, x: nat, key: Bytes)
    requires Within(c, |nodes|) && x < |nodes| && Matches(nodes[x], key)
    requires forall i | 0 <= i < |c| :: !Matches(nodes[c[i]], key)
    ensures Within([x] + c, |nodes|) && OneLive(nodes, [x] + c, key) && FirstMatch(nodes, [x] + c, key) == 0
  {
    var d := [x] + c;
    assert forall i | 0 < i < |d| :: d[i] == c[i - 1];
    FirstMatchIs(nodes, d, key, 0);
  }

  /** With updates disabled: put(key, v1) of an absent key, then put(key, v2). The second
      put finds the key (so it returns -1 and discards its node), and the lookup then
      still finds the first put's node, holding v1. The states are the ones Put's
      contract gives for the insert and the discard. */
  lemma PutTwiceKeepsFirst(nodes: seq<Node>, cs: seq<seq<nat>>, size: nat, cap: nat, key: Bytes,
                           v1: Bytes, v2: Bytes, hv: u32)
    requires cap > 0 && |cs| == cap && AllWithin(cs, |nodes|)
    requires forall a | 0 <= a < |nodes| && KeyEquals(nodes[a], key) :: nodes[a].hashVal == hv
    requires var g := GrownChains(nodes, cs, size, cap);
      var c := g[HashIndex(hv, GrownCapacity(size, cap))];
      FirstMatch(nodes, c, key) == |c|
    ensures var x := |nodes|;
      var cap1 := GrownCapacity(size, cap);
      var s1 := HashIndex(hv, cap1);
      var g := GrownChains(nodes, cs, size, cap);
      var nodes1 := nodes + [NewNode(key, v1, hv)];
      var cs1 := g[s1 := [x] + g[s1]];
      && cap1 > 0 && |cs1| == cap1 && AllWithin(cs1, |nodes1|)
      && var c2 := GrownChains(nodes1, cs1, size + 1, cap1)[HashIndex(hv, GrownCapacity(size + 1, cap1))];
         var nodes2 := nodes1 + [NewNode(key, v2, hv)];
         && Within(c2, |nodes1|)
         && FirstMatch(nodes1, c2, key) < |c2|
         && PtrTo(c2, FirstMatch(nodes2, c2, key)) == At(x) && nodes2[x].data == v1
  {
    var x := |nodes|;
    var cap1 := GrownCapacity(size, cap);
    var s1 := HashIndex(hv, cap1);
    var g := GrownChains(nodes, cs, size, cap);
    var n1 := NewNode(key, v1, hv);
    var nodes1 := nodes + [n1];
    var c := g[s1];
    var d := [x] + c;
    var cs1 := g[s1 := d];
    assert Within(c, |nodes|);
    assert AllWithin(cs1, |nodes1|) by {
      forall b | 0 <= b < |cs1| ensures Within(cs1[b], |nodes1|) {
        assert Within(g[b], |nodes|);
      }
    }
    // After the first put, the new node is the key's only live node in its slot.
    forall i | 0 <= i < |c| ensures c[i] < |nodes| && !Matches(nodes1[c[i]], key) {
      assert nodes1[c[i]] == nodes[c[i]];
    }
    OnlyMatchInFront(nodes1, c, x, key);
    forall a | 0 <= a < |nodes1| && KeyEquals(nodes1[a], key) ensures nodes1[a].hashVal == hv {
    }
    DiscardKeepsLookup(nodes1, cs1, size + 1, cap1, key, v2, hv);
    var c2 := GrownChains(nodes1, cs1, size + 1, cap1)[HashIndex(hv, GrownCapacity(size + 1, cap1))];
    assert Within(c2, |nodes1|);
    FirstMatchFrame(nodes1, nodes1 + [NewNode(key, v2, hv)], c2, key);
  }

  /** Giving slot b a chain made of x, which hashes to b, and nodes of its old chain c
      keeps every node in its slot. */
  lemma PutPlaced(nodes: seq<Node>, cs: seq<seq<nat>>, cap: nat, b: nat, c: seq<nat>, d: seq<nat>, x: nat)
    requires Placed(nodes, cs, cap) && b < |cs| && c == cs[b] && x < |nodes|
    requires HashIndex(nodes[x].hashVal, cap) == b
    requires forall y | y in d :: y == x || y in c
    ensures Placed(nodes, cs[b := d], cap)
  {
    forall y | y in d ensures y < |nodes| && HashIndex(nodes[y].hashVal, cap) == b {
      if y != x {
        var i :| 0 <= i < |c| && c[i] == y;
      }
    }
    PlacedReplace(nodes, cs, cap, b, d);
  }

  /** Placement depends only on the cached hashes. */
  lemma PlacedFrame(nodes: seq<Node>, nodes': seq<Node>, cs: seq<seq<nat>>, cap: nat)
    requires Placed(nodes, cs, cap) && |nodes'| == |nodes|
    requires forall a | 0 <= a < |nodes| :: nodes'[a].hashVal == nodes[a].hashVal
    ensures Placed(nodes', cs, cap)
  {
  }

  /** A chain whose node at pos has the key, with none before it, is searched to pos. */
  lemma FoundAt(nodes: seq<Node>, d: seq<nat>, key: Bytes, pos: nat)
    requires Within(d, |nodes|) && pos < |d| && Matches(nodes[d[pos]], key)
    requires forall j | 0 <= j < pos :: !Matches(nodes[d[j]], key)
    ensures FirstMatch(nodes, d, key) == pos
  {
  }

  /** Splicing x, which has the key, in at the position of the first match of a chain
      makes x the first match, whatever the splice does to the node it replaces. */
  lemma SpliceFound(nodes: seq<Node>, nodes': seq<Node>, c: seq<nat>, p: nat, x: nat, drop: bool, key: Bytes)
    requires Within(c, |nodes|) && |nodes'| == |nodes| && x < |nodes| && p < |c|
    requires p == FirstMatch(nodes, c, key) && Matches(nodes'[x], key)
    requires forall a | 0 <= a < |nodes| && a != c[p] :: nodes'[a] == nodes[a]
    ensures var d := Splice(c, p, x, drop);
      Within(d, |nodes'|) && FirstMatch(nodes', d, key) == p
  {
    var d := Splice(c, p, x, drop);
    forall j | 0 <= j < |d| ensures d[j] < |nodes'| {
      if j > p {
        assert d[j] == if drop then c[j] else c[j - 1];
      }
    }
    forall j | 0 <= j < p ensures !Matches(nodes'[d[j]], key) {
      assert d[j] == c[j];
    }
    FoundAt(nodes', d, key, p);
  }

  /** Taking the node at position p out of chain b keeps every node in its slot, links no
      node twice, and links one node fewer. */
  lemma DeleteKeeps(nodes: seq<Node>, cs: seq<seq<nat>>, cap: nat, b: nat, p: nat)
    requires Placed(nodes, cs, cap) && b < |cs| && p < |cs[b]| && NoDup(cs[b])
    ensures var d := Delete(cs[b], p);
      && Placed(nodes, cs[b := d], cap) && NoDup(d) && cs[b][p] !in d
      && Total(cs[b := d]) == Total(cs) - 1
  {
    var c := cs[b];
    var d := Delete(c, p);
    NoDupDelete(c, p);
    TotalUpdate(cs, b, d);
    PutPlaced(nodes, cs, cap, b, c, d, c[p]);
  }

  /** The update's splice with the displaced node's new count rc keeps every node in its
      slot, links no node twice, counts the nodes it links, and leaves the new node the
      first match of its key. */
  lemma ReplaceKeeps(nodes: seq<Node>, cs: seq<seq<nat>>, cap: nat, b: nat, p: nat, x: nat, rc: u16, key: Bytes)
    requires Placed(nodes, cs, cap) && b < |cs| && p < |cs[b]| && NoDup(cs[b])
    requires x < |nodes| && x !in cs[b] && HashIndex(nodes[x].hashVal, cap) == b && Matches(nodes[x], key)
    requires p == FirstMatch(nodes, cs[b], key)
    ensures var a := cs[b][p];
      var nodes' := nodes[a := nodes[a].(refCount := rc)];
      var d := Splice(cs[b], p, x, rc == 0);
      && Placed(nodes', cs[b := d], cap) && NoDup(d)
      && Total(cs[b := d]) == Total(cs) - |cs[b]| + |d|
      && Within(d, |nodes'|) && FirstMatch(nodes', d, key) == p
  {
    var c := cs[b];
    var a := c[p];
    var nodes' := nodes[a := nodes[a].(refCount := rc)];
    var d := Splice(c, p, x, rc == 0);
    assert Within(c, |nodes|) by {
      forall i | 0 <= i < |c| ensures c[i] < |nodes| { assert cs[b][i] == c[i]; }
    }
    NoDupSplice(c, p, x, rc == 0);
    PlacedFrame(nodes, nodes', cs, cap);
    PutPlaced(nodes', cs, cap, b, c, d, x);
    TotalUpdate(cs, b, d);
    SpliceFound(nodes, nodes', c, p, x, rc == 0, key);
  }

  /** The removal scan of slot b for key leaves the lookup of every other key where it
      was, in every slot. */
  lemma RemoveKeepsOthers(nodes: seq<Node>, cs: seq<seq<nat>>, b: nat, key: Bytes, buf: Option<Bytes>, dsize: nat,
                          b2: nat, key2: Bytes)
    requires AllWithin(cs, |nodes|) && Disjoint(cs) && b < |cs| && b2 < |cs| && key2 != key
    ensures Within(cs[b], |nodes|)
    ensures var r := RemoveScan(nodes, cs[b], key, buf, dsize);
      var cs' := cs[b := r.kept];
      && Within(cs'[b2], |r.nodes|)
      && PtrTo(cs'[b2], FirstMatch(r.nodes, cs'[b2], key2)) == PtrTo(cs[b2], FirstMatch(nodes, cs[b2], key2))
  {
    assert Within(cs[b], |nodes|) && NoDup(cs[b]);
    var r := RemoveScan(nodes, cs[b], key, buf, dsize);
    RemoveScanOtherKey(nodes, cs[b], key, key2, buf, dsize);
    if b2 != b {
      var c := cs[b2];
      assert Within(c, |nodes|);
      RemoveScanNodes(nodes, cs[b], key, buf, dsize);
      forall i | 0 <= i < |c| ensures Matches(r.nodes[c[i]], key2) == Matches(nodes[c[i]], key2) {
      }
      FirstMatchFrame(nodes, r.nodes, c, key2);
    }
  }

  /** What taosHashGetImpl hands back: the node found (its data pointer; NULL for none),
      the caller's buffer *d (None: NULL), *size (None: no size pointer) and terrno. */
  datatype GetOutcome = GetOutcome(node: Ptr, buf: Option<Bytes>, size: Option<int>, errno: Errno)

  /** The end of taosHashGetImpl once the search has found node f, whose value is data, or
      nothing (f == NULL). With a size pointer, a NULL buffer is allocated (calloc) and one
      whose *size, read as unsigned, is below dataLen is grown (realloc), *size becoming
      dataLen first; allocOk says whether that allocation succeeds, and a failure returns
      NULL with terrno set. A buffer then receives the dataLen bytes of the value. */
  function GetCopy(f: Ptr, data: Bytes, d: Option<Bytes>, sz: Option<int>, allocOk: bool, errno: Errno): (o: GetOutcome)
    ensures f == Null ==> o == GetOutcome(Null, d, sz, errno)
    ensures o.node != Null ==> o.node == f && o.errno == errno
    ensures f != Null && (allocOk || !(sz.Some? && (d.None? || sz.value % 0x1_0000_0000 < |data|))) ==>
      o.node == f && o.errno == errno
    ensures o.node != Null && o.buf.Some? ==> |data| <= |o.buf.value| && o.buf.value[..|data|] == data
    ensures o.node != Null ==> (d.Some? ==> o.buf.Some?) && (sz.Some? ==> o.size.Some? && o.size.value % 0x1_0000_0000 >= |data| % 0x1_0000_0000)
    ensures o.errno != errno ==> o.errno == OutOfMemory && o.node == Null && o.buf == d && !allocOk
    ensures o.node == Null ==> o.buf == d
  {
    if f == Null then GetOutcome(Null, d, sz, errno)
    else
      var grow := sz.Some? && (d.None? || sz.value % 0x1_0000_0000 < |data|);
      var sz' := if grow then Some(ToInt32(|data|)) else sz;
      if grow && !allocOk then GetOutcome(Null, d, sz', OutOfMemory)
      else GetOutcome(f, if grow then Some(data) else if d.None? then None else Some(CopyInto(d.value, data, |data|)), sz', errno)
  }

  /** The allocation and the copy at the end of taosHashGetImpl, for the node f it found,
      whose value is data. */
  method CopyValue(f: Ptr, data: Bytes, d: Option<Bytes>, sz: Option<int>, allocOk: bool, errno: Errno)
      returns (r: Ptr, d': Option<Bytes>, sz': Option<int>, errno': Errno)
    requires f != Null
    ensures GetOutcome(r, d', sz', errno') == GetCopy(f, data, d, sz, allocOk, errno)
  {
    d', sz', errno' := d, sz, errno;
    if sz.Some? {
      if d.None? {
        sz' := Some(ToInt32(|data|));
        if !allocOk {
          return Null, d, sz', OutOfMemory;
        }
        d' := Some(seq(|data|, _ => 0));
        assert CopyInto(d'.value, data, |data|) == data[..|data|] == data;
      } else if sz.value % 0x1_0000_0000 < |data| {
        sz' := Some(ToInt32(|data|));
        if !allocOk {
          return Null, d, sz', OutOfMemory;
        }
        var buf := d.value;
        d' := Some(if |data| <= |buf| then buf[..|data|] else buf + seq(|data| - |buf|, _ => 0));
        assert CopyInto(d'.value, data, |data|) == data[..|data|] == data;
      }
    }
    if d'.Some? {
      d' := Some(CopyInto(d'.value, data, |data|));
    }
    r := f;
  }

  /** What taosHashReleaseNode leaves: the heap, the chains, the size counter, and the node
      it returns. */
  datatype Released = Released(nodes: seq<Node>, chains: seq<seq<nat>>, size: int, next: Ptr)

  /** taosHashReleaseNode on node a, looked for in the chain of the slot its cached hash
      selects. When a is there, the node returned is the first one behind it that is not
      removed, and a loses a reference and, once it has none, is unlinked and counted out
      of the table; when a is not there nothing changes and NULL is returned. */
  ghost function ReleaseOf(nodes: seq<Node>, cs: seq<seq<nat>>, size: int, cap: nat, a: nat): (r: Released)
    requires AllWithin(cs, |nodes|) && |cs| == cap && cap > 0 && a < |nodes|
    ensures |r.nodes| == |nodes| && |r.chains| == |cs| && AllWithin(r.chains, |r.nodes|)
    ensures forall x | 0 <= x < |nodes| && x != a :: r.nodes[x] == nodes[x]
    ensures r.next != Null ==> r.next.addr < |nodes| && !nodes[r.next.addr].removed
    ensures a !in cs[HashIndex(nodes[a].hashVal, cap)] ==> r == Released(nodes, cs, size, Null)
  {
    var s := HashIndex(nodes[a].hashVal, cap);
    var c := cs[s];
    assert Within(c, |nodes|);
    if a !in c then Released(nodes, cs, size, Null)
    else
      var i := IndexOf(c, a);
      var rc := Dec16(nodes[a].refCount);
      var cs' := if rc == 0 then cs[s := Delete(c, i)] else cs;
      assert AllWithin(cs', |nodes|) by {
        forall j | 0 <= j < |Delete(c, i)| ensures Delete(c, i)[j] < |nodes| {
          assert Delete(c, i)[j] == if j < i then c[j] else c[j + 1];
        }
      }
      Released(nodes[a := nodes[a].(refCount := rc)], cs', if rc == 0 then size - 1 else size,
               PtrTo(c, FirstLive(nodes, c, i + 1)))
  }

  /** Releasing node cs[b][i] gives it a new reference count and, when it is removed, may
      unlink it: either way the lookup of every key stops where it did. */
  lemma ReleaseKeepsLookup(nodes: seq<Node>, cs: seq<seq<nat>>, b: nat, i: nat, rc: u16, drop: bool, b2: nat, key: Bytes)
    requires AllWithin(cs, |nodes|) && b < |cs| && b2 < |cs| && i < |cs[b]|
    requires drop ==> nodes[cs[b][i]].removed
    ensures var a := cs[b][i];
      var nodes' := nodes[a := nodes[a].(refCount := rc)];
      var cs' := if drop then cs[b := Delete(cs[b], i)] else cs;
      && Within(cs[b2], |nodes|) && Within(cs'[b2], |nodes'|)
      && PtrTo(cs'[b2], FirstMatch(nodes', cs'[b2], key)) == PtrTo(cs[b2], FirstMatch(nodes, cs[b2], key))
  {
    var a := cs[b][i];
    var nodes' := nodes[a := nodes[a].(refCount := rc)];
    assert Within(cs[b2], |nodes|) && Within(cs[b], |nodes|);
    FirstMatchFrame(nodes, nodes', cs[b2], key);
    if drop && b2 == b {
      DeleteUnmatched(nodes', cs[b], i, key);
    }
  }

  /** The buckets after the released node's are untouched by the release, so the scan
      of taosHashIterate from there finds the same node before and after it. */
  lemma ScanAfterRelease(nodes: seq<Node>, cs: seq<seq<nat>>, size: int, cap: nat, a: nat)
    requires AllWithin(cs, |nodes|) && |cs| == cap && cap > 0 && a < |nodes|
    ensures var rel := ReleaseOf(nodes, cs, size, cap, a);
      var s := HashIndex(nodes[a].hashVal, cap);
      PosPtr(rel.chains, ScanBuckets(rel.nodes, rel.chains, s + 1)) == PosPtr(cs, ScanBuckets(nodes, cs, s + 1))
  {
    var rel := ReleaseOf(nodes, cs, size, cap, a);
    var s := HashIndex(nodes[a].hashVal, cap);
    ScanBucketsFrame(nodes, rel.nodes, cs, rel.chains, s + 1);
  }

  /** taosHashAcquire followed by taosHashRelease of the node it found: the reference
      count is back where it was, and the node stays linked unless that count was 0. */
  lemma AcquireRelease(nodes: seq<Node>, cs: seq<seq<nat>>, size: int, cap: nat, a: nat)
    requires AllWithin(cs, |nodes|) && |cs| == cap && cap > 0 && a < |nodes|
    requires a in cs[HashIndex(nodes[a].hashVal, cap)]
    ensures var r := ReleaseOf(nodes[a := nodes[a].(refCount := Inc16(nodes[a].refCount))], cs, size, cap, a);
      r.nodes == nodes && (nodes[a].refCount != 0 ==> r.chains == cs && r.size == size)
  {
  }

  /** The node taosHashIterate takes a reference on, for cursor p: with no cursor, the
      first node of the table that is not removed, bucket by bucket; after releasing the
      cursor, the first node behind it in its chain that is not removed, or else the
      first in the buckets after the cursor's. */
  ghost function IterTarget(nodes: seq<Node>, cs: seq<seq<nat>>, size: int, cap: nat, p: Ptr): (t: Ptr)
    requires AllWithin(cs, |nodes|) && |cs| == cap && cap > 0 && (p.At? ==> p.addr < |nodes|)
    ensures t.At? ==> t.addr < |nodes| && !nodes[t.addr].removed
  {
    if p == Null then PosPtr(cs, ScanBuckets(nodes, cs, 0))
    else
      var rel := ReleaseOf(nodes, cs, size, cap, p.addr);
      if rel.next != Null then rel.next
      else PosPtr(cs, ScanBuckets(nodes, cs, HashIndex(nodes[p.addr].hashVal, cap) + 1))
  }

  /** The reference taosHashIterate takes on node t, when there is one: t is returned with
      one reference more, unless its 16-bit count is at its maximum, where the increment
      is rolled back and NULL is returned. */
  ghost predicate Pinned(nodes: seq<Node>, t: Ptr, nodes': seq<Node>, r: Ptr)
    requires t.At? ==> t.addr < |nodes|
  {
    if t == Null || nodes[t.addr].refCount == 0xFFFF then r == Null && nodes' == nodes
    else r == t && nodes' == nodes[t.addr := nodes[t.addr].(refCount := nodes[t.addr].refCount + 1)]
  }

  /** The sizeof values GetMemSize adds up; they depend on the platform. */
  datatype Layout = Layout(entry: nat, pointer: nat, node: nat, table: nat)

  class HashTable {
    /** Number of slots of the directory. */
    var capacity: nat
    /** Number of nodes linked into chains (the size counter). */
    var size: nat
    /** The directory: one entry per slot. */
    var buckets: seq<Entry>
    /** The node heap: node a lives at address a; an unlinked node is garbage. */
    var nodes: seq<Node>
    /** The next link of every node of the heap. */
    var nexts: seq<Ptr>
    /** The chain each slot heads, as node addresses from head to tail. */
    ghost var chains: seq<seq<nat>>
    /** The hash function given to taosHashInit. */
    const hashFp: Bytes -> u32
    /** Whether a put of a present key replaces it. */
    const enableUpdate: bool

    /** The links describe the chains: each entry heads its chain, no node is linked twice. */
    ghost predicate Linked()
      reads this
    {
      LinkedAll(|nodes|, nexts, buckets, chains)
    }

    /** The table invariant: a power-of-two directory of at least 4 slots, every node in the
        slot its hash selects, size counting the linked nodes, and every node's cached hash
        the hash of its key. */
    ghost predicate Valid()
      reads this
    {
      && Linked()
      && IsPow2(capacity) && 4 <= capacity <= HashMaxCapacity
      && |chains| == capacity
      && Placed(nodes, chains, capacity)
      && size == Total(chains)
      && (forall a | 0 <= a < |nodes| :: nodes[a].hashVal == hashFp(nodes[a].key))
    }

    /** The node a lookup of key stops at: the first node of its slot's chain that has the
        key and is not removed. */
    ghost function Find(key: Bytes): (r: Ptr)
      requires Valid()
      reads this
      ensures r.At? ==> r.addr < |nodes| && Matches(nodes[r.addr], key)
    {
      var c := chains[HashIndex(hashFp(key), capacity)];
      PtrTo(c, FirstMatch(nodes, c, key))
    }

    constructor (cap: nat, fn: Bytes -> u32, update: bool)
      requires IsPow2(cap) && 4 <= cap <= HashMaxCapacity
      ensures Valid() && capacity == cap && size == 0 && hashFp == fn && enableUpdate == update
      ensures buckets == seq(cap, _ => Entry(0, Null)) && nodes == [] && nexts == []
    {
      capacity := cap;
      size := 0;
      buckets := seq(cap, _ => Entry(0, Null));
      nodes := [];
      nexts := [];
      chains := seq(cap, _ => []);
      hashFp := fn;
      enableUpdate := update;
      new;
      TotalAllEmpty(chains);
    }

    /** taosHashInit: no table without a hash function; a hint of 0 means 4, and the hint
        goes through an (int32_t) cast before it is rounded up. */
    static method Init(hint: nat, fn: Option<Bytes -> u32>, update: bool) returns (t: HashTable?)
      ensures fn.None? ==> t == null
      ensures fn.Some? ==> t != null && fresh(t) && t.Valid() && t.size == 0 && t.nodes == []
      ensures fn.Some? ==> t.hashFp == fn.value && t.enableUpdate == update
      ensures fn.Some? ==>
        var len := Min(ToInt32(if hint == 0 then 4 else hint), HashMaxCapacity);
        && IsPow2(t.capacity) && 4 <= t.capacity && t.capacity >= len
        && (t.capacity == 4 || t.capacity / 2 < len)
        && t.buckets == seq(t.capacity, _ => Entry(0, Null))
    {
      if fn.None? {
        return null;
      }
      var capacity := if hint == 0 then 4 else hint;
      var cap := Capacity(ToInt32(capacity));
      t := new HashTable(cap, fn.value, update);
    }

    /** taosHashGetSize: the size counter read as an int32_t. */
    function GetSize(): (r: int)
      reads this
      ensures -0x8000_0000 <= r < 0x8000_0000
      ensures size < 0x8000_0000 ==> r == size
    {
      ToInt32(size)
    }

    /** taosHashTableEmpty. */
    predicate TableEmpty()
      reads this
    {
      GetSize() == 0
    }

    /** taosHashGetMemSize, in 64-bit size_t arithmetic (the int32_t size is converted). */
    function GetMemSize(l: Layout): (r: nat)
      reads this
      ensures r < 0x1_0000_0000_0000_0000
      ensures size < 0x8000_0000 && capacity * (l.entry + l.pointer) + l.node * size + l.table < 0x1_0000_0000_0000_0000 ==>
        r == capacity * (l.entry + l.pointer) + l.node * size + l.table
    {
      (capacity * (l.entry + l.pointer) + l.node * GetSize() + l.table) % 0x1_0000_0000_0000_0000
    }

    // -------------------------------------------------------------------------
    // Chain primitives

    /** doSearchInEntryList: the first node of the slot's chain with the key that is not removed. */
    method SearchInEntryList(slot: nat, key: Bytes) returns (node: Ptr)
      requires Linked() && slot < |buckets|
      ensures node == PtrTo(chains[slot], FirstMatch(nodes, chains[slot], key))
    {
      ghost var c := chains[slot];
      ghost var k := 0;
      node := buckets[slot].next;
      while node != Null
        invariant 0 <= k <= |c| && node == PtrTo(c, k)
        invariant forall j | 0 <= j < k :: !Matches(nodes[c[j]], key)
        decreases |c| - k
      {
        if Matches(nodes[node.addr], key) {
          break;
        }
        node := nexts[node.addr];
        k := k + 1;
      }
    }

    /** The search loop of taosHashPut, which also keeps the node before the one it stops at. */
    method SearchWithPrev(slot: nat, key: Bytes) returns (prev: Ptr, node: Ptr, ghost pos: nat)
      requires Linked() && slot < |buckets|
      ensures pos == FirstMatch(nodes, chains[slot], key)
      ensures node == PtrTo(chains[slot], pos)
      ensures prev == if pos == 0 then Null else At(chains[slot][pos - 1])
    {
      ghost var c := chains[slot];
      pos := 0;
      prev := Null;
      node := buckets[slot].next;
      while node != Null
        invariant 0 <= pos <= |c| && node == PtrTo(c, pos)
        invariant prev == if pos == 0 then Null else At(c[pos - 1])
        invariant forall j | 0 <= j < pos :: !Matches(nodes[c[j]], key)
        decreases |c| - pos
      {
        if Matches(nodes[node.addr], key) {
          break;
        }
        prev := node;
        node := nexts[node.addr];
        pos := pos + 1;
      }
    }

    /** The walk past removed nodes of taosHashReleaseNode and taosHashIterate: from
        position from of a chain to the first node there or later that is not removed. */
    method SkipRemoved(start: Ptr, ghost slot: nat, ghost from: nat) returns (node: Ptr)
      requires Linked() && slot < |chains| && from <= |chains[slot]|
      requires start == PtrTo(chains[slot], from)
      ensures node == PtrTo(chains[slot], FirstLive(nodes, chains[slot], from))
    {
      ghost var c := chains[slot];
      ghost var k := from;
      node := start;
      while node != Null
        invariant from <= k <= |c| && node == PtrTo(c, k)
        invariant forall j | from <= j < k :: nodes[c[j]].removed
        decreases |c| - k
      {
        if !nodes[node.addr].removed {
          break;
        }
        node := nexts[node.addr];
        k := k + 1;
      }
    }

    /** pushfrontNodeInEntryList: node x, linked nowhere, becomes the head of the slot's chain. */
    method PushFrontNodeInEntryList(slot: nat, x: nat)
      requires Linked() && slot < |buckets| && x < |nodes| && Unlinked(chains, x)
      modifies this
      ensures Linked()
      ensures chains == old(chains)[slot := [x] + old(chains)[slot]]
      ensures buckets == old(buckets)[slot := Entry(old(buckets)[slot].num + 1, At(x))]
      ensures nexts == old(nexts)[x := old(buckets)[slot].next]
      ensures nodes == old(nodes) && size == old(size) && capacity == old(capacity)
    {
      LinkedPush(|nodes|, nexts, buckets, chains, slot, x);
      nexts := nexts[x := buckets[slot].next];
      buckets := buckets[slot := Entry(buckets[slot].num + 1, At(x))];
      chains := chains[slot := [x] + chains[slot]];
    }

    /** Unlinking the node at position p of the slot's chain, through the entry or through
        prev, the node before it, and counting it out of the entry (as taosHashRemoveWithData,
        taosHashReleaseNode and taosHashTableResize do). */
    method UnlinkNode(slot: nat, prev: Ptr, node: nat, ghost p: nat)
      requires Linked() && slot < |buckets| && p < |chains[slot]| && node == chains[slot][p]
      requires prev == if p == 0 then Null else At(chains[slot][p - 1])
      modifies this
      ensures Linked() && Unlinked(chains, node)
      ensures chains == old(chains)[slot := Delete(old(chains)[slot], p)]
      ensures buckets == old(buckets)[slot := Entry(old(buckets)[slot].num - 1,
                                                    if p == 0 then old(nexts)[node] else old(buckets)[slot].next)]
      ensures nexts == if p == 0 then old(nexts) else old(nexts)[prev.addr := old(nexts)[node]]
      ensures nodes == old(nodes) && size == old(size) && capacity == old(capacity)
    {
      LinkedUnlink(|nodes|, nexts, buckets, chains, slot, p);
      if prev == Null {
        buckets := buckets[slot := buckets[slot].(next := nexts[node])];
      } else {
        nexts := nexts[prev.addr := nexts[node]];
      }
      buckets := buckets[slot := buckets[slot].(num := buckets[slot].num - 1)];
      chains := chains[slot := Delete(chains[slot], p)];
    }

    // -------------------------------------------------------------------------
    // Resize

    /** One move of the resize: the node x at position p of slot idx's chain is unlinked
        there (prev is the node before it) and pushed at the head of slot T. */
    method MoveNode(idx: nat, T: nat, prev: Ptr, x: nat, ghost p: nat)
      requires Linked() && idx < |buckets| && T < |buckets| && idx != T
      requires p < |chains[idx]| && x == chains[idx][p]
      requires prev == if p == 0 then Null else At(chains[idx][p - 1])
      modifies this
      ensures Linked() && |buckets| == old(|buckets|)
      ensures chains == old(chains)[idx := Delete(old(chains)[idx], p)][T := [x] + old(chains)[T]]
      ensures nodes == old(nodes) && size == old(size) && capacity == old(capacity)
    {
      UnlinkNode(idx, prev, x, p);
      PushFrontNodeInEntryList(T, x);
    }

    /** Where the inner loop of taosHashTableResize stands on slot idx: the first k nodes
        of the slot's original chain c are visited, node is the next one to visit, prev is
        the last node that stayed, and the chains are Midway between start and the end. */
    ghost predicate Relinking(idx: nat, T: nat, c: seq<nat>, k: nat, start: seq<seq<nat>>, prev: Ptr, node: Ptr)
      reads this
    {
      && Linked() && capacity > 0 && idx < |start| && T < |start| && T != idx
      && |buckets| == |start| && Within(c, |nodes|) && k <= |c| && node == PtrTo(c, k)
      && chains == Midway(nodes, c, k, capacity, idx, T, start)
      && Within(c[..k], |nodes|) && prev == Last(Keep(nodes, c[..k], capacity, idx))
    }

    /** One turn of the inner loop of taosHashTableResize on slot idx: node, the k-th of
        the slot's original chain c, stays (and becomes prev) when its index in the current
        directory is idx and otherwise moves to the head of slot T; the walk goes on to the
        node that followed it in c. */
    method RelinkOne(idx: nat, ghost T: nat, prev: Ptr, node: Ptr, ghost c: seq<nat>, ghost k: nat,
                     ghost start: seq<seq<nat>>)
        returns (prev': Ptr, next: Ptr)
      requires Relinking(idx, T, c, k, start, prev, node) && node != Null
      requires HashIndex(nodes[c[k]].hashVal, capacity) in {idx, T}
      modifies this
      ensures Relinking(idx, T, c, k + 1, start, prev', next)
      ensures nodes == old(nodes) && size == old(size) && capacity == old(capacity)
    {
      MidwayAt(nodes, c, k, capacity, idx, T, start);
      MidwayNext(nodes, c, k, capacity, idx, T, start, nexts, buckets[idx]);
      ghost var p := |Keep(nodes, c[..k], capacity, idx)|;
      var newIdx := HashIndex(nodes[node.addr].hashVal, capacity);
      next := nexts[node.addr];
      if newIdx != idx {
        MidwayMove(nodes, c, k, capacity, idx, T, start);
        MoveNode(idx, newIdx, prev, node.addr, p);
        prev' := prev;
      } else {
        MidwayStay(nodes, c, k, capacity, idx, T, start);
        prev' := node;
      }
    }

    /** The inner loop of taosHashTableResize on slot idx: every node of its chain whose
        index in the current directory is not idx is unlinked and pushed at the head of
        slot T, the only other slot its index can be. */
    method RelinkBucket(idx: nat, ghost T: nat)
      requires Linked() && capacity > 0 && idx < |buckets| && T < |buckets| && T != idx
      requires forall i | 0 <= i < |chains[idx]| :: HashIndex(nodes[chains[idx][i]].hashVal, capacity) in {idx, T}
      modifies this
      ensures Linked() && nodes == old(nodes) && size == old(size) && capacity == old(capacity)
      ensures |buckets| == old(|buckets|)
      ensures chains == old(chains)[idx := Keep(nodes, old(chains)[idx], capacity, idx)]
                                   [T := Rev(Keep(nodes, old(chains)[idx], capacity, T)) + old(chains)[T]]
    {
      ghost var start := chains;
      ghost var c := chains[idx];
      ghost var k := 0;
      var node := buckets[idx].next;
      var prev := Null;
      MidwayEnds(nodes, c, capacity, idx, T, start);
      assert c[..0] == [];
      while node != Null
        invariant Relinking(idx, T, c, k, start, prev, node)
        invariant nodes == old(nodes) && size == old(size) && capacity == old(capacity)
        decreases |c| - k
      {
        prev, node := RelinkOne(idx, T, prev, node, c, k, start);
        k := k + 1;
      }
    }

    /** One turn of the outer loop of taosHashTableResize: an empty slot is skipped, any
        other has its chain split between itself and its partner slot. */
    method ResizeSlot(idx: nat, ghost cs: seq<seq<nat>>, ghost c0: nat)
      requires Linked() && c0 > 0 && capacity == 2 * c0 && |cs| == c0 && idx < 2 * c0
      requires AllWithin(cs, |nodes|) && Placed(nodes, cs, c0)
      requires chains == Partial(nodes, cs, c0, Min(idx, c0))
      modifies this
      ensures Linked() && nodes == old(nodes) && size == old(size) && capacity == old(capacity)
      ensures |buckets| == old(|buckets|)
      ensures chains == Partial(nodes, cs, c0, Min(idx + 1, c0))
    {
      PartialRelink(nodes, cs, c0, idx);
      ghost var T := if idx < c0 then idx + c0 else idx - c0;
      if buckets[idx].num == 0 {
        assert ChainOk(nexts, buckets[idx], chains[idx]);
        assert chains[idx] == [] && Keep(nodes, [], capacity, idx) == [] && Keep(nodes, [], capacity, T) == [];
        assert Rev([]) + chains[T] == chains[T];
        assert chains[idx := []][T := chains[T]] == chains;
      } else {
        RelinkBucket(idx, T);
      }
    }

    /** taosHashTableResize: when the load factor is reached and doubling stays within
        HASH_MAX_CAPACITY, the directory doubles and every chain is split by the new index
        of its nodes; otherwise nothing changes. The table invariant holds throughout, and
        the same nodes stay linked. */
    method TableResize()
      requires Valid()
      modifies this
      ensures Valid() && nodes == old(nodes) && size == old(size)
      ensures var grow := Grows(old(size), old(capacity));
        && capacity == (if grow then 2 * old(capacity) else old(capacity))
        && chains == (if grow then Rehash(nodes, old(chains), old(capacity)) else old(chains))
        && (!grow ==> buckets == old(buckets) && nexts == old(nexts))
    {
      if !NeedResize(size, capacity) {
        return;
      }
      var newCapacity := 2 * capacity;
      if newCapacity > HashMaxCapacity {
        return;
      }
      ghost var c0 := capacity;
      ghost var cs := chains;
      var inc := newCapacity - capacity;
      LinkedWiden(|nodes|, nexts, buckets, chains, inc);
      buckets := buckets + seq(inc, _ => Entry(0, Null));
      chains := chains + seq(c0, _ => []);
      PartialStart(nodes, cs, c0);
      capacity := newCapacity;
      var idx := 0;
      while idx < capacity
        invariant Linked() && 0 <= idx <= capacity && capacity == 2 * c0 && |buckets| == 2 * c0
        invariant nodes == old(nodes) && size == old(size)
        invariant chains == Partial(nodes, cs, c0, Min(idx, c0))
      {
        ResizeSlot(idx, cs, c0);
        idx := idx + 1;
      }
      Pow2Double(c0);
      RehashPlaced(nodes, cs, c0);
      RehashTotal(nodes, cs, c0);
    }

    // -------------------------------------------------------------------------
    // Put

    /** doUpdateHashNode: the new node x takes the place of node (at position p, after
        prev) in the chain, and node loses a reference; once that drops to 0 node is
        unlinked (and freed), otherwise it stays linked right behind x and the entry and
        the table count one node more. */
    method DoUpdateHashNode(slot: nat, prev: Ptr, node: nat, x: nat, ghost p: nat)
      requires Linked() && slot < |buckets| && p < |chains[slot]| && node == chains[slot][p]
      requires prev == if p == 0 then Null else At(chains[slot][p - 1])
      requires x < |nodes| && Unlinked(chains, x)
      modifies this
      ensures Linked() && capacity == old(capacity) && |buckets| == old(|buckets|)
      ensures var rc := Dec16(old(nodes)[node].refCount);
        var c := old(chains)[slot];
        && nodes == old(nodes)[node := old(nodes)[node].(refCount := rc)]
        && chains == old(chains)[slot := Splice(c, p, x, rc == 0)]
        && size == old(size) + (if rc == 0 then 0 else 1)
    {
      var rc := Dec16(nodes[node].refCount);
      nodes := nodes[node := nodes[node].(refCount := rc)];
      LinkedSplice(|nodes|, nexts, buckets, chains, slot, p, x, rc == 0);
      if prev != Null {
        nexts := nexts[prev.addr := At(x)];
      } else {
        buckets := buckets[slot := buckets[slot].(next := At(x))];
      }
      if rc == 0 {
        nexts := nexts[x := nexts[node]];
      } else {
        nexts := nexts[x := At(node)];
        buckets := buckets[slot := buckets[slot].(num := buckets[slot].num + 1)];
        size := size + 1;
      }
      ghost var c := chains[slot];
      chains := chains[slot := Splice(c, p, x, rc == 0)];
    }

    /** The node heap grows by one unlinked node. */
    method AddNode(n: Node) returns (x: nat)
      requires Valid() && n.hashVal == hashFp(n.key)
      modifies this
      ensures Valid() && x == |old(nodes)| && nodes == old(nodes) + [n]
      ensures chains == old(chains) && size == old(size) && capacity == old(capacity)
    {
      x := |nodes|;
      LinkedGrow(|nodes|, nexts, buckets, chains);
      nodes := nodes + [n];
      nexts := nexts + [Null];
      assert Placed(nodes, chains, capacity) by {
        forall b, i | 0 <= b < |chains| && 0 <= i < |chains[b]| ensures chains[b][i] < x {
          assert Within(chains[b], x);
        }
      }
    }

    /** The first steps of taosHashPut for an accepted key: the new node is made, and the
        table resizes when it is over its load factor. */
    method AddAndGrow(n: Node) returns (x: nat)
      requires Valid() && n.hashVal == hashFp(n.key)
      modifies this
      ensures Valid() && x == |old(nodes)| && nodes == old(nodes) + [n] && Unlinked(chains, x)
      ensures size == old(size) && capacity == GrownCapacity(old(size), old(capacity))
      ensures chains == GrownChains(old(nodes), old(chains), old(size), old(capacity))
    {
      ghost var g := GrownChains(nodes, chains, size, capacity);
      ghost var nodes0 := nodes;
      x := AddNode(n);
      if NeedResize(size, capacity) {
        TableResize();
        if Grows(old(size), old(capacity)) {
          RehashFrame(nodes0, nodes, old(chains), old(capacity));
        }
      }
      assert chains == g;
      FreshUnlinked(chains, x);
    }

    /** The put of an absent key: node x goes in front of its slot's chain. */
    method PutAbsent(slot: nat, x: nat, ghost key: Bytes)
      requires Valid() && x < |nodes| && Unlinked(chains, x) && Matches(nodes[x], key)
      requires slot == HashIndex(hashFp(key), capacity) && nodes[x].hashVal == hashFp(key)
      modifies this
      ensures Valid() && nodes == old(nodes) && capacity == old(capacity) && size == old(size) + 1
      ensures chains == old(chains)[slot := [x] + old(chains)[slot]]
      ensures Find(key) == At(x)
    {
      ghost var c := chains[slot];
      PushFrontNodeInEntryList(slot, x);
      size := size + 1;
      PutPlaced(nodes, old(chains), capacity, slot, c, [x] + c, x);
      TotalUpdate(old(chains), slot, [x] + c);
      FoundAt(nodes, chains[slot], key, 0);
    }

    /** The put of a present key with updates enabled: node x takes the place of the node
        found at position p, as doUpdateHashNode does. */
    method PutReplace(slot: nat, prev: Ptr, node: nat, x: nat, ghost p: nat, ghost key: Bytes)
      requires Valid() && slot < |chains| && p < |chains[slot]| && node == chains[slot][p]
      requires prev == if p == 0 then Null else At(chains[slot][p - 1])
      requires x < |nodes| && Unlinked(chains, x) && x != node && Matches(nodes[x], key)
      requires slot == HashIndex(hashFp(key), capacity) && nodes[x].hashVal == hashFp(key)
      requires p == FirstMatch(nodes, chains[slot], key)
      modifies this
      ensures Valid() && capacity == old(capacity) && Find(key) == At(x)
      ensures var rc := Dec16(old(nodes)[node].refCount);
        var c := old(chains)[slot];
        && nodes == old(nodes)[node := old(nodes)[node].(refCount := rc)]
        && chains == old(chains)[slot := Splice(c, p, x, rc == 0)]
        && size == old(size) + (if rc == 0 then 0 else 1)
    {
      ReplaceKeeps(nodes, chains, capacity, slot, p, x, Dec16(nodes[node].refCount), key);
      DoUpdateHashNode(slot, prev, node, x, p);
    }

    /** taosHashPut. A NULL or empty key is refused with -1. Otherwise the new node is made,
        the table resizes if it is over its load factor, and the key is searched in its slot:
        when absent the node goes in front of the chain (0); when present it replaces the
        node found if updates are enabled (0) and is discarded otherwise (-1). Either way a
        lookup of the key then finds the new node whenever 0 is returned. */
    method Put(key: Option<Bytes>, data: Bytes) returns (code: int)
      requires Valid()
      modifies this
      ensures Valid()
      ensures BadKey(key) ==>
        code == -1 && nodes == old(nodes) && chains == old(chains) && size == old(size) && capacity == old(capacity)
      ensures !BadKey(key) ==>
        var k := key.value;
        var x := |old(nodes)|;
        var n := NewNode(k, data, hashFp(k));
        var cs := GrownChains(old(nodes), old(chains), old(size), old(capacity));
        var slot := HashIndex(hashFp(k), GrownCapacity(old(size), old(capacity)));
        var c := cs[slot];
        var pos := FirstMatch(old(nodes), c, k);
        && capacity == GrownCapacity(old(size), old(capacity))
        && (pos == |c| ==>
              code == 0 && nodes == old(nodes) + [n] && chains == cs[slot := [x] + c] && size == old(size) + 1)
        && (pos < |c| && enableUpdate ==>
              var rc := Dec16(old(nodes)[c[pos]].refCount);
              && code == 0
              && nodes == (old(nodes) + [n])[c[pos] := old(nodes)[c[pos]].(refCount := rc)]
              && chains == cs[slot := Splice(c, pos, x, rc == 0)]
              && size == old(size) + (if rc == 0 then 0 else 1))
        && (pos < |c| && !enableUpdate ==>
              code == -1 && nodes == old(nodes) + [n] && chains == cs && size == old(size))
      ensures code == 0 ==> Find(key.value) == At(|old(nodes)|)
    {
      if key.None? || key.value == [] {
        return -1;
      }
      var k := key.value;
      var hashVal := hashFp(k);
      var x := AddAndGrow(NewNode(k, data, hashVal));
      ghost var cs := chains;
      var slot := HashIndex(hashVal, capacity);
      var prev, node, pos := SearchWithPrev(slot, k);
      ghost var c := cs[slot];
      FirstMatchFrame(old(nodes), nodes, c, k);
      if node == Null {
        PutAbsent(slot, x, k);
        code := 0;
      } else if enableUpdate {
        assert node.addr == c[pos] && nodes[c[pos]] == old(nodes)[c[pos]];
        PutReplace(slot, prev, node.addr, x, pos, k);
        code := 0;
      } else {
        code := -1;
      }
    }

    // -------------------------------------------------------------------------
    // Remove

    /** Where the removal scan of slot's chain stands: the first k nodes of the slot's
        original chain c are scanned, kept are those of them still linked, node is the next
        one to visit and prev the last one kept; goal, the scan of the whole chain, is the
        part scanned combined with the scan of the rest from the current heap and buffer. */
    ghost predicate Removing(slot: nat, key: Bytes, dsize: nat, c: seq<nat>, k: nat, kept: seq<nat>,
                             found: bool, buf: Option<Bytes>, prev: Ptr, node: Ptr, goal: Removal)
      reads this
    {
      && Valid() && slot < |chains| && Within(c, |nodes|) && k <= |c| && Within(c[k..], |nodes|)
      && chains[slot] == kept + c[k..] && prev == Last(kept) && node == PtrTo(c, k)
      && goal == Combine(kept, found, RemoveScan(nodes, c[k..], key, buf, dsize))
    }

    /** A match of the removal scan loses a reference and is marked removed. */
    method MarkRemoved(x: nat)
      requires Valid() && x < |nodes|
      modifies this
      ensures Valid() && nodes == old(nodes)[x := Marked(old(nodes)[x])]
      ensures chains == old(chains) && buckets == old(buckets) && nexts == old(nexts)
      ensures size == old(size) && capacity == old(capacity)
    {
      nodes := nodes[x := Marked(nodes[x])];
      PlacedFrame(old(nodes), nodes, chains, capacity);
    }

    /** A node whose last reference went is unlinked and counted out of the table (by
        taosHashRemoveWithData and by taosHashReleaseNode). */
    method DropNode(slot: nat, prev: Ptr, x: nat, ghost p: nat)
      requires Valid() && slot < |chains| && p < |chains[slot]| && x == chains[slot][p]
      requires prev == if p == 0 then Null else At(chains[slot][p - 1])
      modifies this
      ensures Valid() && SameBut(old(chains), chains, slot) && chains[slot] == Delete(old(chains)[slot], p)
      ensures nodes == old(nodes) && capacity == old(capacity) && size == old(size) - 1
    {
      assert NoDup(chains[slot]);
      DeleteKeeps(nodes, chains, capacity, slot, p);
      UnlinkNode(slot, prev, x, p);
      size := size - 1;
    }

    /** The scan passes a node that does not match: it is kept, and becomes prev. */
    method RemoveSkip(slot: nat, ghost key: Bytes, dsize: nat, ghost c: seq<nat>, ghost k: nat, ghost kept: seq<nat>,
                      ghost found: bool, buf: Option<Bytes>, prev: Ptr, node: Ptr, ghost goal: Removal)
        returns (next: Ptr)
      requires Removing(slot, key, dsize, c, k, kept, found, buf, prev, node, goal)
      requires node != Null && !Matches(nodes[node.addr], key)
      ensures k < |c| && Removing(slot, key, dsize, c, k + 1, kept + [node.addr], found, buf, node, next, goal)
    {
      GoalSkip(nodes, c, k, kept, found, buf, key, dsize, goal);
      SplitAt(kept, c, k);
      LinkUnchanged(nexts, buckets[slot], chains[slot], |kept|);
      next := nexts[node.addr];
    }

    /** A match whose last reference went leaves the chain; the scan goes on with its
        successor, as RemoveScan does (the code's loop ends here, Finding B). */
    method RemoveDrop(slot: nat, ghost c: seq<nat>, ghost k: nat, ghost kept: seq<nat>, prev: Ptr, node: Ptr)
        returns (next: Ptr)
      requires Valid() && slot < |chains| && Within(c, |nodes|) && k < |c|
      requires chains[slot] == kept + c[k..] && prev == Last(kept) && node == At(c[k])
      modifies this
      ensures Valid() && capacity == old(capacity) && nodes == old(nodes) && SameBut(old(chains), chains, slot)
      ensures chains[slot] == kept + c[k + 1..] && next == PtrTo(c, k + 1)
    {
      SplitAt(kept, c, k);
      LinkUnchanged(nexts, buckets[slot], chains[slot], |kept|);
      next := nexts[node.addr];
      DropNode(slot, prev, node.addr, |kept|);
    }

    /** The scan state once the node at position k has left the chain. */
    lemma RemovingAfterDrop(slot: nat, key: Bytes, dsize: nat, c: seq<nat>, k: nat, kept: seq<nat>,
                            buf: Option<Bytes>, prev: Ptr, next: Ptr, goal: Removal)
      requires Valid() && slot < |chains| && Within(c, |nodes|) && k < |c|
      requires chains[slot] == kept + c[k + 1..] && prev == Last(kept) && next == PtrTo(c, k + 1)
      requires goal == Combine(kept, true, RemoveScan(nodes, c[k + 1..], key, buf, dsize))
      ensures Removing(slot, key, dsize, c, k + 1, kept, true, buf, prev, next, goal)
    {
    }

    /** The scan meets a match: it is marked; once its reference count is 0 it is
        unlinked, its value copied into the caller's buffer, and the scan goes on with its
        successor; otherwise the scan looks at it again, now removed. */
    method RemoveMatch(slot: nat, ghost key: Bytes, dsize: nat, ghost c: seq<nat>, ghost k: nat, ghost kept: seq<nat>,
                       ghost found: bool, buf: Option<Bytes>, prev: Ptr, node: Ptr, ghost goal: Removal)
        returns (ghost k': nat, buf': Option<Bytes>, node': Ptr)
      requires Removing(slot, key, dsize, c, k, kept, found, buf, prev, node, goal)
      requires node != Null && Matches(nodes[node.addr], key)
      modifies this
      ensures Removing(slot, key, dsize, c, k', kept, true, buf', prev, node', goal)
      ensures capacity == old(capacity) && SameBut(old(chains), chains, slot)
      ensures k' == k + 1 || (k' == k && node' == node && !Matches(nodes[node.addr], key))
    {
      var x := node.addr;
      if Dec16(nodes[x].refCount) == 0 {
        GoalDrop(nodes, c, k, kept, found, buf, key, dsize, goal);
        MarkRemoved(x);
        buf' := if buf.Some? then Some(CopyInto(buf.value, nodes[x].data, Min(dsize, |nodes[x].data|))) else buf;
        node' := RemoveDrop(slot, c, k, kept, prev, node);
        RemovingAfterDrop(slot, key, dsize, c, k, kept, buf', prev, node', goal);
        k' := k + 1;
      } else {
        GoalMark(nodes, c, k, kept, found, buf, key, dsize, goal);
        MarkRemoved(x);
        k', buf', node' := k, buf, node;
      }
    }

    /** One turn of the loop of taosHashRemoveWithData: a match is marked (and maybe
        unlinked), any other node is passed. */
    method RemoveVisit(slot: nat, key: Bytes, dsize: nat, ghost c: seq<nat>, ghost k: nat, ghost kept: seq<nat>,
                       code: int, buf: Option<Bytes>, prev: Ptr, node: Ptr, ghost goal: Removal)
        returns (code': int, ghost k': nat, ghost kept': seq<nat>, buf': Option<Bytes>, prev': Ptr, node': Ptr)
      requires Removing(slot, key, dsize, c, k, kept, code == 0, buf, prev, node, goal) && node != Null
      modifies this
      ensures Removing(slot, key, dsize, c, k', kept', code' == 0, buf', prev', node', goal)
      ensures capacity == old(capacity) && SameBut(old(chains), chains, slot)
      ensures (code == 0 || code == -1) ==> (code' == 0 || code' == -1)
      ensures k < k' <= |c| || (k' == k && node' == node && Matches(old(nodes)[node.addr], key) && !Matches(nodes[node.addr], key))
    {
      if Matches(nodes[node.addr], key) {
        code' := 0;
        kept', prev' := kept, prev;
        k', buf', node' := RemoveMatch(slot, key, dsize, c, k, kept, code == 0, buf, prev, node, goal);
      } else {
        code', k', kept', buf', prev' := code, k + 1, kept + [node.addr], buf, node;
        node' := RemoveSkip(slot, key, dsize, c, k, kept, code == 0, buf, prev, node, goal);
      }
    }

    /** The loop of taosHashRemoveWithData over one slot: the chain ends up as the scan
        RemoveScan describes, and the result is 0 exactly when a match was found. */
    method RemoveInSlot(slot: nat, key: Bytes, data: Option<Bytes>, dsize: nat) returns (code: int, data': Option<Bytes>)
      requires Valid() && slot < |chains|
      modifies this
      ensures Within(old(chains)[slot], |old(nodes)|)
      ensures var r := RemoveScan(old(nodes), old(chains)[slot], key, data, dsize);
        && Valid() && capacity == old(capacity)
        && nodes == r.nodes && chains == old(chains)[slot := r.kept] && data' == r.buf
        && code == (if r.found then 0 else -1)
        && size == old(size) - |old(chains)[slot]| + |r.kept|
    {
      ghost var c := chains[slot];
      assert Within(c, |nodes|) && c[0..] == c;
      ghost var goal := RemoveScan(nodes, c, key, data, dsize);
      assert goal == Combine([], false, goal);
      ghost var k, kept, prev;
      code, k, kept, data', prev := RemoveLoop(slot, key, dsize, c, data, goal);
      RemoveFinish(slot, key, dsize, c, k, kept, code == 0, data', prev, goal, old(chains), old(size));
    }

    /** The loop of taosHashRemoveWithData, from the head of the slot's chain c to its end. */
    method RemoveLoop(slot: nat, key: Bytes, dsize: nat, ghost c: seq<nat>, data: Option<Bytes>, ghost goal: Removal)
        returns (code: int, ghost k: nat, ghost kept: seq<nat>, data': Option<Bytes>, ghost prev: Ptr)
      requires Removing(slot, key, dsize, c, 0, [], false, data, Null, PtrTo(c, 0), goal)
      modifies this
      ensures Removing(slot, key, dsize, c, k, kept, code == 0, data', prev, Null, goal)
      ensures capacity == old(capacity) && SameBut(old(chains), chains, slot)
      ensures code == 0 || code == -1
    {
      k, kept := 0, [];
      code := -1;
      data' := data;
      var prevNode := Null;
      var node := buckets[slot].next;
      while node != Null
        invariant Removing(slot, key, dsize, c, k, kept, code == 0, data', prevNode, node, goal)
        invariant capacity == old(capacity) && SameBut(old(chains), chains, slot)
        invariant code == 0 || code == -1
        decreases |c| - k, if node != Null && Matches(nodes[node.addr], key) then 1 else 0
      {
        code, k, kept, data', prevNode, node := RemoveVisit(slot, key, dsize, c, k, kept, code, data', prevNode, node, goal);
      }
      prev := prevNode;
    }

    /** When the removal scan has reached the end of the chain, the table is what the scan
        of the whole chain describes. */
    lemma RemoveFinish(slot: nat, key: Bytes, dsize: nat, c: seq<nat>, k: nat, kept: seq<nat>,
                       found: bool, buf: Option<Bytes>, prev: Ptr, goal: Removal, cs0: seq<seq<nat>>, size0: nat)
      requires Removing(slot, key, dsize, c, k, kept, found, buf, prev, Null, goal)
      requires slot < |cs0| && c == cs0[slot] && SameBut(cs0, chains, slot) && size0 == Total(cs0)
      ensures nodes == goal.nodes && chains == cs0[slot := goal.kept] && buf == goal.buf && found == goal.found
      ensures size == size0 - |cs0[slot]| + |goal.kept|
    {
      RemoveEnd(nodes, c, k, kept, found, buf, key, dsize, goal);
      SameButIs(cs0, chains, slot);
      TotalUpdate(cs0, slot, kept);
    }

    /** taosHashRemoveWithData: -1 on an empty table, a NULL or empty key, or an empty
        slot; otherwise the scan of the key's slot (RemoveScan) decides the new heap, the
        nodes left linked, the buffer and the result. Afterwards no lookup finds the key,
        and every other key is found where it was. */
    method RemoveWithData(key: Option<Bytes>, data: Option<Bytes>, dsize: nat) returns (code: int, data': Option<Bytes>)
      requires Valid()
      modifies this
      ensures Valid() && capacity == old(capacity)
      ensures old(TableEmpty()) || BadKey(key) ==>
        code == -1 && data' == data && nodes == old(nodes) && chains == old(chains) && size == old(size)
      ensures !old(TableEmpty()) && !BadKey(key) ==>
        var slot := HashIndex(hashFp(key.value), capacity);
        var r := RemoveScan(old(nodes), old(chains)[slot], key.value, data, dsize);
        && nodes == r.nodes && chains == old(chains)[slot := r.kept] && data' == r.buf
        && code == (if r.found then 0 else -1)
        && size == old(size) - |old(chains)[slot]| + |r.kept|
      ensures !BadKey(key) && (!old(TableEmpty()) || old(size) == 0) ==> Find(key.value) == Null
      ensures !BadKey(key) ==> forall key2 :: key2 != key.value ==> Find(key2) == old(Find(key2))
    {
      if TableEmpty() || key.None? || key.value == [] {
        code, data' := -1, data;
        if !BadKey(key) && size == 0 {
          TotalZero(chains, HashIndex(hashFp(key.value), capacity));
        }
        return;
      }
      var k := key.value;
      var slot := HashIndex(hashFp(k), capacity);
      ghost var c := chains[slot];
      assert Within(c, |nodes|) && NoDup(c);
      if buckets[slot].num == 0 {
        assert ChainOk(nexts, buckets[slot], c) && c == [];
        assert chains[slot := []] == chains;
        return -1, data;
      }
      code, data' := RemoveInSlot(slot, k, data, dsize);
      RemoveScanClears(old(nodes), c, k, data, dsize);
      forall key2 | key2 != k ensures Find(key2) == old(Find(key2)) {
        RemoveKeepsOthers(old(nodes), old(chains), slot, k, data, dsize, HashIndex(hashFp(key2), capacity), key2);
      }
    }

    /** taosHashRemove: removal without a buffer. */
    method Remove(key: Option<Bytes>) returns (code: int)
      requires Valid()
      modifies this
      ensures Valid() && capacity == old(capacity)
      ensures old(TableEmpty()) || BadKey(key) ==> code == -1 && nodes == old(nodes) && chains == old(chains)
      ensures !old(TableEmpty()) && !BadKey(key) ==>
        var slot := HashIndex(hashFp(key.value), capacity);
        var r := RemoveScan(old(nodes), old(chains)[slot], key.value, None, 0);
        nodes == r.nodes && chains == old(chains)[slot := r.kept] && code == (if r.found then 0 else -1)
      ensures !BadKey(key) && (!old(TableEmpty()) || old(size) == 0) ==> Find(key.value) == Null
    {
      var buf;
      code, buf := RemoveWithData(key, None, 0);
    }
  

    /** A lookup finds nothing exactly when no linked node has the key without being
        removed, in any slot; what it finds is in the key's slot and has the key. */
    lemma FindExact(key: Bytes)
      requires Valid()
      ensures Find(key) == Null <==>
        forall b, i | 0 <= b < |chains| && 0 <= i < |chains[b]| :: !Matches(nodes[chains[b][i]], key)
      ensures Find(key) != Null ==> Find(key).addr in chains[HashIndex(hashFp(key), capacity)]
    {
      var s := HashIndex(hashFp(key), capacity);
      var c := chains[s];
      assert Within(c, |nodes|);
      var k := FirstMatch(nodes, c, key);
      if k == |c| {
        forall b, i | 0 <= b < |chains| && 0 <= i < |chains[b]| ensures !Matches(nodes[chains[b][i]], key) {
          if KeyEquals(nodes[chains[b][i]], key) {
            assert HashIndex(nodes[chains[b][i]].hashVal, capacity) == b;
          }
        }
      } else {
        assert c[k] in c;
      }
    }

    /** The counters agree with the chains: each entry's num is the length of its chain,
        and the size counter is the sum of the nums. */
    lemma SizeIsSumOfNums()
      requires Valid()
      ensures forall b | 0 <= b < |buckets| :: buckets[b].num == |chains[b]|
      ensures size == SumNum(buckets)
    {
      SumNumIsTotal(nexts, buckets, chains);
      forall b | 0 <= b < |buckets| ensures buckets[b].num == |chains[b]| {
        assert ChainOk(nexts, buckets[b], chains[b]);
      }
    }

    // -------------------------------------------------------------------------
    // Lookup

    /** The outcome of taosHashGetImpl on the current table: NULL on an empty table or a
        NULL or empty key, otherwise the copy of the node a lookup finds. */
    ghost function GetResult(key: Option<Bytes>, d: Option<Bytes>, sz: Option<int>, allocOk: bool, errno: Errno): GetOutcome
      requires Valid()
      reads this
    {
      if TableEmpty() || BadKey(key) then GetOutcome(Null, d, sz, errno)
      else
        var f := Find(key.value);
        GetCopy(f, if f == Null then [] else nodes[f.addr].data, d, sz, allocOk, errno)
    }

    /** The search of taosHashGetImpl: none on an empty table, a NULL or empty key, or a
        slot whose num is 0; otherwise doSearchInEntryList on the key's slot. */
    method SearchKey(key: Option<Bytes>) returns (f: Ptr)
      requires Valid()
      ensures f == if TableEmpty() || BadKey(key) then Null else Find(key.value)
    {
      if TableEmpty() || key.None? || key.value == [] {
        return Null;
      }
      var k := key.value;
      var hashVal := hashFp(k);
      var slot := HashIndex(hashVal, capacity);
      if buckets[slot].num == 0 {
        assert ChainOk(nexts, buckets[slot], chains[slot]);
        return Null;
      }
      f := SearchInEntryList(slot, k);
    }

    /** taosHashGetImpl up to the reference it may add: the search, then the allocation
        and the copy of GetCopy. */
    method Lookup(key: Option<Bytes>, d: Option<Bytes>, sz: Option<int>, allocOk: bool, errno: Errno)
        returns (r: Ptr, d': Option<Bytes>, sz': Option<int>, errno': Errno)
      requires Valid()
      ensures GetOutcome(r, d', sz', errno') == GetResult(key, d, sz, allocOk, errno)
    {
      var f := SearchKey(key);
      if f == Null {
        return Null, d, sz, errno;
      }
      r, d', sz', errno' := CopyValue(f, nodes[f.addr].data, d, sz, allocOk, errno);
    }

    /** taosHashGetImpl: the lookup above; with addRef (taosHashAcquire) the node found
        gains a reference, a 16-bit count that wraps. No lookup changes. */
    method GetImpl(key: Option<Bytes>, d: Option<Bytes>, sz: Option<int>, addRef: bool, allocOk: bool, errno: Errno)
        returns (r: Ptr, d': Option<Bytes>, sz': Option<int>, errno': Errno)
      requires Valid()
      modifies this
      ensures Valid() && chains == old(chains) && buckets == old(buckets) && nexts == old(nexts)
      ensures size == old(size) && capacity == old(capacity)
      ensures GetOutcome(r, d', sz', errno') == old(GetResult(key, d, sz, allocOk, errno))
      ensures r.At? ==> r.addr < |old(nodes)|
      ensures nodes == if addRef && r.At? then old(nodes)[r.addr := old(nodes)[r.addr].(refCount := Inc16(old(nodes)[r.addr].refCount))]
                       else old(nodes)
      ensures forall k :: Find(k) == old(Find(k))
    {
      r, d', sz', errno' := Lookup(key, d, sz, allocOk, errno);
      if addRef && r != Null {
        SetRefCount(r.addr, Inc16(nodes[r.addr].refCount));
      }
    }

    /** taosHashGet: the data of the node a lookup of the key finds, without a copy. */
    method Get(key: Option<Bytes>) returns (r: Ptr)
      requires Valid()
      ensures r == if TableEmpty() || BadKey(key) then Null else Find(key.value)
    {
      var d, sz, errno;
      r, d, sz, errno := Lookup(key, None, None, true, NoError);
    }

    /** taosHashGetDup: the value found is copied into destBuf (when it is not NULL); the
        result is terrno, cleared first, which nothing then sets. */
    method GetDup(key: Option<Bytes>, destBuf: Option<Bytes>) returns (code: Errno, buf': Option<Bytes>)
      requires Valid()
      ensures code == NoError
      ensures var f := if TableEmpty() || BadKey(key) then Null else Find(key.value);
        && (f == Null || destBuf.None? ==> buf' == destBuf)
        && (f != Null && destBuf.Some? ==> buf' == Some(CopyInto(destBuf.value, nodes[f.addr].data, |nodes[f.addr].data|)))
    {
      var r, sz;
      r, buf', sz, code := Lookup(key, destBuf, None, true, NoError);
    }

    /** taosHashGetDup_m: the lookup with a size pointer, so a NULL or short buffer is
        allocated first; the result is terrno, cleared first, which a failed allocation sets. */
    method GetDupM(key: Option<Bytes>, destBuf: Option<Bytes>, size: Option<int>, allocOk: bool)
        returns (code: Errno, buf': Option<Bytes>, size': Option<int>)
      requires Valid()
      ensures var o := GetResult(key, destBuf, size, allocOk, NoError);
        code == o.errno && buf' == o.buf && size' == o.size
      ensures code == OutOfMemory ==> !allocOk && buf' == destBuf
    {
      var r;
      r, buf', size', code := Lookup(key, destBuf, size, allocOk, NoError);
    }

    /** taosHashAcquire: the node a lookup finds, which gains a reference. */
    method Acquire(key: Option<Bytes>) returns (r: Ptr)
      requires Valid()
      modifies this
      ensures Valid() && chains == old(chains) && size == old(size) && capacity == old(capacity)
      ensures r == old(if TableEmpty() || BadKey(key) then Null else Find(key.value))
      ensures r.At? ==> r.addr < |old(nodes)|
      ensures nodes == if r.At? then old(nodes)[r.addr := old(nodes)[r.addr].(refCount := Inc16(old(nodes)[r.addr].refCount))]
                       else old(nodes)
    {
      var d, sz, errno;
      r, d, sz, errno := GetImpl(key, None, None, true, true, NoError);
    }

    // -------------------------------------------------------------------------
    // Clear

    /** One turn of the loop of taosHashClear: the slot's entry is emptied (one whose num
        is 0 already is). */
    method ClearSlot(i: nat)
      requires Linked() && i < |buckets|
      modifies this
      ensures Linked()
      ensures chains == old(chains)[i := []] && buckets == old(buckets)[i := Entry(0, Null)]
      ensures nodes == old(nodes) && nexts == old(nexts) && size == old(size) && capacity == old(capacity)
    {
      if buckets[i].num == 0 {
        assert ChainOk(nexts, buckets[i], chains[i]);
        assert chains[i := []] == chains && buckets[i := Entry(0, Null)] == buckets;
        return;
      }
      LinkedClear(|nodes|, nexts, buckets, chains, i);
      buckets := buckets[i := Entry(0, Null)];
      chains := chains[i := []];
    }

    /** taosHashClear: every slot is emptied and the size counter is 0, so no lookup finds
        anything; the capacity stays. */
    method Clear()
      requires Valid()
      modifies this
      ensures Valid() && capacity == old(capacity) && size == 0 && nodes == old(nodes)
      ensures buckets == seq(capacity, _ => Entry(0, Null)) && chains == seq(capacity, _ => [])
      ensures forall key :: Find(key) == Null
    {
      var i := 0;
      while i < capacity
        invariant Linked() && i <= capacity && |buckets| == capacity && |chains| == capacity
        invariant nodes == old(nodes) && capacity == old(capacity) && size == old(size)
        invariant forall j | 0 <= j < i :: chains[j] == [] && buckets[j] == Entry(0, Null)
      {
        ClearSlot(i);
        i := i + 1;
      }
      size := 0;
      TotalAllEmpty(chains);
      assert chains == seq(capacity, _ => []);
      assert buckets == seq(capacity, _ => Entry(0, Null));
    }

    // -------------------------------------------------------------------------
    // Release and iteration

    /** A node's reference count is rewritten; nothing else changes, and no lookup. */
    method SetRefCount(x: nat, rc: u16)
      requires Valid() && x < |nodes|
      modifies this
      ensures Valid() && nodes == old(nodes)[x := old(nodes)[x].(refCount := rc)]
      ensures chains == old(chains) && buckets == old(buckets) && nexts == old(nexts)
      ensures size == old(size) && capacity == old(capacity)
      ensures forall k :: Find(k) == old(Find(k))
    {
      nodes := nodes[x := nodes[x].(refCount := rc)];
      PlacedFrame(old(nodes), nodes, chains, capacity);
      forall k ensures Find(k) == old(Find(k)) {
        var c := chains[HashIndex(hashFp(k), capacity)];
        assert Within(c, |nodes|);
        FirstMatchFrame(old(nodes), nodes, c, k);
      }
    }

    /** The first loop of taosHashReleaseNode: the walk along the slot's chain to node a,
        keeping the node before it; it ends at NULL when a is not in the chain. */
    method LocateNode(slot: nat, a: nat) returns (prev: Ptr, node: Ptr, ghost pos: nat)
      requires Linked() && slot < |buckets|
      ensures pos <= |chains[slot]| && node == PtrTo(chains[slot], pos)
      ensures prev == if pos == 0 then Null else At(chains[slot][pos - 1])
      ensures a in chains[slot] ==> pos == IndexOf(chains[slot], a) && node == At(a)
      ensures a !in chains[slot] ==> node == Null
    {
      ghost var c := chains[slot];
      pos := 0;
      prev := Null;
      node := buckets[slot].next;
      while node != Null
        invariant 0 <= pos <= |c| && node == PtrTo(c, pos)
        invariant prev == if pos == 0 then Null else At(c[pos - 1])
        invariant forall j | 0 <= j < pos :: c[j] != a
        decreases |c| - pos
      {
        if node == At(a) {
          break;
        }
        prev := node;
        node := nexts[node.addr];
        pos := pos + 1;
      }
    }

    /** taosHashReleaseNode: as ReleaseOf describes; the slot searched is returned too.
        Releasing a removed node, or one that keeps a reference, changes no lookup. */
    method ReleaseNode(a: nat) returns (next: Ptr, slot: nat)
      requires Valid() && a < |nodes|
      modifies this
      ensures Valid() && capacity == old(capacity)
      ensures slot == HashIndex(old(nodes)[a].hashVal, capacity)
      ensures var rel := old(ReleaseOf(nodes, chains, size, capacity, a));
        nodes == rel.nodes && chains == rel.chains && size == rel.size && next == rel.next
      ensures old(nodes)[a].removed || Dec16(old(nodes)[a].refCount) != 0 ==>
        forall key :: Find(key) == old(Find(key))
    {
      slot := HashIndex(nodes[a].hashVal, capacity);
      var prev, node, pos := LocateNode(slot, a);
      if node == Null {
        return Null, slot;
      }
      ghost var c := chains[slot];
      assert NoDup(c) && Within(c, |nodes|);
      LinkUnchanged(nexts, buckets[slot], c, pos);
      next := SkipRemoved(nexts[a], slot, pos + 1);
      var rc := Dec16(nodes[a].refCount);
      SetRefCount(a, rc);
      if rc == 0 {
        DropNode(slot, prev, a, pos);
        SameButIs(old(chains), chains, slot);
      }
      if old(nodes)[a].removed || rc != 0 {
        forall key ensures Find(key) == old(Find(key)) {
          ReleaseKeepsLookup(old(nodes), old(chains), slot, pos, rc, rc == 0, HashIndex(hashFp(key), capacity), key);
        }
      }
    }

    /** The bucket loop of taosHashIterate: from slot start on, the first node of a chain
        that is not removed, with its slot. */
    method ScanFrom(start: nat) returns (node: Ptr, slot: nat)
      requires Valid() && start <= capacity
      ensures node == PosPtr(chains, ScanBuckets(nodes, chains, start))
    {
      slot := start;
      node := Null;
      while slot < capacity
        invariant start <= slot <= capacity && node == Null
        invariant ScanBuckets(nodes, chains, slot) == ScanBuckets(nodes, chains, start)
      {
        assert ChainOk(nexts, buckets[slot], chains[slot]);
        node := SkipRemoved(buckets[slot].next, slot, 0);
        if node != Null {
          return;
        }
        slot := slot + 1;
      }
    }

    /** The reference taosHashIterate takes on the node it returns, rolled back when the
        16-bit count wraps to 0. */
    method PinNode(x: nat) returns (r: Ptr)
      requires Valid() && x < |nodes|
      modifies this
      ensures Valid() && chains == old(chains) && size == old(size) && capacity == old(capacity)
      ensures Pinned(old(nodes), At(x), nodes, r)
    {
      var prevRef := nodes[x].refCount;
      var afterRef := Inc16(prevRef);
      SetRefCount(x, afterRef);
      if prevRef > afterRef {
        SetRefCount(x, Dec16(nodes[x].refCount));
        r := Null;
      } else {
        r := At(x);
      }
    }

    /** The cursor part of taosHashIterate: the cursor, when there is one, is released,
        and the node to return is found. */
    method Advance(p: Ptr) returns (node: Ptr)
      requires Valid() && (p.At? ==> p.addr < |nodes|)
      modifies this
      ensures Valid() && capacity == old(capacity)
      ensures node == IterTarget(old(nodes), old(chains), old(size), old(capacity), p)
      ensures p == Null ==> nodes == old(nodes) && chains == old(chains) && size == old(size)
      ensures p.At? ==> var rel := old(ReleaseOf(nodes, chains, size, capacity, p.addr));
        nodes == rel.nodes && chains == rel.chains && size == rel.size
    {
      var slot;
      if p == Null {
        node, slot := ScanFrom(0);
      } else {
        node := ReleaseAndNext(p.addr);
      }
    }

    /** The cursor a is released; the node to return is the first live node behind it in
        its chain, or else the first live node in the slots after its own. */
    method ReleaseAndNext(a: nat) returns (node: Ptr)
      requires Valid() && a < |nodes|
      modifies this
      ensures Valid() && capacity == old(capacity)
      ensures var rel := old(ReleaseOf(nodes, chains, size, capacity, a));
        && nodes == rel.nodes && chains == rel.chains && size == rel.size
        && node == if rel.next != Null then rel.next
                   else old(PosPtr(chains, ScanBuckets(nodes, chains, HashIndex(nodes[a].hashVal, capacity) + 1)))
    {
      ScanAfterRelease(nodes, chains, size, capacity, a);
      var slot;
      node, slot := ReleaseNode(a);
      if node == Null {
        node, slot := ScanFrom(slot + 1);
      }
    }

    /** taosHashIterate: the cursor p, when there is one, is released; then the next node
        (IterTarget) gains a reference and is returned, or NULL when there is none left or
        its count would overflow. */
    method Iterate(p: Ptr) returns (r: Ptr)
      requires Valid() && (p.At? ==> p.addr < |nodes|)
      modifies this
      ensures Valid() && capacity == old(capacity)
      ensures p == Null ==>
        && chains == old(chains) && size == old(size)
        && Pinned(old(nodes), IterTarget(old(nodes), old(chains), old(size), old(capacity), p), nodes, r)
      ensures p.At? ==> var rel := old(ReleaseOf(nodes, chains, size, capacity, p.addr));
        && chains == rel.chains && size == rel.size
        && Pinned(rel.nodes, IterTarget(old(nodes), old(chains), old(size), old(capacity), p), nodes, r)
    {
      var node := Advance(p);
      if node != Null {
        r := PinNode(node.addr);
      } else {
        r := Null;
      }
    }

    /** taosHashCancelIterate: the cursor, when there is one, is released. */
    method CancelIterate(p: Ptr)
      requires Valid() && (p.At? ==> p.addr < |nodes|)
      modifies this
      ensures Valid() && capacity == old(capacity)
      ensures p == Null ==> nodes == old(nodes) && chains == old(chains) && size == old(size)
      ensures p.At? ==> var rel := old(ReleaseOf(nodes, chains, size, capacity, p.addr));
        nodes == rel.nodes && chains == rel.chains && size == rel.size
      ensures p.At? && (old(nodes)[p.addr].removed || Dec16(old(nodes)[p.addr].refCount) != 0) ==>
        forall key :: Find(key) == old(Find(key))
    {
      if p == Null {
        return;
      }
      var next, slot := ReleaseNode(p.addr);
    }

    /** taosHashRelease: the reference taken by taosHashAcquire goes, as in
        taosHashCancelIterate. */
    method Release(p: Ptr)
      requires Valid() && (p.At? ==> p.addr < |nodes|)
      modifies this
      ensures Valid() && capacity == old(capacity)
      ensures p == Null ==> nodes == old(nodes) && chains == old(chains) && size == old(size)
      ensures p.At? ==> var rel := old(ReleaseOf(nodes, chains, size, capacity, p.addr));
        nodes == rel.nodes && chains == rel.chains && size == rel.size
    {
      CancelIterate(p);
    }
  }
}
