/** Bucket chains as sequences of node addresses: how a chain is laid out in the
    node heap, how relinking one node changes it, and the searches along it. */
module Chains {
  import opened HashTypes

  /** The pointer to position i of chain c: the node there, or NULL past its end. */
  function PtrTo(c: seq<nat>, i: nat): Ptr
  {
    if i < |c| then At(c[i]) else Null
  }

  /** The last node of s, or NULL when s is empty. */
  function Last(s: seq<nat>): Ptr
  {
    if s == [] then Null else At(s[|s| - 1])
  }

  /** The chain kept + c[k..]: the nodes of c from k on behind the ones kept, as the
      removal scan leaves it. Node k sits right behind the kept ones, its successor there
      is its successor in c, and taking it out leaves kept + c[k + 1..]. */
  lemma SplitAt(kept: seq<nat>, c: seq<nat>, k: nat)
    requires k < |c|
    ensures var d := kept + c[k..];
      && |kept| < |d| && d[|kept|] == c[k]
      && PtrTo(d, |kept| + 1) == PtrTo(c, k + 1)
      && Last(kept) == (if |kept| == 0 then Null else At(d[|kept| - 1]))
      && Delete(d, |kept|) == kept + c[k + 1..]
      && d == (kept + [c[k]]) + c[k + 1..]
  {
    var d := kept + c[k..];
    assert c[k..] == [c[k]] + c[k + 1..];
    assert d[..|kept|] == kept && d[|kept| + 1..] == c[k + 1..];
  }

  /** Every address of c is below n. */
  ghost predicate Within(c: seq<nat>, n: nat)
  {
    forall i | 0 <= i < |c| :: c[i] < n
  }

  ghost predicate AllWithin(cs: seq<seq<nat>>, n: nat)
  {
    forall b | 0 <= b < |cs| :: Within(cs[b], n)
  }

  /** Entry e heads chain c: its num is the chain's length, its next is the first node,
      and each node's next link is its successor in c (NULL after the last). */
  ghost predicate ChainOk(nexts: seq<Ptr>, e: Entry, c: seq<nat>)
  {
    && e.num == |c|
    && e.next == PtrTo(c, 0)
    && Within(c, |nexts|)
    && (forall i {:trigger nexts[c[i]]} | 0 <= i < |c| :: nexts[c[i]] == PtrTo(c, i + 1))
  }

  /** Every entry heads its chain. */
  ghost predicate AllChainsOk(nexts: seq<Ptr>, buckets: seq<Entry>, cs: seq<seq<nat>>)
  {
    |buckets| == |cs| && forall b | 0 <= b < |cs| :: ChainOk(nexts, buckets[b], cs[b])
  }

  ghost predicate NoDup(c: seq<nat>)
  {
    forall i, j | 0 <= i < j < |c| :: c[i] != c[j]
  }

  /** No node is linked twice: no repeats within a chain, no node in two chains. */
  ghost predicate Disjoint(cs: seq<seq<nat>>)
  {
    && (forall b | 0 <= b < |cs| :: NoDup(cs[b]))
    && (forall b1, b2, x | 0 <= b1 < |cs| && 0 <= b2 < |cs| && b1 != b2 && x in cs[b1] :: x !in cs[b2])
  }

  /** cs' differs from cs at most in chain b. */
  ghost predicate SameBut(cs: seq<seq<nat>>, cs': seq<seq<nat>>, b: nat)
  {
    |cs'| == |cs| && forall i | 0 <= i < |cs| && i != b :: cs'[i] == cs[i]
  }

  lemma SameButIs(cs: seq<seq<nat>>, cs': seq<seq<nat>>, b: nat)
    requires SameBut(cs, cs', b) && b < |cs|
    ensures cs' == cs[b := cs'[b]]
  {
  }

  /** Node x is in no chain. */
  ghost predicate Unlinked(cs: seq<seq<nat>>, x: nat)
  {
    forall b | 0 <= b < |cs| :: x !in cs[b]
  }

  /** An address past every chain's nodes is linked nowhere. */
  lemma FreshUnlinked(cs: seq<seq<nat>>, x: nat)
    requires AllWithin(cs, x)
    ensures Unlinked(cs, x)
  {
    forall b | 0 <= b < |cs| ensures x !in cs[b] {
      assert Within(cs[b], x);
    }
  }

  /** Every node of chain b hashes to slot b. */
  ghost predicate Placed(nodes: seq<Node>, cs: seq<seq<nat>>, cap: nat)
  {
    && cap > 0
    && (forall b, i | 0 <= b < |cs| && 0 <= i < |cs[b]| ::
          cs[b][i] < |nodes| && HashIndex(nodes[cs[b][i]].hashVal, cap) == b)
  }

  /** Chain c with x in the place of its node at position p; that node is dropped, or
      kept right behind x (the two outcomes of doUpdateHashNode). */
  function Splice(c: seq<nat>, p: nat, x: nat, drop: bool): (r: seq<nat>)
    requires p < |c|
    ensures |r| == if drop then |c| else |c| + 1
    ensures r[..p] == c[..p] && r[p] == x
  {
    c[..p] + [x] + (if drop then c[p + 1..] else c[p..])
  }

  /** Chain c without its node at position p. */
  function Delete(c: seq<nat>, p: nat): (r: seq<nat>)
    requires p < |c|
    ensures |r| == |c| - 1
  {
    c[..p] + c[p + 1..]
  }

  /** The number of linked nodes: the sum of the chain lengths. */
  function Total(cs: seq<seq<nat>>): nat
  {
    if cs == [] then 0 else Total(cs[..|cs| - 1]) + |cs[|cs| - 1]|
  }

  /** The sum of the entries' num counters. */
  function SumNum(buckets: seq<Entry>): int
  {
    if buckets == [] then 0 else SumNum(buckets[..|buckets| - 1]) + buckets[|buckets| - 1].num
  }

  // ---------------------------------------------------------------------------
  // Searches along a chain

  /** Index of the first node of c that has the key and is not removed; |c| when there is
      none (doSearchInEntryList and the search loop of taosHashPut). */
  function FirstMatch(nodes: seq<Node>, c: seq<nat>, key: Bytes): (k: nat)
    requires Within(c, |nodes|)
    ensures k <= |c|
    ensures k < |c| ==> Matches(nodes[c[k]], key)
    ensures forall j | 0 <= j < k :: !Matches(nodes[c[j]], key)
    decreases |c|
  {
    if c == [] then 0
    else if Matches(nodes[c[0]], key) then 0
    else 1 + FirstMatch(nodes, c[1..], key)
  }

  /** Index of the first node at or after from that is not removed; |c| when there is none. */
  function FirstLive(nodes: seq<Node>, c: seq<nat>, from: nat): (k: nat)
    requires Within(c, |nodes|) && from <= |c|
    ensures from <= k <= |c|
    ensures k < |c| ==> !nodes[c[k]].removed
    ensures forall j | from <= j < k :: nodes[c[j]].removed
    decreases |c| - from
  {
    if from == |c| then from
    else if !nodes[c[from]].removed then from
    else FirstLive(nodes, c, from + 1)
  }

  /** The position of node a in c, the first if there were several. */
  function IndexOf(c: seq<nat>, a: nat): (i: nat)
    requires a in c
    ensures i < |c| && c[i] == a
    ensures forall j | 0 <= j < i :: c[j] != a
    decreases |c|
  {
    if c[0] == a then 0 else 1 + IndexOf(c[1..], a)
  }

  /** The search depends only on whether the chain's nodes match. */
  lemma {:induction false} FirstMatchFrame(nodes: seq<Node>, nodes': seq<Node>, c: seq<nat>, key: Bytes)
    requires Within(c, |nodes|) && Within(c, |nodes'|)
    requires forall i | 0 <= i < |c| :: Matches(nodes'[c[i]], key) == Matches(nodes[c[i]], key)
    ensures FirstMatch(nodes', c, key) == FirstMatch(nodes, c, key)
    decreases |c|
  {
    if c != [] {
      FirstMatchFrame(nodes, nodes', c[1..], key);
    }
  }

  datatype Pos = Pos(bucket: nat, index: nat)

  /** The first node that is not removed in buckets b, b+1, ... (the bucket scan of
      taosHashIterate). */
  function ScanBuckets(nodes: seq<Node>, cs: seq<seq<nat>>, b: nat): (r: Option<Pos>)
    requires AllWithin(cs, |nodes|)
    ensures r.Some? ==> b <= r.value.bucket < |cs| && r.value.index < |cs[r.value.bucket]|
    ensures r.Some? ==> !nodes[cs[r.value.bucket][r.value.index]].removed
    decreases |cs| - b
  {
    if b >= |cs| then None
    else
      var k := FirstLive(nodes, cs[b], 0);
      if k < |cs[b]| then Some(Pos(b, k)) else ScanBuckets(nodes, cs, b + 1)
  }

  /** The bucket scan skips only removed nodes: every node before the one it returns, in
      its chain and in the chains of the slots it passed, is removed. */
  lemma {:induction false} ScanBucketsFirst(nodes: seq<Node>, cs: seq<seq<nat>>, b: nat)
    requires AllWithin(cs, |nodes|)
    ensures var r := ScanBuckets(nodes, cs, b);
      && (r.Some? ==> forall j | 0 <= j < r.value.index :: nodes[cs[r.value.bucket][j]].removed)
      && (forall b2, j | b <= b2 < (if r.Some? then r.value.bucket else |cs|) && 0 <= j < |cs[b2]| ::
            nodes[cs[b2][j]].removed)
    decreases |cs| - b
  {
    if b < |cs| && FirstLive(nodes, cs[b], 0) == |cs[b]| {
      ScanBucketsFirst(nodes, cs, b + 1);
    }
  }

  /** The bucket scan depends only on the chains from b on and on the removed flags. */
  lemma {:induction false} ScanBucketsFrame(nodes: seq<Node>, nodes': seq<Node>, cs: seq<seq<nat>>, cs': seq<seq<nat>>, b: nat)
    requires AllWithin(cs, |nodes|) && AllWithin(cs', |nodes'|) && |cs'| == |cs|
    requires forall b2 | b <= b2 < |cs| :: cs'[b2] == cs[b2]
    requires |nodes'| == |nodes| && forall a | 0 <= a < |nodes| :: nodes'[a].removed == nodes[a].removed
    ensures ScanBuckets(nodes', cs', b) == ScanBuckets(nodes, cs, b)
    decreases |cs| - b
  {
    if b < |cs| {
      FirstLiveFrame(nodes, nodes', cs[b], 0);
      ScanBucketsFrame(nodes, nodes', cs, cs', b + 1);
    }
  }

  lemma {:induction false} FirstLiveFrame(nodes: seq<Node>, nodes': seq<Node>, c: seq<nat>, from: nat)
    requires Within(c, |nodes|) && from <= |c|
    requires |nodes'| == |nodes| && forall a | 0 <= a < |nodes| :: nodes'[a].removed == nodes[a].removed
    ensures FirstLive(nodes', c, from) == FirstLive(nodes, c, from)
    decreases |c| - from
  {
    if from < |c| {
      FirstLiveFrame(nodes, nodes', c, from + 1);
    }
  }

  /** The node a bucket scan stops at, or NULL when it finds none. */
  function PosPtr(cs: seq<seq<nat>>, r: Option<Pos>): Ptr
    requires r.Some? ==> r.value.bucket < |cs| && r.value.index < |cs[r.value.bucket]|
  {
    if r.None? then Null else At(cs[r.value.bucket][r.value.index])
  }

  /** Taking a node out of a chain keeps its addresses within the heap. */
  lemma DeleteWithin(c: seq<nat>, p: nat, n: nat)
    requires Within(c, n) && p < |c|
    ensures Within(Delete(c, p), n)
  {
    var d := Delete(c, p);
    forall j | 0 <= j < |d| ensures d[j] < n {
      assert d[j] == if j < p then c[j] else c[j + 1];
    }
  }

  /** The first match is the one position k where the key is found with no match before. */
  lemma FirstMatchIs(nodes: seq<Node>, c: seq<nat>, key: Bytes, k: nat)
    requires Within(c, |nodes|) && k <= |c|
    requires k < |c| ==> Matches(nodes[c[k]], key)
    requires forall j | 0 <= j < k :: !Matches(nodes[c[j]], key)
    ensures FirstMatch(nodes, c, key) == k
  {
  }

  /** Position j of a chain with position p taken out. */
  lemma DeleteAt(c: seq<nat>, p: nat, j: nat)
    requires p < |c| && j < |c| - 1
    ensures Delete(c, p)[j] == if j < p then c[j] else c[j + 1]
  {
  }

  /** Taking a node that does not match out of a chain does not move the first match:
      the search stops at the same node, or finds nothing in both. */
  lemma DeleteUnmatched(nodes: seq<Node>, c: seq<nat>, p: nat, key: Bytes)
    requires Within(c, |nodes|) && p < |c| && !Matches(nodes[c[p]], key)
    ensures Within(Delete(c, p), |nodes|)
    ensures PtrTo(Delete(c, p), FirstMatch(nodes, Delete(c, p), key)) == PtrTo(c, FirstMatch(nodes, c, key))
  {
    DeleteWithin(c, p, |nodes|);
    var d := Delete(c, p);
    var m := FirstMatch(nodes, c, key);
    if m < p {
      forall j | 0 <= j < m ensures !Matches(nodes[d[j]], key) {
        DeleteAt(c, p, j);
      }
      DeleteAt(c, p, m);
      FirstMatchIs(nodes, d, key, m);
    } else {
      assert m > p;
      forall j | 0 <= j < m - 1 ensures !Matches(nodes[d[j]], key) {
        DeleteAt(c, p, j);
      }
      if m < |c| {
        DeleteAt(c, p, m - 1);
      }
      FirstMatchIs(nodes, d, key, m - 1);
    }
  }

  // ---------------------------------------------------------------------------
  // Relinking one node

  lemma ChainFrame(nexts: seq<Ptr>, a: nat, v: Ptr, e: Entry, c: seq<nat>)
    requires ChainOk(nexts, e, c) && a < |nexts| && a !in c
    ensures ChainOk(nexts[a := v], e, c)
  {
    forall i | 0 <= i < |c| ensures c[i] != a {
      assert c[i] in c;
    }
  }

  lemma ChainFrameAppend(nexts: seq<Ptr>, v: Ptr, e: Entry, c: seq<nat>)
    requires ChainOk(nexts, e, c)
    ensures ChainOk(nexts + [v], e, c)
  {
  }

  /** Unlinking the node at position p: through the entry when p is 0, through the
      predecessor's link otherwise; num drops by one. */
  lemma UnlinkOk(nexts: seq<Ptr>, e: Entry, c: seq<nat>, p: nat)
    requires ChainOk(nexts, e, c) && NoDup(c) && p < |c|
    ensures p == 0 ==> ChainOk(nexts, Entry(e.num - 1, nexts[c[0]]), Delete(c, 0))
    ensures p > 0 ==> ChainOk(nexts[c[p - 1] := nexts[c[p]]], Entry(e.num - 1, e.next), Delete(c, p))
  {
    var d := Delete(c, p);
    if p == 0 {
      assert d == c[1..];
    } else {
      var n' := nexts[c[p - 1] := nexts[c[p]]];
      forall i | 0 <= i < |d| ensures d[i] < |n'| && n'[d[i]] == PtrTo(d, i + 1) {
        if i < p - 1 {
          assert d[i] == c[i] && d[i + 1] == c[i + 1];
        } else if i == p - 1 {
          assert d[i] == c[p - 1];
          if p + 1 < |c| { assert d[p] == c[p + 1]; }
        } else {
          assert d[i] == c[i + 1];
          if i + 1 < |d| { assert d[i + 1] == c[i + 2]; }
        }
      }
      assert d[0] == c[0];
    }
  }

  /** pushfrontNodeInEntryList: x takes the head, its link is the old head, num grows by one. */
  lemma PushOk(nexts: seq<Ptr>, e: Entry, c: seq<nat>, x: nat)
    requires ChainOk(nexts, e, c) && x < |nexts| && x !in c
    ensures ChainOk(nexts[x := e.next], Entry(e.num + 1, At(x)), [x] + c)
  {
    var n' := nexts[x := e.next];
    var d := [x] + c;
    forall i | 0 <= i < |d| ensures d[i] < |n'| && n'[d[i]] == PtrTo(d, i + 1) {
      if i > 0 {
        assert d[i] == c[i - 1];
        assert c[i - 1] in c;
      }
    }
  }

  /** The splice of doUpdateHashNode: the new node x takes the old node's place at
      position p (through the predecessor's link, or the entry when p is 0); its link is
      the old node's successor when the old node is dropped, the old node otherwise. */
  lemma SpliceOk(nexts: seq<Ptr>, e: Entry, c: seq<nat>, p: nat, x: nat, drop: bool)
    requires ChainOk(nexts, e, c) && NoDup(c) && p < |c| && x < |nexts| && x !in c
    ensures
      var n1 := if p == 0 then nexts else nexts[c[p - 1] := At(x)];
      var n2 := n1[x := if drop then n1[c[p]] else At(c[p])];
      var e2 := Entry(if drop then e.num else e.num + 1, if p == 0 then At(x) else e.next);
      ChainOk(n2, e2, Splice(c, p, x, drop))
  {
    assert c[p] in c;
    if drop {
      SpliceReplaceOk(nexts, e, c, p, x);
    } else {
      SpliceInsertOk(nexts, e, c, p, x);
    }
  }

  lemma SpliceReplaceOk(nexts: seq<Ptr>, e: Entry, c: seq<nat>, p: nat, x: nat)
    requires ChainOk(nexts, e, c) && NoDup(c) && p < |c| && x < |nexts| && x !in c
    ensures
      var n1 := if p == 0 then nexts else nexts[c[p - 1] := At(x)];
      ChainOk(n1[x := nexts[c[p]]], Entry(e.num, if p == 0 then At(x) else e.next), c[..p] + [x] + c[p + 1..])
  {
    var n1 := if p == 0 then nexts else nexts[c[p - 1] := At(x)];
    var n2 := n1[x := nexts[c[p]]];
    var d := c[..p] + [x] + c[p + 1..];
    assert |d| == |c|;
    forall i | 0 <= i < |d| ensures d[i] < |n2| && n2[d[i]] == PtrTo(d, i + 1) {
      SpliceReplaceAt(nexts, e, c, p, x, i);
    }
    if p > 0 { assert d[0] == c[0]; }
  }

  /** The link at position i after the replacing splice. */
  lemma SpliceReplaceAt(nexts: seq<Ptr>, e: Entry, c: seq<nat>, p: nat, x: nat, i: nat)
    requires ChainOk(nexts, e, c) && NoDup(c) && p < |c| && x < |nexts| && x !in c && i < |c|
    ensures
      var n1 := if p == 0 then nexts else nexts[c[p - 1] := At(x)];
      var n2 := n1[x := nexts[c[p]]];
      var d := c[..p] + [x] + c[p + 1..];
      i < |d| && d[i] < |n2| && n2[d[i]] == PtrTo(d, i + 1)
  {
    var n1 := if p == 0 then nexts else nexts[c[p - 1] := At(x)];
    var n2 := n1[x := nexts[c[p]]];
    var d := c[..p] + [x] + c[p + 1..];
    assert |d| == |c|;
    if i == p {
      assert d[p] == x;
      LinkUnchanged(nexts, e, c, p);
      if p + 1 < |c| { assert d[p + 1] == c[p + 1]; }
    } else {
      assert d[i] == c[i];
      LinkUnchanged(nexts, e, c, i);
      assert c[i] != x && (p > 0 && i != p - 1 ==> c[i] != c[p - 1]);
      if i == p - 1 {
        assert d[i + 1] == x;
      } else if i + 1 < |c| {
        assert d[i + 1] == c[i + 1];
      }
    }
  }

  lemma SpliceInsertOk(nexts: seq<Ptr>, e: Entry, c: seq<nat>, p: nat, x: nat)
    requires ChainOk(nexts, e, c) && NoDup(c) && p < |c| && x < |nexts| && x !in c
    ensures
      var n1 := if p == 0 then nexts else nexts[c[p - 1] := At(x)];
      ChainOk(n1[x := At(c[p])], Entry(e.num + 1, if p == 0 then At(x) else e.next), c[..p] + [x] + c[p..])
  {
    var n1 := if p == 0 then nexts else nexts[c[p - 1] := At(x)];
    var n2 := n1[x := At(c[p])];
    var d := c[..p] + [x] + c[p..];
    assert |d| == |c| + 1;
    forall i | 0 <= i < |d| ensures d[i] < |n2| && n2[d[i]] == PtrTo(d, i + 1) {
      SpliceInsertAt(nexts, e, c, p, x, i);
    }
    if p > 0 { assert d[0] == c[0]; }
  }

  /** The link at position i after the inserting splice. */
  lemma SpliceInsertAt(nexts: seq<Ptr>, e: Entry, c: seq<nat>, p: nat, x: nat, i: nat)
    requires ChainOk(nexts, e, c) && NoDup(c) && p < |c| && x < |nexts| && x !in c && i <= |c|
    ensures
      var n1 := if p == 0 then nexts else nexts[c[p - 1] := At(x)];
      var n2 := n1[x := At(c[p])];
      var d := c[..p] + [x] + c[p..];
      i < |d| && d[i] < |n2| && n2[d[i]] == PtrTo(d, i + 1)
  {
    var n1 := if p == 0 then nexts else nexts[c[p - 1] := At(x)];
    var n2 := n1[x := At(c[p])];
    var d := c[..p] + [x] + c[p..];
    assert |d| == |c| + 1;
    if i == p {
      assert d[p] == x && d[p + 1] == c[p];
    } else {
      var k := if i < p then i else i - 1;
      assert d[i] == c[k];
      LinkUnchanged(nexts, e, c, k);
      assert c[k] != x && (p > 0 && k != p - 1 ==> c[k] != c[p - 1]);
      if i == p - 1 {
        assert d[i + 1] == x;
      } else if k + 1 < |c| {
        assert d[i + 1] == c[k + 1];
      }
    }
  }

  /** The link of the node at position k, and that node differs from every other node of c. */
  lemma LinkUnchanged(nexts: seq<Ptr>, e: Entry, c: seq<nat>, k: nat)
    requires ChainOk(nexts, e, c) && NoDup(c) && k < |c|
    ensures c[k] in c && c[k] < |nexts| && nexts[c[k]] == PtrTo(c, k + 1)
    ensures forall j | 0 <= j < |c| && j != k :: c[j] != c[k]
  {
  }

  /** Rewriting only links of nodes that no other chain holds, and giving chain b a new
      chain that its new entry and the new links describe, keeps every entry heading its
      chain. */
  lemma ChainsUpdate(nexts: seq<Ptr>, nexts': seq<Ptr>, buckets: seq<Entry>, cs: seq<seq<nat>>,
                     b: nat, e: Entry, c: seq<nat>)
    requires AllChainsOk(nexts, buckets, cs) && b < |cs|
    requires |nexts'| == |nexts| && ChainOk(nexts', e, c)
    requires forall a | 0 <= a < |nexts| && nexts'[a] != nexts[a] ::
               forall b2 | 0 <= b2 < |cs| && b2 != b :: a !in cs[b2]
    ensures AllChainsOk(nexts', buckets[b := e], cs[b := c])
  {
    forall b2 | 0 <= b2 < |cs| && b2 != b ensures ChainOk(nexts', buckets[b2], cs[b2]) {
      forall i | 0 <= i < |cs[b2]| ensures nexts'[cs[b2][i]] == nexts[cs[b2][i]] {
        assert cs[b2][i] in cs[b2];
      }
    }
  }

  /** Giving slot b a chain whose nodes all hash to b keeps every node in its slot. */
  lemma PlacedReplace(nodes: seq<Node>, cs: seq<seq<nat>>, cap: nat, b: nat, c: seq<nat>)
    requires Placed(nodes, cs, cap) && b < |cs|
    requires forall y | y in c :: y < |nodes| && HashIndex(nodes[y].hashVal, cap) == b
    ensures Placed(nodes, cs[b := c], cap)
  {
    var cs' := cs[b := c];
    forall b2, i | 0 <= b2 < |cs'| && 0 <= i < |cs'[b2]|
      ensures cs'[b2][i] < |nodes| && HashIndex(nodes[cs'[b2][i]].hashVal, cap) == b2
    {
      if b2 == b { assert c[i] in c; }
    }
  }

  // ---------------------------------------------------------------------------
  // Keeping nodes unique

  lemma NoDupDelete(c: seq<nat>, p: nat)
    requires NoDup(c) && p < |c|
    ensures NoDup(Delete(c, p))
    ensures forall y | y in Delete(c, p) :: y in c
    ensures c[p] !in Delete(c, p)
  {
    var d := Delete(c, p);
    forall y | y in d ensures y in c && y != c[p] {
      var i :| 0 <= i < |d| && d[i] == y;
      if i < p { assert d[i] == c[i]; } else { assert d[i] == c[i + 1]; }
    }
    forall i, j | 0 <= i < j < |d| ensures d[i] != d[j] {
      var i' := if i < p then i else i + 1;
      var j' := if j < p then j else j + 1;
      assert d[i] == c[i'] && d[j] == c[j'];
    }
  }

  lemma NoDupPush(c: seq<nat>, x: nat)
    requires NoDup(c) && x !in c
    ensures NoDup([x] + c)
  {
    var d := [x] + c;
    forall i, j | 0 <= i < j < |d| ensures d[i] != d[j] {
      assert d[j] == c[j - 1];
      assert c[j - 1] in c;
      if i > 0 { assert d[i] == c[i - 1]; }
    }
  }

  lemma NoDupSplice(c: seq<nat>, p: nat, x: nat, drop: bool)
    requires NoDup(c) && p < |c| && x !in c
    ensures NoDup(Splice(c, p, x, drop))
    ensures forall y | y in Splice(c, p, x, drop) :: y == x || y in c
  {
    var d := Splice(c, p, x, drop);
    // position in c of the element at position i != p of d
    forall i | 0 <= i < |d| && i != p
      ensures d[i] == c[if i < p then i else if drop then i else i - 1]
    {
    }
    forall y | y in d ensures y == x || y in c {
      var i :| 0 <= i < |d| && d[i] == y;
      if i != p {
        var k := if i < p then i else if drop then i else i - 1;
        assert d[i] == c[k];
      }
    }
    forall i, j | 0 <= i < j < |d| ensures d[i] != d[j] {
      var i' := if i < p then i else if drop then i else i - 1;
      var j' := if j < p then j else if drop then j else j - 1;
      if i == p {
        assert d[j] == c[j'];
        assert c[j'] in c;
      } else if j == p {
        assert d[i] == c[i'];
        assert c[i'] in c;
      } else {
        assert d[i] == c[i'] && d[j] == c[j'];
      }
    }
  }

  /** Replacing one chain by a duplicate-free chain none of whose nodes lies in another
      chain keeps every node linked at most once. */
  lemma DisjointReplace(cs: seq<seq<nat>>, b: nat, c': seq<nat>)
    requires Disjoint(cs) && b < |cs| && NoDup(c')
    requires forall x, b2 | x in c' && 0 <= b2 < |cs| && b2 != b :: x !in cs[b2]
    ensures Disjoint(cs[b := c'])
  {
  }

  // ---------------------------------------------------------------------------
  // Counting linked nodes

  lemma {:induction false} TotalUpdate(cs: seq<seq<nat>>, b: nat, c': seq<nat>)
    requires b < |cs|
    ensures Total(cs[b := c']) == Total(cs) - |cs[b]| + |c'|
    decreases |cs|
  {
    var n := |cs| - 1;
    var cs' := cs[b := c'];
    assert cs'[..n] == if b < n then cs[..n][b := c'] else cs[..n];
    if b < n {
      TotalUpdate(cs[..n], b, c');
    }
  }

  lemma {:induction false} TotalAllEmpty(cs: seq<seq<nat>>)
    requires forall b | 0 <= b < |cs| :: cs[b] == []
    ensures Total(cs) == 0
    decreases |cs|
  {
    if cs != [] {
      TotalAllEmpty(cs[..|cs| - 1]);
    }
  }

  /** With no node linked, every chain is empty. */
  lemma {:induction false} TotalZero(cs: seq<seq<nat>>, b: nat)
    requires Total(cs) == 0 && b < |cs|
    ensures cs[b] == []
    decreases |cs|
  {
    var n := |cs| - 1;
    if b < n {
      TotalZero(cs[..n], b);
    }
  }

  lemma {:induction false} TotalAppend(xs: seq<seq<nat>>, ys: seq<seq<nat>>)
    ensures Total(xs + ys) == Total(xs) + Total(ys)
    decreases |ys|
  {
    if ys == [] {
      assert xs + ys == xs;
    } else {
      var n := |ys| - 1;
      assert (xs + ys)[..|xs + ys| - 1] == xs + ys[..n];
      TotalAppend(xs, ys[..n]);
    }
  }

  /** The entries' num counters add up to the number of linked nodes. */
  lemma {:induction false} SumNumIsTotal(nexts: seq<Ptr>, buckets: seq<Entry>, cs: seq<seq<nat>>)
    requires AllChainsOk(nexts, buckets, cs)
    ensures SumNum(buckets) == Total(cs)
    decreases |cs|
  {
    if cs != [] {
      var n := |cs| - 1;
      assert ChainOk(nexts, buckets[n], cs[n]);
      SumNumIsTotal(nexts, buckets[..n], cs[..n]);
    }
  }

  // ---------------------------------------------------------------------------
  // The whole directory

  /** The links of a heap of n nodes describe the chains cs: every entry heads its chain,
      no node is linked twice, and every linked address is a node of the heap. */
  ghost predicate LinkedAll(n: nat, nexts: seq<Ptr>, buckets: seq<Entry>, cs: seq<seq<nat>>)
  {
    && |nexts| == n
    && AllChainsOk(nexts, buckets, cs)
    && Disjoint(cs)
    && AllWithin(cs, n)
  }

  /** Unlinking the node at position p of chain b. */
  lemma LinkedUnlink(n: nat, nexts: seq<Ptr>, buckets: seq<Entry>, cs: seq<seq<nat>>, b: nat, p: nat)
    requires LinkedAll(n, nexts, buckets, cs) && b < |cs| && p < |cs[b]|
    ensures var c := cs[b];
      var nexts' := if p == 0 then nexts else nexts[c[p - 1] := nexts[c[p]]];
      var e := Entry(buckets[b].num - 1, if p == 0 then nexts[c[p]] else buckets[b].next);
      && LinkedAll(n, nexts', buckets[b := e], cs[b := Delete(c, p)])
      && Unlinked(cs[b := Delete(c, p)], c[p])
  {
    var c := cs[b];
    var nexts' := if p == 0 then nexts else nexts[c[p - 1] := nexts[c[p]]];
    var e := Entry(buckets[b].num - 1, if p == 0 then nexts[c[p]] else buckets[b].next);
    assert ChainOk(nexts, buckets[b], c);
    UnlinkOk(nexts, buckets[b], c, p);
    NoDupDelete(c, p);
    assert c[p] in c;
    if p > 0 {
      assert c[p - 1] in c;
    }
    ChainsUpdate(nexts, nexts', buckets, cs, b, e, Delete(c, p));
    DisjointReplace(cs, b, Delete(c, p));
  }

  /** Pushing node x, linked nowhere, at the head of chain b. */
  lemma LinkedPush(n: nat, nexts: seq<Ptr>, buckets: seq<Entry>, cs: seq<seq<nat>>, b: nat, x: nat)
    requires LinkedAll(n, nexts, buckets, cs) && b < |cs| && x < n && Unlinked(cs, x)
    ensures LinkedAll(n, nexts[x := buckets[b].next], buckets[b := Entry(buckets[b].num + 1, At(x))],
                      cs[b := [x] + cs[b]])
  {
    var c := cs[b];
    assert ChainOk(nexts, buckets[b], c);
    PushOk(nexts, buckets[b], c, x);
    ChainsUpdate(nexts, nexts[x := buckets[b].next], buckets, cs, b, Entry(buckets[b].num + 1, At(x)), [x] + c);
    NoDupPush(c, x);
    DisjointReplace(cs, b, [x] + c);
  }

  /** The splice of doUpdateHashNode at position p of chain b. */
  lemma LinkedSplice(n: nat, nexts: seq<Ptr>, buckets: seq<Entry>, cs: seq<seq<nat>>, b: nat, p: nat, x: nat, drop: bool)
    requires LinkedAll(n, nexts, buckets, cs) && b < |cs| && p < |cs[b]| && x < n && Unlinked(cs, x)
    ensures var c := cs[b];
      var n1 := if p == 0 then nexts else nexts[c[p - 1] := At(x)];
      var n2 := n1[x := if drop then n1[c[p]] else At(c[p])];
      var e := Entry(if drop then buckets[b].num else buckets[b].num + 1, if p == 0 then At(x) else buckets[b].next);
      LinkedAll(n, n2, buckets[b := e], cs[b := Splice(c, p, x, drop)])
  {
    var c := cs[b];
    var n1 := if p == 0 then nexts else nexts[c[p - 1] := At(x)];
    var n2 := n1[x := if drop then n1[c[p]] else At(c[p])];
    var e := Entry(if drop then buckets[b].num else buckets[b].num + 1, if p == 0 then At(x) else buckets[b].next);
    var d := Splice(c, p, x, drop);
    assert ChainOk(nexts, buckets[b], c);
    SpliceOk(nexts, buckets[b], c, p, x, drop);
    NoDupSplice(c, p, x, drop);
    if p > 0 {
      assert c[p - 1] in c;
    }
    ChainsUpdate(nexts, n2, buckets, cs, b, e, d);
    DisjointReplace(cs, b, d);
  }

  /** A new node, linked nowhere, added to the heap. */
  lemma LinkedGrow(n: nat, nexts: seq<Ptr>, buckets: seq<Entry>, cs: seq<seq<nat>>)
    requires LinkedAll(n, nexts, buckets, cs)
    ensures LinkedAll(n + 1, nexts + [Null], buckets, cs) && Unlinked(cs, n)
  {
    forall b | 0 <= b < |cs| ensures ChainOk(nexts + [Null], buckets[b], cs[b]) && n !in cs[b] {
      assert ChainOk(nexts, buckets[b], cs[b]);
      ChainFrameAppend(nexts, Null, buckets[b], cs[b]);
    }
  }

  /** Appending empty slots to the directory. */
  lemma LinkedWiden(n: nat, nexts: seq<Ptr>, buckets: seq<Entry>, cs: seq<seq<nat>>, k: nat)
    requires LinkedAll(n, nexts, buckets, cs)
    ensures LinkedAll(n, nexts, buckets + seq(k, _ => Entry(0, Null)), cs + seq(k, _ => []))
  {
    var cs' := cs + seq(k, _ => []);
    var bs' := buckets + seq(k, _ => Entry(0, Null));
    forall b | 0 <= b < |cs'| ensures ChainOk(nexts, bs'[b], cs'[b]) {
      if b < |cs| {
        assert ChainOk(nexts, buckets[b], cs[b]);
      }
    }
  }

  /** Emptying chain b: its entry gets no nodes and no head. */
  lemma LinkedClear(n: nat, nexts: seq<Ptr>, buckets: seq<Entry>, cs: seq<seq<nat>>, b: nat)
    requires LinkedAll(n, nexts, buckets, cs) && b < |cs|
    ensures LinkedAll(n, nexts, buckets[b := Entry(0, Null)], cs[b := []])
  {
    ChainsUpdate(nexts, nexts, buckets, cs, b, Entry(0, Null), []);
    DisjointReplace(cs, b, []);
  }
}
