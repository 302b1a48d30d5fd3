/** Two places where the code of the hash table does not do what its design promises,
    each shown on a concrete table, next to a corrected definition and the property it
    keeps.

    A. doUpdateHashNode leaves a displaced node that is still referenced live right behind
       its replacement. A later resize pushes the moved nodes of a chain one by one at the
       head of their new chain, reversing them, and a lookup of the key then finds the
       old value. Marking the displaced node removed keeps a single live node per key, and
       lookups then survive any resize.

    B. The loop of taosHashRemoveWithData ends with the first match it unlinks: the node
       is freed with tfree, which also sets pNode to NULL. When two live nodes in one chain
       hold the key (the state A leaves behind), the remove returns 0 and the other node
       stays findable with its old value. Going on with the successor instead, as
       RemoveScan does, empties the chain of the key. */
module Findings {
  import opened HashTypes
  import opened Chains
  import opened Resize
  import opened RemoveSpec
  import opened THash

  /** The key the scenarios put twice, and another key. */
  const KeyA: Bytes := [1]
  const KeyB: Bytes := [2]

  /** The heap of a four-slot table after: put(KeyA, [10]) (node 0, hash 4, slot 0),
      put(KeyB, [30]) (node 1, hash 1, slot 1), acquire(KeyA) (node 0 has two references),
      and put(KeyA, [20]) with updates enabled (node 2): node 0 lost one reference and is
      still live behind node 2. */
  function UpdatedNodes(): seq<Node>
  {
    [Node(KeyA, [10], 4, 1, false), Node(KeyB, [30], 1, 1, false), NewNode(KeyA, [20], 4)]
  }

  // ---------------------------------------------------------------------------
  // A. The displaced node stays live

  /** The doubled directory sends both nodes of slot 0 to slot 4, node 0 first. */
  lemma ScenarioRehash()
    ensures Rehash(UpdatedNodes(), [[2, 0], [1], [], []], 4)[4] == [0, 2]
  {
    var nodes := UpdatedNodes();
    var c: seq<nat> := [2, 0];
    var c1: seq<nat> := [2];
    assert c[..1] == c1 && c1[..0] == [];
    assert HashIndex(nodes[0].hashVal, 8) == 4 && HashIndex(nodes[2].hashVal, 8) == 4;
    assert Keep(nodes, c1, 8, 4) == [2];
    assert Keep(nodes, c, 8, 4) == [2, 0];
    assert Rev([2, 0]) == [0] + Rev([2]);
  }

  lemma TotalOfFour(c0: seq<nat>, c1: seq<nat>, c2: seq<nat>, c3: seq<nat>)
    ensures Total([c0, c1, c2, c3]) == |c0| + |c1| + |c2| + |c3|
  {
    var s3 := [c0, c1, c2];
    var s2 := [c0, c1];
    var s1 := [c0];
    assert [c0, c1, c2, c3][..3] == s3 && s3[..2] == s2 && s2[..1] == s1 && s1[..0] == [];
    assert Total(s1) == |c0|;
    assert Total(s2) == Total(s1) + |c1|;
    assert Total(s3) == Total(s2) + |c2|;
  }

  /** The number of nodes linked before and after the update. */
  lemma ScenarioTotals()
    ensures Total([[0], [1], [], []]) == 2 && Total([[2, 0], [1], [], []]) == 3
  {
    TotalOfFour([0], [1], [], []);
    TotalOfFour([2, 0], [1], [], []);
  }

  /** As written: the update of the four-slot table splices node 2 in front of node 0 and
      keeps node 0 live; a lookup of KeyA finds the new value. The next put finds the
      table over its load factor and doubles it; both nodes move to slot 4 in reverse
      order, and a lookup of KeyA finds the old value. */
  lemma StaleLookupAfterResize()
    ensures var before := [Node(KeyA, [10], 4, 2, false), Node(KeyB, [30], 1, 1, false), NewNode(KeyA, [20], 4)];
      var cs := [[0], [1], [], []];
      var rc := Dec16(before[0].refCount);
      var nodes := before[0 := before[0].(refCount := rc)];
      var cs' := cs[0 := Splice(cs[0], 0, 2, rc == 0)];
      && !Grows(Total(cs), 4) && FirstMatch(before, cs[0], KeyA) == 0
      && nodes == UpdatedNodes() && cs' == [[2, 0], [1], [], []]
      && PtrTo(cs'[0], FirstMatch(nodes, cs'[0], KeyA)) == At(2) && nodes[2].data == [20]
      && Grows(Total(cs'), 4)
      && Rehash(nodes, cs', 4)[HashIndex(4, 8)] == [0, 2]
      && PtrTo([0, 2], FirstMatch(nodes, [0, 2], KeyA)) == At(0) && nodes[0].data == [10]
  {
    assert Splice([0], 0, 2, false) == [2, 0];
    ScenarioTotals();
    ScenarioRehash();
  }

  /** The update with the displaced node marked removed, as the removal scan marks a
      match: one reference fewer, removed, and unlinked once no reference is left. */
  datatype Updated = Updated(nodes: seq<Node>, chain: seq<nat>)

  function UpdateTombstone(nodes: seq<Node>, c: seq<nat>, p: nat, x: nat): (u: Updated)
    requires Within(c, |nodes|) && p < |c|
    ensures |u.nodes| == |nodes| && u.nodes[c[p]].removed && |u.chain| > p
    ensures forall a | 0 <= a < |nodes| && a != c[p] :: u.nodes[a] == nodes[a]
    ensures u.chain[..p] == c[..p] && u.chain[p] == x
    ensures u.chain[p + 1..] == if u.nodes[c[p]].refCount == 0 then c[p + 1..] else c[p..]
  {
    var n := Marked(nodes[c[p]]);
    var d := Splice(c, p, x, n.refCount == 0);
    assert d[p + 1..] == if n.refCount == 0 then c[p + 1..] else c[p..];
    Updated(nodes[c[p] := n], d)
  }

  /** Where the nodes of c are after the corrected update: before p in place, then x,
      then the rest of c, from p + 1 when the displaced node was unlinked and from p
      otherwise. */
  lemma TombstonePositions(nodes: seq<Node>, c: seq<nat>, p: nat, x: nat)
    requires Within(c, |nodes|) && p < |c|
    ensures var u := UpdateTombstone(nodes, c, p, x);
      var drop := u.nodes[c[p]].refCount == 0;
      forall j | 0 <= j < |u.chain| ::
        u.chain[j] == if j < p then c[j] else if j == p then x else if drop then c[j] else c[j - 1]
  {
    var u := UpdateTombstone(nodes, c, p, x);
    var d := u.chain;
    var drop := u.nodes[c[p]].refCount == 0;
    forall j | 0 <= j < |d|
      ensures d[j] == if j < p then c[j] else if j == p then x else if drop then c[j] else c[j - 1]
    {
      if j < p {
        assert d[j] == d[..p][j];
      } else if j > p {
        assert d[j] == d[p + 1..][j - p - 1];
      }
    }
  }

  /** The corrected update keeps one live node for the key, the new one, where the old one
      was. */
  lemma TombstoneOneLive(nodes: seq<Node>, c: seq<nat>, p: nat, x: nat, key: Bytes)
    requires Within(c, |nodes|) && x < |nodes| && x !in c && OneLive(nodes, c, key)
    requires p == FirstMatch(nodes, c, key) && p < |c| && Matches(nodes[x], key)
    ensures var u := UpdateTombstone(nodes, c, p, x);
      Within(u.chain, |nodes|) && OneLive(u.nodes, u.chain, key) && FirstMatch(u.nodes, u.chain, key) == p
  {
    var u := UpdateTombstone(nodes, c, p, x);
    var d := u.chain;
    var drop := u.nodes[c[p]].refCount == 0;
    TombstonePositions(nodes, c, p, x);
    // Only x matches in d: every other position holds a node of c other than the first
    // match, or the first match, now removed.
    forall j | 0 <= j < |d| && j != p ensures d[j] < |nodes| && !Matches(u.nodes[d[j]], key) {
      var i := if j < p then j else if drop then j else j - 1;
      assert d[j] == c[i] && i < |c|;
      if c[i] != c[p] {
        assert u.nodes[c[i]] == nodes[c[i]];
        assert i != p;
        assert !Matches(nodes[c[i]], key);
      }
    }
    FirstMatchIs(u.nodes, d, key, p);
  }

  /** Corrected: after the update marks the displaced node removed, a lookup of the key
      finds the new node, and still finds it once the directory has doubled. */
  lemma TombstoneThenResize(nodes: seq<Node>, cs: seq<seq<nat>>, c0: nat, key: Bytes, hv: u32, x: nat)
    requires c0 > 0 && |cs| == c0 && AllWithin(cs, |nodes|)
    requires forall a | 0 <= a < |nodes| && KeyEquals(nodes[a], key) :: nodes[a].hashVal == hv
    requires x < |nodes| && Unlinked(cs, x) && Matches(nodes[x], key)
    requires OneLive(nodes, cs[HashIndex(hv, c0)], key)
    requires FirstMatch(nodes, cs[HashIndex(hv, c0)], key) < |cs[HashIndex(hv, c0)]|
    ensures var b := HashIndex(hv, c0);
      var u := UpdateTombstone(nodes, cs[b], FirstMatch(nodes, cs[b], key), x);
      var cs' := cs[b := u.chain];
      && AllWithin(cs', |nodes|)
      && PtrTo(cs'[b], FirstMatch(u.nodes, cs'[b], key)) == At(x)
      && var d := Rehash(u.nodes, cs', c0)[HashIndex(hv, 2 * c0)];
         Within(d, |nodes|) && PtrTo(d, FirstMatch(u.nodes, d, key)) == At(x)
  {
    var b := HashIndex(hv, c0);
    var c := cs[b];
    var p := FirstMatch(nodes, c, key);
    TombstoneOneLive(nodes, c, p, x, key);
    var u := UpdateTombstone(nodes, c, p, x);
    var cs' := cs[b := u.chain];
    assert AllWithin(cs', |nodes|);
    forall a | 0 <= a < |u.nodes| && KeyEquals(u.nodes[a], key) ensures u.nodes[a].hashVal == hv {
      assert u.nodes[a].hashVal == nodes[a].hashVal && u.nodes[a].key == nodes[a].key;
    }
    RehashKeepsLookup(u.nodes, cs', c0, key, hv);
  }

  // ---------------------------------------------------------------------------
  // B. The removal loop ends with the first node it frees

  /** The variables of the removal loop over one chain: the heap (a freed node keeps what
      was last written to it), the next links, the bucket entry, prevNode, pNode and code. */
  datatype Walk = Walk(nodes: seq<Node>, nexts: seq<Ptr>, e: Entry, prev: Ptr, node: Ptr, code: int)

  /** Every pointer of the walk is an address of the heap. */
  ghost predicate WalkOk(w: Walk)
  {
    && |w.nexts| == |w.nodes|
    && (w.e.next.At? ==> w.e.next.addr < |w.nodes|)
    && (w.prev.At? ==> w.prev.addr < |w.nodes|)
    && (w.node.At? ==> w.node.addr < |w.nodes|)
    && (forall a | 0 <= a < |w.nexts| :: w.nexts[a].At? ==> w.nexts[a].addr < |w.nodes|)
  }

  /** As written: the loop of taosHashRemoveWithData, for at most fuel turns. A match loses
      a reference and is marked removed; when no reference is left it is unlinked through
      prevNode (or the entry) and freed, and freeing it sets pNode to NULL, which ends the
      loop. A match still referenced stays pNode and is visited again, now as removed. Any
      other node becomes prevNode and the loop moves on. The copy into the caller's buffer
      is left out. */
  function RemoveLoopAsWritten(w: Walk, key: Bytes, fuel: nat): (r: Walk)
    requires WalkOk(w)
    ensures WalkOk(r) && |r.nodes| == |w.nodes|
    ensures r.code == w.code || r.code == 0
    decreases fuel
  {
    if fuel == 0 || w.node == Null then w
    else
      var a := w.node.addr;
      if Matches(w.nodes[a], key) then
        var n := Marked(w.nodes[a]);
        var nodes := w.nodes[a := n];
        if n.refCount == 0 then
          var e := if w.prev == Null then w.e.(next := w.nexts[a]) else w.e;
          var nexts := if w.prev == Null then w.nexts else w.nexts[w.prev.addr := w.nexts[a]];
          RemoveLoopAsWritten(Walk(nodes, nexts, e.(num := e.num - 1), w.prev, Null, 0), key, fuel - 1)
        else
          RemoveLoopAsWritten(w.(nodes := nodes, code := 0), key, fuel - 1)
      else
        RemoveLoopAsWritten(w.(prev := w.node, node := w.nexts[a]), key, fuel - 1)
  }

  /** As written: removing KeyA from slot 0 of the table of scenario A (chain [2, 0], both
      nodes live with one reference) unlinks and frees node 2 and stops there. The remove
      reports success, yet the entry now heads node 0, which is live with the old value
      [10], so a lookup of KeyA in the slot finds it. */
  lemma StaleAfterRemove()
    ensures var w := Walk(UpdatedNodes(), [Null, Null, At(0)], Entry(2, At(2)), Null, At(2), -1);
      && WalkOk(w)
      && (var r := RemoveLoopAsWritten(w, KeyA, 8);
          && r.node == Null && r.code == 0 && r.e == Entry(1, At(0))
          && r.nodes[2].removed && !r.nodes[0].removed
          && FirstMatch(r.nodes, [0], KeyA) == 0 && r.nodes[0].data == [10])
  {
    var w := Walk(UpdatedNodes(), [Null, Null, At(0)], Entry(2, At(2)), Null, At(2), -1);
    var nodes1 := UpdatedNodes()[2 := Marked(UpdatedNodes()[2])];
    var w1 := Walk(nodes1, [Null, Null, At(0)], Entry(1, At(0)), Null, Null, 0);
    assert RemoveLoopAsWritten(w, KeyA, 8) == RemoveLoopAsWritten(w1, KeyA, 7);
  }

  /** Corrected: the scan that goes on with the successor unlinks both nodes of the same
      chain and leaves it empty, so no live node holds the key any more. */
  lemma ScanEmptiesChain()
    ensures var r := RemoveScan(UpdatedNodes(), [2, 0], KeyA, None, 0);
      r.kept == [] && r.found && r.nodes[0].removed && r.nodes[2].removed
  {
    var nodes1 := UpdatedNodes()[2 := Marked(UpdatedNodes()[2])];
    assert [2, 0][1..] == [0];
    assert RemoveScan(nodes1, [0], KeyA, None, 0).kept == [];
  }
}
