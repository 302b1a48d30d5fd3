/** The order in which taosHashIterate walks a table: the nodes that are not removed,
    slot after slot and, within a slot, in chain order. A walk started with a NULL cursor
    and continued with the node each call returns visits exactly these nodes, each once,
    in this order, and then returns NULL. */
module Iteration {
  import opened HashTypes
  import opened Chains
  import opened THash

  /** The live nodes of chain c from position i on, in chain order. */
  ghost function LiveIn(nodes: seq<Node>, c: seq<nat>, i: nat): seq<nat>
    requires Within(c, |nodes|) && i <= |c|
    decreases |c| - i
  {
    if i == |c| then []
    else if nodes[c[i]].removed then LiveIn(nodes, c, i + 1)
    else [c[i]] + LiveIn(nodes, c, i + 1)
  }

  /** The live nodes of slots b, b + 1, ..., slot after slot; LiveFrom(nodes, cs, 0) is
      the order of the whole walk. */
  ghost function LiveFrom(nodes: seq<Node>, cs: seq<seq<nat>>, b: nat): (r: seq<nat>)
    requires AllWithin(cs, |nodes|)
    ensures forall k | 0 <= k < |r| :: r[k] < |nodes|
    decreases |cs| - b
  {
    if b >= |cs| then []
    else
      LiveInBound(nodes, cs[b], 0);
      LiveIn(nodes, cs[b], 0) + LiveFrom(nodes, cs, b + 1)
  }

  lemma {:induction false} LiveInBound(nodes: seq<Node>, c: seq<nat>, i: nat)
    requires Within(c, |nodes|) && i <= |c|
    ensures forall k | 0 <= k < |LiveIn(nodes, c, i)| :: LiveIn(nodes, c, i)[k] < |nodes|
    decreases |c| - i
  {
    if i < |c| {
      LiveInBound(nodes, c, i + 1);
    }
  }

  // ---------------------------------------------------------------------------
  // The searches of taosHashIterate stop at the head of the order

  /** The search along a chain for a node that is not removed stops at the first live
      node of the chain from there on. */
  lemma {:induction false} FirstLiveHead(nodes: seq<Node>, c: seq<nat>, i: nat)
    requires Within(c, |nodes|) && i <= |c|
    ensures PtrTo(c, FirstLive(nodes, c, i)) == PtrTo(LiveIn(nodes, c, i), 0)
    decreases |c| - i
  {
    if i < |c| && nodes[c[i]].removed {
      FirstLiveHead(nodes, c, i + 1);
    }
  }

  /** The bucket scan from slot b stops at the first live node of slots b, b + 1, ... */
  lemma {:induction false} ScanHead(nodes: seq<Node>, cs: seq<seq<nat>>, b: nat)
    requires AllWithin(cs, |nodes|)
    ensures PosPtr(cs, ScanBuckets(nodes, cs, b)) == PtrTo(LiveFrom(nodes, cs, b), 0)
    decreases |cs| - b
  {
    if b < |cs| {
      assert Within(cs[b], |nodes|);
      FirstLiveHead(nodes, cs[b], 0);
      if FirstLive(nodes, cs[b], 0) == |cs[b]| {
        assert LiveIn(nodes, cs[b], 0) == [];
        ScanHead(nodes, cs, b + 1);
      }
    }
  }

  /** Dropping the first j elements of a concatenation. */
  lemma DropConcat(u: seq<nat>, v: seq<nat>, j: nat)
    requires j <= |u| + |v|
    ensures (u + v)[j..] == if j <= |u| then u[j..] + v else v[j - |u|..]
  {
    if j <= |u| {
      assert (u + v)[j..] == u[j..] + v;
    } else {
      assert (u + v)[j..] == v[j - |u|..];
    }
  }

  /** When s goes on from position j with x, then u, then v, x is s[j] and the pointer to
      position j + 1 is the head of u + v. */
  lemma NextAfter(s: seq<nat>, j: nat, x: nat, u: seq<nat>, v: seq<nat>)
    requires j < |s| && s[j..] == [x] + u + v
    ensures s[j] == x && PtrTo(s, j + 1) == PtrTo(u + v, 0)
  {
    assert s[j] == s[j..][0];
    if j + 1 < |s| {
      assert s[j + 1] == s[j..][1] == (u + v)[0];
    }
  }

  /** Where the j-th node of LiveIn(nodes, c, i0) sits in c: at a live position i, with
      the live nodes behind it after it. */
  lemma {:induction false} LiveInAt(nodes: seq<Node>, c: seq<nat>, i0: nat, j: nat) returns (i: nat)
    requires Within(c, |nodes|) && i0 <= |c| && j < |LiveIn(nodes, c, i0)|
    ensures i0 <= i < |c| && !nodes[c[i]].removed
    ensures LiveIn(nodes, c, i0)[j..] == [c[i]] + LiveIn(nodes, c, i + 1)
    decreases |c| - i0
  {
    var here := LiveIn(nodes, c, i0);
    var rest := LiveIn(nodes, c, i0 + 1);
    if nodes[c[i0]].removed {
      assert here == rest;
      i := LiveInAt(nodes, c, i0 + 1, j);
    } else if j == 0 {
      i := i0;
      assert here[j..] == here;
    } else {
      assert here == [c[i0]] + rest;
      DropConcat([c[i0]], rest, j);
      i := LiveInAt(nodes, c, i0 + 1, j - 1);
    }
  }

  /** Where the j-th node of the order from slot b sits: at a live position i of slot s,
      with the live nodes behind it in its chain after it, then the later slots. */
  lemma {:induction false} LiveAt(nodes: seq<Node>, cs: seq<seq<nat>>, b: nat, j: nat) returns (s: nat, i: nat)
    requires AllWithin(cs, |nodes|) && j < |LiveFrom(nodes, cs, b)|
    ensures b <= s < |cs| && i < |cs[s]| && cs[s][i] < |nodes| && !nodes[cs[s][i]].removed
    ensures LiveFrom(nodes, cs, b)[j..] == [cs[s][i]] + LiveIn(nodes, cs[s], i + 1) + LiveFrom(nodes, cs, s + 1)
    decreases |cs| - b
  {
    assert Within(cs[b], |nodes|);
    var here := LiveIn(nodes, cs[b], 0);
    var later := LiveFrom(nodes, cs, b + 1);
    assert LiveFrom(nodes, cs, b) == here + later;
    DropConcat(here, later, j);
    if j < |here| {
      s := b;
      i := LiveInAt(nodes, cs[b], 0, j);
    } else {
      s, i := LiveAt(nodes, cs, b + 1, j - |here|);
    }
  }

  // ---------------------------------------------------------------------------
  // One call of taosHashIterate

  /** With no cursor, taosHashIterate goes for the first node of the order (NULL when the
      table has no live node). */
  lemma IterateFirst(nodes: seq<Node>, cs: seq<seq<nat>>, size: int, cap: nat)
    requires AllWithin(cs, |nodes|) && |cs| == cap && cap > 0
    ensures IterTarget(nodes, cs, size, cap, Null) == PtrTo(LiveFrom(nodes, cs, 0), 0)
  {
    ScanHead(nodes, cs, 0);
  }

  /** The release of the node at position i of slot s finds it there: it returns the
      first live node behind it and, when a reference is left, keeps the chains. */
  lemma ReleaseAt(nodes: seq<Node>, cs: seq<seq<nat>>, size: int, cap: nat, s: nat, i: nat)
    requires AllWithin(cs, |nodes|) && |cs| == cap && Placed(nodes, cs, cap)
    requires s < |cs| && i < |cs[s]| && NoDup(cs[s])
    ensures var a := cs[s][i];
      var rel := ReleaseOf(nodes, cs, size, cap, a);
      && a < |nodes| && HashIndex(nodes[a].hashVal, cap) == s
      && rel.next == PtrTo(cs[s], FirstLive(nodes, cs[s], i + 1))
      && (nodes[a].refCount != 1 ==> rel.chains == cs && rel.size == size)
  {
    var a := cs[s][i];
    assert a in cs[s];
    assert IndexOf(cs[s], a) == i;
  }

  /** With the j-th node of the order as cursor, taosHashIterate goes for the (j + 1)-th,
      or returns NULL after the last: the release's search behind the cursor and the scan
      of the later slots together find the next live node. */
  lemma IterateNext(nodes: seq<Node>, cs: seq<seq<nat>>, size: int, cap: nat, j: nat)
    requires AllWithin(cs, |nodes|) && |cs| == cap && Placed(nodes, cs, cap) && Disjoint(cs)
    requires j < |LiveFrom(nodes, cs, 0)|
    ensures var order := LiveFrom(nodes, cs, 0);
      order[j] < |nodes| && IterTarget(nodes, cs, size, cap, At(order[j])) == PtrTo(order, j + 1)
  {
    var order := LiveFrom(nodes, cs, 0);
    var s, i := LiveAt(nodes, cs, 0, j);
    var c := cs[s];
    var a := c[i];
    var behind := LiveIn(nodes, c, i + 1);
    var later := LiveFrom(nodes, cs, s + 1);
    NextAfter(order, j, a, behind, later);
    ReleaseAt(nodes, cs, size, cap, s, i);
    FirstLiveHead(nodes, c, i + 1);
    if behind == [] {
      ScanHead(nodes, cs, s + 1);
    }
  }

  /** The walk depends only on the removed flags: the reference counts that releasing
      and pinning change leave the order alone. */
  lemma {:induction false} LiveFromFrame(nodes: seq<Node>, nodes': seq<Node>, cs: seq<seq<nat>>, b: nat)
    requires AllWithin(cs, |nodes|) && |nodes'| == |nodes|
    requires forall a | 0 <= a < |nodes| :: nodes'[a].removed == nodes[a].removed
    ensures LiveFrom(nodes', cs, b) == LiveFrom(nodes, cs, b)
    decreases |cs| - b
  {
    if b < |cs| {
      LiveInFrame(nodes, nodes', cs[b], 0);
      LiveFromFrame(nodes, nodes', cs, b + 1);
    }
  }

  lemma {:induction false} LiveInFrame(nodes: seq<Node>, nodes': seq<Node>, c: seq<nat>, i: nat)
    requires Within(c, |nodes|) && i <= |c| && |nodes'| == |nodes|
    requires forall a | 0 <= a < |nodes| :: nodes'[a].removed == nodes[a].removed
    ensures LiveIn(nodes', c, i) == LiveIn(nodes, c, i)
    decreases |c| - i
  {
    if i < |c| {
      LiveInFrame(nodes, nodes', c, i + 1);
      assert nodes'[c[i]].removed == nodes[c[i]].removed;
    }
  }

  /** One call of taosHashIterate with the j-th node of the order as cursor, when the
      cursor holds a reference besides the walk's own (every node is created with one):
      the release leaves the chains as they are, the pin of the node found changes only
      a count, so the next call sees the same order, and the call returns the
      (j + 1)-th node or NULL. */
  lemma IterateStep(nodes: seq<Node>, cs: seq<seq<nat>>, size: int, cap: nat, j: nat,
                    nodes': seq<Node>, r: Ptr)
    requires AllWithin(cs, |nodes|) && |cs| == cap && Placed(nodes, cs, cap) && Disjoint(cs)
    requires j < |LiveFrom(nodes, cs, 0)|
    requires nodes[LiveFrom(nodes, cs, 0)[j]].refCount != 1
    requires var order := LiveFrom(nodes, cs, 0);
      var rel := ReleaseOf(nodes, cs, size, cap, order[j]);
      var t := IterTarget(nodes, cs, size, cap, At(order[j]));
      Pinned(rel.nodes, t, nodes', r)
    ensures var order := LiveFrom(nodes, cs, 0);
      var rel := ReleaseOf(nodes, cs, size, cap, order[j]);
      && rel.chains == cs && rel.size == size
      && |nodes'| == |nodes| && LiveFrom(nodes', cs, 0) == order
      && (r == Null || r == PtrTo(order, j + 1))
  {
    var order := LiveFrom(nodes, cs, 0);
    var a := order[j];
    var s, i := LiveAt(nodes, cs, 0, j);
    NextAfter(order, j, cs[s][i], LiveIn(nodes, cs[s], i + 1), LiveFrom(nodes, cs, s + 1));
    ReleaseAt(nodes, cs, size, cap, s, i);
    var rel := ReleaseOf(nodes, cs, size, cap, a);
    IterateNext(nodes, cs, size, cap, j);
    PinKeepsOrder(rel.nodes, cs, IterTarget(nodes, cs, size, cap, At(a)), nodes', r);
    LiveFromFrame(nodes, rel.nodes, cs, 0);
  }

  /** The pin taosHashIterate puts on the node it found, t, changes a count only: the
      order stays, and the node returned is t or NULL. */
  lemma PinKeepsOrder(nodes: seq<Node>, cs: seq<seq<nat>>, t: Ptr, nodes': seq<Node>, r: Ptr)
    requires AllWithin(cs, |nodes|) && (t.At? ==> t.addr < |nodes|)
    requires Pinned(nodes, t, nodes', r)
    ensures |nodes'| == |nodes| && LiveFrom(nodes', cs, 0) == LiveFrom(nodes, cs, 0)
    ensures r == Null || r == t
  {
    LiveFromFrame(nodes, nodes', cs, 0);
  }

  // ---------------------------------------------------------------------------
  // Every live node once

  lemma {:induction false} LiveInFrom(nodes: seq<Node>, c: seq<nat>, i: nat)
    requires Within(c, |nodes|) && i <= |c|
    ensures forall x | x in LiveIn(nodes, c, i) :: x in c[i..] && !nodes[x].removed
    decreases |c| - i
  {
    if i < |c| {
      LiveInFrom(nodes, c, i + 1);
    }
  }

  lemma {:induction false} LiveInHas(nodes: seq<Node>, c: seq<nat>, i: nat, k: nat)
    requires Within(c, |nodes|) && i <= k < |c| && !nodes[c[k]].removed
    ensures c[k] in LiveIn(nodes, c, i)
    decreases |c| - i
  {
    if i < k {
      LiveInHas(nodes, c, i + 1, k);
    }
  }

  lemma {:induction false} LiveInNoDup(nodes: seq<Node>, c: seq<nat>, i: nat)
    requires Within(c, |nodes|) && i <= |c| && NoDup(c)
    ensures NoDup(LiveIn(nodes, c, i))
    decreases |c| - i
  {
    if i < |c| {
      LiveInNoDup(nodes, c, i + 1);
      LiveInFrom(nodes, c, i + 1);
      var rest := LiveIn(nodes, c, i + 1);
      assert c[i] !in c[i + 1..];
      if !nodes[c[i]].removed {
        NoDupConcat([c[i]], rest);
      }
    }
  }

  lemma NoDupConcat(u: seq<nat>, v: seq<nat>)
    requires NoDup(u) && NoDup(v) && forall x | x in u :: x !in v
    ensures NoDup(u + v)
  {
    forall i, j | 0 <= i < j < |u + v| ensures (u + v)[i] != (u + v)[j] {
      if i < |u| && j >= |u| {
        assert (u + v)[i] in u && (u + v)[j] == v[j - |u|];
      }
    }
  }

  /** The order from slot b holds live nodes of the chains of slots b on, and every one of
      them. */
  lemma {:induction false} LiveFromMembers(nodes: seq<Node>, cs: seq<seq<nat>>, b: nat)
    requires AllWithin(cs, |nodes|)
    ensures forall x | x in LiveFrom(nodes, cs, b) ::
      x < |nodes| && !nodes[x].removed && exists b2 | b <= b2 < |cs| :: x in cs[b2]
    ensures forall b2, k | b <= b2 < |cs| && 0 <= k < |cs[b2]| && !nodes[cs[b2][k]].removed ::
      cs[b2][k] in LiveFrom(nodes, cs, b)
    decreases |cs| - b
  {
    if b < |cs| {
      assert Within(cs[b], |nodes|);
      LiveFromMembers(nodes, cs, b + 1);
      LiveInFrom(nodes, cs[b], 0);
      forall k | 0 <= k < |cs[b]| && !nodes[cs[b][k]].removed ensures cs[b][k] in LiveFrom(nodes, cs, b) {
        LiveInHas(nodes, cs[b], 0, k);
      }
      forall x | x in LiveIn(nodes, cs[b], 0) ensures x in cs[b] {
        assert cs[b][0..] == cs[b];
      }
    }
  }

  lemma {:induction false} LiveFromNoDup(nodes: seq<Node>, cs: seq<seq<nat>>, b: nat)
    requires AllWithin(cs, |nodes|) && Disjoint(cs)
    ensures NoDup(LiveFrom(nodes, cs, b))
    decreases |cs| - b
  {
    if b < |cs| {
      assert Within(cs[b], |nodes|);
      LiveInNoDup(nodes, cs[b], 0);
      LiveFromNoDup(nodes, cs, b + 1);
      LiveFromMembers(nodes, cs, b + 1);
      LiveInFrom(nodes, cs[b], 0);
      var here := LiveIn(nodes, cs[b], 0);
      var later := LiveFrom(nodes, cs, b + 1);
      forall x | x in here ensures x !in later {
        assert cs[b][0..] == cs[b];
        assert x in cs[b];
      }
      NoDupConcat(here, later);
    }
  }

  /** The walk visits every live linked node of the table exactly once: the order holds
      each of them, no other node, and none twice. */
  lemma IterateVisitsEachOnce(nodes: seq<Node>, cs: seq<seq<nat>>)
    requires AllWithin(cs, |nodes|) && Disjoint(cs)
    ensures var order := LiveFrom(nodes, cs, 0);
      && NoDup(order)
      && (forall x | x in order :: x < |nodes| && !nodes[x].removed && !Unlinked(cs, x))
      && (forall b, k | 0 <= b < |cs| && 0 <= k < |cs[b]| && !nodes[cs[b][k]].removed :: cs[b][k] in order)
  {
    LiveFromNoDup(nodes, cs, 0);
    LiveFromMembers(nodes, cs, 0);
  }
}
