/** What taosHashTableResize does to the chains when the directory doubles from c0 to
    2*c0 slots: a node of slot b either stays in b or moves to b + c0, the nodes that stay
    keep their order, and the nodes that move are pushed one by one at the head of their
    new chain, so they arrive there in reverse order. */
module Resize {
  import opened HashTypes
  import opened Chains

  /** The nodes of c that a directory of cap slots sends to slot b, in chain order. */
  function Keep(nodes: seq<Node>, c: seq<nat>, cap: nat, b: nat): (r: seq<nat>)
    requires Within(c, |nodes|) && cap > 0
    decreases |c|
  {
    if c == [] then []
    else
      var n := |c| - 1;
      assert Within(c[..n], |nodes|) by {
        forall i | 0 <= i < n ensures c[..n][i] < |nodes| { assert c[..n][i] == c[i]; }
      }
      Keep(nodes, c[..n], cap, b) + (if HashIndex(nodes[c[n]].hashVal, cap) == b then [c[n]] else [])
  }

  /** s in reverse order. */
  function Rev(s: seq<nat>): (r: seq<nat>)
    decreases |s|
  {
    if s == [] then [] else [s[|s| - 1]] + Rev(s[..|s| - 1])
  }

  /** The chains of the doubled directory once its first idx old slots have been split:
      slot b < idx holds the nodes of old slot b that stay, slot b + c0 the reversed nodes of
      old slot b that move; the other old slots are untouched and the other new slots empty. */
  function Partial(nodes: seq<Node>, cs: seq<seq<nat>>, c0: nat, idx: nat): (r: seq<seq<nat>>)
    requires c0 > 0 && |cs| == c0 && AllWithin(cs, |nodes|) && idx <= c0
    ensures |r| == 2 * c0
  {
    seq(2 * c0, b requires 0 <= b < 2 * c0 =>
      if b < c0 then (if b < idx then Keep(nodes, cs[b], 2 * c0, b) else cs[b])
      else if b - c0 < idx then Rev(Keep(nodes, cs[b - c0], 2 * c0, b))
      else [])
  }

  /** The chains after the whole resize. */
  function Rehash(nodes: seq<Node>, cs: seq<seq<nat>>, c0: nat): (r: seq<seq<nat>>)
    requires c0 > 0 && |cs| == c0 && AllWithin(cs, |nodes|)
    ensures |r| == 2 * c0
  {
    Partial(nodes, cs, c0, c0)
  }

  // ---------------------------------------------------------------------------
  // Keep and Rev

  lemma {:induction false} KeepMembers(nodes: seq<Node>, c: seq<nat>, cap: nat, b: nat)
    requires Within(c, |nodes|) && cap > 0
    ensures forall y :: y in Keep(nodes, c, cap, b) <==> y in c && HashIndex(nodes[y].hashVal, cap) == b
    decreases |c|
  {
    if c != [] {
      var n := |c| - 1;
      assert c == c[..n] + [c[n]];
      KeepMembers(nodes, c[..n], cap, b);
    }
  }

  lemma {:induction false} KeepAll(nodes: seq<Node>, c: seq<nat>, cap: nat, b: nat)
    requires Within(c, |nodes|) && cap > 0
    requires forall i | 0 <= i < |c| :: HashIndex(nodes[c[i]].hashVal, cap) == b
    ensures Keep(nodes, c, cap, b) == c
    decreases |c|
  {
    if c != [] {
      var n := |c| - 1;
      assert c == c[..n] + [c[n]];
      KeepAll(nodes, c[..n], cap, b);
    }
  }

  lemma {:induction false} KeepNone(nodes: seq<Node>, c: seq<nat>, cap: nat, b: nat)
    requires Within(c, |nodes|) && cap > 0
    requires forall i | 0 <= i < |c| :: HashIndex(nodes[c[i]].hashVal, cap) != b
    ensures Keep(nodes, c, cap, b) == []
    decreases |c|
  {
    if c != [] {
      KeepNone(nodes, c[..|c| - 1], cap, b);
    }
  }

  /** A node of the chain goes to exactly one of two slots, so the two kept parts split it. */
  lemma {:induction false} KeepSplit(nodes: seq<Node>, c: seq<nat>, cap: nat, b1: nat, b2: nat)
    requires Within(c, |nodes|) && cap > 0 && b1 != b2
    requires forall i | 0 <= i < |c| :: HashIndex(nodes[c[i]].hashVal, cap) in {b1, b2}
    ensures |Keep(nodes, c, cap, b1)| + |Keep(nodes, c, cap, b2)| == |c|
    decreases |c|
  {
    if c != [] {
      KeepSplit(nodes, c[..|c| - 1], cap, b1, b2);
    }
  }

  /** Keep walks the chain front to back: one more node processed extends it by at most that node. */
  lemma KeepStep(nodes: seq<Node>, c: seq<nat>, k: nat, cap: nat, b: nat)
    requires Within(c, |nodes|) && cap > 0 && k < |c|
    ensures Within(c[..k], |nodes|) && Within(c[..k + 1], |nodes|)
    ensures Keep(nodes, c[..k + 1], cap, b) ==
      Keep(nodes, c[..k], cap, b) + (if HashIndex(nodes[c[k]].hashVal, cap) == b then [c[k]] else [])
  {
    assert c[..k + 1][..k] == c[..k];
  }

  /** Keep depends only on the cached hashes of the chain's nodes. */
  lemma {:induction false} KeepFrame(nodes: seq<Node>, nodes': seq<Node>, c: seq<nat>, cap: nat, b: nat)
    requires Within(c, |nodes|) && Within(c, |nodes'|) && cap > 0
    requires forall i | 0 <= i < |c| :: nodes'[c[i]].hashVal == nodes[c[i]].hashVal
    ensures Keep(nodes', c, cap, b) == Keep(nodes, c, cap, b)
    decreases |c|
  {
    if c != [] {
      KeepFrame(nodes, nodes', c[..|c| - 1], cap, b);
    }
  }

  /** The chains while slot idx is being split, once the first k nodes of its original
      chain c have been visited: the ones that stay are still linked in order ahead of the
      unvisited rest, and the ones that moved sit, last moved first, ahead of slot T's
      original chain. */
  ghost function Midway(nodes: seq<Node>, c: seq<nat>, k: nat, cap: nat, idx: nat, T: nat, start: seq<seq<nat>>): seq<seq<nat>>
    requires Within(c, |nodes|) && cap > 0 && k <= |c| && idx < |start| && T < |start|
  {
    assert Within(c[..k], |nodes|);
    start[idx := Keep(nodes, c[..k], cap, idx) + c[k..]][T := Rev(Keep(nodes, c[..k], cap, T)) + start[T]]
  }

  /** Before the first node the chains are untouched; after the last, slot idx holds the
      nodes that stay and slot T the moved ones in reverse, ahead of its own. */
  lemma MidwayEnds(nodes: seq<Node>, c: seq<nat>, cap: nat, idx: nat, T: nat, start: seq<seq<nat>>)
    requires Within(c, |nodes|) && cap > 0 && idx < |start| && T < |start| && idx != T && start[idx] == c
    ensures Midway(nodes, c, 0, cap, idx, T, start) == start
    ensures Midway(nodes, c, |c|, cap, idx, T, start)
            == start[idx := Keep(nodes, c, cap, idx)][T := Rev(Keep(nodes, c, cap, T)) + start[T]]
  {
    assert c[..0] == [] && c[0..] == c && c[..|c|] == c && c[|c|..] == [];
    assert Keep(nodes, c[..0], cap, idx) == [] && Keep(nodes, c[..0], cap, T) == [];
    assert Rev([]) == [];
    assert Midway(nodes, c, 0, cap, idx, T, start)
        == start[idx := Keep(nodes, c[..0], cap, idx) + c[0..]][T := Rev(Keep(nodes, c[..0], cap, T)) + start[T]];
    assert Keep(nodes, c[..0], cap, idx) + c[0..] == c;
    assert Rev(Keep(nodes, c[..0], cap, T)) + start[T] == start[T];
    assert Keep(nodes, c, cap, idx) + [] == Keep(nodes, c, cap, idx);
    assert start == start[idx := c][T := start[T]];
  }

  /** Visiting node k: its position in slot idx's current chain is the number of nodes that
      stayed before it, prev (the last of those) is the node before it there, and the node
      after it there is its successor in c. */
  lemma MidwayAt(nodes: seq<Node>, c: seq<nat>, k: nat, cap: nat, idx: nat, T: nat, start: seq<seq<nat>>)
    requires Within(c, |nodes|) && cap > 0 && k < |c| && idx != T && idx < |start| && T < |start|
    ensures Within(c[..k], |nodes|) && Within(c[..k + 1], |nodes|)
    ensures var cs := Midway(nodes, c, k, cap, idx, T, start);
      var kept := Keep(nodes, c[..k], cap, idx);
      var p := |kept|;
      && |cs| == |start| && cs[idx] == kept + c[k..] && p < |cs[idx]| && cs[idx][p] == c[k]
      && PtrTo(cs[idx], p + 1) == PtrTo(c, k + 1)
      && Last(kept) == (if p == 0 then Null else At(cs[idx][p - 1]))
  {
    assert Within(c[..k], |nodes|);
    assert Within(c[..k + 1], |nodes|);
  }

  /** A visited node whose index is idx stays: the chains are as they were, and it becomes
      the last node kept. */
  lemma MidwayStay(nodes: seq<Node>, c: seq<nat>, k: nat, cap: nat, idx: nat, T: nat, start: seq<seq<nat>>)
    requires Within(c, |nodes|) && cap > 0 && k < |c| && idx != T && idx < |start| && T < |start|
    requires HashIndex(nodes[c[k]].hashVal, cap) == idx
    ensures Within(c[..k + 1], |nodes|)
    ensures Midway(nodes, c, k + 1, cap, idx, T, start) == Midway(nodes, c, k, cap, idx, T, start)
    ensures Last(Keep(nodes, c[..k + 1], cap, idx)) == At(c[k])
  {
    var kept := Keep(nodes, c[..k], cap, idx);
    var moved := Keep(nodes, c[..k], cap, T);
    KeepStep(nodes, c, k, cap, idx);
    KeepStep(nodes, c, k, cap, T);
    assert c[k..] == [c[k]] + c[k + 1..];
    assert Keep(nodes, c[..k + 1], cap, T) == moved + [] == moved;
    assert Keep(nodes, c[..k + 1], cap, idx) + c[k + 1..] == (kept + [c[k]]) + c[k + 1..] == kept + c[k..];
    assert Midway(nodes, c, k, cap, idx, T, start)
        == start[idx := kept + c[k..]][T := Rev(moved) + start[T]]
        == Midway(nodes, c, k + 1, cap, idx, T, start);
  }

  /** A visited node whose index is T moves: it leaves slot idx's chain, where it follows
      the kept nodes, and goes to the head of slot T's; the last node kept is unchanged. */
  lemma MidwayMove(nodes: seq<Node>, c: seq<nat>, k: nat, cap: nat, idx: nat, T: nat, start: seq<seq<nat>>)
    requires Within(c, |nodes|) && cap > 0 && k < |c| && idx != T && idx < |start| && T < |start|
    requires HashIndex(nodes[c[k]].hashVal, cap) == T
    ensures Within(c[..k], |nodes|) && Within(c[..k + 1], |nodes|)
    ensures var cs := Midway(nodes, c, k, cap, idx, T, start);
      var kept := Keep(nodes, c[..k], cap, idx);
      && |kept| < |cs[idx]|
      && Midway(nodes, c, k + 1, cap, idx, T, start) == cs[idx := Delete(cs[idx], |kept|)][T := [c[k]] + cs[T]]
      && Keep(nodes, c[..k + 1], cap, idx) == kept
  {
    var kept := Keep(nodes, c[..k], cap, idx);
    var moved := Keep(nodes, c[..k], cap, T);
    KeepStep(nodes, c, k, cap, idx);
    KeepStep(nodes, c, k, cap, T);
    var cs := Midway(nodes, c, k, cap, idx, T, start);
    var a := kept + c[k + 1..];
    var b := Rev(moved + [c[k]]) + start[T];
    assert cs == start[idx := kept + c[k..]][T := Rev(moved) + start[T]];
    assert Keep(nodes, c[..k + 1], cap, idx) == kept + [] == kept;
    assert Keep(nodes, c[..k + 1], cap, T) == moved + [c[k]];
    assert Midway(nodes, c, k + 1, cap, idx, T, start) == start[idx := a][T := b];
    assert c[k..] == [c[k]] + c[k + 1..];
    MoveOne(kept, c[k], c[k + 1..], moved, start[T]);
    UpdateTwice(start, idx, T, kept + c[k..], Rev(moved) + start[T], a, b);
  }

  /** Moving y, the node after the kept ones, from the front of the unvisited rest to the
      front of the moved ones (which are kept reversed ahead of the target's own chain). */
  lemma MoveOne(kept: seq<nat>, y: nat, rest: seq<nat>, moved: seq<nat>, tail: seq<nat>)
    ensures Delete(kept + ([y] + rest), |kept|) == kept + rest
    ensures [y] + (Rev(moved) + tail) == Rev(moved + [y]) + tail
  {
    RevSnoc(moved, y);
    assert (kept + ([y] + rest))[..|kept|] == kept;
    assert (kept + ([y] + rest))[|kept| + 1..] == rest;
  }

  /** Two updates of two different slots are overwritten by two later ones. */
  lemma UpdateTwice(s: seq<seq<nat>>, i: nat, j: nat, a: seq<nat>, b: seq<nat>, a': seq<nat>, b': seq<nat>)
    requires i < |s| && j < |s| && i != j
    ensures s[i := a][j := b][i := a'][j := b'] == s[i := a'][j := b']
  {
  }

  /** Where the walk stands in slot idx's current chain: the visited node sits after the
      kept ones, so its link in a heap that lays that chain out is its successor in c. */
  lemma MidwayNext(nodes: seq<Node>, c: seq<nat>, k: nat, cap: nat, idx: nat, T: nat, start: seq<seq<nat>>,
                   nexts: seq<Ptr>, e: Entry)
    requires Within(c, |nodes|) && cap > 0 && k < |c| && idx != T && idx < |start| && T < |start|
    requires ChainOk(nexts, e, Midway(nodes, c, k, cap, idx, T, start)[idx])
    ensures Within(c[..k], |nodes|)
    ensures c[k] < |nexts| && nexts[c[k]] == PtrTo(c, k + 1)
  {
    MidwayAt(nodes, c, k, cap, idx, T, start);
    var cs := Midway(nodes, c, k, cap, idx, T, start);
    var p := |Keep(nodes, c[..k], cap, idx)|;
    assert cs[idx][p] == c[k];
  }

  lemma {:induction false} RevMembers(s: seq<nat>)
    ensures |Rev(s)| == |s|
    ensures forall y :: y in Rev(s) <==> y in s
    decreases |s|
  {
    if s != [] {
      var n := |s| - 1;
      assert s == s[..n] + [s[n]];
      RevMembers(s[..n]);
    }
  }

  lemma RevSnoc(s: seq<nat>, x: nat)
    ensures Rev(s + [x]) == [x] + Rev(s)
  {
    assert (s + [x])[..|s|] == s;
  }

  // ---------------------------------------------------------------------------
  // Doubling the directory

  /** The remainder is unique: h == k * c + r with 0 <= r < c makes r the remainder. */
  lemma ModOf(h: nat, c: nat, k: int, r: int)
    requires c > 0 && 0 <= r < c && h == k * c + r
    ensures h % c == r
  {
    var q := h / c;
    var m := h % c;
    assert h == q * c + m;
    assert (q - k) * c == r - m;
    if q > k {
      MulAtLeast(q - k, c);
    } else if q < k {
      MulAtLeast(k - q, c);
    }
  }

  lemma MulAtLeast(a: int, c: nat)
    requires a >= 1
    ensures a * c >= c
  {
    assert a * c == (a - 1) * c + c;
    assert (a - 1) * c >= 0;
  }

  /** With twice the slots, a hash lands in its old slot or c slots further on. */
  lemma SplitIndex(h: nat, c: nat)
    requires c > 0
    ensures h % (2 * c) == h % c || h % (2 * c) == h % c + c
  {
    var q := h / (2 * c);
    var r := h % (2 * c);
    assert h == q * (2 * c) + r;
    assert q * (2 * c) == (2 * q) * c;
    if r < c {
      ModOf(h, c, 2 * q, r);
    } else {
      assert (2 * q + 1) * c == (2 * q) * c + c;
      ModOf(h, c, 2 * q + 1, r - c);
    }
  }

  /** Splitting one more old slot: it keeps its staying nodes, and its partner slot receives
      the moving ones in reverse. */
  lemma PartialStep(nodes: seq<Node>, cs: seq<seq<nat>>, c0: nat, idx: nat)
    requires c0 > 0 && |cs| == c0 && AllWithin(cs, |nodes|) && idx < c0
    ensures Partial(nodes, cs, c0, idx + 1) ==
      Partial(nodes, cs, c0, idx)[idx := Keep(nodes, cs[idx], 2 * c0, idx)]
                                 [idx + c0 := Rev(Keep(nodes, cs[idx], 2 * c0, idx + c0)) + []]
  {
    assert Rev(Keep(nodes, cs[idx], 2 * c0, idx + c0)) + [] == Rev(Keep(nodes, cs[idx], 2 * c0, idx + c0));
  }

  /** Every chain of a partly split directory holds nodes of the heap. */
  lemma PartialWithin(nodes: seq<Node>, cs: seq<seq<nat>>, c0: nat, idx: nat)
    requires c0 > 0 && |cs| == c0 && AllWithin(cs, |nodes|) && idx <= c0
    ensures AllWithin(Partial(nodes, cs, c0, idx), |nodes|)
  {
    var P := Partial(nodes, cs, c0, idx);
    forall b, i | 0 <= b < |P| && 0 <= i < |P[b]| ensures P[b][i] < |nodes| {
      assert P[b][i] in P[b];
      if b < c0 {
        KeepMembers(nodes, cs[b], 2 * c0, b);
      } else if b - c0 < idx {
        KeepMembers(nodes, cs[b - c0], 2 * c0, b);
        RevMembers(Keep(nodes, cs[b - c0], 2 * c0, b));
      }
      assert P[b][i] in cs[if b < c0 then b else b - c0];
    }
  }

  /** Slot idx of the doubled directory in the resize's outer loop: with every node in the
      slot its hash selected in the old directory, each node of the slot's current chain now
      belongs to idx or to its partner T, and relinking that chain (as RelinkBucket does)
      takes the directory one slot further along the plan; for the new upper half nothing
      moves at all. */
  lemma PartialRelink(nodes: seq<Node>, cs: seq<seq<nat>>, c0: nat, idx: nat)
    requires c0 > 0 && |cs| == c0 && AllWithin(cs, |nodes|) && Placed(nodes, cs, c0) && idx < 2 * c0
    ensures AllWithin(Partial(nodes, cs, c0, Min(idx, c0)), |nodes|)
    ensures var P := Partial(nodes, cs, c0, Min(idx, c0));
      var T := if idx < c0 then idx + c0 else idx - c0;
      && (forall i | 0 <= i < |P[idx]| :: HashIndex(nodes[P[idx][i]].hashVal, 2 * c0) in {idx, T})
      && P[idx := Keep(nodes, P[idx], 2 * c0, idx)][T := Rev(Keep(nodes, P[idx], 2 * c0, T)) + P[T]]
         == Partial(nodes, cs, c0, Min(idx + 1, c0))
  {
    if idx < c0 {
      PartialRelinkLow(nodes, cs, c0, idx);
    } else {
      PartialRelinkHigh(nodes, cs, c0, idx);
    }
  }

  lemma PartialRelinkLow(nodes: seq<Node>, cs: seq<seq<nat>>, c0: nat, idx: nat)
    requires c0 > 0 && |cs| == c0 && AllWithin(cs, |nodes|) && Placed(nodes, cs, c0) && idx < c0
    ensures AllWithin(Partial(nodes, cs, c0, idx), |nodes|)
    ensures var P := Partial(nodes, cs, c0, idx);
      && (forall i | 0 <= i < |P[idx]| :: HashIndex(nodes[P[idx][i]].hashVal, 2 * c0) in {idx, idx + c0})
      && P[idx := Keep(nodes, P[idx], 2 * c0, idx)][idx + c0 := Rev(Keep(nodes, P[idx], 2 * c0, idx + c0)) + P[idx + c0]]
         == Partial(nodes, cs, c0, idx + 1)
  {
    PartialWithin(nodes, cs, c0, idx);
    var P := Partial(nodes, cs, c0, idx);
    assert P[idx] == cs[idx] && P[idx + c0] == [];
    forall i | 0 <= i < |P[idx]| ensures HashIndex(nodes[P[idx][i]].hashVal, 2 * c0) in {idx, idx + c0} {
      SplitIndex(nodes[P[idx][i]].hashVal, c0);
    }
    PartialStep(nodes, cs, c0, idx);
  }

  lemma PartialRelinkHigh(nodes: seq<Node>, cs: seq<seq<nat>>, c0: nat, idx: nat)
    requires c0 > 0 && |cs| == c0 && AllWithin(cs, |nodes|) && c0 <= idx < 2 * c0
    ensures AllWithin(Partial(nodes, cs, c0, c0), |nodes|)
    ensures var P := Partial(nodes, cs, c0, c0);
      && (forall i | 0 <= i < |P[idx]| :: HashIndex(nodes[P[idx][i]].hashVal, 2 * c0) in {idx, idx - c0})
      && P[idx := Keep(nodes, P[idx], 2 * c0, idx)][idx - c0 := Rev(Keep(nodes, P[idx], 2 * c0, idx - c0)) + P[idx - c0]]
         == P
  {
    PartialWithin(nodes, cs, c0, c0);
    var P := Partial(nodes, cs, c0, c0);
    assert P[idx] == Rev(Keep(nodes, cs[idx - c0], 2 * c0, idx));
    RevKeepIndex(nodes, cs[idx - c0], 2 * c0, idx, P[idx]);
    RelinkNothing(nodes, P, 2 * c0, idx, idx - c0);
  }

  /** Every node of the reversed kept part of c belongs to slot b. */
  lemma RevKeepIndex(nodes: seq<Node>, c: seq<nat>, cap: nat, b: nat, r: seq<nat>)
    requires Within(c, |nodes|) && cap > 0 && r == Rev(Keep(nodes, c, cap, b))
    ensures forall i | 0 <= i < |r| :: r[i] < |nodes| && HashIndex(nodes[r[i]].hashVal, cap) == b
  {
    KeepMembers(nodes, c, cap, b);
    RevMembers(Keep(nodes, c, cap, b));
    forall i | 0 <= i < |r| ensures r[i] < |nodes| && HashIndex(nodes[r[i]].hashVal, cap) == b {
      assert r[i] in r;
    }
  }

  /** Relinking a chain whose nodes all belong to its own slot changes nothing. */
  lemma RelinkNothing(nodes: seq<Node>, P: seq<seq<nat>>, cap: nat, idx: nat, T: nat)
    requires AllWithin(P, |nodes|) && cap > 0 && idx < |P| && T < |P| && idx != T
    requires forall i | 0 <= i < |P[idx]| :: HashIndex(nodes[P[idx][i]].hashVal, cap) == idx
    ensures P[idx := Keep(nodes, P[idx], cap, idx)][T := Rev(Keep(nodes, P[idx], cap, T)) + P[T]] == P
  {
    assert Within(P[idx], |nodes|);
    KeepAll(nodes, P[idx], cap, idx);
    KeepNone(nodes, P[idx], cap, T);
    assert Rev([]) + P[T] == P[T];
    assert P[idx := P[idx]][T := P[T]] == P;
  }

  lemma PartialStart(nodes: seq<Node>, cs: seq<seq<nat>>, c0: nat)
    requires c0 > 0 && |cs| == c0 && AllWithin(cs, |nodes|)
    ensures Partial(nodes, cs, c0, 0) == cs + seq(c0, _ => [])
  {
  }

  /** Every node of a chain of the doubled directory hashes to that chain's slot. */
  lemma RehashPlaced(nodes: seq<Node>, cs: seq<seq<nat>>, c0: nat)
    requires c0 > 0 && |cs| == c0 && AllWithin(cs, |nodes|)
    ensures Placed(nodes, Rehash(nodes, cs, c0), 2 * c0)
  {
    var r := Rehash(nodes, cs, c0);
    forall b, i | 0 <= b < |r| && 0 <= i < |r[b]|
      ensures r[b][i] < |nodes| && HashIndex(nodes[r[b][i]].hashVal, 2 * c0) == b
    {
      assert r[b][i] in r[b];
      if b < c0 {
        KeepMembers(nodes, cs[b], 2 * c0, b);
      } else {
        KeepMembers(nodes, cs[b - c0], 2 * c0, b);
        RevMembers(Keep(nodes, cs[b - c0], 2 * c0, b));
      }
      assert r[b][i] in cs[if b < c0 then b else b - c0];
    }
  }

  /** A node is linked after the resize, in the slot its hash selects in the doubled
      directory, exactly when it was linked before in the slot its hash selected then. */
  lemma RehashMembers(nodes: seq<Node>, cs: seq<seq<nat>>, c0: nat, y: nat)
    requires c0 > 0 && |cs| == c0 && AllWithin(cs, |nodes|) && y < |nodes|
    ensures y in Rehash(nodes, cs, c0)[HashIndex(nodes[y].hashVal, 2 * c0)] <==>
            y in cs[HashIndex(nodes[y].hashVal, c0)]
  {
    var h := nodes[y].hashVal;
    var b := HashIndex(h, 2 * c0);
    var b0 := HashIndex(h, c0);
    SplitIndex(h, c0);
    if b < c0 {
      KeepMembers(nodes, cs[b], 2 * c0, b);
    } else {
      KeepMembers(nodes, cs[b - c0], 2 * c0, b);
      RevMembers(Keep(nodes, cs[b - c0], 2 * c0, b));
    }
  }

  lemma {:induction false} TotalPairs(xs: seq<seq<nat>>, ys: seq<seq<nat>>, zs: seq<seq<nat>>)
    requires |xs| == |ys| == |zs|
    requires forall b | 0 <= b < |zs| :: |xs[b]| + |ys[b]| == |zs[b]|
    ensures Total(xs) + Total(ys) == Total(zs)
    decreases |zs|
  {
    if zs != [] {
      var n := |zs| - 1;
      TotalPairs(xs[..n], ys[..n], zs[..n]);
    }
  }

  /** The two halves of a split old slot hold as many nodes as the slot did. */
  lemma SlotSplit(nodes: seq<Node>, c: seq<nat>, c0: nat, b: nat)
    requires c0 > 0 && Within(c, |nodes|)
    requires forall i | 0 <= i < |c| :: HashIndex(nodes[c[i]].hashVal, c0) == b
    ensures |Keep(nodes, c, 2 * c0, b)| + |Rev(Keep(nodes, c, 2 * c0, b + c0))| == |c|
  {
    forall i | 0 <= i < |c| ensures HashIndex(nodes[c[i]].hashVal, 2 * c0) in {b, b + c0} {
      SplitIndex(nodes[c[i]].hashVal, c0);
    }
    KeepSplit(nodes, c, 2 * c0, b, b + c0);
    RevMembers(Keep(nodes, c, 2 * c0, b + c0));
  }

  /** Each old slot is split between its own slot and its partner c0 slots further on. */
  lemma RehashHalves(nodes: seq<Node>, cs: seq<seq<nat>>, c0: nat)
    requires c0 > 0 && |cs| == c0 && AllWithin(cs, |nodes|) && Placed(nodes, cs, c0)
    ensures var r := Rehash(nodes, cs, c0);
      forall b | 0 <= b < c0 :: |r[b]| + |r[b + c0]| == |cs[b]|
  {
    var r := Rehash(nodes, cs, c0);
    forall b | 0 <= b < c0 ensures |r[b]| + |r[b + c0]| == |cs[b]| {
      SlotSplit(nodes, cs[b], c0, b);
    }
  }

  lemma TotalHalves(r: seq<seq<nat>>, cs: seq<seq<nat>>, c0: nat)
    requires |r| == 2 * c0 && |cs| == c0
    requires forall b | 0 <= b < c0 :: |r[b]| + |r[b + c0]| == |cs[b]|
    ensures Total(r) == Total(cs)
  {
    var lo := r[..c0];
    var hi := r[c0..];
    assert r == lo + hi;
    TotalAppend(lo, hi);
    assert forall b | 0 <= b < c0 :: hi[b] == r[b + c0];
    TotalPairs(lo, hi, cs);
  }

  /** When every node sits in the slot its hash selects, the resize links as many nodes as
      before. */
  lemma RehashTotal(nodes: seq<Node>, cs: seq<seq<nat>>, c0: nat)
    requires c0 > 0 && |cs| == c0 && AllWithin(cs, |nodes|) && Placed(nodes, cs, c0)
    ensures Total(Rehash(nodes, cs, c0)) == Total(cs)
  {
    RehashHalves(nodes, cs, c0);
    TotalHalves(Rehash(nodes, cs, c0), cs, c0);
  }

  /** The resize plan depends only on the cached hashes of the linked nodes. */
  lemma RehashFrame(nodes: seq<Node>, nodes': seq<Node>, cs: seq<seq<nat>>, c0: nat)
    requires c0 > 0 && |cs| == c0 && AllWithin(cs, |nodes|) && AllWithin(cs, |nodes'|)
    requires forall a | 0 <= a < |nodes| && a < |nodes'| :: nodes'[a].hashVal == nodes[a].hashVal
    ensures Rehash(nodes', cs, c0) == Rehash(nodes, cs, c0)
  {
    forall b | 0 <= b < c0 ensures Keep(nodes', cs[b], 2 * c0, b) == Keep(nodes, cs[b], 2 * c0, b)
                              && Keep(nodes', cs[b], 2 * c0, b + c0) == Keep(nodes, cs[b], 2 * c0, b + c0)
    {
      KeepFrame(nodes, nodes', cs[b], 2 * c0, b);
      KeepFrame(nodes, nodes', cs[b], 2 * c0, b + c0);
    }
  }

  // ---------------------------------------------------------------------------
  // One live node per key

  /** At most one node of chain c has the key and is live. */
  ghost predicate OneLive(nodes: seq<Node>, c: seq<nat>, key: Bytes)
    requires Within(c, |nodes|)
  {
    forall i, j | 0 <= i < |c| && 0 <= j < |c| && Matches(nodes[c[i]], key) && Matches(nodes[c[j]], key) :: i == j
  }

  /** A lookup survives the resize when the key has one live node: that node moves to the
      slot the doubled directory selects, and no other node there has the key and is live.
      hv is the hash of the key, which every node with the key caches. */
  lemma RehashKeepsLookup(nodes: seq<Node>, cs: seq<seq<nat>>, c0: nat, key: Bytes, hv: u32)
    requires c0 > 0 && |cs| == c0 && AllWithin(cs, |nodes|)
    requires forall a | 0 <= a < |nodes| && KeyEquals(nodes[a], key) :: nodes[a].hashVal == hv
    requires OneLive(nodes, cs[HashIndex(hv, c0)], key)
    ensures var r := Rehash(nodes, cs, c0);
      var c := cs[HashIndex(hv, c0)];
      var d := r[HashIndex(hv, 2 * c0)];
      Within(d, |nodes|) && PtrTo(d, FirstMatch(nodes, d, key)) == PtrTo(c, FirstMatch(nodes, c, key))
  {
    var r := Rehash(nodes, cs, c0);
    var c := cs[HashIndex(hv, c0)];
    var d := r[HashIndex(hv, 2 * c0)];
    PartialWithin(nodes, cs, c0, c0);
    assert Within(d, |nodes|);
    var m := FirstMatch(nodes, c, key);
    var m' := FirstMatch(nodes, d, key);
    if m < |c| {
      RehashMembers(nodes, cs, c0, c[m]);
      assert c[m] in d;
    }
    if m' < |d| {
      RehashMembers(nodes, cs, c0, d[m']);
      assert d[m'] in c;
      var i :| 0 <= i < |c| && c[i] == d[m'];
      assert m == i;
    }
  }
}
