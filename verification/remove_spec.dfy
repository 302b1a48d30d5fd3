/** What the removal scan of taosHashRemoveWithData does to one bucket chain. */
module RemoveSpec {
  import opened HashTypes
  import opened Chains

  /** The node heap afterwards, the nodes left linked (in chain order), whether a match
      was found, and the caller's buffer after the copies. */
  datatype Removal = Removal(nodes: seq<Node>, kept: seq<nat>, found: bool, buf: Option<Bytes>)

  /** A match after the scan has visited it: one reference fewer, and removed. */
  function Marked(n: Node): Node
  {
    n.(refCount := Dec16(n.refCount), removed := true)
  }

  /** The scan walks the whole chain. Every node with the key that is not removed loses
      one reference and is marked removed; it is unlinked, after its value is copied into
      the caller's buffer (dsize bytes, at most the value's length), when its reference
      count drops to 0; otherwise it stays linked. This is the loop as intended: the code's
      loop ends with the first node it frees (Finding B). */
  function RemoveScan(nodes: seq<Node>, c: seq<nat>, key: Bytes, buf: Option<Bytes>, dsize: nat): (r: Removal)
    requires Within(c, |nodes|)
    ensures |r.nodes| == |nodes|
    decreases |c|
  {
    if c == [] then Removal(nodes, [], false, buf)
    else
      var x := c[0];
      if Matches(nodes[x], key) then
        var n := Marked(nodes[x]);
        var buf1 := if n.refCount == 0 && buf.Some? then
                      Some(CopyInto(buf.value, n.data, Min(dsize, |n.data|)))
                    else buf;
        var r := RemoveScan(nodes[x := n], c[1..], key, buf1, dsize);
        Removal(r.nodes, if n.refCount == 0 then r.kept else [x] + r.kept, true, r.buf)
      else
        var r := RemoveScan(nodes, c[1..], key, buf, dsize);
        Removal(r.nodes, [x] + r.kept, r.found, r.buf)
  }

  /** Whether the scan unlinks node y of the chain: it matches and its last reference goes. */
  ghost predicate Unlinks(nodes: seq<Node>, key: Bytes, y: nat)
    requires y < |nodes|
  {
    Matches(nodes[y], key) && Dec16(nodes[y].refCount) == 0
  }

  lemma NoDupTail(c: seq<nat>)
    requires NoDup(c) && c != []
    ensures NoDup(c[1..]) && c[0] !in c[1..]
  {
  }

  /** The matches of the chain, and only they, are marked; every other node is untouched. */
  lemma {:induction false} RemoveScanNodes(nodes: seq<Node>, c: seq<nat>, key: Bytes, buf: Option<Bytes>, dsize: nat)
    requires Within(c, |nodes|) && NoDup(c)
    ensures var r := RemoveScan(nodes, c, key, buf, dsize);
      forall a | 0 <= a < |nodes| ::
        r.nodes[a] == if a in c && Matches(nodes[a], key) then Marked(nodes[a]) else nodes[a]
    decreases |c|
  {
    if c != [] {
      var x := c[0];
      NoDupTail(c);
      if Matches(nodes[x], key) {
        var n := Marked(nodes[x]);
        var buf1 := if n.refCount == 0 && buf.Some? then
                      Some(CopyInto(buf.value, n.data, Min(dsize, |n.data|)))
                    else buf;
        RemoveScanNodes(nodes[x := n], c[1..], key, buf1, dsize);
      } else {
        RemoveScanNodes(nodes, c[1..], key, buf, dsize);
      }
    }
  }

  /** The nodes left linked are those of the chain that the scan does not unlink, each once. */
  lemma {:induction false} RemoveScanKept(nodes: seq<Node>, c: seq<nat>, key: Bytes, buf: Option<Bytes>, dsize: nat)
    requires Within(c, |nodes|) && NoDup(c)
    ensures var r := RemoveScan(nodes, c, key, buf, dsize);
      && NoDup(r.kept)
      && (forall y | y in r.kept :: y in c)
      && (forall y | y in c :: y in r.kept <==> !Unlinks(nodes, key, y))
    decreases |c|
  {
    if c != [] {
      var x := c[0];
      NoDupTail(c);
      var r := RemoveScan(nodes, c, key, buf, dsize);
      if Matches(nodes[x], key) {
        var n := Marked(nodes[x]);
        var buf1 := if n.refCount == 0 && buf.Some? then
                      Some(CopyInto(buf.value, n.data, Min(dsize, |n.data|)))
                    else buf;
        var nodes1 := nodes[x := n];
        RemoveScanKept(nodes1, c[1..], key, buf1, dsize);
        var r1 := RemoveScan(nodes1, c[1..], key, buf1, dsize);
        assert forall y | y in c[1..] :: nodes1[y] == nodes[y];
        if n.refCount != 0 {
          NoDupPush(r1.kept, x);
        }
      } else {
        RemoveScanKept(nodes, c[1..], key, buf, dsize);
        var r1 := RemoveScan(nodes, c[1..], key, buf, dsize);
        NoDupPush(r1.kept, x);
      }
    }
  }

  /** The result code: found exactly when the chain holds a node with the key that is not
      removed. */
  lemma {:induction false} RemoveScanFound(nodes: seq<Node>, c: seq<nat>, key: Bytes, buf: Option<Bytes>, dsize: nat)
    requires Within(c, |nodes|)
    ensures RemoveScan(nodes, c, key, buf, dsize).found <==> FirstMatch(nodes, c, key) < |c|
    decreases |c|
  {
    if c != [] && !Matches(nodes[c[0]], key) {
      RemoveScanFound(nodes, c[1..], key, buf, dsize);
    }
  }

  /** After the scan no node left in the chain has the key without being removed: a
      lookup of the key in this chain finds nothing. */
  lemma RemoveScanClears(nodes: seq<Node>, c: seq<nat>, key: Bytes, buf: Option<Bytes>, dsize: nat)
    requires Within(c, |nodes|) && NoDup(c)
    ensures var r := RemoveScan(nodes, c, key, buf, dsize);
      Within(r.kept, |r.nodes|) && FirstMatch(r.nodes, r.kept, key) == |r.kept|
  {
    var r := RemoveScan(nodes, c, key, buf, dsize);
    RemoveScanNodes(nodes, c, key, buf, dsize);
    RemoveScanKept(nodes, c, key, buf, dsize);
    forall j | 0 <= j < |r.kept| ensures r.kept[j] < |r.nodes| && !Matches(r.nodes[r.kept[j]], key) {
      assert r.kept[j] in r.kept;
    }
  }

  /** A lookup of any other key finds the same node before and after the scan. */
  lemma RemoveScanOtherKey(nodes: seq<Node>, c: seq<nat>, key: Bytes, key2: Bytes, buf: Option<Bytes>, dsize: nat)
    requires Within(c, |nodes|) && NoDup(c) && key2 != key
    ensures var r := RemoveScan(nodes, c, key, buf, dsize);
      Within(r.kept, |r.nodes|) &&
      PtrTo(r.kept, FirstMatch(r.nodes, r.kept, key2)) == PtrTo(c, FirstMatch(nodes, c, key2))
  {
    var r := RemoveScan(nodes, c, key, buf, dsize);
    RemoveScanNodes(nodes, c, key, buf, dsize);
    RemoveScanKept(nodes, c, key, buf, dsize);
    RemoveScanKeptOrder(nodes, c, key, buf, dsize);
    assert Within(r.kept, |r.nodes|) by {
      forall j | 0 <= j < |r.kept| ensures r.kept[j] < |r.nodes| { assert r.kept[j] in r.kept; }
    }
    // whether a node matches key2 is the same before and after
    forall y | y in c ensures y < |nodes| && (Matches(r.nodes[y], key2) <==> Matches(nodes[y], key2)) {
    }
    var k := FirstMatch(nodes, c, key2);
    var k2 := FirstMatch(r.nodes, r.kept, key2);
    FirstMatchOfSubseq(nodes, r.nodes, c, r.kept, key, key2);
  }

  /** The nodes left linked keep their chain order: kept is c with the unlinked nodes
      taken out. */
  lemma {:induction false} RemoveScanKeptOrder(nodes: seq<Node>, c: seq<nat>, key: Bytes, buf: Option<Bytes>, dsize: nat)
    requires Within(c, |nodes|) && NoDup(c)
    ensures RemoveScan(nodes, c, key, buf, dsize).kept == Without(nodes, c, key)
    decreases |c|
  {
    if c != [] {
      var x := c[0];
      NoDupTail(c);
      if Matches(nodes[x], key) {
        var n := Marked(nodes[x]);
        var buf1 := if n.refCount == 0 && buf.Some? then
                      Some(CopyInto(buf.value, n.data, Min(dsize, |n.data|)))
                    else buf;
        var nodes1 := nodes[x := n];
        RemoveScanKeptOrder(nodes1, c[1..], key, buf1, dsize);
        WithoutFrame(nodes, nodes1, c[1..], key);
      } else {
        RemoveScanKeptOrder(nodes, c[1..], key, buf, dsize);
      }
    }
  }

  /** c with the nodes the scan unlinks taken out, in order. */
  ghost function Without(nodes: seq<Node>, c: seq<nat>, key: Bytes): seq<nat>
    requires Within(c, |nodes|)
    decreases |c|
  {
    if c == [] then []
    else if Unlinks(nodes, key, c[0]) then Without(nodes, c[1..], key)
    else [c[0]] + Without(nodes, c[1..], key)
  }

  lemma {:induction false} WithoutFrame(nodes: seq<Node>, nodes': seq<Node>, c: seq<nat>, key: Bytes)
    requires Within(c, |nodes|) && |nodes'| == |nodes|
    requires forall y | y in c :: nodes'[y] == nodes[y]
    ensures Without(nodes, c, key) == Without(nodes', c, key)
    decreases |c|
  {
    if c != [] {
      assert c[0] in c;
      WithoutFrame(nodes, nodes', c[1..], key);
    }
  }

  /** Taking out nodes with the key does not move the first match of another key. */
  lemma {:induction false} FirstMatchOfSubseq(nodes: seq<Node>, nodes': seq<Node>, c: seq<nat>, kept: seq<nat>, key: Bytes, key2: Bytes)
    requires Within(c, |nodes|) && |nodes'| == |nodes| && key2 != key
    requires kept == Without(nodes, c, key)
    requires forall y | y in c :: Matches(nodes'[y], key2) <==> Matches(nodes[y], key2)
    ensures Within(kept, |nodes'|)
    ensures PtrTo(kept, FirstMatch(nodes', kept, key2)) == PtrTo(c, FirstMatch(nodes, c, key2))
    decreases |c|
  {
    if c != [] {
      assert c[0] in c;
      FirstMatchOfSubseq(nodes, nodes', c[1..], Without(nodes, c[1..], key), key, key2);
    }
  }

  /** The scan's result on a chain that starts with the nodes kept and the found flag of a
      part already scanned, followed by the rest r was computed on. */
  function Combine(kept: seq<nat>, found: bool, r: Removal): (r': Removal)
    ensures r'.nodes == r.nodes && r'.buf == r.buf
    ensures r'.kept == kept + r.kept && r'.found == (found || r.found)
  {
    Removal(r.nodes, kept + r.kept, found || r.found, r.buf)
  }

  lemma CombineCombine(kept: seq<nat>, found: bool, kept2: seq<nat>, found2: bool, r: Removal)
    ensures Combine(kept, found, Combine(kept2, found2, r)) == Combine(kept + kept2, found || found2, r)
  {
    assert kept + (kept2 + r.kept) == (kept + kept2) + r.kept;
  }

  /** One node of the scan. A node that does not match is kept; a match is marked, and
      then unlinked (its value copied) when its reference count reaches 0, or otherwise
      visited once more, now as a removed node. */
  lemma {:induction false} RemoveScanStep(nodes: seq<Node>, s: seq<nat>, key: Bytes, buf: Option<Bytes>, dsize: nat)
    requires Within(s, |nodes|) && s != []
    ensures Within(s[1..], |nodes|)
    ensures var x := s[0];
      var n := Marked(nodes[x]);
      var r := RemoveScan(nodes, s, key, buf, dsize);
      && (!Matches(nodes[x], key) ==> r == Combine([x], false, RemoveScan(nodes, s[1..], key, buf, dsize)))
      && (Matches(nodes[x], key) && n.refCount == 0 ==>
            var buf1 := if buf.Some? then Some(CopyInto(buf.value, n.data, Min(dsize, |n.data|))) else buf;
            r == Combine([], true, RemoveScan(nodes[x := n], s[1..], key, buf1, dsize)))
      && (Matches(nodes[x], key) && n.refCount != 0 ==>
            r == Combine([], true, RemoveScan(nodes[x := n], s, key, buf, dsize)))
  {
    var x := s[0];
    var n := Marked(nodes[x]);
    assert Within(s[1..], |nodes|) by {
      forall i | 0 <= i < |s[1..]| ensures s[1..][i] < |nodes| {
        assert s[1..][i] == s[i + 1];
      }
    }
    if Matches(nodes[x], key) && n.refCount != 0 {
      var nodes1 := nodes[x := n];
      assert !Matches(nodes1[x], key);
      var r1 := RemoveScan(nodes1, s[1..], key, buf, dsize);
      assert RemoveScan(nodes1, s, key, buf, dsize) == Removal(r1.nodes, [x] + r1.kept, r1.found, r1.buf);
    }
  }

  /** The goal of the scan after one more node that does not match: it joins the kept ones. */
  lemma GoalSkip(nodes: seq<Node>, c: seq<nat>, k: nat, kept: seq<nat>, found: bool, buf: Option<Bytes>,
                 key: Bytes, dsize: nat, goal: Removal)
    requires k < |c| && Within(c[k..], |nodes|) && !Matches(nodes[c[k]], key)
    requires goal == Combine(kept, found, RemoveScan(nodes, c[k..], key, buf, dsize))
    ensures Within(c[k + 1..], |nodes|)
    ensures goal == Combine(kept + [c[k]], found, RemoveScan(nodes, c[k + 1..], key, buf, dsize))
  {
    RemoveScanStep(nodes, c[k..], key, buf, dsize);
    assert c[k..][1..] == c[k + 1..];
    CombineCombine(kept, found, [c[k]], false, RemoveScan(nodes, c[k + 1..], key, buf, dsize));
  }

  /** The goal after a match whose last reference goes: it is marked and left out of the
      kept ones, and the buffer receives its value. */
  lemma GoalDrop(nodes: seq<Node>, c: seq<nat>, k: nat, kept: seq<nat>, found: bool, buf: Option<Bytes>,
                 key: Bytes, dsize: nat, goal: Removal)
    requires k < |c| && Within(c[k..], |nodes|) && Matches(nodes[c[k]], key)
    requires Marked(nodes[c[k]]).refCount == 0
    requires goal == Combine(kept, found, RemoveScan(nodes, c[k..], key, buf, dsize))
    ensures Within(c[k + 1..], |nodes|)
    ensures var n := Marked(nodes[c[k]]);
      var buf1 := if buf.Some? then Some(CopyInto(buf.value, n.data, Min(dsize, |n.data|))) else buf;
      goal == Combine(kept, true, RemoveScan(nodes[c[k] := n], c[k + 1..], key, buf1, dsize))
  {
    var n := Marked(nodes[c[k]]);
    var buf1 := if buf.Some? then Some(CopyInto(buf.value, n.data, Min(dsize, |n.data|))) else buf;
    RemoveScanStep(nodes, c[k..], key, buf, dsize);
    assert c[k..][1..] == c[k + 1..];
    CombineCombine(kept, found, [], true, RemoveScan(nodes[c[k] := n], c[k + 1..], key, buf1, dsize));
    assert kept + [] == kept;
  }

  /** The goal after a match that keeps references: it is marked, and the scan is to look
      at it again. */
  lemma GoalMark(nodes: seq<Node>, c: seq<nat>, k: nat, kept: seq<nat>, found: bool, buf: Option<Bytes>,
                 key: Bytes, dsize: nat, goal: Removal)
    requires k < |c| && Within(c[k..], |nodes|) && Matches(nodes[c[k]], key)
    requires Marked(nodes[c[k]]).refCount != 0
    requires goal == Combine(kept, found, RemoveScan(nodes, c[k..], key, buf, dsize))
    ensures goal == Combine(kept, true, RemoveScan(nodes[c[k] := Marked(nodes[c[k]])], c[k..], key, buf, dsize))
  {
    var n := Marked(nodes[c[k]]);
    RemoveScanStep(nodes, c[k..], key, buf, dsize);
    CombineCombine(kept, found, [], true, RemoveScan(nodes[c[k] := n], c[k..], key, buf, dsize));
    assert kept + [] == kept;
  }

  /** The goal once the whole chain is scanned. */
  lemma RemoveEnd(nodes: seq<Node>, c: seq<nat>, k: nat, kept: seq<nat>, found: bool, buf: Option<Bytes>,
                  key: Bytes, dsize: nat, goal: Removal)
    requires k == |c| && Within(c[k..], |nodes|)
    requires goal == Combine(kept, found, RemoveScan(nodes, c[k..], key, buf, dsize))
    ensures goal == Removal(nodes, kept, found, buf)
  {
    assert c[k..] == [] && kept + [] == kept;
  }
}
