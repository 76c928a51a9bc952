/**
 The merge pass on any list, not only stack-like ones: it keeps the tiling, and it loses exactly
 the blocks in use that stand behind a free block it reaches.
 */
module HeapMerge {
  import opened Words
  import opened HeapList

  lemma TiledTail(nodes: seq<Node>, base: nat, end: nat, k: nat)
    requires Tiled(nodes, base, end) && k < |nodes|
    ensures Tiled(nodes[k..], nodes[k].addr, end)
  {
    var tail := nodes[k..];
    assert forall j :: 0 <= j < |tail| ==> tail[j] == nodes[k + j];
    forall j | 0 <= j < |tail| - 1
      ensures tail[j + 1].addr == tail[j].addr + HEADER + tail[j].size
    {
      assert nodes[(k + j) + 1].addr == nodes[k + j].addr + HEADER + nodes[k + j].size;
    }
  }

  lemma TiledCons(n: Node, rest: seq<Node>, end: nat)
    requires Tiled(rest, n.addr + HEADER + n.size, end)
    ensures Tiled([n] + rest, n.addr, end)
  {
    var all := [n] + rest;
    assert all[|all| - 1] == rest[|rest| - 1];
    forall k | 0 <= k < |all| - 1
      ensures all[k + 1].addr == all[k].addr + HEADER + all[k].size
    {
      assert all[k + 1] == rest[k];
      if k > 0 {
        assert all[k] == rest[k - 1] && rest[(k - 1) + 1].addr == rest[k - 1].addr + HEADER + rest[k - 1].size;
      }
    }
  }

  lemma MergeUnfolds(nodes: seq<Node>)
    requires |nodes| > 1
    ensures !nodes[0].free ==> Merge(nodes) == [nodes[0]] + Merge(nodes[1..])
    ensures nodes[0].free ==> Merge(nodes) == [nodes[0].(size := Wrap(nodes[0].size + nodes[1].size + HEADER))] + Merge(nodes[2..])
  {
  }

  lemma MergeOfPair(a: Node, b: Node)
    requires a.free
    ensures Merge([a, b]) == [a.(size := Wrap(a.size + b.size + HEADER))]
  {
  }

  /** The merge pass keeps any tiling, the free last block and at least the head's size. */
  lemma {:induction false} MergeTiles(nodes: seq<Node>, base: nat, end: nat)
    requires Tiled(nodes, base, end) && nodes[|nodes| - 1].free
    ensures var after := Merge(nodes); 
            Tiled(after, base, end) && after[|after| - 1].free && after[0].size >= nodes[0].size
    decreases |nodes|
  {
    hide Merge, Tiled;
    TiledNonempty(nodes, base, end);
    if |nodes| == 1 {
      MergeOfOne(nodes);
    } else {
      MergeUnfolds(nodes);
      var k := if nodes[0].free then 2 else 1;
      var head := if nodes[0].free then nodes[0].(size := nodes[0].size + nodes[1].size + HEADER) else nodes[0];
      HeadFits(nodes, base, end);
      if |nodes| == 2 && nodes[0].free {
        assert nodes == [nodes[0], nodes[1]];
        MergeOfPair(nodes[0], nodes[1]);
        OneTiles(head, end);
      } else {
        TiledTail(nodes, base, end, k);
        MergeTiles(nodes[k..], nodes[k].addr, end);
        TiledCons(head, Merge(nodes[k..]), end);
        TiledNonempty(Merge(nodes[k..]), nodes[k].addr, end);
      }
    }
  }

  lemma MergeOfOne(nodes: seq<Node>)
    requires |nodes| == 1
    ensures Merge(nodes) == nodes
  {
  }

  lemma OneTiles(n: Node, end: nat)
    requires n.addr + HEADER + n.size == end && end <= WORD_SPAN
    ensures Tiled([n], n.addr, end)
  {
  }

  lemma TiledNonempty(nodes: seq<Node>, base: nat, end: nat)
    requires Tiled(nodes, base, end)
    ensures |nodes| > 0 && nodes[0].addr == base
  {
  }

  /** Where the first two blocks end. */
  lemma HeadFits(nodes: seq<Node>, base: nat, end: nat)
    requires Tiled(nodes, base, end) && |nodes| > 1
    ensures nodes[0].addr == base && end <= WORD_SPAN && nodes[0].size + nodes[1].size + HEADER < WORD_SPAN
    ensures nodes[0].addr + HEADER + nodes[0].size == nodes[1].addr
    ensures |nodes| == 2 ==> nodes[1].addr + HEADER + nodes[1].size == end
    ensures |nodes| > 2 ==> nodes[1].addr + HEADER + nodes[1].size == nodes[2].addr
  {
    TiledBounds(nodes, base, end, 1);
    assert nodes[0 + 1].addr == nodes[0].addr + HEADER + nodes[0].size;
    if |nodes| > 2 {
      assert nodes[1 + 1].addr == nodes[1].addr + HEADER + nodes[1].size;
    }
  }

  /** The blocks in use that the pass absorbs: each stands right behind a free block it reaches. */
  function Absorbed(nodes: seq<Node>): set<(nat, nat)>
    decreases |nodes|
  {
    if |nodes| <= 1 then {}
    else if nodes[0].free then LiveOne(nodes[1]) + Absorbed(nodes[2..])
    else Absorbed(nodes[1..])
  }

  /** The blocks in use after the pass are those before it that it did not absorb. */
  lemma {:induction false} MergeLoses(nodes: seq<Node>, base: nat, end: nat)
    requires Tiled(nodes, base, end)
    ensures Absorbed(nodes) <= Live(nodes)
    ensures Live(Merge(nodes)) == Live(nodes) - Absorbed(nodes)
    decreases |nodes|
  {
    hide Merge, Live, Tiled;
    if |nodes| <= 1 {
      MergeOfOne(nodes) by { TiledNonempty(nodes, base, end); }
    } else {
      MergeUnfolds(nodes);
      HeadLive(nodes);
      OwnBlock(nodes, base, end, 0);
      OwnBlock(nodes, base, end, 1);
      if !nodes[0].free {
        TiledTail(nodes, base, end, 1);
        MergeLoses(nodes[1..], nodes[1].addr, end);
        LiveConcat([nodes[0]], Merge(nodes[1..]));
      } else {
        var head := nodes[0].(size := Wrap(nodes[0].size + nodes[1].size + HEADER));
        if |nodes| > 2 {
          TiledTail(nodes, base, end, 2);
          MergeLoses(nodes[2..], nodes[2].addr, end);
        } else {
          NothingLive(nodes[2..]);
        }
        LiveSingle(head);
        LiveConcat([head], Merge(nodes[2..]));
      }
    }
  }

  lemma NothingLive(nodes: seq<Node>)
    requires nodes == []
    ensures Live(nodes) == {} && Merge(nodes) == [] && Absorbed(nodes) == {}
  {
  }

  lemma HeadLive(nodes: seq<Node>)
    requires |nodes| > 1
    ensures Live(nodes) == LiveOne(nodes[0]) + Live(nodes[1..])
    ensures Live(nodes[1..]) == LiveOne(nodes[1]) + Live(nodes[2..])
    ensures Live([nodes[0]]) == LiveOne(nodes[0])
  {
    assert nodes == [nodes[0]] + nodes[1..] && nodes[1..] == [nodes[1]] + nodes[2..];
    LiveConcat([nodes[0]], nodes[1..]);
    LiveConcat([nodes[1]], nodes[2..]);
    LiveSingle(nodes[0]);
    LiveSingle(nodes[1]);
  }

  /** A block is none of the blocks in use behind it. */
  lemma OwnBlock(nodes: seq<Node>, base: nat, end: nat, k: nat)
    requires Tiled(nodes, base, end) && k < |nodes|
    ensures LiveOne(nodes[k]) !! Live(nodes[k + 1..])
  {
    BlocksDisjoint(nodes, base, end);
  }

  /** The pass leaves the blocks in use alone exactly when it absorbs none of them. */
  lemma MergeSparesUsed(nodes: seq<Node>, base: nat, end: nat)
    requires Tiled(nodes, base, end)
    ensures Live(Merge(nodes)) == Live(nodes) <==> Absorbed(nodes) == {}
  {
    hide Merge, Live, Tiled, Absorbed;
    MergeLoses(nodes, base, end);
    if Live(Merge(nodes)) == Live(nodes) {
      assert Absorbed(nodes) !! Live(nodes);
      assert Absorbed(nodes) == {};
    }
  }

  /** The blocks the pass keeps as blocks: all but those right behind a free block it keeps. */
  predicate Kept(nodes: seq<Node>, k: nat)
    requires k < |nodes|
  {
    k == 0 || !(nodes[k - 1].free && Kept(nodes, k - 1))
  }

  lemma {:induction false} KeptBehind(nodes: seq<Node>, m: nat, k: nat)
    requires m + k < |nodes| && Kept(nodes, m)
    ensures Kept(nodes[m..], k) == Kept(nodes, m + k)
  {
    if k > 0 {
      KeptBehind(nodes, m, k - 1);
    }
  }

  predicate SameBlock(a: Node, b: Node) {
    a.addr == b.addr && a.free == b.free
  }

  /** `n` is one of the blocks kept, but for its size. */
  ghost predicate WasKept(nodes: seq<Node>, n: Node) {
    exists k :: 0 <= k < |nodes| && Kept(nodes, k) && SameBlock(n, nodes[k])
  }

  /** Every block kept is a block after the pass, at its address and with its free flag. */
  lemma {:induction false} KeptIsThere(nodes: seq<Node>, k: nat) returns (j: nat)
    requires k < |nodes| && Kept(nodes, k)
    ensures j < |Merge(nodes)| && SameBlock(Merge(nodes)[j], nodes[k])
    decreases |nodes|
  {
    hide Merge;
    if |nodes| == 1 {
      MergeOfOne(nodes);
      j := 0;
    } else {
      MergeUnfolds(nodes);
      if k == 0 {
        j := 0;
      } else {
        var m := if nodes[0].free then 2 else 1;
        KeptBehind(nodes, m, k - m);
        var i := KeptIsThere(nodes[m..], k - m);
        j := i + 1;
      }
    }
  }

  /** And there are no others. */
  lemma {:induction false} ThereIsKept(nodes: seq<Node>, j: nat) returns (k: nat)
    requires j < |Merge(nodes)|
    ensures k < |nodes| && Kept(nodes, k) && SameBlock(Merge(nodes)[j], nodes[k])
    decreases |nodes|
  {
    hide Merge;
    if |nodes| == 0 {
      NothingLive(nodes);
      assert false;
    } else if |nodes| == 1 {
      MergeOfOne(nodes);
      k := 0;
    } else {
      MergeUnfolds(nodes);
      if j == 0 {
        k := 0;
      } else {
        var m := if nodes[0].free then 2 else 1;
        var i := ThereIsKept(nodes[m..], j - 1);
        MoreLeft(nodes, m);
        KeptBehind(nodes, m, i);
        k := m + i;
      }
    }
  }

  lemma MoreLeft(nodes: seq<Node>, m: nat)
    requires |nodes| > 1 && m == (if nodes[0].free then 2 else 1)
    ensures m < |nodes| ==> Kept(nodes, m)
  {
    if m == 2 && m < |nodes| {
      assert !Kept(nodes, 1);
    }
  }

  /**
   The blocks after the merge pass, on every list: exactly those at the addresses of the blocks
   it keeps, with their free flags. On a tiled list the tiling then fixes their sizes.
   */
  lemma MergeBlocks(nodes: seq<Node>)
    ensures forall k :: 0 <= k < |nodes| && Kept(nodes, k) ==> exists j :: 0 <= j < |Merge(nodes)| && SameBlock(Merge(nodes)[j], nodes[k])
    ensures forall j :: 0 <= j < |Merge(nodes)| ==> WasKept(nodes, Merge(nodes)[j])
  {
    hide Merge, Kept, SameBlock;
    forall k | 0 <= k < |nodes| && Kept(nodes, k)
      ensures exists j :: 0 <= j < |Merge(nodes)| && SameBlock(Merge(nodes)[j], nodes[k])
    {
      var j := KeptIsThere(nodes, k);
    }
    forall j | 0 <= j < |Merge(nodes)|
      ensures WasKept(nodes, Merge(nodes)[j])
    {
      var k := ThereIsKept(nodes, j);
    }
  }

  // ---- the operations at any address of the heap

  lemma MergeFromSound(head: nat, nodes: seq<Node>, base: nat, end: nat)
    requires Sound(nodes, base, end)
    ensures Sound(MergeFrom(head, nodes), base, end)
  {
    hide Merge, Tiled;
    MergeTiles(nodes, base, end) by { TiledNonempty(nodes, base, end); }
  }

  /** A release, of any pointer and from any list head, leaves a sound list. */
  lemma ReleaseSound(head: nat, nodes: seq<Node>, base: nat, end: nat, ptr: nat)
    requires Sound(nodes, base, end)
    ensures Sound(Release(head, nodes, ptr), base, end)
  {
    hide MergeFrom, Merge;
    var i := FindFreed(nodes, ptr, 0);
    if i < |nodes| - 1 {
      MergeFromSound(head, nodes[i := nodes[i].(free := true)], base, end);
    }
  }

  /** A pointer that is no block's but the last one's changes nothing. */
  lemma ReleaseOfNone(head: nat, nodes: seq<Node>, ptr: nat)
    requires |nodes| > 0 && forall k :: 0 <= k < |nodes| - 1 ==> nodes[k].addr + 12 != ptr
    ensures Release(head, nodes, ptr) == nodes
  {
  }

  /** What the merge pass of a call takes from the blocks in use. */
  function Lost(head: nat, nodes: seq<Node>): set<(nat, nat)> {
    if head == 0 then {} else Absorbed(nodes)
  }

  /** The list right before the merge pass of malloc_free. */
  function Marked(nodes: seq<Node>, ptr: nat): seq<Node>
    requires |nodes| > 0
  {
    var i := FindFreed(nodes, ptr, 0);
    if i == |nodes| - 1 then nodes else nodes[i := nodes[i].(free := true)]
  }

  /**
   A release frees the block at its pointer and loses what the merge pass absorbs; a pointer to
   no block, or to the last one, changes nothing.
   */
  lemma ReleaseLoses(head: nat, nodes: seq<Node>, base: nat, end: nat, ptr: nat)
    requires Sound(nodes, base, end)
    ensures Live(Release(head, nodes, ptr))
            == (set b <- Live(nodes) | b.0 != ptr) - (if FindFreed(nodes, ptr, 0) == |nodes| - 1 then {} else Lost(head, Marked(nodes, ptr)))
  {
    hide Merge, Absorbed, Live;
    MarkedLive(nodes, base, end, ptr);
    if FindFreed(nodes, ptr, 0) < |nodes| - 1 && head != 0 {
      MergeLoses(Marked(nodes, ptr), base, end);
    }
  }

  /** Away from address 0 a release spares the other blocks in use exactly when the pass absorbs none. */
  lemma ReleaseSpares(head: nat, nodes: seq<Node>, base: nat, end: nat, ptr: nat)
    requires Sound(nodes, base, end) && head != 0 && FindFreed(nodes, ptr, 0) < |nodes| - 1
    ensures Live(Release(head, nodes, ptr)) == (set b <- Live(nodes) | b.0 != ptr) <==> Absorbed(Marked(nodes, ptr)) == {}
  {
    hide Merge, Absorbed, Live, Release, Sound;
    ReleaseLoses(head, nodes, base, end, ptr);
    MarkedLive(nodes, base, end, ptr);
    MergeLoses(Marked(nodes, ptr), base, end);
    var kept := set b <- Live(nodes) | b.0 != ptr;
    if kept - Absorbed(Marked(nodes, ptr)) == kept {
      assert Absorbed(Marked(nodes, ptr)) !! kept;
      assert Absorbed(Marked(nodes, ptr)) == {};
    }
  }

  lemma MarkedTiles(nodes: seq<Node>, base: nat, end: nat, ptr: nat)
    requires Tiled(nodes, base, end)
    ensures Tiled(Marked(nodes, ptr), base, end)
  {
  }

  lemma NoneAt(nodes: seq<Node>, ptr: nat)
    requires |nodes| > 0 && nodes[|nodes| - 1].free && FindFreed(nodes, ptr, 0) == |nodes| - 1
    ensures forall b <- Live(nodes) :: b.0 != ptr
  {
  }

  lemma AllBut(rest: set<(nat, nat)>, own: set<(nat, nat)>, ptr: nat)
    requires (forall b <- own :: b.0 == ptr) && (forall b <- rest :: b.0 != ptr)
    ensures (set b <- rest + own | b.0 != ptr) == rest
  {
  }

  lemma MarkedLive(nodes: seq<Node>, base: nat, end: nat, ptr: nat)
    requires Sound(nodes, base, end)
    ensures Tiled(Marked(nodes, ptr), base, end)
    ensures Live(Marked(nodes, ptr)) == set b <- Live(nodes) | b.0 != ptr
  {
    MarkedTiles(nodes, base, end, ptr);
    var i := FindFreed(nodes, ptr, 0);
    if i == |nodes| - 1 {
      NoneAt(nodes, ptr);
    } else {
      hide Live;
      LiveAt(nodes, i);
      UpdateLive(nodes, i, nodes[i].(free := true));
      LiveApart(nodes, base, end, i);
      var rest := Live(nodes[..i]) + Live(nodes[i + 1..]);
      AllBut(rest, LiveOne(nodes[i]), ptr);
      assert Live(nodes) == rest + LiveOne(nodes[i]);
    }
  }

  /** With the heap at address 0 a release frees the one block at `ptr` and nothing else. */
  lemma ReleaseAtZero(nodes: seq<Node>, end: nat, ptr: nat)
    requires Sound(nodes, 0, end)
    ensures var after := Release(0, nodes, ptr);
            && Sound(after, 0, end)
            && Live(after) == set b <- Live(nodes) | b.0 != ptr
  {
    hide Live, Sound, Release;
    ReleaseSound(0, nodes, 0, end, ptr);
    ReleaseLoses(0, nodes, 0, end, ptr);
  }
}
