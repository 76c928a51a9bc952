/**
 The heap at a nonzero address, where releasing a block merges it with its neighbour. Used as
 a stack the list keeps one shape: the blocks in use, then one free tail.
 */
module HeapStack {
  import opened Words
  import opened HeapList

  /** The address after the blocks in use. */
  function Top(base: nat, sizes: seq<nat>): (t: nat)
    ensures t >= base
  {
    if sizes == [] then base else Top(base, sizes[..|sizes| - 1]) + HEADER + sizes[|sizes| - 1]
  }

  function Allocated(base: nat, sizes: seq<nat>): (nodes: seq<Node>)
    ensures |nodes| == |sizes|
    ensures forall n <- nodes :: !n.free
  {
    if sizes == [] then []
    else Allocated(base, sizes[..|sizes| - 1]) + [Node(Top(base, sizes[..|sizes| - 1]), sizes[|sizes| - 1], false)]
  }

  /** Room for the blocks in use and the header of the tail. */
  predicate Fits(base: nat, sizes: seq<nat>, end: nat) {
    Top(base, sizes) + HEADER <= end <= WORD_SPAN
  }

  function Stack(base: nat, sizes: seq<nat>, end: nat): seq<Node>
    requires Fits(base, sizes, end)
  {
    Allocated(base, sizes) + [Node(Top(base, sizes), end - Top(base, sizes) - HEADER, true)]
  }

  /** The pointer malloc returned for the block on top. */
  function TopPointer(base: nat, sizes: seq<nat>): nat
    requires sizes != []
  {
    Top(base, sizes[..|sizes| - 1]) + HEADER
  }

  lemma {:induction false} AllocatedAt(base: nat, sizes: seq<nat>, k: nat)
    requires k < |sizes|
    ensures Allocated(base, sizes)[k] == Node(Top(base, sizes[..k]), sizes[k], false)
    ensures Top(base, sizes[..k]) + HEADER + sizes[k] <= Top(base, sizes)
  {
    var before := sizes[..|sizes| - 1];
    if k < |before| {
      AllocatedAt(base, before, k);
      assert before[..k] == sizes[..k];
    }
  }

  lemma StackIsSound(base: nat, sizes: seq<nat>, end: nat)
    requires Fits(base, sizes, end) && (sizes != [] ==> sizes[0] > 0) && (sizes == [] ==> base + HEADER < end)
    ensures Sound(Stack(base, sizes, end), base, end)
  {
    var nodes := Stack(base, sizes, end);
    forall k | 0 <= k < |nodes| - 1
      ensures nodes[k + 1].addr == nodes[k].addr + HEADER + nodes[k].size
    {
      AllocatedAt(base, sizes, k);
      TopStep(base, sizes, k);
      if k + 1 < |sizes| {
        AllocatedAt(base, sizes, k + 1);
      } else {
        assert sizes[..k + 1] == sizes;
      }
    }
    if sizes != [] {
      AllocatedAt(base, sizes, 0);
      assert sizes[..0] == [];
    }
  }

  lemma TopStep(base: nat, sizes: seq<nat>, k: nat)
    requires k < |sizes|
    ensures Top(base, sizes[..k + 1]) == Top(base, sizes[..k]) + HEADER + sizes[k]
  {
    assert sizes[..k + 1][..k] == sizes[..k];
  }

  // ---- push

  lemma {:induction false} FindPassesAllocated(nodes: seq<Node>, size: nat, from: nat)
    requires from < |nodes| && forall k :: 0 <= k < |nodes| - 1 ==> !nodes[k].free
    ensures Find(nodes, size, from) == |nodes| - 1
    decreases |nodes| - from
  {
    if from < |nodes| - 1 {
      FindPassesAllocated(nodes, size, from + 1);
    }
  }

  lemma TailOf(base: nat, sizes: seq<nat>, end: nat, size: nat)
    requires Fits(base, sizes, end)
    ensures var nodes := Stack(base, sizes, end);
            && |nodes| == |sizes| + 1
            && nodes[|sizes|] == Node(Top(base, sizes), end - Top(base, sizes) - HEADER, true)
            && Find(nodes, size, 0) == |sizes|
    ensures Top(base, sizes) + HEADER == TopPointer(base, sizes + [size])
  {
    FindPassesAllocated(Stack(base, sizes, end), size, 0);
    assert (sizes + [size])[..|sizes|] == sizes;
  }

  lemma GrownStack(base: nat, sizes: seq<nat>, end: nat, more: nat)
    requires Fits(base, sizes, end) && end + more <= WORD_SPAN
    ensures var nodes := Stack(base, sizes, end); var n := |sizes|;
            Fits(base, sizes, end + more) && nodes[n := nodes[n].(size := nodes[n].size + more)] == Stack(base, sizes, end + more)
  {
  }

  /** Allocation from the last block, with slack. */
  lemma PlaceLast(nodes: seq<Node>, n: nat, size: nat)
    requires |nodes| == n + 1 && Find(nodes, size, 0) == n && Slack(nodes, size)
    ensures nodes[n].size >= size ==>
              && nodes[n].size >= size + HEADER && PagesWanted(nodes, size) == 0 && Place(nodes, size, 0) == Split(nodes, n, size)
    ensures nodes[n].size < size ==>
              var pages := PageCount(nodes[n].size, size, 1);
              && PagesWanted(nodes, size) == pages
              && (nodes[n].size + pages * PAGE_SIZE < WORD_SPAN ==>
                    Place(nodes, size, pages) == Split(nodes[n := nodes[n].(size := nodes[n].size + pages * PAGE_SIZE)], n, size))
  {
    hide Split, Find;
  }

  /** A push the tail has room for. */
  lemma PushFits(base: nat, sizes: seq<nat>, end: nat, size: nat)
    requires Fits(base, sizes, end) && Slack(Stack(base, sizes, end), size)
    requires Stack(base, sizes, end)[|sizes|].size >= size
    ensures PagesWanted(Stack(base, sizes, end), size) == 0
    ensures Fits(base, sizes + [size], end) && Place(Stack(base, sizes, end), size, 0) == Stack(base, sizes + [size], end)
  {
    hide Split, Top, Find, Place, PagesWanted, Slack, PageCount;
    TailOf(base, sizes, end, size);
    PlaceLast(Stack(base, sizes, end), |sizes|, size);
    CutTail(base, sizes, end, size, Stack(base, sizes, end));
  }

  /** A push for which the heap grows. */
  lemma PushGrows(base: nat, sizes: seq<nat>, end: nat, size: nat)
    requires Fits(base, sizes, end) && Slack(Stack(base, sizes, end), size) && Addressable(end, size)
    requires Stack(base, sizes, end)[|sizes|].size < size
    ensures var pages := PagesWanted(Stack(base, sizes, end), size);
            && Fits(base, sizes + [size], end + pages * PAGE_SIZE)
            && Place(Stack(base, sizes, end), size, pages) == Stack(base, sizes + [size], end + pages * PAGE_SIZE)
  {
    hide Split, Top, Find, Place, PagesWanted, Slack, PageCount;
    TailOf(base, sizes, end, size);
    PlaceLast(Stack(base, sizes, end), |sizes|, size);
    var have := Stack(base, sizes, end)[|sizes|].size;
    PageCountIsLeast(have, size, 1);
    var more := PageCount(have, size, 1) * PAGE_SIZE;
    hide Stack;
    GrownStack(base, sizes, end, more);
    TailOf(base, sizes, end + more, size);
    CutTail(base, sizes, end + more, size, Stack(base, sizes, end + more));
  }

  /** Allocating with slack pushes a block; growth moves the end of the heap. */
  lemma Push(base: nat, sizes: seq<nat>, end: nat, size: nat)
    requires Fits(base, sizes, end) && size > 0 && Addressable(end, size)
    requires Slack(Stack(base, sizes, end), size)
    ensures var nodes := Stack(base, sizes, end); var pages := PagesWanted(nodes, size);
            && Fits(base, sizes + [size], end + pages * PAGE_SIZE)
            && Place(nodes, size, pages) == Stack(base, sizes + [size], end + pages * PAGE_SIZE)
            && nodes[Find(nodes, size, 0)].addr + HEADER == TopPointer(base, sizes + [size])
  {
    hide Stack, Place, PagesWanted, Slack, Top, TopPointer, Find;
    TailOf(base, sizes, end, size);
    if Stack(base, sizes, end)[|sizes|].size < size {
      PushGrows(base, sizes, end, size);
    } else {
      PushFits(base, sizes, end, size);
    }
  }

  lemma CutTail(base: nat, sizes: seq<nat>, end: nat, size: nat, nodes: seq<Node>)
    requires Fits(base, sizes, end) && nodes == Stack(base, sizes, end)
    requires nodes[|sizes|].size >= size + HEADER
    ensures Fits(base, sizes + [size], end)
    ensures Split(nodes, |sizes|, size) == Stack(base, sizes + [size], end)
  {
    assert (sizes + [size])[..|sizes|] == sizes;
    assert nodes[..|sizes|] == Allocated(base, sizes);
  }

  // ---- pop

  lemma {:induction false} MergePassesAllocated(used: seq<Node>, rest: seq<Node>)
    requires forall n <- used :: !n.free
    ensures Merge(used + rest) == used + Merge(rest)
  {
    if used != [] {
      assert (used + rest)[1..] == used[1..] + rest;
      if |used + rest| > 1 {
        MergePassesAllocated(used[1..], rest);
        assert used == [used[0]] + used[1..];
      } else {
        assert rest == [] && used + rest == used;
      }
    } else {
      assert used + rest == rest;
    }
  }

  /** The merge pass leaves a stack alone. */
  lemma MergeKeepsStack(base: nat, sizes: seq<nat>, end: nat)
    requires Fits(base, sizes, end)
    ensures Merge(Stack(base, sizes, end)) == Stack(base, sizes, end)
  {
    MergePassesAllocated(Allocated(base, sizes), [Node(Top(base, sizes), end - Top(base, sizes) - HEADER, true)]);
  }

  lemma {:induction false} FindFreedIs(nodes: seq<Node>, ptr: nat, from: nat, k: nat)
    requires from <= k < |nodes|
    requires k < |nodes| - 1 ==> nodes[k].addr + HEADER == ptr
    requires forall j :: from <= j < k ==> nodes[j].addr + HEADER != ptr
    ensures FindFreed(nodes, ptr, from) == k
    decreases k - from
  {
    if from < k {
      FindFreedIs(nodes, ptr, from + 1, k);
    }
  }

  lemma FindsBlock(base: nat, sizes: seq<nat>, end: nat, k: nat)
    requires Fits(base, sizes, end) && k < |sizes|
    ensures var nodes := Stack(base, sizes, end); FindFreed(nodes, nodes[k].addr + HEADER, 0) == k
  {
    var nodes := Stack(base, sizes, end);
    forall j | 0 <= j < k
      ensures nodes[j].addr < nodes[k].addr
    {
      AllocatedAt(base, sizes, j);
      AllocatedAt(base, sizes, k);
      TopBelow(base, sizes, j, k);
    }
    FindFreedIs(nodes, nodes[k].addr + HEADER, 0, k);
  }

  /** A list whose only free block is the last one passes the merge unchanged. */
  lemma MergeKeepsTail(rest: seq<Node>)
    requires forall j :: 0 <= j < |rest| - 1 ==> !rest[j].free
    ensures Merge(rest) == rest
  {
    if rest != [] {
      var used, tail := rest[..|rest| - 1], [rest[|rest| - 1]];
      assert rest == used + tail;
      MergePassesAllocated(used, tail);
    }
  }

  lemma MergePair(a: Node, b: Node, rest: seq<Node>)
    requires a.free
    ensures Merge([a, b] + rest) == [a.(size := Wrap(a.size + b.size + HEADER))] + Merge(rest)
  {
    assert ([a, b] + rest)[2..] == rest;
  }

  lemma MergeParts(used: seq<Node>, a: Node, b: Node, rest: seq<Node>)
    requires a.free && (forall j :: 0 <= j < |used| ==> !used[j].free) && (forall j :: 0 <= j < |rest| - 1 ==> !rest[j].free)
    ensures Merge(used + ([a, b] + rest)) == used + ([a.(size := Wrap(a.size + b.size + HEADER))] + rest)
  {
    hide Merge;
    MergePassesAllocated(used, [a, b] + rest);
    MergePair(a, b, rest);
    MergeKeepsTail(rest);
  }

  lemma AroundPair(nodes: seq<Node>, k: nat)
    requires k + 1 < |nodes|
    ensures nodes == nodes[..k] + ([nodes[k], nodes[k + 1]] + nodes[k + 2..])
  {
  }

  lemma MergeAt(nodes: seq<Node>, k: nat)
    requires k + 1 < |nodes| && nodes[k].free
    requires forall j :: 0 <= j < |nodes| - 1 && j != k ==> !nodes[j].free
    ensures Merge(nodes) == nodes[..k] + ([nodes[k].(size := Wrap(nodes[k].size + nodes[k + 1].size + HEADER))] + nodes[k + 2..])
  {
    hide *;
    MergeParts(nodes[..k], nodes[k], nodes[k + 1], nodes[k + 2..]);
    AroundPair(nodes, k);
  }

  /** Freeing block `k` makes it absorb the block after it. */
  lemma ReleaseAbsorbs(base: nat, sizes: seq<nat>, end: nat, k: nat)
    requires base > 0 && Fits(base, sizes, end) && k < |sizes|
    ensures var nodes := Stack(base, sizes, end);
            Release(base, nodes, nodes[k].addr + HEADER)
            == nodes[..k] + [Node(nodes[k].addr, nodes[k].size + nodes[k + 1].size + HEADER, true)] + nodes[k + 2..]
  {
    hide Merge, FindFreed, Top;
    var nodes := Stack(base, sizes, end);
    FindsBlock(base, sizes, end, k);
    SizesBelow(base, sizes, end, k);
    var marked := nodes[k := nodes[k].(free := true)];
    MergeAt(marked, k);
    assert marked[..k] == nodes[..k] && marked[k + 2..] == nodes[k + 2..];
  }

  lemma TopBelow(base: nat, sizes: seq<nat>, j: nat, k: nat)
    requires j < k <= |sizes|
    ensures Top(base, sizes[..j]) + HEADER + sizes[j] <= Top(base, sizes[..k])
  {
    AllocatedAt(base, sizes[..k], j);
    assert sizes[..k][..j] == sizes[..j];
  }

  lemma SizesBelow(base: nat, sizes: seq<nat>, end: nat, k: nat)
    requires Fits(base, sizes, end) && k < |sizes|
    ensures var nodes := Stack(base, sizes, end); nodes[k].size + nodes[k + 1].size + HEADER < WORD_SPAN
  {
    AllocatedAt(base, sizes, k);
    if k + 1 < |sizes| {
      AllocatedAt(base, sizes, k + 1);
      TopStep(base, sizes, k);
    } else {
      assert sizes[..k + 1] == sizes;
    }
  }

  /** Releasing the block on top pops it. */
  lemma Pop(base: nat, sizes: seq<nat>, end: nat)
    requires base > 0 && Fits(base, sizes, end) && sizes != []
    ensures Fits(base, sizes[..|sizes| - 1], end)
    ensures Release(base, Stack(base, sizes, end), TopPointer(base, sizes)) == Stack(base, sizes[..|sizes| - 1], end)
  {
    var k := |sizes| - 1;
    ReleaseAbsorbs(base, sizes, end, k);
    AllocatedAt(base, sizes, k);
    assert Stack(base, sizes, end)[..k] == Allocated(base, sizes[..k]);
  }

  /** The blocks of a stack, seen one by one. */
  lemma StackBlock(base: nat, sizes: seq<nat>, end: nat, k: nat)
    requires Fits(base, sizes, end) && k < |sizes|
    ensures (Stack(base, sizes, end)[k].addr + HEADER, sizes[k]) in Live(Stack(base, sizes, end))
  {
    AllocatedAt(base, sizes, k);
    assert Stack(base, sizes, end)[k] in Stack(base, sizes, end);
  }

  /** Releasing a block below the top loses the block after it. */
  lemma ReleaseBelowTop(base: nat, sizes: seq<nat>, end: nat, k: nat)
    requires base > 0 && Fits(base, sizes, end) && k < |sizes| - 1
    ensures var nodes := Stack(base, sizes, end);
            && (nodes[k + 1].addr + HEADER, sizes[k + 1]) in Live(nodes)
            && (nodes[k + 1].addr + HEADER, sizes[k + 1]) !in Live(Release(base, nodes, nodes[k].addr + HEADER))
            && nodes[k + 1].addr != nodes[k].addr
  {
    hide Release, Merge, Top;
    var nodes := Stack(base, sizes, end);
    StackBlock(base, sizes, end, k + 1);
    ReleaseAbsorbs(base, sizes, end, k);
    StackAddresses(base, sizes, end);
    hide Stack;
    var after := nodes[..k] + [Node(nodes[k].addr, nodes[k].size + nodes[k + 1].size + HEADER, true)] + nodes[k + 2..];
    assert forall n <- after :: n.addr != nodes[k + 1].addr;
  }

  /** Absorbing the free last block drops one block in use and no other. */
  lemma AbsorbLive(nodes: seq<Node>, k: nat, n: Node)
    requires |nodes| == k + 2 && !nodes[k].free && nodes[k + 1].free && n.free
    requires forall i :: 0 <= i < k ==> nodes[i].addr != nodes[k].addr
    ensures Live(nodes[..k] + [n]) == Live(nodes) - {(nodes[k].addr + HEADER, nodes[k].size)}
  {
    var before := nodes[..k];
    assert (nodes[k].addr + HEADER, nodes[k].size) !in Live(before);
    LiveAt(nodes, k);
    assert nodes[k + 1..] == [nodes[k + 1]];
    LiveSingle(nodes[k + 1]);
    LiveSingle(n);
    LiveConcat(before, [n]);
    hide Live;
  }

  lemma ReleaseTop(base: nat, sizes: seq<nat>, end: nat)
    requires base > 0 && Fits(base, sizes, end) && sizes != []
    ensures var nodes := Stack(base, sizes, end); var k := |sizes| - 1;
            Live(Release(base, nodes, nodes[k].addr + HEADER)) == Live(nodes) - {(nodes[k].addr + HEADER, nodes[k].size)}
  {
    hide Release, Top, Live;
    var nodes := Stack(base, sizes, end);
    var k := |sizes| - 1;
    AllocatedAt(base, sizes, k);
    ReleaseAbsorbs(base, sizes, end, k);
    StackAddresses(base, sizes, end);
    var merged := Node(nodes[k].addr, nodes[k].size + nodes[k + 1].size + HEADER, true);
    AbsorbLive(nodes, k, merged);
    assert nodes[..k] + [merged] + nodes[k + 2..] == nodes[..k] + [merged];
  }

  /**
   Releasing block `k` of a stack spares every other block in use exactly when `k` is on top:
   otherwise the block after it, still in use, is swallowed.
   */
  lemma ReleaseSparesOthers(base: nat, sizes: seq<nat>, end: nat, k: nat)
    requires base > 0 && Fits(base, sizes, end) && k < |sizes|
    ensures var nodes := Stack(base, sizes, end);
            Live(Release(base, nodes, nodes[k].addr + HEADER)) == Live(nodes) - {(nodes[k].addr + HEADER, nodes[k].size)}
            <==> k == |sizes| - 1
  {
    hide Release, Live, Top, Stack;
    if k < |sizes| - 1 {
      ReleaseBelowTop(base, sizes, end, k);
    } else {
      ReleaseTop(base, sizes, end);
    }
  }

  lemma StackAddresses(base: nat, sizes: seq<nat>, end: nat)
    requires Fits(base, sizes, end)
    ensures var nodes := Stack(base, sizes, end);
            forall i, j :: 0 <= i < j < |nodes| ==> nodes[i].addr != nodes[j].addr
  {
    var nodes := Stack(base, sizes, end);
    forall i, j | 0 <= i < j < |nodes|
      ensures nodes[i].addr != nodes[j].addr
    {
      AllocatedAt(base, sizes, i);
      if j < |sizes| {
        AllocatedAt(base, sizes, j);
        TopBelow(base, sizes, i, j);
      }
    }
  }
}
