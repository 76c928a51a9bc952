/**
 Stack-like runs of the heap at a nonzero address, where a release merges the freed block with
 its neighbour: every run of allocations and releases of the newest block keeps the stack shape.
 */
module HeapStackRuns {
  import opened Words
  import opened Paging
  import opened HeapList
  import opened HeapStack
  import opened HeapModel
  import opened HeapRuns

  datatype StackOp = PushOp(size: nat) | PopOp

  /** The heap is in order and its list is the stack of the given sizes. */
  ghost predicate IsStack(h: Heap, sizes: seq<nat>) {
    && h.base > 0
    && Started(h)
    && (!h.inited ==> sizes == [])
    && (forall s <- sizes :: s > 0)
    && (h.inited ==> Fits(h.base, sizes, End(h)) && h.nodes == Stack(h.base, sizes, End(h)))
  }

  ghost predicate StackGranted(h: Heap, sizes: seq<nat>, op: StackOp)
    requires IsStack(h, sizes)
  {
    match op
    case PushOp(size) => Granted(h, Allocate(size))
    case PopOp => sizes != []
  }

  function StackStep(h: Heap, sizes: seq<nat>, op: StackOp): (Heap, seq<nat>)
    requires IsStack(h, sizes) && StackGranted(h, sizes, op)
  {
    match op
    case PushOp(size) => (Malloc(h, size).0, sizes + [size])
    case PopOp => (Free(h, TopPointer(h.base, sizes)), sizes[..|sizes| - 1])
  }

  /** The list malloc_init makes is the empty stack. */
  lemma FreshIsStack(base: nat, bytes: nat)
    requires bytes > 0 && base + PagesFor(bytes) * PAGE_SIZE <= WORD_SPAN
    ensures var end := base + PagesFor(bytes) * PAGE_SIZE;
            Fits(base, [], end) && Fresh(base, PagesFor(bytes)) == Stack(base, [], end)
  {
  }

  lemma OpenedIsStack(h: Heap, sizes: seq<nat>, size: nat)
    requires IsStack(h, sizes) && Granted(h, Allocate(size))
    ensures var h0 := Opened(h, size);
            && HeapInv(h0) && h0.base == h.base
            && Fits(h.base, sizes, End(h0)) && h0.nodes == Stack(h.base, sizes, End(h0))
  {
    if !h.inited {
      hide Sound, PagesHaveFrames, ClearFrom, AllMapped, MapRange;
      InitKeeps(h, size);
      FreshIsStack(h.base, size);
    }
  }

  lemma InvOf(h: Heap, size: nat)
    requires Started(h)
    ensures Inv(h.machine) && h.base < WORD_SPAN
  {
  }

  lemma PushKeeps(h: Heap, sizes: seq<nat>, size: nat)
    requires IsStack(h, sizes) && Granted(h, Allocate(size))
    ensures IsStack(Malloc(h, size).0, sizes + [size])
    ensures Malloc(h, size).1 == TopPointer(h.base, sizes + [size])
  {
    hide HeapInv, HeapMapped, Untouched, AllGrown, Opened, Merge, Malloc, NextBlock, InitObtains, Live, SameWalks,
         Place, Find, PagesWanted, Stack, Slack, Fits, TopPointer;
    InvOf(h, size);
    var h0 := Opened(h, size);
    OpenedIsStack(h, sizes, size);
    MallocIsTake(h, size);
    TakeKeeps(h0, size);
    Push(h.base, sizes, End(h0), size);
    MergeKeepsStack(h.base, sizes + [size], End(h0) + PagesWanted(h0.nodes, size) * PAGE_SIZE);
  }

  lemma PopKeeps(h: Heap, sizes: seq<nat>)
    requires IsStack(h, sizes) && sizes != []
    ensures IsStack(Free(h, TopPointer(h.base, sizes)), sizes[..|sizes| - 1])
  {
    hide PagesHaveFrames, ClearFrom, Inv, Release, TopPointer, Stack, Top, Sound;
    Pop(h.base, sizes, End(h));
    var rest := sizes[..|sizes| - 1];
    assert forall s <- rest :: s in sizes;
    if rest == [] {
      RoomWhenEmpty(h, rest);
    } else {
      assert rest[0] in rest;
    }
    StackIsSound(h.base, rest, End(h));
  }

  lemma RoomWhenEmpty(h: Heap, sizes: seq<nat>)
    requires Fits(h.base, sizes, End(h)) && sizes == []
    ensures h.base + HEADER < End(h)
  {
    assert h.pages > 0;
  }

  /** One granted operation keeps the stack shape. */
  lemma StackStepKeeps(h: Heap, sizes: seq<nat>, op: StackOp)
    requires IsStack(h, sizes) && StackGranted(h, sizes, op)
    ensures IsStack(StackStep(h, sizes, op).0, StackStep(h, sizes, op).1)
  {
    match op
    case PushOp(size) => PushKeeps(h, sizes, size);
    case PopOp => PopKeeps(h, sizes);
  }

  ghost predicate AllStackGranted(h: Heap, sizes: seq<nat>, ops: seq<StackOp>)
    requires IsStack(h, sizes)
    decreases |ops|
  {
    ops == [] || (
      && StackGranted(h, sizes, ops[0])
      && (StackStepKeeps(h, sizes, ops[0]);
          AllStackGranted(StackStep(h, sizes, ops[0]).0, StackStep(h, sizes, ops[0]).1, ops[1..])))
  }

  ghost function StackRun(h: Heap, sizes: seq<nat>, ops: seq<StackOp>): (Heap, seq<nat>)
    requires IsStack(h, sizes) && AllStackGranted(h, sizes, ops)
    decreases |ops|
  {
    if ops == [] then (h, sizes) else
    StackStepKeeps(h, sizes, ops[0]);
    StackRun(StackStep(h, sizes, ops[0]).0, StackStep(h, sizes, ops[0]).1, ops[1..])
  }

  /**
   Over every stack-like run at a nonzero address the list is the blocks in use followed by one
   free tail; once everything is released it is a single free block over all pages.
   */
  lemma {:induction false} StackRunKeeps(h: Heap, sizes: seq<nat>, ops: seq<StackOp>)
    requires IsStack(h, sizes) && AllStackGranted(h, sizes, ops)
    ensures var (h', sizes') := StackRun(h, sizes, ops);
            && IsStack(h', sizes')
            && (h'.inited && sizes' == [] ==> h'.nodes == [Node(h'.base, h'.pages * PAGE_SIZE - HEADER, true)])
    decreases |ops|
  {
    if ops == [] {
      if h.inited && sizes == [] {
        RoomWhenEmpty(h, sizes);
      }
    } else {
      hide IsStack, StackStep, StackGranted;
      StackStepKeeps(h, sizes, ops[0]);
      StackRunKeeps(StackStep(h, sizes, ops[0]).0, StackStep(h, sizes, ops[0]).1, ops[1..]);
    }
  }
}
