/**
 The heap as the kernel runs it: block headers linked by address and updated in place, walked
 from the list head, with pages mapped as the heap grows. Every method is proved to do what
 HeapList and HeapRuns say.
 */
module KernelHeaps {
  import opened Words
  import opened Paging
  import opened PagingRuns
  import opened HeapList
  import opened HeapModel
  import opened HeapRuns
  import opened AddressSpaces
  import HeapMerge
  import PageEntry
  import FrameMap

  /** A block header; `next` is 0 at the end of the list. */
  datatype Header = Header(size: nat, free: bool, next: nat)

  function NextOf(nodes: seq<Node>, k: nat): nat {
    if k + 1 < |nodes| then nodes[k + 1].addr else 0
  }

  /** Different nodes have different addresses, and none but the first can be at address 0. */
  predicate Apart(nodes: seq<Node>) {
    && (forall k :: 1 <= k < |nodes| ==> nodes[k].addr != 0)
    && (forall j, k :: 0 <= j < k < |nodes| ==> nodes[j].addr != nodes[k].addr)
  }

  predicate HeaderOf(headers: map<nat, Header>, nodes: seq<Node>, k: nat)
    requires k < |nodes|
  {
    nodes[k].addr in headers && headers[nodes[k].addr] == Header(nodes[k].size, nodes[k].free, NextOf(nodes, k))
  }

  predicate Spelled(headers: map<nat, Header>, nodes: seq<Node>) {
    forall k :: 0 <= k < |nodes| ==> HeaderOf(headers, nodes, k)
  }

  /** The headers in memory spell the node list, starting at `head`. */
  predicate Linked(headers: map<nat, Header>, head: nat, nodes: seq<Node>) {
    |nodes| > 0 && nodes[0].addr == head && Apart(nodes) && Spelled(headers, nodes)
  }

  lemma HeaderAt(headers: map<nat, Header>, head: nat, nodes: seq<Node>, k: nat)
    requires Linked(headers, head, nodes) && k < |nodes|
    ensures nodes[k].addr in headers && headers[nodes[k].addr] == Header(nodes[k].size, nodes[k].free, NextOf(nodes, k))
    ensures NextOf(nodes, k) == 0 <==> k == |nodes| - 1
    ensures head == nodes[0].addr && (k > 0 ==> nodes[k].addr != 0)
  {
    assert HeaderOf(headers, nodes, k);
  }

  /** The header that taking `size` bytes writes lands on no other header and not on address 0. */
  predicate HeaderApart(nodes: seq<Node>, size: nat)
    requires |nodes| > 0
  {
    var node := nodes[Find(nodes, size, 0)];
    var at := Wrap(node.addr + size + HEADER);
    node.size != size ==> at != 0 && forall k :: 0 <= k < |nodes| ==> nodes[k].addr != at
  }

  /** The page count of the growth loop reaches its target before the sum wraps. */
  predicate CountEnds(have: nat, size: nat) {
    size + HEADER + PAGE_SIZE <= WORD_SPAN + have % PAGE_SIZE
  }

  lemma SamePage(n: nat, k: nat)
    ensures Wrap(n + k * PAGE_SIZE) % PAGE_SIZE == n % PAGE_SIZE
    ensures Wrap(n + k * PAGE_SIZE) <= WORD_SPAN - PAGE_SIZE + n % PAGE_SIZE
  {
    var w := Wrap(n + k * PAGE_SIZE);
    var q := (n + k * PAGE_SIZE) / WORD_SPAN;
    assert n + k * PAGE_SIZE == q * 0x10_0000 * PAGE_SIZE + w;
    assert w == n + (k - q * 0x10_0000) * PAGE_SIZE;
    assert w % PAGE_SIZE == n % PAGE_SIZE by {
      SameRemainder(n, k - q * 0x10_0000, w);
    }
  }

  lemma SameRemainder(n: nat, k: int, w: nat)
    requires w == n + k * PAGE_SIZE
    ensures w % PAGE_SIZE == n % PAGE_SIZE
  {
  }

  /** The 32-bit loop that counts pages ends exactly then. */
  lemma CountLoopEnds(have: nat, size: nat)
    requires have < size && size + HEADER < WORD_SPAN
    ensures (exists k: nat :: k > 0 && Wrap(have + k * PAGE_SIZE) >= size + HEADER) <==> CountEnds(have, size)
  {
    if CountEnds(have, size) {
      PageCountIsLeast(have, size, 1);
      var k := PageCount(have, size, 1);
      CountStays(have, size, k);
      assert k > 0 && Wrap(have + k * PAGE_SIZE) >= size + HEADER;
    }
    forall k: nat | k > 0 && Wrap(have + k * PAGE_SIZE) >= size + HEADER
      ensures CountEnds(have, size)
    {
      SamePage(have, k);
    }
  }

  /** Up to the least sufficient count nothing wraps. */
  lemma CountStays(have: nat, size: nat, k: nat)
    requires have < size && CountEnds(have, size)
    requires k > 0 && have + (k - 1) * PAGE_SIZE < size + HEADER
    ensures have + k * PAGE_SIZE < WORD_SPAN
  {
    var rest := have % PAGE_SIZE;
    var pages := have / PAGE_SIZE + k - 1;
    assert have + (k - 1) * PAGE_SIZE == pages * PAGE_SIZE + rest;
    assert pages * PAGE_SIZE < WORD_SPAN - PAGE_SIZE;
    assert pages < 0xF_FFFF;
  }

  /**
   What malloc_next_block needs to come to an end and leave a list: the request with its header
   fits a word, the page count ends, and the new header lands on no other.
   */
  predicate CallDefined(nodes: seq<Node>, size: nat)
    requires |nodes| > 0
  {
    && size + HEADER < WORD_SPAN
    && (var have := nodes[Find(nodes, size, 0)].size; have < size ==> CountEnds(have, size))
    && HeaderApart(nodes, size)
  }

  /** On a sound list an addressable request has all of it. */
  lemma SoundIsDefined(nodes: seq<Node>, base: nat, end: nat, size: nat)
    requires Sound(nodes, base, end) && Addressable(end, size)
    ensures CallDefined(nodes, size)
  {
    BlocksDisjoint(nodes, base, end);
    var i := Find(nodes, size, 0);
    var at := nodes[i].addr + size + HEADER;
    forall k | 0 <= k < |nodes| && nodes[i].size != size
      ensures nodes[k].addr != at
    {
      if nodes[i].size < size {
        assert i == |nodes| - 1;
      }
    }
  }

  /** So every granted malloc call of a run has it. */
  lemma GrantedIsDefined(h: Heap, size: nat)
    requires Started(h) && Granted(h, Allocate(size))
    ensures Inv(h.machine) && h.base < WORD_SPAN && |Opened(h, size).nodes| > 0 && CallDefined(Opened(h, size).nodes, size)
  {
    hide HeapMapped, Sound, CallDefined, Slack, HeapRuns.Init, InitObtains;
    StepReady(h, Allocate(size));
    OpenedIsInOrder(h, size);
    SoundIsDefined(Opened(h, size).nodes, h.base, End(Opened(h, size)), size);
    SoundNonempty(Opened(h, size).nodes, h.base, End(Opened(h, size)));
  }

  lemma SoundNonempty(nodes: seq<Node>, base: nat, end: nat)
    requires Sound(nodes, base, end)
    ensures |nodes| > 0
  {
  }

  lemma ApartAfterCut(nodes: seq<Node>, i: nat, size: nat, rest: Node)
    requires Apart(nodes) && i < |nodes| && rest.addr != 0 && forall k :: 0 <= k < |nodes| ==> nodes[k].addr != rest.addr
    ensures Apart(Cut(nodes, i, size, rest))
  {
  }

  lemma LinkedAfterCut(headers: map<nat, Header>, head: nat, nodes: seq<Node>, i: nat, size: nat, rest: Node)
    requires Linked(headers, head, nodes) && i < |nodes|
    requires rest.addr != 0 && forall k :: 0 <= k < |nodes| ==> nodes[k].addr != rest.addr
    ensures Linked(headers[rest.addr := Header(rest.size, rest.free, NextOf(nodes, i))][nodes[i].addr := Header(size, false, rest.addr)],
                   head, Cut(nodes, i, size, rest))
  {
    ApartAfterCut(nodes, i, size, rest);
    var h := headers[rest.addr := Header(rest.size, rest.free, NextOf(nodes, i))][nodes[i].addr := Header(size, false, rest.addr)];
    var after := Cut(nodes, i, size, rest);
    forall k | 0 <= k < |after|
      ensures HeaderOf(h, after, k)
    {
      if k < i {
        assert HeaderOf(headers, nodes, k) && after[k] == nodes[k] && NextOf(after, k) == NextOf(nodes, k);
      } else if k == i {
        assert after[k] == Node(nodes[i].addr, size, false) && after[k + 1] == rest;
      } else if k == i + 1 {
        assert after[k] == rest && NextOf(after, k) == NextOf(nodes, i);
      } else {
        assert HeaderOf(headers, nodes, k - 1) && after[k] == nodes[k - 1] && NextOf(after, k) == NextOf(nodes, k - 1);
      }
    }
  }

  lemma LinkedAfterUpdate(headers: map<nat, Header>, head: nat, nodes: seq<Node>, i: nat, n: Node)
    requires Linked(headers, head, nodes) && i < |nodes| && n.addr == nodes[i].addr
    ensures Linked(headers[n.addr := Header(n.size, n.free, NextOf(nodes, i))], head, nodes[i := n])
  {
    var h, after := headers[n.addr := Header(n.size, n.free, NextOf(nodes, i))], nodes[i := n];
    forall k | 0 <= k < |after|
      ensures HeaderOf(h, after, k)
    {
      assert HeaderOf(headers, nodes, k) && NextOf(after, k) == NextOf(nodes, k);
    }
  }

  lemma LinkedAfterAbsorb(headers: map<nat, Header>, head: nat, nodes: seq<Node>, i: nat, n: Node)
    requires Linked(headers, head, nodes) && i + 1 < |nodes| && n.addr == nodes[i].addr
    ensures Linked(headers[n.addr := Header(n.size, n.free, NextOf(nodes, i + 1))], head, nodes[..i] + [n] + nodes[i + 2..])
  {
    var h, after := headers[n.addr := Header(n.size, n.free, NextOf(nodes, i + 1))], nodes[..i] + [n] + nodes[i + 2..];
    forall k | 0 <= k < |after|
      ensures HeaderOf(h, after, k)
    {
      if k < i {
        assert HeaderOf(headers, nodes, k) && after[k] == nodes[k] && NextOf(after, k) == NextOf(nodes, k);
      } else if k == i {
        assert after[k] == n && NextOf(after, k) == NextOf(nodes, k + 1);
      } else {
        assert HeaderOf(headers, nodes, k + 1) && after[k] == nodes[k + 1] && NextOf(after, k) == NextOf(nodes, k + 1);
      }
    }
    assert Apart(after);
  }

  class KernelHeap {
    const space: AddressSpace
    /** malloc_virt_addr */
    const base: nat
    /** Block headers by address. */
    var headers: map<nat, Header>
    /** malloc_list_head */
    var head: nat
    /** malloc_phys_addr */
    var physical: nat
    /** total_malloc_pages */
    var totalPages: nat
    /** malloc_iniited */
    var inited: bool
    ghost var nodes: seq<Node>

    ghost function View(): Heap
      reads this, space, space.allocator, space.allocator.memoryMap
    {
      Heap(space.View(), base, nodes, totalPages, inited)
    }

    ghost predicate Valid()
      reads this, space, space.allocator, space.allocator.memoryMap
    {
      && Inv(space.View()) && base < WORD_SPAN
      && (inited ==> Linked(headers, head, nodes) && head == base)
    }

    constructor (space: AddressSpace, base: nat)
      requires Inv(space.View()) && base < WORD_SPAN
      ensures Valid() && this.space == space && this.base == base
      ensures !inited && View() == Heap(space.View(), base, [], 0, false)
    {
      this.space := space;
      this.base := base;
      headers := map[];
      head := 0;
      physical := 0;
      totalPages := 0;
      inited := false;
      nodes := [];
    }

    /** malloc_split */
    method Split(node: nat, size: nat, ghost i: nat)
      requires Linked(headers, head, nodes) && i < |nodes| && nodes[i].addr == node
      requires var at := Wrap(node + size + HEADER); at != 0 && forall k :: 0 <= k < |nodes| ==> nodes[k].addr != at
      modifies this`headers, this`nodes
      ensures Linked(headers, head, nodes) && nodes == HeapList.Split(old(nodes), i, size)
    {
      HeaderAt(headers, head, nodes, i);
      var newNode := Wrap(node + size + HEADER);
      ghost var rest := Node(newNode, Wrap(nodes[i].size - size - HEADER), true);
      LinkedAfterCut(headers, head, nodes, i, size, rest);
      hide Linked, Cut, Wrap;
      headers := headers[newNode := Header(Wrap(headers[node].size - size - HEADER), true, headers[node].next)];
      headers := headers[node := Header(size, false, newNode)];
      nodes := HeapList.Split(nodes, i, size);
    }

    /** The search loop of malloc_next_block. */
    method FindBlock(size: nat) returns (cur: nat, ghost i: nat)
      requires Linked(headers, head, nodes)
      ensures cur == nodes[Find(nodes, size, 0)].addr && i == Find(nodes, size, 0)
    {
      cur, i := head, 0;
      HeaderAt(headers, head, nodes, 0);
      while headers[cur].next != 0 && (headers[cur].size < size || !headers[cur].free)
        invariant i < |nodes| && cur == nodes[i].addr && cur in headers
        invariant headers[cur] == Header(nodes[i].size, nodes[i].free, NextOf(nodes, i))
        invariant NextOf(nodes, i) == 0 <==> i == |nodes| - 1
        invariant Find(nodes, size, i) == Find(nodes, size, 0)
        decreases |nodes| - i
      {
        HeaderAt(headers, head, nodes, i + 1);
        cur := headers[cur].next;
        i := i + 1;
      }
    }

    /** The body of the merge loop when the block at `cur` is free: it absorbs its neighbour. */
    method Absorb(cur: nat, ghost i: nat)
      requires Linked(headers, head, nodes) && i + 1 < |nodes| && cur == nodes[i].addr && nodes[i].free
      modifies this`headers, this`nodes
      ensures Linked(headers, head, nodes)
      ensures nodes == old(nodes[..i] + [nodes[i].(size := Wrap(nodes[i].size + nodes[i + 1].size + HEADER))] + nodes[i + 2..])
    {
      HeaderAt(headers, head, nodes, i);
      HeaderAt(headers, head, nodes, i + 1);
      var next := headers[cur].next;
      ghost var merged := nodes[i].(size := Wrap(nodes[i].size + nodes[i + 1].size + HEADER));
      LinkedAfterAbsorb(headers, head, nodes, i, merged);
      hide Linked;
      headers := headers[cur := Header(Wrap(headers[cur].size + headers[next].size + HEADER), headers[cur].free, headers[next].next)];
      nodes := nodes[..i] + [merged] + nodes[i + 2..];
    }

    /** merge_free_blocks */
    method MergeFreeBlocks()
      requires Linked(headers, head, nodes)
      modifies this`headers, this`nodes
      ensures Linked(headers, head, nodes) && nodes == MergeFrom(head, old(nodes))
    {
      hide Linked, Merge;
      var cur := head;
      if cur == 0 {
        return;
      }
      ghost var i := 0;
      HeaderAt(headers, head, nodes, 0) by { LinkedNonempty(headers, head, nodes); }
      LinkedNonempty(headers, head, nodes);
      assert nodes[..0] + Merge(nodes[0..]) == Merge(nodes) by { assert nodes[0..] == nodes; }
      while cur != 0 && headers[cur].next != 0
        invariant Linked(headers, head, nodes)
        invariant i <= |nodes| && cur == (if i < |nodes| then nodes[i].addr else 0)
        invariant i < |nodes| ==> cur != 0 && cur in headers && headers[cur] == Header(nodes[i].size, nodes[i].free, NextOf(nodes, i))
        invariant i < |nodes| ==> (NextOf(nodes, i) == 0 <==> i == |nodes| - 1)
        invariant nodes[..i] + Merge(nodes[i..]) == Merge(old(nodes))
        decreases |nodes| - i
      {
        if headers[cur].free && headers[cur].next != 0 {
          MergeAbsorbs(nodes, i);
          Absorb(cur, i);
          HeaderAt(headers, head, nodes, i);
        } else {
          MergeSkips(nodes, i);
        }
        if i + 1 < |nodes| {
          HeaderAt(headers, head, nodes, i + 1);
        }
        cur := headers[cur].next;
        i := i + 1;
      }
      MergeEnds(nodes, i);
    }

    /** Setting the writable bit of the page just mapped, through vmmngr_get_page. */
    method MarkWritable(virt: nat)
      requires Inv(space.View()) && virt < WORD_SPAN
      modifies space`mem
      ensures space.View() == AddWritable(old(space.View()), virt)
    {
      PageEntry.ZeroEntry();
      hide PageEntry.FrameNumber, PageEntry.IsPresent, PageEntry.AddAttrib;
      var t, k := space.GetPage(virt);
      if t != 0 {
        space.mem := space.mem[t := space.mem[t][k := PageEntry.AddAttrib(space.mem[t][k], 2)]];
      }
    }

    /** The mapping loop of malloc_init. */
    method MapPages(start: nat, n: nat)
      requires Inv(space.View()) && start < WORD_SPAN && base < WORD_SPAN
      modifies space`mem, space.allocator, space.allocator.memoryMap
      ensures Inv(space.View()) && space.View() == MapRange(old(space.View()), start, base, n)
    {
      hide Inv, AddWritable, MapRange, MapPage;
      var phys: nat, virt: nat := start, base;
      ghost var m := space.View();
      for i := 0 to n
        invariant Inv(space.View()) && phys < WORD_SPAN && virt < WORD_SPAN && Inv(m)
        invariant MapRange(m, start, base, n) == MapRange(space.View(), phys, virt, n - i)
      {
        MapRangeUnfolds(space.View(), phys, virt, n - i);
        space.MapPage(phys, virt);
        MarkWritable(virt);
        virt := Wrap(virt + PAGE_SIZE);
        phys := Wrap(phys + PAGE_SIZE);
      }
      MapRangeEnds(space.View(), phys, virt);
    }

    /** malloc_init */
    method Init(bytes: nat)
      requires Valid() && space.allocator.RoomFor(PagesFor(bytes))
      modifies this, space`mem, space.allocator, space.allocator.memoryMap
      ensures Valid() && inited && View() == HeapRuns.Init(old(View()), bytes)
      ensures nodes == Fresh(base, PagesFor(bytes)) && HoldsLeast(totalPages, bytes)
    {
      hide Inv, Linked, FrameMap.AllocBlocks, MapRange, HoldsLeast, Fresh;
      ShapeOfInv(space.View());
      GrabKeeps(space.View(), PagesFor(bytes));
      RunAddress(space.View().frames, PagesFor(bytes));
      totalPages := bytes / PAGE_SIZE;
      if bytes % PAGE_SIZE > 0 {
        totalPages := totalPages + 1;
      }
      physical := space.allocator.AllocBlocks(totalPages);
      head := base;
      MapPages(physical, totalPages);
      headers := headers[head := Header(Wrap(totalPages * PAGE_SIZE - HEADER), true, 0)];
      nodes := Fresh(base, totalPages);
      inited := true;
      LinkedFresh(headers, base, totalPages);
    }

    /** One round of the growth loop: `got` is 1 when a page was obtained. */
    method GrowOnce(cur: nat, virt: nat, ghost i: nat) returns (ghost got: nat)
      requires Valid() && inited && virt < WORD_SPAN
      requires i < |nodes| && cur == nodes[i].addr && nodes[i].size < WORD_SPAN
      modifies this`headers, this`nodes, this`totalPages, space`mem, space.allocator, space.allocator.memoryMap
      ensures Valid()
      ensures space.View() == GrowOne(old(space.View()), virt).0 && got == GrowOne(old(space.View()), virt).1
      ensures totalPages == old(totalPages) + got
      ensures nodes == old(nodes[i := nodes[i].(size := Wrap(nodes[i].size + got * PAGE_SIZE))])
    {
      hide Inv, Linked, FrameMap.AllocBlocks, MapPage;
      ShapeOfInv(space.View());
      GrabKeeps(space.View(), 1);
      AddressInRange(space.View().frames);
      GrowOneInv(space.View(), virt);
      var page, phys := space.AllocPage(0);
      got := 0;
      if phys != 0 {
        space.MapPage(phys, virt);
        page := PageEntry.AddAttrib(page, 2);
        HeaderAt(headers, head, nodes, i) by { LinkedNonempty(headers, head, nodes); }
        LinkedAfterUpdate(headers, head, nodes, i, nodes[i].(size := Wrap(nodes[i].size + PAGE_SIZE)));
        headers := headers[cur := headers[cur].(size := Wrap(headers[cur].size + PAGE_SIZE))];
        nodes := nodes[i := nodes[i].(size := Wrap(nodes[i].size + PAGE_SIZE))];
        totalPages := totalPages + 1;
        got := 1;
      }
    }

    /** The growth loop of malloc_next_block. */
    method Grow(cur: nat, pageCount: nat, ghost i: nat)
      requires Valid() && inited && i < |nodes| && cur == nodes[i].addr && nodes[i].size < WORD_SPAN
      modifies this`headers, this`nodes, this`totalPages, space`mem, space.allocator, space.allocator.memoryMap
      ensures Valid()
      ensures space.View() == GrowPages(old(space.View()), Wrap(old(base + totalPages * PAGE_SIZE)), pageCount).0
      ensures var got := GrowPages(old(space.View()), Wrap(old(base + totalPages * PAGE_SIZE)), pageCount).1;
              && totalPages == old(totalPages) + got
              && nodes == old(nodes[i := nodes[i].(size := Wrap(nodes[i].size + got * PAGE_SIZE))])
    {
      hide Inv, Linked, GrowPages, GrowOne;
      var virt: nat := Wrap(base + totalPages * PAGE_SIZE);
      ghost var total: nat, start, m, first := 0, virt, space.View(), nodes;
      for n := 0 to pageCount
        invariant Valid() && Inv(m) && virt < WORD_SPAN
        invariant GrowPages(m, start, pageCount).0 == GrowPages(space.View(), virt, pageCount - n).0
        invariant GrowPages(m, start, pageCount).1 == total + GrowPages(space.View(), virt, pageCount - n).1
        invariant totalPages == old(totalPages) + total
        invariant nodes == first[i := first[i].(size := Wrap(first[i].size + total * PAGE_SIZE))]
      {
        GrowPagesUnfolds(space.View(), virt, pageCount - n);
        ghost var got := GrowOnce(cur, virt, i);
        WrapTwice(first[i].size, total, got);
        virt := Wrap(virt + PAGE_SIZE);
        total := total + got;
      }
      GrowthEnds(space.View(), virt);
    }

    /** malloc_next_block */
    method NextBlock(size: nat) returns (ptr: nat)
      requires Valid() && inited
      requires nodes[0].size == 0 ==> space.allocator.RoomFor(PagesFor(size))
      requires size > 0 ==> CallDefined(if nodes[0].size == 0 then Fresh(base, PagesFor(size)) else nodes, size)
      modifies this, space`mem, space.allocator, space.allocator.memoryMap
      ensures Valid() && inited
      ensures View() == HeapRuns.NextBlock(old(View()), size).0 && ptr == HeapRuns.NextBlock(old(View()), size).1
    {
      hide Inv, Linked, GrowPages, HeapRuns.Init;
      if size == 0 {
        return 0;
      }
      LinkedNonempty(headers, head, nodes);
      HeaderAt(headers, head, nodes, 0);
      if headers[head].size == 0 {
        InitInv(View(), size);
        Init(size);
      }
      ptr := Take(size);
    }

    /** The part of malloc_next_block after the test of the head block. */
    method Take(size: nat) returns (ptr: nat)
      requires Valid() && inited && |nodes| > 0
      requires 0 < size && CallDefined(nodes, size)
      modifies this, space`mem, space.allocator, space.allocator.memoryMap
      ensures Valid() && inited
      ensures View() == HeapRuns.Take(old(View()), size).0 && ptr == HeapRuns.Take(old(View()), size).1
    {
      hide Inv, Linked, GrowPages, HeapRuns.Take, HeapList.Split, Find;
      TakeCases(View(), size);
      var cur, i := FindBlock(size);
      HeaderAt(headers, head, nodes, i);
      if headers[cur].size == size {
        LinkedAfterUpdate(headers, head, nodes, i, nodes[i].(free := false));
        headers := headers[cur := headers[cur].(free := false)];
        nodes := nodes[i := nodes[i].(free := false)];
      } else if headers[cur].size > size {
        Split(cur, size, i);
      } else {
        var pageCount := CountPages(headers[cur].size, size);
        Grow(cur, pageCount, i);
        Split(cur, size, i);
      }
      return cur + HEADER;
    }

    /** The page counting loop of malloc_next_block, in 32-bit arithmetic. */
    method CountPages(have: nat, size: nat) returns (pageCount: nat)
      requires have < size && size + HEADER < WORD_SPAN && CountEnds(have, size)
      ensures pageCount == PageCount(have, size, 1)
    {
      pageCount := 1;
      while Wrap(have + pageCount * PAGE_SIZE) < Wrap(size + HEADER)
        invariant 1 <= pageCount && have + (pageCount - 1) * PAGE_SIZE < size + HEADER
        invariant PageCount(have, size, pageCount) == PageCount(have, size, 1)
        decreases size + HEADER - have - pageCount * PAGE_SIZE
      {
        pageCount := pageCount + 1;
      }
    }

    /** The malloc system call */
    method Malloc(size: nat) returns (ptr: nat)
      requires Valid() && size < WORD_SPAN
      requires !inited || nodes[0].size == 0 ==> space.allocator.RoomFor(PagesFor(size))
      requires size > 0 ==> CallDefined(if !inited || nodes[0].size == 0 then Fresh(base, PagesFor(size)) else nodes, size)
      modifies this, space`mem, space.allocator, space.allocator.memoryMap
      ensures Valid() && inited
      ensures View() == HeapRuns.Malloc(old(View()), size).0 && ptr == HeapRuns.Malloc(old(View()), size).1
    {
      hide Inv, Linked, GrowPages, HeapRuns.Init, HeapRuns.NextBlock, MergeFrom;
      InitInv(View(), size);
      if inited {
        LinkedNonempty(headers, head, nodes);
      } else {
        Init(size);
      }
      ptr := NextBlock(size);
      MergeFreeBlocks();
    }

    /** malloc_free */
    method Free(ptr: nat)
      requires Valid() && inited
      modifies this`headers, this`nodes
      ensures Valid() && View() == HeapRuns.Free(old(View()), ptr)
    {
      hide Linked, Inv, MergeFrom;
      LinkedNonempty(headers, head, nodes);
      var cur := head;
      ghost var i := 0;
      HeaderAt(headers, head, nodes, 0);
      while headers[cur].next != 0
        invariant Valid() && nodes == old(nodes) && headers == old(headers)
        invariant i < |nodes| && cur == nodes[i].addr && cur in headers
        invariant headers[cur] == Header(nodes[i].size, nodes[i].free, NextOf(nodes, i))
        invariant NextOf(nodes, i) == 0 <==> i == |nodes| - 1
        invariant FindFreed(nodes, ptr, i) == FindFreed(nodes, ptr, 0)
        decreases |nodes| - i
      {
        if cur + HEADER == ptr {
          LinkedAfterUpdate(headers, head, nodes, i, nodes[i].(free := true));
          headers := headers[cur := headers[cur].(free := true)];
          nodes := nodes[i := nodes[i].(free := true)];
          MergeFreeBlocks();
          return;
        }
        HeaderAt(headers, head, nodes, i + 1);
        cur := headers[cur].next;
        i := i + 1;
      }
    }
  }

  /** malloc_next_block by the size of the chosen block. */
  lemma TakeCases(h: Heap, size: nat)
    requires Inv(h.machine) && |h.nodes| > 0
    ensures var i := Find(h.nodes, size, 0); var node := h.nodes[i]; var (h', ptr) := HeapRuns.Take(h, size);
            && ptr == node.addr + HEADER
            && (node.size == size ==> h' == h.(nodes := h.nodes[i := node.(free := false)]))
            && (node.size > size ==> h' == h.(nodes := HeapList.Split(h.nodes, i, size)))
            && (node.size < size ==>
                  var (m, got) := GrowPages(h.machine, Wrap(End(h)), PageCount(node.size, size, 1));
                  h' == h.(machine := m, nodes := HeapList.Split(h.nodes[i := node.(size := Wrap(node.size + got * PAGE_SIZE))], i, size), pages := h.pages + got))
  {
    hide Inv, HeapList.Split, Find, GrowPages;
    GrowthEnds(h.machine, Wrap(End(h)));
  }

  lemma WrapTwice(size: nat, got: nat, more: nat)
    ensures Wrap(Wrap(size + got * PAGE_SIZE) + more * PAGE_SIZE) == Wrap(size + (got + more) * PAGE_SIZE)
  {
  }

  lemma LinkedFresh(headers: map<nat, Header>, base: nat, pages: nat)
    requires base in headers && headers[base] == Header(Wrap(pages * PAGE_SIZE - HEADER), true, 0)
    ensures Linked(headers, base, Fresh(base, pages))
  {
  }

  lemma MapRangeUnfolds(m: Machine, phys: nat, virt: nat, n: nat)
    requires Inv(m) && phys < WORD_SPAN && virt < WORD_SPAN && n > 0
    ensures Inv(MapPage(m, phys, virt)) && Inv(AddWritable(MapPage(m, phys, virt), virt))
    ensures MapRange(m, phys, virt, n) == MapRange(AddWritable(MapPage(m, phys, virt), virt), Wrap(phys + PAGE_SIZE), Wrap(virt + PAGE_SIZE), n - 1)
  {
    hide MapPage, AddWritable, Inv;
    MapPageInv(m, phys, virt);
    AddWritableKeeps(MapPage(m, phys, virt), virt);
  }

  lemma MapRangeEnds(m: Machine, phys: nat, virt: nat)
    requires Inv(m) && phys < WORD_SPAN && virt < WORD_SPAN
    ensures MapRange(m, phys, virt, 0) == m
  {
  }

  lemma LinkedNonempty(headers: map<nat, Header>, head: nat, nodes: seq<Node>)
    requires Linked(headers, head, nodes)
    ensures |nodes| > 0 && nodes[0].addr == head
  {
  }

  lemma MergeAbsorbs(nodes: seq<Node>, i: nat)
    requires i + 1 < |nodes| && nodes[i].free
    ensures var n := nodes[i].(size := Wrap(nodes[i].size + nodes[i + 1].size + HEADER));
            var after := nodes[..i] + [n] + nodes[i + 2..];
            after[..i + 1] + Merge(after[i + 1..]) == nodes[..i] + Merge(nodes[i..])
  {
    var n := nodes[i].(size := Wrap(nodes[i].size + nodes[i + 1].size + HEADER));
    var after := nodes[..i] + [n] + nodes[i + 2..];
    hide Merge, Wrap;
    assert nodes[i..][2..] == nodes[i + 2..] && after[i + 1..] == nodes[i + 2..];
    assert after[..i + 1] == nodes[..i] + [n];
    HeapMerge.MergeUnfolds(nodes[i..]);
  }

  lemma MergeSkips(nodes: seq<Node>, i: nat)
    requires i + 1 < |nodes| && !nodes[i].free
    ensures nodes[..i + 1] + Merge(nodes[i + 1..]) == nodes[..i] + Merge(nodes[i..])
  {
    assert nodes[i..][1..] == nodes[i + 1..];
    assert nodes[..i + 1] == nodes[..i] + [nodes[i]];
  }

  lemma MergeEnds(nodes: seq<Node>, i: nat)
    requires i <= |nodes| && |nodes[i..]| <= 1
    ensures nodes[..i] + Merge(nodes[i..]) == nodes
  {
  }
}
