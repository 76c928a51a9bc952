/**
 The block list of the kernel heap as values: the nodes in link order, each with the address of
 its 12-byte header, its payload size and its free flag. Sizes and addresses wrap at 32 bits as
 the code's do.
 */
module HeapList {
  import opened Words

  const HEADER: nat := 12

  datatype Node = Node(addr: nat, size: nat, free: bool)

  // ---- the code's list operations

  /** The search of malloc_next_block: the first free block that fits, or the last block. */
  function Find(nodes: seq<Node>, size: nat, from: nat): (i: nat)
    requires from < |nodes|
    ensures from <= i < |nodes|
    ensures i == |nodes| - 1 || (nodes[i].free && nodes[i].size >= size)
    ensures forall k :: from <= k < i ==> !nodes[k].free || nodes[k].size < size
    decreases |nodes| - from
  {
    if from == |nodes| - 1 || (nodes[from].size >= size && nodes[from].free) then from
    else Find(nodes, size, from + 1)
  }

  /** The list with block `i` cut in two: `size` bytes in use, then `rest`. */
  function Cut(nodes: seq<Node>, i: nat, size: nat, rest: Node): seq<Node>
    requires i < |nodes|
  {
    nodes[..i] + [Node(nodes[i].addr, size, false), rest] + nodes[i + 1..]
  }

  /** malloc_split: the new block follows the payload; nothing checks that its header fits. */
  function Split(nodes: seq<Node>, i: nat, size: nat): seq<Node>
    requires i < |nodes|
  {
    Cut(nodes, i, size, Node(Wrap(nodes[i].addr + size + HEADER), Wrap(nodes[i].size - size - HEADER), true))
  }

  /** The least page count, at least `k`, with room for payload and header. */
  function PageCount(have: nat, size: nat, k: nat): (r: nat)
    ensures r >= k
    decreases size + HEADER - have - k * PAGE_SIZE
  {
    if have + k * PAGE_SIZE < size + HEADER then PageCount(have, size, k + 1) else k
  }

  /** Whether malloc_next_block must ask for more pages, and how many. */
  function PagesWanted(nodes: seq<Node>, size: nat): nat
    requires |nodes| > 0
  {
    var last := nodes[Find(nodes, size, 0)];
    if last.size < size then PageCount(last.size, size, 1) else 0
  }

  /** The list after malloc_next_block when `pages` more pages were obtained. */
  function Place(nodes: seq<Node>, size: nat, pages: nat): seq<Node>
    requires |nodes| > 0
  {
    var i := Find(nodes, size, 0);
    var node := nodes[i];
    if node.size == size then nodes[i := node.(free := false)]
    else if node.size > size then Split(nodes, i, size)
    else Split(nodes[i := node.(size := Wrap(node.size + pages * PAGE_SIZE))], i, size)
  }

  /** merge_free_blocks: a free block absorbs its neighbour, whether or not that one is free. */
  function Merge(nodes: seq<Node>): seq<Node> {
    if |nodes| <= 1 then nodes
    else if nodes[0].free then
      [nodes[0].(size := Wrap(nodes[0].size + nodes[1].size + HEADER))] + Merge(nodes[2..])
    else [nodes[0]] + Merge(nodes[1..])
  }

  /** The merge pass runs only from a nonzero list head. */
  function MergeFrom(head: nat, nodes: seq<Node>): seq<Node> {
    if head == 0 then nodes else Merge(nodes)
  }

  /** The block malloc_free looks for: the last block is never considered. */
  function FindFreed(nodes: seq<Node>, ptr: nat, from: nat): (i: nat)
    requires from < |nodes|
    ensures from <= i < |nodes|
    ensures i < |nodes| - 1 ==> nodes[i].addr + HEADER == ptr
    ensures forall k :: from <= k < i ==> nodes[k].addr + HEADER != ptr
    decreases |nodes| - from
  {
    if from == |nodes| - 1 || nodes[from].addr + HEADER == ptr then from
    else FindFreed(nodes, ptr, from + 1)
  }

  function Release(head: nat, nodes: seq<Node>, ptr: nat): seq<Node>
    requires |nodes| > 0
  {
    var i := FindFreed(nodes, ptr, 0);
    if i == |nodes| - 1 then nodes
    else MergeFrom(head, nodes[i := nodes[i].(free := true)])
  }

  /** malloc_init leaves one free block. */
  function Fresh(base: nat, pages: nat): seq<Node> {
    [Node(base, Wrap(pages * PAGE_SIZE - HEADER), true)]
  }

  /** The least number of pages that holds `bytes`. */
  predicate HoldsLeast(pages: nat, bytes: nat) {
    bytes <= pages * 4096 && (pages > 0 ==> (pages - 1) * 4096 < bytes)
  }

  /** The pages malloc_init takes. */
  function PagesFor(bytes: nat): (pages: nat)
    ensures HoldsLeast(pages, bytes)
  {
    bytes / PAGE_SIZE + (if bytes % PAGE_SIZE > 0 then 1 else 0)
  }

  lemma LeastIsUnique(a: nat, b: nat, bytes: nat)
    requires HoldsLeast(a, bytes) && HoldsLeast(b, bytes)
    ensures a == b
  {
  }

  // ---- what a sound list is

  /** Headers and payloads follow each other without gap or overlap from `base` to `end`. */
  predicate Tiled(nodes: seq<Node>, base: nat, end: nat) {
    && |nodes| > 0 && end <= WORD_SPAN
    && nodes[0].addr == base
    && (forall k :: 0 <= k < |nodes| - 1 ==> nodes[k + 1].addr == nodes[k].addr + HEADER + nodes[k].size)
    && nodes[|nodes| - 1].addr + HEADER + nodes[|nodes| - 1].size == end
  }

  /** The list tiles the heap, the last block is free, and the first is not empty. */
  predicate Sound(nodes: seq<Node>, base: nat, end: nat) {
    && Tiled(nodes, base, end)
    && nodes[|nodes| - 1].free
    && nodes[0].size > 0
  }

  /** The blocks in use, as the pointer handed out and the size. */
  function Live(nodes: seq<Node>): set<(nat, nat)> {
    set n <- nodes | !n.free :: (n.addr + HEADER, n.size)
  }

  lemma {:induction false} TiledOrder(nodes: seq<Node>, base: nat, end: nat, j: nat, k: nat)
    requires Tiled(nodes, base, end) && j < k < |nodes|
    ensures nodes[j].addr + HEADER + nodes[j].size <= nodes[k].addr
    decreases k - j
  {
    if j + 1 < k {
      TiledOrder(nodes, base, end, j + 1, k);
    }
  }

  lemma TiledBounds(nodes: seq<Node>, base: nat, end: nat, k: nat)
    requires Tiled(nodes, base, end) && k < |nodes|
    ensures base <= nodes[k].addr && nodes[k].addr + HEADER + nodes[k].size <= end
  {
    if k > 0 {
      TiledOrder(nodes, base, end, 0, k);
    }
    if k < |nodes| - 1 {
      TiledOrder(nodes, base, end, k, |nodes| - 1);
    }
  }

  /** Blocks of a tiled list do not overlap, headers included. */
  lemma BlocksDisjoint(nodes: seq<Node>, base: nat, end: nat)
    requires Tiled(nodes, base, end)
    ensures forall j, k :: 0 <= j < k < |nodes| ==> nodes[j].addr + HEADER + nodes[j].size <= nodes[k].addr
    ensures forall k :: 0 <= k < |nodes| ==> base <= nodes[k].addr && nodes[k].addr + HEADER + nodes[k].size <= end
  {
    forall j, k | 0 <= j < k < |nodes|
      ensures nodes[j].addr + HEADER + nodes[j].size <= nodes[k].addr
    {
      TiledOrder(nodes, base, end, j, k);
    }
    forall k | 0 <= k < |nodes|
      ensures base <= nodes[k].addr && nodes[k].addr + HEADER + nodes[k].size <= end
    {
      TiledBounds(nodes, base, end, k);
    }
  }

  // ---- initialization

  /** malloc_init builds a sound list exactly when it is asked for at least one byte. */
  lemma FreshIsSound(base: nat, bytes: nat)
    requires base + PagesFor(bytes) * PAGE_SIZE <= WORD_SPAN
    ensures Sound(Fresh(base, PagesFor(bytes)), base, base + PagesFor(bytes) * PAGE_SIZE) <==> bytes > 0
  {
  }

  // ---- allocation

  lemma {:induction false} PageCountIsLeast(have: nat, size: nat, k: nat)
    ensures var r := PageCount(have, size, k);
            && have + r * PAGE_SIZE >= size + HEADER
            && (r > k ==> have + (r - 1) * PAGE_SIZE < size + HEADER)
    decreases size + HEADER - have - k * PAGE_SIZE
  {
    if have + k * PAGE_SIZE < size + HEADER {
      PageCountIsLeast(have, size, k + 1);
    }
  }

  /** Some free block is large enough for the request. */
  predicate Serviceable(nodes: seq<Node>, size: nat) {
    exists k :: 0 <= k < |nodes| && nodes[k].free && nodes[k].size >= size
  }

  /** `p` is the least number of pages, from one up, that gives `have` room for payload and header. */
  predicate LeastGrowth(have: nat, size: nat, p: nat) {
    p >= 1 && have + p * 4096 >= size + 12 && (p > 1 ==> have + (p - 1) * 4096 < size + 12)
  }

  /** No page is wanted when a free block is large enough, else the least number for the last block. */
  lemma WantedIsLeast(nodes: seq<Node>, size: nat)
    requires |nodes| > 0 && nodes[|nodes| - 1].free
    ensures if Serviceable(nodes, size) then PagesWanted(nodes, size) == 0
            else LeastGrowth(nodes[|nodes| - 1].size, size, PagesWanted(nodes, size))
  {
    var i := Find(nodes, size, 0);
    if nodes[i].size >= size {
      assert nodes[i].free;
    } else {
      PageCountIsLeast(nodes[i].size, size, 1);
    }
  }

  /** The chosen block fits exactly without being the last, leaves room for a header, or grows. */
  predicate Slack(nodes: seq<Node>, size: nat)
    requires |nodes| > 0
  {
    var i := Find(nodes, size, 0);
    if nodes[i].size == size then i < |nodes| - 1
    else nodes[i].size > size ==> nodes[i].size >= size + HEADER
  }

  /** The request does not run into the end of the 32-bit address space. */
  predicate Addressable(end: nat, size: nat) {
    end + size + HEADER + PAGE_SIZE <= WORD_SPAN
  }

  lemma CutTiles(nodes: seq<Node>, base: nat, end: nat, i: nat, size: nat, rest: Node)
    requires Tiled(nodes, base, end) && i < |nodes|
    requires rest.addr == nodes[i].addr + HEADER + size
    ensures Tiled(Cut(nodes, i, size, rest), base, end) <==> rest.addr + HEADER + rest.size == nodes[i].addr + HEADER + nodes[i].size
  {
    var after := Cut(nodes, i, size, rest);
    assert after[i] == Node(nodes[i].addr, size, false) && after[i + 1] == rest;
    assert forall k :: 0 <= k < i ==> after[k] == nodes[k];
    assert forall k :: i + 2 <= k < |after| ==> after[k] == nodes[k - 1];
    if i == |nodes| - 1 {
      assert |after| - 1 == i + 1;
    } else {
      assert after[i + 2].addr == nodes[i].addr + HEADER + nodes[i].size;
      assert after[|after| - 1] == nodes[|nodes| - 1];
    }
  }

  /** Splitting keeps the tiling exactly when the new header fits. */
  lemma SplitTiles(nodes: seq<Node>, base: nat, end: nat, i: nat, size: nat)
    requires Tiled(nodes, base, end) && i < |nodes| && size < nodes[i].size
    ensures Tiled(Split(nodes, i, size), base, end) <==> nodes[i].size >= size + HEADER
  {
    TiledBounds(nodes, base, end, i);
    var node := nodes[i];
    CutTiles(nodes, base, end, i, size, Node(node.addr + size + HEADER, Wrap(node.size - size - HEADER), true));
  }

  /** Growing the last block extends the tiling. */
  lemma GrowTiles(nodes: seq<Node>, base: nat, end: nat, more: nat)
    requires Tiled(nodes, base, end) && end + more <= WORD_SPAN
    ensures var n := |nodes| - 1; Tiled(nodes[n := nodes[n].(size := nodes[n].size + more)], base, end + more)
  {
  }

  function LiveOne(n: Node): set<(nat, nat)> {
    if n.free then {} else {(n.addr + HEADER, n.size)}
  }

  lemma LiveConcat(a: seq<Node>, b: seq<Node>)
    ensures Live(a + b) == Live(a) + Live(b)
  {
    assert forall n :: n in a + b <==> n in a || n in b;
  }

  lemma LiveSingle(n: Node)
    ensures Live([n]) == LiveOne(n)
  {
  }

  lemma LiveAt(nodes: seq<Node>, i: nat)
    requires i < |nodes|
    ensures Live(nodes) == Live(nodes[..i]) + LiveOne(nodes[i]) + Live(nodes[i + 1..])
  {
    hide Live;
    assert nodes == nodes[..i] + ([nodes[i]] + nodes[i + 1..]);
    LiveConcat(nodes[..i], [nodes[i]] + nodes[i + 1..]);
    LiveConcat([nodes[i]], nodes[i + 1..]);
    LiveSingle(nodes[i]);
  }

  lemma CutLive(nodes: seq<Node>, i: nat, size: nat, rest: Node)
    requires i < |nodes| && nodes[i].free && rest.free
    ensures Live(Cut(nodes, i, size, rest)) == Live(nodes) + {(nodes[i].addr + HEADER, size)}
  {
    LiveAt(nodes, i);
    var after := Cut(nodes, i, size, rest);
    LiveAt(after, i);
    assert after[..i] == nodes[..i] && after[i + 1..] == [rest] + nodes[i + 1..];
    LiveConcat([rest], nodes[i + 1..]);
    assert Live([rest]) == {};
  }

  lemma UpdateLive(nodes: seq<Node>, i: nat, n: Node)
    requires i < |nodes|
    ensures Live(nodes[i := n]) == Live(nodes[..i]) + LiveOne(n) + Live(nodes[i + 1..])
  {
    LiveAt(nodes[i := n], i);
    assert nodes[i := n][..i] == nodes[..i] && nodes[i := n][i + 1..] == nodes[i + 1..];
  }

  /** Under a sound list the block malloc takes is free and its address is nobody else's. */
  lemma FindIsFree(nodes: seq<Node>, base: nat, end: nat, size: nat)
    requires Sound(nodes, base, end)
    ensures var i := Find(nodes, size, 0);
            && nodes[i].free
            && forall b <- Live(nodes) :: b.0 != nodes[i].addr + HEADER
  {
    BlocksDisjoint(nodes, base, end);
  }

  lemma CutSound(nodes: seq<Node>, base: nat, end: nat, i: nat, size: nat, rest: Node)
    requires i < |nodes| && size > 0 && rest.free
    requires nodes[|nodes| - 1].free && nodes[0].size > 0
    ensures Sound(Cut(nodes, i, size, rest), base, end) <==> Tiled(Cut(nodes, i, size, rest), base, end)
  {
    var after := Cut(nodes, i, size, rest);
    assert after[|after| - 1].free;
    assert after[0].size > 0;
  }

  lemma TakeSound(nodes: seq<Node>, base: nat, end: nat, i: nat)
    requires Sound(nodes, base, end) && i < |nodes|
    ensures Sound(nodes[i := nodes[i].(free := false)], base, end) <==> i < |nodes| - 1
  {
  }

  lemma PlaceExact(nodes: seq<Node>, base: nat, end: nat, i: nat)
    requires Sound(nodes, base, end) && i < |nodes| && nodes[i].free
    ensures var after := nodes[i := nodes[i].(free := false)];
            && (Sound(after, base, end) <==> i < |nodes| - 1)
            && Live(after) == Live(nodes) + {(nodes[i].addr + HEADER, nodes[i].size)}
  {
    hide Live, Sound;
    TakeSound(nodes, base, end, i);
    LiveAt(nodes, i);
    UpdateLive(nodes, i, nodes[i].(free := false));
  }

  lemma PlaceSplit(nodes: seq<Node>, base: nat, end: nat, i: nat, size: nat)
    requires Sound(nodes, base, end) && i < |nodes| && nodes[i].free && 0 < size < nodes[i].size
    ensures Sound(Split(nodes, i, size), base, end) <==> nodes[i].size >= size + HEADER
    ensures Live(Split(nodes, i, size)) == Live(nodes) + {(nodes[i].addr + HEADER, size)}
  {
    hide Live, Cut;
    var rest := Node(Wrap(nodes[i].addr + size + HEADER), Wrap(nodes[i].size - size - HEADER), true);
    SplitTiles(nodes, base, end, i, size);
    CutSound(nodes, base, end, i, size, rest);
    CutLive(nodes, i, size, rest);
  }

  lemma PlaceGrow(nodes: seq<Node>, base: nat, end: nat, size: nat, more: nat)
    requires Sound(nodes, base, end) && end + more <= WORD_SPAN && more > 0
    ensures var n := |nodes| - 1; var grown := nodes[n := nodes[n].(size := nodes[n].size + more)];
            && Sound(grown, base, end + more) && Live(grown) == Live(nodes)
  {
    var n := |nodes| - 1;
    GrowTiles(nodes, base, end, more);
    LiveAt(nodes, n);
    UpdateLive(nodes, n, nodes[n].(size := nodes[n].size + more));
    hide Live;
  }

  /**
   Allocation in a sound list with all wanted pages obtained: the list stays sound exactly when
   there is slack, and then the blocks in use are those before and the new one.
   */
  lemma PlaceIsSound(nodes: seq<Node>, base: nat, end: nat, size: nat)
    requires Sound(nodes, base, end) && size > 0 && Addressable(end, size)
    ensures var pages := PagesWanted(nodes, size); var after := Place(nodes, size, pages);
            && (Sound(after, base, end + pages * PAGE_SIZE) <==> Slack(nodes, size))
            && Live(after) == Live(nodes) + {(nodes[Find(nodes, size, 0)].addr + HEADER, size)}
  {
    hide Sound, Live, Split;
    SoundLast(nodes, base, end);
    var i := Find(nodes, size, 0);
    var node := nodes[i];
    FindIsFree(nodes, base, end, size);
    if node.size == size {
      PlaceExact(nodes, base, end, i);
    } else if node.size > size {
      PlaceSplit(nodes, base, end, i, size);
    } else {
      var pages := PageCount(node.size, size, 1);
      PageCountIsLeast(node.size, size, 1);
      PlaceGrow(nodes, base, end, size, pages * PAGE_SIZE);
      PlaceSplit(nodes[i := node.(size := node.size + pages * PAGE_SIZE)], base, end + pages * PAGE_SIZE, i, size);
    }
  }

  /** Without slack: the new header runs past the page and its size wraps to almost 4 GiB. */
  lemma SplitWithoutRoom()
    ensures Sound(Fresh(0, 1), 0, PAGE_SIZE) && Find(Fresh(0, 1), 4080, 0) == 0
    ensures Place(Fresh(0, 1), 4080, 0) == [Node(0, 4080, false), Node(4092, WORD_SPAN - 8, true)]
  {
  }

  /**
   Without slack: an exact fit in the last block leaves it in use, yet the next request of that
   size that finds no free block receives the same block again.
   */
  lemma LastBlockTwice(nodes: seq<Node>, size: nat)
    requires |nodes| > 0 && Find(nodes, size, 0) == |nodes| - 1 && nodes[|nodes| - 1].size == size
    ensures var after := Place(nodes, size, 0);
            && !after[|nodes| - 1].free
            && Find(after, size, 0) == |nodes| - 1
            && PagesWanted(after, size) == 0
            && Place(after, size, 0) == after
  {
    var after := Place(nodes, size, 0);
    assert forall k :: 0 <= k < |nodes| - 1 ==> after[k] == nodes[k];
  }

  /** Any split of a tiled list, whether there is room or not. */
  lemma AnySplitTiles(nodes: seq<Node>, base: nat, end: nat, i: nat, size: nat)
    requires Tiled(nodes, base, end) && i < |nodes| && nodes[i].addr + size + HEADER < WORD_SPAN
    ensures Tiled(Split(nodes, i, size), base, end) <==> nodes[i].size >= size + HEADER
  {
    TiledBounds(nodes, base, end, i);
    TiledEnd(nodes, base, end);
    hide Tiled, Cut;
    var node := nodes[i];
    SizeLeft(node.size, size);
    CutTiles(nodes, base, end, i, size, Node(node.addr + size + HEADER, Wrap(node.size - size - HEADER), true));
  }

  lemma TiledEnd(nodes: seq<Node>, base: nat, end: nat)
    requires Tiled(nodes, base, end)
    ensures end <= WORD_SPAN
  {
  }

  lemma SizeLeft(have: nat, size: nat)
    requires have < WORD_SPAN && size + HEADER < WORD_SPAN
    ensures Wrap(have - size - HEADER) == have - size - HEADER <==> have >= size + HEADER
  {
  }

  /**
   Growth that obtains fewer pages than wanted still splits: the block is handed out all the
   same, and the list stays sound exactly when what was obtained has room for it.
   */
  lemma PlaceShort(nodes: seq<Node>, base: nat, end: nat, size: nat, pages: nat)
    requires Sound(nodes, base, end) && size > 0 && Addressable(end, size) && end + pages * PAGE_SIZE <= WORD_SPAN
    requires nodes[Find(nodes, size, 0)].size < size
    ensures var i := Find(nodes, size, 0); var after := Place(nodes, size, pages);
            && (Sound(after, base, end + pages * PAGE_SIZE) <==> nodes[i].size + pages * PAGE_SIZE >= size + HEADER)
            && Live(after) == Live(nodes) + {(nodes[i].addr + HEADER, size)}
  {
    hide Live, Split, Sound;
    SoundLast(nodes, base, end);
    var i := Find(nodes, size, 0);
    FindIsFree(nodes, base, end, size);
    LastFits(nodes, base, end);
    var more := pages * PAGE_SIZE;
    var grown := nodes[i := nodes[i].(size := nodes[i].size + more)];
    if more > 0 {
      PlaceGrow(nodes, base, end, size, more);
    } else {
      assert grown == nodes;
    }
    SplitAny(grown, base, end + more, i, size);
  }

  lemma LastFits(nodes: seq<Node>, base: nat, end: nat)
    requires Sound(nodes, base, end)
    ensures |nodes| > 0 && nodes[|nodes| - 1].addr + HEADER + nodes[|nodes| - 1].size == end <= WORD_SPAN
  {
  }

  lemma SplitAny(nodes: seq<Node>, base: nat, end: nat, i: nat, size: nat)
    requires Sound(nodes, base, end) && i < |nodes| && nodes[i].free && 0 < size && nodes[i].addr + size + HEADER < WORD_SPAN
    ensures Sound(Split(nodes, i, size), base, end) <==> nodes[i].size >= size + HEADER
    ensures Live(Split(nodes, i, size)) == Live(nodes) + {(nodes[i].addr + HEADER, size)}
  {
    hide Live, Cut;
    var rest := Node(Wrap(nodes[i].addr + size + HEADER), Wrap(nodes[i].size - size - HEADER), true);
    AnySplitTiles(nodes, base, end, i, size);
    CutSound(nodes, base, end, i, size, rest);
    CutLive(nodes, i, size, rest);
  }

  lemma SoundLast(nodes: seq<Node>, base: nat, end: nat)
    requires Sound(nodes, base, end)
    ensures |nodes| > 0 && nodes[|nodes| - 1].size <= end
  {
  }

  /** No other block in use has the address of block `i`. */
  lemma LiveApart(nodes: seq<Node>, base: nat, end: nat, i: nat)
    requires Tiled(nodes, base, end) && i < |nodes|
    ensures forall b <- Live(nodes[..i]) + Live(nodes[i + 1..]) :: b.0 != nodes[i].addr + HEADER
  {
    BlocksDisjoint(nodes, base, end);
  }
}
