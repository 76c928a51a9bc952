/**
 What the boot sequence does to single blocks, in terms of the byte ranges of its regions: the
 last region that contains a block decides whether it is in use.
 */
module BootRegions {
  import opened FrameMap
  import opened FramePool

  /** Block `b` lies wholly inside the bytes of the region. */
  predicate Inside(step: BootStep, b: nat) {
    step.base <= b * BLOCK_SIZE && (b + 1) * BLOCK_SIZE <= step.base + step.size
  }

  /** Some byte of block `b` lies in the region. */
  predicate Meets(step: BootStep, b: nat) {
    b * BLOCK_SIZE < step.base + step.size && step.base < (b + 1) * BLOCK_SIZE
  }

  /** The partial blocks at the two ends make up less than a block, or there is no whole block. */
  predicate RoundsWell(step: BootStep) {
    step.base % BLOCK_SIZE + step.size % BLOCK_SIZE < BLOCK_SIZE || step.size < BLOCK_SIZE
  }

  /** The blocks the code's two divisions choose. */
  predicate Chosen(step: BootStep, b: nat) {
    First(step) <= b < First(step) + Length(step)
  }

  lemma ChosenMeets(step: BootStep, b: nat)
    requires Chosen(step, b)
    ensures Meets(step, b)
  {
    assert First(step) * BLOCK_SIZE <= step.base < (First(step) + 1) * BLOCK_SIZE;
    assert Length(step) * BLOCK_SIZE <= step.size;
  }

  /** The divisions choose every whole block of the region exactly when its partial blocks are small. */
  lemma InsideIsChosen(step: BootStep)
    ensures (forall b: nat :: Inside(step, b) ==> Chosen(step, b)) <==> RoundsWell(step)
  {
    var r, t := step.base % BLOCK_SIZE, step.size % BLOCK_SIZE;
    assert step.base == First(step) * BLOCK_SIZE + r && step.size == Length(step) * BLOCK_SIZE + t;
    if !RoundsWell(step) {
      assert Inside(step, First(step) + Length(step));
    }
  }

  /** One step, block by block; freeing leaves block 0 in use. */
  lemma StepBit(f: Frames, step: BootStep, b: nat)
    requires b < |f.bits|
    ensures |Boot(f, step).bits| == |f.bits|
    ensures Boot(f, step).bits[b] ==
            if step.FreeRegion? && b == 0 then true else if Chosen(step, b) then step.Reserve? else f.bits[b]
  {
  }

  lemma {:induction false} UsedStays(f: Frames, steps: seq<BootStep>, b: nat)
    requires b < |f.bits| && f.bits[b]
    requires forall j :: 0 <= j < |steps| && steps[j].FreeRegion? && b > 0 ==> !Meets(steps[j], b)
    ensures |BootRun(f, steps).bits| == |f.bits| && BootRun(f, steps).bits[b]
    decreases |steps|
  {
    hide Boot, Meets, Chosen;
    if steps != [] {
      StepBit(f, steps[0], b);
      if Chosen(steps[0], b) {
        ChosenMeets(steps[0], b);
      }
      UsedStays(Boot(f, steps[0]), steps[1..], b);
    }
  }

  lemma {:induction false} FreeStays(f: Frames, steps: seq<BootStep>, b: nat)
    requires 0 < b < |f.bits| && !f.bits[b]
    requires forall j :: 0 <= j < |steps| && steps[j].Reserve? ==> !Meets(steps[j], b)
    ensures |BootRun(f, steps).bits| == |f.bits| && !BootRun(f, steps).bits[b]
    decreases |steps|
  {
    hide Boot, Meets, Chosen;
    if steps != [] {
      StepBit(f, steps[0], b);
      if Chosen(steps[0], b) {
        ChosenMeets(steps[0], b);
      }
      FreeStays(Boot(f, steps[0]), steps[1..], b);
    }
  }

  /**
   A block wholly inside a reserved region that no later freed region meets is in use after boot,
   whatever came before.
   */
  lemma {:induction false} ReservedIsUsed(f: Frames, steps: seq<BootStep>, i: nat, b: nat)
    requires b < |f.bits| && i < |steps| && steps[i].Reserve? && Inside(steps[i], b) && RoundsWell(steps[i])
    requires forall j :: i < j < |steps| && steps[j].FreeRegion? ==> !Meets(steps[j], b)
    ensures |BootRun(f, steps).bits| == |f.bits| && BootRun(f, steps).bits[b]
    decreases |steps|
  {
    hide Boot, Meets, Chosen, Inside, RoundsWell;
    StepBit(f, steps[0], b);
    if i == 0 {
      InsideIsChosen(steps[0]);
      UsedStays(Boot(f, steps[0]), steps[1..], b);
    } else {
      ReservedIsUsed(Boot(f, steps[0]), steps[1..], i - 1, b);
    }
  }

  /** A block but 0 wholly inside a freed region that no later reserved region meets is free after boot. */
  lemma {:induction false} FreedIsFree(f: Frames, steps: seq<BootStep>, i: nat, b: nat)
    requires 0 < b < |f.bits| && i < |steps| && steps[i].FreeRegion? && Inside(steps[i], b) && RoundsWell(steps[i])
    requires forall j :: i < j < |steps| && steps[j].Reserve? ==> !Meets(steps[j], b)
    ensures |BootRun(f, steps).bits| == |f.bits| && !BootRun(f, steps).bits[b]
    decreases |steps|
  {
    hide Boot, Meets, Chosen, Inside, RoundsWell;
    StepBit(f, steps[0], b);
    if i == 0 {
      InsideIsChosen(steps[0]);
      FreeStays(Boot(f, steps[0]), steps[1..], b);
    } else {
      FreedIsFree(Boot(f, steps[0]), steps[1..], i - 1, b);
    }
  }

  /** A block no region meets keeps its bit, block 0 apart, which any freed region sets. */
  lemma {:induction false} OutsideStays(f: Frames, steps: seq<BootStep>, b: nat)
    requires b < |f.bits| && forall j :: 0 <= j < |steps| ==> !Meets(steps[j], b)
    ensures |BootRun(f, steps).bits| == |f.bits|
    ensures BootRun(f, steps).bits[b] == (f.bits[b] || (b == 0 && exists j :: 0 <= j < |steps| && steps[j].FreeRegion?))
    decreases |steps|
  {
    hide Boot, Meets, Chosen;
    if steps != [] {
      StepBit(f, steps[0], b);
      if Chosen(steps[0], b) {
        ChosenMeets(steps[0], b);
      }
      var rest := steps[1..];
      OutsideStays(Boot(f, steps[0]), rest, b);
      if j :| 0 <= j < |rest| && rest[j].FreeRegion? {
        assert steps[j + 1].FreeRegion?;
      }
      if j :| 0 <= j < |steps| && steps[j].FreeRegion? && j > 0 {
        assert rest[j - 1].FreeRegion?;
      }
    }
  }

  /**
   Reserving a free region puts every byte of it in a used block exactly when it is empty or has
   no partial block at either end.
   */
  lemma ReserveMarksRegion(f: Frames, base: nat, size: nat)
    requires forall a: nat :: base <= a < base + size ==> BlockOf(a) < |f.bits| && !f.bits[BlockOf(a)]
    ensures |Boot(f, Reserve(base, size)).bits| == |f.bits|
    ensures (forall a: nat :: base <= a < base + size ==> Boot(f, Reserve(base, size)).bits[BlockOf(a)])
            <==> size == 0 || (base % BLOCK_SIZE == 0 && size % BLOCK_SIZE == 0)
  {
    hide Boot, BlockOf;
    ReserveCoversRegion(base, size);
    var step := Reserve(base, size);
    SameSize(f, step);
    forall a: nat | base <= a < base + size
      ensures Boot(f, step).bits[BlockOf(a)] <==> First(step) <= BlockOf(a) < First(step) + Length(step)
    {
      StepBit(f, step, BlockOf(a));
    }
  }

  lemma SameSize(f: Frames, step: BootStep)
    ensures |Boot(f, step).bits| == |f.bits|
  {
  }

  /** Freeing a used region clear of block 0 frees the block of every byte under the same condition. */
  lemma FreeClearsRegion(f: Frames, base: nat, size: nat)
    requires base >= BLOCK_SIZE
    requires forall a: nat :: base <= a < base + size ==> BlockOf(a) < |f.bits| && f.bits[BlockOf(a)]
    ensures |Boot(f, FreeRegion(base, size)).bits| == |f.bits|
    ensures (forall a: nat :: base <= a < base + size ==> !Boot(f, FreeRegion(base, size)).bits[BlockOf(a)])
            <==> size == 0 || (base % BLOCK_SIZE == 0 && size % BLOCK_SIZE == 0)
  {
    hide Boot, BlockOf;
    ReserveCoversRegion(base, size);
    var step := FreeRegion(base, size);
    SameSize(f, step);
    forall a: nat | base <= a < base + size
      ensures !Boot(f, step).bits[BlockOf(a)] <==> First(step) <= BlockOf(a) < First(step) + Length(step)
    {
      StepBit(f, step, BlockOf(a));
    }
  }
}
