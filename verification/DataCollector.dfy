/** Batched polling: registers are sorted, greedily merged into contiguous reads and sliced
    back. The batched read must give the same answers as reading each register alone. */
module DataCollector {
  import opened DeviceModels

  // Largest total length of a read that merges several fields.
  const MAX_READ_QUANTITY: int := 64

  // ---------------------------------------------------------------- cuts of the sorted order

  // The fields before `hi` from `lo` on, laid out one after another.
  function TotalLength(regs: seq<RegisterConfig>, lo: nat, hi: nat): int
    requires lo <= hi <= |regs|
    decreases hi - lo
  {
    if lo == hi then 0 else TotalLength(regs, lo, hi - 1) + regs[hi - 1].length
  }

  // The field at position p continues, without a gap, a run that starts at position lo.
  ghost predicate InRun(regs: seq<RegisterConfig>, lo: nat, p: nat)
    requires lo <= p < |regs|
  {
    && regs[p].regType == regs[lo].regType
    && regs[p].localAddress == regs[lo].localAddress + TotalLength(regs, lo, p)
  }

  // Fields lo..hi of the sorted order may share one read.
  ghost predicate Mergeable(regs: seq<RegisterConfig>, lo: nat, hi: nat)
    requires hi <= |regs|
  {
    && lo < hi
    && (forall p | lo <= p < hi :: InRun(regs, lo, p))
    && (hi - lo == 1 || TotalLength(regs, lo, hi) <= 64)
  }

  function Start(ends: seq<nat>, j: nat): nat
    requires j <= |ends|
  {
    if j == 0 then 0 else ends[j - 1]
  }

  // Read j of a cut is a legal read: it covers positions Start(j) up to ends[j].
  ghost predicate LegalRead(regs: seq<RegisterConfig>, ends: seq<nat>, j: nat)
    requires j < |ends|
  {
    Start(ends, j) < ends[j] <= |regs| && Mergeable(regs, Start(ends, j), ends[j])
  }

  // Read j could not have taken one more field.
  ghost predicate Maximal(regs: seq<RegisterConfig>, ends: seq<nat>, j: nat)
    requires j < |ends|
  {
    ends[j] < |regs| && !Mergeable(regs, Start(ends, j), ends[j] + 1)
  }

  // `ends` cuts the sorted order into legal reads.
  ghost predicate IsCut(regs: seq<RegisterConfig>, ends: seq<nat>) {
    && Start(ends, |ends|) == |regs|
    && forall j | 0 <= j < |ends| :: LegalRead(regs, ends, j)
  }

  ghost predicate IsGreedy(regs: seq<RegisterConfig>, ends: seq<nat>) {
    && IsCut(regs, ends)
    && forall j | 0 <= j < |ends| - 1 :: Maximal(regs, ends, j)
  }

  ghost predicate LengthsOk(regs: seq<RegisterConfig>) {
    forall i | 0 <= i < |regs| :: regs[i].length >= 1
  }

  lemma {:induction false} TotalSplits(regs: seq<RegisterConfig>, lo: nat, mid: nat, hi: nat)
    requires lo <= mid <= hi <= |regs|
    ensures TotalLength(regs, lo, hi) == TotalLength(regs, lo, mid) + TotalLength(regs, mid, hi)
    decreases hi - mid
  {
    if mid < hi {
      TotalSplits(regs, lo, mid, hi - 1);
    }
  }

  lemma {:induction false} TotalNonNegative(regs: seq<RegisterConfig>, lo: nat, hi: nat)
    requires LengthsOk(regs) && lo <= hi <= |regs|
    ensures TotalLength(regs, lo, hi) >= 0
    decreases hi - lo
  {
    if lo < hi {
      TotalNonNegative(regs, lo, hi - 1);
    }
  }

  lemma OffsetInRange(regs: seq<RegisterConfig>, lo: nat, q: nat, hi: nat)
    requires LengthsOk(regs) && lo <= q < hi <= |regs|
    ensures 0 <= TotalLength(regs, lo, q) && TotalLength(regs, lo, q) + regs[q].length <= TotalLength(regs, lo, hi)
  {
    TotalSplits(regs, lo, q + 1, hi);
    TotalNonNegative(regs, lo, q);
    TotalNonNegative(regs, q + 1, hi);
  }

  // Any run inside a mergeable run is mergeable.
  lemma MergeableInside(regs: seq<RegisterConfig>, lo: nat, a: nat, b: nat, hi: nat)
    requires LengthsOk(regs) && lo <= a < b <= hi <= |regs|
    requires Mergeable(regs, lo, hi)
    ensures Mergeable(regs, a, b)
  {
    forall p | a <= p < b
      ensures InRun(regs, a, p)
    {
      assert InRun(regs, lo, p) && InRun(regs, lo, a);
      TotalSplits(regs, lo, a, p);
    }
    TotalSplits(regs, lo, a, hi);
    TotalSplits(regs, a, b, hi);
    TotalNonNegative(regs, lo, a);
    TotalNonNegative(regs, b, hi);
  }

  // A read starting no later cannot end past a read that could not be extended.
  lemma CannotOvertake(regs: seq<RegisterConfig>, otherLo: nat, otherHi: nat, lo: nat, hi: nat)
    requires LengthsOk(regs) && otherLo <= lo < hi < |regs| && otherHi <= |regs|
    requires Mergeable(regs, otherLo, otherHi) && !Mergeable(regs, lo, hi + 1)
    ensures otherHi <= hi
  {
    if hi < otherHi {
      MergeableInside(regs, otherLo, lo, hi + 1, otherHi);
    }
  }

  lemma ReadOf(regs: seq<RegisterConfig>, ends: seq<nat>, j: nat)
    requires IsCut(regs, ends) && j < |ends|
    ensures Start(ends, j) < ends[j] <= |regs| && Mergeable(regs, Start(ends, j), ends[j])
  {
    assert LegalRead(regs, ends, j);
  }

  // After every number of reads, the greedy cut has covered at least as much as any other.
  lemma {:induction false} GreedyStaysAhead(regs: seq<RegisterConfig>, greedy: seq<nat>, other: seq<nat>, j: nat)
    requires LengthsOk(regs) && IsGreedy(regs, greedy) && IsCut(regs, other)
    requires j <= |greedy| && j <= |other|
    ensures Start(other, j) <= Start(greedy, j)
  {
    if j > 0 {
      GreedyStaysAhead(regs, greedy, other, j - 1);
      ReadOf(regs, greedy, j - 1);
      ReadOf(regs, other, j - 1);
      if j < |greedy| {
        assert Maximal(regs, greedy, j - 1);
        CannotOvertake(regs, Start(other, j - 1), other[j - 1], Start(greedy, j - 1), greedy[j - 1]);
      }
    }
  }

  /** No cut of the sorted order into legal reads needs fewer reads than the greedy one. */
  lemma GreedyIsOptimal(regs: seq<RegisterConfig>, greedy: seq<nat>, other: seq<nat>)
    requires LengthsOk(regs) && IsGreedy(regs, greedy) && IsCut(regs, other)
    ensures |greedy| <= |other|
  {
    if |other| < |greedy| {
      ReadOf(regs, greedy, |other|);
      GreedyStaysAhead(regs, greedy, other, |other|);
    }
  }

  // ---------------------------------------------------------------- batches

  datatype FieldSlice = FieldSlice(fieldIndex: nat, offset: int, length: int)
  datatype RegisterBatch = RegisterBatch(
    startAddress: int, totalLength: int, regType: RegisterType, slices: seq<FieldSlice>)

  // Every register index once.
  ghost predicate IsPermutation(order: seq<nat>, n: nat) {
    && |order| == n
    && (forall p | 0 <= p < n :: order[p] < n)
    && (forall i: nat | i < n :: i in order)
    && (forall p, q | 0 <= p < q < n :: order[p] != order[q])
  }

  predicate SortsBefore(a: RegisterConfig, b: RegisterConfig) {
    if a.regType != b.regType then TypeRank(a.regType) < TypeRank(b.regType)
    else a.localAddress < b.localAddress
  }

  // What `std::sort` may return: any permutation with no pair out of order.
  ghost predicate SortedOrder(registers: seq<RegisterConfig>, order: seq<nat>) {
    && IsPermutation(order, |registers|)
    && (forall p, q {:trigger SortsBefore(registers[order[q]], registers[order[p]])} | 0 <= p < q < |order| ::
          !SortsBefore(registers[order[q]], registers[order[p]]))
  }

  // The registers in sorted order.
  function InOrder(registers: seq<RegisterConfig>, order: seq<nat>): (regs: seq<RegisterConfig>)
    requires forall p | 0 <= p < |order| :: order[p] < |registers|
    ensures |regs| == |order|
    ensures forall p | 0 <= p < |order| :: regs[p] == registers[order[p]]
  {
    seq(|order|, p requires 0 <= p < |order| => registers[order[p]])
  }

  // The batch reads exactly the fields at sorted positions lo..hi, each sliced at its own place.
  ghost predicate Covers(regs: seq<RegisterConfig>, order: seq<nat>, b: RegisterBatch, lo: nat, hi: nat)
    requires |regs| == |order| && lo < hi <= |regs|
  {
    && b.startAddress == regs[lo].localAddress
    && b.totalLength == TotalLength(regs, lo, hi)
    && b.regType == regs[lo].regType
    && |b.slices| == hi - lo
    && forall k | 0 <= k < hi - lo ::
         b.slices[k] == FieldSlice(order[lo + k], TotalLength(regs, lo, lo + k), regs[lo + k].length)
  }

  ghost predicate BatchAt(regs: seq<RegisterConfig>, order: seq<nat>, batches: seq<RegisterBatch>,
                          ends: seq<nat>, j: nat)
    requires |regs| == |order| && j < |ends| == |batches|
  {
    Start(ends, j) < ends[j] <= |regs| && Covers(regs, order, batches[j], Start(ends, j), ends[j])
  }

  ghost predicate BatchesCut(regs: seq<RegisterConfig>, order: seq<nat>, batches: seq<RegisterBatch>, ends: seq<nat>)
    requires |regs| == |order|
  {
    |batches| == |ends| && forall j | 0 <= j < |ends| :: BatchAt(regs, order, batches, ends, j)
  }

  // The greedy state after the first p sorted fields: every finished read is legal and maximal.
  ghost predicate GreedySoFar(regs: seq<RegisterConfig>, ends: seq<nat>, p: nat) {
    && p <= |regs|
    && Start(ends, |ends|) == p
    && (forall j | 0 <= j < |ends| :: LegalRead(regs, ends, j))
    && (forall j | 0 <= j < |ends| - 1 :: Maximal(regs, ends, j))
  }

  predicate CanMerge(last: RegisterBatch, config: RegisterConfig) {
    && last.regType == config.regType
    && config.localAddress == last.startAddress + last.totalLength
    && last.totalLength + config.length <= MAX_READ_QUANTITY
  }

  // The merge test of the loop decides whether the run may grow by one field.
  lemma CanMergeIsMergeable(regs: seq<RegisterConfig>, order: seq<nat>, last: RegisterBatch, lo: nat, p: nat)
    requires |regs| == |order| && lo < p < |regs|
    requires Mergeable(regs, lo, p) && Covers(regs, order, last, lo, p)
    ensures CanMerge(last, regs[p]) <==> Mergeable(regs, lo, p + 1)
  {
    assert TotalLength(regs, lo, p + 1) == TotalLength(regs, lo, p) + regs[p].length;
    assert InRun(regs, lo, p) <==>
           regs[p].regType == last.regType && regs[p].localAddress == last.startAddress + last.totalLength;
  }

  // Whether read j is legal or maximal depends on the first j + 1 ends only.
  lemma SameRead(regs: seq<RegisterConfig>, ends: seq<nat>, ends': seq<nat>, j: nat)
    requires j < |ends| && j < |ends'| && ends[j] == ends'[j] && Start(ends, j) == Start(ends', j)
    ensures LegalRead(regs, ends, j) <==> LegalRead(regs, ends', j)
    ensures Maximal(regs, ends, j) <==> Maximal(regs, ends', j)
  {
  }

  lemma GreedyExtends(regs: seq<RegisterConfig>, ends: seq<nat>, p: nat)
    requires GreedySoFar(regs, ends, p) && ends != [] && p < |regs|
    requires Mergeable(regs, Start(ends, |ends| - 1), p + 1)
    ensures GreedySoFar(regs, ends[|ends| - 1 := p + 1], p + 1)
  {
    var ends' := ends[|ends| - 1 := p + 1];
    forall j | 0 <= j < |ends'|
      ensures LegalRead(regs, ends', j)
      ensures j < |ends'| - 1 ==> Maximal(regs, ends', j)
    {
      assert LegalRead(regs, ends, j);
      if j < |ends| - 1 {
        assert Maximal(regs, ends, j);
        SameRead(regs, ends, ends', j);
      }
    }
  }

  lemma GreedyStartsNew(regs: seq<RegisterConfig>, ends: seq<nat>, p: nat)
    requires GreedySoFar(regs, ends, p) && p < |regs|
    requires ends != [] ==> Maximal(regs, ends, |ends| - 1)
    ensures GreedySoFar(regs, ends + [p + 1], p + 1)
  {
    var ends' := ends + [p + 1];
    OneFieldIsMergeable(regs, p);
    forall j | 0 <= j < |ends'|
      ensures LegalRead(regs, ends', j)
      ensures j < |ends'| - 1 ==> Maximal(regs, ends', j)
    {
      if j < |ends| {
        assert LegalRead(regs, ends, j);
        assert Maximal(regs, ends, j);
        SameRead(regs, ends, ends', j);
      }
    }
  }

  lemma OneFieldIsMergeable(regs: seq<RegisterConfig>, p: nat)
    requires p < |regs|
    ensures Mergeable(regs, p, p + 1)
  {
    assert InRun(regs, p, p);
  }

  lemma BatchGrows(regs: seq<RegisterConfig>, order: seq<nat>, b: RegisterBatch, lo: nat, p: nat)
    requires |regs| == |order| && lo < p < |regs| && Covers(regs, order, b, lo, p)
    ensures Covers(regs, order,
              b.(slices := b.slices + [FieldSlice(order[p], b.totalLength, regs[p].length)],
                 totalLength := b.totalLength + regs[p].length), lo, p + 1)
  {
  }

  lemma LastBatchReplaced(regs: seq<RegisterConfig>, order: seq<nat>, batches: seq<RegisterBatch>, ends: seq<nat>,
                          b: RegisterBatch, hi: nat)
    requires |regs| == |order| && BatchesCut(regs, order, batches, ends) && ends != []
    requires Start(ends, |ends| - 1) < hi <= |regs| && Covers(regs, order, b, Start(ends, |ends| - 1), hi)
    ensures BatchesCut(regs, order, batches[|batches| - 1 := b], ends[|ends| - 1 := hi])
  {
    var batches', ends' := batches[|batches| - 1 := b], ends[|ends| - 1 := hi];
    forall j | 0 <= j < |ends'|
      ensures BatchAt(regs, order, batches', ends', j)
    {
      assert BatchAt(regs, order, batches, ends, j);
    }
  }

  lemma BatchAdded(regs: seq<RegisterConfig>, order: seq<nat>, batches: seq<RegisterBatch>, ends: seq<nat>,
                   b: RegisterBatch, hi: nat)
    requires |regs| == |order| && BatchesCut(regs, order, batches, ends)
    requires Start(ends, |ends|) < hi <= |regs| && Covers(regs, order, b, Start(ends, |ends|), hi)
    ensures BatchesCut(regs, order, batches + [b], ends + [hi])
  {
    forall j | 0 <= j < |ends| + 1
      ensures BatchAt(regs, order, batches + [b], ends + [hi], j)
    {
      if j < |ends| {
        assert BatchAt(regs, order, batches, ends, j);
      }
    }
  }

  // The loop invariant of `BuildBatches` after p fields.
  ghost predicate Built(regs: seq<RegisterConfig>, order: seq<nat>, batches: seq<RegisterBatch>, ends: seq<nat>, p: nat)
    requires |regs| == |order|
  {
    GreedySoFar(regs, ends, p) && BatchesCut(regs, order, batches, ends)
  }

  function Grown(last: RegisterBatch, i: nat, config: RegisterConfig): RegisterBatch {
    last.(slices := last.slices + [FieldSlice(i, last.totalLength, config.length)],
          totalLength := last.totalLength + config.length)
  }

  lemma MergeStep(regs: seq<RegisterConfig>, order: seq<nat>, batches: seq<RegisterBatch>, ends: seq<nat>, p: nat)
    requires |regs| == |order| && Built(regs, order, batches, ends, p)
    requires p < |regs| && batches != [] && CanMerge(batches[|batches| - 1], regs[p])
    ensures Built(regs, order, batches[|batches| - 1 := Grown(batches[|batches| - 1], order[p], regs[p])],
                  ends[|ends| - 1 := p + 1], p + 1)
  {
    var last, lo := batches[|batches| - 1], Start(ends, |ends| - 1);
    assert LegalRead(regs, ends, |ends| - 1) && BatchAt(regs, order, batches, ends, |ends| - 1);
    CanMergeIsMergeable(regs, order, last, lo, p);
    BatchGrows(regs, order, last, lo, p);
    LastBatchReplaced(regs, order, batches, ends, Grown(last, order[p], regs[p]), p + 1);
    GreedyExtends(regs, ends, p);
  }

  lemma NewBatchStep(regs: seq<RegisterConfig>, order: seq<nat>, batches: seq<RegisterBatch>, ends: seq<nat>, p: nat)
    requires |regs| == |order| && Built(regs, order, batches, ends, p)
    requires p < |regs| && (batches != [] ==> !CanMerge(batches[|batches| - 1], regs[p]))
    ensures var b := RegisterBatch(regs[p].localAddress, regs[p].length, regs[p].regType,
                                   [FieldSlice(order[p], 0, regs[p].length)]);
            Built(regs, order, batches + [b], ends + [p + 1], p + 1)
  {
    var b := RegisterBatch(regs[p].localAddress, regs[p].length, regs[p].regType,
                           [FieldSlice(order[p], 0, regs[p].length)]);
    if batches != [] {
      assert LegalRead(regs, ends, |ends| - 1) && BatchAt(regs, order, batches, ends, |ends| - 1);
      CanMergeIsMergeable(regs, order, batches[|batches| - 1], Start(ends, |ends| - 1), p);
    }
    assert TotalLength(regs, p, p) == 0 && TotalLength(regs, p, p + 1) == regs[p].length;
    BatchAdded(regs, order, batches, ends, b, p + 1);
    GreedyStartsNew(regs, ends, p);
  }

  /** The batches are the greedy cut of the sorted order, read by read. */
  ghost predicate GreedyBatches(registers: seq<RegisterConfig>, order: seq<nat>, batches: seq<RegisterBatch>)
    requires SortedOrder(registers, order)
  {
    exists ends: seq<nat> :: IsGreedy(InOrder(registers, order), ends)
                          && BatchesCut(InOrder(registers, order), order, batches, ends)
  }

  /** Builds the batches from the sorted order `std::sort` returned. */
  method BuildBatches(registers: seq<RegisterConfig>, order: seq<nat>) returns (batches: seq<RegisterBatch>)
    requires SortedOrder(registers, order)
    ensures GreedyBatches(registers, order, batches)
  {
    ghost var regs := InOrder(registers, order);
    batches := [];
    ghost var ends: seq<nat> := [];
    var p := 0;
    while p < |order|
      invariant 0 <= p <= |order|
      invariant Built(regs, order, batches, ends, p)
    {
      var i := order[p];
      var config := registers[i];
      var canMerge := false;
      if batches != [] {
        canMerge := CanMerge(batches[|batches| - 1], config);
      }
      if canMerge {
        MergeStep(regs, order, batches, ends, p);
        batches := batches[|batches| - 1 := Grown(batches[|batches| - 1], i, config)];
        ends := ends[|ends| - 1 := p + 1];
      } else {
        NewBatchStep(regs, order, batches, ends, p);
        batches := batches + [RegisterBatch(config.localAddress, config.length, config.regType,
                                            [FieldSlice(i, 0, config.length)])];
        ends := ends + [p + 1];
      }
      p := p + 1;
    }
    assert IsGreedy(regs, ends) && BatchesCut(regs, order, batches, ends);
  }

  // ---------------------------------------------------------------- partition

  // The read that covers sorted position p.
  function ReadIndex(ends: seq<nat>, p: nat): nat
  {
    if ends == [] || p < ends[0] then 0 else 1 + ReadIndex(ends[1..], p)
  }

  lemma {:induction false} StartsIncrease(regs: seq<RegisterConfig>, ends: seq<nat>, i: nat, j: nat)
    requires IsCut(regs, ends) && i < j <= |ends|
    ensures ends[i] <= Start(ends, j)
    decreases j
  {
    if i < j - 1 {
      StartsIncrease(regs, ends, i, j - 1);
      ReadOf(regs, ends, j - 1);
    }
  }

  lemma {:induction false} ReadIndexFrom(ends: seq<nat>, p: nat)
    requires forall i, j | 0 <= i < j < |ends| :: ends[i] < ends[j]
    requires ends != [] && p < ends[|ends| - 1]
    ensures var j := ReadIndex(ends, p); j < |ends| && p < ends[j] && (j > 0 ==> ends[j - 1] <= p)
  {
    if p >= ends[0] {
      ReadIndexFrom(ends[1..], p);
    }
  }

  // Every position lies in exactly one read.
  lemma ReadIndexIsUnique(regs: seq<RegisterConfig>, ends: seq<nat>, p: nat)
    requires IsCut(regs, ends) && p < |regs|
    ensures var j := ReadIndex(ends, p); j < |ends| && Start(ends, j) <= p < ends[j]
    ensures forall j | 0 <= j < |ends| && Start(ends, j) <= p < ends[j] :: j == ReadIndex(ends, p)
  {
    forall i, j | 0 <= i < j < |ends|
      ensures ends[i] < ends[j]
    {
      StartsIncrease(regs, ends, i, j);
      ReadOf(regs, ends, j);
    }
    ReadIndexFrom(ends, p);
    var at := ReadIndex(ends, p);
    forall j | 0 <= j < |ends| && Start(ends, j) <= p < ends[j]
      ensures j == at
    {
      if j < at {
        StartsIncrease(regs, ends, j, at);
      } else if at < j {
        StartsIncrease(regs, ends, at, j);
      }
    }
  }

  // Slice k of batch j belongs to register i.
  predicate SliceOf(batches: seq<RegisterBatch>, j: nat, k: nat, i: nat) {
    j < |batches| && k < |batches[j].slices| && batches[j].slices[k].fieldIndex == i
  }

  lemma SliceAt(regs: seq<RegisterConfig>, order: seq<nat>, batches: seq<RegisterBatch>, ends: seq<nat>, j: nat, k: nat)
    requires |regs| == |order| && IsCut(regs, ends) && BatchesCut(regs, order, batches, ends)
    requires j < |batches| && k < |batches[j].slices|
    ensures var p := Start(ends, j) + k;
            && p < ends[j] <= |regs|
            && batches[j].slices[k].fieldIndex == order[p]
            && batches[j].slices[k].length == regs[p].length
            && batches[j].startAddress + batches[j].slices[k].offset == regs[p].localAddress
            && batches[j].regType == regs[p].regType
            && batches[j].slices[k].offset == TotalLength(regs, Start(ends, j), p)
            && batches[j].totalLength == TotalLength(regs, Start(ends, j), ends[j])
    ensures |batches[j].slices| == 1 || batches[j].totalLength <= 64
  {
    assert BatchAt(regs, order, batches, ends, j);
    ReadOf(regs, ends, j);
    assert InRun(regs, Start(ends, j), Start(ends, j) + k);
  }

  lemma SlicesOfBatch(regs: seq<RegisterConfig>, order: seq<nat>, batches: seq<RegisterBatch>, ends: seq<nat>, j: nat)
    requires |regs| == |order| && BatchesCut(regs, order, batches, ends) && j < |batches|
    ensures |batches[j].slices| == ends[j] - Start(ends, j)
  {
    assert BatchAt(regs, order, batches, ends, j);
  }

  /** The batches partition the registers: register i has exactly one slice, cut from the
      response of its own type at its own address with its own length. */
  lemma BatchesPartition(registers: seq<RegisterConfig>, order: seq<nat>, batches: seq<RegisterBatch>,
                         ends: seq<nat>, i: nat) returns (j: nat, k: nat)
    requires IsPermutation(order, |registers|) && i < |registers|
    requires IsCut(InOrder(registers, order), ends)
    requires BatchesCut(InOrder(registers, order), order, batches, ends)
    ensures SliceOf(batches, j, k, i)
    ensures forall j', k' | SliceOf(batches, j', k', i) :: j' == j && k' == k
    ensures var b, s := batches[j], batches[j].slices[k];
            && b.startAddress + s.offset == registers[i].localAddress
            && s.length == registers[i].length
            && b.regType == registers[i].regType
            && (|b.slices| == 1 || b.totalLength <= 64)
  {
    hide IsCut, Covers, TotalLength;
    var regs := InOrder(registers, order);
    assert i in order;
    var p :| 0 <= p < |order| && order[p] == i;
    ReadIndexIsUnique(regs, ends, p);
    j := ReadIndex(ends, p);
    k := p - Start(ends, j);
    assert BatchAt(regs, order, batches, ends, j);
    SlicesOfBatch(regs, order, batches, ends, j);
    SliceAt(regs, order, batches, ends, j, k);
    forall j', k' | SliceOf(batches, j', k', i)
      ensures j' == j && k' == k
    {
      SliceAt(regs, order, batches, ends, j', k');
      assert Start(ends, j') + k' == p;
    }
  }

  // ---------------------------------------------------------------- reading

  // The device behind `IDeviceClient`: one word memory and one bit memory.
  datatype Memory = Memory(words: int -> Word, bits: int -> bool)

  datatype ReadError = ConnectFailed | ReadFailed | UnsupportedType | NotRead

  datatype FieldResult = FieldOk(registerValues: seq<Word>, coilValues: seq<bool>) | FieldFailed(error: ReadError)

  function WordsAt(m: Memory, address: int, count: nat): (w: seq<Word>)
    ensures |w| == count
  {
    seq<Word>(count, i => m.words(address + i))
  }

  function BitsAt(m: Memory, address: int, count: nat): (b: seq<bool>)
    ensures |b| == count
  {
    seq<bool>(count, i => m.bits(address + i))
  }

  // What reading one register alone gives when the device answers.
  function FieldOnDevice(m: Memory, config: RegisterConfig, deviceOrder: ByteOrder): FieldResult
    requires config.length >= 0
  {
    match config.regType
    case Unknown => FieldFailed(UnsupportedType)
    case Coil => FieldOk([], BitsAt(m, config.localAddress, config.length))
    case DiscreteInput => FieldOk([], BitsAt(m, config.localAddress, config.length))
    case HoldingRegister => FieldOk(Ordered(WordsAt(m, config.localAddress, config.length),
                                            EffectiveByteOrder(config.byteOrder, deviceOrder)), [])
    case InputRegister => FieldOk(Ordered(WordsAt(m, config.localAddress, config.length),
                                          EffectiveByteOrder(config.byteOrder, deviceOrder)), [])
  }

  // The same when the device may fail the request.
  function FieldRead(m: Memory, config: RegisterConfig, deviceOrder: ByteOrder, answered: bool): FieldResult
    requires config.length >= 0
  {
    if config.regType.Unknown? || answered then FieldOnDevice(m, config, deviceOrder) else FieldFailed(ReadFailed)
  }

  /** The result of one register in terms of the device: bits in address order; words in address order
      when the field, or the device for a field without an order of its own, is big endian, and last
      word first otherwise. */
  ghost predicate ReadsDevice(m: Memory, config: RegisterConfig, deviceOrder: ByteOrder, answered: bool, r: FieldResult)
    requires config.length >= 0
  {
    var n := config.length;
    match config.regType
    case Unknown => r == FieldFailed(UnsupportedType)
    case Coil | DiscreteInput =>
      if !answered then r == FieldFailed(ReadFailed)
      else
        && r.FieldOk? && r.registerValues == [] && |r.coilValues| == n
        && forall i | 0 <= i < n :: r.coilValues[i] == m.bits(config.localAddress + i)
    case HoldingRegister | InputRegister =>
      if !answered then r == FieldFailed(ReadFailed)
      else
        var order := if config.byteOrder == Default then deviceOrder else config.byteOrder;
        && r.FieldOk? && r.coilValues == [] && |r.registerValues| == n
        && forall i | 0 <= i < n ::
             r.registerValues[i] == m.words(config.localAddress + if order == BigEndian then i else n - 1 - i)
  }

  lemma FieldReadsDevice(m: Memory, config: RegisterConfig, deviceOrder: ByteOrder, answered: bool)
    requires config.length >= 0
    ensures ReadsDevice(m, config, deviceOrder, answered, FieldRead(m, config, deviceOrder, answered))
  {
    hide Ordered, EffectiveByteOrder;
    OrderedByField(WordsAt(m, config.localAddress, config.length), config.byteOrder, deviceOrder);
  }

  // What one batch response yields for one of its slices.
  function SliceResult(m: Memory, b: RegisterBatch, s: FieldSlice, config: RegisterConfig,
                       deviceOrder: ByteOrder, answered: bool): FieldResult
    requires b.totalLength >= 0 && 0 <= s.offset && 0 <= s.length && s.offset + s.length <= b.totalLength
  {
    if b.regType.Unknown? then FieldFailed(UnsupportedType)
    else if !answered then FieldFailed(ReadFailed)
    else if IsBitType(b.regType) then
      FieldOk([], BitsAt(m, b.startAddress, b.totalLength)[s.offset..s.offset + s.length])
    else
      FieldOk(Ordered(WordsAt(m, b.startAddress, b.totalLength)[s.offset..s.offset + s.length],
                      EffectiveByteOrder(config.byteOrder, deviceOrder)), [])
  }

  // Slicing a batch response is reading the field.
  lemma SliceIsField(m: Memory, b: RegisterBatch, s: FieldSlice, config: RegisterConfig,
                     deviceOrder: ByteOrder, answered: bool)
    requires 0 <= s.offset && 0 <= s.length && s.offset + s.length <= b.totalLength
    requires b.regType == config.regType && s.length == config.length
    requires b.startAddress + s.offset == config.localAddress
    ensures SliceResult(m, b, s, config, deviceOrder, answered) == FieldRead(m, config, deviceOrder, answered)
  {
    assert WordsAt(m, b.startAddress, b.totalLength)[s.offset..s.offset + s.length]
        == WordsAt(m, config.localAddress, config.length);
    assert BitsAt(m, b.startAddress, b.totalLength)[s.offset..s.offset + s.length]
        == BitsAt(m, config.localAddress, config.length);
  }

  // ---------------------------------------------------------------- the collector

  class Collector {
    const registers: seq<RegisterConfig>
    const defaultByteOrder: ByteOrder
    const batches: seq<RegisterBatch>
    ghost const order: seq<nat>
    ghost const ends: seq<nat>

    // The batches were built from these registers.
    ghost predicate Valid() {
      && LengthsOk(registers)
      && SortedOrder(registers, order)
      && IsGreedy(InOrder(registers, order), ends)
      && BatchesCut(InOrder(registers, order), order, batches, ends)
    }

    // The batch that reads register i.
    ghost predicate ReadBy(i: nat, j: nat) {
      j < |batches| && exists k: nat :: SliceOf(batches, j, k, i)
    }

    constructor (registers: seq<RegisterConfig>, defaultByteOrder: ByteOrder, order: seq<nat>)
      requires LengthsOk(registers) && SortedOrder(registers, order)
      ensures Valid()
      ensures this.registers == registers && this.defaultByteOrder == defaultByteOrder
    {
      this.registers := registers;
      this.defaultByteOrder := defaultByteOrder;
      this.order := order;
      var b := BuildBatches(registers, order);
      batches := b;
      ghost var e: seq<nat> :| IsGreedy(InOrder(registers, order), e)
                               && BatchesCut(InOrder(registers, order), order, b, e);
      ends := e;
    }

    // Reads one register alone.
    method CollectField(m: Memory, config: RegisterConfig, connected: bool, answered: bool) returns (r: FieldResult)
      requires config.length >= 0
      ensures r == if connected then FieldRead(m, config, defaultByteOrder, answered) else FieldFailed(ConnectFailed)
      ensures connected ==> ReadsDevice(m, config, defaultByteOrder, answered, r)
    {
      FieldReadsDevice(m, config, defaultByteOrder, answered);
      if !connected {
        return FieldFailed(ConnectFailed);
      }
      match config.regType {
        case Coil | DiscreteInput =>
          if !answered {
            return FieldFailed(ReadFailed);
          }
          return FieldOk([], BitsAt(m, config.localAddress, config.length));
        case HoldingRegister | InputRegister =>
          if !answered {
            return FieldFailed(ReadFailed);
          }
          var ordered := ApplyByteOrder(WordsAt(m, config.localAddress, config.length),
                                        EffectiveByteOrder(config.byteOrder, defaultByteOrder));
          return FieldOk(ordered, []);
        case Unknown =>
          return FieldFailed(UnsupportedType);
      }
    }

    /** Reads every batch and slices it back. `answered[j]` says whether the device answers the
        read of batch j. Register i gets exactly what reading it alone would give, with the
        outcome of the one batch that contains it. */
    method CollectAllFields(m: Memory, connected: bool, answered: seq<bool>) returns (results: seq<FieldResult>)
      requires Valid() && |answered| == |batches|
      ensures |results| == |registers|
      ensures !connected ==> forall i | 0 <= i < |registers| :: results[i] == FieldFailed(ConnectFailed)
      ensures connected ==> forall i: nat, j: nat | i < |registers| && ReadBy(i, j) ::
                && results[i] == FieldRead(m, registers[i], defaultByteOrder, answered[j])
                && ReadsDevice(m, registers[i], defaultByteOrder, answered[j], results[i])
    {
      hide FieldRead, ReadsDevice;
      results := seq(|registers|, _ => FieldFailed(NotRead));
      if !connected {
        return seq(|registers|, _ => FieldFailed(ConnectFailed));
      }
      ghost var regs := InOrder(registers, order);
      var j := 0;
      while j < |batches|
        invariant 0 <= j <= |batches| && |results| == |registers|
        invariant forall i: nat, b: nat | i < |registers| && b < j && ReadBy(i, b) ::
                    results[i] == FieldRead(m, registers[i], defaultByteOrder, answered[b])
      {
        forall i: nat, b: nat | i < |registers| && ReadBy(i, b) && ReadBy(i, j)
          ensures b == j
        {
          OneReader(i, b, j);
        }
        results := CollectBatch(m, j, answered[j], results);
        j := j + 1;
      }
      forall i: nat, b: nat | i < |registers| && ReadBy(i, b)
        ensures ReadsDevice(m, registers[i], defaultByteOrder, answered[b], results[i])
      {
        FieldReadsDevice(m, registers[i], defaultByteOrder, answered[b]);
      }
    }

    // One slice of a batch response.
    method ReadSlice(m: Memory, batch: RegisterBatch, slice: FieldSlice, config: RegisterConfig, answered: bool)
      returns (r: FieldResult)
      requires 0 <= slice.offset && 0 <= slice.length && slice.offset + slice.length <= batch.totalLength
      requires batch.regType == config.regType && slice.length == config.length
      requires batch.startAddress + slice.offset == config.localAddress
      ensures r == FieldRead(m, config, defaultByteOrder, answered)
    {
      hide Ordered, WordsAt, BitsAt, EffectiveByteOrder;
      SliceIsField(m, batch, slice, config, defaultByteOrder, answered);
      if batch.regType.Unknown? {
        r := FieldFailed(UnsupportedType);
      } else if !answered {
        r := FieldFailed(ReadFailed);
      } else if IsBitType(batch.regType) {
        var rawBits := BitsAt(m, batch.startAddress, batch.totalLength);
        r := FieldOk([], rawBits[slice.offset..slice.offset + slice.length]);
      } else {
        var rawWords := WordsAt(m, batch.startAddress, batch.totalLength);
        var ordered := ApplyByteOrder(rawWords[slice.offset..slice.offset + slice.length],
                                      EffectiveByteOrder(config.byteOrder, defaultByteOrder));
        r := FieldOk(ordered, []);
      }
    }

    // One batch: its slices get their part of the response, all other results stay.
    method CollectBatch(m: Memory, j: nat, answered: bool, before: seq<FieldResult>) returns (results: seq<FieldResult>)
      requires Valid() && j < |batches| && |before| == |registers|
      ensures |results| == |registers|
      ensures forall i | 0 <= i < |registers| ::
                results[i] == if ReadBy(i, j) then FieldRead(m, registers[i], defaultByteOrder, answered) else before[i]
    {
      var batch := batches[j];
      results := before;
      var k := 0;
      while k < |batch.slices|
        invariant 0 <= k <= |batch.slices| && |results| == |registers|
        invariant forall i | 0 <= i < |registers| ::
                    results[i] == if exists q | 0 <= q < k :: SliceOf(batches, j, q, i)
                                  then FieldRead(m, registers[i], defaultByteOrder, answered) else before[i]
      {
        var slice := batch.slices[k];
        SliceInRange(j, k);
        var r := ReadSlice(m, batch, slice, registers[slice.fieldIndex], answered);
        assert SliceOf(batches, j, k, slice.fieldIndex);
        results := results[slice.fieldIndex := r];
        k := k + 1;
      }
    }

    lemma OneReader(i: nat, j: nat, j': nat)
      requires Valid() && i < |registers| && ReadBy(i, j) && ReadBy(i, j')
      ensures j == j'
    {
      var at, slice := BatchesPartition(registers, order, batches, ends, i);
      var k: nat :| SliceOf(batches, j, k, i);
      var k': nat :| SliceOf(batches, j', k', i);
    }

    lemma SliceInRange(j: nat, k: nat)
      requires Valid() && j < |batches| && k < |batches[j].slices|
      ensures var b, s := batches[j], batches[j].slices[k];
              && s.fieldIndex < |registers|
              && 0 <= s.offset && 0 <= s.length && s.offset + s.length <= b.totalLength
              && b.regType == registers[s.fieldIndex].regType
              && s.length == registers[s.fieldIndex].length
              && b.startAddress + s.offset == registers[s.fieldIndex].localAddress
    {
      var regs := InOrder(registers, order);
      SliceAt(regs, order, batches, ends, j, k);
      OffsetInRange(regs, Start(ends, j), Start(ends, j) + k, ends[j]);
    }
  }

  /** When every batch is answered, the batched collection returns for each register exactly
      what `CollectField` returns for it. */
  method CollectAllEqualsEach(c: Collector, m: Memory, answered: seq<bool>, i: nat)
    returns (batched: FieldResult, single: FieldResult)
    requires c.Valid() && |answered| == |c.batches| && i < |c.registers|
    requires forall j | 0 <= j < |answered| :: answered[j]
    ensures batched == single == FieldOnDevice(m, c.registers[i], c.defaultByteOrder)
  {
    var results := c.CollectAllFields(m, true, answered);
    single := c.CollectField(m, c.registers[i], true, true);
    ghost var j, k := BatchesPartition(c.registers, c.order, c.batches, c.ends, i);
    assert c.ReadBy(i, j);
    batched := results[i];
  }
}
