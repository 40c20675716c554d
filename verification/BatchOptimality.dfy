/** The batches are the fewest possible reads: when registers that one read could join are neighbours
    in sorted order, as they are without overlap, no family of legal reads that covers every register,
    in whatever grouping, is smaller. */
module BatchOptimality {
  import opened DeviceModels
  import opened DataCollector

  // Two registers of one type never share an address.
  ghost predicate NoOverlap(registers: seq<RegisterConfig>) {
    forall i, k {:trigger Apart(registers[i], registers[k])} | 0 <= i < |registers| && 0 <= k < |registers| && i != k ::
      Apart(registers[i], registers[k])
  }

  predicate Apart(a: RegisterConfig, b: RegisterConfig) {
    || a.regType != b.regType
    || a.localAddress + a.length <= b.localAddress
    || b.localAddress + b.length <= a.localAddress
  }

  // One read can take b right after a.
  predicate Joins(a: RegisterConfig, b: RegisterConfig) {
    && a.regType == b.regType && a.localAddress + a.length == b.localAddress
    && a.length + b.length <= 64
  }

  // In sorted order nothing comes between two registers that one read could join.
  ghost predicate JoinedAreNext(registers: seq<RegisterConfig>, order: seq<nat>)
    requires Indices(order, |registers|)
  {
    forall p, q | 0 <= p < |order| && 0 <= q < |order| && Joins(registers[order[p]], registers[order[q]]) :: q == p + 1
  }

  ghost predicate Indices(group: seq<nat>, n: nat) {
    forall t | 0 <= t < |group| :: group[t] < n
  }

  // A legal read listed in address order: one type, contiguous, short unless it is one field.
  ghost predicate LegalGroup(registers: seq<RegisterConfig>, group: seq<nat>) {
    && group != []
    && Indices(group, |registers|)
    && Mergeable(InOrder(registers, group), 0, |group|)
  }

  ghost predicate Covered(groups: seq<seq<nat>>, i: nat) {
    exists g | 0 <= g < |groups| :: i in groups[g]
  }

  // Any family of legal reads that reads every register.
  ghost predicate ReadsAll(registers: seq<RegisterConfig>, groups: seq<seq<nat>>) {
    && (forall g | 0 <= g < |groups| :: LegalGroup(registers, groups[g]))
    && (forall i: nat | i < |registers| :: Covered(groups, i))
  }

  lemma {:induction false} TotalOfSameRun(a: seq<RegisterConfig>, lo: nat, b: seq<RegisterConfig>, lo': nat, k: nat)
    requires lo + k <= |a| && lo' + k <= |b| && a[lo..lo + k] == b[lo'..lo' + k]
    ensures TotalLength(a, lo, lo + k) == TotalLength(b, lo', lo' + k)
  {
    if k > 0 {
      assert a[lo..lo + (k - 1)] == a[lo..lo + k][..k - 1] == b[lo'..lo' + (k - 1)];
      TotalOfSameRun(a, lo, b, lo', k - 1);
      assert a[lo + k - 1] == a[lo..lo + k][k - 1] == b[lo' + k - 1];
    }
  }

  // Whether a run is mergeable depends on its fields only.
  lemma MergeableSameRun(a: seq<RegisterConfig>, lo: nat, b: seq<RegisterConfig>, lo': nat, k: nat)
    requires 0 < k && lo + k <= |a| && lo' + k <= |b| && a[lo..lo + k] == b[lo'..lo' + k]
    requires Mergeable(a, lo, lo + k)
    ensures Mergeable(b, lo', lo' + k)
  {
    assert a[lo] == a[lo..lo + k][0] == b[lo'];
    TotalOfSameRun(a, lo, b, lo', k);
    forall p | lo' <= p < lo' + k
      ensures InRun(b, lo', p)
    {
      var t := p - lo';
      assert InRun(a, lo, lo + t);
      SamePlace(a, lo, b, lo', k, t);
      TotalOfSameRun(a, lo, b, lo', t);
    }
  }

  lemma SamePlace(a: seq<RegisterConfig>, lo: nat, b: seq<RegisterConfig>, lo': nat, k: nat, t: nat)
    requires lo + k <= |a| && lo' + k <= |b| && a[lo..lo + k] == b[lo'..lo' + k] && t < k
    ensures a[lo + t] == b[lo' + t] && a[lo..lo + t] == b[lo'..lo' + t]
  {
    var s := a[lo..lo + k];
    assert s[t] == a[lo + t] && s[t] == b[lo' + t];
    assert s[..t] == a[lo..lo + t] && s[..t] == b[lo'..lo' + t];
  }

  // Neighbours in a legal group follow each other directly.
  lemma NextInGroup(registers: seq<RegisterConfig>, group: seq<nat>, t: nat)
    requires LengthsOk(registers) && LegalGroup(registers, group) && t + 1 < |group|
    ensures Joins(registers[group[t]], registers[group[t + 1]])
  {
    var regs := InOrder(registers, group);
    assert InRun(regs, 0, t) && InRun(regs, 0, t + 1);
    LengthsInOrder(registers, group);
    MergeableInside(regs, 0, t, t + 2, |group|);
    assert TotalLength(regs, t, t) == 0 && TotalLength(regs, t, t + 1) == regs[t].length;
    assert TotalLength(regs, t, t + 2) == TotalLength(regs, t, t + 1) + regs[t + 1].length;
  }

  lemma {:induction false} GroupIncreases(registers: seq<RegisterConfig>, group: seq<nat>, x: nat, y: nat)
    requires LengthsOk(registers) && LegalGroup(registers, group) && x < y < |group|
    ensures registers[group[x]].regType == registers[group[y]].regType
    ensures registers[group[x]].localAddress < registers[group[y]].localAddress
    decreases y
  {
    NextInGroup(registers, group, y - 1);
    if x < y - 1 {
      GroupIncreases(registers, group, x, y - 1);
    }
  }

  // Nothing that overlaps neither fits between two adjacent fields.
  lemma NothingBetween(a: RegisterConfig, r: RegisterConfig, b: RegisterConfig)
    requires a.length >= 1 && r.length >= 1 && b.length >= 1
    requires a.regType == b.regType && a.localAddress + a.length == b.localAddress
    requires !SortsBefore(r, a) && !SortsBefore(b, r)
    ensures !Apart(r, a) || !Apart(r, b)
  {
  }

  // Without overlap the field that follows directly is the next one in sorted order.
  lemma FollowsInOrder(registers: seq<RegisterConfig>, order: seq<nat>, p: nat, q: nat)
    requires LengthsOk(registers) && NoOverlap(registers) && SortedOrder(registers, order)
    requires p < |order| && q < |order|
    requires var a, b := registers[order[p]], registers[order[q]];
             a.regType == b.regType && a.localAddress + a.length == b.localAddress
    ensures q == p + 1
  {
    var a, b := registers[order[p]], registers[order[q]];
    assert SortsBefore(registers[order[p]], registers[order[q]]);
    if p + 1 < q {
      var r := registers[order[p + 1]];
      assert !SortsBefore(registers[order[p + 1]], registers[order[p]]);
      assert !SortsBefore(registers[order[q]], registers[order[p + 1]]);
      assert Apart(registers[order[p + 1]], registers[order[p]]);
      assert Apart(registers[order[p + 1]], registers[order[q]]);
      NothingBetween(a, r, b);
    }
  }

  /** Without overlap the condition is met. */
  lemma ApartAreNext(registers: seq<RegisterConfig>, order: seq<nat>)
    requires LengthsOk(registers) && NoOverlap(registers) && SortedOrder(registers, order)
    ensures Indices(order, |registers|) && JoinedAreNext(registers, order)
  {
    forall p, q | 0 <= p < |order| && 0 <= q < |order| && Joins(registers[order[p]], registers[order[q]])
      ensures q == p + 1
    {
      FollowsInOrder(registers, order, p, q);
    }
  }

  lemma PositionOf(order: seq<nat>, n: nat, i: nat) returns (p: nat)
    requires IsPermutation(order, n) && i < n
    ensures p < |order| && order[p] == i
  {
    assert i in order;
    p :| 0 <= p < |order| && order[p] == i;
  }

  // A stretch of a legal group is a stretch of the sorted order.
  lemma {:induction false} GroupIsRun(registers: seq<RegisterConfig>, order: seq<nat>, group: seq<nat>,
                                      x: nat, t: nat, p: nat)
    requires LengthsOk(registers) && SortedOrder(registers, order) && JoinedAreNext(registers, order)
    requires LegalGroup(registers, group) && x + t < |group|
    requires p < |order| && order[p] == group[x]
    ensures p + t < |order| && order[p + t] == group[x + t]
  {
    if t > 0 {
      GroupIsRun(registers, order, group, x, t - 1, p);
      NextInGroup(registers, group, x + t - 1);
      var q := PositionOf(order, |registers|, group[x + t]);
      assert Joins(registers[order[p + t - 1]], registers[order[q]]);
    }
  }

  // Two reads of the greedy cut never begin inside one legal read.
  lemma LeadersApart(registers: seq<RegisterConfig>, order: seq<nat>, ends: seq<nat>, group: seq<nat>, a: nat, b: nat)
    requires LengthsOk(registers) && SortedOrder(registers, order) && JoinedAreNext(registers, order)
    requires IsGreedy(InOrder(registers, order), ends) && a < b < |ends|
    requires LegalGroup(registers, group) && Start(ends, a) < Start(ends, b) < |order|
    ensures order[Start(ends, a)] !in group || order[Start(ends, b)] !in group
  {
    var regs := InOrder(registers, order);
    var lo, last := Start(ends, a), Start(ends, b);
    if order[lo] in group && order[last] in group {
      StartsIncrease(regs, ends, a, b);
      ReadOf(regs, ends, a);
      assert Maximal(regs, ends, a);
      LengthsInOrder(registers, order);
      GroupRunMergeable(registers, order, group, lo, last);
      MergeableInside(regs, lo, lo, ends[a] + 1, last + 1);
    }
  }

  // Two sorted positions in one legal read: everything from one to the other is mergeable.
  lemma GroupRunMergeable(registers: seq<RegisterConfig>, order: seq<nat>, group: seq<nat>, lo: nat, last: nat)
    requires LengthsOk(registers) && SortedOrder(registers, order) && JoinedAreNext(registers, order)
    requires LegalGroup(registers, group) && lo < last < |order|
    requires order[lo] in group && order[last] in group
    ensures Mergeable(InOrder(registers, order), lo, last + 1)
  {
    var x :| 0 <= x < |group| && group[x] == order[lo];
    var y :| 0 <= y < |group| && group[y] == order[last];
    assert order[lo] != order[last];
    assert !SortsBefore(registers[order[last]], registers[order[lo]]);
    if y < x {
      GroupIncreases(registers, group, y, x);
    } else {
      RunIsMergeable(registers, order, group, x, y, lo);
      assert lo + (y - x) == last;
    }
  }

  lemma LengthsInOrder(registers: seq<RegisterConfig>, order: seq<nat>)
    requires LengthsOk(registers) && Indices(order, |registers|)
    ensures LengthsOk(InOrder(registers, order))
  {
  }

  lemma RunIsMergeable(registers: seq<RegisterConfig>, order: seq<nat>, group: seq<nat>, x: nat, y: nat, lo: nat)
    requires LengthsOk(registers) && SortedOrder(registers, order) && JoinedAreNext(registers, order)
    requires LegalGroup(registers, group) && x < y < |group|
    requires lo < |order| && order[lo] == group[x]
    ensures lo + (y - x) < |order| && order[lo + (y - x)] == group[y]
    ensures Mergeable(InOrder(registers, order), lo, lo + (y - x) + 1)
  {
    var regs, run := InOrder(registers, order), InOrder(registers, group);
    GroupIsRun(registers, order, group, x, y - x, lo);
    LengthsInOrder(registers, group);
    MergeableInside(run, 0, x, y + 1, |group|);
    var k := y - x + 1;
    var a, b := run[x..x + k], regs[lo..lo + k];
    forall t | 0 <= t < k
      ensures a[t] == b[t]
    {
      GroupIsRun(registers, order, group, x, t, lo);
    }
    assert a == b;
    MergeableSameRun(run, x, regs, lo, k);
  }

  lemma {:induction false} Pigeonhole(h: seq<nat>, g: nat)
    requires forall i | 0 <= i < |h| :: h[i] < g
    requires forall i, k | 0 <= i < k < |h| :: h[i] != h[k]
    ensures |h| <= g
    decreases g
  {
    if h != [] {
      assert h[0] < g;
      if g - 1 in h {
        var x :| 0 <= x < |h| && h[x] == g - 1;
        Pigeonhole(h[..x] + h[x + 1..], g - 1);
      } else {
        Pigeonhole(h, g - 1);
      }
    }
  }

  /** The greedy batches are globally optimal when what can be joined is next to each other. */
  lemma FewestReads(registers: seq<RegisterConfig>, order: seq<nat>, ends: seq<nat>, groups: seq<seq<nat>>)
    requires LengthsOk(registers) && SortedOrder(registers, order) && JoinedAreNext(registers, order)
    requires IsGreedy(InOrder(registers, order), ends)
    requires ReadsAll(registers, groups)
    ensures |ends| <= |groups|
  {
    var regs := InOrder(registers, order);
    forall j | 0 <= j < |ends|
      ensures Start(ends, j) < |order| && Covered(groups, order[Start(ends, j)])
    {
      ReadOf(regs, ends, j);
    }
    var h := seq(|ends|, j requires 0 <= j < |ends| => GroupOf(groups, order[Start(ends, j)]));
    forall a, b | 0 <= a < b < |h|
      ensures h[a] != h[b]
    {
      StartsIncrease(regs, ends, a, b);
      ReadOf(regs, ends, a);
      if h[a] == h[b] {
        LeadersApart(registers, order, ends, groups[h[a]], a, b);
      }
    }
    Pigeonhole(h, |groups|);
  }

  /** So the batches that are built are the fewest reads that will do. */
  lemma FewestBatches(registers: seq<RegisterConfig>, order: seq<nat>, batches: seq<RegisterBatch>,
                      groups: seq<seq<nat>>)
    requires LengthsOk(registers) && SortedOrder(registers, order) && JoinedAreNext(registers, order)
    requires GreedyBatches(registers, order, batches)
    requires ReadsAll(registers, groups)
    ensures |batches| <= |groups|
  {
    var ends: seq<nat> :| IsGreedy(InOrder(registers, order), ends)
                          && BatchesCut(InOrder(registers, order), order, batches, ends);
    FewestReads(registers, order, ends, groups);
  }

  ghost function GroupOf(groups: seq<seq<nat>>, i: nat): (g: nat)
    requires Covered(groups, i)
    ensures g < |groups| && i in groups[g]
  {
    var g :| 0 <= g < |groups| && i in groups[g];
    g
  }

  function Overlapping(c: RegisterConfig): seq<RegisterConfig> {
    [c.(regType := HoldingRegister, localAddress := 0, length := 2),
     c.(regType := HoldingRegister, localAddress := 1, length := 5),
     c.(regType := HoldingRegister, localAddress := 2, length := 1)]
  }

  /** Overlap can break the condition and cost a read: here the sorted order separates two adjacent
      registers, so the greedy cut needs three reads although two legal reads cover everything. */
  lemma OverlapCanCostAnExtraRead(c: RegisterConfig)
    ensures SortedOrder(Overlapping(c), [0, 1, 2])
    ensures !NoOverlap(Overlapping(c)) && !JoinedAreNext(Overlapping(c), [0, 1, 2])
    ensures IsGreedy(InOrder(Overlapping(c), [0, 1, 2]), [1, 2, 3])
    ensures ReadsAll(Overlapping(c), [[0, 2], [1]])
  {
    var regs := Overlapping(c);
    var order: seq<nat> := [0, 1, 2];
    assert order[0] == 0 && order[1] == 1 && order[2] == 2;
    assert !Apart(regs[0], regs[1]) && Joins(regs[order[0]], regs[order[2]]);
    assert InOrder(regs, order) == regs;
    OverlappingCut(c);
    OverlappingGroups(c);
  }

  lemma OverlappingCut(c: RegisterConfig)
    ensures IsGreedy(Overlapping(c), [1, 2, 3])
  {
    var regs := Overlapping(c);
    var ends: seq<nat> := [1, 2, 3];
    OneFieldIsMergeable(regs, 0);
    OneFieldIsMergeable(regs, 1);
    OneFieldIsMergeable(regs, 2);
    assert TotalLength(regs, 0, 0) == 0 && TotalLength(regs, 1, 1) == 0;
    assert !InRun(regs, 0, 1) && !InRun(regs, 1, 2);
    assert Maximal(regs, ends, 0) && Maximal(regs, ends, 1);
    assert LegalRead(regs, ends, 0) && LegalRead(regs, ends, 1) && LegalRead(regs, ends, 2);
  }

  lemma OverlappingGroups(c: RegisterConfig)
    ensures ReadsAll(Overlapping(c), [[0, 2], [1]])
  {
    var regs := Overlapping(c);
    var pair, single := InOrder(regs, [0, 2]), InOrder(regs, [1]);
    assert pair == [regs[0], regs[2]];
    assert TotalLength(pair, 0, 0) == 0;
    assert TotalLength(pair, 0, 1) == TotalLength(pair, 0, 0) + pair[0].length == 2;
    assert TotalLength(pair, 0, 2) == TotalLength(pair, 0, 1) + pair[1].length == 3;
    assert InRun(pair, 0, 0) && InRun(pair, 0, 1);
    OneFieldIsMergeable(single, 0);
    var groups: seq<seq<nat>> := [[0, 2], [1]];
    assert groups[0][0] == 0 && groups[0][1] == 2 && groups[1][0] == 1;
    assert 0 in groups[0] && 2 in groups[0] && 1 in groups[1];
    assert Covered(groups, 0) && Covered(groups, 1) && Covered(groups, 2);
  }
}
