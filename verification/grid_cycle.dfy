/**
 The "Cycle grid settings" operator: move the selection among the entries
 that share the selected entry's material.

 `Cycle` is the operator as it is written: it advances only when the very
 next entry shares the material, stays put when the next entry belongs to
 another material, and wraps to the first entry of the material only from the
 last index of the list. `CycleInOrder` is the behaviour the operator's name
 and its wrap-around branch aim at: step to the next entry of the material in
 list order, wrapping to the first one. The command layer runs `Cycle`.
 */
module GridCycle {
  import opened GridList

  function Cycle<G>(r: Registry<G>): (o: Outcome<G>)
    ensures !Readable(r.entries, r.sel) ==> o == IndexError(r.sel)
    ensures Readable(r.entries, r.sel) ==>
      var es, i := r.entries, r.sel;
      var m := es[Position(es, i)].matId;
      && o.Finished?
      && o.reg.entries == es
      && Readable(es, o.reg.sel)
      && es[Position(es, o.reg.sel)].matId == m
      && (i + 1 < |es| && es[Position(es, i + 1)].matId == m ==> o.reg.sel == i + 1)
      && (i + 1 < |es| && es[Position(es, i + 1)].matId != m ==> o.reg.sel == i)
      && (i + 1 == |es| ==>
            && 0 <= o.reg.sel <= i
            && forall k :: 0 <= k < o.reg.sel ==> es[k].matId != m)
  {
    var es := r.entries;
    if !Readable(es, r.sel) then IndexError(r.sel)
    else
      var m := es[Position(es, r.sel)].matId;
      var next := r.sel + 1;
      if next < |es| then
        if es[Position(es, next)].matId == m then Finished(Registry(es, next)) else Finished(r)
      else
        FirstFromFinds(es, m, 0, r.sel);
        Finished(Registry(es, FirstFrom(es, m, 0)))
  }

  /** Step to the next entry bound to the selected material after the
      selected entry, or wrap to the first entry bound to it. */
  function CycleInOrder<G>(r: Registry<G>): (o: Outcome<G>)
    ensures !Readable(r.entries, r.sel) ==> o == IndexError(r.sel)
    ensures Readable(r.entries, r.sel) ==>
      && o.Finished?
      && o.reg.entries == r.entries
      && ValidIndex(r.entries, o.reg.sel)
      && r.entries[o.reg.sel].matId == r.entries[Position(r.entries, r.sel)].matId
  {
    var es := r.entries;
    if !Readable(es, r.sel) then IndexError(r.sel)
    else
      var p := Position(es, r.sel);
      var m := es[p].matId;
      var j := FirstFrom(es, m, p + 1);
      FirstFromFinds(es, m, 0, p);
      Finished(Registry(es, if j < |es| then j else FirstFrom(es, m, 0)))
  }

  /** The outcome of `n` consecutive applications of `step`; an index error
      ends the run. */
  function Iterate<G>(step: Registry<G> -> Outcome<G>, r: Registry<G>, n: nat): Outcome<G> {
    if n == 0 then Finished(r)
    else match Iterate(step, r, n - 1)
      case Finished(r') => step(r')
      case IndexError(i) => IndexError(i)
  }

  /** Number of entries bound to `m` among `es[..i]`: the rank of entry `i`
      among the entries of its material. */
  function CountBefore<G>(es: seq<Entry<G>>, m: string, i: nat): nat
    requires i <= |es|
  {
    if i == 0 then 0 else CountBefore(es, m, i - 1) + (if es[i - 1].matId == m then 1 else 0)
  }

  /** Number of entries bound to `m`. */
  function Count<G>(es: seq<Entry<G>>, m: string): nat {
    CountBefore(es, m, |es|)
  }

  lemma {:induction false} CountBeforeSkip<G>(es: seq<Entry<G>>, m: string, i: nat, j: nat)
    requires i <= j <= |es|
    requires forall k :: i <= k < j ==> es[k].matId != m
    ensures CountBefore(es, m, j) == CountBefore(es, m, i)
    decreases j
  {
    if j > i {
      CountBeforeSkip(es, m, i, j - 1);
    }
  }

  lemma {:induction false} CountBeforeMonotone<G>(es: seq<Entry<G>>, m: string, i: nat, j: nat)
    requires i <= j <= |es|
    ensures CountBefore(es, m, i) <= CountBefore(es, m, j)
    decreases j
  {
    if j > i {
      CountBeforeMonotone(es, m, i, j - 1);
    }
  }

  /** Entries of one material have distinct ranks, all below the count. */
  lemma RankStrict<G>(es: seq<Entry<G>>, m: string, i: nat, j: nat)
    requires i < j <= |es| && es[i].matId == m
    ensures CountBefore(es, m, i) < CountBefore(es, m, j)
  {
    CountBeforeMonotone(es, m, i + 1, j);
  }

  lemma RankDetermines<G>(es: seq<Entry<G>>, m: string, i: nat, j: nat)
    requires i < |es| && j < |es| && es[i].matId == m && es[j].matId == m
    requires CountBefore(es, m, i) == CountBefore(es, m, j)
    ensures i == j
  {
    if i < j {
      RankStrict(es, m, i, j);
    } else if j < i {
      RankStrict(es, m, j, i);
    }
  }

  /** The rank that follows `x` among `k` ranks, wrapping to 0. */
  function NextRank(x: nat, k: nat): nat {
    if x + 1 < k then x + 1 else 0
  }

  /** One in-order step moves the selection to the entry of the material
      whose rank follows the current one. */
  lemma {:induction false} CycleInOrderAdvancesRank<G>(r: Registry<G>)
    requires ValidIndex(r.entries, r.sel)
    ensures
      var es, m := r.entries, r.entries[r.sel].matId;
      && CountBefore(es, m, r.sel) < Count(es, m)
      && CountBefore(es, m, CycleInOrder(r).reg.sel)
         == NextRank(CountBefore(es, m, r.sel), Count(es, m))
  {
    var es, i := r.entries, r.sel;
    var m := es[i].matId;
    var j := FirstFrom(es, m, i + 1);
    RankStrict(es, m, i, |es|);
    CountBeforeSkip(es, m, i + 1, j);
    if j < |es| {
      RankStrict(es, m, j, |es|);
    } else {
      var f := FirstFrom(es, m, 0);
      CountBeforeSkip(es, m, 0, f);
    }
  }

  /** After `n <= k` in-order steps the selection is the entry whose rank is
      the starting rank advanced by `n`, wrapping past the last rank. */
  lemma {:induction false} CycleInOrderRankAfter<G>(r: Registry<G>, n: nat)
    requires ValidIndex(r.entries, r.sel)
    requires n <= Count(r.entries, r.entries[r.sel].matId)
    ensures
      var es, m := r.entries, r.entries[r.sel].matId;
      var r0, k := CountBefore(es, m, r.sel), Count(es, m);
      var o := Iterate(CycleInOrder, r, n);
      && o.Finished?
      && o.reg.entries == es
      && ValidIndex(es, o.reg.sel)
      && es[o.reg.sel].matId == m
      && CountBefore(es, m, o.reg.sel) == (if r0 + n < k then r0 + n else r0 + n - k)
  {
    var es, m := r.entries, r.entries[r.sel].matId;
    RankStrict(es, m, r.sel, |es|);
    if n > 0 {
      CycleInOrderRankAfter(r, n - 1);
      var prev := Iterate(CycleInOrder, r, n - 1).reg;
      CycleInOrderAdvancesRank(prev);
    }
  }

  /** Cycling as many times as the material has entries returns the selection
      to where it started. */
  lemma CycleInOrderCloses<G>(r: Registry<G>)
    requires ValidIndex(r.entries, r.sel)
    ensures Iterate(CycleInOrder, r, Count(r.entries, r.entries[r.sel].matId)) == Finished(r)
  {
    var es, m := r.entries, r.entries[r.sel].matId;
    var k := Count(es, m);
    RankStrict(es, m, r.sel, |es|);
    CycleInOrderRankAfter(r, k);
    var o := Iterate(CycleInOrder, r, k);
    RankDetermines(es, m, r.sel, o.reg.sel);
  }

  /** Every entry of the material is reached within fewer steps than the
      material has entries. */
  lemma CycleInOrderVisitsAll<G>(r: Registry<G>, j: nat)
    requires ValidIndex(r.entries, r.sel)
    requires j < |r.entries| && r.entries[j].matId == r.entries[r.sel].matId
    ensures exists n :: 0 <= n < Count(r.entries, r.entries[r.sel].matId)
                        && Iterate(CycleInOrder, r, n) == Finished(r.(sel := j))
  {
    var es, m := r.entries, r.entries[r.sel].matId;
    var k := Count(es, m);
    var r0, rj := CountBefore(es, m, r.sel), CountBefore(es, m, j);
    RankStrict(es, m, r.sel, |es|);
    RankStrict(es, m, j, |es|);
    var n := if rj >= r0 then rj - r0 else rj + k - r0;
    CycleInOrderRankAfter(r, n);
    var o := Iterate(CycleInOrder, r, n);
    RankDetermines(es, m, o.reg.sel, j);
  }

  /** Where the written operator is not stuck, it agrees with the in-order
      cycle: the next entry shares the material, or the selection is last. */
  lemma CycleAgreesWhereNotStuck<G>(r: Registry<G>)
    requires ValidIndex(r.entries, r.sel)
    requires r.sel + 1 == |r.entries| || r.entries[r.sel + 1].matId == r.entries[r.sel].matId
    ensures Cycle(r) == CycleInOrder(r)
  {
  }

  /** The written operator never leaves the second entry of `[A, A, B]`:
      two cycles from the first entry of material A, which has two entries,
      end on the second entry rather than back on the first. */
  lemma CycleStuckBeforeOtherMaterial(g: int)
    ensures
      var es := [Entry("A", g, true), Entry("A", g, false), Entry("B", g, true)];
      && Count(es, "A") == 2
      && Cycle(Registry(es, 1)) == Finished(Registry(es, 1))
      && Iterate(Cycle, Registry(es, 0), 2) == Finished(Registry(es, 1))
      && Iterate(CycleInOrder, Registry(es, 0), 2) == Finished(Registry(es, 0))
  {
    var es := [Entry("A", g, true), Entry("A", g, false), Entry("B", g, true)];
    assert CountBefore(es, "A", 1) == 1 && CountBefore(es, "A", 2) == 2;
    assert Iterate(Cycle, Registry(es, 0), 1) == Finished(Registry(es, 1));
    assert FirstFrom(es, "A", 2) == 3;
    assert Iterate(CycleInOrder, Registry(es, 0), 1) == Finished(Registry(es, 1));
  }

  /** Cycling never touches the list, so it keeps the registry invariant. */
  lemma CyclePreservesWellFormed<G>(r: Registry<G>)
    requires WellFormed(r)
    ensures Cycle(r).Finished? ==> WellFormed(Cycle(r).reg)
    ensures CycleInOrder(r).Finished? ==> WellFormed(CycleInOrder(r).reg)
  {
  }
}
