/**
 The registry as the host drives it: a sequence of operator invocations on
 one registry value. Each invocation either finishes with a new registry or
 raises an index error, in which case the registry is left as it was.
 */
module Commands {
  import opened GridList
  import GridAdd
  import GridRemove
  import GridCycle
  import GridValidate

  /** The four operators of the registry. Validation carries the material
      snapshot the host supplies at the time it runs. */
  datatype Command = AddGrid | RemoveGrid | CycleGrid | ValidateGrids(mats: seq<GridValidate.Material>)

  /** The registry after an operator: unchanged when it raised. */
  function Settle<G>(r: Registry<G>, o: Outcome<G>): Registry<G> {
    match o
    case Finished(r') => r'
    case IndexError(_) => r
  }

  /** One operator invocation, each operator as it is written. */
  function Step<G>(r: Registry<G>, c: Command, default: G): Registry<G> {
    match c
    case AddGrid => Settle(r, GridAdd.Add(r))
    case RemoveGrid => Settle(r, GridRemove.Remove(r))
    case CycleGrid => Settle(r, GridCycle.Cycle(r))
    case ValidateGrids(mats) => GridValidate.Validate(r, mats, default)
  }

  /** The registry after a sequence of invocations. */
  function Run<G>(r: Registry<G>, cmds: seq<Command>, default: G): Registry<G>
    decreases |cmds|
  {
    if |cmds| == 0 then r else Run(Step(r, cmds[0], default), cmds[1..], default)
  }

  lemma StepPreservesWellFormed<G>(r: Registry<G>, c: Command, default: G)
    requires WellFormed(r)
    ensures WellFormed(Step(r, c, default))
  {
    match c
    case AddGrid => GridAdd.AddPreservesWellFormed(r);
    case RemoveGrid => GridRemove.RemovePreservesWellFormed(r);
    case CycleGrid => GridCycle.CyclePreservesWellFormed(r);
    case ValidateGrids(mats) => GridValidate.ValidatePreservesWellFormed(r, mats, default);
  }

  /** Every registry reachable from a well-formed one keeps one main entry
      per material and a selection that is a valid index or -1. */
  lemma {:induction false} RunPreservesWellFormed<G>(r: Registry<G>, cmds: seq<Command>, default: G)
    requires WellFormed(r)
    ensures WellFormed(Run(r, cmds, default))
    decreases |cmds|
  {
    if |cmds| > 0 {
      StepPreservesWellFormed(r, cmds[0], default);
      RunPreservesWellFormed(Step(r, cmds[0], default), cmds[1..], default);
    }
  }

  /** Removing entry 0 leaves the selection at -1, which the host reads as
      the last entry: adding then puts a copy of that entry at the front, and
      cycling moves to entry 0 because it shares the material. */
  lemma SelectionMinusOneReadsLast(g: int)
    ensures
      var r1 := Step(Registry([Entry("A", g, true), Entry("A", g, false)], 0), RemoveGrid, g);
      && r1 == Registry([Entry("A", g, true)], -1)
      && Step(r1, AddGrid, g) == Registry([Entry("A", g, false), Entry("A", g, true)], -1)
      && Step(r1, CycleGrid, g) == Registry([Entry("A", g, true)], 0)
  {
  }

  /** Remove, then add, from `[A main, A]` at 0 reaches the well-formed
      `[A, A main]` at -1. There the written scan counts the main entry the
      subscript reads as its own sibling: it reports a main sibling and two
      siblings where the scan that skips the read entry reports no main and
      one sibling, and the host's `remove` is handed -1. The corrected
      removal deletes the entry the subscript reads and promotes the
      survivor. */
  lemma RemoveGuardMissesReadEntry(g: int)
    ensures
      var es := [Entry("A", g, false), Entry("A", g, true)];
      && Step(Step(Registry([Entry("A", g, true), Entry("A", g, false)], 0), RemoveGrid, g), AddGrid, g)
         == Registry(es, -1)
      && WellFormed(Registry(es, -1))
      && GridRemove.ScanSiblings(es, "A", -1, 2) == (true, 2)
      && GridRemove.ScanSiblings(es, "A", 1, 2) == (false, 1)
      && GridRemove.Remove(Registry(es, -1)) == IndexError(-1)
      && GridRemove.RemoveRead(Registry(es, -1)) == Finished(Registry([Entry("A", g, true)], 0))
  {
    SelectionMinusOneReadsLast(g);
    GridRemove.RemoveAtMinusOneSkipsMain(g);
  }

  /** Removing entry 0 of `[A main, A, B main]` reaches the well-formed
      `[A main, B main]` at -1, where the subscript reads B's sole entry. The
      written scan counts that entry as its own sibling, so the refusal that
      protects a sole entry cannot fire and the host's `remove` is handed -1.
      The corrected removal refuses. */
  lemma RemoveGuardMissesSoleEntry(g: int)
    ensures
      var es := [Entry("A", g, true), Entry("B", g, true)];
      && Step(Registry([Entry("A", g, true), Entry("A", g, false), Entry("B", g, true)], 0), RemoveGrid, g)
         == Registry(es, -1)
      && WellFormed(Registry(es, -1))
      && GridRemove.ScanSiblings(es, "B", -1, 2) == (true, 1)
      && GridRemove.ScanSiblings(es, "B", 1, 2) == (false, 0)
      && GridRemove.Remove(Registry(es, -1)) == IndexError(-1)
      && GridRemove.RemoveRead(Registry(es, -1)) == Finished(Registry(es, -1))
  {
    var es0 := [Entry("A", g, true), Entry("A", g, false), Entry("B", g, true)];
    assert GridRemove.HasSibling(es0, 0) by {
      assert es0[1].matId == es0[0].matId;
    }
    var rest := Erase(es0, 0);
    assert rest == [Entry("A", g, false), Entry("B", g, true)];
    var es := [Entry("A", g, true), Entry("B", g, true)];
    assert GridRemove.PromoteFirst(rest, "A") == es by {
      assert FirstFrom(rest, "A", 0) == 0;
    }
    GridRemove.RemoveAtMinusOneSkipsSoleEntry(g);
  }

  /** Every material of `mats` with users has an entry. */
  ghost predicate Covers<G>(r: Registry<G>, mats: seq<GridValidate.Material>) {
    forall j :: 0 <= j < |mats| && mats[j].users > 0 ==> HasEntry(r.entries, mats[j].name)
  }

  /** No operator takes away the last entry of a material, so once the
      registry covers the materials it keeps covering them for as long as
      validation is run against the same materials. */
  lemma StepKeepsCover<G>(r: Registry<G>, c: Command, mats: seq<GridValidate.Material>, default: G)
    requires Covers(r, mats)
    requires c.ValidateGrids? ==> c.mats == mats
    ensures Covers(Step(r, c, default), mats)
  {
    match c
    case AddGrid =>
      if GridAdd.Add(r).Finished? && |r.entries| > 0 {
        var es' := GridAdd.Add(r).reg.entries;
        forall j | 0 <= j < |mats| && mats[j].users > 0
          ensures HasEntry(es', mats[j].name)
        {
          var k :| 0 <= k < |r.entries| && r.entries[k].matId == mats[j].name;
          if k <= r.sel {
            assert es'[k] == es'[..r.sel + 1][k];
          } else {
            assert es'[k + 1] == es'[r.sel + 2..][k - r.sel - 1];
          }
        }
      }
    case RemoveGrid =>
      if GridRemove.Remove(r).Finished? {
        forall j | 0 <= j < |mats| && mats[j].users > 0
          ensures HasEntry(GridRemove.Remove(r).reg.entries, mats[j].name)
        {
          GridRemove.RemoveKeepsEveryMaterial(r, mats[j].name);
        }
      }
    case CycleGrid =>
    case ValidateGrids(_) =>
  }

  lemma {:induction false} RunKeepsCover<G>(
    r: Registry<G>, cmds: seq<Command>, mats: seq<GridValidate.Material>, default: G)
    requires Covers(r, mats)
    requires forall i :: 0 <= i < |cmds| && cmds[i].ValidateGrids? ==> cmds[i].mats == mats
    ensures Covers(Run(r, cmds, default), mats)
    decreases |cmds|
  {
    if |cmds| > 0 {
      StepKeepsCover(r, cmds[0], mats, default);
      assert forall i :: 1 <= i < |cmds| ==> cmds[1..][i - 1] == cmds[i];
      RunKeepsCover(Step(r, cmds[0], default), cmds[1..], mats, default);
    }
  }
}
