# Sprytile grid registry in Dafny

Sprytile is a Blender add-on for painting tiles onto meshes. Its tiles come
from "grids": tiling settings bound to materials. The scene keeps an ordered
list of grid entries (`sprytile_grids`). Each entry has a material name
(`mat_id`), a grid payload and an `is_main` flag. The active object keeps the
selected index (`sprytile_gridid`).

This project models the four operators that maintain that list:

- add duplicates the selected grid;
- remove deletes the selected grid under a refusal policy;
- cycle moves the selection among the grids of one material;
- validate reconciles the list with the scene's materials.

Each operator is a pure function over an immutable registry value:
`GridList.Registry(entries, sel)`. The grid payload is a type parameter that
is only copied. The material collection is a snapshot: a sequence of
`GridValidate.Material(name, users)`.

Modules:

- `GridList` (grid_list.dfy) holds the entry, registry and outcome datatypes,
  list helpers, main-entry counting, and the registry invariant `WellFormed`.
  `WellFormed` means one main entry per material that has entries, and a
  selection that is at least -1 and, while the list is non-empty, below its
  length. So on a non-empty list the selection is a valid index or -1; on an
  empty list any selection of -1 or more is allowed, `Registry([], 0)`
  included.
- `GridAdd` (grid_add.dfy) is `SprytileGridAdd.add_new_grid`.
- `GridRemove` (grid_remove.dfy) is `SprytileGridRemove.delete_grid`. It also
  holds `RemoveRead`, the removal the operator evidently intends at a
  negative selection; see Findings. The command layer runs the operator as
  written.
- `GridCycle` (grid_cycle.dfy) holds `SprytileGridCycle.cycle_grid` as it is
  written. It also holds the in-order cycle the operator evidently intends;
  see Findings. The command layer runs the operator as written.
- `GridValidate` (grid_validate.dfy) is `SprytileValidateGridList.validate_grids`.
- `Commands` (commands.dfy) runs a sequence of operators and proves the
  invariants hold in every reachable registry.

The host collection is subscripted like a Python list: `entries[i]` with
`-n <= i < n` reads an entry, counting a negative `i` from the end
(`GridList.Readable` and `GridList.Position`). A subscript outside that range
raises an index error before any change. The model returns `IndexError(sel)`
from the operator in that case. In a command sequence the registry then stays
as it was.

In these places the model follows the code:

- Remove decrements the selection without clamping
  (sprytile_utils.py:101). Removing entry 0 leaves the selection at -1, and
  `WellFormed` allows -1.
- With the selection at -1, add reads the last entry (sprytile_utils.py:51)
  and moves its copy to index 0, since the target `grid_idx + 1` is 0
  (line 59). Cycle reads the last entry too (line 129) and moves to 0 when
  entry 0 shares its material (lines 130-133).
  `Commands.SelectionMinusOneReadsLast` shows both.
- Cycle on an empty list raises an index error at sprytile_utils.py:129. It
  is not a silent no-op.
- Validate does not repair a material whose entries have no main entry, or
  more than one (sprytile_utils.py:198-212 only add entries for materials
  without any). It only prunes and fills. So one main per material is an
  invariant every operator preserves, not one that validate establishes.
  `GridValidate.ValidateKeepsMainlessMaterial` shows this.

## Model

| member | source | states |
|---|---|---|
| GridList.FirstFrom | sprytile_utils.py:135-138 | the result is the lowest index at or after the start whose entry has the material, or the list length when there is none |
| GridList.Erase | sprytile_utils.py:100 | removing entry `i` shifts every later entry left by one and keeps every earlier entry in place |
| GridAdd.Move | sprytile_utils.py:59 | the collection's move keeps the length, the moved element ends up at the target position, and the other elements keep their relative order |
| GridAdd.Add | sprytile_utils.py:46-59 | an empty list is left alone. A selection outside -1..n-1 raises. Otherwise the list grows by one. Entries before index sel+1 are unchanged, and a copy of the entry the selection reads, with is_main false, sits at sel+1. A selection of -1 reads the last entry and puts the copy at the front. Later entries shift right by one, and the selection is unchanged |
| GridAdd.AddPreservesWellFormed | sprytile_utils.py:54-59 | adding keeps one main entry per material and a selection in range |
| GridRemove.ScanSiblings | sprytile_utils.py:84-93 | the count is zero exactly when no other entry shares the material. The has_main flag is set exactly when some other entry of the material is main |
| GridRemove.PromoteFirst | sprytile_utils.py:105-110 | exactly the first entry of the material gets is_main set, and every other entry is unchanged |
| GridRemove.PromoteFirstMainCount | sprytile_utils.py:102-110 | a material with entries but no main gets exactly one main after promotion, and other materials' main counts do not change |
| GridRemove.SiblingsAfterErase | sprytile_utils.py:84-98 | entry `i` has a sibling exactly when its material still has an entry once `i` is erased, and a sibling is main exactly when a remaining entry of the material is main |
| GridRemove.Delete | sprytile_utils.py:100-110 | deleting keeps the order, material and payload of the other entries and leaves other materials' entries untouched. With a main sibling no flag changes; without one, only the first remaining entry of the material gains is_main |
| GridRemove.RemoveAt | sprytile_utils.py:84-110 | for entry p of a list of at least two entries: a sole entry of its material is left alone. Otherwise exactly entry p goes, the rest keep their order, material and payload, other materials' entries are untouched, and the selection becomes p-1. With no remaining main for the material, the first remaining entry of it becomes main; otherwise no flag changes |
| GridRemove.Remove | sprytile_utils.py:74-110 | a list of at most one entry is left alone. A selection outside 0..n-1 raises, a negative one standing for the host's `remove` refusing a negative index. A sole entry of its material is left alone. Otherwise the selected entry is deleted as `RemoveAt` states |
| GridRemove.ScanSkipDifference | sprytile_utils.py:84-93 | with a negative skip value, the scan counts exactly one more entry than the scan that skips entry p, and sees a main wherever that scan does |
| GridRemove.ScanCountsReadEntry | sprytile_utils.py:80-97 | at a negative selection the entry the subscript reads counts as its own sibling: the count is one more than the intended count, so the refusal cannot fire, and a main read entry sets has_main by itself |
| GridRemove.RemoveRead | sprytile_utils.py:74-110 | the corrected removal: a selection outside -n..n-1 raises. Otherwise the entry the selection reads is skipped by the scan and deleted as `RemoveAt` states, or left alone when it is the sole entry of its material |
| GridRemove.RemoveAtKeepsEveryMaterial | sprytile_utils.py:84-100 | deleting any entry p never empties the list and never leaves a material that had an entry without one |
| GridRemove.RemoveKeepsEveryMaterial | sprytile_utils.py:76-98 | removal never empties a non-empty list and never leaves a material that had an entry without one |
| GridRemove.RemoveReadKeepsEveryMaterial | sprytile_utils.py:76-100 | the corrected removal never empties the list and never orphans a material, at any selection, -1 included |
| GridRemove.RemoveAtLeavesOneMain | sprytile_utils.py:84-110 | deleting entry p, when it has a sibling, from a list with one main per material leaves each material that still has entries with exactly one main |
| GridRemove.RemoveAtPreservesWellFormed | sprytile_utils.py:84-110 | deleting any entry p that has a sibling keeps one main per material and leaves a selection of at least -1 below the new length |
| GridRemove.RemovePreservesWellFormed | sprytile_utils.py:84-110 | with one main per material before removal, there is still one main per material after it, and the selection is a valid index or -1 |
| GridRemove.RemoveReadPreservesWellFormed | sprytile_utils.py:84-110 | the corrected removal keeps the registry invariant from every well-formed registry, the selection -1 included |
| GridRemove.RemoveAtMinusOneSkipsMain | sprytile_utils.py:80-101 | on the well-formed [A, A main] at -1 the written scan gives (true, 2) and the intended one (false, 1). The written operator raises, and the corrected one leaves [A main] at 0 |
| GridRemove.RemoveAtMinusOneSkipsSoleEntry | sprytile_utils.py:80-101 | on the well-formed [A main, B main] at -1 the written scan counts B's sole entry once, so the refusal cannot fire, and the intended scan counts none. The written operator raises, and the corrected one refuses |
| GridRemove.RemoveRefusesSingleEntry | sprytile_utils.py:76-77 | a one-entry list is never changed by remove |
| GridRemove.RemovePromotesSurvivor | sprytile_utils.py:100-110 | deleting the main of a two-entry material leaves the other entry as main and the selection at -1 |
| GridCycle.Cycle | sprytile_utils.py:125-138 | a selection that is not a readable subscript raises. A negative selection reads from the end. The list never changes, and the new selection reads an entry of the same material. It advances by one when the entry read at sel+1 shares the material and stays put when that entry differs. At the last index it jumps to the lowest index of the material, which is at or before the old one |
| GridCycle.CycleInOrder | sprytile_utils.py:125-138 | a selection that is not a readable subscript raises. Otherwise the list never changes, and the new selection is a valid index whose entry has the material of the entry the selection read |
| GridCycle.CycleInOrderAdvancesRank | sprytile_utils.py:130-138 | one in-order cycle moves the selection to the material's entry of the next rank in list order, wrapping from the last to the first |
| GridCycle.CycleInOrderRankAfter | sprytile_utils.py:130-138 | after n in-order cycles, with n at most the material's entry count, the selection's rank is the starting rank plus n, wrapped |
| GridCycle.CycleInOrderCloses | sprytile_utils.py:130-138 | cycling as many times as the material has entries returns the selection to where it started |
| GridCycle.CycleInOrderVisitsAll | sprytile_utils.py:130-138 | every entry of the material is selected after fewer cycles than the material has entries |
| GridCycle.CycleAgreesWhereNotStuck | sprytile_utils.py:130-138 | when the next entry shares the material, or the selection is last, the written operator and the in-order cycle agree |
| GridCycle.CycleStuckBeforeOtherMaterial | sprytile_utils.py:131-133 | on [A, A, B], the written operator leaves selection 1 where it is, so two cycles from 0 end at 1; the in-order cycle returns to 0 |
| GridCycle.CyclePreservesWellFormed | sprytile_utils.py:125-138 | neither cycle changes the list, so both keep the registry invariant |
| GridValidate.FindFrom | sprytile_utils.py:188 | the result is the first index at or after the start whose material has the name, or -1 when there is none |
| GridValidate.Find | sprytile_utils.py:188 | the result is the first index whose material has the name, or -1 when no material has it |
| GridValidate.KeepLive | sprytile_utils.py:186-196 | every kept entry's material exists and has users, and every such entry of the input is kept |
| GridValidate.KeepLiveMainCount | sprytile_utils.py:186-196 | pruning keeps a live material's main count and drops a dead material's to zero |
| GridValidate.KeepLiveHasEntry | sprytile_utils.py:186-196 | after pruning, a material has an entry exactly when it had one before and is live |
| GridValidate.CollectDead | sprytile_utils.py:186-193 | the collected indices are increasing, and they are exactly the entries whose material is missing or has no users |
| GridValidate.RemoveDescending | sprytile_utils.py:194-196 | removing the collected indices from the highest down leaves exactly the live entries in their original order |
| GridValidate.Prune | sprytile_utils.py:186-196 | the pruning pass yields exactly the live entries in their original order |
| GridValidate.Fill | sprytile_utils.py:198-212 | the input stays as a prefix, and every material with users ends up with an entry. Each appended entry is main, carries the default payload, belongs to a material with users, and is for a material the input had no entry for |
| GridValidate.FillPreservesOneMain | sprytile_utils.py:198-212 | filling keeps one main entry per material |
| GridValidate.FillAppendsNewEntries | sprytile_utils.py:198-212 | with unique material names, filling appends one main entry per uncovered material with users, in material order |
| GridValidate.Validate | sprytile_utils.py:179-216 | the surviving entries come first, in their original order. Everything after them is main with the default payload, and every material with users has an entry. The selection read before pruning becomes count-1 when it is at or past the new count and is kept otherwise |
| GridValidate.ValidateEntriesAreLive | sprytile_utils.py:186-212 | with unique material names, every entry after validation belongs to an existing material with users |
| GridValidate.ValidateAppendsNewEntries | sprytile_utils.py:198-212 | with unique material names, validation's list is the pruned list followed by one main entry per uncovered material with users, in material order |
| GridValidate.ValidateIdempotent | sprytile_utils.py:179-216 | with unique material names, a second validation against the same materials changes nothing |
| GridValidate.ValidatePreservesWellFormed | sprytile_utils.py:186-216 | validation keeps one main entry per material and leaves the selection a valid index or -1 |
| GridValidate.ValidateKeepsMainlessMaterial | sprytile_utils.py:198-212 | a live material whose only entry is not main is left without a main |
| GridValidate.ValidateFillsEmptyList | sprytile_utils.py:198-216 | an empty list with materials A (one user) and B (no users) becomes a single main entry for A, with the selection at 0 |
| Commands.SelectionMinusOneReadsLast | sprytile_utils.py:46-133 | removing entry 0 of [A main, A] leaves [A main] with selection -1. Adding then puts a non-main copy of the last entry at the front, and cycling selects entry 0 |
| Commands.RemoveGuardMissesReadEntry | sprytile_utils.py:80-101 | remove then add from [A main, A] at 0 reaches the well-formed [A, A main] at -1, where the written scan counts the read main entry as its own sibling while the intended scan finds none |
| Commands.RemoveGuardMissesSoleEntry | sprytile_utils.py:80-101 | removing entry 0 of [A main, A, B main] reaches the well-formed [A main, B main] at -1, where the written scan counts B's sole entry as its own sibling, so the refusal cannot fire |
| Commands.StepPreservesWellFormed | sprytile_utils.py:34-216 | each operator invocation, with cycling as written, keeps one main per material and a selection in range |
| Commands.RunPreservesWellFormed | sprytile_utils.py:34-216 | every registry reachable by any sequence of operators from a well-formed one is well formed |
| Commands.StepKeepsCover | sprytile_utils.py:76-98 | no operator takes the last entry away from a material with users while validation uses the same materials |
| Commands.RunKeepsCover | sprytile_utils.py:34-216 | once every material with users has an entry, this stays true under any sequence of operators that validates against the same materials |

## Left out

- `get_grid_matrix`: an empty stub with no behaviour.
- `get_grid_texture`: a lookup through material slots, textures and the
  image collection, which is host data access.
- `SprytileNewMaterial`: it creates a material in the host and then runs
  validation. At the registry level that is `Validate` run on a snapshot with
  one more material that has users.
- `SprytileGridTranslate`: a modal event loop with timers and floating-point
  pixel snapping through the host's transform operator.
- `SprytileWorkflowPanel`, `register`, `unregister`, and the
  `execute`/`invoke`/`poll` wrappers: UI and host plumbing. The wrappers only
  call the operator and return `{'FINISHED'}`. `Commands.Step` stands in for
  them.
- The `print` of the material count in `validate_grids`: logging only.
- The grid payload's contents. They are opaque and only copied. New entries
  made by validation get a `default` payload parameter, which stands for the
  property defaults of the host collection's `add()`.
- GridAdd.Add: a selection in -n..-2 reads an entry, but then the host's
  `move` gets a negative target position. The model reports an index error
  for it. What the host's `move` does with a negative position is outside
  the repository, and such a selection cannot be reached from a well-formed
  registry, whose only negative selection is -1.
- GridRemove.Remove: a negative selection in -n..-1 reads an entry from the
  end (sprytile_utils.py:80). The scan then compares it with enumeration
  indices, which are never negative (line 89), so the refusal at line 97
  cannot fire and `grid_array.remove(grid_idx)` at line 100 gets the
  negative index. The model's `IndexError` stands for the assumption that
  the host's `remove` raises on a negative index before anything changes.
  The host's `remove` is outside the repository. `ScanCountsReadEntry` and
  the Findings row cover the scan itself.
- GridRemove.RemoveKeepsEveryMaterial: at a negative selection it holds of
  the source only under the assumption that the host's `remove` raises on a
  negative index.
- GridRemove.RemovePreservesWellFormed: at a negative selection it holds of
  the source only under the assumption that the host's `remove` raises on a
  negative index.
- Commands.StepPreservesWellFormed: its remove case rests on the assumption
  that the host's `remove` raises on a negative index.
- Commands.RunPreservesWellFormed: selection -1 is reachable, so it rests
  on the assumption that the host's `remove` raises on a negative index.
- Commands.StepKeepsCover: its remove case rests on the assumption that the
  host's `remove` raises on a negative index.
- Commands.RunKeepsCover: selection -1 is reachable, so it rests on the
  assumption that the host's `remove` raises on a negative index.
- GridCycle.CycleInOrderCloses and GridCycle.CycleInOrderVisitsAll: they are
  stated for a selection in 0..n-1. A negative selection reads the same
  entry as its non-negative counterpart, and the in-order cycle always
  leaves a non-negative selection, so a closed cycle from -1 ends on n-1,
  not on -1.
- Unique material names are assumed by the lemmas that need them:
  `ValidateEntriesAreLive`, `ValidateAppendsNewEntries` and
  `ValidateIdempotent`. The host keeps data-block names unique. `Validate`
  itself is total and resolves a duplicated name to its first material, as
  the host's `find` does.

## Findings

| source | as written | input that shows it | evidently intended | confidence | as-written member | corrected member |
|---|---|---|---|---|---|---|
| sprytile_utils.py:130-138 | when the next entry belongs to another material the selection stays put; the wrap to the material's first entry happens only from the last index of the list | entries [A, A, B] with the selection on index 1: cycling leaves it on 1 for ever, so two cycles from index 0 end on 1, not back on 0 | step to the next entry of the same material in list order, wrapping to its first entry | not executed; medium | GridCycle.CycleStuckBeforeOtherMaterial | GridCycle.CycleInOrderCloses |
| sprytile_utils.py:80-101 | the scan skips the entry whose enumeration index equals the selection, and those indices are never negative. At a negative selection the entry read at line 80 counts as its own sibling, so the refusal of a sole entry cannot fire, `has_main` can come from the entry itself, and `remove` is handed the negative index | remove then add from [A main, A] at 0 gives [A, A main] at -1: the scan reports a main sibling and two siblings, though the only sibling is not main. On [A main, B main] at -1, B's sole entry passes the refusal | skip and delete the entry the selection reads, then select the entry before it | not executed; medium | Commands.RemoveGuardMissesReadEntry | GridRemove.RemoveReadPreservesWellFormed |
