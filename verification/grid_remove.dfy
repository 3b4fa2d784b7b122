/**
 The "Remove Grid" operator: delete the selected grid setting unless that
 would leave its material without any grid, and keep one main grid per
 material.
 */
module GridRemove {
  import opened GridList

  /** Some entry other than entry `i` is bound to the same material. */
  ghost predicate HasSibling<G>(es: seq<Entry<G>>, i: nat)
    requires i < |es|
  {
    exists j :: 0 <= j < |es| && j != i && es[j].matId == es[i].matId
  }

  /** The scan over `es[..n]` for entries bound to `m`, skipping index
      `skip`: whether one of them is main, and how many there are. */
  function ScanSiblings<G>(es: seq<Entry<G>>, m: string, skip: int, n: nat): (res: (bool, nat))
    requires n <= |es|
    ensures res.1 <= n
    ensures res.1 == 0 <==> forall j :: 0 <= j < n && j != skip ==> es[j].matId != m
    ensures res.0 <==> exists j :: 0 <= j < n && j != skip && es[j].matId == m && es[j].isMain
  {
    if n == 0 then (false, 0)
    else
      var (hasMain, count) := ScanSiblings(es, m, skip, n - 1);
      var grid := es[n - 1];
      if grid.matId != m || n - 1 == skip then (hasMain, count)
      else (hasMain || grid.isMain, count + 1)
  }

  /** Mark the first entry bound to `m`, if any, as main. */
  function PromoteFirst<G>(es: seq<Entry<G>>, m: string): (ps: seq<Entry<G>>)
    ensures |ps| == |es|
    ensures forall j :: 0 <= j < |es| ==> ps[j] == (if j == FirstFrom(es, m, 0) then AsMain(es[j]) else es[j])
  {
    var f := FirstFrom(es, m, 0);
    if f < |es| then es[f := AsMain(es[f])] else es
  }

  /** Promoting the first entry of a material that has entries but no main
      gives it exactly one main; other materials' counts do not move. */
  lemma PromoteFirstMainCount<G>(es: seq<Entry<G>>, m: string, n: string)
    requires HasEntry(es, m) && MainCount(es, m) == 0
    ensures MainCount(PromoteFirst(es, m), n) == (if n == m then 1 else MainCount(es, n))
  {
    var f := FirstFrom(es, m, 0);
    var k :| 0 <= k < |es| && es[k].matId == m;
    FirstFromFinds(es, m, 0, k);
    MainCountPositive(es, m);
    assert !es[f].isMain;
    assert PromoteFirst(es, m) == es[f := AsMain(es[f])];
    MainCountUpdate(es, f, AsMain(es[f]), n);
  }

  /** The siblings of entry `i` are exactly the entries of its material
      left once it is erased. */
  lemma SiblingsAfterErase<G>(es: seq<Entry<G>>, i: nat)
    requires i < |es|
    ensures var m, rest := es[i].matId, Erase(es, i);
      && (HasSibling(es, i) <==> HasEntry(rest, m))
      && ((exists j :: 0 <= j < |es| && j != i && es[j].matId == m && es[j].isMain)
          <==> (exists j :: 0 <= j < |rest| && rest[j].matId == m && rest[j].isMain))
  {
    var m, rest := es[i].matId, Erase(es, i);
    if HasSibling(es, i) {
      var j :| 0 <= j < |es| && j != i && es[j].matId == m;
      assert rest[if j < i then j else j - 1] == es[j];
    }
    if HasEntry(rest, m) {
      var j :| 0 <= j < |rest| && rest[j].matId == m;
      assert es[if j < i then j else j + 1] == rest[j];
    }
    if exists j :: 0 <= j < |es| && j != i && es[j].matId == m && es[j].isMain {
      var j :| 0 <= j < |es| && j != i && es[j].matId == m && es[j].isMain;
      assert rest[if j < i then j else j - 1] == es[j];
    }
    if exists j :: 0 <= j < |rest| && rest[j].matId == m && rest[j].isMain {
      var j :| 0 <= j < |rest| && rest[j].matId == m && rest[j].isMain;
      assert es[if j < i then j else j + 1] == rest[j];
    }
  }

  /** The list after deleting entry `i`: unless `hasMain`, the first
      remaining entry of its material is promoted. */
  function Delete<G>(es: seq<Entry<G>>, i: nat, hasMain: bool): (ds: seq<Entry<G>>)
    requires i < |es|
    ensures var m, rest := es[i].matId, Erase(es, i);
      && |ds| == |rest|
      && (forall j :: 0 <= j < |rest| ==> ds[j].matId == rest[j].matId && ds[j].grid == rest[j].grid)
      && (forall j :: 0 <= j < |rest| && rest[j].matId != m ==> ds[j] == rest[j])
      && (hasMain ==> ds == rest)
      && (!hasMain ==> forall j :: 0 <= j < |rest| ==>
            ds[j].isMain == (rest[j].isMain || j == FirstFrom(rest, m, 0)))
  {
    var rest := Erase(es, i);
    if hasMain then rest else PromoteFirst(rest, es[i].matId)
  }

  /** Registry `d` is `r` with entry `p` deleted: the other entries keep
      their order, material and payload, other materials' entries are
      untouched, and the selection is `p - 1`. If no remaining entry of the
      deleted entry's material is main, the first of them becomes main;
      otherwise no flag changes. */
  ghost predicate DeletedAt<G>(r: Registry<G>, p: nat, d: Registry<G>)
    requires p < |r.entries|
  {
    var m, rest := r.entries[p].matId, Erase(r.entries, p);
    && d.sel == p - 1
    && |d.entries| == |rest|
    && (forall j :: 0 <= j < |rest| ==>
          d.entries[j].matId == rest[j].matId && d.entries[j].grid == rest[j].grid)
    && (forall j :: 0 <= j < |rest| && rest[j].matId != m ==> d.entries[j] == rest[j])
    && ((exists j :: 0 <= j < |rest| && rest[j].matId == m && rest[j].isMain) ==>
          d.entries == rest)
    && (!(exists j :: 0 <= j < |rest| && rest[j].matId == m && rest[j].isMain) ==>
          var f := FirstFrom(rest, m, 0);
          && f < |rest|
          && forall j :: 0 <= j < |rest| ==> d.entries[j].isMain == (rest[j].isMain || j == f))
  }

  /** The scan, the refusal and the deletion, for entry `p` of a list of at
      least two entries: the entry goes when another entry shares its
      material, and the registry is left alone otherwise. */
  function RemoveAt<G>(r: Registry<G>, p: nat): (o: Outcome<G>)
    requires 1 < |r.entries| && p < |r.entries|
    ensures !HasSibling(r.entries, p) ==> o == Finished(r)
    ensures HasSibling(r.entries, p) ==> o.Finished? && DeletedAt(r, p, o.reg)
  {
    var es := r.entries;
    var m := es[p].matId;
    var (hasMain, count) := ScanSiblings(es, m, p, |es|);
    SiblingsAfterErase(es, p);
    if count < 1 then Finished(r)
    else
      var rest := Erase(es, p);
      var k :| 0 <= k < |rest| && rest[k].matId == m;
      FirstFromFinds(rest, m, 0, k);
      Finished(Registry(Delete(es, p, hasMain), p - 1))
  }

  /** Delete the selected entry when another entry shares its material;
      decrement the selection unconditionally; if none of the remaining
      entries of that material is main, promote the first of them. A list of
      at most one entry, and a sole entry of its material, are left alone.
      A selection outside -n..n-1 raises at the read. A negative selection
      inside that range reads an entry from the end, but the scan then
      compares it with non-negative indices (see `ScanCountsReadEntry`),
      the refusal cannot fire, and the host collection's `remove` is handed
      the negative index: the model takes that call to raise before anything
      changes. */
  function Remove<G>(r: Registry<G>): (o: Outcome<G>)
    ensures |r.entries| <= 1 ==> o == Finished(r)
    ensures |r.entries| > 1 && !ValidIndex(r.entries, r.sel) ==> o == IndexError(r.sel)
    ensures |r.entries| > 1 && ValidIndex(r.entries, r.sel) && !HasSibling(r.entries, r.sel) ==>
      o == Finished(r)
    ensures |r.entries| > 1 && ValidIndex(r.entries, r.sel) && HasSibling(r.entries, r.sel) ==>
      o.Finished? && DeletedAt(r, r.sel, o.reg)
  {
    var es := r.entries;
    if |es| <= 1 then Finished(r)
    else if !Readable(es, r.sel) || r.sel < 0 then IndexError(r.sel)
    else RemoveAt(r, r.sel)
  }

  /** With the selection's entry included, the scan at a selection that no
      enumeration index equals counts one more entry than the scan that skips
      entry `p`, and sees a main wherever that scan does. */
  lemma {:induction false} ScanSkipDifference<G>(es: seq<Entry<G>>, m: string, skip: int, p: nat, n: nat)
    requires n <= |es| && p < |es| && es[p].matId == m && skip < 0
    ensures ScanSiblings(es, m, skip, n).1 == ScanSiblings(es, m, p, n).1 + (if p < n then 1 else 0)
    ensures ScanSiblings(es, m, p, n).0 ==> ScanSiblings(es, m, skip, n).0
    decreases n
  {
    if n > 0 {
      ScanSkipDifference(es, m, skip, p, n - 1);
    }
  }

  /** The scan as written, at a negative selection: the entry the subscript
      reads is never skipped, so it counts as its own sibling. The count is
      one more than the intended one, so the refusal cannot fire, and a main
      entry read by the subscript sets `has_main` by itself. */
  lemma ScanCountsReadEntry<G>(es: seq<Entry<G>>, sel: int)
    requires -|es| <= sel < 0
    ensures
      var p := Position(es, sel);
      var m := es[p].matId;
      var written, intended := ScanSiblings(es, m, sel, |es|), ScanSiblings(es, m, p, |es|);
      && written.1 == intended.1 + 1
      && written.1 >= 1
      && (es[p].isMain ==> written.0)
      && (intended.0 ==> written.0)
  {
    var p := Position(es, sel);
    ScanSkipDifference(es, es[p].matId, sel, p, |es|);
  }

  /** Remove the entry the selection reads, as the operator intends: a
      negative selection stands for the entry it reads from the end, so the
      scan skips and the deletion takes that entry, and the selection then
      moves to the entry before it. */
  function RemoveRead<G>(r: Registry<G>): (o: Outcome<G>)
    ensures |r.entries| <= 1 ==> o == Finished(r)
    ensures |r.entries| > 1 && !Readable(r.entries, r.sel) ==> o == IndexError(r.sel)
    ensures |r.entries| > 1 && Readable(r.entries, r.sel) ==>
      var p := Position(r.entries, r.sel);
      && (!HasSibling(r.entries, p) ==> o == Finished(r))
      && (HasSibling(r.entries, p) ==> o.Finished? && DeletedAt(r, p, o.reg))
  {
    var es := r.entries;
    if |es| <= 1 then Finished(r)
    else if !Readable(es, r.sel) then IndexError(r.sel)
    else RemoveAt(r, Position(es, r.sel))
  }

  /** Deleting entry `p` never empties the list and never leaves a material
      that had an entry without one. */
  lemma RemoveAtKeepsEveryMaterial<G>(r: Registry<G>, p: nat, n: string)
    requires 1 < |r.entries| && p < |r.entries|
    ensures |RemoveAt(r, p).reg.entries| > 0
    ensures HasEntry(r.entries, n) ==> HasEntry(RemoveAt(r, p).reg.entries, n)
  {
    var es := r.entries;
    if HasSibling(es, p) && HasEntry(es, n) {
      var es' := RemoveAt(r, p).reg.entries;
      var k :| 0 <= k < |es| && es[k].matId == n;
      if k == p {
        k :| 0 <= k < |es| && k != p && es[k].matId == es[p].matId;
      }
      assert es'[if k < p then k else k - 1].matId == n;
    }
  }

  /** Removal never empties the list and never leaves a material that had
      an entry without one. */
  lemma RemoveKeepsEveryMaterial<G>(r: Registry<G>, n: string)
    requires Remove(r).Finished?
    ensures |r.entries| > 0 ==> |Remove(r).reg.entries| > 0
    ensures HasEntry(r.entries, n) ==> HasEntry(Remove(r).reg.entries, n)
  {
    if |r.entries| > 1 {
      RemoveAtKeepsEveryMaterial(r, r.sel, n);
    }
  }

  /** The corrected removal never empties the list and never leaves a
      material that had an entry without one, whatever the selection. */
  lemma RemoveReadKeepsEveryMaterial<G>(r: Registry<G>, n: string)
    requires RemoveRead(r).Finished?
    ensures |r.entries| > 0 ==> |RemoveRead(r).reg.entries| > 0
    ensures HasEntry(r.entries, n) ==> HasEntry(RemoveRead(r).reg.entries, n)
  {
    if |r.entries| > 1 {
      RemoveAtKeepsEveryMaterial(r, Position(r.entries, r.sel), n);
    }
  }

  /** Deleting entry `p` leaves material `n`, if it still has entries, with
      exactly one main entry. */
  lemma RemoveAtLeavesOneMain<G>(r: Registry<G>, p: nat, n: string)
    requires OneMainPerMaterial(r.entries)
    requires 1 < |r.entries| && p < |r.entries| && HasSibling(r.entries, p)
    requires HasEntry(RemoveAt(r, p).reg.entries, n)
    ensures MainCount(RemoveAt(r, p).reg.entries, n) == 1
  {
    var es := r.entries;
    var m, rest := es[p].matId, Erase(es, p);
    var es' := RemoveAt(r, p).reg.entries;
    SiblingsAfterErase(es, p);
    MainCountErase(es, p, n);
    MainCountPositive(rest, m);
    var k :| 0 <= k < |es'| && es'[k].matId == n;
    assert HasEntry(es, n) by {
      assert es[if k < p then k else k + 1].matId == n;
    }
    if !(exists j :: 0 <= j < |rest| && rest[j].matId == m && rest[j].isMain) {
      assert es' == PromoteFirst(rest, m);
      PromoteFirstMainCount(rest, m, n);
      assert HasEntry(es, m);
    }
  }

  /** Deleting any entry keeps one main per material and a selection of at
      least -1 that is below the new length. */
  lemma RemoveAtPreservesWellFormed<G>(r: Registry<G>, p: nat)
    requires OneMainPerMaterial(r.entries)
    requires 1 < |r.entries| && p < |r.entries|
    ensures HasSibling(r.entries, p) ==> WellFormed(RemoveAt(r, p).reg)
  {
    if HasSibling(r.entries, p) {
      forall n | HasEntry(RemoveAt(r, p).reg.entries, n)
        ensures MainCount(RemoveAt(r, p).reg.entries, n) == 1
      {
        RemoveAtLeavesOneMain(r, p, n);
      }
    }
  }

  /** With one main per material before, the removal leaves one main per
      material: a main deleted is replaced by the first remaining sibling. */
  lemma RemovePreservesWellFormed<G>(r: Registry<G>)
    requires WellFormed(r)
    ensures Remove(r).Finished? ==> WellFormed(Remove(r).reg)
  {
    if |r.entries| > 1 && ValidIndex(r.entries, r.sel) {
      RemoveAtPreservesWellFormed(r, r.sel);
    }
  }

  /** The corrected removal keeps the registry invariant from every
      well-formed registry, the selection -1 included. */
  lemma RemoveReadPreservesWellFormed<G>(r: Registry<G>)
    requires WellFormed(r)
    ensures RemoveRead(r).Finished? ==> WellFormed(RemoveRead(r).reg)
  {
    if |r.entries| > 1 && Readable(r.entries, r.sel) {
      RemoveAtPreservesWellFormed(r, Position(r.entries, r.sel));
    }
  }

  /** `[A, A main]` at -1: the written scan counts the main entry read at
      -1 as its own sibling; the scan that skips it finds no main and one
      sibling. The written operator hands -1 to the host's `remove`; the
      corrected one deletes the read entry and promotes the survivor. */
  lemma RemoveAtMinusOneSkipsMain(g: int)
    ensures
      var es := [Entry("A", g, false), Entry("A", g, true)];
      && WellFormed(Registry(es, -1))
      && ScanSiblings(es, "A", -1, 2) == (true, 2)
      && ScanSiblings(es, "A", 1, 2) == (false, 1)
      && Remove(Registry(es, -1)) == IndexError(-1)
      && RemoveRead(Registry(es, -1)) == Finished(Registry([Entry("A", g, true)], 0))
  {
    var es := [Entry("A", g, false), Entry("A", g, true)];
    assert es[1..] == [Entry("A", g, true)] && es[1..][1..] == [];
    forall m | HasEntry(es, m)
      ensures MainCount(es, m) == 1
    {
      assert m == "A";
      assert MainCount(es[1..][1..], m) == 0;
      assert MainCount(es[1..], m) == 1;
    }
    assert HasSibling(es, 1) by {
      assert es[0].matId == es[1].matId;
    }
    var rest := Erase(es, 1);
    assert rest == [Entry("A", g, false)];
    assert FirstFrom(rest, "A", 0) == 0;
    assert Delete(es, 1, false) == [Entry("A", g, true)];
  }

  /** `[A main, B main]` at -1: the written scan counts B's sole entry, read
      at -1, as its own sibling, so the refusal cannot fire; the scan that
      skips it finds none, and the corrected operator refuses. */
  lemma RemoveAtMinusOneSkipsSoleEntry(g: int)
    ensures
      var es := [Entry("A", g, true), Entry("B", g, true)];
      && WellFormed(Registry(es, -1))
      && ScanSiblings(es, "B", -1, 2) == (true, 1)
      && ScanSiblings(es, "B", 1, 2) == (false, 0)
      && Remove(Registry(es, -1)) == IndexError(-1)
      && RemoveRead(Registry(es, -1)) == Finished(Registry(es, -1))
  {
    var es := [Entry("A", g, true), Entry("B", g, true)];
    assert es[1..] == [Entry("B", g, true)] && es[1..][1..] == [];
    forall m | HasEntry(es, m)
      ensures MainCount(es, m) == 1
    {
      assert m == "A" || m == "B";
      assert MainCount(es[1..][1..], m) == 0;
      assert MainCount(es[1..], m) == (if m == "B" then 1 else 0);
    }
    assert !HasSibling(es, 1);
  }

  /** The smallest refusal: a single entry is never removed. */
  lemma RemoveRefusesSingleEntry(g: int)
    ensures Remove(Registry([Entry("A", g, true)], 0)) == Finished(Registry([Entry("A", g, true)], 0))
  {
  }

  /** Deleting the main of a two-entry material promotes the other entry. */
  lemma RemovePromotesSurvivor(g: int, h: int)
    ensures Remove(Registry([Entry("A", g, true), Entry("A", h, false)], 0))
         == Finished(Registry([Entry("A", h, true)], -1))
  {
    var r := Registry([Entry("A", g, true), Entry("A", h, false)], 0);
    assert HasSibling(r.entries, 0) by {
      assert r.entries[1].matId == r.entries[0].matId;
    }
    var rest := Erase(r.entries, 0);
    assert rest == [Entry("A", h, false)];
    assert FirstFrom(rest, "A", 0) == 0;
  }
}
