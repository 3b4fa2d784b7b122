/**
 The "Validate Material Grids" operator: bring the grid list back in line
 with the scene's materials. Entries whose material is gone or has no users
 are pruned, every material with users that has no entry gets a new main
 entry, and the selection is pulled back into range when it fell off the end.
 */
module GridValidate {
  import opened GridList

  /** A material as the host reports it: its name and its user count. */
  datatype Material = Material(name: string, users: nat)

  /** Index of the first material named `name` at or after `k`, or -1. */
  function FindFrom(mats: seq<Material>, name: string, k: nat): (i: int)
    requires k <= |mats|
    ensures i == -1 || k <= i < |mats|
    ensures i >= 0 ==> mats[i].name == name
    ensures forall j :: k <= j < |mats| && (i < 0 || j < i) ==> mats[j].name != name
    decreases |mats| - k
  {
    if k == |mats| then -1
    else if mats[k].name == name then k
    else FindFrom(mats, name, k + 1)
  }

  /** The host's `find` on its material collection: index of the first
      material with that name, or -1 when there is none. */
  function Find(mats: seq<Material>, name: string): (i: int)
    ensures -1 <= i < |mats|
    ensures i >= 0 ==> mats[i].name == name
    ensures forall j :: 0 <= j < |mats| && (i < 0 || j < i) ==> mats[j].name != name
  {
    FindFrom(mats, name, 0)
  }

  /** An entry for material `name` survives pruning: the material exists and
      has at least one user. */
  predicate IsLive(mats: seq<Material>, name: string) {
    var i := Find(mats, name);
    i >= 0 && mats[i].users > 0
  }

  /** Material names are unique, as the host guarantees for its data blocks. */
  ghost predicate UniqueNames(mats: seq<Material>) {
    forall i, j :: 0 <= i < j < |mats| ==> mats[i].name != mats[j].name
  }

  lemma FindUnique(mats: seq<Material>, j: nat)
    requires UniqueNames(mats) && j < |mats|
    ensures Find(mats, mats[j].name) == j
  {
  }

  /** The entries whose material is live, in their original order. */
  function KeepLive<G>(es: seq<Entry<G>>, mats: seq<Material>): (kept: seq<Entry<G>>)
    ensures |kept| <= |es|
    ensures forall k :: 0 <= k < |kept| ==> IsLive(mats, kept[k].matId)
    ensures forall k :: 0 <= k < |es| && IsLive(mats, es[k].matId) ==> es[k] in kept
  {
    if |es| == 0 then []
    else
      var rest := KeepLive(es[1..], mats);
      assert forall k :: 1 <= k < |es| ==> es[k] == es[1..][k - 1];
      if IsLive(mats, es[0].matId) then [es[0]] + rest else rest
  }

  lemma {:induction false} KeepLiveConcat<G>(a: seq<Entry<G>>, b: seq<Entry<G>>, mats: seq<Material>)
    ensures KeepLive(a + b, mats) == KeepLive(a, mats) + KeepLive(b, mats)
    decreases |a|
  {
    if |a| == 0 {
      assert a + b == b;
    } else {
      assert (a + b)[1..] == a[1..] + b;
      KeepLiveConcat(a[1..], b, mats);
    }
  }

  lemma {:induction false} KeepLiveAllLive<G>(es: seq<Entry<G>>, mats: seq<Material>)
    requires forall k :: 0 <= k < |es| ==> IsLive(mats, es[k].matId)
    ensures KeepLive(es, mats) == es
    decreases |es|
  {
    if |es| > 0 {
      KeepLiveAllLive(es[1..], mats);
      assert es == [es[0]] + es[1..];
    }
  }

  /** Pruning keeps or drops a material's entries all together. */
  lemma {:induction false} KeepLiveMainCount<G>(es: seq<Entry<G>>, mats: seq<Material>, m: string)
    ensures MainCount(KeepLive(es, mats), m) == (if IsLive(mats, m) then MainCount(es, m) else 0)
    decreases |es|
  {
    if |es| > 0 {
      KeepLiveMainCount(es[1..], mats, m);
      var rest := KeepLive(es[1..], mats);
      if IsLive(mats, es[0].matId) {
        MainCountConcat([es[0]], rest, m);
      }
    }
  }

  lemma KeepLiveHasEntry<G>(es: seq<Entry<G>>, mats: seq<Material>, m: string)
    ensures HasEntry(KeepLive(es, mats), m) <==> HasEntry(es, m) && IsLive(mats, m)
  {
    var kept := KeepLive(es, mats);
    if HasEntry(kept, m) {
      var k :| 0 <= k < |kept| && kept[k].matId == m;
      KeepLiveMember(es, mats, kept[k]);
    }
    if HasEntry(es, m) && IsLive(mats, m) {
      var k :| 0 <= k < |es| && es[k].matId == m;
      var k' :| 0 <= k' < |kept| && kept[k'] == es[k];
    }
  }

  lemma {:induction false} KeepLiveMember<G>(es: seq<Entry<G>>, mats: seq<Material>, e: Entry<G>)
    requires e in KeepLive(es, mats)
    ensures e in es
    decreases |es|
  {
    if |es| > 0 && e != es[0] {
      KeepLiveMember(es[1..], mats, e);
    }
  }

  /** Taking out a dead entry at `c`, below a stretch of live entries that
      runs up to `b`, extends the pruned suffix down to `c`. */
  lemma KeepLiveDropDead<G>(grids: seq<Entry<G>>, mats: seq<Material>, c: nat, b: nat)
    requires c < b <= |grids|
    requires !IsLive(mats, grids[c].matId)
    requires forall j :: c < j < b ==> IsLive(mats, grids[j].matId)
    ensures Erase(grids[..b] + KeepLive(grids[b..], mats), c) == grids[..c] + KeepLive(grids[c..], mats)
  {
    var live := grids[c + 1..b];
    var tail := KeepLive(grids[b..], mats);
    var whole := grids[..b] + tail;
    assert grids[..b] == grids[..c] + [grids[c]] + live;
    assert whole[..c] == grids[..c];
    assert whole[c + 1..] == live + tail;
    assert grids[c..] == [grids[c]] + (live + grids[b..]);
    KeepLiveConcat(live, grids[b..], mats);
    KeepLiveAllLive(live, mats);
    assert KeepLive(grids[c..], mats) == live + tail;
  }

  /** Once every entry below `b` is live, the pruned suffix is the whole
      pruned list. */
  lemma KeepLiveLivePrefix<G>(grids: seq<Entry<G>>, mats: seq<Material>, b: nat)
    requires b <= |grids|
    requires forall j :: 0 <= j < b ==> IsLive(mats, grids[j].matId)
    ensures grids[..b] + KeepLive(grids[b..], mats) == KeepLive(grids, mats)
  {
    assert grids == grids[..b] + grids[b..];
    KeepLiveConcat(grids[..b], grids[b..], mats);
    KeepLiveAllLive(grids[..b], mats);
  }

  /** The index from which the removals in `removeIdx[p..]` have already
      been applied. */
  function Bound(removeIdx: seq<nat>, p: nat, n: nat): nat
    requires p <= |removeIdx|
  {
    if p == |removeIdx| then n else removeIdx[p]
  }

  /** `removeIdx` lists, in increasing order, exactly the indices of the
      entries of `grids` whose material is not live. */
  ghost predicate DeadIndices<G>(grids: seq<Entry<G>>, mats: seq<Material>, removeIdx: seq<nat>) {
    && (forall a :: 0 <= a < |removeIdx| ==>
          removeIdx[a] < |grids| && !IsLive(mats, grids[removeIdx[a]].matId))
    && (forall a, a' :: 0 <= a < a' < |removeIdx| ==> removeIdx[a] < removeIdx[a'])
    && (forall j :: 0 <= j < |grids| && !IsLive(mats, grids[j].matId) ==> j in removeIdx)
  }

  /** The first half of the pruning pass: record the index of every entry
      whose material is missing or has no users. */
  method CollectDead<G>(grids: seq<Entry<G>>, mats: seq<Material>) returns (removeIdx: seq<nat>)
    ensures DeadIndices(grids, mats, removeIdx)
  {
    removeIdx := [];
    var idx := 0;
    while idx < |grids|
      invariant idx <= |grids|
      invariant forall a :: 0 <= a < |removeIdx| ==>
        removeIdx[a] < idx && !IsLive(mats, grids[removeIdx[a]].matId)
      invariant forall a, a' :: 0 <= a < a' < |removeIdx| ==> removeIdx[a] < removeIdx[a']
      invariant forall j :: 0 <= j < idx && !IsLive(mats, grids[j].matId) ==> j in removeIdx
    {
      var matIdx := Find(mats, grids[idx].matId);
      if matIdx < 0 {
        removeIdx := removeIdx + [idx];
      } else if mats[matIdx].users == 0 {
        removeIdx := removeIdx + [idx];
      }
      idx := idx + 1;
    }
  }

  /** Between two consecutive recorded indices, and below the first one,
      every entry is live. */
  lemma LiveBetween<G>(grids: seq<Entry<G>>, mats: seq<Material>, removeIdx: seq<nat>, p: nat)
    requires DeadIndices(grids, mats, removeIdx) && p <= |removeIdx|
    ensures Bound(removeIdx, p, |grids|) <= |grids|
    ensures forall j :: (if p == 0 then 0 else removeIdx[p - 1] + 1) <= j < Bound(removeIdx, p, |grids|)
                        ==> IsLive(mats, grids[j].matId)
  {
    var lo := if p == 0 then 0 else removeIdx[p - 1] + 1;
    forall j | lo <= j < Bound(removeIdx, p, |grids|)
      ensures IsLive(mats, grids[j].matId)
    {
      forall a | 0 <= a < |removeIdx|
        ensures removeIdx[a] != j
      {
        if a + 1 < p {
          assert removeIdx[a] < removeIdx[p - 1];
        } else if a > p {
          assert removeIdx[p] < removeIdx[a];
        }
      }
    }
  }

  /** The second half of the pruning pass: remove the recorded entries from
      the highest index down, so that no removal shifts a pending one. */
  method RemoveDescending<G>(grids: seq<Entry<G>>, mats: seq<Material>, removeIdx: seq<nat>)
    returns (kept: seq<Entry<G>>)
    requires DeadIndices(grids, mats, removeIdx)
    ensures kept == KeepLive(grids, mats)
  {
    kept := grids;
    var p: nat := |removeIdx|;
    while p > 0
      invariant p <= |removeIdx|
      invariant Bound(removeIdx, p, |grids|) <= |grids|
      invariant kept == grids[..Bound(removeIdx, p, |grids|)]
                        + KeepLive(grids[Bound(removeIdx, p, |grids|)..], mats)
    {
      var c := removeIdx[p - 1];
      ghost var b := Bound(removeIdx, p, |grids|);
      LiveBetween(grids, mats, removeIdx, p);
      KeepLiveDropDead(grids, mats, c, b);
      kept := Erase(kept, c);
      p := p - 1;
      assert Bound(removeIdx, p, |grids|) == c;
    }
    LiveBetween(grids, mats, removeIdx, 0);
    KeepLiveLivePrefix(grids, mats, Bound(removeIdx, 0, |grids|));
  }

  /** The pruning pass as the operator performs it. The result is exactly
      the live entries in their original order. */
  method Prune<G>(grids: seq<Entry<G>>, mats: seq<Material>) returns (kept: seq<Entry<G>>)
    ensures kept == KeepLive(grids, mats)
  {
    var removeIdx := CollectDead(grids, mats);
    kept := RemoveDescending(grids, mats, removeIdx);
  }

  /** The filling pass: for each material with users, in order, append a new
      main entry with the default payload unless the list already has an
      entry for it (entries appended earlier in the pass included). */
  function Fill<G>(es: seq<Entry<G>>, mats: seq<Material>, default: G): (r: seq<Entry<G>>)
    ensures |es| <= |r| && r[..|es|] == es
    ensures forall j :: 0 <= j < |mats| && mats[j].users > 0 ==> HasEntry(r, mats[j].name)
    ensures forall k :: |es| <= k < |r| ==>
      && r[k].isMain
      && r[k].grid == default
      && !HasEntry(es, r[k].matId)
      && exists j :: 0 <= j < |mats| && mats[j].users > 0 && mats[j].name == r[k].matId
    decreases |mats|
  {
    if |mats| == 0 then es
    else
      var mat := mats[0];
      var es' := if mat.users == 0 || HasEntry(es, mat.name) then es
                 else es + [Entry(mat.name, default, true)];
      var r := Fill(es', mats[1..], default);
      assert r == es' + r[|es'|..];
      HasEntryConcat(es', r[|es'|..], mat.name);
      assert mat.users > 0 ==> HasEntry(es', mat.name) by {
        HasEntryConcat(es, [Entry(mat.name, default, true)], mat.name);
        assert [Entry(mat.name, default, true)][0].matId == mat.name;
      }
      assert forall k :: 0 <= k < |es'| ==> r[k] == es'[k];
      assert forall j :: 1 <= j < |mats| ==> mats[j] == mats[1..][j - 1];
      r
  }

  /** Filling keeps one main entry per material: it only adds a main entry
      for a material that has no entry yet. */
  lemma {:induction false} FillPreservesOneMain<G>(es: seq<Entry<G>>, mats: seq<Material>, default: G)
    requires OneMainPerMaterial(es)
    ensures OneMainPerMaterial(Fill(es, mats, default))
    decreases |mats|
  {
    if |mats| > 0 {
      var mat := mats[0];
      if mat.users > 0 && !HasEntry(es, mat.name) {
        var es' := es + [Entry(mat.name, default, true)];
        forall m | HasEntry(es', m)
          ensures MainCount(es', m) == 1
        {
          MainCountConcat(es, [Entry(mat.name, default, true)], m);
          if m != mat.name {
            var k :| 0 <= k < |es'| && es'[k].matId == m;
            assert es[k] == es'[k];
          } else {
            MainCountPositive(es, m);
          }
        }
        FillPreservesOneMain(es', mats[1..], default);
      } else {
        FillPreservesOneMain(es, mats[1..], default);
      }
    }
  }

  /** The entries filling appends to `kept`: one main entry per material with
      users that `kept` has no entry for, in material order. */
  function NewEntries<G>(kept: seq<Entry<G>>, mats: seq<Material>, default: G): seq<Entry<G>> {
    if |mats| == 0 then []
    else
      var mat := mats[0];
      (if mat.users > 0 && !HasEntry(kept, mat.name) then [Entry(mat.name, default, true)] else [])
      + NewEntries(kept, mats[1..], default)
  }

  /** No entry of `extra` is named by a material of `mats`. */
  ghost predicate Unnamed<G>(extra: seq<Entry<G>>, mats: seq<Material>) {
    forall k, j :: 0 <= k < |extra| && 0 <= j < |mats| ==> extra[k].matId != mats[j].name
  }

  lemma UnnamedStep<G>(extra: seq<Entry<G>>, mats: seq<Material>, default: G)
    requires UniqueNames(mats) && |mats| > 0 && Unnamed(extra, mats)
    ensures !HasEntry(extra, mats[0].name)
    ensures Unnamed(extra, mats[1..])
    ensures Unnamed(extra + [Entry(mats[0].name, default, true)], mats[1..])
  {
    var extra' := extra + [Entry(mats[0].name, default, true)];
    forall k, j | 0 <= k < |extra'| && 0 <= j < |mats[1..]|
      ensures extra'[k].matId != mats[1..][j].name
    {
      assert mats[1..][j] == mats[j + 1];
    }
  }

  /** What one round of filling appends for the material `mat`. */
  function FillStep<G>(es: seq<Entry<G>>, mat: Material, default: G): seq<Entry<G>> {
    if mat.users == 0 || HasEntry(es, mat.name) then [] else [Entry(mat.name, default, true)]
  }

  lemma FillUnfold<G>(es: seq<Entry<G>>, mats: seq<Material>, default: G)
    requires |mats| > 0
    ensures Fill(es, mats, default) == Fill(es + FillStep(es, mats[0], default), mats[1..], default)
  {
    assert es + [] == es;
  }

  /** While `extra` names no material, the first round of filling appends
      what it would append to `kept` alone. */
  lemma FillHead<G>(kept: seq<Entry<G>>, extra: seq<Entry<G>>, mats: seq<Material>, default: G)
    requires UniqueNames(mats) && |mats| > 0 && Unnamed(extra, mats)
    ensures Fill(kept + extra, mats, default)
         == Fill(kept + (extra + FillStep(kept, mats[0], default)), mats[1..], default)
    ensures Unnamed(extra + FillStep(kept, mats[0], default), mats[1..])
  {
    UnnamedStep(extra, mats, default);
    HasEntryConcat(kept, extra, mats[0].name);
    var added := FillStep(kept, mats[0], default);
    assert added == FillStep(kept + extra, mats[0], default);
    FillUnfold(kept + extra, mats, default);
    assert kept + extra + added == kept + (extra + added);
    assert extra + [] == extra;
  }

  lemma Regroup<T>(a: seq<T>, b: seq<T>, c: seq<T>, d: seq<T>)
    ensures a + (b + c) + d == a + b + (c + d)
  {
  }

  /** With unique material names, the appended entries never shadow a later
      material, so filling appends exactly `NewEntries`. */
  lemma {:induction false} FillAppendsNewEntries<G>(
    kept: seq<Entry<G>>, extra: seq<Entry<G>>, mats: seq<Material>, default: G)
    requires UniqueNames(mats) && Unnamed(extra, mats)
    ensures Fill(kept + extra, mats, default) == kept + extra + NewEntries(kept, mats, default)
    decreases |mats|
  {
    if |mats| > 0 {
      var added := FillStep(kept, mats[0], default);
      FillHead(kept, extra, mats, default);
      FillAppendsNewEntries(kept, extra + added, mats[1..], default);
      assert NewEntries(kept, mats, default) == added + NewEntries(kept, mats[1..], default);
      Regroup(kept, extra, added, NewEntries(kept, mats[1..], default));
    }
  }

  /** Prune, fill, then pull the selection back to the last entry if the
      selection read before pruning is past the end of the new list. */
  function Validate<G>(r: Registry<G>, mats: seq<Material>, default: G): (v: Registry<G>)
    ensures var kept := KeepLive(r.entries, mats);
      && |kept| <= |v.entries|
      && v.entries[..|kept|] == kept
      && (forall k :: |kept| <= k < |v.entries| ==> v.entries[k].isMain && v.entries[k].grid == default)
      && (forall j :: 0 <= j < |mats| && mats[j].users > 0 ==> HasEntry(v.entries, mats[j].name))
      && (r.sel >= |v.entries| ==> v.sel == |v.entries| - 1)
      && (r.sel < |v.entries| ==> v.sel == r.sel)
  {
    var es := Fill(KeepLive(r.entries, mats), mats, default);
    Registry(es, if r.sel >= |es| then |es| - 1 else r.sel)
  }

  /** With unique material names, every entry left by validation belongs to
      a material with users. */
  lemma ValidateEntriesAreLive<G>(r: Registry<G>, mats: seq<Material>, default: G)
    requires UniqueNames(mats)
    ensures forall k :: 0 <= k < |Validate(r, mats, default).entries| ==>
      IsLive(mats, Validate(r, mats, default).entries[k].matId)
  {
    var kept := KeepLive(r.entries, mats);
    var es := Validate(r, mats, default).entries;
    forall k | 0 <= k < |es|
      ensures IsLive(mats, es[k].matId)
    {
      if k < |kept| {
        assert es[k] == es[..|kept|][k];
      } else {
        var j :| 0 <= j < |mats| && mats[j].users > 0 && mats[j].name == es[k].matId;
        FindUnique(mats, j);
      }
    }
  }

  /** With unique material names, validation appends exactly one main entry
      per uncovered material with users, in material order. */
  lemma ValidateAppendsNewEntries<G>(r: Registry<G>, mats: seq<Material>, default: G)
    requires UniqueNames(mats)
    ensures var kept := KeepLive(r.entries, mats);
      Validate(r, mats, default).entries == kept + NewEntries(kept, mats, default)
  {
    var kept := KeepLive(r.entries, mats);
    FillAppendsNewEntries(kept, [], mats, default);
    assert kept + [] == kept;
  }

  /** Validating twice with the same materials changes nothing more. */
  lemma ValidateIdempotent<G>(r: Registry<G>, mats: seq<Material>, default: G)
    requires UniqueNames(mats)
    ensures Validate(Validate(r, mats, default), mats, default) == Validate(r, mats, default)
  {
    var v := Validate(r, mats, default);
    ValidateEntriesAreLive(r, mats, default);
    KeepLiveAllLive(v.entries, mats);
    ValidateAppendsNewEntries(v, mats, default);
    assert NewEntries(v.entries, mats, default) == [] by {
      NewEntriesCovered(v.entries, mats, default);
    }
    assert v.entries + [] == v.entries;
  }

  lemma {:induction false} NewEntriesCovered<G>(kept: seq<Entry<G>>, mats: seq<Material>, default: G)
    requires forall j :: 0 <= j < |mats| && mats[j].users > 0 ==> HasEntry(kept, mats[j].name)
    ensures NewEntries(kept, mats, default) == []
    decreases |mats|
  {
    if |mats| > 0 {
      assert forall j :: 1 <= j < |mats| ==> mats[j] == mats[1..][j - 1];
      NewEntriesCovered(kept, mats[1..], default);
    }
  }

  /** Validation keeps one main entry per material and leaves the selection
      a valid index or -1. */
  lemma ValidatePreservesWellFormed<G>(r: Registry<G>, mats: seq<Material>, default: G)
    requires WellFormed(r)
    ensures WellFormed(Validate(r, mats, default))
  {
    var kept := KeepLive(r.entries, mats);
    forall m | HasEntry(kept, m)
      ensures MainCount(kept, m) == 1
    {
      KeepLiveHasEntry(r.entries, mats, m);
      KeepLiveMainCount(r.entries, mats, m);
    }
    FillPreservesOneMain(kept, mats, default);
  }

  /** Validation does not repair a material whose entries have no main: it
      only prunes and fills. */
  lemma ValidateKeepsMainlessMaterial(g: int)
    ensures
      var es := [Entry("A", g, false)];
      Validate(Registry(es, 0), [Material("A", 1)], g) == Registry(es, 0)
  {
    var es := [Entry("A", g, false)];
    var mats := [Material("A", 1)];
    assert IsLive(mats, "A");
    assert KeepLive(es, mats) == es;
    assert HasEntry(es, "A");
  }

  /** An empty list is filled with one main entry per material with users. */
  lemma ValidateFillsEmptyList(g: int)
    ensures Validate(Registry([], 0), [Material("A", 1), Material("B", 0)], g)
         == Registry([Entry("A", g, true)], 0)
  {
    var mats := [Material("A", 1), Material("B", 0)];
    assert UniqueNames(mats);
    ValidateAppendsNewEntries(Registry([], 0), mats, g);
    assert NewEntries([], mats[1..], g) == [];
  }
}
