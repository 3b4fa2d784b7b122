/**
 The "Add New Grid" operator: duplicate the selected grid setting and place
 the copy directly after it.
 */
module GridAdd {
  import opened GridList

  /** The host collection's `move(from, to)`: take the element at `from` out
      and reinsert it so that it ends up at position `to`. */
  function Move<T>(xs: seq<T>, from: nat, to: nat): (ys: seq<T>)
    requires from < |xs| && to < |xs|
    ensures |ys| == |xs|
    ensures ys[to] == xs[from]
    ensures Erase(ys, to) == Erase(xs, from)
  {
    var rest := Erase(xs, from);
    rest[..to] + [xs[from]] + rest[to..]
  }

  /** Append a non-main copy of the selected entry, then move it to the slot
      right after the selection. An empty list is left alone. A selection
      of -1 reads the last entry and puts the copy at the front; a
      selection outside -1..n-1 raises before anything is appended. */
  function Add<G>(r: Registry<G>): (o: Outcome<G>)
    ensures |r.entries| == 0 ==> o == Finished(r)
    ensures |r.entries| > 0 && !(-1 <= r.sel < |r.entries|) ==> o == IndexError(r.sel)
    ensures |r.entries| > 0 && -1 <= r.sel < |r.entries| ==>
      var es, t := r.entries, r.sel + 1;
      var src := es[Position(es, r.sel)];
      && o.Finished?
      && o.reg.sel == r.sel
      && |o.reg.entries| == |es| + 1
      && o.reg.entries[..t] == es[..t]
      && o.reg.entries[t] == Entry(src.matId, src.grid, false)
      && o.reg.entries[t + 1..] == es[t..]
  {
    var es := r.entries;
    if |es| < 1 then Finished(r)
    else if !(-1 <= r.sel < |es|) then IndexError(r.sel)
    else
      var selected := es[Position(es, r.sel)];
      var appended := es + [Entry(selected.matId, selected.grid, false)];
      assert Erase(appended, |es|) == es;
      Finished(Registry(Move(appended, |es|, r.sel + 1), r.sel))
  }

  /** The copy is not main, so every material keeps exactly one main entry,
      and the selection stays where it was. */
  lemma AddPreservesWellFormed<G>(r: Registry<G>)
    requires WellFormed(r)
    ensures Add(r).Finished? ==> WellFormed(Add(r).reg)
  {
    var es := r.entries;
    if |es| > 0 && -1 <= r.sel < |es| {
      var t := r.sel + 1;
      var src := es[Position(es, r.sel)];
      var es' := Add(r).reg.entries;
      var copy := Entry(src.matId, src.grid, false);
      assert es == es[..t] + es[t..];
      assert es' == es[..t] + [copy] + es[t..] by {
        assert es' == es'[..t] + [es'[t]] + es'[t + 1..];
      }
      forall m | HasEntry(es', m)
        ensures MainCount(es', m) == 1
      {
        MainCountConcat(es[..t] + [copy], es[t..], m);
        MainCountConcat(es[..t], [copy], m);
        MainCountConcat(es[..t], es[t..], m);
        var k :| 0 <= k < |es'| && es'[k].matId == m;
        if k < t {
          assert es[k] == es'[k];
        } else if k == t {
          assert src.matId == m;
        } else {
          assert es[k - 1] == es'[k];
        }
      }
    }
  }
}
