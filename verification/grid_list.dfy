/**
 The grid registry's data model: the scene's ordered list of grid settings,
 each bound to a material by name, and the object's selected grid index.
 The grid payload (tile size, offsets, ...) is opaque to the registry and is
 a type parameter `G` that is only ever copied.
 */
module GridList {

  /** One grid setting: the material it belongs to, its payload, and whether
      it is that material's main grid. */
  datatype Entry<G> = Entry(matId: string, grid: G, isMain: bool)

  /** The scene's grid list together with the object's selected index.
      The index is a plain integer: operations can leave it at -1. */
  datatype Registry<G> = Registry(entries: seq<Entry<G>>, sel: int)

  /** What an operator leaves behind: either it finished with a registry, or
      reading `entries[index]` raised an index error before anything changed. */
  datatype Outcome<G> = Finished(reg: Registry<G>) | IndexError(index: int)

  predicate ValidIndex<G>(es: seq<Entry<G>>, i: int) {
    0 <= i < |es|
  }

  /** Subscript `i` reads an entry of the host collection, which, like a
      Python list, counts a negative subscript from the end. */
  predicate Readable<G>(es: seq<Entry<G>>, i: int) {
    -|es| <= i < |es|
  }

  /** The position of the entry that subscript `i` reads. */
  function Position<G>(es: seq<Entry<G>>, i: int): (p: nat)
    requires Readable(es, i)
    ensures ValidIndex(es, p)
    ensures p == i || p == i + |es|
  {
    if i < 0 then i + |es| else i
  }

  /** Some entry is bound to material `m`. */
  predicate HasEntry<G>(es: seq<Entry<G>>, m: string) {
    exists i | 0 <= i < |es| :: es[i].matId == m
  }

  lemma HasEntryConcat<G>(a: seq<Entry<G>>, b: seq<Entry<G>>, m: string)
    ensures HasEntry(a + b, m) <==> HasEntry(a, m) || HasEntry(b, m)
  {
    if HasEntry(a + b, m) {
      var k :| 0 <= k < |a + b| && (a + b)[k].matId == m;
      if k >= |a| {
        assert b[k - |a|] == (a + b)[k];
      }
    }
    if HasEntry(a, m) {
      var k :| 0 <= k < |a| && a[k].matId == m;
      assert (a + b)[k] == a[k];
    }
    if HasEntry(b, m) {
      var k :| 0 <= k < |b| && b[k].matId == m;
      assert (a + b)[k + |a|] == b[k];
    }
  }

  /** Lowest index `j >= i` whose entry is bound to `m`, or `|es|` when there
      is none. */
  function FirstFrom<G>(es: seq<Entry<G>>, m: string, i: nat): (j: nat)
    requires i <= |es|
    ensures i <= j <= |es|
    ensures j < |es| ==> es[j].matId == m
    ensures forall k :: i <= k < j ==> es[k].matId != m
    decreases |es| - i
  {
    if i == |es| then |es|
    else if es[i].matId == m then i
    else FirstFrom(es, m, i + 1)
  }

  /** `FirstFrom` finds an entry exactly when one exists at or after `i`. */
  lemma FirstFromFinds<G>(es: seq<Entry<G>>, m: string, i: nat, k: nat)
    requires i <= k < |es| && es[k].matId == m
    ensures FirstFrom(es, m, i) <= k
  {
  }

  /** Entry with the main flag raised. */
  function AsMain<G>(e: Entry<G>): Entry<G> {
    e.(isMain := true)
  }

  /** The list with entry `i` taken out (the host collection's `remove`). */
  function Erase<T>(xs: seq<T>, i: nat): (ys: seq<T>)
    requires i < |xs|
    ensures |ys| == |xs| - 1
    ensures forall j :: 0 <= j < i ==> ys[j] == xs[j]
    ensures forall j :: i <= j < |ys| ==> ys[j] == xs[j + 1]
  {
    xs[..i] + xs[i + 1..]
  }

  /** Number of main entries bound to material `m`. */
  function MainCount<G>(es: seq<Entry<G>>, m: string): nat {
    if |es| == 0 then 0
    else (if es[0].matId == m && es[0].isMain then 1 else 0) + MainCount(es[1..], m)
  }

  lemma {:induction false} MainCountConcat<G>(a: seq<Entry<G>>, b: seq<Entry<G>>, m: string)
    ensures MainCount(a + b, m) == MainCount(a, m) + MainCount(b, m)
    decreases |a|
  {
    if |a| > 0 {
      assert (a + b)[1..] == a[1..] + b;
      MainCountConcat(a[1..], b, m);
    } else {
      assert a + b == b;
    }
  }

  /** A positive main count means a main entry for `m` is present, and back. */
  lemma {:induction false} MainCountPositive<G>(es: seq<Entry<G>>, m: string)
    ensures MainCount(es, m) > 0 <==> exists k :: 0 <= k < |es| && es[k].matId == m && es[k].isMain
    decreases |es|
  {
    if |es| > 0 {
      MainCountPositive(es[1..], m);
      if MainCount(es[1..], m) > 0 {
        var k :| 0 <= k < |es[1..]| && es[1..][k].matId == m && es[1..][k].isMain;
        assert es[k + 1] == es[1..][k];
      }
      if exists k :: 0 <= k < |es| && es[k].matId == m && es[k].isMain {
        var k :| 0 <= k < |es| && es[k].matId == m && es[k].isMain;
        if k > 0 {
          assert es[1..][k - 1] == es[k];
        }
      }
    }
  }

  /** Main count after taking entry `i` out. */
  lemma MainCountErase<G>(es: seq<Entry<G>>, i: nat, m: string)
    requires i < |es|
    ensures MainCount(es, m)
         == MainCount(Erase(es, i), m) + (if es[i].matId == m && es[i].isMain then 1 else 0)
  {
    assert es == es[..i] + [es[i]] + es[i + 1..];
    MainCountConcat(es[..i] + [es[i]], es[i + 1..], m);
    MainCountConcat(es[..i], [es[i]], m);
    MainCountConcat(es[..i], es[i + 1..], m);
  }

  /** Main count after replacing entry `i` by `x`. */
  lemma MainCountUpdate<G>(es: seq<Entry<G>>, i: nat, x: Entry<G>, m: string)
    requires i < |es|
    ensures MainCount(es[i := x], m) + (if es[i].matId == m && es[i].isMain then 1 else 0)
         == MainCount(es, m) + (if x.matId == m && x.isMain then 1 else 0)
  {
    MainCountErase(es, i, m);
    MainCountErase(es[i := x], i, m);
    assert Erase(es[i := x], i) == Erase(es, i);
  }

  /** Every material that has entries has exactly one main entry. */
  ghost predicate OneMainPerMaterial<G>(es: seq<Entry<G>>) {
    forall m :: HasEntry(es, m) ==> MainCount(es, m) == 1
  }

  /** The selection is a valid index, or the -1 sentinel, and it can only be
      out of range while the list is empty. */
  predicate SelectionInRange<G>(r: Registry<G>) {
    -1 <= r.sel && (|r.entries| > 0 ==> r.sel < |r.entries|)
  }

  /** The registry invariant every operator keeps. */
  ghost predicate WellFormed<G>(r: Registry<G>) {
    OneMainPerMaterial(r.entries) && SelectionInRange(r)
  }
}
