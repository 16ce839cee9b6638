/** The catalogue merge of i18n/merge.ts: an overlay over a base, dictionary by dictionary. */
module Merge {
  import opened Wrappers

  datatype Value = Null | Scalar(text: string) | Array(items: seq<Value>) | Dict(entries: map<string, Value>)

  type Catalogue = v: Value | v.Dict? witness Dict(map[])

  /** Two dictionaries under the same key combine; anything else in the overlay replaces. */
  function Combined(prev: Option<Value>, v: Value): Value
    decreases v, 1
  {
    if v.Dict? && prev.Some? && prev.value.Dict? then Merged(prev.value, v) else v
  }

  function Entry(a: Value, k: string): Option<Value> {
    if a.Dict? && k in a.entries then Some(a.entries[k]) else None
  }

  function Merged(a: Catalogue, b: Catalogue): (r: Catalogue)
    ensures r.entries.Keys == a.entries.Keys + b.entries.Keys
    decreases b, 0
  {
    Dict(map k | k in a.entries.Keys + b.entries.Keys ::
           if k in b.entries then Combined(Entry(a, k), b.entries[k]) else a.entries[k])
  }

  method MergeDict(a: Catalogue, b: Catalogue) returns (out: Catalogue)
    ensures out == Merged(a, b)
    decreases b
  {
    var entries, left := a.entries, b.entries.Keys;
    while left != {}
      invariant left <= b.entries.Keys
      invariant entries.Keys == a.entries.Keys + (b.entries.Keys - left)
      invariant forall k :: k in entries ==>
        entries[k] == if k in b.entries && k !in left then Combined(Entry(a, k), b.entries[k]) else a.entries[k]
      decreases left
    {
      var k :| k in left;
      var v := b.entries[k];
      if v.Dict? && k in entries && entries[k].Dict? {
        var merged := MergeDict(entries[k], v);
        entries := entries[k := merged];
      } else {
        entries := entries[k := v];
      }
      left := left - {k};
    }
    out := Dict(entries);
    assert out.entries == Merged(a, b).entries;
  }

  // ---------------------------------------------------------------- lookup

  function At(v: Value, path: seq<string>): Option<Value>
    decreases |path|
  {
    if path == [] then Some(v)
    else if v.Dict? && path[0] in v.entries then At(v.entries[path[0]], path[1..])
    else None
  }

  /** The catalogue has something other than a dictionary at the path or on the way to it. */
  predicate LeafOnPath(v: Value, path: seq<string>)
    decreases |path|
  {
    !v.Dict? || (path != [] && path[0] in v.entries && LeafOnPath(v.entries[path[0]], path[1..]))
  }

  /** Every path of the merge, exactly: a leaf of the overlay wins, with nothing under it; a path the overlay
      lacks keeps the base; two dictionaries merge. */
  lemma {:induction false} PathLaw(a: Catalogue, b: Catalogue, path: seq<string>)
    ensures At(Merged(a, b), path) ==
            if LeafOnPath(b, path) then At(b, path)
            else if At(b, path).None? then At(a, path)
            else Some(Combined(At(a, path), At(b, path).value))
    decreases |path|
  {
    if path != [] && path[0] in a.entries && path[0] in b.entries && a.entries[path[0]].Dict?
        && b.entries[path[0]].Dict? {
      PathLaw(a.entries[path[0]], b.entries[path[0]], path[1..]);
    } else if path != [] && path[0] in b.entries && b.entries[path[0]].Dict? {
      NoDictLeft(b.entries[path[0]], path[1..]);
      NothingUnderLeaf(if path[0] in a.entries then a.entries[path[0]] else Null, path[1..]);
    }
  }

  lemma NothingUnderLeaf(v: Value, path: seq<string>)
    ensures !v.Dict? && path != [] ==> At(v, path).None?
  {
  }

  /** Off its leaves a catalogue has a dictionary or nothing. */
  lemma {:induction false} NoDictLeft(v: Value, path: seq<string>)
    ensures !LeafOnPath(v, path) && At(v, path).Some? ==> At(v, path).value.Dict?
    decreases |path|
  {
    if path != [] && v.Dict? && path[0] in v.entries { NoDictLeft(v.entries[path[0]], path[1..]); }
  }

  /** The fallback of the translated catalogues: a text of the base is never lost, unless the overlay puts a leaf on
      its path. */
  lemma FallbackNeverLosesKeys(a: Catalogue, b: Catalogue, path: seq<string>)
    requires At(a, path).Some? && !LeafOnPath(b, path)
    ensures At(Merged(a, b), path).Some?
    ensures !At(a, path).value.Dict? && At(b, path).None? ==> At(Merged(a, b), path) == At(a, path)
  {
    PathLaw(a, b, path);
  }

  // ---------------------------------------------------------------- algebra

  /** One key of a merge. */
  function Over(x: Option<Value>, y: Option<Value>): Option<Value> {
    if y.None? then x else Some(Combined(x, y.value))
  }

  lemma EntryOfMerged(a: Catalogue, b: Catalogue, k: string)
    ensures Entry(Merged(a, b), k) == Over(Entry(a, k), Entry(b, k))
  {
  }

  /** Every key of x, at every level, is overridden in y. */
  predicate Absorbed(x: Catalogue, y: Catalogue)
    decreases y
  {
    forall k :: k in x.entries ==>
      k in y.entries && (x.entries[k].Dict? && y.entries[k].Dict? ==> Absorbed(x.entries[k], y.entries[k]))
  }

  lemma {:induction false} AbsorbedExactly(x: Catalogue, y: Catalogue)
    ensures Merged(x, y) == y <==> Absorbed(x, y)
    decreases y
  {
    var m := Merged(x, y);
    forall k | k in x.entries && k in y.entries && x.entries[k].Dict? && y.entries[k].Dict?
      ensures m.entries[k] == y.entries[k] <==> Absorbed(x.entries[k], y.entries[k])
    {
      AbsorbedExactly(x.entries[k], y.entries[k]);
      EntryOfMerged(x, y, k);
    }
    forall k | k in m.entries ensures m.entries[k] == (Over(Entry(x, k), Entry(y, k))).value { EntryOfMerged(x, y, k); }
    if Absorbed(x, y) { assert m.entries == y.entries; }
    if m == y {
      forall k | k in x.entries ensures k in y.entries { assert k in m.entries; }
    }
  }

  lemma {:induction false} AbsorbedSelf(x: Catalogue)
    ensures Absorbed(x, x)
    decreases x
  {
    forall k | k in x.entries && x.entries[k].Dict? ensures Absorbed(x.entries[k], x.entries[k]) {
      AbsorbedSelf(x.entries[k]);
    }
  }

  lemma MergeIdempotent(a: Catalogue)
    ensures Merged(a, a) == a
  {
    AbsorbedSelf(a);
    AbsorbedExactly(a, a);
  }

  /** Where all three have dictionaries, recursively; where only the middle one does not, c must override all of a. */
  predicate Associates(a: Catalogue, b: Catalogue, c: Catalogue)
    decreases c
  {
    forall k :: k in a.entries && k in b.entries && k in c.entries && a.entries[k].Dict? && c.entries[k].Dict? ==>
      if b.entries[k].Dict? then Associates(a.entries[k], b.entries[k], c.entries[k])
      else Absorbed(a.entries[k], c.entries[k])
  }

  predicate AssociatesAt(x: Option<Value>, y: Option<Value>, z: Option<Value>) {
    x.Some? && y.Some? && z.Some? && x.value.Dict? && z.value.Dict? ==>
      if y.value.Dict? then Associates(x.value, y.value, z.value) else Absorbed(x.value, z.value)
  }

  lemma {:induction false} OverAssociates(x: Option<Value>, y: Option<Value>, z: Value)
    ensures Over(Over(x, y), Some(z)) == Over(x, Over(y, Some(z))) <==> AssociatesAt(x, y, Some(z))
    decreases z, 1
  {
    if x.Some? && y.Some? && x.value.Dict? && z.Dict? {
      if y.value.Dict? {
        MergeAssociativeExactly(x.value, y.value, z);
      } else {
        AbsorbedExactly(x.value, z);
      }
    }
  }

  lemma {:induction false} MergeAssociativeExactly(a: Catalogue, b: Catalogue, c: Catalogue)
    ensures Merged(Merged(a, b), c) == Merged(a, Merged(b, c)) <==> Associates(a, b, c)
    decreases c, 0
  {
    forall k ensures SameAt(Merged(Merged(a, b), c), Merged(a, Merged(b, c)), k) <==>
        AssociatesAt(Entry(a, k), Entry(b, k), Entry(c, k)) {
      MergedTwiceAt(a, b, c, k);
      if k in c.entries { OverAssociates(Entry(a, k), Entry(b, k), c.entries[k]); }
    }
    EqualByKeys(Merged(Merged(a, b), c), Merged(a, Merged(b, c)));
    AssociatesByKeys(a, b, c);
  }

  predicate SameAt(l: Catalogue, r: Catalogue, k: string) {
    Entry(l, k) == Entry(r, k)
  }

  lemma EqualByKeys(l: Catalogue, r: Catalogue)
    ensures l == r <==> forall k :: SameAt(l, r, k)
  {
    if forall k :: SameAt(l, r, k) {
      forall k ensures k in l.entries <==> k in r.entries { assert SameAt(l, r, k); }
      forall k | k in l.entries ensures l.entries[k] == r.entries[k] { assert SameAt(l, r, k); }
      assert l.entries == r.entries;
    }
  }

  lemma AssociatesByKeys(a: Catalogue, b: Catalogue, c: Catalogue)
    ensures Associates(a, b, c) <==> forall k :: AssociatesAt(Entry(a, k), Entry(b, k), Entry(c, k))
  {
    if forall k :: AssociatesAt(Entry(a, k), Entry(b, k), Entry(c, k)) {
      forall k | k in a.entries && k in b.entries && k in c.entries && a.entries[k].Dict? && c.entries[k].Dict?
        ensures if b.entries[k].Dict? then Associates(a.entries[k], b.entries[k], c.entries[k])
            else Absorbed(a.entries[k], c.entries[k])
      {
        assert AssociatesAt(Entry(a, k), Entry(b, k), Entry(c, k));
      }
    }
  }

  lemma MergedTwiceAt(a: Catalogue, b: Catalogue, c: Catalogue, k: string)
    ensures Entry(Merged(Merged(a, b), c), k) == Over(Over(Entry(a, k), Entry(b, k)), Entry(c, k))
    ensures Entry(Merged(a, Merged(b, c)), k) == Over(Entry(a, k), Over(Entry(b, k), Entry(c, k)))
  {
    EntryOfMerged(a, b, k);
    EntryOfMerged(b, c, k);
    EntryOfMerged(Merged(a, b), c, k);
    EntryOfMerged(a, Merged(b, c), k);
  }

  /** An overlay applied twice is an overlay applied once. */
  lemma OverlayTwice(a: Catalogue, b: Catalogue)
    ensures Merged(Merged(a, b), b) == Merged(a, b)
  {
    OverlayAssociates(a, b);
    MergeAssociativeExactly(a, b, b);
    MergeIdempotent(b);
  }

  lemma {:induction false} OverlayAssociates(a: Catalogue, b: Catalogue)
    ensures Associates(a, b, b)
    decreases b
  {
    forall k | k in a.entries && k in b.entries && a.entries[k].Dict? && b.entries[k].Dict?
      ensures Associates(a.entries[k], b.entries[k], b.entries[k])
    {
      OverlayAssociates(a.entries[k], b.entries[k]);
    }
  }

  /** A leaf between two dictionaries: merged from the left it wipes out the first, merged from the right it is gone. */
  lemma LeafBetweenDictionaries()
    ensures var a, b, c := Dict(map["k" := Dict(map["x" := Scalar("1")])]), Dict(map["k" := Scalar("2")]),
        Dict(map["k" := Dict(map[])]);
            && At(Merged(Merged(a, b), c), ["k", "x"]) == None
            && At(Merged(a, Merged(b, c)), ["k", "x"]) == Some(Scalar("1"))
  {
    var x: Catalogue := Dict(map["x" := Scalar("1")]);
    var e: Catalogue := Dict(map[]);
    var a, b, c := Dict(map["k" := x]), Dict(map["k" := Scalar("2")]), Dict(map["k" := e]);
    assert ["k", "x"][1..] == ["x"] && ["x"][1..] == [];
    assert Merged(a, b).entries["k"] == Scalar("2") && Merged(Merged(a, b), c).entries["k"] == e;
    assert Merged(b, c).entries["k"] == e && Merged(a, Merged(b, c)).entries["k"] == Merged(x, e);
    assert Merged(x, e).entries["x"] == Scalar("1");
    assert At(Merged(x, e), ["x"]) == Some(Scalar("1"));
  }
}
