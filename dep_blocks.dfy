/**
 * `mergeDepBlock`: fold the extra block into a copy of the base block,
 * resolving shared names with `pickVersion`, then emit the entries sorted by name.
 */
module DepBlocks {

  import opened Wrappers
  import opened Values
  import opened KeyOrder
  import opened VersionPicker

  /** One `[name, spec]` pair of `Object.entries`. */
  type Entry = (string, Value)

  predicate DistinctKeys(s: seq<Entry>)
  {
    forall i, j :: 0 <= i < j < |s| ==> s[i].0 != s[j].0
  }

  /** A dependency block: a JSON object, as its entries in enumeration order. */
  type Block = s: seq<Entry> | DistinctKeys(s) witness []

  /** The names a sequence of entries holds. */
  function KeysOf(s: seq<Entry>): set<string>
  {
    set i | 0 <= i < |s| :: s[i].0
  }

  /** `{ ...obj }`: the dictionary the entries describe (a later entry would overwrite an earlier one). */
  function ToMap(s: seq<Entry>): (m: map<string, Value>)
    ensures m.Keys == KeysOf(s)
    ensures DistinctKeys(s) ==> forall i :: 0 <= i < |s| ==> m[s[i].0] == s[i].1
  {
    if s == [] then map[]
    else
      var init := s[..|s| - 1];
      assert forall i :: 0 <= i < |init| ==> init[i] == s[i];
      assert KeysOf(s) == KeysOf(init) + {s[|s| - 1].0};
      ToMap(init)[s[|s| - 1].0 := s[|s| - 1].1]
  }

  /** `out[name]`, `undefined` when the name is absent. */
  function Lookup(m: map<string, Value>, k: string): (r: Option<Value>)
    ensures r.Some? <==> k in m
    ensures r.Some? ==> r.value == m[k]
  {
    if k in m then Some(m[k]) else None
  }

  /** `verA ? pickVersion(verA, verB) : verB`: a missing or falsy base value is replaced outright. */
  function Resolve(verA: Option<Value>, verB: Value): (r: Value)
    ensures !TruthyOpt(verA) ==> r == verB
    ensures TruthyOpt(verA) ==> r == verA.value || r == verB
  {
    if TruthyOpt(verA) then PickVersion(verA.value, verB) else verB
  }

  /** One iteration of the loop over the extra block's entries. */
  function Step(out: map<string, Value>, e: Entry): (r: map<string, Value>)
    ensures r.Keys == out.Keys + {e.0}
    ensures forall k :: k in out && k != e.0 ==> r[k] == out[k]
    ensures r[e.0] == Resolve(Lookup(out, e.0), e.1)
  {
    out[e.0 := Resolve(Lookup(out, e.0), e.1)]
  }

  /** The loop over `extra`'s entries, run from the dictionary `out`. */
  function Fold(out: map<string, Value>, extra: seq<Entry>): (r: map<string, Value>)
    ensures r.Keys == out.Keys + KeysOf(extra)
    ensures forall k :: k in out && k !in KeysOf(extra) ==> r[k] == out[k]
  {
    if extra == [] then out
    else
      KeysOfSnoc(extra);
      Step(Fold(out, extra[..|extra| - 1]), extra[|extra| - 1])
  }

  /** The names of a non-empty sequence: those of all but the last entry, and the last. */
  lemma KeysOfSnoc(s: seq<Entry>)
    requires s != []
    ensures KeysOf(s) == KeysOf(s[..|s| - 1]) + {s[|s| - 1].0}
  {
    var init := s[..|s| - 1];
    assert forall i :: 0 <= i < |init| ==> init[i] == s[i];
  }

  /**
   * Because the extra block's names are distinct, every step reads the base's
   * own value: the fold resolves each name against the base, in any order.
   */
  lemma {:induction false} FoldAt(base: map<string, Value>, extra: seq<Entry>)
    requires DistinctKeys(extra)
    ensures Fold(base, extra).Keys == base.Keys + KeysOf(extra)
    ensures forall k :: k in base && k !in KeysOf(extra) ==> Fold(base, extra)[k] == base[k]
    ensures forall i :: 0 <= i < |extra| ==>
              Fold(base, extra)[extra[i].0] == Resolve(Lookup(base, extra[i].0), extra[i].1)
  {
    if extra != [] {
      var init, last := extra[..|extra| - 1], extra[|extra| - 1];
      assert forall i :: 0 <= i < |init| ==> init[i] == extra[i];
      assert DistinctKeys(init);
      FoldAt(base, init);
      KeysOfSnoc(extra);
      var f := Fold(base, init);
      assert Fold(base, extra) == Step(f, last);
      StepAt(base, f, init, last);
      forall i | 0 <= i < |extra|
        ensures Fold(base, extra)[extra[i].0] == Resolve(Lookup(base, extra[i].0), extra[i].1)
      {
        if i < |init| {
          assert extra[i] == init[i];
        } else {
          assert extra[i] == last;
        }
      }
    }
  }

  /** One more step of the fold: a name not yet seen reads the base's own value. */
  lemma StepAt(base: map<string, Value>, f: map<string, Value>, init: seq<Entry>, last: Entry)
    requires f.Keys == base.Keys + KeysOf(init)
    requires forall k :: k in base && k !in KeysOf(init) ==> f[k] == base[k]
    requires forall i :: 0 <= i < |init| ==> f[init[i].0] == Resolve(Lookup(base, init[i].0), init[i].1)
    requires forall i :: 0 <= i < |init| ==> init[i].0 != last.0
    ensures forall i :: 0 <= i < |init| ==> Step(f, last)[init[i].0] == Resolve(Lookup(base, init[i].0), init[i].1)
    ensures Step(f, last)[last.0] == Resolve(Lookup(base, last.0), last.1)
  {
    assert last.0 !in KeysOf(init);
    assert Lookup(f, last.0) == Lookup(base, last.0);
  }

  /** Entries in strictly ascending name order. */
  predicate SortedByKey(s: seq<Entry>)
  {
    forall i, j :: 0 <= i < j < |s| ==> Less(s[i].0, s[j].0)
  }

  lemma SortedDistinct(s: seq<Entry>)
    requires SortedByKey(s)
    ensures DistinctKeys(s)
  {
    forall i, j | 0 <= i < j < |s| ensures s[i].0 != s[j].0 {
      LessIrreflexive(s[i].0);
    }
  }

  /** `Object.entries(out).sort(([a], [b]) => a.localeCompare(b))`. */
  function SortedEntries(m: map<string, Value>): (r: seq<Entry>)
    ensures SortedByKey(r) && DistinctKeys(r)
    ensures KeysOf(r) == m.Keys
    ensures forall i :: 0 <= i < |r| ==> r[i].0 in m && r[i].1 == m[r[i].0]
    decreases |m|
  {
    if m == map[] then []
    else
      var k := MinKey(m.Keys);
      var rest := m - {k};
      assert rest.Keys == m.Keys - {k};
      assert |rest| < |m| by {
        assert |rest.Keys| < |m.Keys|;
      }
      var tail := SortedEntries(rest);
      ConsEntry(m, k, tail);
      [(k, m[k])] + tail
  }

  /** Putting the least name in front of the sorted rest of a dictionary keeps it sorted and faithful. */
  lemma ConsEntry(m: map<string, Value>, k: string, tail: seq<Entry>)
    requires IsLeast(k, m.Keys)
    requires SortedByKey(tail) && KeysOf(tail) == m.Keys - {k}
    requires forall i :: 0 <= i < |tail| ==> tail[i].0 in m - {k} && tail[i].1 == (m - {k})[tail[i].0]
    ensures var r := [(k, m[k])] + tail;
      && SortedByKey(r) && DistinctKeys(r) && KeysOf(r) == m.Keys
      && forall i :: 0 <= i < |r| ==> r[i].0 in m && r[i].1 == m[r[i].0]
  {
    var r := [(k, m[k])] + tail;
    assert forall i :: 1 <= i < |r| ==> r[i] == tail[i - 1];
    forall i, j | 0 <= i < j < |r| ensures Less(r[i].0, r[j].0) {
      if i == 0 {
        assert r[j].0 in KeysOf(tail);
      }
    }
    SortedDistinct(r);
    assert KeysOf(r) == {k} + KeysOf(tail) by {
      assert r[0].0 == k;
      forall x | x in KeysOf(tail) ensures x in KeysOf(r) {
        var i :| 0 <= i < |tail| && tail[i].0 == x;
        assert r[i + 1].0 == x;
      }
    }
  }

  /** The merged block: every name of either block once, in ascending order. */
  function MergedBlock(base: Block, extra: Block): (r: Block)
    ensures SortedByKey(r)
    ensures KeysOf(r) == KeysOf(base) + KeysOf(extra)
  {
    FoldAt(ToMap(base), extra);
    SortedEntries(Fold(ToMap(base), extra))
  }

  /**
   * The spec each merged name gets: a name only the base has keeps its spec;
   * a name of the extra block whose base value is missing or falsy takes the
   * extra spec; any other shared name gets `pickVersion(base, extra)`.
   */
  lemma MergedBlockValues(base: Block, extra: Block)
    ensures var r, bm, em := MergedBlock(base, extra), ToMap(base), ToMap(extra);
      && (forall i :: 0 <= i < |r| && r[i].0 !in em ==> r[i].1 == bm[r[i].0])
      && (forall i :: 0 <= i < |r| && r[i].0 in em && !TruthyOpt(Lookup(bm, r[i].0)) ==> r[i].1 == em[r[i].0])
      && (forall i :: 0 <= i < |r| && r[i].0 in em && TruthyOpt(Lookup(bm, r[i].0)) ==>
            r[i].1 == PickVersion(bm[r[i].0], em[r[i].0]))
  {
    var bm, em := ToMap(base), ToMap(extra);
    var out := Fold(bm, extra);
    FoldAt(bm, extra);
    var r := SortedEntries(out);
    forall i | 0 <= i < |r| && r[i].0 in em
      ensures r[i].1 == Resolve(Lookup(bm, r[i].0), em[r[i].0])
    {
      var j :| 0 <= j < |extra| && extra[j].0 == r[i].0;
    }
  }

  /** No spec is made up: each merged spec is the base's or the extra's for that name. */
  lemma MergedFromInputs(base: Block, extra: Block)
    ensures var r, bm, em := MergedBlock(base, extra), ToMap(base), ToMap(extra);
      forall i :: 0 <= i < |r| ==>
        (r[i].0 in bm && r[i].1 == bm[r[i].0]) || (r[i].0 in em && r[i].1 == em[r[i].0])
  {
    var r, bm, em := MergedBlock(base, extra), ToMap(base), ToMap(extra);
    MergedBlockValues(base, extra);
    forall i | 0 <= i < |r|
      ensures (r[i].0 in bm && r[i].1 == bm[r[i].0]) || (r[i].0 in em && r[i].1 == em[r[i].0])
    {
      assert r[i].0 in KeysOf(r);
      if r[i].0 in em && TruthyOpt(Lookup(bm, r[i].0)) {
        assert r[i].1 == PickVersion(bm[r[i].0], em[r[i].0]);
      }
    }
  }

  /** `mergeDepBlock(base, extra)`: copy the base, fold in the extra entries, sort. */
  method MergeDepBlock(base: Block, extra: Block) returns (r: Block)
    ensures r == MergedBlock(base, extra)
  {
    var out := ToMap(base);
    for i := 0 to |extra|
      invariant out == Fold(ToMap(base), extra[..i])
    {
      var (name, verB) := extra[i];
      var verA := Lookup(out, name);
      ghost var prev := out;
      out := out[name := if TruthyOpt(verA) then PickVersion(verA.value, verB) else verB];
      assert out == Step(prev, extra[i]);
      assert extra[..i + 1][..i] == extra[..i];
    }
    assert extra[..|extra|] == extra;
    r := SortedEntries(out);
  }

  lemma KeysOfEmpty(s: seq<Entry>)
    ensures KeysOf(s) == {} <==> s == []
  {
    if s != [] {
      assert s[0].0 in KeysOf(s);
    }
  }

  /** Two sorted blocks with the same names and the same spec per name are the same sequence. */
  lemma {:induction false} SortedUnique(x: seq<Entry>, y: seq<Entry>)
    requires SortedByKey(x) && SortedByKey(y) && KeysOf(x) == KeysOf(y)
    requires forall i, j :: 0 <= i < |x| && 0 <= j < |y| && x[i].0 == y[j].0 ==> x[i].1 == y[j].1
    ensures x == y
  {
    KeysOfEmpty(x);
    KeysOfEmpty(y);
    if x != [] && y != [] {
      assert x[0].0 == y[0].0 by {
        assert y[0].0 in KeysOf(x) && x[0].0 in KeysOf(y);
        var i :| 0 <= i < |x| && x[i].0 == y[0].0;
        var j :| 0 <= j < |y| && y[j].0 == x[0].0;
        if x[0].0 != y[0].0 {
          assert Less(x[0].0, y[0].0) && Less(y[0].0, x[0].0);
          LessAsymmetric(x[0].0, y[0].0);
        }
      }
      SortedDistinct(x);
      SortedDistinct(y);
      var x', y' := x[1..], y[1..];
      assert KeysOf(x') == KeysOf(x) - {x[0].0} by {
        assert forall i :: 0 <= i < |x'| ==> x'[i] == x[i + 1];
        assert KeysOf(x) == {x[0].0} + KeysOf(x');
      }
      assert KeysOf(y') == KeysOf(y) - {y[0].0} by {
        assert forall i :: 0 <= i < |y'| ==> y'[i] == y[i + 1];
        assert KeysOf(y) == {y[0].0} + KeysOf(y');
      }
      SortedUnique(x', y');
      assert x == [x[0]] + x' && y == [y[0]] + y';
    }
  }

  /** Merging a sorted block with itself gives the block back. */
  lemma MergeSelf(b: Block)
    requires SortedByKey(b)
    ensures MergedBlock(b, b) == b
  {
    var r, m := MergedBlock(b, b), ToMap(b);
    MergedBlockValues(b, b);
    forall i, j | 0 <= i < |r| && 0 <= j < |b| && r[i].0 == b[j].0 ensures r[i].1 == b[j].1 {
      if TruthyOpt(Lookup(m, r[i].0)) {
        PickIdentical(m[r[i].0]);
      }
    }
    SortedUnique(r, b);
  }

  /** Two blocks with one distinct name each merge into both entries, in name order. */
  lemma MergeDisjointSingletons(k1: string, v1: Value, k2: string, v2: Value)
    requires Less(k1, k2)
    ensures MergedBlock([(k1, v1)], [(k2, v2)]) == [(k1, v1), (k2, v2)]
  {
    LessIrreflexive(k1);
    var x: Block := [(k1, v1)];
    var y: Block := [(k2, v2)];
    var m := map[k1 := v1, k2 := v2];
    assert ToMap(x) == map[k1 := v1];
    assert Fold(ToMap(x), y) == Step(ToMap(x), (k2, v2)) by {
      assert y[..0] == [];
    }
    assert Lookup(map[k1 := v1], k2) == None;
    assert Fold(ToMap(x), y) == m;
    var got := SortedEntries(m);
    assert got == MergedBlock(x, y);
    var want: seq<Entry> := [(k1, v1), (k2, v2)];
    assert KeysOf(want) == {k1, k2} by {
      assert want[0].0 == k1 && want[1].0 == k2;
    }
    forall i, j | 0 <= i < |got| && 0 <= j < |want| && got[i].0 == want[j].0
      ensures got[i].1 == want[j].1
    {
      assert j == 0 || j == 1;
    }
    SortedUnique(got, want);
  }

  // As written, `out[name]` in the update loop also finds properties that `out`
  // inherits from `Object.prototype`. The functions below model that lookup.

  /** The names, other than the accessor `__proto__`, whose lookup on a plain object finds an inherited method. */
  const InheritedNames: set<string> :=
    {"constructor", "hasOwnProperty", "isPrototypeOf", "propertyIsEnumerable",
     "toLocaleString", "toString", "valueOf",
     "__defineGetter__", "__defineSetter__", "__lookupGetter__", "__lookupSetter__"}

  /** `out[name]` on a plain object: an own property, else an inherited method, else `undefined`. */
  function LookupAsWritten(m: map<string, Value>, k: string): (r: Option<Value>)
    ensures k in m ==> r == Some(m[k])
    ensures k !in m ==> (r.Some? <==> k in InheritedNames)
  {
    if k in m then Some(m[k])
    else if k in InheritedNames then Some(Builtin(k))
    else None
  }

  /** The update loop over the extra block's entries, with the inherited lookup. */
  function FoldAsWritten(out: map<string, Value>, extra: seq<Entry>): (r: map<string, Value>)
    ensures r.Keys == out.Keys + KeysOf(extra)
  {
    if extra == [] then out
    else
      KeysOfSnoc(extra);
      var prev := FoldAsWritten(out, extra[..|extra| - 1]);
      var e := extra[|extra| - 1];
      prev[e.0 := Resolve(LookupAsWritten(prev, e.0), e.1)]
  }

  /**
   * A dependency of the extra block named after an inherited method, absent
   * from the base and given an ordinary range, ends up holding the inherited
   * function instead of its range (which `JSON.stringify` then drops). The
   * own-property lookup keeps the range.
   */
  lemma InheritedNameShadowsExtra(base: map<string, Value>, k: string, v: Value)
    requires k in InheritedNames && k !in base && !IsSpecialSpec(v)
    ensures FoldAsWritten(base, [(k, v)])[k] == Builtin(k)
    ensures Builtin(k) != v
    ensures Fold(base, [(k, v)])[k] == v
  {
    var e: seq<Entry> := [(k, v)];
    assert e[..0] == [];
  }

  /**
   * Apart from inherited names missing from the base, the lookup as written
   * and the own-property lookup run the same loop.
   */
  lemma {:induction false} FoldAsWrittenAgrees(base: map<string, Value>, extra: seq<Entry>)
    requires forall i :: 0 <= i < |extra| ==> extra[i].0 in base || extra[i].0 !in InheritedNames
    ensures FoldAsWritten(base, extra) == Fold(base, extra)
  {
    if extra != [] {
      var init, last := extra[..|extra| - 1], extra[|extra| - 1];
      assert forall i :: 0 <= i < |init| ==> init[i] == extra[i];
      FoldAsWrittenAgrees(base, init);
      var prev := Fold(base, init);
      assert LookupAsWritten(prev, last.0) == Lookup(prev, last.0);
    }
  }

  /** The smallest instance: `{}` merged with `{ "constructor": "^1.0.0" }`. */
  lemma ConstructorDependencyLost()
    ensures var got := FoldAsWritten(map[], [("constructor", Str("^1.0.0"))]);
      && got["constructor"] == Builtin("constructor")
      && got["constructor"] != Str("^1.0.0")
  {
    NotSpecialByFirst("^1.0.0");
    InheritedNameShadowsExtra(map[], "constructor", Str("^1.0.0"));
  }
}
