/**
 * `mergePackage`: the base manifest's fields, with its four dependency
 * blocks replaced by their merges with the extra manifest's blocks.
 */
module Manifests {

  import opened Values
  import opened DepBlocks

  /** A top-level manifest field: a dependency block, or any other JSON value passed through untouched. */
  datatype Field = Deps(block: Block) | Plain(value: Value)

  /** A parsed manifest, field name to field value. */
  type Manifest = map<string, Field>

  /** The four dependency kinds the merger reconciles. */
  const DependencyFields: set<string> :=
    {"dependencies", "devDependencies", "peerDependencies", "optionalDependencies"}

  /** Every dependency field that is present holds an object. */
  predicate WellFormed(m: Manifest)
  {
    forall f :: f in DependencyFields && f in m ==> m[f].Deps?
  }

  /** `m[f]`, defaulting to `{}` when absent (the default parameters of `mergeDepBlock`). */
  function BlockOf(m: Manifest, f: string): (b: Block)
    ensures b == [] || (f in m && m[f] == Deps(b))
    ensures f in m && m[f].Deps? ==> b == m[f].block
  {
    if f in m && m[f].Deps? then m[f].block else []
  }

  /** The merged block for field `f`. */
  function MergedField(base: Manifest, extra: Manifest, f: string): (r: Field)
    ensures r.Deps? && SortedByKey(r.block)
    ensures KeysOf(r.block) == KeysOf(BlockOf(base, f)) + KeysOf(BlockOf(extra, f))
  {
    Deps(MergedBlock(BlockOf(base, f), BlockOf(extra, f)))
  }

  /** The four fields `mergePackage` writes over the spread of the base: `dependencies: mergeDepBlock(…)`, and so on. */
  function MergedFields(base: Manifest, extra: Manifest): (o: map<string, Field>)
    ensures o.Keys == DependencyFields
    ensures forall f :: f in o ==> o[f].Deps? && SortedByKey(o[f].block)
  {
    map f | f in DependencyFields :: MergedField(base, extra, f)
  }

  /** `mergePackage(basePkg, extraPkg)`. */
  function MergePackage(base: Manifest, extra: Manifest): (r: Manifest)
    requires WellFormed(base) && WellFormed(extra)
    ensures forall f :: f in r <==> f in base || f in DependencyFields
    ensures forall f :: f in base && f !in DependencyFields ==> r[f] == base[f]
    ensures forall f :: f in DependencyFields ==> r[f] == MergedField(base, extra, f)
  {
    base + MergedFields(base, extra)
  }

  /** A dependency kind absent from both manifests comes out as an empty block. */
  lemma AbsentBlockIsEmpty(base: Manifest, extra: Manifest, f: string)
    requires WellFormed(base) && WellFormed(extra)
    requires f in DependencyFields && f !in base && f !in extra
    ensures MergePackage(base, extra)[f] == Deps([])
  {
    KeysOfEmpty(MergedBlock([], []));
  }

  /** Merging a manifest with itself changes nothing once its four blocks are present and sorted. */
  lemma MergePackageSelf(m: Manifest)
    requires WellFormed(m)
    requires forall f :: f in DependencyFields ==> f in m && SortedByKey(BlockOf(m, f))
    ensures MergePackage(m, m) == m
  {
    var o := MergedFields(m, m);
    forall f | f in o ensures f in m && o[f] == m[f] {
      MergedFieldSelf(m, f);
    }
    UnionOfAgreeing(m, o);
  }

  /** Overwriting fields with the values they already have changes nothing. */
  lemma UnionOfAgreeing(m: Manifest, o: map<string, Field>)
    requires forall f :: f in o ==> f in m && o[f] == m[f]
    ensures m + o == m
  {
  }

  lemma MergedFieldSelf(m: Manifest, f: string)
    requires f in m && m[f].Deps? && SortedByKey(m[f].block)
    ensures MergedField(m, m, f) == m[f]
  {
    MergeSelf(m[f].block);
  }
}
