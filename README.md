# merge_package — a verified model

`merge_package.js` merges two `package.json` manifests: a *base* and an *extra*.

- Every field of the base manifest is kept.
- Each of the four dependency blocks (`dependencies`, `devDependencies`, `peerDependencies`, `optionalDependencies`) is replaced by a merge of the base's block and the extra's block.
- Inside a block, a name present on both sides gets one version spec, chosen by a fixed order of rules:
  1. identical specs: keep the base's spec;
  2. "special" specs (`file:`, `git+`, `workspace:`, …, or a non-string) win over ordinary ones;
  3. between two special specs, the extra's wins;
  4. between two parseable ranges, the higher `major.minor.patch` triple wins, and an equal triple goes to the "looser" operator;
  5. anything else goes to the extra's spec.
- The merged block is sorted by name.

The model is split into modules that follow the script's layers:

| module | file | models |
|---|---|---|
| `Wrappers` | wrappers.dfy | `Option` |
| `Values` | values.dfy | JSON values, JavaScript truthiness |
| `Text` | text.dfy | ASCII digits, the ECMAScript whitespace set, `String.prototype.trim`, the double-bar test |
| `KeyOrder` | key_order.dfy | the string order used to sort block keys; least key of a set |
| `VersionTriple` | version_triple.dfy | `parseVersionTriple`: a leftmost scan for `digits.digits[.digits]` |
| `VersionPicker` | version_picker.dfy | `isSpecialSpec`, `cmpTriple`, the `score` tie-break, `pickVersion` |
| `DepBlocks` | dep_blocks.dfy | `mergeDepBlock`: the copy, the update loop, the sort |
| `Manifests` | manifests.dfy | `mergePackage` |

Modelling choices:

- **Values.** A value is `Str | Null | Bool | Num | Composite(id) | Builtin(name)`. An object or array is represented only by an identity token (`Composite`), because `===` on objects compares references. `Builtin` is a method inherited from `Object.prototype`; parsed JSON never holds one, and only the as-written lookup (see "Findings") produces it.
- **Dependency blocks.** An input block is the sequence of its entries, in `Object.entries` order, with distinct names. `mergeDepBlock`'s working object `out` is a `map`. The output is a sequence of entries sorted by name.
- **Lookup in `out`.** The main model reads only own properties (`DepBlocks.Lookup`). The source's lookup also finds inherited properties; it is modelled separately as `DepBlocks.LookupAsWritten`, which shows a defect. See "Findings".
- **Manifests.** A manifest is a `map` from field name to `Field`. A field is either a dependency block (`Deps`) or any other value (`Plain`).
- **Imperative and pure parts.** `cmpTriple` and `mergeDepBlock` are loops in the source, so they are Dafny methods with loop invariants. Each is proved equal to a specification function (`Compare`, `MergedBlock`), and the lemmas prove the source's promises about those functions. The rest of the script is pure code and is modelled as functions.

## Model

| member | source | states |
|---|---|---|
| VersionPicker.IsSpecialSpec | rootfs/opt/utils/merge_package.js:28-41 | `isSpecialSpec`: every non-string is special, and a special string is at least four characters long (the shortest prefixes, `git+` and `npm:`) |
| VersionPicker.SpecialIff | rootfs/opt/utils/merge_package.js:28-41 | a spec is special iff it is not a string, or it starts with one of the nine prefixes `file:`, `link:`, `workspace:`, `git+`, `github:`, `http://`, `https://`, `npm:`, `patch:` |
| VersionPicker.NotSpecialByFirst | rootfs/opt/utils/merge_package.js:30-40 | a non-empty string whose first character begins none of the nine prefixes is not special |
| Text.IsDigit | rootfs/opt/utils/merge_package.js:54 | the class `\d`: an ASCII digit, never white space |
| Text.IsSpace | rootfs/opt/utils/merge_package.js:91-92 | the characters `trim` strips: no printable ASCII character is one of them |
| Text.TrimStart | rootfs/opt/utils/merge_package.js:91-92 | the result is a suffix of the input; only whitespace was removed; it does not start with whitespace |
| Text.TrimEnd | rootfs/opt/utils/merge_package.js:91-92 | the result is a prefix of the input; only whitespace was removed; it does not end with whitespace |
| Text.Trim | rootfs/opt/utils/merge_package.js:91-92 | the result is a slice `s[i..j]` with only whitespace outside it, and it neither starts nor ends with whitespace |
| Text.TrimUnchanged | rootfs/opt/utils/merge_package.js:91-92 | trimming a string with no whitespace at either end returns it unchanged |
| Text.HasDoubleBar | rootfs/opt/utils/merge_package.js:96 | `t.includes("\|\|")`: a string that contains a double bar has at least two characters and contains `\|` |
| Text.HasDoubleBarIff | rootfs/opt/utils/merge_package.js:96 | the `includes("\|\|")` test holds iff two adjacent bars occur somewhere in the string |
| VersionTriple.MatchAt | rootfs/opt/utils/merge_package.js:54 | the regular expression anchored at `i`: a match starts with a digit and needs at least three characters from `i` |
| VersionTriple.PatchAt | rootfs/opt/utils/merge_package.js:54-57 | the optional group `(?:\.(\d+))?` read as `m[3] \|\| 0`: a non-zero patch needs a dot and a digit at `k` |
| VersionTriple.ScanFrom | rootfs/opt/utils/merge_package.js:54-55 | the unanchored search: a match at the start position is the one returned, and any result needs three characters |
| VersionTriple.ParseVersionTriple | rootfs/opt/utils/merge_package.js:50-58 | `parseVersionTriple`: `null` for every non-string; a triple only from a string of at least three characters |
| VersionTriple.RunEnd | rootfs/opt/utils/merge_package.js:54 | a greedy `\d*` (the at-least-one-digit test is in `MatchAt`): only digits are consumed, and the run stops at the end or at a non-digit |
| VersionTriple.ParseNoneIff | rootfs/opt/utils/merge_package.js:50-55 | parsing fails iff the spec is not a string or has no digit `.` digit occurrence |
| VersionTriple.ParseIsLeftmostMatch | rootfs/opt/utils/merge_package.js:53-57 | a parsed triple is the match at some position p with no match at any earlier position (the first occurrence) |
| VersionTriple.ScanFromFound | rootfs/opt/utils/merge_package.js:54-55 | a successful scan from position i returns the match at the first matching position at or after i |
| VersionTriple.DecimalValue | rootfs/opt/utils/merge_package.js:57 | `Number(m[k])` on a digit string, without rounding: the value is 0 exactly when every digit is `0` |
| VersionTriple.DecimalRoundTrip | rootfs/opt/utils/merge_package.js:57 | reading back the decimal numeral of n gives n (`Number(m[k])`) |
| VersionTriple.ParseRendered | rootfs/opt/utils/merge_package.js:43-58 | for a spec written as operator, `x.y`, optional `.z` and a delimited tail, parsing gives `[x, y, z]`, with a missing patch read as 0 |
| VersionTriple.ExampleCaret | rootfs/opt/utils/merge_package.js:45 | `"^1.2.3"` gives [1,2,3] |
| VersionTriple.ExampleTilde | rootfs/opt/utils/merge_package.js:46 | `"~2.0.0"` gives [2,0,0] |
| VersionTriple.ExampleNoPatch | rootfs/opt/utils/merge_package.js:47 | `"1.2"` gives [1,2,0] |
| VersionTriple.ExampleComparator | rootfs/opt/utils/merge_package.js:48 | `">=1.2.3"` gives [1,2,3] |
| VersionPicker.Compare | rootfs/opt/utils/merge_package.js:60-66 | the lexicographic comparison returns -1, 0 or 1 |
| VersionPicker.CompareZeroIff | rootfs/opt/utils/merge_package.js:60-66 | the comparison gives 0 iff the triples are equal |
| VersionPicker.CompareAntisymmetric | rootfs/opt/utils/merge_package.js:60-66 | swapping the arguments negates the result |
| VersionPicker.CompareTransitive | rootfs/opt/utils/merge_package.js:60-66 | "greater than" is transitive |
| VersionPicker.CompareHigher | rootfs/opt/utils/merge_package.js:60-66 | a positive result means a higher major, or an equal major and higher minor, or equal major and minor and a higher patch; a negative result means the mirror case |
| VersionPicker.CmpTriple | rootfs/opt/utils/merge_package.js:60-66 | the indexed loop with early returns computes `Compare`: positive iff a is higher, negative iff b is higher, zero iff equal |
| VersionPicker.Score | rootfs/opt/utils/merge_package.js:90-98 | the looseness rank is at most 5 |
| VersionPicker.ScoreLooseRanks | rootfs/opt/utils/merge_package.js:90-95 | on the trimmed spec: rank 5 iff it is `*`, 4 iff it starts with a digit, 3 iff it starts with `^`, 2 iff it starts with `~` |
| VersionPicker.ScoreComparatorRank | rootfs/opt/utils/merge_package.js:96-97 | rank 1 iff no higher rank applies and the trimmed spec starts with `>` or `<` or contains `\|\|` |
| VersionPicker.WildcardNeverParses | rootfs/opt/utils/merge_package.js:90-91 | a spec of rank 5 (`*`) never yields a triple, so rank 5 is never used at line 100 |
| VersionPicker.PickVersion | rootfs/opt/utils/merge_package.js:69-109 | the result is always one of the two input specs |
| VersionPicker.PickIdentical | rootfs/opt/utils/merge_package.js:70 | identical specs return the base's spec |
| VersionPicker.PickSpecial | rootfs/opt/utils/merge_package.js:72-77 | for distinct specs with at least one special: the base's spec wins iff only it is special; otherwise the extra's wins (only the extra's special, or both special) |
| VersionPicker.PickByVersion | rootfs/opt/utils/merge_package.js:79-105 | for two non-special parseable specs: a higher base triple keeps the base's spec; a higher extra triple takes the extra's; on equal triples the base's spec wins iff its score is strictly higher (a tie goes to the extra) |
| VersionPicker.PickUnparseable | rootfs/opt/utils/merge_package.js:107-108 | distinct non-special specs where either fails to parse: the extra's spec is returned |
| VersionPicker.PickVersionChoice | rootfs/opt/utils/merge_package.js:69-109 | the chosen spec is the base's iff the specs are identical or `BaseWins` (a closed statement of the rule order) holds |
| VersionPicker.ScenarioIdentical | rootfs/opt/utils/merge_package.js:70 | `^1.0.0` against `^1.0.0` keeps `^1.0.0` |
| VersionPicker.ScenarioSpecial | rootfs/opt/utils/merge_package.js:75 | `^1.0.0` against `file:../local-a` gives `file:../local-a` |
| VersionPicker.RenderedNotSpecial | rootfs/opt/utils/merge_package.js:28-41 | a rendered range whose operator does not start a special prefix is not special |
| VersionPicker.HigherFloorWins | rootfs/opt/utils/merge_package.js:82-86 | two rendered ranges with different triples: the higher triple wins, whatever the operators |
| VersionPicker.RenderedScore | rootfs/opt/utils/merge_package.js:94-95 | a caret range ranks 3 and a tilde range ranks 2 |
| VersionPicker.CaretBeatsTilde | rootfs/opt/utils/merge_package.js:88-102 | `^x.y.z` in the base against `~x.y.z` in the extra keeps the caret range |
| VersionPicker.ScenarioUnparseable | rootfs/opt/utils/merge_package.js:107-108 | `^1.0.0` against the unparseable `*` gives `*` |
| KeyOrder.Less | rootfs/opt/utils/merge_package.js:120 | the comparator standing in for `localeCompare`: a proper prefix sorts before the strings it starts |
| KeyOrder.LessIrreflexive | rootfs/opt/utils/merge_package.js:120 | no key sorts before itself |
| KeyOrder.LessAsymmetric | rootfs/opt/utils/merge_package.js:120 | the key order is asymmetric |
| KeyOrder.LessTransitive | rootfs/opt/utils/merge_package.js:120 | the key order is transitive |
| KeyOrder.LessTotal | rootfs/opt/utils/merge_package.js:120 | any two distinct keys are ordered one way or the other |
| KeyOrder.MinKey | rootfs/opt/utils/merge_package.js:120 | a non-empty key set has a member that sorts before every other member |
| Values.Truthy | rootfs/opt/utils/merge_package.js:115 | the `verA ?` test: a value is falsy exactly when it is `null`, `false`, `0` or `""` |
| Values.TruthyOpt | rootfs/opt/utils/merge_package.js:114-115 | a missing name (`undefined`) is falsy; a truthy value is neither `null` nor `""` |
| Manifests.BlockOf | rootfs/opt/utils/merge_package.js:111 | the `= {}` defaults: the block of a present dependency field, otherwise the empty block |
| DepBlocks.Lookup | rootfs/opt/utils/merge_package.js:114 | `out[name]` read as an own property (the corrected lookup): a value exactly when the name is present, and then the stored value |
| DepBlocks.ToMap | rootfs/opt/utils/merge_package.js:112 | `{ ...base }` has exactly the block's names as keys, with each entry's value |
| DepBlocks.Resolve | rootfs/opt/utils/merge_package.js:115 | `verA ? pickVersion(verA, verB) : verB`: a falsy or missing base value yields the extra's spec; otherwise the result is one of the two |
| DepBlocks.Step | rootfs/opt/utils/merge_package.js:114-115 | one iteration: adds the name, resolves its value against `out`, and leaves every other name unchanged |
| DepBlocks.Fold | rootfs/opt/utils/merge_package.js:113-116 | the loop: its keys are those of `out` plus the extra's names, and names the extra lacks keep their value |
| DepBlocks.FoldAt | rootfs/opt/utils/merge_package.js:112-116 | after the loop the keys are the union of both sides; names only in the base keep their value; each name of the extra holds `verA ? pickVersion(verA, verB) : verB` against the base's value |
| DepBlocks.SortedEntries | rootfs/opt/utils/merge_package.js:119-121 | `Object.fromEntries(Object.entries(out).sort(...))`: strictly ascending names, exactly the keys of `out`, each with its value |
| DepBlocks.MergedBlock | rootfs/opt/utils/merge_package.js:111-122 | the merged block is sorted by name and its names are exactly the union of both blocks' names |
| DepBlocks.MergedBlockValues | rootfs/opt/utils/merge_package.js:113-116 | base-only names keep the base value; names whose base value is absent or falsy take the extra value; other shared names get `PickVersion(base, extra)` |
| DepBlocks.MergedFromInputs | rootfs/opt/utils/merge_package.js:112-116 | every merged value is the base's value or the extra's value for that name |
| DepBlocks.MergeDepBlock | rootfs/opt/utils/merge_package.js:111-122 | the copy, update loop and sort compute exactly `MergedBlock(base, extra)` |
| DepBlocks.SortedUnique | rootfs/opt/utils/merge_package.js:119-121 | two sorted blocks with the same names and agreeing values are equal (the sorted output is unique) |
| DepBlocks.MergeSelf | rootfs/opt/utils/merge_package.js:111-122 | merging a sorted block with itself returns it unchanged |
| DepBlocks.MergeDisjointSingletons | rootfs/opt/utils/merge_package.js:111-122 | two one-entry blocks with different names merge into both entries in name order |
| DepBlocks.LookupAsWritten | rootfs/opt/utils/merge_package.js:114 | `out[name]` as the source evaluates it: an own property when present; otherwise a value exactly for the names whose `Object.prototype` property is a method, that is, every inherited name other than `__proto__` |
| DepBlocks.FoldAsWritten | rootfs/opt/utils/merge_package.js:113-116 | the loop with the source's lookup: the same keys as `out` plus the extra's names |
| DepBlocks.FoldAsWrittenAgrees | rootfs/opt/utils/merge_package.js:113-116 | when no extra name is an inherited name missing from the base, the as-written loop equals the own-property loop, so the two differ only in the case of the finding |
| DepBlocks.InheritedNameShadowsExtra | rootfs/opt/utils/merge_package.js:113-116 | with the source's lookup, an extra dependency named after an inherited method, missing from the base and given an ordinary range, ends up holding the inherited function; the own-property fold keeps the range |
| DepBlocks.ConstructorDependencyLost | rootfs/opt/utils/merge_package.js:113-116 | merging `{}` with `{ "constructor": "^1.0.0" }` as written stores the inherited `constructor` function, not `^1.0.0` |
| Manifests.MergedField | rootfs/opt/utils/merge_package.js:127-130 | one `mergeDepBlock(basePkg.f, extraPkg.f)` call: a sorted block holding the names of both manifests' blocks for `f` |
| Manifests.MergedFields | rootfs/opt/utils/merge_package.js:127-130 | the four overwrites: exactly the four dependency fields, each a sorted block |
| Manifests.MergePackage | rootfs/opt/utils/merge_package.js:124-132 | the fields are the base's fields plus the four dependency fields; non-dependency fields equal the base's, and the extra's never appear; each dependency field is the merge of the two blocks |
| Manifests.AbsentBlockIsEmpty | rootfs/opt/utils/merge_package.js:127-130 | a dependency field missing from both manifests comes out as an empty block |
| Manifests.MergePackageSelf | rootfs/opt/utils/merge_package.js:124-131 | merging a manifest whose four blocks are present and sorted with itself returns it unchanged |
| Manifests.MergedFieldSelf | rootfs/opt/utils/merge_package.js:127-130 | a sorted dependency field merged with itself is unchanged |

## Left out

- Command line and files: argv parsing and the usage exit (lines 14-21), `readJson` (23-26), and the output write, `JSON.stringify` formatting and log line (134-140). These are operating-system I/O.
- `localeCompare` (120) depends on the locale. It is modelled as lexicographic order on code points (`KeyOrder.Less`). Locale collation (case folding, accents, ICU rules) is not modelled.
- `Number(...)` (57) is a float conversion. Triple components are unbounded naturals, so precision loss on very long digit runs is not modelled.
- JavaScript property order. Integer-like keys are enumerated before other keys whatever the sort does, and spread keeps the base's key positions. A block is a sorted entry sequence and a manifest is an unordered map.
- Strings are sequences of code points, not UTF-16 units, so surrogate pairs count as one character in the sort and in slicing.
- `Manifests.MergePackage` requires every present dependency field to be an object (`WellFormed`). A `null` extra block throws at `Object.entries` (113). A `null`, boolean or number base block is treated as `{}` by the spread at 112, and a boolean or number extra block has no entries. A string or array block contributes its characters or elements under index keys. None of these cases is modelled.
- Non-string values are compared by `===` on an identity token, so two distinct objects with equal contents are different. Their contents are not modelled.
- `trim` uses the fixed ECMAScript whitespace set (`Text.IsSpace`).
- `__proto__` as a dependency name is not modelled, because its behaviour depends on the base. If the base block holds `__proto__`, `JSON.parse` and the spread at 112 make it an own data property, so `out[name]` reads it and the update stores an entry like any other name. If the base lacks it, `out[name]` reads `Object.prototype`, which is truthy and special. `pickVersion` returns it against an ordinary range, and returns the extra's spec when that spec is special too. The `__proto__` setter used by the assignment at 115 ignores a string. An object or `null` replaces `out`'s prototype, which changes how later inherited names resolve, so `DepBlocks.LookupAsWritten` describes the source only until such an entry has been processed. In these last cases no own entry is stored, so the extra's `__proto__` dependency is lost: a second instance of the defect under "Findings".
- Worked examples with concrete ranges such as `^1.2.0` against `^1.3.0`, and `^2.0.0` against `~2.0.0`, are proved as general lemmas (`HigherFloorWins`, `CaretBeatsTilde`) and not as literal instances. A concrete whole-manifest example is covered by the general `MergePackage` and `MergedBlockValues` contracts.

## Findings

| source | as written | input that shows it | evidently intended | confidence | as-written member | corrected member |
|---|---|---|---|---|---|---|
| rootfs/opt/utils/merge_package.js:114-115 | `out[name]` reads `out` as a plain object, so it also finds inherited `Object.prototype` methods (`constructor`, `toString`, `valueOf`, …). The inherited function is truthy and non-string, so it counts as special and beats an ordinary range in `pickVersion`. A `__proto__` dependency missing from the base is also lost, through `Object.prototype` itself; that case is listed under "Left out" and not modelled. | base block `{}`, extra block `{ "constructor": "^1.0.0" }`: `out.constructor` becomes the `Object` function, and `JSON.stringify` then drops the entry | a name absent from the base takes the extra's spec, so every merged spec comes from one of the two blocks | high; not executed | DepBlocks.ConstructorDependencyLost | DepBlocks.MergedFromInputs |
