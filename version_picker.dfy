/**
 * `pickVersion`: which of two specs for the same dependency name survives,
 * the base's `a` or the extra's `b`.
 */
module VersionPicker {

  import opened Wrappers
  import opened Values
  import opened Text
  import opened VersionTriple

  /** The protocol prefixes that mark a spec as a path, link, workspace, VCS, URL, alias or patch. */
  const SpecialPrefixes: set<string> :=
    {"file:", "link:", "workspace:", "git+", "github:", "http://", "https://", "npm:", "patch:"}

  /** `isSpecialSpec`: every non-string, and every string with a special prefix. */
  predicate IsSpecialSpec(v: Value)
    ensures !v.Str? ==> IsSpecialSpec(v)
    ensures v.Str? && IsSpecialSpec(v) ==> |v.s| >= 4
  {
    if !v.Str? then true
    else
      var s := v.s;
      || "file:" <= s
      || "link:" <= s
      || "workspace:" <= s
      || "git+" <= s
      || "github:" <= s
      || "http://" <= s
      || "https://" <= s
      || "npm:" <= s
      || "patch:" <= s
  }

  /** Non-strings are special; a string is special exactly when one of the nine prefixes starts it. */
  lemma SpecialIff(v: Value)
    ensures IsSpecialSpec(v) <==> !v.Str? || exists p :: p in SpecialPrefixes && p <= v.s
  {
    if v.Str? && IsSpecialSpec(v) {
      var s := v.s;
      if "file:" <= s { assert "file:" in SpecialPrefixes; }
      else if "link:" <= s { assert "link:" in SpecialPrefixes; }
      else if "workspace:" <= s { assert "workspace:" in SpecialPrefixes; }
      else if "git+" <= s { assert "git+" in SpecialPrefixes; }
      else if "github:" <= s { assert "github:" in SpecialPrefixes; }
      else if "http://" <= s { assert "http://" in SpecialPrefixes; }
      else if "https://" <= s { assert "https://" in SpecialPrefixes; }
      else if "npm:" <= s { assert "npm:" in SpecialPrefixes; }
      else { assert "patch:" in SpecialPrefixes; }
    }
  }

  /** No special prefix starts with a character outside `f l w g h n p`, so range operators are never special. */
  lemma NotSpecialByFirst(s: string)
    requires s != [] && s[0] !in "flwghnp"
    ensures !IsSpecialSpec(Str(s))
  {
    forall p | p in SpecialPrefixes ensures !(p <= s) {
      assert p[0] in "flwghnp";
    }
    SpecialIff(Str(s));
  }

  /** Lexicographic comparison of equally long number sequences: 1, 0 or -1. */
  function Compare(a: seq<nat>, b: seq<nat>): (c: int)
    requires |a| == |b|
    ensures -1 <= c <= 1
  {
    if a == [] then 0
    else if a[0] > b[0] then 1
    else if a[0] < b[0] then -1
    else Compare(a[1..], b[1..])
  }

  lemma {:induction false} CompareZeroIff(a: seq<nat>, b: seq<nat>)
    requires |a| == |b|
    ensures Compare(a, b) == 0 <==> a == b
  {
    if a != [] && a[0] == b[0] {
      CompareZeroIff(a[1..], b[1..]);
      if a[1..] == b[1..] {
        assert a == [a[0]] + a[1..] && b == [b[0]] + b[1..];
      }
    }
  }

  lemma {:induction false} CompareAntisymmetric(a: seq<nat>, b: seq<nat>)
    requires |a| == |b|
    ensures Compare(b, a) == -Compare(a, b)
  {
    if a != [] && a[0] == b[0] {
      CompareAntisymmetric(a[1..], b[1..]);
    }
  }

  lemma {:induction false} CompareTransitive(a: seq<nat>, b: seq<nat>, c: seq<nat>)
    requires |a| == |b| == |c|
    ensures Compare(a, b) > 0 && Compare(b, c) > 0 ==> Compare(a, c) > 0
  {
    if a != [] && a[0] == b[0] == c[0] {
      CompareTransitive(a[1..], b[1..], c[1..]);
    }
  }

  /** `a` is a strictly higher version than `b`: by major, then minor, then patch. */
  predicate Higher(a: Triple, b: Triple)
  {
    || a[0] > b[0]
    || (a[0] == b[0] && a[1] > b[1])
    || (a[0] == b[0] && a[1] == b[1] && a[2] > b[2])
  }

  /** On triples, `Compare` is positive exactly for a higher version. */
  lemma CompareHigher(a: Triple, b: Triple)
    ensures Compare(a, b) > 0 <==> Higher(a, b)
    ensures Compare(a, b) < 0 <==> Higher(b, a)
  {
    var a1, b1 := a[1..], b[1..];
    var a2, b2 := a1[1..], b1[1..];
    assert a1[0] == a[1] && b1[0] == b[1] && a2[0] == a[2] && b2[0] == b[2];
    assert Compare(a2[1..], b2[1..]) == 0;
    assert Compare(a2, b2) == (if a[2] > b[2] then 1 else if a[2] < b[2] then -1 else 0);
    assert Compare(a1, b1) == (if a[1] > b[1] then 1 else if a[1] < b[1] then -1 else Compare(a2, b2));
  }

  /** `cmpTriple`: the indexed loop with early returns. */
  method CmpTriple(a: Triple, b: Triple) returns (c: int)
    ensures c == Compare(a, b)
    ensures c > 0 <==> Higher(a, b)
    ensures c < 0 <==> Higher(b, a)
    ensures c == 0 <==> a == b
  {
    CompareHigher(a, b);
    CompareZeroIff(a, b);
    for i := 0 to 3
      invariant a[..i] == b[..i]
      invariant Compare(a, b) == Compare(a[i..], b[i..])
    {
      if a[i] > b[i] {
        return 1;
      }
      if a[i] < b[i] {
        return -1;
      }
      assert a[i..][1..] == a[i + 1..] && b[i..][1..] == b[i + 1..];
      assert a[..i + 1] == a[..i] + [a[i]] && b[..i + 1] == b[..i] + [b[i]];
    }
    return 0;
  }

  /** The tie-break ranking of a range operator; higher means looser. */
  function Score(s: string): (r: nat)
    ensures r <= 5
  {
    var t := Trim(s);
    if t == "*" then 5
    else if t != [] && IsDigit(t[0]) then 4
    else if "^" <= t then 3
    else if "~" <= t then 2
    else if ">" <= t || "<" <= t || HasDoubleBar(t) then 1
    else 0
  }

  /** The ranks 5 to 2 of `Score`, stated on the trimmed spec. */
  lemma ScoreLooseRanks(s: string)
    ensures var t := Trim(s);
      && (Score(s) == 5 <==> t == "*")
      && (Score(s) == 4 <==> t != [] && IsDigit(t[0]))
      && (Score(s) == 3 <==> t != [] && t[0] == '^')
      && (Score(s) == 2 <==> t != [] && t[0] == '~')
  {
  }

  /** Rank 1 of `Score`: a comparator or an or-range that no higher rank claims. */
  lemma ScoreComparatorRank(s: string)
    ensures var t := Trim(s);
      Score(s) == 1 <==>
        && t != "*" && !(t != [] && (IsDigit(t[0]) || t[0] == '^' || t[0] == '~'))
        && ((t != [] && (t[0] == '>' || t[0] == '<'))
            || exists i :: 0 <= i < |t| - 1 && t[i] == '|' && t[i + 1] == '|')
  {
    HasDoubleBarIff(Trim(s));
  }

  /**
   * The wildcard rank never decides a tie: a spec whose trim is `*` holds no
   * digit, so it never yields a triple and the tie-break is never reached for it.
   */
  lemma WildcardNeverParses(s: string)
    requires Score(s) == 5
    ensures ParseVersionTriple(Str(s)).None?
  {
    ScoreLooseRanks(s);
    StarHasNoDigit(s);
    DigitFreeNeverParses(s);
  }

  /** A spec whose trim is `*` holds no digit. */
  lemma StarHasNoDigit(s: string)
    requires Trim(s) == "*"
    ensures forall k :: 0 <= k < |s| ==> !IsDigit(s[k])
  {
    var i, j :| && 0 <= i <= j <= |s| && Trim(s) == s[i..j]
                && (forall k :: 0 <= k < i ==> IsSpace(s[k]))
                && (forall k :: j <= k < |s| ==> IsSpace(s[k]));
    assert j == i + 1 && s[i] == '*';
    forall k | 0 <= k < |s| ensures !IsDigit(s[k]) {
      if k != i {
        assert IsSpace(s[k]);
      }
    }
  }

  /** A spec without a digit never yields a triple. */
  lemma DigitFreeNeverParses(s: string)
    requires forall k :: 0 <= k < |s| ==> !IsDigit(s[k])
    ensures ParseVersionTriple(Str(s)).None?
  {
    ParseNoneIff(Str(s));
  }

  /** `pickVersion(a, b)`, `a` from the base manifest and `b` from the extra one. */
  function PickVersion(a: Value, b: Value): (r: Value)
    ensures r == a || r == b
  {
    if a == b then a
    else
      var aSpecial := IsSpecialSpec(a);
      var bSpecial := IsSpecialSpec(b);
      if bSpecial && !aSpecial then b
      else if aSpecial && !bSpecial then a
      else if aSpecial && bSpecial then b
      else
        match (ParseVersionTriple(a), ParseVersionTriple(b))
        case (Some(pa), Some(pb)) =>
          var c := Compare(pa, pb);
          if c > 0 then a
          else if c < 0 then b
          else
            var sa := Score(a.s);
            var sb := Score(b.s);
            if sa > sb then a
            else if sb > sa then b
            else b
        case _ => b
  }

  /** Rule 1: identical specs keep the base's. */
  lemma PickIdentical(a: Value)
    ensures PickVersion(a, a) == a
  {
  }

  /**
   * Rules 2 and 3: when either spec is special, the special one wins if it is
   * the only one, and the extra spec wins if both are.
   */
  lemma PickSpecial(a: Value, b: Value)
    requires a != b && (IsSpecialSpec(a) || IsSpecialSpec(b))
    ensures PickVersion(a, b) == if IsSpecialSpec(a) && !IsSpecialSpec(b) then a else b
  {
  }

  /**
   * Rule 4: between two parsed range specs a strictly higher version wins
   * whatever the operators, and equal versions go to the looser operator,
   * the extra spec on a tie.
   */
  lemma PickByVersion(a: Value, b: Value, pa: Triple, pb: Triple)
    requires !IsSpecialSpec(a) && !IsSpecialSpec(b)
    requires ParseVersionTriple(a) == Some(pa) && ParseVersionTriple(b) == Some(pb)
    ensures Higher(pa, pb) ==> PickVersion(a, b) == a
    ensures Higher(pb, pa) ==> PickVersion(a, b) == b
    ensures pa == pb ==> PickVersion(a, b) == if Score(a.s) > Score(b.s) then a else b
  {
    CompareHigher(pa, pb);
    CompareZeroIff(pa, pb);
  }

  /** Rule 5: if either range spec yields no triple, the extra spec wins. */
  lemma PickUnparseable(a: Value, b: Value)
    requires a != b && !IsSpecialSpec(a) && !IsSpecialSpec(b)
    requires ParseVersionTriple(a).None? || ParseVersionTriple(b).None?
    ensures PickVersion(a, b) == b
  {
  }

  /**
   * The base spec beats a different extra spec only for a stated reason: it
   * alone is special, or both parse and it is higher, or equally high and looser.
   */
  predicate BaseWins(a: Value, b: Value)
  {
    || (IsSpecialSpec(a) && !IsSpecialSpec(b))
    || (&& !IsSpecialSpec(a) && !IsSpecialSpec(b)
        && ParseVersionTriple(a).Some? && ParseVersionTriple(b).Some?
        && var pa, pb := ParseVersionTriple(a).value, ParseVersionTriple(b).value;
           Higher(pa, pb) || (pa == pb && Score(a.s) > Score(b.s)))
  }

  /** The whole decision: the base spec is kept exactly when it equals the extra or wins. */
  lemma PickVersionChoice(a: Value, b: Value)
    ensures PickVersion(a, b) == if a == b || BaseWins(a, b) then a else b
  {
    if !IsSpecialSpec(a) && !IsSpecialSpec(b) && ParseVersionTriple(a).Some? && ParseVersionTriple(b).Some? {
      var pa, pb := ParseVersionTriple(a).value, ParseVersionTriple(b).value;
      CompareHigher(pa, pb);
      CompareZeroIff(pa, pb);
    }
  }

  /** Worked scenario: identical specs. */
  lemma ScenarioIdentical()
    ensures PickVersion(Str("^1.0.0"), Str("^1.0.0")) == Str("^1.0.0")
  {
  }

  /** Worked scenario: a local path in the extra manifest overrides a range. */
  lemma ScenarioSpecial()
    ensures PickVersion(Str("^1.0.0"), Str("file:../local-a")) == Str("file:../local-a")
  {
    NotSpecialByFirst("^1.0.0");
    assert "file:../local-a"[..5] == "file:";
  }

  /** A rendered range spec whose operator does not start like a special prefix. */
  lemma RenderedNotSpecial(op: string, x: nat, y: nat, z: Option<nat>, tail: string)
    requires op == [] || op[0] !in "flwghnp"
    ensures !IsSpecialSpec(Str(Render(op, x, y, z, tail)))
  {
    var s := Render(op, x, y, z, tail);
    assert s == op + (Decimal(x) + ("." + (Decimal(y) + ((if z.Some? then "." + Decimal(z.value) else "") + tail))));
    if op == [] {
      assert s[0] == Decimal(x)[0] && IsDigit(s[0]);
    }
    NotSpecialByFirst(s);
  }

  /**
   * Worked scenario, for every pair of versions: between two plain range
   * specs the higher version floor wins, whichever manifest it comes from.
   */
  lemma HigherFloorWins(opA: string, a: Triple, opB: string, b: Triple)
    requires Delimited(opA, Some(a[2]), "") && Delimited(opB, Some(b[2]), "")
    requires (opA == [] || opA[0] !in "flwghnp") && (opB == [] || opB[0] !in "flwghnp")
    requires Higher(a, b) || Higher(b, a)
    ensures var sa, sb := Str(Render(opA, a[0], a[1], Some(a[2]), "")), Str(Render(opB, b[0], b[1], Some(b[2]), ""));
      PickVersion(sa, sb) == if Higher(a, b) then sa else sb
  {
    var sa, sb := Str(Render(opA, a[0], a[1], Some(a[2]), "")), Str(Render(opB, b[0], b[1], Some(b[2]), ""));
    RenderedPlain(opA, a);
    RenderedPlain(opB, b);
    PickByVersion(sa, sb, a, b);
  }

  /** A rendered full version with a plain operator is an ordinary spec that parses back to its triple. */
  lemma RenderedPlain(op: string, t: Triple)
    requires Delimited(op, Some(t[2]), "")
    requires op == [] || op[0] !in "flwghnp"
    ensures var s := Str(Render(op, t[0], t[1], Some(t[2]), ""));
      !IsSpecialSpec(s) && ParseVersionTriple(s) == Some(t)
  {
    assert [t[0], t[1], t[2]] == t;
    RenderedNotSpecial(op, t[0], t[1], Some(t[2]), "");
    ParseRendered(op, t[0], t[1], Some(t[2]), "");
  }

  /** The score of a rendered spec without a tail is decided by its operator. */
  lemma RenderedScore(op: string, x: nat, y: nat, z: nat)
    requires op == "^" || op == "~"
    ensures Score(Render(op, x, y, Some(z), "")) == if op == "^" then 3 else 2
  {
    var s := Render(op, x, y, Some(z), "");
    var dz := Decimal(z);
    assert s == op + (Decimal(x) + "." + Decimal(y) + ".") + dz;
    assert s[0] == op[0] && s[|s| - 1] == dz[|dz| - 1] && IsDigit(s[|s| - 1]);
    TrimUnchanged(s);
    ScoreLooseRanks(s);
  }

  /**
   * Worked scenario, for every version: when both manifests name the same
   * version, a caret range in the base beats a tilde range in the extra.
   */
  lemma CaretBeatsTilde(x: nat, y: nat, z: nat)
    ensures var a, b := Str(Render("^", x, y, Some(z), "")), Str(Render("~", x, y, Some(z), ""));
      PickVersion(a, b) == a
  {
    var a, b := Str(Render("^", x, y, Some(z), "")), Str(Render("~", x, y, Some(z), ""));
    RenderedNotSpecial("^", x, y, Some(z), "");
    RenderedNotSpecial("~", x, y, Some(z), "");
    ParseRendered("^", x, y, Some(z), "");
    ParseRendered("~", x, y, Some(z), "");
    RenderedScore("^", x, y, z);
    RenderedScore("~", x, y, z);
    PickByVersion(a, b, [x, y, z], [x, y, z]);
  }

  /** Worked scenario: a bare wildcard yields no triple, so the extra spec wins. */
  lemma ScenarioUnparseable()
    ensures PickVersion(Str("^1.0.0"), Str("*")) == Str("*")
  {
    NotSpecialByFirst("^1.0.0");
    NotSpecialByFirst("*");
    ParseNoneIff(Str("*"));
    PickUnparseable(Str("^1.0.0"), Str("*"));
  }
}
