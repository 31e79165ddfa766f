/**
 * `parseVersionTriple`: the first match of `(\d+)\.(\d+)(?:\.(\d+))?` in a
 * version spec, its groups read as decimal numbers, a missing patch as 0.
 */
module VersionTriple {

  import opened Wrappers
  import opened Values
  import opened Text

  /** A numeric (major, minor, patch) version, as the three-element array of the source. */
  type Triple = t: seq<nat> | |t| == 3 witness [0, 0, 0]

  /** Every character of `d` is a decimal digit. */
  predicate AllDigits(d: string)
  {
    forall k :: 0 <= k < |d| ==> IsDigit(d[k])
  }

  /** The number a run of decimal digits denotes (`Number` on a digit string, without rounding). */
  function DecimalValue(d: string): (n: nat)
    requires AllDigits(d)
    ensures n == 0 <==> forall k :: 0 <= k < |d| ==> d[k] == '0'
  {
    if d == [] then 0
    else
      var init := d[..|d| - 1];
      assert forall k :: 0 <= k < |init| ==> init[k] == d[k];
      DecimalValue(init) * 10 + (d[|d| - 1] as int - '0' as int)
  }

  /** End of the longest run of digits that starts at `i`: greedy `\d*`. */
  function RunEnd(s: string, i: nat): (j: nat)
    requires i <= |s|
    ensures i <= j <= |s|
    ensures AllDigits(s[i..j])
    ensures j == |s| || !IsDigit(s[j])
    decreases |s| - i
  {
    if i < |s| && IsDigit(s[i]) then
      var j := RunEnd(s, i + 1);
      assert s[i..j] == [s[i]] + s[i + 1..j];
      j
    else i
  }

  /**
   * The regular expression anchored at position `i`. Greedy `\d+` followed by
   * `.` can only succeed with the longest digit run, so no backtracking is needed.
   */
  function MatchAt(s: string, i: nat): (r: Option<Triple>)
    requires i <= |s|
    ensures r.Some? ==> i + 2 < |s| && IsDigit(s[i])
  {
    var j := RunEnd(s, i);
    if j == i || j + 1 >= |s| || s[j] != '.' || !IsDigit(s[j + 1]) then None
    else
      var k := RunEnd(s, j + 1);
      Some([DecimalValue(s[i..j]), DecimalValue(s[j + 1..k]), PatchAt(s, k)])
  }

  /** The optional group `(?:\.(\d+))?` at position `k`, read as 0 when it is absent. */
  function PatchAt(s: string, k: nat): (z: nat)
    requires k <= |s|
    ensures z != 0 ==> k + 1 < |s| && s[k] == '.' && IsDigit(s[k + 1])
  {
    if k + 1 < |s| && s[k] == '.' && IsDigit(s[k + 1])
    then DecimalValue(s[k + 1..RunEnd(s, k + 1)])
    else 0
  }

  /** The leftmost match starting at `i` or later (`String.prototype.match` without `g`). */
  function ScanFrom(s: string, i: nat): (r: Option<Triple>)
    requires i <= |s|
    ensures i < |s| && MatchAt(s, i).Some? ==> r == MatchAt(s, i)
    ensures r.Some? ==> i + 2 < |s|
    decreases |s| - i
  {
    if i == |s| then None
    else if MatchAt(s, i).Some? then MatchAt(s, i)
    else ScanFrom(s, i + 1)
  }

  /** `parseVersionTriple`: `null` for non-strings and for strings without a match. */
  function ParseVersionTriple(v: Value): (r: Option<Triple>)
    ensures !v.Str? ==> r.None?
    ensures r.Some? ==> v.Str? && |v.s| >= 3
  {
    if v.Str? then ScanFrom(v.s, 0) else None
  }

  /** `s` holds a digit, a dot and a digit, one after another. */
  predicate HasDigitDotDigit(s: string)
  {
    exists i :: 0 <= i && i + 2 < |s| && IsDigit(s[i]) && s[i + 1] == '.' && IsDigit(s[i + 2])
  }

  /** No match starts at a position in `[i, p)`. */
  predicate NoMatchBetween(s: string, i: nat, p: nat)
    requires i <= p <= |s|
  {
    forall q :: i <= q < p ==> MatchAt(s, q).None?
  }

  lemma {:induction false} ScanFromSome(s: string, i: nat, p: nat)
    requires i <= p < |s| && MatchAt(s, p).Some?
    ensures ScanFrom(s, i).Some?
    decreases p - i
  {
    if i < p && MatchAt(s, i).None? {
      ScanFromSome(s, i + 1, p);
    }
  }

  lemma {:induction false} ScanFromFound(s: string, i: nat)
    requires i <= |s| && ScanFrom(s, i).Some?
    ensures exists p :: i <= p < |s| && MatchAt(s, p) == ScanFrom(s, i) && NoMatchBetween(s, i, p)
    decreases |s| - i
  {
    if MatchAt(s, i).None? {
      ScanFromFound(s, i + 1);
      var p :| i + 1 <= p < |s| && MatchAt(s, p) == ScanFrom(s, i + 1) && NoMatchBetween(s, i + 1, p);
      assert NoMatchBetween(s, i, p);
    } else {
      assert MatchAt(s, i) == ScanFrom(s, i) && NoMatchBetween(s, i, i);
    }
  }

  /** A match at `p` ends a digit run that is followed by a dot and a digit. */
  lemma MatchShowsDigitDotDigit(s: string, p: nat)
    requires p < |s| && MatchAt(s, p).Some?
    ensures HasDigitDotDigit(s)
  {
    var j := RunEnd(s, p);
    assert IsDigit(s[p..j][j - 1 - p]);
    assert IsDigit(s[j - 1]) && s[j] == '.' && IsDigit(s[j + 1]);
  }

  /** A digit-dot-digit occurrence at `p` is matched at `p` itself. */
  lemma DigitDotDigitMatches(s: string, p: nat)
    requires p + 2 < |s| && IsDigit(s[p]) && s[p + 1] == '.' && IsDigit(s[p + 2])
    ensures MatchAt(s, p).Some?
  {
    assert RunEnd(s, p + 1) == p + 1;
  }

  /**
   * The parse fails exactly on non-strings and on strings with no
   * digit-dot-digit occurrence.
   */
  lemma ParseNoneIff(v: Value)
    ensures ParseVersionTriple(v).None? <==> !v.Str? || !HasDigitDotDigit(v.s)
  {
    if v.Str? {
      var s := v.s;
      if HasDigitDotDigit(s) {
        var p :| 0 <= p && p + 2 < |s| && IsDigit(s[p]) && s[p + 1] == '.' && IsDigit(s[p + 2]);
        DigitDotDigitMatches(s, p);
        ScanFromSome(s, 0, p);
      }
      if ScanFrom(s, 0).Some? {
        ScanFromFound(s, 0);
        var p :| 0 <= p < |s| && MatchAt(s, p) == ScanFrom(s, 0) && NoMatchBetween(s, 0, p);
        MatchShowsDigitDotDigit(s, p);
      }
    }
  }

  /** A successful parse is the regular expression's leftmost match. */
  lemma ParseIsLeftmostMatch(s: string, t: Triple)
    requires ParseVersionTriple(Str(s)) == Some(t)
    ensures exists p :: 0 <= p < |s| && MatchAt(s, p) == Some(t) && NoMatchBetween(s, 0, p)
  {
    ScanFromFound(s, 0);
  }

  /** The decimal digit character for `d`. */
  function DigitChar(d: nat): (c: char)
    requires d < 10
    ensures IsDigit(c) && c as int - '0' as int == d
  {
    ('0' as int + d) as char
  }

  /** The shortest decimal numeral of `n`, as `String(n)` writes it. */
  function Decimal(n: nat): (d: string)
    ensures d != [] && AllDigits(d)
  {
    if n < 10 then [DigitChar(n)] else Decimal(n / 10) + [DigitChar(n % 10)]
  }

  lemma {:induction false} DecimalRoundTrip(n: nat)
    ensures DecimalValue(Decimal(n)) == n
  {
    if n >= 10 {
      DecimalRoundTrip(n / 10);
      var d := Decimal(n);
      assert d[..|d| - 1] == Decimal(n / 10);
    }
  }

  lemma {:induction false} RunEndIs(s: string, i: nat, j: nat)
    requires i <= j <= |s| && AllDigits(s[i..j]) && (j == |s| || !IsDigit(s[j]))
    ensures RunEnd(s, i) == j
    decreases j - i
  {
    if i < j {
      assert IsDigit(s[i..j][0]);
      assert s[i + 1..j] == s[i..j][1..];
      RunEndIs(s, i + 1, j);
    }
  }

  lemma {:induction false} ScanSkip(s: string, i: nat, p: nat)
    requires i <= p <= |s|
    requires forall k :: i <= k < p ==> !IsDigit(s[k])
    ensures ScanFrom(s, i) == ScanFrom(s, p)
    decreases p - i
  {
    if i < p {
      assert RunEnd(s, i) == i;
      ScanSkip(s, i + 1, p);
    }
  }

  /** A range spec written out: an operator, `x.y`, an optional `.z`, and a tail. */
  function Render(op: string, x: nat, y: nat, z: Option<nat>, tail: string): string
  {
    op + Decimal(x) + "." + Decimal(y) + ((if z.Some? then "." + Decimal(z.value) else "") + tail)
  }

  /**
   * The operator holds no digit, and the tail cannot extend the numeral before
   * it: it does not start with a digit, nor (without a patch) with a dot and a digit.
   */
  predicate Delimited(op: string, z: Option<nat>, tail: string)
  {
    && (forall k :: 0 <= k < |op| ==> !IsDigit(op[k]))
    && (tail == [] || !IsDigit(tail[0]))
    && (z.None? && |tail| >= 2 ==> !(tail[0] == '.' && IsDigit(tail[1])))
  }

  /**
   * Parsing a rendered range spec gives back its numbers, with a missing
   * patch read as 0.
   */
  lemma ParseRendered(op: string, x: nat, y: nat, z: Option<nat>, tail: string)
    requires Delimited(op, z, tail)
    ensures ParseVersionTriple(Str(Render(op, x, y, z, tail)))
         == Some([x, y, if z.Some? then z.value else 0])
  {
    var s := Render(op, x, y, z, tail);
    RenderedMatch(op, x, y, z, tail);
    ScanSkip(s, 0, |op|);
    assert ScanFrom(s, |op|) == MatchAt(s, |op|);
  }

  /** A rendered spec matches where its major number starts, and nowhere before. */
  lemma RenderedMatch(op: string, x: nat, y: nat, z: Option<nat>, tail: string)
    requires Delimited(op, z, tail)
    ensures var s := Render(op, x, y, z, tail);
      && |op| < |s| && (forall k :: 0 <= k < |op| ==> !IsDigit(s[k]))
      && MatchAt(s, |op|) == Some([x, y, if z.Some? then z.value else 0])
  {
    var s := Render(op, x, y, z, tail);
    var j := |op| + |Decimal(x)|;
    var k := j + 1 + |Decimal(y)|;
    RenderLayout(op, x, y, z, tail);
    LaidOutMatch(s, |op|, j, k, x, y, z, tail);
    NoDigitBefore(s, op);
  }

  /** Where the operator, the two numbers and the rest sit in a rendered spec. */
  lemma RenderLayout(op: string, x: nat, y: nat, z: Option<nat>, tail: string)
    ensures var s, j := Render(op, x, y, z, tail), |op| + |Decimal(x)|;
      var k := j + 1 + |Decimal(y)|;
      && |op| < j < k <= |s| && s[..|op|] == op && s[|op|..j] == Decimal(x) && s[j] == '.'
      && s[j + 1..k] == Decimal(y) && s[k..] == (if z.Some? then "." + Decimal(z.value) else "") + tail
  {
    Layout(op, Decimal(x), Decimal(y), (if z.Some? then "." + Decimal(z.value) else "") + tail);
  }

  /** A string that starts with a digit-free operator has no digit before the operator's end. */
  lemma NoDigitBefore(s: string, op: string)
    requires |op| <= |s| && s[..|op|] == op
    requires forall k :: 0 <= k < |op| ==> !IsDigit(op[k])
    ensures forall k :: 0 <= k < |op| ==> !IsDigit(s[k])
  {
    assert forall k :: 0 <= k < |op| ==> s[k] == op[k];
  }

  /** The match at `a` when `x.y`, the optional `.z` and the tail are laid out from `a` on. */
  lemma LaidOutMatch(s: string, a: nat, j: nat, k: nat, x: nat, y: nat, z: Option<nat>, tail: string)
    requires a <= j < k <= |s|
    requires s[a..j] == Decimal(x) && s[j] == '.' && s[j + 1..k] == Decimal(y)
    requires s[k..] == (if z.Some? then "." + Decimal(z.value) else "") + tail
    requires tail == [] || !IsDigit(tail[0])
    requires z.None? && |tail| >= 2 ==> !(tail[0] == '.' && IsDigit(tail[1]))
    ensures MatchAt(s, a) == Some([x, y, if z.Some? then z.value else 0])
  {
    assert AllDigits(s[a..j]) && AllDigits(s[j + 1..k]);
    RenderedPatch(s, k, z, tail);
    DecimalRoundTrip(x);
    DecimalRoundTrip(y);
    MatchAtRun(s, a, j, k, x, y, if z.Some? then z.value else 0);
  }

  /** Where the pieces of `op + dx + "." + dy + rest` sit. */
  lemma Layout(op: string, dx: string, dy: string, rest: string)
    ensures var s, j := op + dx + "." + dy + rest, |op| + |dx|;
      && s[..|op|] == op && s[|op|..j] == dx && s[j] == '.'
      && s[j + 1..j + 1 + |dy|] == dy && s[j + 1 + |dy|..] == rest
  {
    assert op + dx + "." + dy + rest == op + (dx + ("." + (dy + rest)));
  }

  lemma MatchAtRun(s: string, a: nat, j: nat, k: nat, x: nat, y: nat, z: nat)
    requires a < j && j + 1 < k <= |s|
    requires AllDigits(s[a..j]) && s[j] == '.' && AllDigits(s[j + 1..k])
    requires k == |s| || !IsDigit(s[k])
    requires DecimalValue(s[a..j]) == x && DecimalValue(s[j + 1..k]) == y && PatchAt(s, k) == z
    ensures MatchAt(s, a) == Some([x, y, z])
  {
    RunEndIs(s, a, j);
    assert IsDigit(s[j + 1..k][0]);
    RunEndIs(s, j + 1, k);
  }

  /** The optional patch of a rendered spec, and the character that ends the minor number. */
  lemma RenderedPatch(s: string, k: nat, z: Option<nat>, tail: string)
    requires k <= |s| && s[k..] == (if z.Some? then "." + Decimal(z.value) else "") + tail
    requires tail == [] || !IsDigit(tail[0])
    requires z.None? && |tail| >= 2 ==> !(tail[0] == '.' && IsDigit(tail[1]))
    ensures PatchAt(s, k) == (if z.Some? then z.value else 0)
    ensures k == |s| || !IsDigit(s[k])
  {
    if z.Some? {
      PatchRendered(s, k, z.value, tail);
      assert s[k] == s[k..][0] == '.';
    } else {
      assert s[k..] == tail;
    }
  }

  lemma PatchRendered(s: string, k: nat, z: nat, tail: string)
    requires k <= |s| && s[k..] == "." + Decimal(z) + tail
    requires tail == [] || !IsDigit(tail[0])
    ensures PatchAt(s, k) == z
  {
    var d := Decimal(z);
    var e := k + 1 + |d|;
    var t := s[k..];
    assert |t| == |s| - k == 1 + |d| + |tail|;
    forall m | 0 <= m < |d| ensures s[k + 1 + m] == d[m] {
      assert s[k + 1 + m] == t[1 + m];
    }
    assert s[k] == t[0] == '.' && IsDigit(s[k + 1]);
    assert s[k + 1..e] == d;
    assert e == |s| || s[e] == tail[0];
    RunEndIs(s, k + 1, e);
    DecimalRoundTrip(z);
  }

  /** `"^1.2.3"` gives [1,2,3]. */
  lemma ExampleCaret()
    ensures ParseVersionTriple(Str("^1.2.3")) == Some([1, 2, 3])
  {
    ParseRendered("^", 1, 2, Some(3), "");
    assert Render("^", 1, 2, Some(3), "") == "^1.2.3";
  }

  /** `"~2.0.0"` gives [2,0,0]. */
  lemma ExampleTilde()
    ensures ParseVersionTriple(Str("~2.0.0")) == Some([2, 0, 0])
  {
    ParseRendered("~", 2, 0, Some(0), "");
    assert Render("~", 2, 0, Some(0), "") == "~2.0.0";
  }

  /** `"1.2"` gives [1,2,0]: the missing patch reads as 0. */
  lemma ExampleNoPatch()
    ensures ParseVersionTriple(Str("1.2")) == Some([1, 2, 0])
  {
    ParseRendered("", 1, 2, None, "");
    assert Render("", 1, 2, None, "") == "1.2";
  }

  /** `">=1.2.3"` gives [1,2,3]. */
  lemma ExampleComparator()
    ensures ParseVersionTriple(Str(">=1.2.3")) == Some([1, 2, 3])
  {
    ParseRendered(">=", 1, 2, Some(3), "");
    assert Render(">=", 1, 2, Some(3), "") == ">=1.2.3";
  }
}
