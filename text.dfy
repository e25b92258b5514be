/**
 * Java text normalisation as used on every write path: `s.trim().replaceAll("\\s+", " ")`.
 * `String.trim` strips every leading and trailing character up to U+0020, while the regular
 * expression class `\s` matches only space, tab, newline, vertical tab, form feed and carriage
 * return; the two are modelled separately.
 */
module JavaText {

  /** Characters that `String.trim` removes from either end. */
  predicate IsTrimmable(c: char) {
    c <= ' '
  }

  /** Characters matched by the regular-expression class `\s`. */
  predicate IsSpace(c: char) {
    c == ' ' || c == '\t' || c == '\n' || c == '\r' || c as int == 11 || c as int == 12
  }

  /** Drops the leading run of trimmable characters. */
  function TrimLeading(s: string): (r: string)
    ensures |r| <= |s| && r == s[|s| - |r|..]
    ensures forall k :: 0 <= k < |s| - |r| ==> IsTrimmable(s[k])
    ensures r == [] || !IsTrimmable(r[0])
  {
    if s != [] && IsTrimmable(s[0]) then
      var r := TrimLeading(s[1..]);
      TrimLeadingStep(s, s[1..], r);
      r
    else
      assert s[0..] == s;
      s
  }

  /** One more trimmable character in front of `t` is one more character dropped. */
  lemma TrimLeadingStep(s: string, t: string, r: string)
    requires s != [] && IsTrimmable(s[0]) && t == s[1..]
    requires |r| <= |t| && r == t[|t| - |r|..]
    requires forall k :: 0 <= k < |t| - |r| ==> IsTrimmable(t[k])
    ensures |r| <= |s| && r == s[|s| - |r|..]
    ensures forall k :: 0 <= k < |s| - |r| ==> IsTrimmable(s[k])
  {
    assert t[|t| - |r|..] == s[|s| - |r|..];
    forall k | 0 < k < |s| - |r| ensures IsTrimmable(s[k]) {
      assert s[k] == t[k - 1];
    }
  }

  /** Drops the trailing run of trimmable characters. */
  function TrimTrailing(s: string): (r: string)
    ensures |r| <= |s| && r == s[..|r|]
    ensures forall k :: |r| <= k < |s| ==> IsTrimmable(s[k])
    ensures r == [] || !IsTrimmable(r[|r| - 1])
  {
    if s != [] && IsTrimmable(s[|s| - 1]) then TrimTrailing(s[..|s| - 1]) else s
  }

  /** `r` is the slice of `s` from `a` on, and everything of `s` before and after it is trimmable. */
  ghost predicate TrimmedAt(s: string, r: string, a: nat) {
    && a + |r| <= |s|
    && r == s[a..a + |r|]
    && (forall k :: 0 <= k < a ==> IsTrimmable(s[k]))
    && (forall k :: a + |r| <= k < |s| ==> IsTrimmable(s[k]))
  }

  /**
   * `String.trim()`: starts and ends visibly; TrimKeepsSlice states which slice of `s` it is,
   * and TrimmedSliceUnique that no other visibly-ended slice drops only trimmable ends.
   */
  function Trim(s: string): (r: string)
    ensures r == [] || (!IsTrimmable(r[0]) && !IsTrimmable(r[|r| - 1]))
    ensures (s == [] || (!IsTrimmable(s[0]) && !IsTrimmable(s[|s| - 1]))) ==> r == s
  {
    var l := TrimLeading(s);
    var r := TrimTrailing(l);
    TrimIsSlice(s, l, r);
    r
  }

  /** What `Trim` keeps: the slice after the leading trimmable run, with only trimmable characters dropped on either side. */
  lemma TrimKeepsSlice(s: string)
    ensures TrimmedAt(s, Trim(s), |s| - |TrimLeading(s)|)
  {
    TrimIsSlice(s, TrimLeading(s), TrimTrailing(TrimLeading(s)));
  }

  /** Dropping a trimmable prefix and then a trimmable suffix leaves a slice that drops only trimmable ends. */
  lemma TrimIsSlice(s: string, l: string, r: string)
    requires |l| <= |s| && l == s[|s| - |l|..] && forall k :: 0 <= k < |s| - |l| ==> IsTrimmable(s[k])
    requires |r| <= |l| && r == l[..|r|] && forall k :: |r| <= k < |l| ==> IsTrimmable(l[k])
    requires (l == [] || !IsTrimmable(l[0])) && (r == [] || !IsTrimmable(r[|r| - 1]))
    ensures TrimmedAt(s, r, |s| - |l|)
    ensures r == [] || (!IsTrimmable(r[0]) && !IsTrimmable(r[|r| - 1]))
    ensures (s == [] || (!IsTrimmable(s[0]) && !IsTrimmable(s[|s| - 1]))) ==> r == s
  {
    if r != [] {
      assert r[0] == l[0];
    }
    if s != [] && !IsTrimmable(s[0]) && !IsTrimmable(s[|s| - 1]) {
      assert |s| - |l| == 0;
      assert l == s;
      assert |l| - |r| == 0;
    }
    var a := |s| - |l|;
    assert r == s[a..a + |r|] by {
      forall k | 0 <= k < |r| ensures r[k] == s[a + k] {
        assert r[k] == l[k];
      }
    }
    forall k | a + |r| <= k < |s| ensures IsTrimmable(s[k]) {
      assert s[k] == l[k - a];
    }
    assert TrimmedAt(s, r, a);
  }

  /** Any two slices that drop only trimmable ends and start and end visibly are the same. */
  lemma TrimmedSliceUnique(s: string, r1: string, a1: nat, r2: string, a2: nat)
    requires TrimmedAt(s, r1, a1) && (r1 == [] || (!IsTrimmable(r1[0]) && !IsTrimmable(r1[|r1| - 1])))
    requires TrimmedAt(s, r2, a2) && (r2 == [] || (!IsTrimmable(r2[0]) && !IsTrimmable(r2[|r2| - 1])))
    ensures r1 == r2
  {
    if r1 != [] {
      assert s[a1] == r1[0] && s[a1 + |r1| - 1] == r1[|r1| - 1];
    }
    if r2 != [] {
      assert s[a2] == r2[0] && s[a2 + |r2| - 1] == r2[|r2| - 1];
    }
  }

  /** Drops the leading run of `\s` characters. */
  function SkipSpaces(s: string): (r: string)
    ensures |r| <= |s| && r == s[|s| - |r|..]
    ensures forall k :: 0 <= k < |s| - |r| ==> IsSpace(s[k])
    ensures r == [] || !IsSpace(r[0])
  {
    if s != [] && IsSpace(s[0]) then
      var r := SkipSpaces(s[1..]);
      SkipSpacesStep(s, s[1..], r);
      r
    else
      assert s[0..] == s;
      s
  }

  /** One more leading `\s` in front of `t` is one more character skipped. */
  lemma SkipSpacesStep(s: string, t: string, r: string)
    requires s != [] && IsSpace(s[0]) && t == s[1..]
    requires |r| <= |t| && r == t[|t| - |r|..]
    requires forall k :: 0 <= k < |t| - |r| ==> IsSpace(t[k])
    ensures |r| <= |s| && r == s[|s| - |r|..]
    ensures forall k :: 0 <= k < |s| - |r| ==> IsSpace(s[k])
  {
    assert t[|t| - |r|..] == s[|s| - |r|..];
    forall k | 0 < k < |s| - |r| ensures IsSpace(s[k]) {
      assert s[k] == t[k - 1];
    }
  }

  /**
   * What position `i` of `s` contributes when each run of `\s` is replaced by one space: the
   * first character of a run gives `" "`, the rest of the run nothing, any other character itself.
   */
  function RunPiece(s: string, i: nat): string
    requires i < |s|
  {
    if !IsSpace(s[i]) then [s[i]] else if i > 0 && IsSpace(s[i - 1]) then [] else " "
  }

  /** The pieces of positions `i` to the end of `s`, in order. */
  function Pieces(s: string, i: nat): string
    requires i <= |s|
    decreases |s| - i
  {
    if i == |s| then [] else RunPiece(s, i) + Pieces(s, i + 1)
  }

  /** `t` is `s` with its first `d` characters removed. */
  ghost predicate DropsFirst(s: string, t: string, d: nat) {
    |t| + d == |s| && forall k :: 0 <= k < |t| ==> t[k] == s[d + k]
  }

  /** From position `j` on, `s` contributes what its suffix from `d` contributes, unless a run crosses `d`. */
  lemma {:induction false} PiecesOfSuffix(s: string, t: string, d: nat, j: nat)
    requires DropsFirst(s, t, d) && d <= j <= |s|
    requires j == d ==> d == 0 || d == |s| || !IsSpace(s[d - 1]) || !IsSpace(s[d])
    ensures Pieces(s, j) == Pieces(t, j - d)
    decreases |s| - j
  {
    if j < |s| {
      RunPieceOfSuffix(s, t, d, j);
      PiecesOfSuffix(s, t, d, j + 1);
      assert Pieces(s, j) == RunPiece(s, j) + Pieces(s, j + 1);
      assert Pieces(t, j - d) == RunPiece(t, j - d) + Pieces(t, j - d + 1);
    }
  }

  lemma RunPieceOfSuffix(s: string, t: string, d: nat, j: nat)
    requires DropsFirst(s, t, d) && d <= j < |s|
    requires j == d ==> d == 0 || !IsSpace(s[d - 1]) || !IsSpace(s[d])
    ensures RunPiece(s, j) == RunPiece(t, j - d)
  {
    assert t[j - d] == s[j];
    if j > d {
      assert t[j - d - 1] == s[j - 1];
    }
  }

  /** After a `\s` at `i - 1`, `s` contributes from `i` what its suffix after the run contributes. */
  lemma {:induction false} PiecesAfterSpace(s: string, i: nat)
    requires 0 < i <= |s| && IsSpace(s[i - 1])
    ensures Pieces(s, i) == Pieces(SkipSpaces(s[i..]), 0)
    decreases |s| - i
  {
    if i == |s| {
      assert s[i..] == [];
    } else if IsSpace(s[i]) {
      assert s[i..][1..] == s[i + 1..];
      PiecesAfterSpace(s, i + 1);
    } else {
      PiecesOfSuffix(s, s[i..], i, i);
    }
  }

  /** `replaceAll("\\s+", " ")`: every maximal run of `\s` characters becomes one space. */
  function Collapse(s: string): (r: string)
    ensures |r| <= |s|
    ensures r == Pieces(s, 0)
    decreases |s|
  {
    if s == [] then []
    else if IsSpace(s[0]) then
      PiecesAfterSpace(s, 1);
      " " + Collapse(SkipSpaces(s[1..]))
    else
      PiecesOfSuffix(s, s[1..], 1, 1);
      [s[0]] + Collapse(s[1..])
  }

  /** The normalisation applied to message content and session titles: trim, then collapse. */
  function NormalizeText(s: string): (r: string)
    ensures r == Pieces(Trim(s), 0)
  {
    Collapse(Trim(s))
  }

  /** No `\s` character other than a single space between two other characters. */
  ghost predicate IsCollapsed(s: string) {
    && (forall i :: 0 <= i < |s| && IsSpace(s[i]) ==> s[i] == ' ')
    && (forall i, j :: 0 <= i < j < |s| && j == i + 1 ==> !(IsSpace(s[i]) && IsSpace(s[j])))
  }

  /** The shape of a normalised string: collapsed, and neither end trimmable. */
  ghost predicate IsNormalized(s: string) {
    IsCollapsed(s) && (s == [] || (!IsTrimmable(s[0]) && !IsTrimmable(s[|s| - 1])))
  }

  /** The characters above U+0020, in order: what normalisation never touches. */
  function Visible(s: string): (r: string)
    ensures |r| <= |s|
  {
    if s == [] then [] else (if IsTrimmable(s[0]) then [] else [s[0]]) + Visible(s[1..])
  }

  lemma {:induction false} VisibleAppend(a: string, b: string)
    ensures Visible(a + b) == Visible(a) + Visible(b)
    decreases |a|
  {
    if a == [] {
      assert a + b == b;
    } else {
      assert (a + b)[0] == a[0];
      assert (a + b)[1..] == a[1..] + b;
      VisibleAppend(a[1..], b);
    }
  }

  lemma {:induction false} VisibleOfTrimmable(s: string)
    requires forall k :: 0 <= k < |s| ==> IsTrimmable(s[k])
    ensures Visible(s) == []
    decreases |s|
  {
    if s != [] {
      VisibleOfTrimmable(s[1..]);
    }
  }

  lemma {:induction false} CollapseStartsWith(s: string)
    requires s != [] && !IsSpace(s[0])
    ensures Collapse(s) != [] && Collapse(s)[0] == s[0]
  {
  }

  lemma {:induction false} CollapseEndsWith(s: string)
    requires s != [] && !IsSpace(s[|s| - 1])
    ensures Collapse(s) != [] && Collapse(s)[|Collapse(s)| - 1] == s[|s| - 1]
    decreases |s|
  {
    if IsSpace(s[0]) {
      var t := SkipSpaces(s[1..]);
      assert t != [] && t[|t| - 1] == s[|s| - 1];
      CollapseEndsWith(t);
    } else if |s| > 1 {
      CollapseEndsWith(s[1..]);
    }
  }

  /** Putting a character in front of a collapsed string keeps it collapsed unless it starts a second `\s`. */
  lemma ConsIsCollapsed(x: char, c: string)
    requires IsCollapsed(c)
    requires IsSpace(x) ==> x == ' ' && (c == [] || !IsSpace(c[0]))
    ensures IsCollapsed([x] + c)
  {
    var t := [x] + c;
    forall i | 0 <= i < |t| && IsSpace(t[i]) ensures t[i] == ' ' {
      if i > 0 {
        assert t[i] == c[i - 1];
      }
    }
    forall i, j | 0 <= i < j < |t| && j == i + 1 ensures !(IsSpace(t[i]) && IsSpace(t[j])) {
      if i > 0 {
        assert t[i] == c[i - 1] && t[j] == c[j - 1];
      }
    }
  }

  lemma {:induction false} CollapseIsCollapsed(s: string)
    ensures IsCollapsed(Collapse(s))
    decreases |s|
  {
    if s == [] {
    } else if IsSpace(s[0]) {
      var t := SkipSpaces(s[1..]);
      CollapseIsCollapsed(t);
      if t != [] {
        CollapseStartsWith(t);
      }
      ConsIsCollapsed(' ', Collapse(t));
      assert Collapse(s) == [' '] + Collapse(t);
    } else {
      CollapseIsCollapsed(s[1..]);
      ConsIsCollapsed(s[0], Collapse(s[1..]));
      assert Collapse(s) == [s[0]] + Collapse(s[1..]);
    }
  }

  /** The tail of a collapsed string is collapsed, and after a `\s` comes none. */
  lemma CollapsedTail(s: string)
    requires IsCollapsed(s) && s != []
    ensures IsCollapsed(s[1..])
    ensures IsSpace(s[0]) && |s| > 1 ==> !IsSpace(s[1..][0])
  {
    var t := s[1..];
    forall i | 0 <= i < |t| && IsSpace(t[i]) ensures t[i] == ' ' {
      assert t[i] == s[i + 1];
    }
    forall i, j | 0 <= i < j < |t| && j == i + 1 ensures !(IsSpace(t[i]) && IsSpace(t[j])) {
      assert t[i] == s[i + 1] && t[j] == s[j + 1];
    }
    if IsSpace(s[0]) && |s| > 1 {
      assert t[0] == s[1];
    }
  }

  lemma {:induction false} CollapseFixpoint(s: string)
    requires IsCollapsed(s)
    ensures Collapse(s) == s
    decreases |s|
  {
    if s != [] {
      CollapsedTail(s);
      CollapseFixpoint(s[1..]);
      if IsSpace(s[0]) {
        assert SkipSpaces(s[1..]) == s[1..];
      }
      assert s == [s[0]] + s[1..];
    }
  }

  lemma {:induction false} CollapseKeepsVisible(s: string)
    ensures Visible(Collapse(s)) == Visible(s)
    decreases |s|
  {
    if s == [] {
    } else if IsSpace(s[0]) {
      var t := SkipSpaces(s[1..]);
      var skipped := s[1..][..|s[1..]| - |t|];
      assert s[1..] == skipped + t;
      VisibleOfTrimmable(skipped);
      VisibleAppend(skipped, t);
      CollapseKeepsVisible(t);
      assert (" " + Collapse(t))[1..] == Collapse(t);
    } else {
      CollapseKeepsVisible(s[1..]);
      assert ([s[0]] + Collapse(s[1..]))[1..] == Collapse(s[1..]);
    }
  }

  lemma TrimLeadingKeepsVisible(s: string)
    ensures Visible(TrimLeading(s)) == Visible(s)
  {
    var l := TrimLeading(s);
    var dropped := s[..|s| - |l|];
    assert s == dropped + l;
    VisibleOfTrimmable(dropped);
    VisibleAppend(dropped, l);
  }

  lemma TrimTrailingKeepsVisible(s: string)
    ensures Visible(TrimTrailing(s)) == Visible(s)
  {
    var r := TrimTrailing(s);
    var dropped := s[|r|..];
    assert s == r + dropped;
    VisibleOfTrimmable(dropped);
    VisibleAppend(r, dropped);
  }

  lemma TrimKeepsVisible(s: string)
    ensures Visible(Trim(s)) == Visible(s)
  {
    TrimLeadingKeepsVisible(s);
    TrimTrailingKeepsVisible(TrimLeading(s));
  }

  /** Normalisation only drops or rewrites characters up to U+0020: the visible text is kept. */
  lemma NormalizeKeepsVisible(s: string)
    ensures Visible(NormalizeText(s)) == Visible(s)
  {
    TrimKeepsVisible(s);
    CollapseKeepsVisible(Trim(s));
  }

  /** Every result of NormalizeText has the normalised shape. */
  lemma NormalizeIsNormalized(s: string)
    ensures IsNormalized(NormalizeText(s))
  {
    CollapseOfTrimmedIsNormalized(Trim(s));
  }

  lemma CollapseOfTrimmedIsNormalized(t: string)
    requires t == [] || (!IsTrimmable(t[0]) && !IsTrimmable(t[|t| - 1]))
    ensures IsNormalized(Collapse(t))
  {
    CollapseIsCollapsed(t);
    if t != [] {
      CollapseKeepsVisibleEnds(t);
    }
  }

  /** Ends above U+0020 are not `\s`, so collapsing keeps them as the ends of the result. */
  lemma CollapseKeepsVisibleEnds(t: string)
    requires t != [] && !IsTrimmable(t[0]) && !IsTrimmable(t[|t| - 1])
    ensures var c := Collapse(t); c != [] && c[0] == t[0] && c[|c| - 1] == t[|t| - 1]
  {
    assert !IsSpace(t[0]) && !IsSpace(t[|t| - 1]);
    CollapseStartsWith(t);
    CollapseEndsWith(t);
  }

  /** A string of the normalised shape is left unchanged. */
  lemma NormalizeFixpoint(s: string)
    requires IsNormalized(s)
    ensures NormalizeText(s) == s
  {
    CollapseFixpoint(s);
  }

  /** Exactly the normalised strings are fixed points of NormalizeText. */
  lemma NormalizeFixpointIff(s: string)
    ensures NormalizeText(s) == s <==> IsNormalized(s)
  {
    NormalizeIsNormalized(s);
    if IsNormalized(s) {
      NormalizeFixpoint(s);
    }
  }

  /** Normalising twice is the same as normalising once. */
  lemma NormalizeIdempotent(s: string)
    ensures NormalizeText(NormalizeText(s)) == NormalizeText(s)
  {
    NormalizeIsNormalized(s);
    NormalizeFixpoint(NormalizeText(s));
  }

  /** A normalised string holds no newline, tab or other `\s` character besides the space. */
  lemma NormalizedHasNoNewline(s: string)
    requires IsNormalized(s)
    ensures '\n' !in s
  {
    if '\n' in s {
      var i :| 0 <= i < |s| && s[i] == '\n';
      assert IsSpace(s[i]);
    }
  }
}
