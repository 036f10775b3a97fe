/**
  The JavaScript string primitives the core relies on: `includes`,
  `indexOf`, `replace` with a string pattern, `startsWith` and `trim`.
  Strings are sequences of characters; a JavaScript replacement string is
  taken literally (no `$&`-style patterns are expanded).
 */
module Text {
  import opened Wrappers

  /** `s.startsWith(p)`. */
  predicate StartsWith(s: string, p: string) {
    |p| <= |s| && s[..|p|] == p
  }

  /** `p` occurs in `s` at index `i`. */
  ghost predicate OccursAt(s: string, p: string, i: int) {
    0 <= i && i + |p| <= |s| && s[i..i + |p|] == p
  }

  /** `s.includes(p)`. */
  ghost predicate Contains(s: string, p: string) {
    exists i :: OccursAt(s, p, i)
  }

  /** `i` is the first index at which `p` occurs in `s`. */
  ghost predicate FirstAt(s: string, p: string, i: int) {
    OccursAt(s, p, i) && forall j :: 0 <= j < i ==> !OccursAt(s, p, j)
  }

  /** The first occurrence of `p` in `s` at or after index `k`. */
  function IndexFrom(s: string, p: string, k: nat): (r: Option<nat>)
    ensures r.Some? ==> k <= r.value && OccursAt(s, p, r.value)
    ensures r.Some? ==> forall j :: k <= j < r.value ==> !OccursAt(s, p, j)
    ensures r.None? ==> forall j :: k <= j ==> !OccursAt(s, p, j)
    decreases |s| - k
  {
    if k + |p| > |s| then None
    else if s[k..k + |p|] == p then Some(k)
    else IndexFrom(s, p, k + 1)
  }

  /** `s.indexOf(p)`, with None for -1. */
  function IndexOf(s: string, p: string): (r: Option<nat>)
    ensures r.Some? <==> Contains(s, p)
    ensures r.Some? ==> FirstAt(s, p, r.value)
  {
    IndexFrom(s, p, 0)
  }

  /** `s.replace(p, rep)` for a string pattern: only the first occurrence is replaced. */
  function ReplaceFirst(s: string, p: string, rep: string): (r: string)
    ensures !Contains(s, p) ==> r == s
    ensures forall i :: FirstAt(s, p, i) ==> r == s[..i] + rep + s[i + |p|..]
  {
    match IndexOf(s, p)
    case None => s
    case Some(i) =>
      FirstUnique(s, p, i);
      s[..i] + rep + s[i + |p|..]
  }

  /** There is at most one first occurrence. */
  lemma FirstUnique(s: string, p: string, i: int)
    requires FirstAt(s, p, i)
    ensures forall j :: FirstAt(s, p, j) ==> j == i
  {
  }

  /** `x` placed into `s` just before index `i`. */
  function InsertAt(s: string, i: nat, x: string): (r: string)
    requires i <= |s|
    ensures |r| == |s| + |x|
    ensures r[i..i + |x|] == x
    ensures r[..i] + r[i + |x|..] == s
  {
    s[..i] + x + s[i..]
  }

  /** Replacing the first `p` by `x + p` inserts `x` just before that occurrence. */
  lemma ReplaceBeforeIsInsert(s: string, p: string, x: string, i: nat)
    requires FirstAt(s, p, i)
    ensures ReplaceFirst(s, p, x + p) == InsertAt(s, i, x)
  {
    assert s[i..] == s[i..i + |p|] + s[i + |p|..];
    assert s[..i] + (x + p) + s[i + |p|..] == s[..i] + x + (p + s[i + |p|..]);
  }

  /** `s` lacks a character `p` has, so `p` does not occur in `s`. */
  lemma MissingChar(s: string, p: string, k: nat)
    requires k < |p| && forall i :: 0 <= i < |s| ==> s[i] != p[k]
    ensures !Contains(s, p)
  {
    forall i | 0 <= i ensures !OccursAt(s, p, i) {
      if i + |p| <= |s| {
        assert s[i..i + |p|][k] == s[i + k];
      }
    }
  }

  lemma SliceOfSlice(s: string, a: nat, b: nat, i: nat, j: nat)
    requires a <= b <= |s| && i <= j <= b - a
    ensures s[a..b][i..j] == s[a + i..a + j]
  {
    forall k | 0 <= k < j - i ensures s[a..b][i..j][k] == s[a + i..a + j][k] {
      assert s[a..b][i..j][k] == s[a..b][i + k];
    }
  }

  /** `s` and `p` differ at index `k`, so `s` does not start with `p`. */
  lemma DiffersAt(s: string, p: string, k: nat)
    requires k < |p| && k < |s| && s[k] != p[k]
    ensures !StartsWith(s, p)
  {
    if |p| <= |s| {
      assert s[..|p|][k] == s[k];
    }
  }

  /**
    The characters `String.prototype.trim` removes: the ECMAScript
    WhiteSpace and LineTerminator code points.
   */
  predicate IsSpace(c: char) {
    || c == '\t' || c == '\n' || c == '\U{000B}' || c == '\U{000C}' || c == '\r'
    || c == ' ' || c == '\U{00A0}' || c == '\U{1680}'
    || ('\U{2000}' <= c <= '\U{200A}')
    || c == '\U{2028}' || c == '\U{2029}' || c == '\U{202F}' || c == '\U{205F}'
    || c == '\U{3000}' || c == '\U{FEFF}'
  }

  predicate AllSpace(s: string) {
    forall i :: 0 <= i < |s| ==> IsSpace(s[i])
  }

  /** Neither end of `s` is a trimmable character. */
  predicate Trimmed(s: string) {
    |s| == 0 || (!IsSpace(s[0]) && !IsSpace(s[|s| - 1]))
  }

  /** How many trimmable characters `s` starts with. */
  function LeadingSpaces(s: string): (n: nat)
    ensures n <= |s|
    ensures n < |s| ==> !IsSpace(s[n])
  {
    if |s| > 0 && IsSpace(s[0]) then 1 + LeadingSpaces(s[1..]) else 0
  }

  /** How many trimmable characters `s` ends with. */
  function TrailingSpaces(s: string): (n: nat)
    ensures n <= |s|
    ensures n < |s| ==> !IsSpace(s[|s| - n - 1])
  {
    if |s| > 0 && IsSpace(s[|s| - 1]) then 1 + TrailingSpaces(s[..|s| - 1]) else 0
  }

  /** The leading run `LeadingSpaces` counts is all trimmable. */
  lemma {:induction false} LeadingAllSpace(s: string)
    ensures AllSpace(s[..LeadingSpaces(s)])
    decreases |s|
  {
    if |s| > 0 && IsSpace(s[0]) {
      LeadingAllSpace(s[1..]);
      var n := LeadingSpaces(s[1..]);
      assert s[..n + 1] == [s[0]] + s[1..][..n];
    }
  }

  /** The trailing run `TrailingSpaces` counts is all trimmable. */
  lemma {:induction false} TrailingAllSpace(s: string)
    ensures AllSpace(s[|s| - TrailingSpaces(s)..])
    decreases |s|
  {
    if |s| > 0 && IsSpace(s[|s| - 1]) {
      var s' := s[..|s| - 1];
      TrailingAllSpace(s');
      var n := TrailingSpaces(s');
      assert s[|s| - (n + 1)..] == s'[|s'| - n..] + [s[|s| - 1]];
    }
  }

  /** `s.trim()`: drop leading, then trailing, trimmable characters. */
  function Trim(s: string): (r: string)
    ensures |r| <= |s|
  {
    var t := s[LeadingSpaces(s)..];
    t[..|t| - TrailingSpaces(t)]
  }

  /** `trim` leaves no trimmable character at either end. */
  lemma TrimTrimmed(s: string)
    ensures Trimmed(Trim(s))
  {
  }

  /** `trim` only removes characters from the two ends. */
  lemma TrimIsInfix(s: string)
    ensures exists a, b :: 0 <= a <= b <= |s| && Trim(s) == s[a..b] && AllSpace(s[..a]) && AllSpace(s[b..])
  {
    var a := LeadingSpaces(s);
    var t := s[a..];
    var b := a + |t| - TrailingSpaces(t);
    LeadingAllSpace(s);
    TrailingAllSpace(t);
    assert t[|t| - TrailingSpaces(t)..] == s[b..];
    assert Trim(s) == s[a..b];
  }

  /** A trimmed string is a fixed point of `trim`. */
  lemma TrimKeepsTrimmed(s: string)
    requires Trimmed(s)
    ensures Trim(s) == s
  {
  }

  /** Trailing trimmable characters after a trimmed string are all removed. */
  lemma {:induction false} TrimDropsTrailing(s: string, ws: string)
    requires Trimmed(s) && AllSpace(ws)
    ensures Trim(s + ws) == s
    decreases |ws|
  {
    if |s| == 0 {
      assert s + ws == ws;
      SpacesTrimToEmpty(ws);
    } else {
      assert LeadingSpaces(s + ws) == 0;
      TrailingAfter(s, ws);
    }
  }

  /** A string of trimmable characters trims to the empty string. */
  lemma {:induction false} SpacesTrimToEmpty(ws: string)
    requires AllSpace(ws)
    ensures Trim(ws) == ""
    decreases |ws|
  {
    if |ws| > 0 {
      assert ws[1..][..0] == [];
      SpacesTrimToEmpty(ws[1..]);
    }
  }

  lemma {:induction false} TrailingAfter(s: string, ws: string)
    requires |s| > 0 && !IsSpace(s[|s| - 1]) && AllSpace(ws)
    ensures TrailingSpaces(s + ws) == |ws|
    decreases |ws|
  {
    if |ws| > 0 {
      var w' := ws[..|ws| - 1];
      assert (s + ws)[..|s + ws| - 1] == s + w';
      TrailingAfter(s, w');
    } else {
      assert s + ws == s;
    }
  }

  /** `s.trim()` is empty exactly when every character of `s` is trimmable. */
  lemma TrimEmptyIffAllSpace(s: string)
    ensures Trim(s) == "" <==> AllSpace(s)
  {
    if Trim(s) == "" {
      TrimmedAwayIsSpace(s);
    }
    if AllSpace(s) {
      SpacesTrimToEmpty(s);
    }
  }

  lemma TrimmedAwayIsSpace(s: string)
    requires Trim(s) == ""
    ensures AllSpace(s)
  {
    TrimIsInfix(s);
    var a, b :| 0 <= a <= b <= |s| && Trim(s) == s[a..b] && AllSpace(s[..a]) && AllSpace(s[b..]);
    forall i | 0 <= i < |s| ensures IsSpace(s[i]) {
      if i < a {
        assert s[..a][i] == s[i];
      } else {
        assert s[b..][i - b] == s[i];
      }
    }
  }
}
