/**
 Blanking of link targets (internal/markdown/mentions.go, linkTargetRe): a right bracket, a left parenthesis
 and everything up to the next right parenthesis, if that comes before the line ends.
 */
module LinkMask {
  import opened Masking

  /** Past the right parenthesis that closes a target whose text starts at j, or -1. */
  function TargetEnd(s: string, j: nat): (e: int)
    requires j <= |s|
    ensures e == -1 || j < e <= |s|
    decreases |s| - j
  {
    if j == |s| || s[j] == '\n' then -1 else if s[j] == ')' then j + 1 else TargetEnd(s, j + 1)
  }

  /** Where the match that starts at i ends, or -1 when the pattern does not match there. */
  function MatchEnd(s: string, i: nat): (e: int)
    requires i < |s|
    ensures e == -1 || i + 2 < e <= |s|
  {
    if s[i] == ']' && i + 1 < |s| && s[i + 1] == '(' then TargetEnd(s, i + 2) else -1
  }

  function Next(s: string, i: nat): (n: nat)
    requires i < |s|
    ensures i < n <= |s|
  {
    if MatchEnd(s, i) < 0 then i + 1 else MatchEnd(s, i)
  }

  /** Replaces the matches at or after i, leftmost first and without overlap, by as many spaces. */
  function MaskedFrom(s: string, i: nat): (t: string)
    requires i <= |s|
    ensures |t| == |s| - i
    decreases |s| - i
  {
    if i == |s| then ""
    else
      var n := Next(s, i);
      (if MatchEnd(s, i) < 0 then [s[i]] else Spaces(n - i)) + MaskedFrom(s, n)
  }

  function Masked(s: string): (t: string)
    ensures |t| == |s|
  {
    MaskedFrom(s, 0)
  }

  ghost predicate Reached(s: string, t: string, i: nat) {
    i <= |s| == |t| && t[i..] == MaskedFrom(s, i)
  }

  lemma Walk(s: string, t: string, i: nat)
    requires Reached(s, t, i) && i < |s|
    ensures forall k :: i <= k < Next(s, i) ==> t[k] == if MatchEnd(s, i) < 0 then s[k] else ' '
    ensures Reached(s, t, Next(s, i))
  {
    var n := Next(s, i);
    var head, rest := if MatchEnd(s, i) < 0 then [s[i]] else Spaces(n - i), MaskedFrom(s, n);
    assert t[i..] == head + rest;
    forall k | i <= k < n ensures t[k] == head[k - i] { assert t[k] == t[i..][k - i]; }
    assert t[n..] == t[i..][n - i..] == rest;
  }

  lemma TargetEndIs(s: string, j: nat)
    requires j <= |s| && TargetEnd(s, j) >= 0
    ensures s[TargetEnd(s, j) - 1] == ')'
    ensures forall k :: j <= k < TargetEnd(s, j) ==> TargetEnd(s, k) == TargetEnd(s, j)
    decreases |s| - j
  {
    if s[j] != ')' { TargetEndIs(s, j + 1); }
  }

  /** Some match of the pattern, in whatever order matches are taken, covers k. */
  ghost predicate Covered(s: string, k: nat) {
    exists i: nat :: i <= k < |s| && k < MatchEnd(s, i)
  }

  lemma {:induction false} BlankedFrom(s: string, t: string, i: nat)
    requires Reached(s, t, i)
    requires forall j: nat :: j < i ==> MatchEnd(s, j) <= i
    ensures forall k :: i <= k < |s| ==> t[k] == if Covered(s, k) then ' ' else s[k]
    decreases |s| - i
  {
    if i < |s| {
      var n := Next(s, i);
      Walk(s, t, i);
      if MatchEnd(s, i) >= 0 { TargetEndIs(s, i + 2); }
      forall j: nat | j < n ensures MatchEnd(s, j) <= n {
        if j == i + 1 && MatchEnd(s, i) >= 0 { assert s[j] == '('; }
      }
      BlankedFrom(s, t, n);
      forall k | i <= k < n ensures t[k] == if Covered(s, k) then ' ' else s[k] {
        if MatchEnd(s, i) >= 0 { assert i <= k < MatchEnd(s, i); }
      }
    }
  }

  /** A character is blanked exactly when some match of the pattern covers it. */
  lemma BlankedExactlyWhenCovered(s: string, k: nat)
    requires k < |s|
    ensures Masked(s)[k] == if Covered(s, k) then ' ' else s[k]
  {
    assert Masked(s)[0..] == Masked(s);
    BlankedFrom(s, Masked(s), 0);
  }

  /** A link target on characters: `](`, and then a `)` with neither another nor a line end before it. */
  predicate IsTarget(s: string, i: int, e: int) {
    && 0 <= i && i + 2 <= e < |s| && s[i] == ']' && s[i + 1] == '(' && s[e] == ')'
    && forall j :: i + 2 <= j < e ==> s[j] != ')' && s[j] != '\n'
  }

  lemma {:induction false} TargetEndIsFirst(s: string, j: nat)
    requires j <= |s|
    ensures TargetEnd(s, j) >= 0 ==>
              var e := TargetEnd(s, j) - 1;
              s[e] == ')' && forall t :: j <= t < e ==> s[t] != ')' && s[t] != '\n'
    decreases |s| - j
  {
    if j < |s| && s[j] != '\n' && s[j] != ')' {
      TargetEndIsFirst(s, j + 1);
    }
  }

  lemma {:induction false} TargetEndAt(s: string, j: nat, e: nat)
    requires j <= e < |s| && s[e] == ')' && forall t :: j <= t < e ==> s[t] != ')' && s[t] != '\n'
    ensures TargetEnd(s, j) == e + 1
    decreases e - j
  {
    if j < e {
      TargetEndAt(s, j + 1, e);
    }
  }

  /** A character is blanked exactly when it lies in a link target, its bracket and parentheses included. */
  lemma BlankedExactlyInTargets(s: string, k: nat)
    requires k < |s|
    ensures Masked(s)[k] == if exists i, e :: IsTarget(s, i, e) && i <= k <= e then ' ' else s[k]
  {
    hide Masked, TargetEnd;
    BlankedExactlyWhenCovered(s, k);
    if Covered(s, k) {
      var i: nat :| i <= k < |s| && k < MatchEnd(s, i);
      TargetEndIsFirst(s, i + 2);
      assert IsTarget(s, i, MatchEnd(s, i) - 1);
    }
    forall i, e | IsTarget(s, i, e) && i <= k <= e ensures Covered(s, k) {
      TargetEndAt(s, i + 2, e);
      assert k < MatchEnd(s, i);
    }
  }

  ghost predicate CleanFrom(s: string, t: string, i: nat) {
    && |t| == |s|
    && (forall k :: i <= k < |s| ==> t[k] == s[k] || t[k] == ' ')
    && (forall k :: i < k < |s| ==> Boundary(s[k - 1], t[k - 1], s[k], t[k]))
  }

  lemma {:induction false} CleanMaskFrom(s: string, t: string, i: nat)
    requires Reached(s, t, i)
    ensures CleanFrom(s, t, i)
    decreases |s| - i
  {
    if i < |s| {
      var n := Next(s, i);
      Walk(s, t, i);
      CleanMaskFrom(s, t, n);
      if MatchEnd(s, i) >= 0 { TargetEndIs(s, i + 2); }
      if n < |s| { Walk(s, t, n); }
    }
  }

  lemma IsCleanMask(s: string)
    ensures CleanMask(s, Masked(s))
  {
    assert Masked(s)[0..] == Masked(s);
    CleanMaskFrom(s, Masked(s), 0);
  }
}
