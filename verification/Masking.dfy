/**
 What the three masks of a message body have in common: they keep the length, they
 write nothing but spaces, and where a masked stretch begins or ends next to text
 that was kept, the text there cannot be part of a mention.
 */
module Masking {

  function Spaces(n: nat): (s: string)
    ensures |s| == n
    ensures forall i :: 0 <= i < n ==> s[i] == ' '
  {
    seq(n, i => ' ')
  }

  function Blanked(s: string, from: nat, to: nat): (t: string)
    requires from <= to <= |s|
    ensures |t| == |s|
    ensures forall k :: 0 <= k < |s| ==> t[k] == if from <= k < to then ' ' else s[k]
  {
    s[..from] + Spaces(to - from) + s[to..]
  }

  method BlankRange(b: array<char>, from: nat, to: nat)
    requires from <= to <= b.Length
    modifies b
    ensures b[..] == Blanked(old(b[..]), from, to)
  {
    for i := from to to
      invariant forall k :: 0 <= k < b.Length ==> b[k] == if from <= k < i then ' ' else old(b[k])
    {
      b[i] := ' ';
    }
  }

  /** Two neighbouring characters a, b of the text, and a', b' in their place. */
  predicate Boundary(a: char, a': char, b: char, b': char) {
    && (a != a' && b == b' ==> a == '`' || a == ')' || b == ' ' || b == '\n')
    && (a == a' && b != b' ==> b == '`' || b == ']' || a == ' ' || a == '\n')
  }

  ghost predicate CleanMask(s: string, t: string) {
    && |t| == |s|
    && (forall i :: 0 <= i < |s| ==> t[i] == s[i] || t[i] == ' ')
    && (forall i :: 0 < i < |s| ==> Boundary(s[i - 1], t[i - 1], s[i], t[i]))
  }
}
