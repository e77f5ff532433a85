/** Masking of fenced code blocks (internal/markdown/mentions.go, maskFences and fenceMarker). */
module FenceMask {
  import opened Masking

  const MIN_FENCE_MARKERS := 3

  // ---------- Lines ----------

  function LineEnd(s: string, pos: nat): (e: nat)
    requires pos <= |s|
    ensures pos <= e <= |s|
    decreases |s| - pos
  {
    if pos == |s| || s[pos] == '\n' then pos else LineEnd(s, pos + 1)
  }

  lemma LineEndIs(s: string, a: nat)
    requires a <= |s|
    ensures forall k :: a <= k < LineEnd(s, a) ==> s[k] != '\n'
    ensures LineEnd(s, a) < |s| ==> s[LineEnd(s, a)] == '\n'
    decreases |s| - a
  {
    if a < |s| && s[a] != '\n' { LineEndIs(s, a + 1); }
  }

  predicate LineStart(s: string, a: nat) {
    a <= |s| && (a > 0 ==> s[a - 1] == '\n')
  }

  /** Where the line that holds position i starts. */
  function StartOf(s: string, i: nat): (a: nat)
    requires i <= |s|
    ensures a <= i
  {
    if i == 0 || s[i - 1] == '\n' then i else StartOf(s, i - 1)
  }

  lemma StartOfIs(s: string, i: nat)
    requires i <= |s|
    ensures LineStart(s, StartOf(s, i))
    ensures forall k :: StartOf(s, i) <= k < i ==> s[k] != '\n'
    ensures forall c: nat :: StartOf(s, i) < c <= i ==> !LineStart(s, c)
  {
    if i > 0 && s[i - 1] != '\n' { StartOfIs(s, i - 1); }
  }

  lemma StartIs(s: string, a: nat, i: nat)
    requires LineStart(s, a) && a <= i <= |s| && forall k :: a <= k < i ==> s[k] != '\n'
    ensures StartOf(s, i) == a
  {
    if a < i { StartIs(s, a, i - 1); }
  }

  lemma SameLines(s: string, t: string, a: nat)
    requires a <= |s| == |t| && forall k :: 0 <= k < |s| ==> (s[k] == '\n' <==> t[k] == '\n')
    ensures LineStart(t, a) == LineStart(s, a) && LineEnd(t, a) == LineEnd(s, a)
    decreases |s| - a
  {
    if a < |s| { SameLines(s, t, a + 1); }
  }

  // ---------- Fence markers ----------

  predicate FenceChar(c: char) { c == '`' || c == '~' }

  function Indent(line: string, from: nat): (n: nat)
    requires from <= |line|
    ensures from <= n <= |line|
    decreases |line| - from
  {
    if from < |line| && from < 3 && line[from] == ' ' then Indent(line, from + 1) else from
  }

  function RunEnd(line: string, c: char, from: nat): (n: nat)
    requires from <= |line|
    ensures from <= n <= |line|
    decreases |line| - from
  {
    if from < |line| && line[from] == c then RunEnd(line, c, from + 1) else from
  }

  function MarkerOf(line: string): string {
    var start := Indent(line, 0);
    if start == |line| || !FenceChar(line[start]) then ""
    else
      var end := RunEnd(line, line[start], start);
      if end - start < MIN_FENCE_MARKERS then "" else line[start..end]
  }

  method FenceMarker(line: string) returns (marker: string)
    ensures marker == MarkerOf(line)
  {
    var start := 0;
    while start < |line| && start < 3 && line[start] == ' '
      invariant start <= |line| && Indent(line, start) == Indent(line, 0)
    {
      start := start + 1;
    }
    if start >= |line| || !FenceChar(line[start]) {
      return "";
    }
    var end := start;
    while end < |line| && line[end] == line[start]
      invariant start <= end <= |line|
      invariant RunEnd(line, line[start], end) == RunEnd(line, line[start], start)
    {
      end := end + 1;
    }
    if end - start < MIN_FENCE_MARKERS {
      return "";
    }
    return line[start..end];
  }

  lemma IndentIs(line: string, from: nat, n: nat)
    requires from <= n <= |line| && n <= 3 && (forall k :: from <= k < n ==> line[k] == ' ')
    requires n < |line| && n < 3 ==> line[n] != ' '
    ensures Indent(line, from) == n
    decreases n - from
  {
    if from < n { IndentIs(line, from + 1, n); }
  }

  lemma RunEndIs(line: string, c: char, from: nat, n: nat)
    requires from <= n <= |line| && (forall k :: from <= k < n ==> line[k] == c) && (n < |line| ==> line[n] != c)
    ensures RunEnd(line, c, from) == n
    decreases n - from
  {
    if from < n { RunEndIs(line, c, from + 1, n); }
  }

  /** A marker is three or more equal fence characters, as many as there are, after at most three spaces. */
  lemma MarkerMeaning(line: string, n: nat, c: char, width: nat)
    requires n <= 3 && FenceChar(c) && width > 0 && n + width <= |line|
    requires forall k :: 0 <= k < n ==> line[k] == ' '
    requires forall k :: n <= k < n + width ==> line[k] == c
    requires n + width < |line| ==> line[n + width] != c
    ensures MarkerOf(line) == if width >= MIN_FENCE_MARKERS then line[n..n + width] else ""
  {
    IndentIs(line, 0, n);
    RunEndIs(line, c, n, n + width);
  }

  /** After at most three spaces, w fence characters of one kind, and no more, at least three of them. */
  predicate IsMarker(line: string, n: int, w: int) {
    && 0 <= n <= 3 && 3 <= w && n + w <= |line| && (line[n] == '`' || line[n] == '~')
    && (forall k :: 0 <= k < n ==> line[k] == ' ') && (forall k :: n <= k < n + w ==> line[k] == line[n])
    && (n + w < |line| ==> line[n + w] != line[n])
  }

  lemma IndentOf(line: string, from: nat)
    requires from <= 3 && from <= |line|
    ensures Indent(line, from) <= 3 && forall k :: from <= k < Indent(line, from) ==> line[k] == ' '
    decreases 3 - from
  {
    if from < |line| && from < 3 && line[from] == ' ' { IndentOf(line, from + 1); }
  }

  lemma RunEndOf(line: string, c: char, from: nat)
    requires from <= |line|
    ensures forall k :: from <= k < RunEnd(line, c, from) ==> line[k] == c
    ensures RunEnd(line, c, from) < |line| ==> line[RunEnd(line, c, from)] != c
    decreases |line| - from
  {
    if from < |line| && line[from] == c { RunEndOf(line, c, from + 1); }
  }

  /** A line has a marker exactly when its characters make one, and then it is these characters. */
  lemma MarkerExactly(line: string, marker: string)
    requires marker != ""
    ensures MarkerOf(line) == marker <==> exists n, w :: IsMarker(line, n, w) && marker == line[n..n + w]
  {
    if MarkerOf(line) == marker {
      var n := Indent(line, 0);
      IndentOf(line, 0);
      RunEndOf(line, line[n], n);
      assert IsMarker(line, n, RunEnd(line, line[n], n) - n);
    }
    forall n, w | IsMarker(line, n, w) && marker == line[n..n + w] ensures MarkerOf(line) == marker {
      MarkerMeaning(line, n, line[n], w);
    }
  }

  // ---------- The mask as a function of the text ----------

  function MarkerAt(s: string, a: nat): string
    requires a <= |s|
  {
    MarkerOf(s[a..LineEnd(s, a)])
  }

  /** A fence closes on a marker of its own character that is at least as wide. */
  predicate Closes(open: string, marker: string) {
    open != "" && marker != "" && marker[0] == open[0] && |marker| >= |open|
  }

  function Toggle(open: string, marker: string): string {
    if open == "" then marker else if Closes(open, marker) then "" else open
  }

  /** The marker of the fence that is open where the line at a starts, or "". */
  function StateAt(s: string, a: nat): string
    requires a <= |s|
    decreases a
  {
    if a == 0 then "" else var p := StartOf(s, a - 1); Toggle(StateAt(s, p), MarkerAt(s, p))
  }

  predicate Hidden(s: string, a: nat)
    requires a <= |s|
  {
    StateAt(s, a) != "" || MarkerAt(s, a) != ""
  }

  function MaskedAt(s: string, k: nat): char
    requires k < |s|
  {
    if s[k] == '\n' || !Hidden(s, StartOf(s, k)) then s[k] else ' '
  }

  /** Every line that a fence hides, its marker lines included, becomes spaces. */
  function Masked(s: string): (t: string)
    ensures |t| == |s|
  {
    seq(|s|, k requires 0 <= k < |s| => MaskedAt(s, k))
  }

  // ---------- The loop ----------

  method FindLineEnd(s: string, from: nat) returns (end: nat)
    requires from <= |s|
    ensures end == LineEnd(s, from)
  {
    end := from;
    while end < |s| && s[end] != '\n'
      invariant from <= end <= |s| && LineEnd(s, from) == LineEnd(s, end)
    {
      end := end + 1;
    }
  }

  ghost predicate MaskedTo(s: string, out: string, i: nat) {
    && |out| == |s|
    && (forall k :: 0 <= k < i && k < |s| ==> out[k] == MaskedAt(s, k))
    && (forall k :: i <= k < |s| ==> out[k] == s[k])
  }

  method MaskFences(body: string) returns (masked: string)
    ensures masked == Masked(body)
  {
    hide *;
    var out := new char[|body|](i requires 0 <= i < |body| => body[i]);
    var open := "";
    var pos := 0;
    StartReady(body, out[..]);
    while pos <= |body|
      invariant pos <= |body| && Ready(body, out[..], pos, open)
      decreases |body| - pos
    {
      var end := FindLineEnd(body, pos);
      var marker := FenceMarker(body[pos..end]);
      LineStep(body, out[..], pos, end, open, marker);
      if open == "" {
        if marker != "" {
          open := marker;
          BlankRange(out, pos, end);
        }
      } else {
        BlankRange(out, pos, end);
        if Closes(open, marker) {
          open := "";
        }
      }
      AfterLine(body, out[..], end, open);
      if end == |body| {
        break;
      }
      pos := end + 1;
    }
    masked := out[..];
  }

  /** What the loop knows where a line starts. */
  ghost predicate Ready(s: string, out: string, pos: nat, open: string) {
    LineStart(s, pos) && open == StateAt(s, pos) && MaskedTo(s, out, pos)
  }

  lemma StartReady(s: string, out: string)
    requires |out| == |s| && forall k :: 0 <= k < |s| ==> out[k] == s[k]
    ensures Ready(s, out, 0, "")
  {
  }

  /** What it knows once the line that ends at e is done. */
  ghost predicate After(s: string, out: string, e: nat, open: string) {
    MaskedTo(s, out, e + 1) && (e < |s| ==> Ready(s, out, e + 1, open))
  }

  lemma AfterLine(s: string, out: string, e: nat, open: string)
    requires e <= |s| && After(s, out, e, open)
    ensures if e < |s| then Ready(s, out, e + 1, open) else out == Masked(s)
  {
  }

  /** The line at a: its characters are masked or kept together. */
  lemma LineOf(s: string, a: nat)
    requires LineStart(s, a)
    ensures forall k :: a <= k < LineEnd(s, a) ==> MaskedAt(s, k) == if Hidden(s, a) then ' ' else s[k]
  {
    LineEndIs(s, a);
    forall k | a <= k <= LineEnd(s, a) ensures StartOf(s, k) == a { StartIs(s, a, k); }
  }

  /** One turn of the loop: the line is masked and the open marker moves on. */
  lemma LineStep(s: string, out: string, a: nat, e: nat, open: string, marker: string)
    requires a <= |s| && e == LineEnd(s, a) && marker == MarkerOf(s[a..e]) && Ready(s, out, a, open)
    ensures |out| == |s|
    ensures open == "" && marker == "" ==> After(s, out, e, open)
    ensures open == "" && marker != "" ==> After(s, Blanked(out, a, e), e, marker)
    ensures open != "" ==> After(s, Blanked(out, a, e), e, if Closes(open, marker) then "" else open)
  {
    hide MarkerOf;
    LineOf(s, a);
    if e < |s| { NextState(s, a, e); }
    Fill(s, out, a, e, Hidden(s, a));
  }

  lemma Fill(s: string, out: string, a: nat, e: nat, hidden: bool)
    requires a <= e <= |s| && MaskedTo(s, out, a) && (e < |s| ==> MaskedAt(s, e) == s[e])
    requires forall k :: a <= k < e ==> MaskedAt(s, k) == if hidden then ' ' else s[k]
    ensures MaskedTo(s, if hidden then Blanked(out, a, e) else out, e + 1)
  {
    hide MaskedAt;
  }

  lemma NextState(s: string, a: nat, e: nat)
    requires LineStart(s, a) && e == LineEnd(s, a) < |s|
    ensures StateAt(s, e + 1) == Toggle(StateAt(s, a), MarkerAt(s, a)) && MaskedAt(s, e) == '\n'
  {
    hide MarkerOf;
    LineEndIs(s, a);
    StartIs(s, a, e);
  }

  // ---------- What the mask leaves ----------

  lemma SpacesHaveNoMarker(line: string)
    requires forall k :: 0 <= k < |line| ==> line[k] == ' '
    ensures MarkerOf(line) == ""
  {
  }

  /** No line of the result opens or closes a fence. */
  lemma NoMarkerIsLeft(s: string, a: nat)
    requires LineStart(s, a)
    ensures MarkerAt(Masked(s), a) == ""
  {
    hide MarkerOf, StateAt, MaskedAt;
    NewlinesStay(s);
    SameLines(s, Masked(s), a);
    MaskedLine(s, a);
    if Hidden(s, a) {
      SpacesHaveNoMarker(Masked(s)[a..LineEnd(s, a)]);
    }
  }

  lemma NewlinesStay(s: string)
    ensures forall k :: 0 <= k < |s| ==> (s[k] == '\n' <==> Masked(s)[k] == '\n')
  {
    hide Hidden;
  }

  /** A line of the result is all spaces, or as it was. */
  lemma MaskedLine(s: string, a: nat)
    requires LineStart(s, a)
    ensures var line := Masked(s)[a..LineEnd(s, a)];
            if Hidden(s, a) then forall k :: 0 <= k < |line| ==> line[k] == ' ' else line == s[a..LineEnd(s, a)]
  {
    hide Hidden, MaskedAt;
    LineOf(s, a);
  }

  lemma {:induction false} NothingOpens(s: string, a: nat)
    requires LineStart(s, a) && forall p :: LineStart(s, p) ==> MarkerAt(s, p) == ""
    ensures StateAt(s, a) == ""
    decreases a
  {
    if a > 0 {
      StartOfIs(s, a - 1);
      NothingOpens(s, StartOf(s, a - 1));
    }
  }

  lemma Idempotent(s: string)
    ensures Masked(Masked(s)) == Masked(s)
  {
    var t := Masked(s);
    forall a | LineStart(t, a) ensures MarkerAt(t, a) == "" {
      SameLines(s, t, a);
      NoMarkerIsLeft(s, a);
    }
    forall k | 0 <= k < |t| ensures MaskedAt(t, k) == t[k] {
      StartOfIs(t, k);
      NothingOpens(t, StartOf(t, k));
    }
  }

  predicate Opener(s: string, o: nat) {
    LineStart(s, o) && StateAt(s, o) == "" && MarkerAt(s, o) != ""
  }

  /** o opens a fence, and no line between o and a has a marker of the same character that is at least as wide. */
  ghost predicate Encloses(s: string, o: nat, a: nat)
    requires a <= |s|
  {
    && o <= a && Opener(s, o)
    && forall c: nat :: o < c < a && LineStart(s, c) ==> !AsWide(MarkerAt(s, o), MarkerAt(s, c))
  }

  predicate AsWide(open: string, marker: string) {
    |open| > 0 && |marker| >= |open| && marker[0] == open[0]
  }

  lemma {:induction false} OpenSince(s: string, o: nat, a: nat)
    requires LineStart(s, a) && o < a && Encloses(s, o, a)
    ensures StateAt(s, a) == MarkerAt(s, o)
    decreases a
  {
    hide MarkerOf;
    StartOfIs(s, a - 1);
    var p := StartOf(s, a - 1);
    if p > o { OpenSince(s, o, p); }
  }

  lemma {:induction false} OpenedBy(s: string, a: nat) returns (o: nat)
    requires LineStart(s, a) && StateAt(s, a) != ""
    ensures o < a && Encloses(s, o, a) && StateAt(s, a) == MarkerAt(s, o)
    decreases a
  {
    hide MarkerOf;
    var p := StartOf(s, a - 1);
    StartOfIs(s, a - 1);
    o := p;
    if StateAt(s, p) != "" { o := OpenedBy(s, p); }
  }

  /**
   A line is hidden exactly when some line at or above it opens a fence that no line in between closes;
   the closing line is hidden with the block, and a fence that is never closed hides the rest.
   */
  lemma HiddenExactlyInsideFences(s: string, a: nat)
    requires LineStart(s, a)
    ensures Hidden(s, a) <==> exists o: nat :: Encloses(s, o, a)
  {
    if Hidden(s, a) {
      if StateAt(s, a) != "" {
        var o := OpenedBy(s, a);
      } else {
        assert Encloses(s, a, a);
      }
    }
    forall o: nat | Encloses(s, o, a) ensures Hidden(s, a) {
      if o < a { OpenSince(s, o, a); }
    }
  }

  /** A line opens a fence exactly when it has a marker and lies in no fence that an earlier line opens. */
  lemma OpensExactly(s: string, o: nat)
    requires LineStart(s, o)
    ensures Opener(s, o) <==> MarkerAt(s, o) != "" && !exists p: nat :: p < o && Encloses(s, p, o)
  {
    hide MarkerOf;
    if StateAt(s, o) != "" {
      var p := OpenedBy(s, o);
    }
    forall p: nat | p < o && Encloses(s, p, o) ensures !Opener(s, o) {
      OpenSince(s, p, o);
    }
  }

  /**
   The mask on characters: of the line at a, the character at k becomes a space exactly when a fence encloses the
   line; line ends stay.
   */
  lemma BlankedExactlyInFences(s: string, a: nat, k: nat)
    requires LineStart(s, a) && a <= k < |s| && forall j :: a <= j < k ==> s[j] != '\n'
    ensures Masked(s)[k] == if s[k] != '\n' && exists o: nat :: Encloses(s, o, a) then ' ' else s[k]
  {
    hide Hidden, Encloses;
    HiddenExactlyInsideFences(s, a);
    StartIs(s, a, k);
  }

  lemma IsCleanMask(s: string)
    ensures CleanMask(s, Masked(s))
  {
    var t := Masked(s);
    hide Hidden;
    forall k | 0 < k < |s| ensures Boundary(s[k - 1], t[k - 1], s[k], t[k]) {
      if s[k - 1] != '\n' { assert StartOf(s, k) == StartOf(s, k - 1); }
    }
  }
}
