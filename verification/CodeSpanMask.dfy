/**
 Masking of code spans (internal/markdown/mentions.go, maskCodeSpans and findTickRun).
 A span closes on the first later run of backticks that is at least as wide as the run that opened it.
 */
module CodeSpanMask {
  import opened Masking

  const TICK := '`'

  // ---------- The mask as a function of the text ----------

  function TickEnd(s: string, i: nat): (e: nat)
    requires i <= |s|
    ensures i <= e <= |s|
    ensures forall k :: i <= k < e ==> s[k] == TICK
    ensures e < |s| ==> s[e] != TICK
    decreases |s| - i
  {
    if i < |s| && s[i] == TICK then TickEnd(s, i + 1) else i
  }

  /** Where the first run of at least `width` backticks at or after i ends, or -1. */
  function CloseEnd(s: string, i: nat, width: nat): (c: int)
    requires i <= |s| && width > 0
    ensures c == -1 || i + width <= c <= |s|
    decreases |s| - i
  {
    if i == |s| then -1
    else if s[i] != TICK then CloseEnd(s, i + 1, width)
    else var e := TickEnd(s, i); if e - i >= width then e else CloseEnd(s, e, width)
  }

  /** The character or run at i stays as it is, unless it is a run that opens a span. */
  predicate Opens(s: string, i: nat)
    requires i < |s|
  {
    s[i] == TICK && CloseEnd(s, TickEnd(s, i), TickEnd(s, i) - i) >= 0
  }

  /** Where masking goes on after the character, run or span at i. */
  function Next(s: string, i: nat): (n: nat)
    requires i < |s|
    ensures i < n <= |s|
  {
    if s[i] != TICK then i + 1
    else if Opens(s, i) then CloseEnd(s, TickEnd(s, i), TickEnd(s, i) - i)
    else TickEnd(s, i)
  }

  /** The masked text from i on. */
  function MaskedFrom(s: string, i: nat): (t: string)
    requires i <= |s|
    ensures |t| == |s| - i
    decreases |s| - i
  {
    if i == |s| then ""
    else
      var n := Next(s, i);
      (if Opens(s, i) then Spaces(n - i) else s[i..n]) + MaskedFrom(s, n)
  }

  function Masked(s: string): (t: string)
    ensures |t| == |s|
  {
    MaskedFrom(s, 0)
  }

  /** Masking s into t comes past i: no run or span reaches across. */
  ghost predicate Reached(s: string, t: string, i: nat) {
    i <= |s| == |t| && t[i..] == MaskedFrom(s, i)
  }

  ghost predicate Step(s: string, t: string, i: nat, n: nat)
    requires i < n <= |s| == |t|
  {
    forall k :: i <= k < n ==> t[k] == if Opens(s, i) then ' ' else s[k]
  }

  lemma Walk(s: string, t: string, i: nat)
    requires Reached(s, t, i) && i < |s|
    ensures Step(s, t, i, Next(s, i)) && Reached(s, t, Next(s, i))
  {
    var n := Next(s, i);
    var head, rest := if Opens(s, i) then Spaces(n - i) else s[i..n], MaskedFrom(s, n);
    assert t[i..] == head + rest;
    forall k | i <= k < n ensures t[k] == head[k - i] { assert t[k] == t[i..][k - i]; }
    assert t[n..] == t[i..][n - i..] == rest;
  }

  lemma Start(s: string)
    ensures Reached(s, Masked(s), 0)
  {
    assert Masked(s)[0..] == Masked(s);
  }

  // ---------- The loops ----------

  lemma TickEndIs(s: string, i: nat, e: nat)
    requires i <= e <= |s| && (forall k :: i <= k < e ==> s[k] == TICK) && (e < |s| ==> s[e] != TICK)
    ensures TickEnd(s, i) == e
    decreases e - i
  {
    if i < e { TickEndIs(s, i + 1, e); }
  }

  method FindTickRun(b: array<char>, from: nat, width: nat) returns (end: int)
    requires from <= b.Length && width > 0
    ensures end == CloseEnd(b[..], from, width)
  {
    ghost var text := b[..];
    var i := from;
    while i < b.Length
      invariant from <= i <= b.Length
      invariant CloseEnd(text, from, width) == CloseEnd(text, i, width)
    {
      if b[i] != TICK {
        i := i + 1;
        continue;
      }
      var start := i;
      while i < b.Length && b[i] == TICK
        invariant start <= i <= b.Length
        invariant forall k :: start <= k < i ==> text[k] == TICK
        invariant start == i ==> text[start] == TICK
        decreases b.Length - i
      {
        i := i + 1;
      }
      TickEndIs(text, start, i);
      if i - start >= width {
        return i;
      }
    }
    return -1;
  }

  /** A scan only looks ahead. */
  lemma {:induction false} CloseEndLooksAhead(s: string, t: string, i: nat, width: nat)
    requires |s| == |t| && i <= |s| && width > 0
    requires forall k :: i <= k < |s| ==> s[k] == t[k]
    ensures CloseEnd(s, i, width) == CloseEnd(t, i, width)
    decreases |s| - i
  {
    if i < |s| {
      if s[i] == TICK {
        TickEndIs(t, i, TickEnd(s, i));
        CloseEndLooksAhead(s, t, TickEnd(s, i), width);
      } else {
        CloseEndLooksAhead(s, t, i + 1, width);
      }
    }
  }

  /** The part before i is done, the rest is untouched, and `failed` runs survive before i. */
  ghost predicate MaskedTo(s: string, out: string, i: nat, failed: nat) {
    && i <= |s| == |out| && Reached(s, Masked(s), i)
    && (forall k :: 0 <= k < i ==> out[k] == Masked(s)[k])
    && (forall k :: i <= k < |s| ==> out[k] == s[k])
    && failed + |Runs(Masked(s), i)| == |Runs(Masked(s), 0)|
  }

  lemma StartMask(s: string, out: string)
    requires |out| == |s| && forall k :: 0 <= k < |s| ==> out[k] == s[k]
    ensures MaskedTo(s, out, 0, 0)
  {
    Start(s);
  }

  lemma MaskDone(s: string, out: string, failed: nat)
    requires MaskedTo(s, out, |s|, failed)
    ensures out == Masked(s) && failed == |Runs(out, 0)|
  {
  }

  /** One turn of the loop: a character passes, a run survives or a span is blanked. */
  lemma MaskStep(s: string, out: string, i: nat, failed: nat)
    requires MaskedTo(s, out, i, failed) && i < |s|
    ensures out[i] == s[i]
    ensures s[i] != TICK ==> MaskedTo(s, out, i + 1, failed)
    ensures s[i] == TICK && !Opens(s, i) ==> MaskedTo(s, out, Next(s, i), failed + 1)
    ensures |out| == |s|
    ensures s[i] == TICK && Opens(s, i) ==> MaskedTo(s, Blanked(out, i, Next(s, i)), Next(s, i), failed)
  {
    Walk(s, Masked(s), i);
    RunsStep(s, Masked(s), i);
  }

  lemma SpanFound(s: string, out: string, i: nat, failed: nat, e: nat, width: nat, c: int)
    requires MaskedTo(s, out, i, failed) && i < e <= |s| && width == e - i && c == CloseEnd(out, e, width)
    requires forall k :: i <= k < e ==> out[k] == TICK
    requires e < |s| ==> out[e] != TICK
    ensures s[i] == TICK && (Opens(s, i) <==> c >= 0)
    ensures Next(s, i) == if c < 0 then e else c
  {
    TickEndIs(s, i, e);
    CloseEndLooksAhead(s, out, e, width);
  }

  /** Masks the code spans of a body, and counts the scans that found no closing run. */
  method MaskCodeSpans(body: string) returns (masked: string, ghost failed: nat)
    ensures masked == Masked(body)
    ensures failed == |Runs(masked, 0)|
  {
    hide *;
    var out := new char[|body|](i requires 0 <= i < |body| => body[i]);
    failed := 0;
    var i := 0;
    StartMask(body, out[..]);
    while i < out.Length
      invariant i <= out.Length == |body| && MaskedTo(body, out[..], i, failed)
    {
      ghost var before := out[..];
      MaskStep(body, before, i, failed);
      if out[i] != TICK {
        i := i + 1;
        continue;
      }
      var start := i;
      while i < out.Length && out[i] == TICK
        invariant start <= i <= out.Length
        invariant start == i ==> before[start] == TICK
        invariant forall k :: start <= k < i ==> before[k] == TICK
        decreases out.Length - i
      {
        i := i + 1;
      }
      var width := i - start;
      var closeEnd := FindTickRun(out, i, width);
      SpanFound(body, before, start, failed, i, width, closeEnd);
      if closeEnd < 0 {
        failed := failed + 1;
        continue;
      }
      BlankRange(out, start, closeEnd);
      i := closeEnd;
    }
    masked := out[..];
    MaskDone(body, masked, failed);
  }

  // ---------- Which runs open a span ----------

  datatype Span = Span(from: nat, to: nat)

  /** The spans that masking takes at or after i. */
  function Spans(s: string, i: nat): (spans: seq<Span>)
    requires i <= |s|
    decreases |s| - i
  {
    if i == |s| then []
    else if Opens(s, i) then [Span(i, Next(s, i))] + Spans(s, Next(s, i))
    else Spans(s, Next(s, i))
  }

  predicate StartsAt(spans: seq<Span>, k: nat) {
    exists j :: 0 <= j < |spans| && spans[j].from == k
  }

  /** k lies in a span, and is not where it starts. */
  predicate Within(spans: seq<Span>, k: nat) {
    exists j :: 0 <= j < |spans| && spans[j].from < k < spans[j].to
  }

  predicate RunStart(s: string, k: nat) {
    k < |s| && s[k] == TICK && (k > 0 ==> s[k - 1] != TICK)
  }

  lemma ConsSpan(span: Span, spans: seq<Span>, k: nat)
    ensures StartsAt([span] + spans, k) <==> span.from == k || StartsAt(spans, k)
    ensures Within([span] + spans, k) <==> span.from < k < span.to || Within(spans, k)
  {
    var all := [span] + spans;
    assert all[0] == span;
    assert forall j :: 0 <= j < |spans| ==> all[j + 1] == spans[j];
    assert forall j :: 1 <= j < |all| ==> all[j] == spans[j - 1];
  }

  lemma {:induction false} SpansFrom(s: string, i: nat, k: nat)
    requires i <= |s|
    ensures StartsAt(Spans(s, i), k) ==> i <= k
    ensures Within(Spans(s, i), k) ==> i < k
    decreases |s| - i
  {
    hide StartsAt, Within;
    if i == |s| {
      NoSpans(k);
    } else {
      SpansFrom(s, Next(s, i), k);
      ConsSpan(Span(i, Next(s, i)), Spans(s, Next(s, i)), k);
    }
  }

  lemma NoSpans(k: nat)
    ensures !StartsAt([], k) && !Within([], k)
  {
  }

  lemma {:induction false} CloseEndsRun(s: string, i: nat, width: nat)
    requires i <= |s| && width > 0 && 0 <= CloseEnd(s, i, width) < |s|
    ensures s[CloseEnd(s, i, width)] != TICK
    decreases |s| - i
  {
    if s[i] != TICK {
      CloseEndsRun(s, i + 1, width);
    } else if TickEnd(s, i) - i < width {
      CloseEndsRun(s, TickEnd(s, i), width);
    }
  }

  lemma {:induction false} SpansExactlyFrom(s: string, i: nat, k: nat)
    requires i <= k < |s| && (s[i] == TICK ==> RunStart(s, i))
    ensures StartsAt(Spans(s, i), k) <==> RunStart(s, k) && Opens(s, k) && !Within(Spans(s, i), k)
    decreases |s| - i
  {
    hide StartsAt, Within;
    var n := Next(s, i);
    SpansFrom(s, n, k);
    ConsSpan(Span(i, n), Spans(s, n), k);
    if Opens(s, i) && n < |s| {
      CloseEndsRun(s, TickEnd(s, i), TickEnd(s, i) - i);
    }
    if k >= n {
      SpansExactlyFrom(s, n, k);
    }
  }

  /** A run opens a span exactly when it does not lie in an earlier one and a later run is at least as wide. */
  lemma SpansExactly(s: string, k: nat)
    requires k < |s|
    ensures StartsAt(Spans(s, 0), k) <==> RunStart(s, k) && Opens(s, k) && !Within(Spans(s, 0), k)
  {
    SpansExactlyFrom(s, 0, k);
  }

  /** A run of backticks from a to b, with none before or behind it. */
  predicate IsRun(s: string, a: int, b: int) {
    && 0 <= a < b <= |s| && (forall k :: a <= k < b ==> s[k] == '`')
    && (a > 0 ==> s[a - 1] != '`') && (b < |s| ==> s[b] != '`')
  }

  /** Every run that begins from a on and before b is narrower than width. */
  ghost predicate AllNarrower(s: string, a: int, b: int, width: int) {
    forall c, d :: a <= c < b && IsRun(s, c, d) ==> d - c < width
  }

  /** A run from `from` to a, and the first later run that is at least as wide, from b to `to`. */
  ghost predicate Pairs(s: string, from: int, a: int, b: int, to: int) {
    && IsRun(s, from, a) && a <= b && IsRun(s, b, to) && to - b >= a - from
    && AllNarrower(s, a, b, a - from)
  }

  lemma {:induction false} FirstWide(s: string, i: nat, width: nat) returns (b: nat)
    requires i <= |s| && width > 0 && (i < |s| && s[i] == TICK ==> RunStart(s, i))
    ensures var c := CloseEnd(s, i, width);
            if c < 0 then AllNarrower(s, i, |s|, width)
            else i <= b && IsRun(s, b, c) && c - b >= width && AllNarrower(s, i, b, width)
    decreases |s| - i
  {
    b := 0;
    if i < |s| {
      var e := if s[i] == TICK then TickEnd(s, i) else i + 1;
      if s[i] == TICK && e - i >= width {
        b := i;
      } else {
        b := FirstWide(s, e, width);
        forall c, d | i <= c < e && IsRun(s, c, d) ensures d - c < width {
          TickEndIs(s, i, if s[i] == TICK then e else i);
        }
      }
    }
  }

  lemma PairsExactly(s: string, from: nat, to: nat)
    ensures (exists a, b :: Pairs(s, from, a, b, to)) <==> RunStart(s, from) && Opens(s, from) && to == Next(s, from)
  {
    if RunStart(s, from) {
      var a := TickEnd(s, from);
      var b := FirstWide(s, a, a - from);
      if Opens(s, from) && to == Next(s, from) {
        assert Pairs(s, from, a, b, to);
      }
      forall a', b' | Pairs(s, from, a', b', to) ensures Opens(s, from) && to == Next(s, from) {
        TickEndIs(s, from, a');
        assert IsRun(s, b', to);
        if CloseEnd(s, a, a - from) >= 0 {
          assert IsRun(s, b, CloseEnd(s, a, a - from));
        }
      }
    }
  }

  lemma {:induction false} SpanEnds(s: string, i: nat)
    requires i <= |s|
    ensures forall span :: span in Spans(s, i) ==>
              i <= span.from < |s| && Opens(s, span.from) && span.to == Next(s, span.from)
    decreases |s| - i
  {
    if i < |s| {
      SpanEnds(s, Next(s, i));
    }
  }

  /**
   The spans on characters: a run and the first later run that is at least as wide make one exactly when the first
   of them does not lie in an earlier span.
   */
  lemma SpansOnCharacters(s: string, span: Span)
    ensures span in Spans(s, 0) <==>
            (exists a, b :: Pairs(s, span.from, a, b, span.to)) && !Within(Spans(s, 0), span.from)
  {
    hide Spans, Within, Opens, Next;
    PairsExactly(s, span.from, span.to);
    SpanEnds(s, 0);
    if span.from < |s| {
      SpansExactly(s, span.from);
    }
    if span in Spans(s, 0) {
      assert StartsAt(Spans(s, 0), span.from);
    }
  }

  lemma {:induction false} BlankedInSpans(s: string, t: string, i: nat, k: nat)
    requires Reached(s, t, i) && i <= k < |s|
    ensures t[k] == if StartsAt(Spans(s, i), k) || Within(Spans(s, i), k) then ' ' else s[k]
    decreases |s| - i
  {
    hide StartsAt, Within;
    var n := Next(s, i);
    Walk(s, t, i);
    SpansFrom(s, n, k);
    ConsSpan(Span(i, n), Spans(s, n), k);
    if k >= n {
      BlankedInSpans(s, t, n, k);
    }
  }

  /** Masking blanks exactly the characters of the spans. */
  lemma BlankedExactlyInSpans(s: string, k: nat)
    requires k < |s|
    ensures Masked(s)[k] == if StartsAt(Spans(s, 0), k) || Within(Spans(s, 0), k) then ' ' else s[k]
  {
    Start(s);
    BlankedInSpans(s, Masked(s), 0, k);
  }

  // ---------- Surviving runs ----------

  /** The widths of the maximal backtick runs of s at or after i, left to right. */
  function Runs(s: string, i: nat): (ws: seq<nat>)
    requires i <= |s|
    ensures forall k :: 0 <= k < |ws| ==> ws[k] > 0
    decreases |s| - i
  {
    if i == |s| then []
    else if s[i] != TICK then Runs(s, i + 1)
    else [TickEnd(s, i) - i] + Runs(s, TickEnd(s, i))
  }

  predicate StrictlyDecreasing(ws: seq<nat>) {
    forall i, j :: 0 <= i < j < |ws| ==> ws[i] > ws[j]
  }

  predicate AllBelow(ws: seq<nat>, bound: nat) {
    forall i :: 0 <= i < |ws| ==> ws[i] < bound
  }

  lemma {:induction false} NoRuns(s: string, i: nat, n: nat)
    requires i <= n <= |s| && forall k :: i <= k < n ==> s[k] != TICK
    ensures Runs(s, i) == Runs(s, n)
    decreases n - i
  {
    if i < n { NoRuns(s, i + 1, n); }
  }

  lemma ConsDecreasing(w: nat, ws: seq<nat>)
    ensures StrictlyDecreasing([w] + ws) <==> StrictlyDecreasing(ws) && AllBelow(ws, w)
  {
    var all := [w] + ws;
    if StrictlyDecreasing(all) {
      forall i | 0 <= i < |ws| ensures ws[i] < w { assert all[0] > all[i + 1]; }
      forall i, j | 0 <= i < j < |ws| ensures ws[i] > ws[j] { assert all[i + 1] > all[j + 1]; }
    }
  }

  lemma ConsBelow(w: nat, ws: seq<nat>, bound: nat)
    ensures AllBelow([w] + ws, bound) <==> w < bound && AllBelow(ws, bound)
  {
    var all := [w] + ws;
    if AllBelow(all, bound) {
      assert all[0] < bound;
      forall i | 0 <= i < |ws| ensures ws[i] < bound { assert all[i + 1] < bound; }
    }
  }

  /** A scan for a closing run fails exactly when every later run is narrower. */
  lemma {:induction false} CloseFails(s: string, i: nat, width: nat)
    requires i <= |s| && width > 0
    ensures CloseEnd(s, i, width) == -1 <==> AllBelow(Runs(s, i), width)
    decreases |s| - i
  {
    if i < |s| {
      if s[i] == TICK {
        var e := TickEnd(s, i);
        CloseFails(s, e, width);
        ConsBelow(e - i, Runs(s, e), width);
      } else {
        CloseFails(s, i + 1, width);
      }
    }
  }

  /** A scan that succeeds stops at the end of a run, and the runs after it are among those before. */
  lemma {:induction false} CloseLeavesRuns(s: string, i: nat, width: nat, bound: nat)
    requires i <= |s| && width > 0 && CloseEnd(s, i, width) >= 0
    ensures s[CloseEnd(s, i, width) - 1] == TICK
    ensures AllBelow(Runs(s, i), bound) ==> AllBelow(Runs(s, CloseEnd(s, i, width)), bound)
    decreases |s| - i
  {
    if s[i] == TICK {
      var e := TickEnd(s, i);
      ConsBelow(e - i, Runs(s, e), bound);
      if e - i < width { CloseLeavesRuns(s, e, width, bound); }
    } else {
      CloseLeavesRuns(s, i + 1, width, bound);
    }
  }

  /** A run survives exactly when no span opens with it. */
  lemma RunsStep(s: string, t: string, i: nat)
    requires Reached(s, t, i) && i < |s|
    ensures Runs(t, i) ==
            if s[i] == TICK && !Opens(s, i) then [Next(s, i) - i] + Runs(t, Next(s, i)) else Runs(t, Next(s, i))
  {
    var n := Next(s, i);
    Walk(s, t, i);
    if s[i] == TICK && !Opens(s, i) {
      if n < |s| { Walk(s, t, n); }
      TickEndIs(t, i, n);
    } else {
      NoRuns(t, i, n);
    }
  }

  lemma {:induction false} MaskedRunsBelow(s: string, t: string, i: nat, bound: nat)
    requires Reached(s, t, i) && AllBelow(Runs(s, i), bound)
    ensures AllBelow(Runs(t, i), bound)
    decreases |s| - i
  {
    if i < |s| {
      var n := Next(s, i);
      Walk(s, t, i);
      RunsStep(s, t, i);
      if s[i] == TICK {
        var e := TickEnd(s, i);
        ConsBelow(e - i, Runs(s, e), bound);
        if Opens(s, i) { CloseLeavesRuns(s, e, e - i, bound); }
      }
      MaskedRunsBelow(s, t, n, bound);
      ConsBelow(n - i, Runs(t, n), bound);
    }
  }

  lemma {:induction false} SurvivingRunsDecreaseFrom(s: string, t: string, i: nat)
    requires Reached(s, t, i)
    ensures StrictlyDecreasing(Runs(t, i))
    decreases |s| - i
  {
    if i < |s| {
      var n := Next(s, i);
      Walk(s, t, i);
      RunsStep(s, t, i);
      SurvivingRunsDecreaseFrom(s, t, n);
      if s[i] == TICK && !Opens(s, i) {
        CloseFails(s, n, n - i);
        MaskedRunsBelow(s, t, n, n - i);
        ConsDecreasing(n - i, Runs(t, n));
      }
    }
  }

  /** The runs that survive masking get strictly narrower from left to right. */
  lemma SurvivingRunsDecrease(s: string)
    ensures StrictlyDecreasing(Runs(Masked(s), 0))
  {
    Start(s);
    SurvivingRunsDecreaseFrom(s, Masked(s), 0);
  }

  lemma {:induction false} DecreasingRunsAreKept(s: string, t: string, i: nat)
    requires Reached(s, t, i) && StrictlyDecreasing(Runs(s, i))
    ensures forall k :: i <= k < |s| ==> t[k] == s[k]
    decreases |s| - i
  {
    if i < |s| {
      if s[i] == TICK {
        var e := TickEnd(s, i);
        ConsDecreasing(e - i, Runs(s, e));
        CloseFails(s, e, e - i);
      }
      Walk(s, t, i);
      DecreasingRunsAreKept(s, t, Next(s, i));
    }
  }

  /** A text is left alone exactly when its runs already get strictly narrower. */
  lemma FixedExactlyWhenDecreasing(s: string)
    ensures Masked(s) == s <==> StrictlyDecreasing(Runs(s, 0))
  {
    SurvivingRunsDecrease(s);
    Start(s);
    if StrictlyDecreasing(Runs(s, 0)) { DecreasingRunsAreKept(s, Masked(s), 0); }
  }

  lemma Idempotent(s: string)
    ensures Masked(Masked(s)) == Masked(s)
  {
    SurvivingRunsDecrease(s);
    FixedExactlyWhenDecreasing(Masked(s));
  }

  // ---------- How many runs can survive ----------

  function Sum(ws: seq<nat>): nat {
    if ws == [] then 0 else ws[0] + Sum(ws[1..])
  }

  lemma {:induction false} RunsFit(s: string, i: nat)
    requires i <= |s|
    ensures Sum(Runs(s, i)) <= |s| - i
    ensures |Runs(s, i)| > 0 ==> Sum(Runs(s, i)) + |Runs(s, i)| - 1 <= |s| - i
    decreases |s| - i
  {
    if i < |s| {
      if s[i] != TICK {
        RunsFit(s, i + 1);
      } else {
        var e := TickEnd(s, i);
        assert Runs(s, i)[1..] == Runs(s, e);
        if e < |s| { RunsFit(s, e + 1); }
      }
    }
  }

  lemma {:induction false} DecreasingSum(ws: seq<nat>)
    requires StrictlyDecreasing(ws) && forall k :: 0 <= k < |ws| ==> ws[k] > 0
    ensures |ws| > 0 ==> ws[0] >= |ws|
    ensures 2 * Sum(ws) >= |ws| * (|ws| + 1)
  {
    hide StrictlyDecreasing;
    if ws != [] {
      var rest := ws[1..];
      assert ws == [ws[0]] + rest;
      ConsDecreasing(ws[0], rest);
      DecreasingSum(rest);
      assert rest != [] ==> ws[0] > rest[0];
      Triangle(|rest|, Sum(rest), ws[0]);
    }
  }

  lemma Triangle(n: nat, sum: nat, w: nat)
    requires 2 * sum >= n * (n + 1) && w >= n + 1
    ensures 2 * (w + sum) >= (n + 1) * (n + 2)
  {
    assert (n + 1) * (n + 2) == n * (n + 1) + 2 * (n + 1);
  }

  /**
   The scans that fail are one per surviving run, and k of them need k(k+1)/2 backticks and k-1
   characters between them, so k grows like the square root of the length.
   */
  lemma SurvivingRunsBound(s: string)
    ensures var k := |Runs(Masked(s), 0)|; k >= 1 ==> k * (k + 1) / 2 + k - 1 <= |s|
  {
    SurvivingRunsDecrease(s);
    RunsFit(Masked(s), 0);
    DecreasingSum(Runs(Masked(s), 0));
  }

  // ---------- What masking does to the text around it ----------

  ghost predicate CleanFrom(s: string, t: string, i: nat) {
    && |t| == |s|
    && (forall k :: i <= k < |s| ==> t[k] == s[k] || t[k] == ' ')
    && (forall k :: i < k < |s| ==> Boundary(s[k - 1], t[k - 1], s[k], t[k]))
  }

  lemma {:induction false} CleanMaskFrom(s: string, t: string, i: nat)
    requires Reached(s, t, i)
    ensures CleanFrom(s, t, i)
    decreases |s| - i
  {
    if i < |s| {
      var n := Next(s, i);
      Walk(s, t, i);
      CleanMaskFrom(s, t, n);
      if Opens(s, i) { CloseLeavesRuns(s, TickEnd(s, i), TickEnd(s, i) - i, 0); }
      if n < |s| { Walk(s, t, n); }
      forall k | i < k < |s| ensures Boundary(s[k - 1], t[k - 1], s[k], t[k]) {}
    }
  }

  lemma IsCleanMask(s: string)
    ensures CleanMask(s, Masked(s))
  {
    Start(s);
    CleanMaskFrom(s, Masked(s), 0);
  }
}
