/**
 The masks of internal/markdown/mentions.go beside two rules of CommonMark 0.31.2 that they relax: section 6.1 closes
 a code span on a run of equal width only, and section 4.5 closes a fence only on a line with nothing but white space
 behind the marker.
 */
module CommonMark {
  import opened CodeSpanMask
  import FenceMask

  // ---------- Code spans ----------

  /** Where the first run of exactly `width` backticks at or after i ends, or -1. */
  function EqualEnd(s: string, i: nat, width: nat): (c: int)
    requires i <= |s| && width > 0
    ensures c == -1 || i + width <= c <= |s|
    decreases |s| - i
  {
    if i == |s| then -1
    else if s[i] != TICK then EqualEnd(s, i + 1, width)
    else var e := TickEnd(s, i); if e - i == width then e else EqualEnd(s, e, width)
  }

  function EqualEndOf(s: string, i: nat): int
    requires i < |s| && s[i] == TICK
  {
    EqualEnd(s, TickEnd(s, i), TickEnd(s, i) - i)
  }

  /** The spans at or after i that close on a run as wide as the one that opens them. */
  function EqualSpans(s: string, i: nat): (spans: seq<Span>)
    requires i <= |s|
    decreases |s| - i
  {
    if i == |s| then []
    else if s[i] != TICK then EqualSpans(s, i + 1)
    else if EqualEndOf(s, i) >= 0 then [Span(i, EqualEndOf(s, i))] + EqualSpans(s, EqualEndOf(s, i))
    else EqualSpans(s, TickEnd(s, i))
  }

  /** The width of the run that ends at e. */
  function RunBefore(s: string, e: nat): nat
    requires e <= |s|
  {
    if e > 0 && s[e - 1] == TICK then RunBefore(s, e - 1) + 1 else 0
  }

  /** The run that closes the span is as wide as the one that opens it. */
  predicate ClosesEvenly(s: string, span: Span) {
    span.from < span.to <= |s| && RunBefore(s, span.to) == TickEnd(s, span.from) - span.from
  }

  /** i is not inside a run. */
  predicate Edge(s: string, i: nat) {
    i < |s| && s[i] == TICK ==> RunStart(s, i)
  }

  lemma {:induction false} RunBeforeIs(s: string, i: nat, e: nat)
    requires i <= e <= |s| && (i > 0 ==> s[i - 1] != TICK) && forall k :: i <= k < e ==> s[k] == TICK
    ensures RunBefore(s, e) == e - i
    decreases e
  {
    if i < e {
      RunBeforeIs(s, i, e - 1);
    }
  }

  /** The scan of the mask and the scan for an equal run end alike exactly when the run that is found is equal. */
  lemma {:induction false} SameEnd(s: string, i: nat, width: nat)
    requires i <= |s| && width > 0 && Edge(s, i)
    ensures var c := CloseEnd(s, i, width);
            if c < 0 then EqualEnd(s, i, width) == -1 else EqualEnd(s, i, width) == c <==> RunBefore(s, c) == width
    decreases |s| - i
  {
    hide RunBefore;
    if i < |s| {
      if s[i] != TICK {
        SameEnd(s, i + 1, width);
      } else {
        var e := TickEnd(s, i);
        RunBeforeIs(s, i, e);
        if e - i < width {
          SameEnd(s, e, width);
        }
      }
    }
  }

  lemma {:induction false} EqualSpansFrom(s: string, i: nat)
    requires i <= |s|
    ensures EqualSpans(s, i) != [] ==> EqualSpans(s, i)[0].from >= i
    decreases |s| - i
  {
    if i < |s| {
      if s[i] != TICK {
        EqualSpansFrom(s, i + 1);
      } else if EqualEndOf(s, i) < 0 {
        EqualSpansFrom(s, TickEnd(s, i));
      }
    }
  }

  predicate AllEven(s: string, spans: seq<Span>) {
    forall j :: 0 <= j < |spans| ==> ClosesEvenly(s, spans[j])
  }

  lemma ConsEven(s: string, span: Span, spans: seq<Span>)
    ensures AllEven(s, [span] + spans) <==> ClosesEvenly(s, span) && AllEven(s, spans)
  {
    var all := [span] + spans;
    assert all[0] == span;
    assert forall j :: 0 <= j < |spans| ==> all[j + 1] == spans[j];
    assert forall j :: 1 <= j < |all| ==> all[j] == spans[j - 1];
  }

  lemma SpansUnfold(s: string, i: nat)
    requires i < |s|
    ensures s[i] != TICK ==> Spans(s, i) == Spans(s, i + 1)
    ensures s[i] == TICK ==>
              Spans(s, i) ==
              if Opens(s, i) then [Span(i, Next(s, i))] + Spans(s, Next(s, i)) else Spans(s, TickEnd(s, i))
  {
  }

  lemma EqualSpansUnfold(s: string, i: nat)
    requires i < |s|
    ensures s[i] != TICK ==> EqualSpans(s, i) == EqualSpans(s, i + 1)
    ensures s[i] == TICK ==>
              var c := EqualEndOf(s, i);
              EqualSpans(s, i) == if c >= 0 then [Span(i, c)] + EqualSpans(s, c) else EqualSpans(s, TickEnd(s, i))
  {
  }

  /** The run at i opens a span for the mask; the span closes evenly exactly when the equal-run rule has it too. */
  lemma SameSpan(s: string, i: nat)
    requires i < |s| && RunStart(s, i) && Opens(s, i)
    ensures ClosesEvenly(s, Span(i, Next(s, i))) <==> EqualEndOf(s, i) == Next(s, i)
    ensures Edge(s, Next(s, i))
  {
    hide RunBefore, EqualEnd;
    var e := TickEnd(s, i);
    SameEnd(s, e, e - i);
    if Next(s, i) < |s| {
      CloseEndsRun(s, e, e - i);
    }
  }

  /** A run that opens no span for the mask opens none for the equal-run rule. */
  lemma NoSpan(s: string, i: nat)
    requires i < |s| && s[i] == TICK && !Opens(s, i)
    ensures EqualEndOf(s, i) == -1
  {
    hide RunBefore, EqualEnd;
    SameEnd(s, TickEnd(s, i), TickEnd(s, i) - i);
  }

  lemma {:induction false} SpansAgreeFrom(s: string, i: nat)
    requires i <= |s| && Edge(s, i)
    ensures Spans(s, i) == EqualSpans(s, i) <==> AllEven(s, Spans(s, i))
    decreases |s| - i
  {
    if i == |s| {
      NoneIsUneven(s);
    } else {
      hide Spans, EqualSpans, AllEven, RunBefore, CloseEnd, EqualEnd, EqualEndOf, Opens, ClosesEvenly;
      SpansUnfold(s, i);
      EqualSpansUnfold(s, i);
      if s[i] != TICK {
        SpansAgreeFrom(s, i + 1);
      } else if !Opens(s, i) {
        NoSpan(s, i);
        SpansAgreeFrom(s, TickEnd(s, i));
      } else {
        var c := Next(s, i);
        SameSpan(s, i);
        SpansAgreeFrom(s, c);
        ConsEven(s, Span(i, c), Spans(s, c));
        EqualSpansFrom(s, TickEnd(s, i));
        if EqualEndOf(s, i) >= 0 {
          ConsSame(Span(i, c), Spans(s, c), Span(i, EqualEndOf(s, i)), EqualSpans(s, EqualEndOf(s, i)));
        }
      }
    }
  }

  lemma ConsSame(a: Span, more: seq<Span>, b: Span, bs: seq<Span>)
    ensures [a] + more == [b] + bs <==> a == b && more == bs
  {
    if [a] + more == [b] + bs {
      assert a == ([a] + more)[0] && b == ([b] + bs)[0];
      assert more == ([a] + more)[1..] && bs == ([b] + bs)[1..];
    }
  }

  lemma NoneIsUneven(s: string)
    ensures AllEven(s, [])
  {
  }

  /** The mask takes the spans of the equal-run rule exactly when every span it takes closes on an equal run. */
  lemma SpansAgree(s: string)
    ensures Spans(s, 0) == EqualSpans(s, 0) <==> AllEven(s, Spans(s, 0))
  {
    SpansAgreeFrom(s, 0);
  }

  /** The mask ends this span at the double run; the equal-run rule takes it to the last backtick. */
  lemma SpansDiffer()
    ensures Spans("`a``b`", 0) == [Span(0, 4)] && EqualSpans("`a``b`", 0) == [Span(0, 6)]
  {
    var s := "`a``b`";
    TickEndIs(s, 0, 1);
    TickEndIs(s, 2, 4);
    TickEndIs(s, 5, 6);
    assert CloseEnd(s, 6, 1) == -1;
    assert Spans(s, 4) == Spans(s, 5) == Spans(s, 6) == [];
    assert EqualEnd(s, 4, 1) == EqualEnd(s, 5, 1) == 6;
    assert EqualEnd(s, 1, 1) == EqualEnd(s, 2, 1) == EqualEnd(s, 4, 1);
    assert EqualSpans(s, 6) == [];
  }

  // ---------- Fences ----------

  /** Nothing but white space follows the marker of the line. */
  predicate Bare(line: string) {
    var start := FenceMask.Indent(line, 0);
    start < |line| && forall k :: FenceMask.RunEnd(line, line[start], start) <= k < |line| ==> line[k] in {' ', '\t'}
  }

  function LineAt(s: string, a: nat): string
    requires a <= |s|
  {
    s[a..FenceMask.LineEnd(s, a)]
  }

  /** The marker of the fence that is open where the line at a starts, when only bare markers close. */
  function BareStateAt(s: string, a: nat): string
    requires a <= |s|
    decreases a
  {
    if a == 0 then ""
    else
      var p := FenceMask.StartOf(s, a - 1);
      var open := BareStateAt(s, p);
      if open != "" && !Bare(LineAt(s, p)) then open else FenceMask.Toggle(open, FenceMask.MarkerAt(s, p))
  }

  /** The line at p closes a fence, and another line follows it. */
  predicate ClosesAt(s: string, p: nat) {
    && FenceMask.LineStart(s, p) && FenceMask.LineEnd(s, p) < |s|
    && FenceMask.Closes(FenceMask.StateAt(s, p), FenceMask.MarkerAt(s, p))
  }

  lemma LineBefore(s: string, a: nat)
    requires FenceMask.LineStart(s, a) && a > 0
    ensures var p := FenceMask.StartOf(s, a - 1); FenceMask.LineStart(s, p) && FenceMask.LineEnd(s, p) == a - 1
  {
    FenceMask.StartOfIs(s, a - 1);
    LineEndAt(s, FenceMask.StartOf(s, a - 1), a - 1);
  }

  lemma LineEndAt(s: string, p: nat, e: nat)
    requires p <= e < |s| && s[e] == '\n' && forall k :: p <= k < e ==> s[k] != '\n'
    ensures FenceMask.LineEnd(s, p) == e
    decreases e - p
  {
    if p < e {
      LineEndAt(s, p + 1, e);
    }
  }

  lemma {:induction false} BareAgrees(s: string, a: nat)
    requires FenceMask.LineStart(s, a) && forall p: nat :: p < a && ClosesAt(s, p) ==> Bare(LineAt(s, p))
    ensures BareStateAt(s, a) == FenceMask.StateAt(s, a)
    decreases a
  {
    hide Bare, FenceMask.MarkerOf, FenceMask.Closes;
    if a > 0 {
      var p := FenceMask.StartOf(s, a - 1);
      LineBefore(s, a);
      BareAgrees(s, p);
      assert !ClosesAt(s, p) ==> FenceMask.StateAt(s, p) != "" ==> FenceMask.StateAt(s, a) == FenceMask.StateAt(s, p);
    }
  }

  /** The mask has the fences of the stricter rule open exactly when every line that closes one, the last of the
   text apart, is bare. */
  lemma FencesAgree(s: string)
    ensures (forall a: nat :: FenceMask.LineStart(s, a) ==> BareStateAt(s, a) == FenceMask.StateAt(s, a)) <==>
            forall p: nat :: ClosesAt(s, p) ==> Bare(LineAt(s, p))
  {
    hide Bare, FenceMask.MarkerOf, BareStateAt, FenceMask.StateAt;
    if forall p: nat :: ClosesAt(s, p) ==> Bare(LineAt(s, p)) {
      forall a: nat | FenceMask.LineStart(s, a) ensures BareStateAt(s, a) == FenceMask.StateAt(s, a) {
        BareAgrees(s, a);
      }
    }
    forall p: nat | ClosesAt(s, p) && !Bare(LineAt(s, p))
      ensures exists a: nat :: FenceMask.LineStart(s, a) && BareStateAt(s, a) != FenceMask.StateAt(s, a)
    {
      var a := FenceMask.LineEnd(s, p) + 1;
      FenceMask.LineEndIs(s, p);
      assert FenceMask.LineStart(s, a) && FenceMask.LineStart(s, p);
      if BareStateAt(s, p) == FenceMask.StateAt(s, p) {
        ClosingLine(s, p);
      }
    }
  }

  /** After a closing line that is not bare the two rules differ, if they do not before it. */
  lemma ClosingLine(s: string, p: nat)
    requires ClosesAt(s, p) && !Bare(LineAt(s, p)) && BareStateAt(s, p) == FenceMask.StateAt(s, p)
    ensures BareStateAt(s, FenceMask.LineEnd(s, p) + 1) != FenceMask.StateAt(s, FenceMask.LineEnd(s, p) + 1)
  {
    hide Bare, FenceMask.MarkerOf;
    var e := FenceMask.LineEnd(s, p);
    FenceMask.LineEndIs(s, p);
    FenceMask.StartIs(s, p, e);
  }

  /** After this closing line with text behind its marker the mask is outside of the fence, the stricter rule inside. */
  lemma FencesDiffer()
    ensures FenceMask.StateAt("```\n``` y\n", 10) == "" && BareStateAt("```\n``` y\n", 10) == "```"
  {
    var s := "```\n``` y\n";
    LineEndAt(s, 0, 3);
    LineEndAt(s, 4, 9);
    FenceMask.StartIs(s, 0, 3);
    FenceMask.StartIs(s, 4, 9);
    assert LineAt(s, 0) == "```" && LineAt(s, 4) == "``` y";
    FenceMask.MarkerMeaning(LineAt(s, 0), 0, '`', 3);
    FenceMask.MarkerMeaning(LineAt(s, 4), 0, '`', 3);
    FenceMask.IndentIs(LineAt(s, 4), 0, 0);
    FenceMask.RunEndIs(LineAt(s, 4), '`', 0, 3);
    assert FenceMask.MarkerAt(s, 0) == "```" && FenceMask.MarkerAt(s, 4) == "```";
    assert LineAt(s, 4)[4] == 'y' && !Bare(LineAt(s, 4));
    assert FenceMask.StateAt(s, 4) == "```" && BareStateAt(s, 4) == "```";
  }
}
