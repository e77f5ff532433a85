/**
 The mention scan (internal/markdown/mentions.go, Mentions and maskUnscannable): what the three masks leave
 is searched for `@handle`, and the handles found are lowered, checked and kept once each.
 */
module Mentions {
  import opened Masking
  import FenceMask
  import CodeSpanMask
  import LinkMask

  const MAX_HANDLE_LEN := 32
  const CHANNEL_KEYWORD := "channel"

  // ---------- The pattern (?i)(^|\W)@([a-z0-9][a-z0-9_-]*) ----------

  predicate Alnum(c: char) {
    'a' <= c <= 'z' || 'A' <= c <= 'Z' || '0' <= c <= '9'
  }

  predicate Word(c: char) { Alnum(c) || c == '_' }

  predicate HandleChar(c: char) { Word(c) || c == '-' }

  function HandleEnd(s: string, i: nat): (e: nat)
    requires i <= |s|
    ensures i <= e <= |s|
    decreases |s| - i
  {
    if i < |s| && HandleChar(s[i]) then HandleEnd(s, i + 1) else i
  }

  /**
   A mention at i. The character before it is part of the match, so it must be free: not the end
   of the match before, which matters after a handle that ends in a hyphen.
   */
  predicate MentionAt(s: string, i: nat, free: bool)
    requires i < |s|
  {
    && s[i] == '@' && (i == 0 || (free && !Word(s[i - 1])))
    && i + 1 < |s| && Alnum(s[i + 1])
  }

  datatype Match = Match(at: nat, handle: string)

  /** The matches at or after i, leftmost first and without overlap. */
  function Scan(s: string, i: nat, free: bool): (ms: seq<Match>)
    requires i <= |s|
    decreases |s| - i
  {
    if i == |s| then []
    else if MentionAt(s, i, free) then
      var e := HandleEnd(s, i + 1);
      [Match(i, s[i + 1..e])] + Scan(s, e, false)
    else Scan(s, i + 1, true)
  }

  predicate FoundAt(ms: seq<Match>, k: nat) {
    exists j :: 0 <= j < |ms| && ms[j].at == k
  }

  function EndOf(m: Match): nat {
    m.at + 1 + |m.handle|
  }

  predicate EndsAt(ms: seq<Match>, k: nat) {
    exists j :: 0 <= j < |ms| && EndOf(ms[j]) == k
  }

  lemma ConsFound(m: Match, ms: seq<Match>, k: nat)
    ensures FoundAt([m] + ms, k) <==> m.at == k || FoundAt(ms, k)
    ensures EndsAt([m] + ms, k) <==> EndOf(m) == k || EndsAt(ms, k)
  {
    var all := [m] + ms;
    assert all[0] == m;
    assert forall j :: 0 <= j < |ms| ==> all[j + 1] == ms[j];
    assert forall j :: 1 <= j < |all| ==> all[j] == ms[j - 1];
  }

  /** The match has the whole of its handle. */
  predicate Whole(s: string, m: Match) {
    m.at < |s| && EndOf(m) == HandleEnd(s, m.at + 1) && m.handle == s[m.at + 1..EndOf(m)]
  }

  lemma {:induction false} FoundWhole(s: string, i: nat, free: bool)
    requires i <= |s|
    ensures forall m :: m in Scan(s, i, free) ==> i <= m.at && Whole(s, m)
    decreases |s| - i
  {
    if i < |s| {
      FoundWhole(s, if MentionAt(s, i, free) then HandleEnd(s, i + 1) else i + 1, !MentionAt(s, i, free));
    }
  }

  lemma FoundFrom(s: string, i: nat, free: bool, k: nat)
    requires i <= |s|
    ensures FoundAt(Scan(s, i, free), k) ==> i <= k
    ensures EndsAt(Scan(s, i, free), k) ==> i < k
  {
    hide Scan;
    FoundWhole(s, i, free);
  }

  /** What a scan finds: the mentions that do not begin where one that is found ends. */
  lemma {:induction false} FoundExactly(s: string, i: nat, free: bool, k: nat)
    requires i <= k < |s|
    ensures FoundAt(Scan(s, i, free), k) <==> MentionAt(s, k, (k > i || free) && !EndsAt(Scan(s, i, free), k))
    decreases |s| - i
  {
    FoundFrom(s, i, free, k);
    if MentionAt(s, i, free) {
      var e := HandleEnd(s, i + 1);
      HandleEndOf(s, i + 1);
      ConsFound(Match(i, s[i + 1..e]), Scan(s, e, false), k);
      FoundFrom(s, e, false, k);
      if k >= e {
        FoundExactly(s, e, false, k);
      }
    } else {
      FoundFrom(s, i + 1, true, k);
      if k > i {
        FoundExactly(s, i + 1, true, k);
      }
    }
  }

  function Matches(s: string): seq<Match> {
    Scan(s, 0, true)
  }

  function Unscannable(body: string): (masked: string)
    ensures |masked| == |body|
  {
    LinkMask.Masked(CodeSpanMask.Masked(FenceMask.Masked(body)))
  }

  // ---------- What is masked, and what is a mention, on characters ----------

  const SMALL := "abcdefghijklmnopqrstuvwxyz"
  const CAPITAL := "ABCDEFGHIJKLMNOPQRSTUVWXYZ"
  const DIGITS := "0123456789"

  predicate LetterOrDigit(c: char) {
    c in SMALL || c in CAPITAL || c in DIGITS
  }

  lemma AlnumIs(c: char)
    ensures Alnum(c) <==> LetterOrDigit(c)
  {
  }

  /** A whole handle from i to e: a letter or digit, then letters, digits, underscores and hyphens, and no more. */
  predicate IsHandle(s: string, i: int, e: int) {
    && 0 <= i < e <= |s| && LetterOrDigit(s[i])
    && (forall k :: i <= k < e ==> LetterOrDigit(s[k]) || s[k] == '_' || s[k] == '-')
    && (e < |s| ==> !LetterOrDigit(s[e]) && s[e] != '_' && s[e] != '-')
  }

  /** An `@` at k with a handle behind it, and neither letter, digit nor underscore before it. */
  predicate IsMention(s: string, k: int, e: int) {
    && 0 <= k < |s| && s[k] == '@' && IsHandle(s, k + 1, e)
    && (k > 0 ==> !LetterOrDigit(s[k - 1]) && s[k - 1] != '_')
  }

  lemma HandleIs(s: string, i: nat, e: int)
    requires i < |s|
    ensures IsHandle(s, i, e) <==> Alnum(s[i]) && e == HandleEnd(s, i)
  {
    hide LetterOrDigit;
    forall c: char ensures Alnum(c) <==> LetterOrDigit(c) {
      AlnumIs(c);
    }
    HandleEndOf(s, i);
    if IsHandle(s, i, e) {
      HandleEndIs(s, i, e);
    }
  }

  lemma MentionIs(s: string, k: nat, e: int)
    requires k < |s|
    ensures IsMention(s, k, e) <==> MentionAt(s, k, true) && e == HandleEnd(s, k + 1)
  {
    hide LetterOrDigit;
    if k + 1 < |s| {
      hide IsHandle;
      HandleIs(s, k + 1, e);
    }
    if k > 0 {
      AlnumIs(s[k - 1]);
    }
  }

  /**
   The matches on characters: a handle is found behind an `@` exactly when the two make a mention that does not
   begin where another match ends.
   */
  lemma MentionsOnCharacters(s: string, k: nat, handle: string)
    requires k < |s|
    ensures Match(k, handle) in Matches(s) <==>
            (exists e :: IsMention(s, k, e) && handle == s[k + 1..e]) && !EndsAt(Matches(s), k)
  {
    hide *;
    FoundInAll(s, k);
    FoundMatch(s, k, handle);
    forall e ensures IsMention(s, k, e) <==> MentionAt(s, k, true) && e == HandleEnd(s, k + 1) {
      MentionIs(s, k, e);
    }
    MentionIs(s, k, HandleEnd(s, k + 1));
  }

  /** Over the whole text only the end of another match can keep a mention from being found. */
  lemma FoundInAll(s: string, k: nat)
    requires k < |s|
    ensures FoundAt(Matches(s), k) <==> MentionAt(s, k, true) && !EndsAt(Matches(s), k)
  {
    hide Scan, EndsAt, HandleEnd;
    FoundFrom(s, 0, true, k);
    FoundExactly(s, 0, true, k);
  }

  lemma FoundMatch(s: string, k: nat, handle: string)
    requires k < |s|
    ensures Match(k, handle) in Matches(s) <==>
            FoundAt(Matches(s), k) && handle == s[k + 1..HandleEnd(s, k + 1)]
  {
    hide Scan, HandleEnd;
    FoundWhole(s, 0, true);
    var ms := Matches(s);
    if FoundAt(ms, k) {
      var j :| 0 <= j < |ms| && ms[j].at == k;
      assert ms[j] in ms && Whole(s, ms[j]);
    }
    if Match(k, handle) in ms {
      FoundIn(ms, Match(k, handle));
      assert Whole(s, Match(k, handle));
    }
  }

  lemma FoundIn(ms: seq<Match>, m: Match)
    requires m in ms
    ensures FoundAt(ms, m.at)
  {
  }

  /** The character at k is in a line that a fence encloses. */
  ghost predicate InFence(s: string, k: nat)
    requires k < |s|
  {
    exists a: nat, o: nat ::
      && a <= k && FenceMask.LineStart(s, a) && FenceMask.Encloses(s, o, a)
      && forall j :: a <= j <= k ==> s[j] != '\n'
  }

  ghost predicate InSpan(s: string, k: nat) {
    exists span :: span in CodeSpanMask.Spans(s, 0) && span.from <= k < span.to
  }

  ghost predicate InTarget(s: string, k: nat) {
    exists i, e :: LinkMask.IsTarget(s, i, e) && i <= k <= e
  }

  lemma FenceMasksExactly(s: string, k: nat)
    requires k < |s|
    ensures FenceMask.Masked(s)[k] == if InFence(s, k) then ' ' else s[k]
  {
    hide FenceMask.Masked, FenceMask.Encloses;
    var a := FenceMask.StartOf(s, k);
    FenceMask.StartOfIs(s, k);
    FenceMask.BlankedExactlyInFences(s, a, k);
    forall b: nat, o: nat | b <= k && FenceMask.LineStart(s, b) && FenceMask.Encloses(s, o, b) &&
      (forall j :: b <= j <= k ==> s[j] != '\n') ensures b == a
    {
      FenceMask.StartIs(s, b, k);
    }
  }

  lemma InSomeSpan(spans: seq<CodeSpanMask.Span>, k: nat)
    requires forall span :: span in spans ==> span.from < span.to
    ensures (exists span :: span in spans && span.from <= k < span.to) <==>
            CodeSpanMask.StartsAt(spans, k) || CodeSpanMask.Within(spans, k)
  {
    forall j | 0 <= j < |spans| ensures spans[j] in spans {
    }
  }

  lemma SpanMasksExactly(s: string, k: nat)
    requires k < |s|
    ensures CodeSpanMask.Masked(s)[k] == if InSpan(s, k) then ' ' else s[k]
  {
    hide CodeSpanMask.Masked, CodeSpanMask.Spans, CodeSpanMask.StartsAt, CodeSpanMask.Within, CodeSpanMask.Opens;
    CodeSpanMask.BlankedExactlyInSpans(s, k);
    CodeSpanMask.SpanEnds(s, 0);
    InSomeSpan(CodeSpanMask.Spans(s, 0), k);
  }

  /**
   What is not scanned: the lines in fences, then the code spans of what is left, then the link targets of what is
   left of that.
   */
  lemma MaskedExactly(body: string, k: nat)
    requires k < |body|
    ensures var a := FenceMask.Masked(body);
            var b := CodeSpanMask.Masked(a);
            Unscannable(body)[k] == if InFence(body, k) || InSpan(a, k) || InTarget(b, k) then ' ' else body[k]
  {
    hide FenceMask.Masked, CodeSpanMask.Masked, LinkMask.Masked, InFence, InSpan;
    var a := FenceMask.Masked(body);
    FenceMasksExactly(body, k);
    SpanMasksExactly(a, k);
    LinkMask.BlankedExactlyInTargets(CodeSpanMask.Masked(a), k);
  }

  // ---------- Masking neither invents nor shifts a mention ----------

  /** The matches whose `@` a mask has left in place. */
  function Kept(ms: seq<Match>, t: string): seq<Match> {
    if ms == [] then []
    else if ms[0].at < |t| && t[ms[0].at] == '@' then [ms[0]] + Kept(ms[1..], t)
    else Kept(ms[1..], t)
  }

  lemma HandleEndIs(s: string, i: nat, e: nat)
    requires i <= e <= |s| && (forall k :: i <= k < e ==> HandleChar(s[k])) && (e < |s| ==> !HandleChar(s[e]))
    ensures HandleEnd(s, i) == e
    decreases e - i
  {
    if i < e { HandleEndIs(s, i + 1, e); }
  }

  lemma HandleEndOf(s: string, i: nat)
    requires i <= |s|
    ensures forall k :: i <= k < HandleEnd(s, i) ==> HandleChar(s[k])
    ensures HandleEnd(s, i) < |s| ==> !HandleChar(s[HandleEnd(s, i)])
    decreases |s| - i
  {
    if i < |s| && HandleChar(s[i]) { HandleEndOf(s, i + 1); }
  }

  /** A mask does not stop inside a handle, nor between a handle and an `@` that follows it. */
  lemma {:induction false} MaskRunsOn(s: string, t: string, i: nat, e: nat)
    requires CleanMask(s, t) && i < e <= |s| && t[i] != s[i] && s[i] != '`' && s[i] != ')'
    requires forall k :: i < k < e ==> HandleChar(s[k])
    ensures forall k :: i < k < e ==> t[k] != s[k]
    ensures e < |s| && s[e] == '@' ==> t[e] != s[e]
    decreases e - i
  {
    if i + 1 < e {
      assert Boundary(s[i], t[i], s[i + 1], t[i + 1]);
      MaskRunsOn(s, t, i + 1, e);
    } else if e < |s| {
      assert Boundary(s[i], t[i], s[e], t[e]);
    }
  }

  /** A mask does not start inside a handle. */
  lemma {:induction false} MaskStaysOff(s: string, t: string, i: nat, e: nat)
    requires CleanMask(s, t) && i < e <= |s| && t[i] == s[i] == '@'
    requires forall k :: i < k < e ==> HandleChar(s[k])
    ensures forall k :: i < k < e ==> t[k] == s[k]
    decreases e - i
  {
    if i + 1 < e {
      MaskStaysOff(s, t, i, e - 1);
      if e - 1 > i { assert Boundary(s[e - 2], t[e - 2], s[e - 1], t[e - 1]); }
    }
  }

  lemma {:induction false} NothingInHandle(t: string, i: nat, e: nat)
    requires i <= e <= |t| && forall k :: i <= k < e ==> t[k] != '@'
    ensures Scan(t, i, true) == Scan(t, e, true)
    decreases e - i
  {
    if i < e { NothingInHandle(t, i + 1, e); }
  }

  lemma FreeOnlyMattersAtMention(t: string, e: nat)
    requires e <= |t| && (e < |t| ==> t[e] != '@')
    ensures Scan(t, e, true) == Scan(t, e, false)
  {
  }

  /** A kept `@` is a mention of the masked text exactly when it is one of the raw text. */
  lemma SameMention(s: string, t: string, i: nat, free: bool)
    requires CleanMask(s, t) && i < |s| && t[i] == s[i]
    ensures MentionAt(t, i, free) == MentionAt(s, i, free)
  {
    if s[i] == '@' {
      if i > 0 { assert Boundary(s[i - 1], t[i - 1], s[i], t[i]); }
      if i + 1 < |s| { assert Boundary(s[i], t[i], s[i + 1], t[i + 1]); }
    }
  }

  lemma ConsKept(m: Match, ms: seq<Match>, t: string)
    ensures Kept([m] + ms, t) == if m.at < |t| && t[m.at] == '@' then [m] + Kept(ms, t) else Kept(ms, t)
  {
    assert ([m] + ms)[1..] == ms;
  }

  lemma KeptMention(s: string, t: string, i: nat, free: bool)
    requires CleanMask(s, t) && i < |s| && MentionAt(s, i, free) && t[i] == '@'
    ensures var e := HandleEnd(s, i + 1);
            Scan(t, i, free) == [Match(i, s[i + 1..e])] + Scan(t, e, false)
  {
    var e := HandleEnd(s, i + 1);
    HandleEndOf(s, i + 1);
    SameMention(s, t, i, free);
    MaskStaysOff(s, t, i, e);
    HandleEndIs(t, i + 1, e);
    assert t[i + 1..e] == s[i + 1..e];
  }

  lemma BlankedMention(s: string, t: string, i: nat, free: bool)
    requires CleanMask(s, t) && i < |s| && MentionAt(s, i, free) && t[i] != '@'
    ensures Scan(t, i, free) == Scan(t, HandleEnd(s, i + 1), false)
  {
    var e := HandleEnd(s, i + 1);
    HandleEndOf(s, i + 1);
    MaskRunsOn(s, t, i, e);
    NothingInHandle(t, i + 1, e);
    FreeOnlyMattersAtMention(t, e);
  }

  lemma {:induction false} ScanOfMasked(s: string, t: string, i: nat, free: bool)
    requires CleanMask(s, t) && i <= |s|
    ensures Scan(t, i, free) == Kept(Scan(s, i, free), t)
    decreases |s| - i
  {
    if i == |s| {
    } else if !MentionAt(s, i, free) {
      if t[i] == s[i] { SameMention(s, t, i, free); }
      ScanOfMasked(s, t, i + 1, true);
    } else {
      var e := HandleEnd(s, i + 1);
      ScanOfMasked(s, t, e, false);
      ConsKept(Match(i, s[i + 1..e]), Scan(s, e, false), t);
      if t[i] == '@' { KeptMention(s, t, i, free); } else { BlankedMention(s, t, i, free); }
    }
  }

  lemma {:induction false} KeptTwice(ms: seq<Match>, t: string, u: string)
    requires |t| == |u| && forall k :: 0 <= k < |t| ==> u[k] == t[k] || u[k] == ' '
    ensures Kept(Kept(ms, t), u) == Kept(ms, u)
  {
    if ms != [] {
      KeptTwice(ms[1..], t, u);
      ConsKept(ms[0], Kept(ms[1..], t), u);
    }
  }

  /** The mentions of the masked body are those of the raw body whose `@` is not blanked, at the same places. */
  lemma MaskingKeepsMentions(body: string)
    ensures Matches(Unscannable(body)) == Kept(Matches(body), Unscannable(body))
  {
    var a := FenceMask.Masked(body);
    var b := CodeSpanMask.Masked(a);
    var c := LinkMask.Masked(b);
    FenceMask.IsCleanMask(body);
    CodeSpanMask.IsCleanMask(a);
    LinkMask.IsCleanMask(b);
    ScanOfMasked(body, a, 0, true);
    ScanOfMasked(a, b, 0, true);
    ScanOfMasked(b, c, 0, true);
    KeptTwice(Matches(body), a, b);
    KeptTwice(Matches(body), b, c);
  }

  // ---------- The handles ----------

  function LowerChar(c: char): char {
    if 'A' <= c <= 'Z' then 'a' + (c - 'A') else c
  }

  function Lower(s: string): (t: string)
    ensures |t| == |s|
    ensures forall k :: 0 <= k < |t| ==> !('A' <= t[k] <= 'Z')
  {
    seq(|s|, k requires 0 <= k < |s| => LowerChar(s[k]))
  }

  lemma CapitalLowers(j: nat)
    requires j < 26
    ensures LowerChar(CAPITAL[j]) == SMALL[j]
  {
  }

  lemma OthersStay(c: char)
    ensures c !in CAPITAL ==> LowerChar(c) == c
  {
  }

  /** Lower case on characters: a capital letter becomes the small letter in its place, and nothing else changes. */
  lemma LowerExactly(s: string, k: nat, j: nat)
    requires k < |s| && j < 26
    ensures s[k] == CAPITAL[j] ==> Lower(s)[k] == SMALL[j]
    ensures s[k] !in CAPITAL ==> Lower(s)[k] == s[k]
  {
    hide LowerChar;
    CapitalLowers(j);
    OthersStay(s[k]);
  }

  function Names(ms: seq<Match>): (names: seq<string>)
    ensures |names| == |ms|
  {
    seq(|ms|, k requires 0 <= k < |ms| => Lower(ms[k].handle))
  }

  predicate Mentionable(h: string) {
    |h| <= MAX_HANDLE_LEN && h != CHANNEL_KEYWORD
  }

  predicate Distinct(hs: seq<string>) {
    forall i, j :: 0 <= i < j < |hs| ==> hs[i] != hs[j]
  }

  function First(names: seq<string>, h: string): (k: nat)
    requires h in names
    ensures k < |names| && names[k] == h && h !in names[..k]
  {
    if names[0] == h then 0 else First(names[1..], h) + 1
  }

  /** Handles are listed once each, by where they are first mentioned. */
  predicate InFirstOrder(hs: seq<string>, names: seq<string>) {
    && (forall h :: h in hs ==> h in names)
    && (forall i, j :: 0 <= i < j < |hs| ==> First(names, hs[i]) < First(names, hs[j]))
  }

  /** What the scan has collected from the first k names. */
  ghost predicate Collected(names: seq<string>, k: nat, hs: seq<string>, channel: bool) {
    && k <= |names|
    && (forall h :: h in hs <==> h in names[..k] && Mentionable(h))
    && (channel <==> CHANNEL_KEYWORD in names[..k])
    && Distinct(hs) && InFirstOrder(hs, names)
  }

  lemma Collect(names: seq<string>, k: nat, hs: seq<string>, channel: bool)
    requires Collected(names, k, hs, channel) && k < |names|
    ensures |names[k]| > MAX_HANDLE_LEN || names[k] in hs ==> Collected(names, k + 1, hs, channel)
    ensures names[k] == CHANNEL_KEYWORD ==> Collected(names, k + 1, hs, true)
    ensures Mentionable(names[k]) && names[k] !in hs ==> Collected(names, k + 1, hs + [names[k]], channel)
  {
    assert names[..k + 1] == names[..k] + [names[k]];
    if Mentionable(names[k]) && names[k] !in hs {
      assert First(names, names[k]) == k;
      forall i | 0 <= i < |hs| ensures First(names, hs[i]) < k {
        assert hs[i] in hs && hs[i] in names[..k];
      }
    }
  }

  lemma NoneCollected(names: seq<string>)
    ensures Collected(names, 0, [], false)
  {
  }

  lemma AllCollected(names: seq<string>, hs: seq<string>, channel: bool)
    requires Collected(names, |names|, hs, channel)
    ensures forall h :: h in hs <==> h in names && Mentionable(h)
    ensures channel <==> CHANNEL_KEYWORD in names
    ensures Distinct(hs) && InFirstOrder(hs, names)
  {
    assert names[..|names|] == names;
  }

  method MaskUnscannable(body: string) returns (masked: string)
    ensures masked == Unscannable(body)
  {
    masked := FenceMask.MaskFences(body);
    ghost var failed;
    masked, failed := CodeSpanMask.MaskCodeSpans(masked);
    masked := LinkMask.Masked(masked);
  }

  /** The handles a body mentions, and whether it mentions the whole channel. */
  method Mentions(body: string) returns (handles: seq<string>, channel: bool)
    ensures var names := Names(Kept(Matches(body), Unscannable(body)));
            && (forall h :: h in handles <==> h in names && |h| <= 32 && h != "channel")
            && (channel <==> "channel" in names)
            && Distinct(handles) && InFirstOrder(handles, names)
  {
    hide Collected, Matches, Scan, Kept, Unscannable, Lower, First, InFirstOrder, Distinct;
    var masked := MaskUnscannable(body);
    MaskingKeepsMentions(body);
    var matches := Matches(masked);
    ghost var names := Names(matches);
    handles, channel := [], false;
    var seen: set<string> := {};
    NoneCollected(names);
    for i := 0 to |matches|
      invariant Collected(names, i, handles, channel) && seen == set h | h in handles
    {
      var handle := Lower(matches[i].handle);
      Collect(names, i, handles, channel);
      if |handle| > MAX_HANDLE_LEN {
        continue;
      }
      if handle == CHANNEL_KEYWORD {
        channel := true;
        continue;
      }
      if handle in seen {
        continue;
      }
      seen := seen + {handle};
      handles := handles + [handle];
    }
    AllCollected(names, handles, channel);
  }
}
