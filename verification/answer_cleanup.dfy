/** The clean-up applied to the language model's raw output before it is
    shown: strip the echoed prompt, cut at leaked turn markers, drop blank and
    repeated lines, and drop a leading "answer:" label. */
module AnswerCleanup {
  import opened Wrappers
  import opened Strings
  import opened Sequences

  /** Text that signals the model starting a new turn, tried in this order. */
  const Markers: seq<string> := ["\nQuestion:", "Document Context:", "Answer:", "Question:"]

  /** The label compared, in lower case, against the start of the answer. */
  const AnswerLabel: string := "answer:"

  predicate MarkerFree(s: string) {
    forall k :: 0 <= k < |Markers| ==> !Contains(s, Markers[k])
  }

  // ---------------------------------------------------------------------------
  // Step 1: the echoed prompt
  // ---------------------------------------------------------------------------

  /** `output.replace(prompt, "").strip()`. */
  function StripPrompt(output: string, prompt: string): (r: string)
    ensures IsTrimmed(r)
    ensures |r| <= |output|
    ensures !Contains(output, prompt) ==> r == Strip(output)
  {
    RemoveAllAbsent(output, prompt);
    Strip(RemoveAll(output, prompt))
  }

  /** A generator that returns the prompt followed by its completion is left
      with the trimmed completion, provided the completion does not repeat
      the prompt. */
  lemma StripPromptDropsEcho(prompt: string, completion: string)
    requires prompt != [] && !Contains(completion, prompt)
    ensures StripPrompt(prompt + completion, prompt) == Strip(completion)
  {
    RemoveAllLeading(prompt, completion);
    RemoveAllAbsent(completion, prompt);
  }

  /** Every occurrence of the prompt goes, not only a leading one: the text
      before the first occurrence is kept and the scan resumes after it. */
  lemma StripPromptRemovesEveryEcho(output: string, prompt: string)
    requires prompt != [] && Contains(output, prompt)
    ensures var i := Find(output, prompt).value;
            StripPrompt(output, prompt)
              == Strip(output[..i] + RemoveAll(output[i + |prompt|..], prompt))
  {
    RemoveAllAtFirstOccurrence(output, prompt);
  }

  // ---------------------------------------------------------------------------
  // Step 2: leaked turn markers
  // ---------------------------------------------------------------------------

  /** One round of the marker loop: if `marker` occurs, keep the text before
      its first occurrence (`split(marker, 1)[0]`) and strip it. */
  function CutAt(s: string, marker: string): (r: string)
    requires marker != []
    ensures !Contains(r, marker)
    ensures IsInfix(r, s)
    ensures !Contains(s, marker) ==> r == s
    ensures Contains(s, marker) ==> IsTrimmed(r)
    ensures (s == [] || !IsSpace(s[0])) ==> r <= s && (r == [] || !IsSpace(r[0]))
    ensures Contains(s, marker) ==> BordersOnlyRemoved(s[..Find(s, marker).value], r)
  {
    if Contains(s, marker) then
      var before := s[..Find(s, marker).value];
      KeptPart(s, marker, before);
      Strip(before)
    else
      PrefixIsInfix(s, s);
      s
  }

  /** The stripped text before the first occurrence of `marker` is a piece
      of `s` without `marker`, and a prefix when `s` starts with text. */
  lemma KeptPart(s: string, marker: string, before: string)
    requires marker != [] && Contains(s, marker) && before == s[..Find(s, marker).value]
    ensures !Contains(Strip(before), marker) && IsInfix(Strip(before), s)
    ensures (s == [] || !IsSpace(s[0])) ==> Strip(before) <= s
  {
    BeforeFirstOccurrence(s, marker);
    SliceIsInfix(s, 0, |before|);
    InfixTransitive(Strip(before), before, s);
    InfixKeepsAbsence(Strip(before), before, marker);
  }

  /** The marker loop over `markers`, in order. */
  function TruncateWith(s: string, markers: seq<string>): (r: string)
    requires forall k :: 0 <= k < |markers| ==> markers[k] != []
    ensures forall k :: 0 <= k < |markers| ==> !Contains(r, markers[k])
    ensures IsInfix(r, s)
    ensures (s == [] || !IsSpace(s[0])) ==> r <= s && (r == [] || !IsSpace(r[0]))
  {
    if markers == [] then
      PrefixIsInfix(s, s);
      s
    else
      var cut := CutAt(s, markers[0]);
      var r := TruncateWith(cut, markers[1..]);
      InfixTransitive(r, cut, s);
      LaterCutsKeepFree(cut, r, markers);
      assert (s == [] || !IsSpace(s[0])) ==> r <= s by {
        if s == [] || !IsSpace(s[0]) {
          PrefixTransitive(r, cut, s);
        }
      }
      r
  }

  /** What the later rounds leave holds none of the later markers, and, as a
      piece of the first round's result, not the first marker either. */
  lemma LaterCutsKeepFree(cut: string, r: string, markers: seq<string>)
    requires |markers| > 0 && !Contains(cut, markers[0]) && IsInfix(r, cut)
    requires forall k :: 0 <= k < |markers[1..]| ==> !Contains(r, markers[1..][k])
    ensures forall k :: 0 <= k < |markers| ==> !Contains(r, markers[k])
  {
    InfixKeepsAbsence(r, cut, markers[0]);
    forall k | 1 <= k < |markers|
      ensures !Contains(r, markers[k])
    {
      assert markers[k] == markers[1..][k - 1];
    }
  }

  /** The loop leaves a text holding none of the markers as it is. */
  lemma {:induction false} TruncateWithUnchanged(s: string, markers: seq<string>)
    requires forall k :: 0 <= k < |markers| ==> markers[k] != []
    ensures (forall k :: 0 <= k < |markers| ==> !Contains(s, markers[k])) ==>
              TruncateWith(s, markers) == s
  {
    if markers != [] {
      assert forall k :: 1 <= k < |markers| ==> markers[k] == markers[1..][k - 1];
      TruncateWithUnchanged(s, markers[1..]);
    }
  }

  /** Being a prefix carries over. */
  lemma PrefixTransitive(a: string, b: string, c: string)
    requires a <= b && b <= c
    ensures a <= c
  {
    assert c[..|a|] == b[..|a|];
  }

  /** test_app.py lines 104-108: the marker loop over the four markers. */
  function TruncateAtMarkers(s: string): (r: string)
    ensures MarkerFree(r)
    ensures IsInfix(r, s)
    ensures MarkerFree(s) ==> r == s
    ensures (s == [] || !IsSpace(s[0])) ==> r <= s
  {
    TruncateWithUnchanged(s, Markers);
    TruncateWith(s, Markers)
  }

  /** A second pass of the marker loop changes nothing. */
  lemma TruncateAtMarkersIdempotent(s: string)
    ensures TruncateAtMarkers(TruncateAtMarkers(s)) == TruncateAtMarkers(s)
  {
  }

  // ---------------------------------------------------------------------------
  // Step 3: blank and repeated lines
  // ---------------------------------------------------------------------------

  /** `line.strip()` of every line. */
  function TrimAll(lines: seq<string>): (r: seq<string>)
    ensures |r| == |lines|
    ensures forall k :: 0 <= k < |lines| ==> r[k] == Strip(lines[k])
  {
    if lines == [] then []
    else
      var rest := TrimAll(lines[1..]);
      MapCons(lines, rest, Strip);
      [Strip(lines[0])] + rest
  }

  /** `f` applied to every line is `f` of the first line before the rest
      mapped. */
  lemma MapCons(lines: seq<string>, rest: seq<string>, f: string -> string)
    requires lines != [] && |rest| == |lines| - 1
    requires forall k :: 0 <= k < |rest| ==> rest[k] == f(lines[1..][k])
    ensures forall k :: 0 <= k < |lines| ==> ([f(lines[0])] + rest)[k] == f(lines[k])
  {
    forall k | 1 <= k < |lines|
      ensures ([f(lines[0])] + rest)[k] == f(lines[k])
    {
      assert lines[1..][k - 1] == lines[k];
    }
  }

  /** The loop of test_app.py lines 113-116 from the point where `kept` holds
      `unique_lines` and `lines` are still to be read. */
  function DedupLoop(kept: seq<string>, lines: seq<string>): (r: seq<string>)
    decreases |lines|
    ensures kept <= r
    ensures forall x :: x in r <==> x in kept || (x != "" && x in TrimAll(lines))
    ensures Distinct(kept) ==> Distinct(r)
  {
    if lines == [] then kept
    else
      var t := Strip(lines[0]);
      var kept' := if t != "" && t !in kept then kept + [t] else kept;
      var r := DedupLoop(kept', lines[1..]);
      DedupLoopResumes(kept, lines, kept', r);
      r
  }

  /** What the rest of the loop guarantees from `kept'` on, the whole loop
      guarantees from `kept` on. */
  lemma DedupLoopResumes(kept: seq<string>, lines: seq<string>, kept': seq<string>, r: seq<string>)
    requires lines != []
    requires kept' == if Strip(lines[0]) != "" && Strip(lines[0]) !in kept then kept + [Strip(lines[0])] else kept
    requires kept' <= r
    requires forall x :: x in r <==> x in kept' || (x != "" && x in TrimAll(lines[1..]))
    requires Distinct(kept') ==> Distinct(r)
    ensures kept <= r
    ensures forall x :: x in r <==> x in kept || (x != "" && x in TrimAll(lines))
    ensures Distinct(kept) ==> Distinct(r)
  {
    var t := Strip(lines[0]);
    DedupStepMembers(kept, t, kept');
    assert TrimAll(lines) == [t] + TrimAll(lines[1..]);
    DedupStepDistinct(kept, t, kept');
  }

  lemma DedupStepMembers(kept: seq<string>, t: string, kept': seq<string>)
    requires kept' == if t != "" && t !in kept then kept + [t] else kept
    ensures kept <= kept'
    ensures forall x :: x in kept' <==> x in kept || (x != "" && x == t)
  {
  }

  lemma DedupStepDistinct(kept: seq<string>, t: string, kept': seq<string>)
    requires kept' == if t != "" && t !in kept then kept + [t] else kept
    ensures Distinct(kept) ==> Distinct(kept')
  {
  }

  /** The distinct non-blank trimmed lines of `s`, in first-seen order. */
  function UniqueLines(s: string): (r: seq<string>)
    ensures Distinct(r)
    ensures forall x :: x in r <==> x != "" && x in TrimAll(Split(s, '\n'))
    ensures forall k :: 0 <= k < |r| ==> r[k] != "" && IsTrimmed(r[k])
  {
    var lines := Split(s, '\n');
    var r := DedupLoop([], lines);
    TrimAllTrimmed(lines);
    MembersClean(r, TrimAll(lines));
    r
  }

  lemma MembersClean(r: seq<string>, ts: seq<string>)
    requires forall x :: x in r ==> x != "" && x in ts
    requires forall x :: x in ts ==> IsTrimmed(x)
    ensures forall k :: 0 <= k < |r| ==> r[k] != "" && IsTrimmed(r[k])
  {
    forall k | 0 <= k < |r|
      ensures r[k] != "" && IsTrimmed(r[k])
    {
      assert r[k] in r;
    }
  }

  lemma TrimAllTrimmed(lines: seq<string>)
    ensures forall x :: x in TrimAll(lines) ==> IsTrimmed(x)
  {
    forall x | x in TrimAll(lines)
      ensures IsTrimmed(x)
    {
      var i :| 0 <= i < |lines| && TrimAll(lines)[i] == x;
    }
  }

  /** Reference reading of the de-duplication: position `i` of `ts` is kept
      exactly when `ts[i]` is non-empty and does not occur in `ts[..i]`. */
  function FirstSeen(ts: seq<string>): (r: seq<string>)
    ensures Distinct(r)
    ensures forall x :: x in r <==> x != "" && x in ts
  {
    if ts == [] then []
    else
      var init := ts[..|ts| - 1];
      var t := ts[|ts| - 1];
      assert ts == init + [t];
      FirstSeen(init) + (if t != "" && t !in init then [t] else [])
  }

  /** Resuming the loop after a prefix `p` whose first-seen lines are kept
      gives the first-seen lines of the whole. */
  lemma {:induction false} DedupLoopIsFirstSeen(p: seq<string>, rest: seq<string>)
    ensures DedupLoop(FirstSeen(p), rest) == FirstSeen(p + TrimAll(rest))
    decreases |rest|
  {
    if rest == [] {
      assert p + TrimAll(rest) == p;
    } else {
      var p' := p + [Strip(rest[0])];
      DedupLoopStep(p, rest);
      TrimAllShift(p, rest);
      DedupLoopIsFirstSeen(p', rest[1..]);
    }
  }

  lemma TrimAllShift(p: seq<string>, rest: seq<string>)
    requires rest != []
    ensures p + TrimAll(rest) == (p + [Strip(rest[0])]) + TrimAll(rest[1..])
  {
    assert TrimAll(rest) == [Strip(rest[0])] + TrimAll(rest[1..]);
  }

  /** One iteration of the loop, seen from the reference side. */
  lemma DedupLoopStep(p: seq<string>, rest: seq<string>)
    requires rest != []
    ensures DedupLoop(FirstSeen(p), rest) == DedupLoop(FirstSeen(p + [Strip(rest[0])]), rest[1..])
  {
    var t := Strip(rest[0]);
    FirstSeenSnoc(p, t);
    if t != "" && t !in p {
      assert t !in FirstSeen(p);
    } else {
      assert t == "" || t in FirstSeen(p);
      assert FirstSeen(p + [t]) == FirstSeen(p);
    }
  }

  /** One more line extends the reference result by that line exactly when
      it is non-blank and new. */
  lemma FirstSeenSnoc(p: seq<string>, t: string)
    ensures FirstSeen(p + [t]) == FirstSeen(p) + (if t != "" && t !in p then [t] else [])
  {
    assert (p + [t])[..|p + [t]| - 1] == p;
  }

  /** The loop keeps exactly the first occurrence of each non-blank trimmed
      line, in input order. */
  lemma UniqueLinesAreFirstSeen(s: string)
    ensures UniqueLines(s) == FirstSeen(TrimAll(Split(s, '\n')))
  {
    var lines := Split(s, '\n');
    DedupLoopFromStart(lines);
    assert UniqueLines(s) == DedupLoop([], lines);
  }

  /** The loop started with nothing kept. */
  lemma DedupLoopFromStart(lines: seq<string>)
    ensures DedupLoop([], lines) == FirstSeen(TrimAll(lines))
  {
    DedupLoopIsFirstSeen([], lines);
    assert FirstSeen([]) == [];
    assert [] + TrimAll(lines) == TrimAll(lines);
  }

  /** test_app.py lines 111-118: `"\n".join(unique_lines)`. */
  function DedupLines(s: string): (r: string)
    ensures IsTrimmed(r)
    ensures r == [] <==> UniqueLines(s) == []
    ensures r != [] ==> Split(r, '\n') == UniqueLines(s)
  {
    var u := UniqueLines(s);
    JoinTrimmed(u, "\n");
    UniqueLinesSeparatorFree(s);
    assert u != [] ==> Split(Join(u, "\n"), '\n') == u by {
      if u != [] {
        SplitJoin(u, '\n');
      }
    }
    Join(u, "\n")
  }

  /** The kept lines are pieces of the input, so they hold no line break and
      no pattern the input lacks. */
  lemma UniqueLinesAreInfixes(s: string)
    ensures forall k :: 0 <= k < |UniqueLines(s)| ==> IsInfix(UniqueLines(s)[k], s)
  {
    var lines := Split(s, '\n');
    var u := UniqueLines(s);
    SplitPiecesAreInfixes(s, '\n');
    forall k | 0 <= k < |u|
      ensures IsInfix(u[k], s)
    {
      var i := UniqueLineOrigin(s, k);
      InfixTransitive(u[k], lines[i], s);
    }
  }

  lemma UniqueLinesSeparatorFree(s: string)
    ensures forall k :: 0 <= k < |UniqueLines(s)| ==> '\n' !in UniqueLines(s)[k]
  {
    var lines := Split(s, '\n');
    var u := UniqueLines(s);
    forall k | 0 <= k < |u|
      ensures '\n' !in u[k]
    {
      var i := UniqueLineOrigin(s, k);
      InfixExcludesChar(u[k], lines[i], '\n');
    }
  }

  /** Each kept line is some input line, stripped. */
  lemma UniqueLineOrigin(s: string, k: nat) returns (i: nat)
    requires k < |UniqueLines(s)|
    ensures i < |Split(s, '\n')| && UniqueLines(s)[k] == Strip(Split(s, '\n')[i])
  {
    var ts := TrimAll(Split(s, '\n'));
    assert UniqueLines(s)[k] in ts;
    i :| 0 <= i < |ts| && ts[i] == UniqueLines(s)[k];
  }

  /** De-duplicating twice is de-duplicating once. */
  lemma DedupLinesIdempotent(s: string)
    ensures DedupLines(DedupLines(s)) == DedupLines(s)
  {
    var r := DedupLines(s);
    var u := UniqueLines(s);
    if r == [] {
      assert Split(r, '\n') == [[]];
      assert TrimAll([[]]) == [[]];
      assert UniqueLines(r) == [];
    } else {
      assert Split(r, '\n') == u;
      DedupLoopKeepsClean([], u);
      assert [] + u == u;
    }
  }

  /** Lines that are already non-blank, trimmed and distinct pass the loop
      unchanged. */
  lemma {:induction false} DedupLoopKeepsClean(kept: seq<string>, lines: seq<string>)
    requires Distinct(kept + lines)
    requires forall k :: 0 <= k < |lines| ==> lines[k] != "" && IsTrimmed(lines[k])
    ensures DedupLoop(kept, lines) == kept + lines
    decreases |lines|
  {
    if lines != [] {
      assert lines[0] !in kept by {
        assert (kept + lines)[|kept|] == lines[0];
        forall k | 0 <= k < |kept|
          ensures kept[k] != lines[0]
        {
          assert (kept + lines)[k] == kept[k];
        }
      }
      assert kept + lines == (kept + [lines[0]]) + lines[1..];
      DedupLoopKeepsClean(kept + [lines[0]], lines[1..]);
    }
  }

  /** A pattern without a line break that the input lacks cannot appear after
      de-duplication: each kept line is a piece of the input, and the
      pattern cannot straddle the line breaks between them. */
  lemma DedupLinesKeepsAbsence(s: string, m: string)
    requires m != [] && '\n' !in m && !Contains(s, m)
    ensures !Contains(DedupLines(s), m)
  {
    var u := UniqueLines(s);
    UniqueLinesAreInfixes(s);
    forall k | 0 <= k < |u|
      ensures !Contains(u[k], m)
    {
      InfixKeepsAbsence(u[k], s, m);
    }
    JoinKeepsAbsence(u, '\n', m);
  }

  /** Lines that are already trimmed are left alone. */
  lemma TrimAllOfTrimmed(lines: seq<string>)
    requires forall k :: 0 <= k < |lines| ==> IsTrimmed(lines[k])
    ensures TrimAll(lines) == lines
  {
  }

  /** Two distinct lines, the first given twice (`"A\nA\nB"`, say): the
      second copy is dropped and the order kept (`"A\nB"`). */
  lemma DedupRepeatedLine(a: string, b: string)
    requires '\n' !in a && '\n' !in b && a != [] && b != [] && a != b
    requires IsTrimmed(a) && IsTrimmed(b)
    ensures DedupLines(Join([a, a, b], "\n")) == Join([a, b], "\n")
  {
    var s := Join([a, a, b], "\n");
    SplitJoin([a, a, b], '\n');
    TrimAllOfTrimmed([a, a, b]);
    FirstSeenRepeat(a, b);
    UniqueLinesAreFirstSeen(s);
  }

  /** A line seen again right away is dropped, and a new one kept. */
  lemma FirstSeenRepeat(a: string, b: string)
    requires a != "" && b != "" && a != b
    ensures FirstSeen([a, a, b]) == [a, b]
  {
    FirstSeenTwice(a);
    FirstSeenSnoc([a, a], b);
    assert [a, a] + [b] == [a, a, b];
  }

  lemma FirstSeenTwice(a: string)
    requires a != ""
    ensures FirstSeen([a, a]) == [a]
  {
    FirstSeenOne(a);
    FirstSeenSnoc([a], a);
    assert [a] + [a] == [a, a];
  }

  lemma FirstSeenOne(a: string)
    requires a != ""
    ensures FirstSeen([a]) == [a]
  {
    FirstSeenSnoc([], a);
    assert [] + [a] == [a];
  }

  // ---------------------------------------------------------------------------
  // Step 4: a leading "answer:" label
  // ---------------------------------------------------------------------------

  /** `s.lower().startswith("answer:")`: the label in any mix of letter
      cases. */
  function HasAnswerLabel(s: string): (b: bool)
    ensures b <==> |s| >= |AnswerLabel| && MatchesAnyCase(s[..|AnswerLabel|], AnswerLabel)
  {
    AnswerLabelAnyCase(s);
    AnswerLabel <= ToLower(s)
  }

  /** Lower-casing and then comparing the first seven characters is matching
      them against "answer:" in any case. */
  lemma AnswerLabelAnyCase(s: string)
    ensures AnswerLabel <= ToLower(s) <==> |s| >= |AnswerLabel| && MatchesAnyCase(s[..|AnswerLabel|], AnswerLabel)
  {
    LabelIsLowerCase(AnswerLabel);
    LowerPrefixAnyCase(s, AnswerLabel);
  }

  /** `lower()` starts with a lower-case word exactly when the text starts
      with that word in some mix of cases. */
  lemma LowerPrefixAnyCase(s: string, lower: string)
    requires forall k :: 0 <= k < |lower| ==> !('A' <= lower[k] <= 'Z')
    ensures lower <= ToLower(s) <==> |s| >= |lower| && MatchesAnyCase(s[..|lower|], lower)
  {
    if |s| >= |lower| {
      ToLowerTake(s, |lower|);
      ToLowerMatchesAnyCase(s[..|lower|], lower);
    }
  }

  /** The label has no upper-case letter. */
  lemma LabelIsLowerCase(lower: string)
    requires lower == AnswerLabel
    ensures forall k :: 0 <= k < |lower| ==> !('A' <= lower[k] <= 'Z')
  {
  }

  /** test_app.py lines 121-122: drop the label and strip what follows it. */
  function StripAnswerLabel(s: string): (r: string)
    ensures !HasAnswerLabel(s) ==> r == s
    ensures HasAnswerLabel(s) ==> IsTrimmed(r) && |r| <= |s| - |AnswerLabel|
    ensures HasAnswerLabel(s) ==> IsInfix(r, s[|AnswerLabel|..])
    ensures HasAnswerLabel(s) ==> BordersOnlyRemoved(s[|AnswerLabel|..], r)
  {
    if HasAnswerLabel(s) then Strip(s[|AnswerLabel|..]) else s
  }

  /** The marker loop has already cut at the exact-case "Answer:", so only
      other casings ever reach the label test. */
  lemma ExactCaseLabelNeverReachesLabelStep(s: string)
    ensures !("Answer:" <= TruncateAtMarkers(s))
  {
    PrefixContained(TruncateAtMarkers(s), Markers[2]);
  }

  // ---------------------------------------------------------------------------
  // The whole clean-up
  // ---------------------------------------------------------------------------

  /** Steps 2 to 4, applied to the prompt-stripped output. */
  function CleanCompletion(answer: string): (r: string)
    ensures IsTrimmed(r)
    ensures MarkerFree(r)
  {
    var cut := TruncateAtMarkers(answer);
    var deduped := DedupLines(cut);
    DedupKeepsMarkerFree(cut);
    LabelStepKeepsMarkerFree(deduped);
    StripAnswerLabel(deduped)
  }

  lemma LabelStepKeepsMarkerFree(s: string)
    requires MarkerFree(s)
    ensures MarkerFree(StripAnswerLabel(s))
  {
    if HasAnswerLabel(s) {
      var rest := s[|AnswerLabel|..];
      SliceIsInfix(s, |AnswerLabel|, |s|);
      assert s[|AnswerLabel|..|s|] == rest;
      InfixTransitive(StripAnswerLabel(s), rest, s);
      KeepsMarkerFree(StripAnswerLabel(s), s);
    }
  }

  lemma DedupKeepsMarkerFree(cut: string)
    requires MarkerFree(cut)
    ensures MarkerFree(DedupLines(cut))
  {
    MarkersBreakFree(Markers);
    MarkerWithBreak(DedupLines(cut));
    DedupKeepsEachAbsent(cut, Markers);
  }

  /** Only the first marker holds a line break, and it is absent as soon as
      the last one is; the facts about the literals are kept to this lemma. */
  lemma MarkersBreakFree(ms: seq<string>)
    requires ms == Markers
    ensures |ms| == 4
    ensures forall k :: 1 <= k < |ms| ==> ms[k] != [] && '\n' !in ms[k]
  {
    assert '\n' !in ms[1] && '\n' !in ms[2] && '\n' !in ms[3];
  }

  /** Removing repeated lines keeps every break-free string of `ms` absent,
      and so the first one, whose absence follows from the last one's. */
  lemma DedupKeepsEachAbsent(cut: string, ms: seq<string>)
    requires |ms| == 4
    requires forall k :: 1 <= k < |ms| ==> ms[k] != [] && '\n' !in ms[k]
    requires forall k :: 0 <= k < |ms| ==> !Contains(cut, ms[k])
    requires Contains(DedupLines(cut), ms[0]) ==> Contains(DedupLines(cut), ms[3])
    ensures forall k :: 0 <= k < |ms| ==> !Contains(DedupLines(cut), ms[k])
  {
    DedupLinesKeepsAbsence(cut, ms[3]);
    forall k | 0 <= k < |ms|
      ensures !Contains(DedupLines(cut), ms[k])
    {
      if k != 0 {
        DedupLinesKeepsAbsence(cut, ms[k]);
      }
    }
  }

  /** Any occurrence of "\nQuestion:" contains one of "Question:". */
  lemma MarkerWithBreak(s: string)
    ensures Contains(s, Markers[0]) ==> Contains(s, Markers[3])
  {
    if Contains(s, Markers[0]) {
      var i := Find(s, Markers[0]).value;
      forall k | 0 <= k < |Markers[3]|
        ensures Markers[3][k] == s[i + 1 + k]
      {
        assert Markers[3][k] == Markers[0][k + 1];
      }
      assert OccursAt(s, Markers[3], i + 1);
    }
  }

  lemma KeepsMarkerFree(t: string, s: string)
    requires IsInfix(t, s) && MarkerFree(s)
    ensures MarkerFree(t)
  {
    forall k | 0 <= k < |Markers|
      ensures !Contains(t, Markers[k])
    {
      InfixKeepsAbsence(t, s, Markers[k]);
    }
  }

  /** test_app.py lines 100-122: the answer shown for the generator's raw output. */
  function CleanAnswer(output: string, prompt: string): (r: string)
    ensures IsTrimmed(r)
    ensures MarkerFree(r)
  {
    CleanCompletion(StripPrompt(output, prompt))
  }

  /** The marker loop written out: one cut per marker, in order. */
  lemma TruncateAtMarkersUnfold(s: string)
    ensures TruncateAtMarkers(s)
              == CutAt(CutAt(CutAt(CutAt(s, Markers[0]), Markers[1]), Markers[2]), Markers[3])
  {
    TruncateWithFour(s, Markers);
  }

  /** The loop over four markers is four cuts in a row. */
  lemma TruncateWithFour(s: string, ms: seq<string>)
    requires |ms| == 4 && forall k :: 0 <= k < |ms| ==> ms[k] != []
    ensures TruncateWith(s, ms) == CutAt(CutAt(CutAt(CutAt(s, ms[0]), ms[1]), ms[2]), ms[3])
  {
    var c0 := CutAt(s, ms[0]);
    var c1 := CutAt(c0, ms[1]);
    var c2 := CutAt(c1, ms[2]);
    TruncateWithStep(s, ms);
    TruncateWithStep(c0, ms[1..]);
    TruncateWithStep(c1, ms[2..]);
    TruncateWithStep(c2, ms[3..]);
    assert ms[1..][1..] == ms[2..] && ms[2..][1..] == ms[3..];
  }

  lemma TruncateWithStep(s: string, markers: seq<string>)
    requires |markers| > 0
    requires forall k :: 0 <= k < |markers| ==> markers[k] != []
    ensures TruncateWith(s, markers) == TruncateWith(CutAt(s, markers[0]), markers[1..])
    ensures |markers| == 1 ==> TruncateWith(s, markers) == CutAt(s, markers[0])
  {
  }

  /** A cut at a marker holding a character the text lacks changes nothing. */
  lemma CutAtMissing(s: string, marker: string, c: char)
    requires c in marker && c !in s
    ensures CutAt(s, marker) == s
  {
    AbsentChar(s, marker, c);
  }

  /** A cut at a marker that starts the text leaves nothing. */
  lemma CutAtLeading(s: string, marker: string)
    requires marker != [] && marker <= s
    ensures CutAt(s, marker) == ""
  {
    assert OccursAt(s, marker, 0);
    assert s[..0] == [];
  }

  /** A text without line breaks or repeated lines is already de-duplicated
      when it is trimmed. */
  lemma DedupLinesSingleLine(s: string)
    requires '\n' !in s && IsTrimmed(s)
    ensures DedupLines(s) == s
  {
    SplitNoSeparator(s, '\n');
    if s == [] {
      assert UniqueLines(s) == [];
    } else {
      DedupLoopKeepsClean([], [s]);
      assert [] + [s] == [s];
      assert UniqueLines(s) == [s];
    }
  }

  // The worked examples below take their literal as a parameter fixed by a
  // `requires` rather than writing it in the body: each fact about the
  // literal is then proved in a small lemma of its own, and the callers
  // reason about a name instead of the literal's characters.
  /** The exact-case label is a marker, so the marker loop cuts the whole
      answer away before the label step can see it. */
  lemma ExactCaseLabelEmptiesAnswer(s: string)
    requires s == "Answer: Paris is the capital."
    ensures CleanCompletion(s) == ""
  {
    ExactCaseLabelIsCut(s);
    DedupLinesSingleLine([]);
  }

  lemma ExactCaseLabelIsCut(s: string)
    requires s == "Answer: Paris is the capital."
    ensures TruncateAtMarkers(s) == ""
  {
    TruncateAtMarkersUnfold(s);
    MarkerChars(Markers);
    ExactCaseCharsAbsent(s);
    ExactCaseStartsWithMarker(s, Markers[2]);
    CutsFromLeadingThirdMarker(s, Markers);
  }

  lemma MarkerChars(ms: seq<string>)
    requires ms == Markers
    ensures |ms| == 4 && ms[2] == "Answer:" && ms[3] != []
    ensures '\n' in ms[0] && 'D' in ms[1]
  {
    assert ms[0][0] == '\n' && ms[1][0] == 'D';
  }

  lemma ExactCaseCharsAbsent(s: string)
    requires s == "Answer: Paris is the capital."
    ensures '\n' !in s && 'D' !in s
  {
  }

  lemma ExactCaseStartsWithMarker(s: string, m: string)
    requires s == "Answer: Paris is the capital." && m == "Answer:"
    ensures m <= s
  {
  }

  /** A text holding neither the first marker's line break nor the second
      marker's `D`, and starting with the third marker, is cut to nothing. */
  lemma CutsFromLeadingThirdMarker(s: string, ms: seq<string>)
    requires |ms| == 4 && ms[2] != [] && ms[2] <= s && ms[3] != []
    requires '\n' in ms[0] && '\n' !in s && 'D' in ms[1] && 'D' !in s
    ensures CutAt(CutAt(CutAt(CutAt(s, ms[0]), ms[1]), ms[2]), ms[3]) == ""
  {
    AbsentChar(s, ms[0], '\n');
    AbsentChar(s, ms[1], 'D');
    CutAtLeading(s, ms[2]);
    NotLonger([], ms[3]);
  }

  /** Other casings reach the label step and are stripped. */
  lemma OtherCasingLabelIsStripped(s: string)
    requires s == "ANSWER: x"
    ensures CleanCompletion(s) == "x"
  {
    OtherCasingPassesMarkers(s);
    DedupLinesSingleLine(s);
    OtherCasingHasLabel(s);
    StripSpacedLetter(s[|AnswerLabel|..]);
  }

  lemma OtherCasingHasLabel(s: string)
    requires s == "ANSWER: x"
    ensures HasAnswerLabel(s) && s[|AnswerLabel|..] == " x"
  {
    UpperLabelMatches(s[..|AnswerLabel|], AnswerLabel);
  }

  lemma UpperLabelMatches(head: string, lower: string)
    requires head == "ANSWER:" && lower == AnswerLabel
    ensures MatchesAnyCase(head, lower)
  {
    forall k | 0 <= k < |head|
      ensures head[k] == UpperChar(lower[k])
    {
    }
  }

  lemma StripSpacedLetter(t: string)
    requires t == " x"
    ensures Strip(t) == "x"
  {
    assert StripLeft(t) == "x";
  }

  lemma OtherCasingPassesMarkers(s: string)
    requires s == "ANSWER: x"
    ensures MarkerFree(s)
  {
    OtherCasingChars(s);
    AbsentChar(s, Markers[0], '\n');
    AbsentChar(s, Markers[1], 'D');
    AbsentChar(s, Markers[2], 'n');
    AbsentChar(s, Markers[3], 'Q');
  }

  lemma OtherCasingChars(s: string)
    requires s == "ANSWER: x"
    ensures '\n' !in s && 'D' !in s && 'n' !in s && 'Q' !in s
  {
  }

  /** A text whose first character is not an `a` in either case has no
      label. */
  lemma NoLabelUnlessLeadingA(s: string)
    requires s != [] && s[0] != 'a' && s[0] != 'A'
    ensures !HasAnswerLabel(s)
  {
    if |s| >= |AnswerLabel| {
      assert s[..|AnswerLabel|][0] == s[0];
    }
  }

  /** A pattern longer than the text does not occur in it. */
  lemma NotLonger(s: string, m: string)
    requires |m| > |s|
    ensures !Contains(s, m)
  {
  }
}
