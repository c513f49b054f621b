/** Paragraph offsets of a synthesized track (scripts/tts_server.py,
    synth_section and synth_track) and how the browser follows them
    (public/static/reader/epub/script.js, updateTTSTrackParagraph). */
module TrackTiming {
  import opened Arithmetic
  import opened Outcomes
  import opened Sequences
  import opened Text
  import opened SectionPlanner
  import H = TimingHeader

  const TICKS_PER_MS: nat := 10_000

  /** A word boundary reported by the synthesizer; times are in ticks. */
  datatype Boundary = Boundary(text: Text, offset: int, duration: int)

  /** What one synthesizer connection delivers. */
  datatype Reply = Reply(boundaries: seq<Boundary>, audioBytes: nat)

  /** int(a / b): the quotient, truncated toward zero. */
  function Quotient(a: int, b: nat): int
    requires b > 0
  {
    if a >= 0 then a / b else -(-a / b)
  }

  /** Nondecreasing, from `low` on. */
  ghost predicate Rises(offsets: seq<int>, low: int) {
    && (forall i :: 0 <= i < |offsets| ==> low <= offsets[i])
    && (forall i, j :: 0 <= i < j < |offsets| ==> offsets[i] <= offsets[j])
  }

  /** One offset per paragraph, nondecreasing and starting at 0. */
  ghost predicate Aligned(offsets: seq<int>, paragraphs: nat) {
    && |offsets| == paragraphs
    && Rises(offsets, 0)
    && (offsets != [] ==> offsets[0] == 0)
  }

  // ---------- one section ----------

  /** Where each paragraph starts in the joined text. */
  function Starts(paragraphs: seq<Text>, cursor: nat): (starts: seq<nat>)
    ensures |starts| == |paragraphs|
    ensures starts != [] ==> starts[0] == cursor
  {
    if paragraphs == [] then [] else [cursor] + Starts(paragraphs[1..], cursor + |paragraphs[0]| + 2)
  }

  /** text.find(part, from) */
  function Find(text: Text, part: Text, from: nat): (i: int)
    ensures -1 <= i
    ensures i >= 0 ==> from <= i && i + |part| <= |text| && text[i..i + |part|] == part
    decreases |text| - from
  {
    if from + |part| > |text| then -1
    else if text[from..from + |part|] == part then from
    else Find(text, part, from + 1)
  }

  /** Searches onward from the previous word, then from the start. */
  function Locate(text: Text, part: Text, from: nat): int {
    if part == [] then -1
    else if Find(text, part, from) >= 0 then Find(text, part, from)
    else Find(text, part, 0)
  }

  /** bisect_right: how many leading starts are at most `position`. */
  function StartsUpTo(starts: seq<nat>, position: int): (n: nat)
    ensures n <= |starts|
  {
    if starts == [] || starts[0] > position then 0 else 1 + StartsUpTo(starts[1..], position)
  }

  /** What the loop over the boundaries keeps: the first offset seen in each
      paragraph, where to search from, and the end of the last word. */
  datatype Progress = Progress(first: seq<Option<int>>, from: nat, ticks: int)

  function Step(text: Text, starts: seq<nat>, p: Progress, b: Boundary): (r: Progress)
    requires |p.first| == |starts|
    ensures |r.first| == |starts|
  {
    var position := Locate(text, b.text, p.from);
    var ticks := Max(p.ticks, b.offset + b.duration);
    if position < 0 || starts == [] then Progress(p.first, p.from, ticks)
    else
      var k := Max(0, StartsUpTo(starts, position) - 1);
      var first := if p.first[k].None? then p.first[k := Some(Quotient(b.offset, TICKS_PER_MS))] else p.first;
      Progress(first, position + |b.text|, ticks)
  }

  function Steps(text: Text, starts: seq<nat>, p: Progress, boundaries: seq<Boundary>): (r: Progress)
    requires |p.first| == |starts|
    ensures |r.first| == |starts|
    decreases |boundaries|
  {
    if boundaries == [] then p else Steps(text, starts, Step(text, starts, p, boundaries[0]), boundaries[1..])
  }

  function Unknown(n: nat): (r: seq<Option<int>>)
    ensures |r| == n
  {
    if n == 0 then [] else [None] + Unknown(n - 1)
  }

  /** Offsets from the first boundary of each paragraph, or interpolated. */
  function Fill(starts: seq<nat>, first: seq<Option<int>>, total: nat, length: nat, previous: int): (r: seq<int>)
    requires |first| == |starts| && length > 0
    ensures |r| == |starts|
    decreases |starts|
  {
    if starts == [] then []
    else
      var value := if first[0].Some? then first[0].value else Quotient(total * starts[0], length);
      var offset := Max(previous, value);
      [offset] + Fill(starts[1..], first[1..], total, length, offset)
  }

  function ZeroFirst(offsets: seq<int>): (r: seq<int>)
    ensures |r| == |offsets|
  {
    if offsets == [] then [] else offsets[0 := 0]
  }

  /** Playing time of 48-kbit audio in milliseconds. */
  function EstimatedMs(audioBytes: nat): nat { audioBytes * 8 * 1000 / 48_000 }

  function SectionOffsets(paragraphs: Section, reply: Reply): (offsets: seq<int>)
    ensures |offsets| == |paragraphs|
  {
    var text := Join(paragraphs, PARAGRAPH_BREAK);
    var starts := Starts(paragraphs, 0);
    var seen := Steps(text, starts, Progress(Unknown(|paragraphs|), 0, 0), reply.boundaries);
    var total := Max(Max(EstimatedMs(reply.audioBytes), Quotient(seen.ticks, TICKS_PER_MS)), 1);
    ZeroFirst(Fill(starts, seen.first, total, Max(|text|, 1), 0))
  }

  lemma RisesCons(head: int, tail: seq<int>, low: int)
    requires Rises(tail, head) && low <= head
    ensures Rises([head] + tail, low)
  {
  }

  lemma {:induction false} FillRises(starts: seq<nat>, first: seq<Option<int>>, total: nat, length: nat, previous: int)
    requires |first| == |starts| && length > 0
    ensures Rises(Fill(starts, first, total, length, previous), previous)
    decreases |starts|
  {
    hide Quotient;
    if starts != [] {
      var value := if first[0].Some? then first[0].value else Quotient(total * starts[0], length);
      FillRises(starts[1..], first[1..], total, length, Max(previous, value));
      RisesCons(Max(previous, value), Fill(starts[1..], first[1..], total, length, Max(previous, value)), previous);
    }
  }

  lemma ZeroFirstAligns(offsets: seq<int>)
    requires Rises(offsets, 0)
    ensures Aligned(ZeroFirst(offsets), |offsets|)
  {
  }

  lemma SectionIsAligned(paragraphs: Section, reply: Reply)
    ensures Aligned(SectionOffsets(paragraphs, reply), |paragraphs|)
  {
    var text := Join(paragraphs, PARAGRAPH_BREAK);
    var starts := Starts(paragraphs, 0);
    var seen := Steps(text, starts, Progress(Unknown(|paragraphs|), 0, 0), reply.boundaries);
    var total := Max(Max(EstimatedMs(reply.audioBytes), Quotient(seen.ticks, TICKS_PER_MS)), 1);
    FillRises(starts, seen.first, total, Max(|text|, 1), 0);
    hide Rises, Fill, Steps, Join, Quotient;
    ZeroFirstAligns(Fill(starts, seen.first, total, Max(|text|, 1), 0));
  }

  method FillOffsets(starts: seq<nat>, first: seq<Option<int>>, total: nat, length: nat) returns (offsets: seq<int>)
    requires |first| == |starts| && length > 0
    ensures offsets == Fill(starts, first, total, length, 0)
  {
    offsets := [];
    var previous := 0;
    for i := 0 to |starts|
      invariant offsets + Fill(starts[i..], first[i..], total, length, previous)
             == Fill(starts, first, total, length, 0)
    {
      assert starts[i..][1..] == starts[i + 1..] && first[i..][1..] == first[i + 1..];
      var value := if first[i].None? then Quotient(total * starts[i], length) else first[i].value;
      value := Max(previous, value);
      offsets := offsets + [value];
      previous := value;
    }
  }

  method SynthSection(paragraphs: Section, reply: Reply) returns (offsets: seq<int>, estimated: nat)
    ensures offsets == SectionOffsets(paragraphs, reply) && estimated == EstimatedMs(reply.audioBytes)
    ensures Aligned(offsets, |paragraphs|)
  {
    hide Locate, StartsUpTo, Quotient, Join;
    var text := Join(paragraphs, PARAGRAPH_BREAK);
    var starts := Starts(paragraphs, 0);
    var first := Unknown(|paragraphs|);
    var from: nat := 0;
    var ticks := 0;
    for i := 0 to |reply.boundaries|
      invariant |first| == |starts|
      invariant Steps(text, starts, Progress(first, from, ticks), reply.boundaries[i..])
             == Steps(text, starts, Progress(Unknown(|paragraphs|), 0, 0), reply.boundaries)
    {
      var b := reply.boundaries[i];
      assert reply.boundaries[i..][1..] == reply.boundaries[i + 1..];
      var position := Locate(text, b.text, from);
      if position >= 0 && starts != [] {
        var k := Max(0, StartsUpTo(starts, position) - 1);
        if first[k].None? { first := first[k := Some(Quotient(b.offset, TICKS_PER_MS))]; }
        from := position + |b.text|;
      }
      ticks := Max(ticks, b.offset + b.duration);
    }
    estimated := EstimatedMs(reply.audioBytes);
    var total := Max(Max(estimated, Quotient(ticks, TICKS_PER_MS)), 1);
    offsets := FillOffsets(starts, first, total, Max(|text|, 1));
    if offsets != [] { offsets := offsets[0 := 0]; }
    SectionIsAligned(paragraphs, reply);
  }

  // ---------- the whole track ----------

  /** Section offsets moved onto the timeline of the track. */
  function Shift(offsets: seq<int>, base: int, previous: int): (r: seq<int>)
    ensures |r| == |offsets|
  {
    if offsets == [] then []
    else
      var value := Max(previous, base + offsets[0]);
      [value] + Shift(offsets[1..], base, value)
  }

  function LastOr(offsets: seq<int>, previous: int): int {
    if offsets == [] then previous else offsets[|offsets| - 1]
  }

  /** All sections in turn, each starting where the audio before it ends. */
  function Merge(sections: seq<Section>, replies: seq<Reply>, base: nat, previous: int): seq<int>
    requires |replies| == |sections|
    decreases |sections|
  {
    if sections == [] then []
    else
      var own := Shift(SectionOffsets(sections[0], replies[0]), base, previous);
      own + Merge(sections[1..], replies[1..], base + EstimatedMs(replies[0].audioBytes), LastOr(own, previous))
  }

  function TrackOffsets(sections: seq<Section>, replies: seq<Reply>): seq<int>
    requires |replies| == |sections|
  {
    if |sections| == 1 then SectionOffsets(sections[0], replies[0])
    else ZeroFirst(Merge(sections, replies, 0, 0))
  }

  lemma {:induction false} ShiftRises(offsets: seq<int>, base: int, previous: int)
    ensures Rises(Shift(offsets, base, previous), previous)
    ensures previous <= LastOr(Shift(offsets, base, previous), previous)
  {
    if offsets != [] {
      var value := Max(previous, base + offsets[0]);
      ShiftRises(offsets[1..], base, value);
      RisesCons(value, Shift(offsets[1..], base, value), previous);
    }
  }

  lemma RisesConcat(a: seq<int>, b: seq<int>, low: int)
    requires Rises(a, low) && Rises(b, LastOr(a, low))
    ensures Rises(a + b, low)
  {
  }

  lemma NothingRises(low: int)
    ensures Rises([], low)
  {
  }

  lemma MergeStep(sections: seq<Section>, replies: seq<Reply>, base: nat, previous: int)
    requires |replies| == |sections|
    ensures sections == [] ==> Merge(sections, replies, base, previous) == []
    ensures sections != [] ==>
      var own := Shift(SectionOffsets(sections[0], replies[0]), base, previous);
      Merge(sections, replies, base, previous)
        == own + Merge(sections[1..], replies[1..], base + EstimatedMs(replies[0].audioBytes), LastOr(own, previous))
  {
  }

  lemma {:induction false} MergeAligns(sections: seq<Section>, replies: seq<Reply>, base: nat, previous: int)
    requires |replies| == |sections|
    ensures Rises(Merge(sections, replies, base, previous), previous)
    ensures |Merge(sections, replies, base, previous)| == |Flatten(sections)|
    decreases |sections|
  {
    hide SectionOffsets, EstimatedMs, Rises, Shift, LastOr, Merge;
    MergeStep(sections, replies, base, previous);
    if sections != [] {
      var own := Shift(SectionOffsets(sections[0], replies[0]), base, previous);
      var later := base + EstimatedMs(replies[0].audioBytes);
      ShiftRises(SectionOffsets(sections[0], replies[0]), base, previous);
      MergeAligns(sections[1..], replies[1..], later, LastOr(own, previous));
      RisesConcat(own, Merge(sections[1..], replies[1..], later, LastOr(own, previous)), previous);
    } else {
      NothingRises(previous);
    }
  }

  /** However the sections and the boundaries fall, the track has one offset
      per paragraph, nondecreasing and starting at 0. */
  lemma TrackIsAligned(sections: seq<Section>, replies: seq<Reply>)
    requires |replies| == |sections|
    ensures Aligned(TrackOffsets(sections, replies), |Flatten(sections)|)
  {
    hide SectionOffsets, Merge, Rises, Aligned;
    if |sections| == 1 {
      SectionIsAligned(sections[0], replies[0]);
      assert Flatten(sections) == sections[0] + Flatten(sections[1..]);
    } else {
      MergeAligns(sections, replies, 0, 0);
      ZeroFirstAligns(Merge(sections, replies, 0, 0));
    }
  }

  function Replies(answer: nat -> Reply, n: nat): (r: seq<Reply>)
    ensures |r| == n && forall i :: 0 <= i < n ==> r[i] == answer(i)
  {
    if n == 0 then [] else Replies(answer, n - 1) + [answer(n - 1)]
  }

  method ShiftOffsets(offsets: seq<int>, base: int, from: int) returns (shifted: seq<int>, previous: int)
    ensures shifted == Shift(offsets, base, from) && previous == LastOr(shifted, from)
  {
    shifted := [];
    previous := from;
    for i := 0 to |offsets|
      invariant shifted + Shift(offsets[i..], base, previous) == Shift(offsets, base, from)
      invariant previous == LastOr(shifted, from)
    {
      assert offsets[i..][1..] == offsets[i + 1..];
      var value := Max(previous, base + offsets[i]);
      shifted := shifted + [value];
      previous := value;
    }
  }

  method MergeSections(sections: seq<Section>, answer: nat -> Reply) returns (offsets: seq<int>)
    ensures offsets == Merge(sections, Replies(answer, |sections|), 0, 0)
  {
    hide SectionOffsets, EstimatedMs, Aligned, Merge, Shift;
    ghost var replies := Replies(answer, |sections|);
    offsets := [];
    var base: nat := 0;
    var previous := 0;
    for i := 0 to |sections|
      invariant offsets + Merge(sections[i..], replies[i..], base, previous) == Merge(sections, replies, 0, 0)
    {
      var own, duration := SynthSection(sections[i], answer(i));
      MergeStep(sections[i..], replies[i..], base, previous);
      assert sections[i..][1..] == sections[i + 1..] && replies[i..][1..] == replies[i + 1..];
      var shifted, last := ShiftOffsets(own, base, previous);
      offsets := offsets + shifted;
      previous := last;
      base := base + duration;
    }
    MergeStep(sections[|sections|..], replies[|sections|..], base, previous);
  }

  /** `answer` gives the synthesizer's reply for each section. */
  method SynthTrack(paragraphs: seq<Text>, budget: int, answer: nat -> Reply)
      returns (offsets: seq<int>, ghost sections: seq<Section>)
    ensures IsPlan(sections, paragraphs, budget) && Tight(sections, budget)
    ensures offsets == TrackOffsets(sections, Replies(answer, |sections|))
    ensures Aligned(offsets, |paragraphs|)
  {
    hide Tight, Fits, SectionOffsets, Aligned, Merge;
    var plan := SplitSections(paragraphs, budget);
    sections := plan;
    TrackIsAligned(plan, Replies(answer, |plan|));
    if |plan| == 1 {
      var alone, _ := SynthSection(plan[0], answer(0));
      offsets := alone;
    } else {
      offsets := MergeSections(plan, answer);
      if offsets != [] { offsets := offsets[0 := 0]; }
    }
  }

  // ---------- following playback ----------

  predicate Reached(offset: H.Number, elapsed: real) {
    offset.Finite? && offset.value as real <= elapsed
  }

  ghost predicate Sorted(offsets: seq<H.Number>) {
    forall i, j :: 0 <= i < j < |offsets| ==> H.Leq(offsets[i], offsets[j])
  }

  /** The greatest index whose offset has been reached; 0 if there is none. */
  ghost predicate IsCurrent(offsets: seq<H.Number>, elapsed: real, index: nat) {
    && (index > 0 ==> index < |offsets|)
    && (forall i :: 0 < i <= index ==> offsets[i].Finite? && offsets[i].value as real <= elapsed)
    && (forall i :: index < i < |offsets| ==> !(offsets[i].Finite? && offsets[i].value as real <= elapsed))
  }

  method CurrentParagraph(offsets: seq<H.Number>, elapsed: real) returns (index: nat)
    requires Sorted(offsets)
    ensures IsCurrent(offsets, elapsed, index)
  {
    index := 0;
    while index + 1 < |offsets| && Reached(offsets[index + 1], elapsed)
      invariant index > 0 ==> index < |offsets|
      invariant forall i :: 0 < i <= index ==> Reached(offsets[i], elapsed)
    {
      index := index + 1;
    }
    if index + 1 < |offsets| {
      forall i | index < i < |offsets| ensures !Reached(offsets[i], elapsed) {
        assert i == index + 1 || H.Leq(offsets[index + 1], offsets[i]);
      }
    }
  }

  /** The current paragraph is determined by the time and never moves back. */
  lemma CurrentIsMonotone(offsets: seq<H.Number>, t: real, u: real, atT: nat, atU: nat)
    requires t <= u && IsCurrent(offsets, t, atT) && IsCurrent(offsets, u, atU)
    ensures atT <= atU
    ensures t == u ==> atT == atU
  {
    if atT > 0 { assert Reached(offsets[atT], t) && Reached(offsets[atT], u); }
    if atU > 0 { assert Reached(offsets[atU], u); }
  }

  /** What the browser holds after decoding aligned offsets: one number per
      paragraph, sorted, the first one zero. */
  lemma DecodedIsSorted(offsets: seq<nat>, paragraphs: nat)
    requires Aligned(offsets, paragraphs)
    ensures |H.Numbers(offsets)| == paragraphs && Sorted(H.Numbers(offsets))
    ensures paragraphs > 0 ==> H.Numbers(offsets)[0] == H.Finite(0)
  {
    H.NumbersFacts(offsets);
    var numbers := H.Numbers(offsets);
    forall i, j | 0 <= i < j < |numbers| ensures H.Leq(numbers[i], numbers[j]) {
      H.ToNumberMonotone(offsets[i], offsets[j]);
    }
    if paragraphs > 0 {
      H.SmallIsRepresentable(0);
      H.ToNumberExact(0);
    }
  }

  lemma AlignedIsNatural(offsets: seq<int>, paragraphs: nat)
    requires Aligned(offsets, paragraphs)
    ensures forall i :: 0 <= i < |offsets| ==> 0 <= offsets[i]
  {
  }

  lemma AlignedCount(offsets: seq<int>, paragraphs: nat)
    requires Aligned(offsets, paragraphs)
    ensures |offsets| == paragraphs
  {
  }
}
