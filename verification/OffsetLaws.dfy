/** What the paragraph offsets of scripts/tts_server.py are, in terms of the
    paragraphs and the synthesizer's replies alone. */
module OffsetLaws {
  import opened Arithmetic
  import opened Outcomes
  import opened Sequences
  import opened Text
  import opened SectionPlanner
  import opened TrackTiming

  // ---------- where the words of the boundaries are ----------

  ghost predicate OccursAt(text: Text, word: Text, i: int) {
    0 <= i <= |text| - |word| && text[i..i + |word|] == word
  }

  /** The first occurrence from `from` on, or else the first one, or else -1. */
  ghost predicate IsPlace(text: Text, word: Text, from: nat, place: int) {
    if word != [] && exists i :: from <= i && OccursAt(text, word, i) then
      from <= place && OccursAt(text, word, place) && forall i :: from <= i < place ==> !OccursAt(text, word, i)
    else if word != [] && exists i :: OccursAt(text, word, i) then
      OccursAt(text, word, place) && forall i :: i < place ==> !OccursAt(text, word, i)
    else place == -1
  }

  /** Every word is searched from the end of the last one found before it. */
  ghost predicate ArePlaces(text: Text, boundaries: seq<Boundary>, places: seq<int>, froms: seq<nat>) {
    && |places| == |boundaries| && |froms| == |boundaries| + 1 && froms[0] == 0
    && (forall j :: 0 <= j < |boundaries| ==> IsPlace(text, boundaries[j].text, froms[j], places[j]))
    && (forall j, k :: 0 <= j < |boundaries| && k == j + 1 ==>
          froms[k] == if places[j] >= 0 then places[j] + |boundaries[j].text| else froms[j])
  }

  lemma {:induction false} FindIsFirst(text: Text, part: Text, from: nat)
    ensures var p := Find(text, part, from);
      && (p == -1 ==> forall i :: from <= i ==> !OccursAt(text, part, i))
      && (p >= 0 ==> OccursAt(text, part, p) && forall i :: from <= i < p ==> !OccursAt(text, part, i))
    decreases |text| - from
  {
    if from + |part| <= |text| && text[from..from + |part|] != part { FindIsFirst(text, part, from + 1); }
  }

  lemma NotBefore(text: Text, word: Text)
    ensures forall i :: i < 0 ==> !OccursAt(text, word, i)
  {
  }

  lemma LocateIsPlace(text: Text, word: Text, from: nat)
    ensures IsPlace(text, word, from, Locate(text, word, from))
  {
    hide Find, OccursAt;
    FindIsFirst(text, word, from);
    FindIsFirst(text, word, 0);
    NotBefore(text, word);
  }

  // ---------- where the paragraphs are ----------

  /** Where paragraph k starts in the text of the section. */
  function StartOf(paragraphs: seq<Text>, k: nat): nat
    requires k <= |paragraphs|
  {
    if k == 0 then 0 else StartOf(paragraphs, k - 1) + |paragraphs[k - 1]| + 2
  }

  /** The place is in paragraph k or in the break after it. */
  ghost predicate Inside(paragraphs: seq<Text>, k: nat, place: int)
    requires k < |paragraphs|
  {
    StartOf(paragraphs, k) <= place && (k + 1 < |paragraphs| ==> place < StartOf(paragraphs, k + 1))
  }

  lemma {:induction false} StartOfRest(paragraphs: seq<Text>, k: nat)
    requires 0 < k <= |paragraphs|
    ensures StartOf(paragraphs, k) == |paragraphs[0]| + 2 + StartOf(paragraphs[1..], k - 1)
  {
    if k > 1 { StartOfRest(paragraphs, k - 1); }
  }

  lemma {:induction false} StartsAre(paragraphs: seq<Text>, cursor: nat, k: nat)
    requires k < |paragraphs|
    ensures Starts(paragraphs, cursor)[k] == cursor + StartOf(paragraphs, k)
    decreases k
  {
    if k > 0 {
      StartsAre(paragraphs[1..], cursor + |paragraphs[0]| + 2, k - 1);
      StartOfRest(paragraphs, k);
    }
  }

  lemma {:induction false} StartOfGrows(paragraphs: seq<Text>, i: nat, k: nat)
    requires i < k <= |paragraphs|
    ensures StartOf(paragraphs, i) < StartOf(paragraphs, k)
    decreases k
  {
    if i < k - 1 { StartOfGrows(paragraphs, i, k - 1); }
  }

  lemma {:induction false} StartsUpToCounts(starts: seq<nat>, position: int)
    ensures var n := StartsUpTo(starts, position);
      && (forall i :: 0 <= i < n ==> starts[i] <= position)
      && (n < |starts| ==> starts[n] > position)
  {
    if starts != [] && starts[0] <= position {
      StartsUpToCounts(starts[1..], position);
      var n := StartsUpTo(starts[1..], position);
      forall i | 0 <= i < n + 1 ensures starts[i] <= position {
        if i > 0 { assert starts[1..][i - 1] == starts[i]; }
      }
    }
  }

  lemma FirstStart(paragraphs: seq<Text>)
    requires paragraphs != []
    ensures StartOf(paragraphs, 0) == 0
  {
  }

  /** The paragraph that bisection finds is the one the place is in. */
  lemma ParagraphOf(paragraphs: seq<Text>, place: nat, k: nat)
    requires k < |paragraphs|
    ensures Max(0, StartsUpTo(Starts(paragraphs, 0), place) - 1) < |paragraphs|
    ensures Inside(paragraphs, k, place) <==> k == Max(0, StartsUpTo(Starts(paragraphs, 0), place) - 1)
  {
    hide Starts, StartsUpTo, StartOf;
    var starts := Starts(paragraphs, 0);
    var n := StartsUpTo(starts, place);
    StartsUpToCounts(starts, place);
    FirstStart(paragraphs);
    StartsAre(paragraphs, 0, 0);
    StartsAre(paragraphs, 0, k);
    if k + 1 < |paragraphs| { StartsAre(paragraphs, 0, k + 1); }
    if n < k { StartsAre(paragraphs, 0, n); }
    if n < k { StartOfGrows(paragraphs, n, k); }
    if k + 1 < n {
      assert starts[k + 1] <= place;
    }
  }

  // ---------- the section ----------

  /** Boundary j is the first one inside paragraph k. */
  ghost predicate FirstInside(paragraphs: seq<Text>, places: seq<int>, k: nat, j: nat)
    requires k < |paragraphs|
  {
    j < |places| && Inside(paragraphs, k, places[j]) && forall i :: 0 <= i < j ==> !Inside(paragraphs, k, places[i])
  }

  ghost predicate NoneInside(paragraphs: seq<Text>, places: seq<int>, k: nat)
    requires k < |paragraphs|
  {
    forall j :: 0 <= j < |places| ==> !Inside(paragraphs, k, places[j])
  }

  /** Ticks in whole milliseconds, truncated toward zero. */
  function Milliseconds(ticks: int): int { if ticks >= 0 then ticks / 10_000 else -(-ticks / 10_000) }

  /** When the last word ends. */
  function LastTick(boundaries: seq<Boundary>): int {
    if boundaries == [] then 0
    else
      var last := boundaries[|boundaries| - 1];
      Max(LastTick(boundaries[..|boundaries| - 1]), last.offset + last.duration)
  }

  /** How long the section plays, by its bytes or by its words, and at least 1 ms. */
  function TotalMs(reply: Reply): nat { Max(Max(reply.audioBytes / 6, LastTick(reply.boundaries) / 10_000), 1) }

  /** The time of the first boundary inside paragraph k, or the part of the
      playing time that the text before the paragraph takes. */
  ghost predicate IsOwnTime(paragraphs: seq<Text>, reply: Reply, places: seq<int>, k: nat, time: int)
    requires k < |paragraphs| && |places| == |reply.boundaries|
  {
    || (exists j: nat :: FirstInside(paragraphs, places, k, j) && time == Milliseconds(reply.boundaries[j].offset))
    || (NoneInside(paragraphs, places, k)
        && time == TotalMs(reply) * StartOf(paragraphs, k) / Max(|Join(paragraphs, [0x0A, 0x0A])|, 1))
  }

  /** What the loop over the boundaries knows after the first `j`. */
  ghost predicate Knows(paragraphs: seq<Text>, reply: Reply, places: seq<int>, first: seq<Option<int>>) {
    && |places| <= |reply.boundaries| && |first| == |paragraphs|
    && forall k :: 0 <= k < |first| ==>
         match first[k]
         case None => NoneInside(paragraphs, places, k)
         case Some(time) =>
           exists j: nat :: FirstInside(paragraphs, places, k, j) && time == Milliseconds(reply.boundaries[j].offset)
  }

  lemma KnowsMore(paragraphs: seq<Text>, reply: Reply, places: seq<int>, first: seq<Option<int>>, place: int,
                  first': seq<Option<int>>)
    requires Knows(paragraphs, reply, places, first) && |places| < |reply.boundaries| && |first'| == |first|
    requires forall k :: 0 <= k < |first| ==>
      first'[k] == if Inside(paragraphs, k, place) && first[k].None?
                   then Some(Milliseconds(reply.boundaries[|places|].offset)) else first[k]
    ensures Knows(paragraphs, reply, places + [place], first')
  {
    hide Inside, Milliseconds;
    var places' := places + [place];
    forall k | 0 <= k < |first|
      ensures match first'[k]
              case None => NoneInside(paragraphs, places', k)
              case Some(time) =>
                exists j: nat ::
                  FirstInside(paragraphs, places', k, j) && time == Milliseconds(reply.boundaries[j].offset)
    {
      if first[k].Some? {
        var j: nat :|
          FirstInside(paragraphs, places, k, j) && first[k].value == Milliseconds(reply.boundaries[j].offset);
        assert FirstInside(paragraphs, places', k, j);
      } else if Inside(paragraphs, k, place) {
        assert FirstInside(paragraphs, places', k, |places|);
      }
    }
  }

  lemma QuotientIs(ticks: int)
    ensures Quotient(ticks, TICKS_PER_MS) == Milliseconds(ticks)
  {
  }

  lemma NotInside(paragraphs: seq<Text>, k: nat, place: int)
    requires k < |paragraphs| && place < 0
    ensures !Inside(paragraphs, k, place)
  {
  }

  /** One boundary: which paragraph it is in, and what is recorded. */
  lemma StepIs(paragraphs: seq<Text>, p: Progress, b: Boundary, k: nat)
    requires |p.first| == |paragraphs| && k < |paragraphs|
    ensures var text, starts := Join(paragraphs, [0x0A, 0x0A]), Starts(paragraphs, 0);
      var place := Locate(text, b.text, p.from);
      Step(text, starts, p, b).first[k] ==
        if Inside(paragraphs, k, place) && p.first[k].None? then Some(Milliseconds(b.offset)) else p.first[k]
  {
    hide Locate, Join, Starts, StartsUpTo, Inside, Quotient, Milliseconds;
    var text, starts := Join(paragraphs, [0x0A, 0x0A]), Starts(paragraphs, 0);
    var place := Locate(text, b.text, p.from);
    QuotientIs(b.offset);
    if place >= 0 {
      ParagraphOf(paragraphs, place, k);
    } else {
      NotInside(paragraphs, k, place);
    }
  }

  lemma StepRest(text: Text, starts: seq<nat>, p: Progress, b: Boundary)
    requires |p.first| == |starts| && starts != []
    ensures var r, place := Step(text, starts, p, b), Locate(text, b.text, p.from);
      && r.from == (if place >= 0 then place + |b.text| else p.from)
      && r.ticks == Max(p.ticks, b.offset + b.duration)
  {
    hide Locate, StartsUpTo, Quotient;
  }

  lemma StepsNext(text: Text, starts: seq<nat>, p: Progress, boundaries: seq<Boundary>, j: nat)
    requires |p.first| == |starts| && j <= |boundaries|
    ensures j < |boundaries| ==>
      Steps(text, starts, p, boundaries[j..])
        == Steps(text, starts, Step(text, starts, p, boundaries[j]), boundaries[j + 1..])
    ensures j == |boundaries| ==> Steps(text, starts, p, boundaries[j..]) == p
  {
    hide Step;
    if j < |boundaries| { assert boundaries[j..][1..] == boundaries[j + 1..]; }
  }

  lemma {:induction false} UnknownIs(n: nat)
    ensures forall k :: 0 <= k < n ==> Unknown(n)[k].None?
  {
    if n > 0 { UnknownIs(n - 1); }
  }

  lemma LastTickNext(boundaries: seq<Boundary>, j: nat)
    requires j < |boundaries|
    ensures LastTick(boundaries[..j + 1])
         == Max(LastTick(boundaries[..j]), boundaries[j].offset + boundaries[j].duration)
  {
    assert boundaries[..j + 1][..j] == boundaries[..j];
  }

  lemma NothingKnown(paragraphs: seq<Text>, reply: Reply)
    ensures Knows(paragraphs, reply, [], Unknown(|paragraphs|))
    ensures LastTick([]) == 0
  {
    UnknownIs(|paragraphs|);
  }

  /** What the loop over the boundaries ends with. */
  lemma Seen(paragraphs: seq<Text>, reply: Reply) returns (places: seq<int>, froms: seq<nat>)
    requires paragraphs != []
    ensures ArePlaces(Join(paragraphs, [0x0A, 0x0A]), reply.boundaries, places, froms)
    ensures var seen := Steps(Join(paragraphs, [0x0A, 0x0A]), Starts(paragraphs, 0),
                              Progress(Unknown(|paragraphs|), 0, 0), reply.boundaries);
      Knows(paragraphs, reply, places, seen.first) && seen.ticks == LastTick(reply.boundaries)
  {
    hide Locate, Join, Starts, Inside, Step, Steps, Milliseconds, LastTick, Knows, Unknown;
    var text, starts, boundaries := Join(paragraphs, [0x0A, 0x0A]), Starts(paragraphs, 0), reply.boundaries;
    var p := Progress(Unknown(|paragraphs|), 0, 0);
    places, froms := [], [0];
    NothingKnown(paragraphs, reply);
    assert boundaries[0..] == boundaries && boundaries[..0] == [];
    for j := 0 to |boundaries|
      invariant |places| == j && |froms| == j + 1 && froms[0] == 0 && p.from == froms[j]
      invariant |p.first| == |paragraphs| && Knows(paragraphs, reply, places, p.first)
      invariant forall i :: 0 <= i < j ==> IsPlace(text, boundaries[i].text, froms[i], places[i])
      invariant forall i, k :: 0 <= i < j && k == i + 1 ==>
        froms[k] == if places[i] >= 0 then places[i] + |boundaries[i].text| else froms[i]
      invariant p.ticks == LastTick(boundaries[..j])
      invariant Steps(text, starts, Progress(Unknown(|paragraphs|), 0, 0), boundaries)
             == Steps(text, starts, p, boundaries[j..])
    {
      var b := boundaries[j];
      var place := Locate(text, b.text, p.from);
      LocateIsPlace(text, b.text, p.from);
      StepsNext(text, starts, p, boundaries, j);
      StepRest(text, starts, p, b);
      LastTickNext(boundaries, j);
      var p' := Step(text, starts, p, b);
      forall k | 0 <= k < |p.first|
        ensures p'.first[k] ==
          if Inside(paragraphs, k, place) && p.first[k].None? then Some(Milliseconds(b.offset)) else p.first[k]
      {
        StepIs(paragraphs, p, b, k);
      }
      KnowsMore(paragraphs, reply, places, p.first, place, p'.first);
      places, froms, p := places + [place], froms + [p'.from], p';
    }
    StepsNext(text, starts, p, boundaries, |boundaries|);
    assert boundaries[..|boundaries|] == boundaries;
  }

  lemma {:induction false} FillIs(starts: seq<nat>, first: seq<Option<int>>, total: nat, length: nat, previous: int,
                                  k: nat)
    requires |first| == |starts| && length > 0 && k < |starts|
    ensures var r := Fill(starts, first, total, length, previous);
      r[k] == Max(if k == 0 then previous else r[k - 1],
                  if first[k].Some? then first[k].value else Quotient(total * starts[k], length))
    decreases k
  {
    hide Quotient;
    if k > 0 {
      var value := if first[0].Some? then first[0].value else Quotient(total * starts[0], length);
      FillIs(starts[1..], first[1..], total, length, Max(previous, value), k - 1);
    }
  }

  ghost predicate AreOwnTimes(paragraphs: seq<Text>, reply: Reply, places: seq<int>, times: seq<int>) {
    && |times| == |paragraphs| && |places| == |reply.boundaries|
    && forall k :: 0 <= k < |times| ==> IsOwnTime(paragraphs, reply, places, k, times[k])
  }

  lemma OwnTime(paragraphs: seq<Text>, reply: Reply, places: seq<int>, first: seq<Option<int>>, k: nat)
    requires Knows(paragraphs, reply, places, first) && |places| == |reply.boundaries| && k < |paragraphs|
    ensures IsOwnTime(paragraphs, reply, places, k,
      if first[k].Some? then first[k].value
      else TotalMs(reply) * StartOf(paragraphs, k) / Max(|Join(paragraphs, [0x0A, 0x0A])|, 1))
  {
    hide Inside, Milliseconds, TotalMs, StartOf, Join, FirstInside, NoneInside;
  }

  lemma {:induction false} LastTickIsNatural(boundaries: seq<Boundary>)
    ensures LastTick(boundaries) >= 0
  {
    if boundaries != [] { LastTickIsNatural(boundaries[..|boundaries| - 1]); }
  }

  lemma TotalIs(reply: Reply)
    ensures Max(Max(EstimatedMs(reply.audioBytes), Quotient(LastTick(reply.boundaries), TICKS_PER_MS)), 1)
         == TotalMs(reply)
  {
    LastTickIsNatural(reply.boundaries);
  }

  lemma ShareIs(total: nat, start: nat, length: nat)
    requires length > 0
    ensures Quotient(total * start, length) == total * start / length
  {
  }

  lemma PlacesCount(text: Text, boundaries: seq<Boundary>, places: seq<int>, froms: seq<nat>)
    requires ArePlaces(text, boundaries, places, froms)
    ensures |places| == |boundaries|
  {
  }

  /** Every paragraph of a section but the first starts at the larger of the
      time before it and its own time; the first counts as starting at 0, but
      the second does not start before the first word of the first. */
  lemma SectionOffsetsAre(paragraphs: Section, reply: Reply)
      returns (places: seq<int>, froms: seq<nat>, times: seq<int>)
    requires paragraphs != []
    ensures ArePlaces(Join(paragraphs, [0x0A, 0x0A]), reply.boundaries, places, froms)
    ensures AreOwnTimes(paragraphs, reply, places, times)
    ensures var offsets := SectionOffsets(paragraphs, reply);
      && |offsets| == |paragraphs| && offsets[0] == 0
      && forall k :: 0 < k < |offsets| ==>
           offsets[k] == Max(if k == 1 then Max(0, times[0]) else offsets[k - 1], times[k])
  {
    hide Join, Starts, Steps, Knows, ArePlaces, IsOwnTime, Fill, Quotient, TotalMs, EstimatedMs, StartOf, LastTick;
    places, froms := Seen(paragraphs, reply);
    var text, starts := Join(paragraphs, [0x0A, 0x0A]), Starts(paragraphs, 0);
    var seen := Steps(text, starts, Progress(Unknown(|paragraphs|), 0, 0), reply.boundaries);
    var total, length := TotalMs(reply), Max(|text|, 1);
    TotalIs(reply);
    var filled := Fill(starts, seen.first, total, length, 0);
    times := seq(|paragraphs|, k requires 0 <= k < |paragraphs| =>
      if seen.first[k].Some? then seen.first[k].value else total * StartOf(paragraphs, k) / length);
    PlacesCount(text, reply.boundaries, places, froms);
    forall k | 0 <= k < |paragraphs|
      ensures IsOwnTime(paragraphs, reply, places, k, times[k])
      ensures k == 0 ==> filled[k] == Max(0, times[k])
      ensures k > 0 ==> filled[k] == Max(filled[k - 1], times[k])
    {
      OwnTime(paragraphs, reply, places, seen.first, k);
      FillIs(starts, seen.first, total, length, 0, k);
      StartsAre(paragraphs, 0, k);
      ShareIs(total, starts[k], length);
    }
    var offsets := SectionOffsets(paragraphs, reply);
    assert offsets == filled[0 := 0];
    assert filled[0] == Max(0, times[0]);
    forall k | 0 < k < |offsets|
      ensures offsets[k] == Max(if k == 1 then Max(0, times[0]) else offsets[k - 1], times[k])
    {
      assert offsets[k] == filled[k];
      if k > 1 { assert offsets[k - 1] == filled[k - 1]; }
    }
  }

  // ---------- the track ----------

  /** How long the sections before section `s` play, by their bytes. */
  function PlayedBefore(replies: seq<Reply>, s: nat): nat
    requires s <= |replies|
  {
    if s == 0 then 0 else PlayedBefore(replies, s - 1) + replies[s - 1].audioBytes / 6
  }

  lemma {:induction false} PlayedBeforeRest(replies: seq<Reply>, s: nat)
    requires 0 < s <= |replies|
    ensures PlayedBefore(replies, s) == replies[0].audioBytes / 6 + PlayedBefore(replies[1..], s - 1)
  {
    if s > 1 { PlayedBeforeRest(replies, s - 1); }
  }

  /** The position in the track of paragraph `i` of section `s`. */
  function Position(sections: seq<Section>, s: nat, i: nat): nat
    requires s <= |sections|
  {
    |Flatten(sections[..s])| + i
  }

  lemma PositionRest(sections: seq<Section>, s: nat, i: nat)
    requires 0 < s <= |sections|
    ensures Position(sections, s, i) == |sections[0]| + Position(sections[1..], s - 1, i)
  {
    assert sections[..s][1..] == sections[1..][..s - 1];
  }

  lemma {:induction false} ShiftIs(offsets: seq<int>, base: int, previous: int, i: nat)
    requires i < |offsets|
    ensures var r := Shift(offsets, base, previous);
      r[i] == Max(if i == 0 then previous else r[i - 1], base + offsets[i])
    decreases i
  {
    if i > 0 { ShiftIs(offsets[1..], base, Max(previous, base + offsets[0]), i - 1); }
  }

  lemma FirstPosition(sections: seq<Section>, i: nat)
    ensures Position(sections, 0, i) == i
  {
    assert Flatten(sections[..0]) == [];
  }

  lemma {:induction false} MergeIs(sections: seq<Section>, replies: seq<Reply>, base: nat, previous: int, s: nat,
                                   i: nat)
    requires |replies| == |sections| && s < |sections| && i < |sections[s]|
    ensures var m, at := Merge(sections, replies, base, previous), Position(sections, s, i);
      && at < |m|
      && m[at] == Max(if at == 0 then previous else m[at - 1],
                      base + PlayedBefore(replies, s) + SectionOffsets(sections[s], replies[s])[i])
    decreases s
  {
    hide SectionOffsets, Merge, Shift, Position;
    MergeStep(sections, replies, base, previous);
    var own := Shift(SectionOffsets(sections[0], replies[0]), base, previous);
    if s == 0 {
      ShiftIs(SectionOffsets(sections[0], replies[0]), base, previous, i);
      FirstPosition(sections, i);
    } else {
      MergeIs(sections[1..], replies[1..], base + EstimatedMs(replies[0].audioBytes), LastOr(own, previous), s - 1, i);
      PlayedBeforeRest(replies, s);
      PositionRest(sections, s, i);
      assert replies[1..][s - 1] == replies[s] && sections[1..][s - 1] == sections[s];
    }
  }

  lemma OnlyFirstIsZero(sections: seq<Section>, s: nat, i: nat)
    requires s < |sections| && forall t :: 0 <= t < |sections| ==> sections[t] != []
    ensures Position(sections, s, i) == 0 <==> s == 0 && i == 0
  {
    if s == 0 {
      FirstPosition(sections, i);
    } else {
      PositionRest(sections, s, i);
    }
  }

  lemma NothingBefore(replies: seq<Reply>)
    ensures PlayedBefore(replies, 0) == 0
  {
  }

  /** Every paragraph of a track but the first starts at the larger of the time
      before it and its time within its section after all sections before. */
  lemma TrackOffsetsAre(sections: seq<Section>, replies: seq<Reply>, s: nat, i: nat)
    requires |replies| == |sections| && s < |sections| && i < |sections[s]|
    requires forall t :: 0 <= t < |sections| ==> sections[t] != []
    ensures var offsets, at := TrackOffsets(sections, replies), Position(sections, s, i);
      && |offsets| == |Flatten(sections)| && at < |offsets|
      && offsets[at] ==
           if at == 0 then 0
           else Max(offsets[at - 1], PlayedBefore(replies, s) + SectionOffsets(sections[s], replies[s])[i])
  {
    hide SectionOffsets, Merge, Position, PlayedBefore;
    TrackIsAligned(sections, replies);
    OnlyFirstIsZero(sections, s, i);
    NothingBefore(replies);
    var at := Position(sections, s, i);
    if |sections| == 1 {
      FirstPosition(sections, i);
      SectionIsAligned(sections[0], replies[0]);
    } else {
      MergeAligns(sections, replies, 0, 0);
      MergeIs(sections, replies, 0, 0, s, i);
      MergeIs(sections, replies, 0, 0, 0, 0);
      FirstPosition(sections, 0);
      SectionIsAligned(sections[0], replies[0]);
    }
  }
}
