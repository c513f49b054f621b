/** Grouping the paragraphs of a media track into sections that are
    synthesized on separate connections (scripts/tts_server.py). */
module SectionPlanner {
  import opened Sequences
  import opened Text

  type Section = seq<Text>

  const PARAGRAPH_BREAK: Text := [NEWLINE, NEWLINE]

  /** The number of characters of the section once its paragraphs are joined. */
  function JoinedLength(section: Section): nat {
    |Join(section, PARAGRAPH_BREAK)|
  }

  /** A section is acceptable if it is a single paragraph or fits the budget. */
  predicate Fits(section: Section, budget: int) {
    section != [] && (|section| == 1 || JoinedLength(section) <= budget)
  }

  /** An ordered partition of the paragraphs into acceptable sections. */
  ghost predicate IsPlan(plan: seq<Section>, paragraphs: seq<Text>, budget: int) {
    && Flatten(plan) == paragraphs
    && forall i :: 0 <= i < |plan| ==> Fits(plan[i], budget)
  }

  /** No section could have taken the first paragraph of the next one. */
  ghost predicate Tight(plan: seq<Section>, budget: int) {
    forall i, j {:trigger plan[i], plan[j]} :: 0 <= i < j < |plan| && j == i + 1 && plan[j] != [] ==>
      JoinedLength(plan[i] + [plan[j][0]]) > budget
  }

  /** Total length of the paragraphs, without separators. */
  function TotalLength(section: Section): nat {
    if section == [] then 0 else |section[0]| + TotalLength(section[1..])
  }

  lemma {:induction false} TotalLengthConcat(a: Section, b: Section)
    ensures TotalLength(a + b) == TotalLength(a) + TotalLength(b)
  {
    if a == [] {
      assert a + b == b;
    } else {
      assert (a + b)[1..] == a[1..] + b;
      TotalLengthConcat(a[1..], b);
    }
  }

  lemma {:induction false} JoinedLengthIsTotal(section: Section)
    ensures section != [] ==> JoinedLength(section) == TotalLength(section) + 2 * (|section| - 1)
    ensures section == [] ==> JoinedLength(section) == 0
  {
    if |section| > 1 { JoinedLengthIsTotal(section[1..]); }
  }

  /** A run of consecutive paragraphs is no longer than the section it lies in. */
  lemma RunNoLonger(before: Section, run: Section, after: Section)
    requires run != []
    ensures JoinedLength(run) <= JoinedLength(before + run + after)
  {
    TotalLengthConcat(before, run);
    TotalLengthConcat(before + run, after);
    JoinedLengthIsTotal(run);
    JoinedLengthIsTotal(before + run + after);
  }

  /** A section that reaches one paragraph past `head` is over the budget if
      `head` and that paragraph already are. */
  lemma TooLong(first: Section, rest: seq<Text>, lead: seq<Text>, head: Section, next: Text, tail: seq<Text>,
                budget: int)
    requires first + rest == lead + head + ([next] + tail) && head != []
    requires |first| > |lead| + |head|
    requires JoinedLength(head + [next]) > budget
    ensures !Fits(first, budget)
  {
    var run := head + [next];
    var after := first[|lead| + |run|..];
    assert first == lead + run + after by {
      assert first == (first + rest)[..|first|];
      assert lead + head + ([next] + tail) == lead + run + tail;
      assert (lead + run + tail)[..|lead| + |run|] == lead + run;
    }
    RunNoLonger(lead, run, after);
  }

  lemma FlattenFirstTwo(plan: seq<Section>)
    requires |plan| > 1 && plan[1] != []
    ensures Flatten(plan) == plan[0] + ([plan[1][0]] + (plan[1][1..] + Flatten(plan[2..])))
  {
    assert plan[1..][1..] == plan[2..];
    assert plan[1] == [plan[1][0]] + plan[1][1..];
  }

  /** A section that starts no later than the first tight section ends no later. */
  lemma FirstCutIsEarlier(tight: seq<Section>, first: Section, rest: seq<Text>, lead: seq<Text>, budget: int)
    requires |tight| > 1 && Tight(tight, budget) && Fits(first, budget)
    requires tight[0] != [] && tight[1] != []
    requires first + rest == lead + Flatten(tight)
    ensures |first| <= |lead| + |tight[0]|
  {
    var next, tail := tight[1][0], tight[1][1..] + Flatten(tight[2..]);
    FlattenFirstTwo(tight);
    assert lead + Flatten(tight) == lead + tight[0] + ([next] + tail);
    if |first| > |lead| + |tight[0]| {
      assert JoinedLength(tight[0] + [next]) > budget;
      TooLong(first, rest, lead, tight[0], next, tail, budget);
    }
  }

  /** Stays ahead: a tight plan of the paragraphs that remain once `lead` has
      been covered too needs no more sections than any plan that still has to
      cover `lead`. */
  lemma {:induction false} StaysAhead(tight: seq<Section>, other: seq<Section>, lead: seq<Text>, budget: int)
    requires forall i :: 0 <= i < |tight| ==> Fits(tight[i], budget)
    requires forall i :: 0 <= i < |other| ==> Fits(other[i], budget)
    requires Tight(tight, budget)
    requires Flatten(other) == lead + Flatten(tight)
    ensures |tight| <= |other|
    decreases |other|
  {
    if tight != [] {
      assert Flatten(tight)[0] == tight[0][0];
      var first, others := other[0], other[1..];
      if |first| <= |lead| {
        var lead' := lead[|first|..];
        assert lead == first + lead' by { assert first == Flatten(other)[..|first|]; }
        assert Flatten(others) == lead' + Flatten(tight) by {
          assert Flatten(other)[|first|..] == lead' + Flatten(tight);
          assert Flatten(other)[|first|..] == Flatten(others);
        }
        StaysAhead(tight, others, lead', budget);
      } else if |tight| > 1 {
        FirstCutIsEarlier(tight, first, Flatten(others), lead, budget);
        var taken := |first| - |lead|;
        var lead' := tight[0][taken..];
        assert Flatten(others) == lead' + Flatten(tight[1..]) by {
          assert Flatten(other)[|first|..] == Flatten(others);
          assert (lead + Flatten(tight))[|first|..] == Flatten(tight)[taken..];
        }
        StaysAhead(tight[1..], others, lead', budget);
      }
    }
  }

  /** A tight plan uses the fewest sections of all plans. */
  lemma TightIsOptimal(tight: seq<Section>, other: seq<Section>, paragraphs: seq<Text>, budget: int)
    requires IsPlan(tight, paragraphs, budget) && Tight(tight, budget)
    requires IsPlan(other, paragraphs, budget)
    ensures |tight| <= |other|
  {
    assert paragraphs == [] + Flatten(tight);
    StaysAhead(tight, other, [], budget);
  }

  /** There is only one tight plan, so the contract of SplitSections fixes its result. */
  lemma {:induction false} TightIsUnique(a: seq<Section>, b: seq<Section>, paragraphs: seq<Text>, budget: int)
    requires IsPlan(a, paragraphs, budget) && Tight(a, budget)
    requires IsPlan(b, paragraphs, budget) && Tight(b, budget)
    ensures a == b
    decreases |a|
  {
    if a != [] && b != [] {
      if |a| > 1 { FirstCutIsEarlier(a, b[0], Flatten(b[1..]), [], budget); }
      if |b| > 1 { FirstCutIsEarlier(b, a[0], Flatten(a[1..]), [], budget); }
      if |a| == 1 { assert Flatten(a) == a[0]; }
      if |b| == 1 { assert Flatten(b) == b[0]; }
      assert |a[0]| == |b[0]|;
      assert a[0] == paragraphs[..|a[0]|] == b[0];
      assert Flatten(a[1..]) == paragraphs[|a[0]|..] == Flatten(b[1..]);
      TightIsUnique(a[1..], b[1..], paragraphs[|a[0]|..], budget);
    } else {
      assert |a| == 0 || |Flatten(a)| > 0;
      assert |b| == 0 || |Flatten(b)| > 0;
    }
  }

  lemma TightWithNext(plan: seq<Section>, next: Text, budget: int)
    requires Tight(plan, budget) && plan != []
    requires JoinedLength(plan[|plan| - 1] + [next]) > budget
    ensures Tight(plan + [[next]], budget)
  {
    var plan' := plan + [[next]];
    forall i, j | 0 <= i < j < |plan'| && j == i + 1 && plan'[j] != []
      ensures JoinedLength(plan'[i] + [plan'[j][0]]) > budget
    {
      assert plan[i] == plan'[i];
      if j < |plan| { assert plan[j] == plan'[j]; }
    }
  }

  lemma TightWithLonger(plan: seq<Section>, current: Section, next: Text, budget: int)
    requires Tight(plan + [current], budget) && (plan != [] ==> current != [])
    ensures Tight(plan + [current + [next]], budget)
  {
    var before, plan' := plan + [current], plan + [current + [next]];
    forall i, j | 0 <= i < j < |plan'| && j == i + 1 && plan'[j] != []
      ensures JoinedLength(plan'[i] + [plan'[j][0]]) > budget
    {
      assert before[i] == plan'[i] && before[j][0] == plan'[j][0];
    }
  }

  /** The closed sections and the current one cover the paragraphs seen so far. */
  ghost predicate Covers(sections: seq<Section>, current: Section, done: seq<Text>, budget: int) {
    && Flatten(sections) + current == done
    && (forall k :: 0 <= k < |sections| ==> Fits(sections[k], budget))
    && (done != [] ==> Fits(current, budget))
    && (current == [] ==> sections == [])
    && Tight(sections + [current], budget)
  }

  lemma CoversLonger(sections: seq<Section>, current: Section, done: seq<Text>, next: Text, budget: int)
    requires Covers(sections, current, done, budget)
    requires current == [] || JoinedLength(current + [next]) <= budget
    ensures Covers(sections, current + [next], done + [next], budget)
  {
    TightWithLonger(sections, current, next, budget);
    assert Flatten(sections) + (current + [next]) == done + [next];
  }

  lemma CoversNext(sections: seq<Section>, current: Section, done: seq<Text>, next: Text, budget: int)
    requires Covers(sections, current, done, budget)
    requires current != [] && JoinedLength(current + [next]) > budget
    ensures Covers(sections + [current], [next], done + [next], budget)
  {
    FlattenSnoc(sections, current);
    TightWithNext(sections + [current], next, budget);
  }

  /** Groups consecutive paragraphs greedily. The result is an ordered
      partition into acceptable sections with the fewest sections possible. */
  method SplitSections(paragraphs: seq<Text>, budget: int) returns (sections: seq<Section>)
    ensures IsPlan(sections, paragraphs, budget)
    ensures Tight(sections, budget)
    ensures forall plan :: IsPlan(plan, paragraphs, budget) ==> |sections| <= |plan|
  {
    hide Fits;
    sections := [];
    var current: Section := [];
    var used := 0;
    for i := 0 to |paragraphs|
      invariant Covers(sections, current, paragraphs[..i], budget)
      invariant used == JoinedLength(current)
    {
      var paragraph := paragraphs[i];
      var separator := if current != [] then 2 else 0;
      var needed := used + separator + |paragraph|;
      JoinSnoc(current, paragraph, PARAGRAPH_BREAK);
      assert paragraphs[..i + 1] == paragraphs[..i] + [paragraph];
      if current != [] && needed > budget {
        CoversNext(sections, current, paragraphs[..i], paragraph, budget);
        sections := sections + [current];
        current := [];
        used := 0;
        separator := 0;
      } else {
        CoversLonger(sections, current, paragraphs[..i], paragraph, budget);
      }
      assert current == [] ==> current + [paragraph] == [paragraph];
      current := current + [paragraph];
      used := used + separator + |paragraph|;
    }
    assert paragraphs[..|paragraphs|] == paragraphs;
    if current != [] {
      FlattenSnoc(sections, current);
      sections := sections + [current];
    }
    forall plan | IsPlan(plan, paragraphs, budget) ensures |sections| <= |plan| {
      TightIsOptimal(sections, plan, paragraphs, budget);
    }
  }
}
