/** Splitting text into speech requests of at most 320 characters in the
    browser (public/static/reader/epub/script.js, splitTextIntoChunks). */
module SpeechChunks {
  import opened Sequences
  import opened Text

  const MAX_LENGTH: nat := 320

  /** A speech request and the paragraph it belongs to. */
  datatype Chunk = Chunk(text: Text, paragraphIndex: nat)

  /** The characters . ! ? ; and their full-width forms. */
  predicate Terminator(c: nat) {
    c in {0x2E, 0x21, 0x3F, 0x3B, 0x3002, 0xFF01, 0xFF1F, 0xFF1B}
  }

  /** Length of the leading run of terminators (or, if `terminators` is false, of other characters). */
  function Run(s: Text, terminators: bool): (n: nat)
    ensures n <= |s|
    ensures s != [] && Terminator(s[0]) == terminators ==> n > 0
    ensures n < |s| ==> Terminator(s[n]) != terminators
  {
    if s == [] || Terminator(s[0]) != terminators then 0 else 1 + Run(s[1..], terminators)
  }

  /** Where the first match ends: after other characters and then terminators. */
  function SentenceEnd(s: Text): (m: nat)
    requires s != [] && !Terminator(s[0])
    ensures 0 < m <= |s|
    ensures m < |s| ==> !Terminator(s[m])
  {
    var n := Run(s, false);
    assert n + Run(s[n..], true) < |s| ==> s[n + Run(s[n..], true)] == s[n..][Run(s[n..], true)];
    n + Run(s[n..], true)
  }

  /** All matches of "other characters followed by terminators". */
  function Sentences(s: Text): seq<Text>
    decreases |s|
  {
    if s == [] then []
    else if Terminator(s[0]) then Sentences(s[1..])
    else [s[..SentenceEnd(s)]] + Sentences(s[SentenceEnd(s)..])
  }

  /** What is read aloud of a paragraph: a paragraph of terminators only is
      kept whole, otherwise the leading run of terminators is skipped. */
  function Spoken(s: Text): Text {
    var n := Run(s, true);
    if n == |s| then s else s[n..]
  }

  function SentencesOrWhole(s: Text): seq<Text> {
    if Sentences(s) == [] then [s] else Sentences(s)
  }

  lemma RunOfTerminators(s: Text)
    ensures s == [] || !Terminator(s[0]) ==> Run(s, true) == 0
    ensures s != [] && Terminator(s[0]) ==> Run(s, true) == 1 + Run(s[1..], true)
  {
    hide Terminator;
  }

  lemma SentencesFirst(s: Text)
    requires s != [] && !Terminator(s[0])
    ensures Sentences(s) == [s[..SentenceEnd(s)]] + Sentences(s[SentenceEnd(s)..])
  {
    hide Terminator, Run, SentenceEnd;
  }

  lemma SentencesSkip(s: Text)
    requires s != [] && Terminator(s[0])
    ensures Sentences(s) == Sentences(s[1..])
  {
    hide Terminator, Run, SentenceEnd;
  }

  lemma NoSentences()
    ensures Sentences([]) == []
  {
  }

  lemma {:induction false} SentencesCover(s: Text)
    ensures Flatten(Sentences(s)) == s[Run(s, true)..]
    ensures Sentences(s) == [] <==> Run(s, true) == |s|
    decreases |s|
  {
    hide Sentences, Run, Terminator, SentenceEnd;
    RunOfTerminators(s);
    if s == [] {
      NoSentences();
    } else if Terminator(s[0]) {
      SentencesSkip(s);
      SentencesCover(s[1..]);
    } else {
      SentencesFirst(s);
      var m := SentenceEnd(s);
      SentencesCover(s[m..]);
      RunOfTerminators(s[m..]);
      assert m < |s| ==> s[m..][0] == s[m];
      assert s[m..][0..] == s[m..] && s == s[..m] + s[m..];
    }
  }

  lemma SentencesOrWholeCover(s: Text)
    ensures Flatten(SentencesOrWhole(s)) == Spoken(s)
  {
    SentencesCover(s);
    assert Flatten([s]) == s;
  }

  // ---------- packing sentences into chunks ----------

  /** The last space at or before MAX_LENGTH, unless that would leave less than half a chunk. */
  function SplitPoint(s: Text): (at: nat)
    requires |s| > MAX_LENGTH
    ensures MAX_LENGTH / 2 <= at <= MAX_LENGTH
  {
    var at := LastSpace(s, MAX_LENGTH);
    if at < MAX_LENGTH / 2 then MAX_LENGTH else at
  }

  function Emit(s: Text): seq<Text> {
    if JsTrim(s) == [] then [] else [JsTrim(s)]
  }

  /** The full chunks cut off an overlong sentence, and what remains of it. */
  function Break(s: Text): (r: (seq<Text>, Text))
    decreases |s|
  {
    if |s| > MAX_LENGTH then
      var at := SplitPoint(s);
      var rest := Break(JsTrim(s[at..]));
      (Emit(s[..at]) + rest.0, rest.1)
    else ([], s)
  }

  /** Whether the chunk being filled is closed before `s` is added, and what is kept of it. */
  predicate Flush(current: Text, s: Text) {
    current != [] && |current| + |s| + 1 > MAX_LENGTH
  }

  function Kept(current: Text, s: Text): Text {
    if Flush(current, s) || current == [] then [] else current + [SPACE]
  }

  function Flushed(current: Text, s: Text): seq<Text> {
    if Flush(current, s) then Emit(current) else []
  }

  /** The chunks produced from here on when `current` is still being filled. */
  function Fill(sentences: seq<Text>, current: Text): seq<Text> {
    if sentences == [] then Emit(current)
    else
      var s := JsTrim(sentences[0]);
      if s == [] then Fill(sentences[1..], current)
      else
        Flushed(current, s) + Break(s).0 + Fill(sentences[1..], Kept(current, s) + Break(s).1)
  }

  function ParagraphChunks(text: Text): seq<Text> {
    var para := JsTrim(text);
    if para == [] then [] else Fill(SentencesOrWhole(para), [])
  }

  ghost predicate GoodChunk(s: Text) {
    0 < |s| <= MAX_LENGTH && JsTrimmed(s)
  }

  ghost predicate AllGood(chunks: seq<Text>) {
    forall c :: c in chunks ==> GoodChunk(c)
  }

  lemma EmitKeeps(s: Text)
    requires |s| <= MAX_LENGTH
    ensures AllGood(Emit(s))
    ensures JsVisible(Flatten(Emit(s))) == JsVisible(s)
  {
    hide JsTrim, JsVisible;
    JsTrimFacts(s);
    JsVisibleConcat([], []);
    assert Flatten([JsTrim(s)]) == JsTrim(s);
  }

  lemma AllGoodConcat(a: seq<Text>, b: seq<Text>, c: seq<Text>)
    requires AllGood(a) && AllGood(b) && AllGood(c)
    ensures AllGood(a + b + c)
  {
  }

  lemma EmptyKeeps()
    ensures JsVisible([]) == [] && Flatten<nat>([]) == []
  {
  }

  lemma FillStepKeeps(flushed: seq<Text>, broken: seq<Text>, rest: seq<Text>, kept: Text, last: Text)
    ensures JsVisible(Flatten(flushed + broken + rest))
         == JsVisible(Flatten(flushed)) + JsVisible(Flatten(broken)) + JsVisible(Flatten(rest))
    ensures JsVisible(kept + last) == JsVisible(kept) + JsVisible(last)
  {
    hide JsVisible;
    FlattenConcat(flushed + broken, rest);
    FlattenConcat(flushed, broken);
    JsVisibleConcat(Flatten(flushed) + Flatten(broken), Flatten(rest));
    JsVisibleConcat(Flatten(flushed), Flatten(broken));
    JsVisibleConcat(kept, last);
  }

  lemma {:induction false} BreakKeeps(s: Text)
    requires JsTrimmed(s)
    ensures AllGood(Break(s).0) && |Break(s).1| <= MAX_LENGTH
    ensures JsVisible(Flatten(Break(s).0)) + JsVisible(Break(s).1) == JsVisible(s)
    ensures |s| <= MAX_LENGTH ==> Break(s) == ([], s)
    decreases |s|
  {
    hide JsTrim, Emit, JsVisible, GoodChunk, JsTrimmed, LastSpace, Flatten;
    if |s| > MAX_LENGTH {
      var at := SplitPoint(s);
      var tail := JsTrim(s[at..]);
      JsTrimFacts(s[at..]);
      BreakKeeps(tail);
      EmitKeeps(s[..at]);
      EmptyKeeps();
      AllGoodConcat([], Emit(s[..at]), Break(tail).0);
      assert Break(s) == (Emit(s[..at]) + Break(tail).0, Break(tail).1);
      hide SplitPoint, Break, AllGood;
      FillStepKeeps([], Emit(s[..at]), Break(tail).0, s[..at], s[at..]);
      assert s == s[..at] + s[at..];
      assert [] + Emit(s[..at]) == Emit(s[..at]);
    } else {
      EmptyKeeps();
    }
  }

  lemma FlushedKeeps(current: Text, s: Text)
    requires |current| <= MAX_LENGTH
    ensures AllGood(Flushed(current, s))
    ensures JsVisible(Flatten(Flushed(current, s))) + JsVisible(Kept(current, s)) == JsVisible(current)
    ensures |s| > MAX_LENGTH ==> Kept(current, s) == []
  {
    EmptyKeeps();
    hide JsVisible, Emit, GoodChunk, Flatten;
    EmitKeeps(current);
    JsVisibleConcat(current, [SPACE]);
  }

  lemma Regroup(flushed: Text, broken: Text, kept: Text, last: Text, rest: Text, current: Text, s: Text)
    requires flushed + kept == current && broken + last == s
    requires broken == [] || kept == []
    ensures flushed + broken + (kept + last + rest) == current + (s + rest)
  {
  }

  lemma BrokenLength(current: Text, s: Text)
    requires JsTrimmed(s)
    ensures |Kept(current, s) + Break(s).1| <= MAX_LENGTH
  {
    BreakKeeps(s);
  }

  lemma FillNext(sentences: seq<Text>, current: Text)
    requires sentences != []
    ensures var s, rest := JsTrim(sentences[0]), sentences[1..];
      && (s == [] ==> Fill(sentences, current) == Fill(rest, current))
      && (s != [] ==>
            Fill(sentences, current) == Flushed(current, s) + Break(s).0 + Fill(rest, Kept(current, s) + Break(s).1))
  {
    hide JsTrim, Break, Emit, Flushed, Kept;
  }

  lemma FillSkips(sentences: seq<Text>, current: Text)
    requires sentences != [] && JsTrim(sentences[0]) == []
    ensures Fill(sentences, current) == Fill(sentences[1..], current)
  {
    hide JsTrim;
  }

  lemma FillEnds(current: Text)
    ensures Fill([], current) == Emit(current)
  {
  }

  /** Packing keeps the visible characters and respects the length limit. */
  lemma {:induction false} FillKeeps(sentences: seq<Text>, current: Text)
    requires |current| <= MAX_LENGTH
    ensures AllGood(Fill(sentences, current))
    ensures JsVisible(Flatten(Fill(sentences, current))) == JsVisible(current) + JsVisible(Flatten(sentences))
    decreases |sentences|
  {
    hide JsTrim, JsVisible, JsTrimmed, Break, Emit, AllGood, Flushed, Kept, Fill;
    EmitKeeps(current);
    EmptyKeeps();
    if sentences == [] {
      FillEnds(current);
      assert JsVisible(current) + [] == JsVisible(current);
    } else {
      var s, rest := JsTrim(sentences[0]), sentences[1..];
      JsTrimFacts(sentences[0]);
      assert Flatten(sentences) == sentences[0] + Flatten(rest);
      hide Flatten;
      JsVisibleConcat(sentences[0], Flatten(rest));
      if s == [] {
        FillSkips(sentences, current);
        FillKeeps(rest, current);
      } else {
        BreakKeeps(s);
        FlushedKeeps(current, s);
        BrokenLength(current, s);
        var flushed, kept, broken, last := Flushed(current, s), Kept(current, s), Break(s).0, Break(s).1;
        var more := Fill(rest, kept + last);
        FillNext(sentences, current);
        FillKeeps(rest, kept + last);
        FillStepKeeps(flushed, broken, more, kept, last);
        Regroup(JsVisible(Flatten(flushed)), JsVisible(Flatten(broken)), JsVisible(kept), JsVisible(last),
                JsVisible(Flatten(rest)), JsVisible(current), JsVisible(s));
        AllGoodConcat(flushed, broken, more);
      }
    }
  }

  /** Each chunk is nonempty and at most 320 characters long; together the
      chunks of a paragraph hold exactly its spoken visible characters. */
  lemma ParagraphChunksKeep(text: Text)
    ensures AllGood(ParagraphChunks(text))
    ensures JsVisible(Flatten(ParagraphChunks(text)))
         == JsVisible(Spoken(JsTrim(text)))
  {
    hide JsTrim, JsVisible, Fill, SentencesOrWhole;
    var para := JsTrim(text);
    JsVisibleConcat([], []);
    if para != [] {
      FillKeeps(SentencesOrWhole(para), []);
      SentencesOrWholeCover(para);
    }
  }

  // ---------- where chunks end ----------

  /** One of the characters . ! ? ; or of their full-width forms. */
  predicate EndsSentence(c: nat) {
    || c in {'.' as nat, '!' as nat, '?' as nat, ';' as nat}
    || c in {0x3002, 0xFF01, 0xFF1F, 0xFF1B}
  }

  /** First `n` characters that end no sentence and then only such as do; at least one of these if `ended`. */
  ghost predicate SentenceOf(s: Text, n: nat, ended: bool) {
    && 0 < n <= |s| && (ended ==> n < |s|)
    && (forall i :: 0 <= i < n ==> !EndsSentence(s[i])) && (forall i :: n <= i < |s| ==> EndsSentence(s[i]))
  }

  ghost predicate IsSentence(s: Text, ended: bool) { exists n: nat :: SentenceOf(s, n, ended) }

  lemma {:induction false} RunIs(s: Text, terminators: bool)
    ensures forall i :: 0 <= i < Run(s, terminators) ==> EndsSentence(s[i]) == terminators
  {
    if s != [] && Terminator(s[0]) == terminators {
      RunIs(s[1..], terminators);
      forall i | 0 <= i < Run(s, terminators) ensures EndsSentence(s[i]) == terminators {
        if i > 0 { assert s[i] == s[1..][i - 1]; }
      }
    }
  }

  lemma RunsAre(s: Text, n: nat, k: nat)
    requires n == Run(s, false) && k == Run(s[n..], true) && n > 0
    ensures n + k <= |s| && IsSentence(s[..n + k], n + k < |s|) && IsSentence(s[..n + k], false)
  {
    hide EndsSentence, Terminator, Run;
    RunIs(s, false);
    RunIs(s[n..], true);
    var first := s[..n + k];
    forall i | n <= i < |first| ensures EndsSentence(first[i]) { assert first[i] == s[n..][i - n]; }
    forall i | 0 <= i < n ensures !EndsSentence(first[i]) { assert first[i] == s[i]; }
    assert SentenceOf(first, n, n + k < |s|) && SentenceOf(first, n, false);
  }

  lemma FirstSentence(s: Text) returns (m: nat)
    requires s != [] && !Terminator(s[0])
    ensures 0 < m <= |s| && IsSentence(s[..m], m < |s|) && IsSentence(s[..m], false)
    ensures Sentences(s) == [s[..m]] + Sentences(s[m..])
  {
    hide Terminator, IsSentence, Run, Sentences;
    var n := Run(s, false);
    var k := Run(s[n..], true);
    SentencesFirst(s);
    RunsAre(s, n, k);
    m := n + k;
  }

  lemma Prepended(first: Text, rest: seq<Text>, ended: bool)
    requires IsSentence(first, ended) && IsSentence(first, false) && (rest != [] ==> ended)
    requires forall i :: 0 <= i < |rest| ==> IsSentence(rest[i], i < |rest| - 1)
    ensures var all := [first] + rest; forall i :: 0 <= i < |all| ==> IsSentence(all[i], i < |all| - 1)
  {
    hide IsSentence;
    var all := [first] + rest;
    forall i | 0 <= i < |all| ensures IsSentence(all[i], i < |all| - 1) {
      if i > 0 { assert all[i] == rest[i - 1]; }
    }
  }

  /** Every match but the last one ends with its terminators. */
  lemma {:induction false} SentencesAre(s: Text)
    ensures var all := Sentences(s);
      forall i :: 0 <= i < |all| ==> IsSentence(all[i], i < |all| - 1)
    decreases |s|
  {
    hide IsSentence, Terminator, Run, Sentences;
    NoSentences();
    if s != [] {
      if Terminator(s[0]) {
        SentencesAre(s[1..]);
        SentencesSkip(s);
      } else {
        var m := FirstSentence(s);
        var all, rest := Sentences(s), Sentences(s[m..]);
        SentencesAre(s[m..]);
        if m == |s| { assert s[m..] == []; }
        Prepended(s[..m], rest, m < |s|);
      }
    }
  }

  function Trimmings(sentences: seq<Text>): seq<Text> {
    if sentences == [] then []
    else (if JsTrim(sentences[0]) == [] then [] else [JsTrim(sentences[0])]) + Trimmings(sentences[1..])
  }

  /** Chunks of sentences: as many sentences as fit into 320 characters, with
      single spaces, and always at least one; of a longer one a front part that
      ends at the last space among characters 160 to 320, or after 320. */
  ghost predicate Packs(sentences: seq<Text>, chunks: seq<Text>)
    decreases |chunks|
  {
    if sentences == [] then chunks == []
    else
      && chunks != []
      && if |sentences[0]| > 320 then
           exists cut: nat, next: nat ::
             && CutsAtSpace(sentences[0], 160, 320, cut) && IsNext(sentences[0], cut, next)
             && chunks[0] == JsTrim(sentences[0][..cut])
             && Packs([sentences[0][next..]] + sentences[1..], chunks[1..])
         else
           exists n: nat ::
             && 1 <= n <= |sentences| && chunks[0] == Join(sentences[..n], [' ' as nat]) && |chunks[0]| <= 320
             && (n < |sentences| ==> |chunks[0]| + 1 + |sentences[n]| > 320)
             && Packs(sentences[n..], chunks[1..])
  }

  ghost predicate AllTrimmed(group: seq<Text>) { forall t :: t in group ==> t != [] && JsTrimmed(t) }

  lemma {:induction false} GroupIsTrimmed(group: seq<Text>)
    requires AllTrimmed(group) && group != []
    ensures Join(group, [SPACE]) != [] && JsTrimmed(Join(group, [SPACE]))
    ensures JsTrim(Join(group, [SPACE])) == Join(group, [SPACE])
  {
    hide JsTrim;
    if |group| > 1 {
      var rest := Join(group[1..], [SPACE]);
      assert group[0] in group && forall t :: t in group[1..] ==> t in group;
      GroupIsTrimmed(group[1..]);
      var all := group[0] + [SPACE] + rest;
      assert all[|all| - 1] == rest[|rest| - 1];
    } else {
      assert group[0] in group;
    }
    JsTrimFacts(Join(group, [SPACE]));
  }

  lemma PackGroup(group: seq<Text>, rest: seq<Text>, chunks: seq<Text>)
    requires group != [] && |group[0]| <= 320 && |Join(group, [SPACE])| <= 320 && Packs(rest, chunks)
    requires rest != [] ==> |Join(group, [SPACE])| + 1 + |rest[0]| > 320
    ensures Packs(group + rest, [Join(group, [SPACE])] + chunks)
  {
    hide Join;
    var all, made := group + rest, [Join(group, [SPACE])] + chunks;
    assert all[..|group|] == group && all[|group|..] == rest && made[1..] == chunks;
  }

  lemma GroupFirstFits(group: seq<Text>)
    requires group != []
    ensures |group[0]| <= |Join(group, [SPACE])|
  {
  }

  lemma Closed(current: Text, s: Text)
    requires current != [] && |current| + |s| + 1 > 320
    ensures Flushed(current, s) == Emit(current) && Kept(current, s) == []
  {
    hide Emit;
  }

  lemma Begun(s: Text)
    ensures Flushed([], s) == [] && Kept([], s) == []
  {
    hide Emit;
  }

  /** A group that is full is closed before the sentence that does not fit. */
  lemma FillCloses(sentences: seq<Text>, current: Text)
    requires sentences != [] && JsTrim(sentences[0]) != [] && current != []
    requires |current| + |JsTrim(sentences[0])| + 1 > 320
    ensures Fill(sentences, current) == Emit(current) + Fill(sentences, [])
  {
    hide JsTrim, Break, Emit, Fill, Kept, Flushed;
    var s := JsTrim(sentences[0]);
    FillNext(sentences, current);
    FillNext(sentences, []);
    Closed(current, s);
    Begun(s);
    var made, rest := Break(s).0, Fill(sentences[1..], [] + Break(s).1);
    assert Emit(current) + made + rest == Emit(current) + ([] + made + rest);
  }

  lemma FillAdds(sentences: seq<Text>, current: Text)
    requires sentences != [] && JsTrim(sentences[0]) != [] && |JsTrim(sentences[0])| <= 320
    requires current == [] || |current| + |JsTrim(sentences[0])| + 1 <= 320
    ensures var s := JsTrim(sentences[0]);
      Fill(sentences, current) == Fill(sentences[1..], if current == [] then s else current + [SPACE] + s)
  {
    hide JsTrim, Emit, Fill;
    FillNext(sentences, current);
    var s := JsTrim(sentences[0]);
    assert Flushed(current, s) == [] && Break(s) == ([], s);
    assert [] + s == s;
  }

  lemma BreakCuts(s: Text, at: nat, tail: Text)
    requires |s| > 320 && at == SplitPoint(s) && JsTrim(s[at..]) == tail && JsTrim(s[..at]) != []
    ensures Break(s) == ([JsTrim(s[..at])] + Break(tail).0, Break(tail).1)
  {
    hide JsTrim, SplitPoint;
  }

  /** An overlong sentence is cut once, and goes on as the next sentence. */
  lemma FillCuts(first: Text, rest: seq<Text>, s: Text, at: nat, tail: Text)
    requires s == JsTrim(first) && |s| > 320 && at == SplitPoint(s) && JsTrim(s[at..]) == tail && JsTrim(s[..at]) != []
    requires tail != [] && JsTrim(tail) == tail
    ensures Fill([first] + rest, []) == [JsTrim(s[..at])] + Fill([tail] + rest, [])
  {
    hide JsTrim, Fill, SplitPoint, Break, Kept, Flushed;
    var longer, shorter := [first] + rest, [tail] + rest;
    FillNext(longer, []);
    FillNext(shorter, []);
    BreakCuts(s, at, tail);
    assert longer[1..] == rest && shorter[1..] == rest;
    Begun(s);
    Begun(tail);
    assert [] + Break(s).1 == Break(tail).1 == [] + Break(tail).1;
    assert [] + Break(s).0 == [JsTrim(s[..at])] + ([] + Break(tail).0);
  }

  lemma TrimmingsFirst(sentences: seq<Text>)
    requires sentences != []
    ensures Trimmings(sentences) ==
      (if JsTrim(sentences[0]) == [] then [] else [JsTrim(sentences[0])]) + Trimmings(sentences[1..])
    ensures Trimmings([]) == []
  {
    hide JsTrim;
  }

  lemma SplitPointCuts(s: Text)
    requires |s| > 320
    ensures CutsAtSpace(s, 160, 320, SplitPoint(s))
  {
    assert s[0..] == s;
    hide CutsAtSpace;
    LastSpaceCuts(s, 0, 160, 320);
  }

  lemma EndsVisibly(s: Text)
    requires s != [] && JsTrimmed(s)
    ensures !JsSpace(s[0]) && !JsSpace(s[|s| - 1])
  {
    hide JsSpace;
  }

  /** The first cut of an overlong sentence, and what it leaves. */
  ghost predicate IsFirstCut(s: Text, cut: nat, next: nat, tail: Text) {
    && |s| > 320 && 0 < cut <= next < |s| && cut == SplitPoint(s) && tail == s[next..] && tail != []
    && CutsAtSpace(s, 160, 320, cut) && IsNext(s, cut, next)
    && JsTrim(s[cut..]) == tail && JsTrim(tail) == tail && JsTrim(s[..cut]) != []
  }

  lemma CutFacts(s: Text) returns (cut: nat, next: nat)
    requires |s| > 320 && JsTrimmed(s)
    ensures 0 < next < |s| && IsFirstCut(s, cut, next, s[next..])
    ensures JsTrim(s[next..]) == s[next..]
  {
    hide JsTrim, JsSpace, CutsAtSpace, IsNext, JsTrimmed, JsVisible, SplitPoint;
    cut := SplitPoint(s);
    SplitPointCuts(s);
    EndsVisibly(s);
    next := TrimmedRest(s, cut);
    NextIsLater(s, cut, next);
    JsTrimFacts(s[cut..]);
    JsTrimFacts(s[next..]);
    JsTrimFacts(s[..cut]);
    assert s[..cut][0] == s[0];
  }

  lemma PackCut(s: Text, rest: seq<Text>, cut: nat, next: nat, chunks: seq<Text>)
    requires |s| > 320 && CutsAtSpace(s, 160, 320, cut) && IsNext(s, cut, next)
    requires next <= |s| && cut <= |s| && Packs([s[next..]] + rest, chunks)
    ensures Packs([s] + rest, [JsTrim(s[..cut])] + chunks)
  {
    hide JsTrim, CutsAtSpace, IsNext;
    var all, made := [s] + rest, [JsTrim(s[..cut])] + chunks;
    assert all[1..] == rest && made[1..] == chunks;
  }

  lemma NothingPacked()
    ensures Packs([], []) && AllTrimmed([])
  {
  }

  lemma CloseGroup(group: seq<Text>, rest: seq<Text>, chunks: seq<Text>)
    requires AllTrimmed(group) && |Join(group, [SPACE])| <= 320 && Packs(rest, chunks)
    requires group != [] && rest != [] ==> |Join(group, [SPACE])| + 1 + |rest[0]| > 320
    ensures Packs(group + rest, Emit(Join(group, [SPACE])) + chunks)
  {
    hide JsTrim, Packs, AllTrimmed;
    if group == [] {
      JsTrimFacts([]);
      assert [] + rest == rest && JsTrim([]) == [] && [] + chunks == chunks;
    } else {
      GroupIsTrimmed(group);
      GroupFirstFits(group);
      PackGroup(group, rest, chunks);
    }
  }

  lemma GroupLonger(group: seq<Text>, s: Text)
    requires AllTrimmed(group) && s != [] && JsTrimmed(s)
    ensures AllTrimmed(group + [s])
    ensures Join(group + [s], [SPACE]) == if group == [] then s else Join(group, [SPACE]) + [SPACE] + s
    ensures group != [] ==> Join(group, [SPACE]) != []
  {
    hide JsTrim;
    JoinSnoc(group, s, [SPACE]);
    if group != [] { GroupIsTrimmed(group); }
  }

  /** If what is left after a cut is packed, so is the whole. */
  lemma CutPacks(first: Text, rest: seq<Text>, s: Text, cut: nat, next: nat, tail: Text)
    requires s == JsTrim(first) && IsFirstCut(s, cut, next, tail)
    requires Packs(Trimmings([tail] + rest), Fill([tail] + rest, []))
    ensures Packs(Trimmings([first] + rest), Fill([first] + rest, []))
  {
    hide JsTrim, Fill, Packs, Trimmings, SplitPoint, CutsAtSpace, IsNext;
    FillCuts(first, rest, s, cut, tail);
    var longer, shorter := [first] + rest, [tail] + rest;
    TrimmingsFirst(longer);
    TrimmingsFirst(shorter);
    assert shorter[1..] == rest && longer[1..] == rest;
    PackCut(s, Trimmings(rest), cut, next, Fill(shorter, []));
  }

  /** Filling packs the group begun and the sentences that follow. */
  lemma {:induction false} FillPacks(sentences: seq<Text>, group: seq<Text>)
    requires AllTrimmed(group) && |Join(group, [SPACE])| <= 320
    ensures Packs(group + Trimmings(sentences), Fill(sentences, Join(group, [SPACE])))
    ensures group == [] ==> Packs(Trimmings(sentences), Fill(sentences, []))
    decreases |sentences|, if sentences == [] then 0 else |JsTrim(sentences[0])|, |group|
  {
    hide JsTrim, JsTrimmed, Join, Fill, Packs, AllTrimmed, Trimmings, SplitPoint, Emit, IsFirstCut;
    var current := Join(group, [SPACE]);
    JoinFirst([], [], [SPACE]);
    NothingPacked();
    assert group == [] ==> group + Trimmings(sentences) == Trimmings(sentences);
    if sentences == [] {
      FillEnds(current);
      TrimmingsFirst([[]]);
      CloseGroup(group, [], []);
      assert Emit(current) + [] == Emit(current);
    } else {
      var s, rest := JsTrim(sentences[0]), sentences[1..];
      JsTrimFacts(sentences[0]);
      TrimmingsFirst(sentences);
      if s == [] {
        FillSkips(sentences, current);
        assert [] + Trimmings(rest) == Trimmings(rest);
        FillPacks(rest, group);
      } else if group != [] && |current| + |s| + 1 > 320 {
        GroupIsTrimmed(group);
        FillCloses(sentences, current);
        FillPacks(sentences, []);
        assert [] + Trimmings(sentences) == Trimmings(sentences);
        GroupFirstFits(group);
        CloseGroup(group, Trimmings(sentences), Fill(sentences, []));
      } else if |s| <= 320 {
        GroupLonger(group, s);
        FillAdds(sentences, current);
        FillPacks(rest, group + [s]);
        assert group + ([s] + Trimmings(rest)) == group + [s] + Trimmings(rest);
      } else {
        var cut, next := CutFacts(s);
        FillPacks([s[next..]] + rest, []);
        assert [sentences[0]] + rest == sentences;
        CutPacks(sentences[0], rest, s, cut, next, s[next..]);
      }
    }
  }

  /** The chunks of a paragraph pack its sentences, one chunk after the other. */
  lemma ChunksPack(text: Text)
    ensures JsTrim(text) != [] ==> Packs(Trimmings(SentencesOrWhole(JsTrim(text))), ParagraphChunks(text))
  {
    hide JsTrim, Fill, Packs, Trimmings, SentencesOrWhole;
    var para := JsTrim(text);
    NothingPacked();
    JoinFirst([], [], [SPACE]);
    if para != [] {
      FillPacks(SentencesOrWhole(para), []);
      assert [] + Trimmings(SentencesOrWhole(para)) == Trimmings(SentencesOrWhole(para));
    }
  }

  // ---------- the whole text ----------

  function Label(texts: seq<Text>, index: nat): seq<Chunk> {
    if texts == [] then [] else [Chunk(texts[0], index)] + Label(texts[1..], index)
  }

  /** The chunks of all paragraphs, in paragraph order. */
  function AllChunks(sources: seq<Text>): seq<Chunk> {
    if sources == [] then []
    else
      var last := |sources| - 1;
      AllChunks(sources[..last]) + Label(ParagraphChunks(sources[last]), last)
  }

  /** The texts of the chunks of paragraph `index`. */
  function ChunksOf(chunks: seq<Chunk>, index: nat): seq<Text> {
    if chunks == [] then []
    else (if chunks[0].paragraphIndex == index then [chunks[0].text] else []) + ChunksOf(chunks[1..], index)
  }

  lemma {:induction false} ChunksOfConcat(a: seq<Chunk>, b: seq<Chunk>, index: nat)
    ensures ChunksOf(a + b, index) == ChunksOf(a, index) + ChunksOf(b, index)
  {
    if a == [] {
      assert a + b == b;
    } else {
      assert (a + b)[1..] == a[1..] + b;
      ChunksOfConcat(a[1..], b, index);
    }
  }

  lemma {:induction false} ChunksOfLabel(texts: seq<Text>, owner: nat, index: nat)
    ensures ChunksOf(Label(texts, owner), index) == if owner == index then texts else []
  {
    if texts != [] {
      ChunksOfLabel(texts[1..], owner, index);
      assert Label(texts, owner)[1..] == Label(texts[1..], owner);
    }
  }

  ghost predicate InParagraphOrder(chunks: seq<Chunk>) {
    forall i, j :: 0 <= i < j < |chunks| ==> chunks[i].paragraphIndex <= chunks[j].paragraphIndex
  }

  lemma {:induction false} LabelIndexes(texts: seq<Text>, owner: nat)
    ensures forall i :: 0 <= i < |Label(texts, owner)| ==> Label(texts, owner)[i].paragraphIndex == owner
  {
    if texts != [] { LabelIndexes(texts[1..], owner); }
  }

  lemma {:induction false} AllChunksInOrder(sources: seq<Text>)
    ensures InParagraphOrder(AllChunks(sources))
    ensures forall i :: 0 <= i < |AllChunks(sources)| ==> AllChunks(sources)[i].paragraphIndex < |sources|
  {
    hide ParagraphChunks;
    if sources != [] {
      var last := |sources| - 1;
      AllChunksInOrder(sources[..last]);
      LabelIndexes(ParagraphChunks(sources[last]), last);
    }
  }

  /** The chunks appear in paragraph order, and those of one paragraph are
      exactly that paragraph's chunks. */
  lemma {:induction false} AllChunksByParagraph(sources: seq<Text>, index: nat)
    ensures InParagraphOrder(AllChunks(sources))
    ensures ChunksOf(AllChunks(sources), index)
         == if index < |sources| then ParagraphChunks(sources[index]) else []
  {
    hide ParagraphChunks, InParagraphOrder;
    AllChunksInOrder(sources);
    if sources != [] {
      var last := |sources| - 1;
      AllChunksByParagraph(sources[..last], index);
      ChunksOfLabel(ParagraphChunks(sources[last]), last, index);
      ChunksOfConcat(AllChunks(sources[..last]), Label(ParagraphChunks(sources[last]), last), index);
    }
  }

  lemma ChunkInOwn(chunks: seq<Chunk>, i: nat)
    requires i < |chunks|
    ensures chunks[i].text in ChunksOf(chunks, chunks[i].paragraphIndex)
  {
    if i > 0 { ChunkInOwn(chunks[1..], i - 1); }
  }

  /** Good chunks in paragraph order that hold, paragraph by paragraph, exactly
      what is spoken of it. */
  ghost predicate Speaks(chunks: seq<Chunk>, sources: seq<Text>) {
    && (forall i :: 0 <= i < |chunks| ==> GoodChunk(chunks[i].text) && chunks[i].paragraphIndex < |sources|)
    && InParagraphOrder(chunks)
    && (forall k :: 0 <= k < |sources| ==>
          JsVisible(Flatten(ChunksOf(chunks, k))) == JsVisible(Spoken(JsTrim(sources[k]))))
  }

  lemma AllChunksSpeak(sources: seq<Text>)
    ensures Speaks(AllChunks(sources), sources)
  {
    hide AllChunks, ChunksOf, ParagraphChunks, InParagraphOrder, GoodChunk, JsVisible, JsTrim, Spoken, Flatten;
    var chunks := AllChunks(sources);
    AllChunksInOrder(sources);
    forall k | 0 <= k < |sources|
      ensures AllGood(ChunksOf(chunks, k))
      ensures JsVisible(Flatten(ChunksOf(chunks, k))) == JsVisible(Spoken(JsTrim(sources[k])))
    {
      AllChunksByParagraph(sources, k);
      ParagraphChunksKeep(sources[k]);
    }
    forall i | 0 <= i < |chunks| ensures GoodChunk(chunks[i].text) {
      ChunkInOwn(chunks, i);
      assert AllGood(ChunksOf(chunks, chunks[i].paragraphIndex));
    }
  }

  function CountNonempty(sources: seq<Text>): nat {
    if sources == [] then 0
    else CountNonempty(sources[..|sources| - 1]) + (if JsTrim(sources[|sources| - 1]) == [] then 0 else 1)
  }

  lemma {:induction false} CountIs(sources: seq<Text>)
    ensures CountNonempty(sources) == |set k: nat | k < |sources| && JsTrim(sources[k]) != []|
  {
    hide JsTrim;
    var all := set k: nat | k < |sources| && JsTrim(sources[k]) != [];
    if sources == [] {
      assert all == {};
    } else {
      var front, last := sources[..|sources| - 1], |sources| - 1;
      CountIs(front);
      var before := set k: nat | k < |front| && JsTrim(front[k]) != [];
      assert all == before + if JsTrim(sources[last]) == [] then {} else {last as nat};
    }
  }

  function LineLength(text: Text): (n: nat)
    ensures n <= |text| && (n < |text| ==> text[n] == NEWLINE)
  {
    if text == [] || text[0] == NEWLINE then 0 else 1 + LineLength(text[1..])
  }

  function DropNewlines(text: Text): (r: Text)
    ensures |r| <= |text| && (text != [] && text[0] == NEWLINE ==> |r| < |text|)
  {
    if text == [] || text[0] != NEWLINE then text else DropNewlines(text[1..])
  }

  /** text.split(/\n+/) */
  function Lines(text: Text): seq<Text>
    decreases |text|
  {
    var n := LineLength(text);
    if n == |text| then [text] else [text[..n]] + Lines(DropNewlines(text[n..]))
  }

  lemma {:induction false} DropNewlinesKeeps(text: Text)
    ensures JsVisible(DropNewlines(text)) == JsVisible(text)
  {
    if text != [] && text[0] == NEWLINE { DropNewlinesKeeps(text[1..]); }
  }

  /** Without a paragraph list the text is cut at line breaks, losing nothing visible. */
  lemma {:induction false} LinesKeep(text: Text)
    ensures JsVisible(Flatten(Lines(text))) == JsVisible(text)
    decreases |text|
  {
    var n := LineLength(text);
    if n == |text| {
      assert Flatten([text]) == text;
    } else {
      var rest := DropNewlines(text[n..]);
      LinesKeep(rest);
      DropNewlinesKeeps(text[n..]);
      assert text == text[..n] + text[n..];
      JsVisibleConcat(text[..n], text[n..]);
      JsVisibleConcat(text[..n], Flatten(Lines(rest)));
    }
  }

  function TrimAll(texts: seq<Text>): seq<Text> {
    if texts == [] then [] else [JsTrim(texts[0])] + TrimAll(texts[1..])
  }

  function Sources(text: Text, paragraphs: seq<Text>): seq<Text> {
    if paragraphs != [] then paragraphs else TrimAll(Lines(text))
  }

  lemma {:induction false} LabelConcat(a: seq<Text>, b: seq<Text>, index: nat)
    ensures Label(a + b, index) == Label(a, index) + Label(b, index)
  {
    if a == [] {
      assert a + b == b;
    } else {
      assert (a + b)[1..] == a[1..] + b;
      LabelConcat(a[1..], b, index);
    }
  }

  lemma BreakStep(s: Text, index: nat)
    ensures |s| > MAX_LENGTH ==>
      var rest := Break(JsTrim(s[SplitPoint(s)..]));
      Break(s).1 == rest.1 && Label(Break(s).0, index) == Label(Emit(s[..SplitPoint(s)]), index) + Label(rest.0, index)
    ensures |s| <= MAX_LENGTH ==> Break(s).1 == s && Label(Break(s).0, index) == []
  {
    hide JsTrim, SplitPoint, Emit;
    if |s| > MAX_LENGTH {
      LabelConcat(Emit(s[..SplitPoint(s)]), Break(JsTrim(s[SplitPoint(s)..])).0, index);
    }
  }

  function Append(chunks: seq<Chunk>, text: Text, index: nat): (r: seq<Chunk>)
    ensures r == chunks + Label(Emit(text), index)
  {
    hide JsTrim;
    var value := JsTrim(text);
    assert Label([value], index) == [Chunk(value, index)];
    if value == [] then chunks else chunks + [Chunk(value, index)]
  }

  /** Cuts full chunks off an overlong sentence. */
  method AppendBroken(chunks: seq<Chunk>, text: Text, index: nat) returns (all: seq<Chunk>, s: Text)
    ensures all == chunks + Label(Break(text).0, index) && s == Break(text).1
  {
    hide JsTrim, SplitPoint, Emit, Label, Break;
    all, s := chunks, text;
    while |s| > MAX_LENGTH
      invariant all + Label(Break(s).0, index) == chunks + Label(Break(text).0, index)
      invariant Break(s).1 == Break(text).1
      decreases |s|
    {
      BreakStep(s, index);
      var at := SplitPoint(s);
      all := Append(all, s[..at], index);
      s := JsTrim(s[at..]);
    }
    BreakStep(s, index);
  }

  lemma LabelEmpty(index: nat)
    ensures Label([], index) == []
  {
  }

  lemma FillEnd(sentences: seq<Text>, current: Text)
    requires sentences == []
    ensures Fill(sentences, current) == Emit(current)
  {
  }

  lemma FillStep(sentences: seq<Text>, current: Text, index: nat)
    requires sentences != []
    ensures JsTrim(sentences[0]) == [] ==> Fill(sentences, current) == Fill(sentences[1..], current)
    ensures JsTrim(sentences[0]) != [] ==>
      var s := JsTrim(sentences[0]);
      Label(Fill(sentences, current), index)
        == (if Flush(current, s) then Label(Emit(current), index) else []) + Label(Break(s).0, index)
         + Label(Fill(sentences[1..], Kept(current, s) + Break(s).1), index)
  {
    hide JsTrim, Kept, Break, Emit;
    var s := JsTrim(sentences[0]);
    LabelConcat(Flushed(current, s) + Break(s).0, Fill(sentences[1..], Kept(current, s) + Break(s).1), index);
    LabelConcat(Flushed(current, s), Break(s).0, index);
  }

  /** The chunks of one paragraph are appended to `chunks`. */
  method AppendParagraph(chunks: seq<Chunk>, text: Text, index: nat) returns (all: seq<Chunk>)
    ensures all == chunks + Label(ParagraphChunks(text), index)
  {
    hide JsTrim, Break, Emit, SentencesOrWhole, Label, Fill;
    all := chunks;
    var para := JsTrim(text);
    LabelEmpty(index);
    if para == [] { return; }
    var sentences := SentencesOrWhole(para);
    var current: Text := [];
    assert sentences[0..] == sentences;
    for i := 0 to |sentences|
      invariant all + Label(Fill(sentences[i..], current), index) == chunks + Label(ParagraphChunks(text), index)
    {
      var s := JsTrim(sentences[i]);
      FillStep(sentences[i..], current, index);
      assert sentences[i..][1..] == sentences[i + 1..];
      if s != [] {
        if current != [] && |current| + |s| + 1 > MAX_LENGTH {
          all := Append(all, current, index);
          current := [];
        }
        all, s := AppendBroken(all, s, index);
        current := (if current != [] then current + [SPACE] else []) + s;
      }
    }
    FillEnd(sentences[|sentences|..], current);
    all := Append(all, current, index);
  }

  /** Splits a text, or a list of paragraphs, into speech requests. */
  method SplitTextIntoChunks(text: Text, paragraphs: seq<Text>)
      returns (chunks: seq<Chunk>, paragraphCount: nat)
    ensures chunks == AllChunks(Sources(text, paragraphs))
    ensures Speaks(chunks, Sources(text, paragraphs))
    ensures paragraphCount == CountNonempty(Sources(text, paragraphs))
    ensures var sources := Sources(text, paragraphs);
      paragraphCount == |set k: nat | k < |sources| && JsTrim(sources[k]) != []|
  {
    hide ParagraphChunks, JsTrim, Speaks;
    var sources := Sources(text, paragraphs);
    chunks := [];
    paragraphCount := 0;
    for i := 0 to |sources|
      invariant chunks == AllChunks(sources[..i])
      invariant paragraphCount == CountNonempty(sources[..i])
    {
      assert sources[..i + 1][..i] == sources[..i];
      chunks := AppendParagraph(chunks, sources[i], i);
      if JsTrim(sources[i]) != [] { paragraphCount := paragraphCount + 1; }
    }
    assert sources[..|sources|] == sources;
    AllChunksSpeak(sources);
    CountIs(sources);
  }
}
