/** The way of a chapter through the reader and the speech service and back:
    which of its tracks are played (public/static/reader/epub/script.js,
    buildTTSTracks and fetchTTSTrack; scripts/tts_server.py, handle_track). */
module Playback {
  import opened Sequences
  import opened Text
  import opened SectionPlanner
  import opened TrackCleaning
  import opened TrackTiming
  import opened Outcomes
  import opened Utf16
  import H = TimingHeader
  import T = TrackBuilder

  // ---------- the service ----------

  lemma BreakIsEncodable()
    ensures Encodable(PARAGRAPH_BREAK)
  {
  }

  lemma {:induction false} JoinIsEncodable(parts: seq<Text>)
    ensures Encodable(Join(parts, PARAGRAPH_BREAK)) <==> forall p :: p in parts ==> Encodable(p)
  {
    hide Encodable;
    if parts == [] {
      NothingEncodable();
    } else if |parts| > 1 {
      var rest := parts[1..];
      JoinIsEncodable(rest);
      BreakIsEncodable();
      EncodableConcat(parts[0] + PARAGRAPH_BREAK, Join(rest, PARAGRAPH_BREAK));
      EncodableConcat(parts[0], PARAGRAPH_BREAK);
      assert parts == [parts[0]] + rest;
    }
  }

  /** What the service sends back: no offsets if no paragraph is left, or if the
      text cannot be encoded for the name of the cache file. */
  method HandleTrack(request: seq<Element>, budget: int, answer: nat -> Reply)
      returns (cleaned: seq<Text>, reply: Option<seq<nat>>)
    ensures cleaned == Clean(if |request| <= MAX_PARAGRAPHS then request else request[..MAX_PARAGRAPHS], 0, true)
    ensures reply.Some? <==> cleaned != [] && forall p :: p in cleaned ==> Encodable(p)
    ensures reply.Some? ==> Aligned(reply.value, |cleaned|)
  {
    hide Aligned, Join, Encodable, Clean;
    cleaned := CleanParagraphs(request);
    if cleaned == [] { return cleaned, None; }
    JoinIsEncodable(cleaned);
    if !Encodable(Join(cleaned, PARAGRAPH_BREAK)) { return cleaned, None; }
    var raw, _ := SynthTrack(cleaned, budget, answer);
    AlignedIsNatural(raw, |cleaned|);
    return cleaned, Some(raw);
  }

  // ---------- one track ----------

  predicate AllPaired<M>(paragraphs: seq<T.Paragraph<M>>) {
    forall i :: 0 <= i < |paragraphs| ==> Paired(paragraphs[i].text)
  }

  lemma OnePaired<M>(p: T.Paragraph<M>)
    ensures AllPaired([p]) <==> Paired(p.text)
  {
    hide Paired;
    if AllPaired([p]) { assert Paired([p][0].text); }
  }

  lemma AllPairedSplit<M>(a: seq<T.Paragraph<M>>, b: seq<T.Paragraph<M>>)
    ensures AllPaired(a + b) <==> AllPaired(a) && AllPaired(b)
  {
    hide Paired;
    var s := a + b;
    assert forall i :: 0 <= i < |a| ==> s[i] == a[i];
    assert forall i :: 0 <= i < |b| ==> s[|a| + i] == b[i];
    if AllPaired(s) {
      forall i | 0 <= i < |b| ensures Paired(b[i].text) { assert Paired(s[|a| + i].text); }
    }
  }

  lemma {:induction false} SentIsEncodable<M>(paragraphs: seq<T.Paragraph<M>>)
    ensures (forall p :: p in FromUtf16All(T.Texts(paragraphs)) ==> Encodable(p)) <==> AllPaired(paragraphs)
  {
    hide Encodable, Paired, FromUtf16;
    if paragraphs != [] {
      var rest := paragraphs[1..];
      var first, others := FromUtf16(paragraphs[0].text), FromUtf16All(T.Texts(rest));
      SentIsEncodable(rest);
      PairedIsEncodable(paragraphs[0].text);
      assert FromUtf16All(T.Texts(paragraphs)) == [first] + others;
      assert forall p :: p in [first] + others <==> p == first || p in others;
      AllPairedSplit([paragraphs[0]], rest);
      assert paragraphs == [paragraphs[0]] + rest;
      assert AllPaired([paragraphs[0]]) <==> Paired(paragraphs[0].text) by { OnePaired(paragraphs[0]); }
    }
  }

  /** End to end: of a track of the browser whose paragraphs are in the service's
      white-space form the service keeps the first 400 paragraphs unchanged. It
      refuses them exactly if one of them holds half a surrogate pair, and
      otherwise sends one offset for each. The browser decodes that exactly if
      these are all paragraphs of the track, and then follows them. */
  method PlayTrack<M>(track: T.Track<M>, limit: nat, budget: int, answer: nat -> Reply, elapsed: real)
      returns (reply: Option<seq<nat>>, decoded: H.Decoded, index: nat)
    requires T.GoodTrack(track, limit) && limit <= MAX_TEXT
    requires ServerForm(T.Texts(track.paragraphs)) && elapsed >= 0.0
    ensures reply.Some? <==> AllPaired(Served(track.paragraphs))
    ensures reply.Some? ==> Aligned(reply.value, |Served(track.paragraphs)|)
    ensures decoded.Offsets? <==> |track.paragraphs| <= MAX_PARAGRAPHS && AllPaired(track.paragraphs)
    ensures decoded.Offsets? ==>
      && reply.Some? && decoded.offsets == H.Numbers(reply.value) && |decoded.offsets| == |track.paragraphs|
      && index < |track.paragraphs| && Reached(decoded.offsets[index], elapsed)
      && IsCurrent(decoded.offsets, elapsed, index)
  {
    hide T.Texts, FromUtf16All, Clean, ServerForm, JoinedLength, Aligned, H.Header, H.DecodeHeader, H.Numbers;
    hide H.ToNumber, AllPaired, Encodable;
    ServedIsKept(track, limit);
    var served := Served(track.paragraphs);
    SentIsEncodable(served);
    var cleaned;
    cleaned, reply := HandleTrack(Request(track.paragraphs), budget, answer);
    decoded, index := H.Missing, 0;
    if |track.paragraphs| > MAX_PARAGRAPHS {
      assert served + track.paragraphs[MAX_PARAGRAPHS..] == track.paragraphs;
    }
    if reply.Some? {
      var offsets := reply.value;
      AlignedCount(offsets, |cleaned|);
      H.HeaderDecodes(offsets, |track.paragraphs|);
      DecodedIsSorted(offsets, |cleaned|);
      decoded := H.DecodeHeader(H.Header(offsets), |track.paragraphs|);
      if decoded.Offsets? { index := CurrentParagraph(decoded.offsets, elapsed); }
    }
  }

  /** From the chapter: every track of a chapter in the service's form is played
      exactly if it has at most 400 paragraphs, none with half a surrogate pair. */
  method PlayChapter<M>(paragraphs: seq<T.Paragraph<M>>, k: nat, budget: int, answer: nat -> Reply, elapsed: real)
      returns (tracks: seq<T.Track<M>>, decoded: H.Decoded, index: nat)
    requires FormOf(paragraphs) && elapsed >= 0.0
    ensures T.IsTrackList(tracks, T.AllPieces(paragraphs))
    ensures T.Marks(Flatten(T.Contents(tracks))) == T.Marks(paragraphs)
    ensures k < |tracks| ==>
      (decoded.Offsets? <==> |tracks[k].paragraphs| <= MAX_PARAGRAPHS && AllPaired(tracks[k].paragraphs))
    ensures k < |tracks| && decoded.Offsets? ==>
      && |decoded.offsets| == |tracks[k].paragraphs| && Sorted(decoded.offsets) && decoded.offsets[0] == H.Finite(0)
      && index < |tracks[k].paragraphs| && IsCurrent(decoded.offsets, elapsed, index)
  {
    hide FormOf, ServerForm, T.GoodTrack, T.IsTrackList, Aligned, H.Numbers, IsCurrent, Reached, AllPaired;
    tracks := T.BuildTTSTracks(paragraphs);
    decoded, index := H.Missing, 0;
    if k < |tracks| {
      TracksKeepForm(paragraphs, tracks, k);
      var reply;
      reply, decoded, index := PlayTrack(tracks[k], T.Limit(k), budget, answer, elapsed);
      if decoded.Offsets? { DecodedIsSorted(reply.value, |tracks[k].paragraphs|); }
    }
  }

  // ---------- where half pairs come from ----------

  /** Some cut of a trimmed text separates the halves of a pair. */
  predicate CutsPair(s: Text)
    decreases |s|
  {
    |s| > T.PIECE_LIMIT &&
    var cut := T.CutPoint(s);
    Separates(s[..cut], s[cut..]) || CutsPair(JsTrim(s[cut..]))
  }

  lemma {:induction false} PiecesPaired(s: Text)
    requires Paired(s)
    ensures (forall p :: p in T.Pieces(s) ==> Paired(p)) <==> !CutsPair(s)
    decreases |s|
  {
    hide Paired, Separates, JsTrim;
    if |s| > T.PIECE_LIMIT {
      var cut := T.CutPoint(s);
      var first, rest := JsTrim(s[..cut]), JsTrim(s[cut..]);
      assert s[..cut] + s[cut..] == s;
      PairedParts(s[..cut], s[cut..]);
      PairedTrim(s[..cut]);
      PairedTrim(s[cut..]);
      assert forall p :: p in T.Pieces(s) <==> p == first || p in T.Pieces(rest);
      if Paired(rest) { PiecesPaired(rest); }
    }
  }

  lemma NothingPaired<M>()
    ensures AllPaired<M>([])
  {
  }

  lemma {:induction false} PlacePaired<M>(texts: seq<Text>, place: M)
    ensures AllPaired(T.Place(texts, place)) <==> forall t :: t in texts ==> Paired(t)
  {
    hide Paired, AllPaired;
    if texts == [] {
      NothingPaired<M>();
    } else {
      T.PlaceFirst(texts[0], texts[1..], place);
      assert texts == [texts[0]] + texts[1..];
      PlacePaired(texts[1..], place);
      OnePaired(T.Paragraph(texts[0], place));
      AllPairedSplit([T.Paragraph(texts[0], place)], T.Place(texts[1..], place));
    }
  }

  /** In a chapter of paired texts the pieces hold no half pair exactly if no cut separates a pair. */
  lemma {:induction false} AllPiecesPaired<M>(paragraphs: seq<T.Paragraph<M>>)
    requires AllPaired(paragraphs)
    ensures AllPaired(T.AllPieces(paragraphs))
       <==> forall i :: 0 <= i < |paragraphs| ==> !CutsPair(JsTrim(paragraphs[i].text))
  {
    hide Paired, AllPaired, CutsPair, JsTrim, T.Pieces, T.Place;
    if paragraphs == [] {
      NothingPaired<M>();
    } else {
      var front, last := paragraphs[..|paragraphs| - 1], paragraphs[|paragraphs| - 1];
      assert paragraphs == front + [last];
      AllPairedSplit(front, [last]);
      OnePaired(last);
      AllPiecesPaired(front);
      PairedTrim(last.text);
      PiecesPaired(JsTrim(last.text));
      PlacePaired(T.Pieces(JsTrim(last.text)), last.place);
      AllPairedSplit(T.AllPieces(front), T.OwnPieces(last));
      assert forall i :: 0 <= i < |front| ==> paragraphs[i] == front[i];
    }
  }

  lemma {:induction false} ContentsPaired<M>(tracks: seq<T.Track<M>>)
    ensures AllPaired(Flatten(T.Contents(tracks))) <==>
      forall k :: 0 <= k < |tracks| ==> AllPaired(tracks[k].paragraphs)
  {
    hide Paired, AllPaired;
    if tracks == [] {
      NothingPaired<M>();
    } else {
      ContentsPaired(tracks[1..]);
      AllPairedSplit(tracks[0].paragraphs, Flatten(T.Contents(tracks[1..])));
      assert forall k :: 0 <= k < |tracks| - 1 ==> tracks[1..][k] == tracks[k + 1];
      assert forall k :: 1 <= k < |tracks| ==> tracks[k] == tracks[1..][k - 1];
    }
  }

  /** Every track of a chapter of paired texts is free of half pairs exactly if
      no cut of buildTTSTracks separates a pair. */
  lemma TracksPaired<M>(paragraphs: seq<T.Paragraph<M>>, tracks: seq<T.Track<M>>)
    requires AllPaired(paragraphs) && T.IsTrackList(tracks, T.AllPieces(paragraphs))
    ensures (forall k :: 0 <= k < |tracks| ==> AllPaired(tracks[k].paragraphs))
       <==> forall i :: 0 <= i < |paragraphs| ==> !CutsPair(JsTrim(paragraphs[i].text))
  {
    hide AllPaired, CutsPair, JsTrim, T.AllPieces, T.Contents, Flatten;
    AllPiecesPaired(paragraphs);
    ContentsPaired(tracks);
  }

  // ---------- a chapter with too many paragraphs ----------

  /** `n` paragraphs of one letter. */
  function OneLetter<M>(n: nat, place: M): seq<T.Paragraph<M>> {
    if n == 0 then [] else OneLetter(n - 1, place) + [T.Paragraph([0x61], place)]
  }

  lemma LetterForm(text: Text)
    requires text == [0x61]
    ensures Squashed(text, PySpace) && JsTrim(text) == text
  {
    hide JsTrim;
    JsTrimFacts(text);
  }

  lemma NothingPlaced<M>(place: M)
    ensures T.Place([], place) == []
  {
  }

  lemma LetterPiece<M>(p: T.Paragraph<M>)
    requires p.text == [0x61]
    ensures T.OwnPieces(p) == [p] && Squashed(p.text, PySpace)
  {
    hide JsTrim, Squashed, Paired, T.Place;
    LetterForm(p.text);
    assert T.Pieces(p.text) == [p.text] + [];
    T.PlaceFirst(p.text, [], p.place);
    NothingPlaced(p.place);
  }

  lemma {:induction false} OneLetterTexts<M>(n: nat, place: M)
    ensures |OneLetter(n, place)| == n
    ensures forall i :: 0 <= i < n ==> OneLetter(n, place)[i].text == [0x61]
  {
    if n > 0 { OneLetterTexts(n - 1, place); }
  }

  lemma OneLetterForm<M>(n: nat, place: M)
    ensures FormOf(OneLetter(n, place))
  {
    hide Squashed, OneLetter;
    var all := OneLetter(n, place);
    OneLetterTexts(n, place);
    forall i | 0 <= i < |all| ensures Squashed(all[i].text, PySpace) { LetterPiece(all[i]); }
  }

  lemma {:induction false} OneLetterPieces<M>(n: nat, place: M)
    ensures T.AllPieces(OneLetter(n, place)) == OneLetter(n, place)
  {
    hide T.OwnPieces, T.AllPieces;
    if n == 0 {
      T.NoPieces<M>();
    } else {
      var rest, p := OneLetter(n - 1, place), T.Paragraph([0x61], place);
      OneLetterPieces(n - 1, place);
      LetterPiece(p);
      T.AllPiecesSnoc(rest, p);
    }
  }

  lemma {:induction false} LetterLength<M>(paragraphs: seq<T.Paragraph<M>>)
    requires forall i :: 0 <= i < |paragraphs| ==> |paragraphs[i].text| == 1
    ensures TotalLength(T.Texts(paragraphs)) == |T.Texts(paragraphs)| == |paragraphs|
  {
    if paragraphs != [] { LetterLength(paragraphs[1..]); }
  }

  lemma NoTrackIsEmpty<M>(tracks: seq<T.Track<M>>, pieces: seq<T.Paragraph<M>>)
    requires T.IsTrackList(tracks, pieces) && pieces != []
    ensures tracks != [] && T.GoodTrack(tracks[0], T.Limit(0))
  {
  }

  lemma FirstTrack<M>(tracks: seq<T.Track<M>>, pieces: seq<T.Paragraph<M>>)
    requires T.IsTrackList(tracks, pieces) && tracks != []
    ensures var first := tracks[0].paragraphs;
      |first| <= |pieces| && first == pieces[..|first|] && (|tracks| == 1 ==> first == pieces)
  {
    assert Flatten(T.Contents(tracks)) == tracks[0].paragraphs + Flatten(T.Contents(tracks[1..]));
  }

  lemma FirstTrackIsFull<M>(tracks: seq<T.Track<M>>, pieces: seq<T.Paragraph<M>>)
    requires T.IsTrackList(tracks, pieces) && |tracks| > 1
    ensures var first := tracks[0].paragraphs;
      |first| < |pieces| && tracks[0].characters + 2 + |pieces[|first|].text| > T.Limit(0)
  {
    var first, second := tracks[0].paragraphs, tracks[1].paragraphs;
    assert T.GoodTrack(tracks[1], T.Limit(1));
    assert Flatten(T.Contents(tracks)) == first + Flatten(T.Contents(tracks[1..]));
    assert Flatten(T.Contents(tracks[1..])) == second + Flatten(T.Contents(tracks[1..][1..]));
    assert pieces[|first|] == second[0];
  }

  /** For instance: 401 paragraphs of one letter make one track, which has too many. */
  lemma CrowdedChapter<M>(n: nat, place: M, tracks: seq<T.Track<M>>)
    requires n == MAX_PARAGRAPHS + 1
    requires T.IsTrackList(tracks, T.AllPieces(OneLetter(n, place)))
    ensures FormOf(OneLetter(n, place)) && |tracks| == 1 && |tracks[0].paragraphs| > MAX_PARAGRAPHS
  {
    hide T.AllPieces, OneLetter, JoinedLength, T.Texts, FormOf, T.IsTrackList;
    var pieces := OneLetter(n, place);
    OneLetterPieces(n, place);
    OneLetterTexts(n, place);
    OneLetterForm(n, place);
    NoTrackIsEmpty(tracks, pieces);
    FirstTrack(tracks, pieces);
    var first := tracks[0].paragraphs;
    LetterLength(first);
    JoinedLengthIsTotal(T.Texts(first));
    if |tracks| > 1 { FirstTrackIsFull(tracks, pieces); }
  }

  // ---------- a chapter with a separated pair ----------

  /** `n` letters, a character outside the basic plane as a surrogate pair, and a letter. */
  function LongWord(n: nat): Text { if n == 0 then [0xD83D, 0xDE00, 0x62] else [0x61] + LongWord(n - 1) }

  lemma {:induction false} LongWordFacts(n: nat)
    ensures |LongWord(n)| == n + 3 && Paired(LongWord(n))
    ensures forall i :: 0 <= i < n ==> LongWord(n)[i] == 0x61
    ensures LongWord(n)[n] == 0xD83D && LongWord(n)[n + 1] == 0xDE00 && LongWord(n)[n + 2] == 0x62
  {
    if n > 0 {
      LongWordFacts(n - 1);
    } else {
      assert [0xD83D, 0xDE00, 0x62][2..] == [0x62] && [0x62][1..] == [];
    }
  }

  lemma LongWordForm(n: nat)
    ensures Squashed(LongWord(n), PySpace) && JsTrim(LongWord(n)) == LongWord(n)
    ensures forall i :: 0 <= i < |LongWord(n)| ==> LongWord(n)[i] != SPACE
  {
    hide LongWord, JsTrim;
    LongWordFacts(n);
    var s := LongWord(n);
    assert forall i :: 0 <= i < |s| ==> s[i] in {0x61, 0xD83D, 0xDE00, 0x62};
    JsTrimFacts(s);
  }

  lemma LongWordIsCut(n: nat)
    requires n == T.PIECE_LIMIT - 1
    ensures CutsPair(LongWord(n)) && |T.Pieces(LongWord(n))| <= 2
  {
    hide LongWord, JsTrim;
    LongWordFacts(n);
    LongWordForm(n);
    var s := LongWord(n);
    assert T.CutPoint(s) == T.PIECE_LIMIT;
    assert s[..T.PIECE_LIMIT][T.PIECE_LIMIT - 1] == s[n] && s[T.PIECE_LIMIT..][0] == s[n + 1];
    assert |JsTrim(s[T.PIECE_LIMIT..])| <= 2;
  }

  lemma {:induction false} PlaceLength<M>(texts: seq<Text>, place: M)
    ensures |T.Place(texts, place)| == |texts|
  {
    if texts != [] { PlaceLength(texts[1..], place); }
  }

  lemma {:induction false} TrackNoLonger<M>(tracks: seq<T.Track<M>>, k: nat)
    requires k < |tracks|
    ensures |tracks[k].paragraphs| <= |Flatten(T.Contents(tracks))|
  {
    if k > 0 { TrackNoLonger(tracks[1..], k - 1); }
  }

  /** For instance: a chapter of one paragraph of 2399 letters, a character
      outside the basic plane and a letter. It is paired text in the service's
      form and its tracks are short, but one of them holds half a pair. */
  lemma SeparatedChapter<M>(n: nat, place: M, tracks: seq<T.Track<M>>) returns (k: nat)
    requires n == T.PIECE_LIMIT - 1
    requires T.IsTrackList(tracks, T.AllPieces([T.Paragraph(LongWord(n), place)]))
    ensures FormOf([T.Paragraph(LongWord(n), place)]) && AllPaired([T.Paragraph(LongWord(n), place)])
    ensures k < |tracks| && |tracks[k].paragraphs| <= MAX_PARAGRAPHS && !AllPaired(tracks[k].paragraphs)
  {
    hide LongWord, Squashed, Paired, AllPaired, JsTrim, CutsPair, T.Pieces, T.Place, T.AllPieces, T.Contents, Flatten;
    var p := T.Paragraph(LongWord(n), place);
    LongWordFacts(n);
    LongWordForm(n);
    LongWordIsCut(n);
    OnePaired(p);
    TracksPaired([p], tracks);
    assert CutsPair(JsTrim([p][0].text));
    k :| 0 <= k < |tracks| && !AllPaired(tracks[k].paragraphs);
    T.NoPieces<M>();
    T.AllPiecesSnoc([], p);
    assert [] + [p] == [p];
    PlaceLength(T.Pieces(LongWord(n)), place);
    TrackNoLonger(tracks, k);
  }
}
