/** Cutting the text of a chapter into media tracks in the browser
    (public/static/reader/epub/script.js, buildTTSTracks). */
module TrackBuilder {
  import opened Sequences
  import opened Text
  import opened SectionPlanner

  const PIECE_LIMIT: nat := 2400
  const SHORTEST_CUT: nat := 1200

  /** A paragraph with whatever the reader knows about its place in the book. */
  datatype Paragraph<M> = Paragraph(text: Text, place: M)

  datatype Track<M> = Track(paragraphs: seq<Paragraph<M>>, characters: nat)

  function Texts<M>(paragraphs: seq<Paragraph<M>>): seq<Text> {
    if paragraphs == [] then [] else [paragraphs[0].text] + Texts(paragraphs[1..])
  }

  function Contents<M>(tracks: seq<Track<M>>): seq<seq<Paragraph<M>>> {
    if tracks == [] then [] else [tracks[0].paragraphs] + Contents(tracks[1..])
  }

  function Mark<M>(s: Text, place: M): seq<(nat, M)> {
    if s == [] then [] else [(s[0], place)] + Mark(s[1..], place)
  }

  /** The visible characters, each with the place of the paragraph it is in. */
  function Marks<M>(paragraphs: seq<Paragraph<M>>): seq<(nat, M)> {
    if paragraphs == [] then []
    else Mark(JsVisible(paragraphs[0].text), paragraphs[0].place) + Marks(paragraphs[1..])
  }

  lemma {:induction false} MarkConcat<M>(a: Text, b: Text, place: M)
    ensures Mark(a + b, place) == Mark(a, place) + Mark(b, place)
  {
    if a == [] {
      assert a + b == b;
    } else {
      assert (a + b)[1..] == a[1..] + b;
      MarkConcat(a[1..], b, place);
    }
  }

  lemma {:induction false} MarksConcat<M>(a: seq<Paragraph<M>>, b: seq<Paragraph<M>>)
    ensures Marks(a + b) == Marks(a) + Marks(b)
  {
    if a == [] {
      assert a + b == b;
    } else {
      assert (a + b)[1..] == a[1..] + b;
      MarksConcat(a[1..], b);
    }
  }

  // ---------- cutting paragraphs into pieces ----------

  function CutPoint(s: Text): (cut: nat)
    requires |s| > PIECE_LIMIT
    ensures SHORTEST_CUT <= cut <= PIECE_LIMIT
  {
    var cut := LastSpace(s, PIECE_LIMIT);
    if cut < SHORTEST_CUT then PIECE_LIMIT else cut
  }

  /** The pieces of a trimmed text. Each cut removes at least SHORTEST_CUT characters. */
  function Pieces(s: Text): seq<Text>
    decreases |s|
  {
    if |s| > PIECE_LIMIT then
      var cut := CutPoint(s);
      [JsTrim(s[..cut])] + Pieces(JsTrim(s[cut..]))
    else if s == [] then [] else [s]
  }

  function Place<M>(texts: seq<Text>, place: M): seq<Paragraph<M>> {
    if texts == [] then [] else [Paragraph(texts[0], place)] + Place(texts[1..], place)
  }

  function OwnPieces<M>(paragraph: Paragraph<M>): seq<Paragraph<M>> {
    Place(Pieces(JsTrim(paragraph.text)), paragraph.place)
  }

  function AllPieces<M>(paragraphs: seq<Paragraph<M>>): seq<Paragraph<M>> {
    if paragraphs == [] then []
    else AllPieces(paragraphs[..|paragraphs| - 1]) + OwnPieces(paragraphs[|paragraphs| - 1])
  }

  ghost predicate GoodPiece(s: Text) {
    0 < |s| <= PIECE_LIMIT && JsTrimmed(s)
  }

  lemma {:induction false} PiecesAreGood(s: Text)
    requires JsTrimmed(s)
    ensures forall p :: p in Pieces(s) ==> GoodPiece(p)
    decreases |s|
  {
    hide JsTrim, JsVisible;
    if |s| > PIECE_LIMIT {
      var cut := CutPoint(s);
      JsTrimFacts(s[..cut]);
      JsTrimFacts(s[cut..]);
      assert s[..cut][0] == s[0];
      PiecesAreGood(JsTrim(s[cut..]));
    }
  }

  lemma PlaceFirst<M>(text: Text, texts: seq<Text>, place: M)
    ensures Place([text] + texts, place) == [Paragraph(text, place)] + Place(texts, place)
    ensures Marks(Place([text] + texts, place)) == Mark(JsVisible(text), place) + Marks(Place(texts, place))
  {
    assert ([text] + texts)[1..] == texts;
  }

  /** Cutting and trimming loses white space only. */
  lemma {:induction false} PiecesKeepText<M>(s: Text, place: M)
    ensures Marks(Place(Pieces(s), place)) == Mark(JsVisible(s), place)
    decreases |s|
  {
    hide JsTrim, JsVisible;
    if |s| > PIECE_LIMIT {
      var cut := CutPoint(s);
      var head, tail := JsTrim(s[..cut]), JsTrim(s[cut..]);
      assert s == s[..cut] + s[cut..];
      JsVisibleConcat(s[..cut], s[cut..]);
      JsTrimFacts(s[..cut]);
      JsTrimFacts(s[cut..]);
      MarkConcat(JsVisible(head), JsVisible(tail), place);
      PiecesKeepText(tail, place);
      PlaceFirst(head, Pieces(tail), place);
    } else if s != [] {
      PlaceFirst(s, [], place);
      assert [s] + [] == [s];
    } else {
      JsVisibleConcat([], []);
    }
  }

  /** A cut after 1200 to 2400 characters: at the last space there, or else after 2400. */
  ghost predicate IsCut(s: Text, at: nat, cut: nat) {
    at + 2400 <= |s| && CutsAtSpace(s, at + 1200, at + 2400, cut)
  }

  /** The pieces are those of a text from one place on. */
  ghost predicate CutFrom(s: Text, at: nat, pieces: seq<Text>)
    requires at <= |s|
    decreases |pieces|
  {
    if |s| - at <= 2400 then pieces == if at == |s| then [] else [s[at..]]
    else
      && pieces != []
      && exists cut: nat, next: nat :: IsCut(s, at, cut) && IsNext(s, cut, next)
           && pieces[0] == JsTrim(s[at..cut]) && CutFrom(s, next, pieces[1..])
  }

  lemma CutPointIs(s: Text, at: nat)
    requires |s| - at > 2400
    ensures IsCut(s, at, at + CutPoint(s[at..]))
  {
    LastSpaceCuts(s, at, 1200, 2400);
  }

  /** Every piece of a trimmed text but the last ends at the last space among
      characters 1200 to 2400, or after 2400 characters if there is none. */
  lemma {:induction false} PiecesEndAtSpaces(s: Text, at: nat)
    requires JsTrimmed(s) && at <= |s|
    ensures CutFrom(s, at, Pieces(s[at..]))
    decreases |s| - at
  {
    hide JsTrim, CutPoint, IsCut, IsNext, JsSpace;
    if |s| - at > 2400 {
      var rest := s[at..];
      var cut := CutPoint(rest);
      CutPointIs(s, at);
      assert rest[..cut] == s[at..at + cut] && rest[cut..] == s[at + cut..];
      var next := TrimmedRest(s, at + cut);
      NextIsLater(s, at + cut, next);
      PiecesEndAtSpaces(s, next);
      assert Pieces(rest)[1..] == Pieces(s[next..]);
    }
  }

  lemma {:induction false} PlaceKeepsTexts<M>(texts: seq<Text>, place: M)
    ensures forall p :: p in Place(texts, place) ==> p.text in texts
  {
    if texts != [] { PlaceKeepsTexts(texts[1..], place); }
  }

  lemma OwnPiecesAreGood<M>(paragraph: Paragraph<M>)
    ensures forall p :: p in OwnPieces(paragraph) ==> GoodPiece(p.text)
    ensures Marks(OwnPieces(paragraph)) == Mark(JsVisible(paragraph.text), paragraph.place)
  {
    hide JsTrim, JsVisible;
    var text := JsTrim(paragraph.text);
    JsTrimFacts(paragraph.text);
    PiecesAreGood(text);
    PlaceKeepsTexts(Pieces(text), paragraph.place);
    PiecesKeepText(text, paragraph.place);
    JsTrimFacts(paragraph.text);
  }

  lemma {:induction false} AllPiecesAreGood<M>(paragraphs: seq<Paragraph<M>>)
    ensures forall p :: p in AllPieces(paragraphs) ==> GoodPiece(p.text)
    ensures Marks(AllPieces(paragraphs)) == Marks(paragraphs)
  {
    hide OwnPieces, GoodPiece, JsVisible, Mark;
    if paragraphs != [] {
      var front, last := paragraphs[..|paragraphs| - 1], paragraphs[|paragraphs| - 1];
      AllPiecesAreGood(front);
      OwnPiecesAreGood(last);
      MarksConcat(AllPieces(front), OwnPieces(last));
      MarksConcat(front, [last]);
      assert paragraphs == front + [last];
    }
  }

  lemma NoPieces<M>()
    ensures AllPieces<M>([]) == []
  {
  }

  lemma AllPiecesSnoc<M>(paragraphs: seq<Paragraph<M>>, last: Paragraph<M>)
    ensures AllPieces(paragraphs + [last]) == AllPieces(paragraphs) + OwnPieces(last)
  {
    hide OwnPieces;
    assert (paragraphs + [last])[..|paragraphs|] == paragraphs;
  }

  /** One step of the cutting loop, and its end. */
  lemma PiecesStep<M>(s: Text, place: M)
    ensures |s| > PIECE_LIMIT ==>
      Place(Pieces(s), place) == [Paragraph(JsTrim(s[..CutPoint(s)]), place)]
                               + Place(Pieces(JsTrim(s[CutPoint(s)..])), place)
    ensures |s| <= PIECE_LIMIT ==>
      Place(Pieces(s), place) == if s == [] then [] else [Paragraph(s, place)]
  {
    hide JsTrim, JsVisible;
    if |s| > PIECE_LIMIT {
      PlaceFirst(JsTrim(s[..CutPoint(s)]), Pieces(JsTrim(s[CutPoint(s)..])), place);
    } else if s != [] {
      PlaceFirst(s, [], place);
    }
  }

  method CutPieces<M>(paragraphs: seq<Paragraph<M>>) returns (pieces: seq<Paragraph<M>>)
    ensures pieces == AllPieces(paragraphs)
  {
    hide JsTrim, Pieces, Place;
    pieces := [];
    for i := 0 to |paragraphs|
      invariant pieces == AllPieces(paragraphs[..i])
    {
      var paragraph := paragraphs[i];
      var remaining := JsTrim(paragraph.text);
      while |remaining| > PIECE_LIMIT
        invariant pieces + Place(Pieces(remaining), paragraph.place)
               == AllPieces(paragraphs[..i]) + OwnPieces(paragraph)
        decreases |remaining|
      {
        var cut := LastSpace(remaining, PIECE_LIMIT);
        if cut < SHORTEST_CUT { cut := PIECE_LIMIT; }
        var rest := JsTrim(remaining[cut..]);
        PiecesStep(remaining, paragraph.place);
        pieces := pieces + [Paragraph(JsTrim(remaining[..cut]), paragraph.place)];
        remaining := rest;
      }
      PiecesStep(remaining, paragraph.place);
      if remaining != [] {
        pieces := pieces + [Paragraph(remaining, paragraph.place)];
      }
      assert paragraphs[..i + 1][..i] == paragraphs[..i];
    }
    assert paragraphs[..|paragraphs|] == paragraphs;
  }

  // ---------- grouping pieces into tracks ----------

  /** The first track is short so that playback can start early. */
  function Limit(index: nat): nat { if index == 0 then 2400 else 6000 }

  ghost predicate GoodTrack<M>(track: Track<M>, limit: nat) {
    && track.paragraphs != []
    && track.characters == JoinedLength(Texts(track.paragraphs))
    && track.characters <= limit
  }

  ghost predicate Filled<M>(tracks: seq<Track<M>>) {
    forall i, j {:trigger tracks[i], tracks[j]} ::
      0 <= i < j < |tracks| && j == i + 1 && tracks[j].paragraphs != [] ==>
      tracks[i].characters + 2 + |tracks[j].paragraphs[0].text| > Limit(i)
  }

  /** Consecutive pieces, each track filled as far as its limit allows. */
  ghost predicate IsTrackList<M>(tracks: seq<Track<M>>, pieces: seq<Paragraph<M>>) {
    && Flatten(Contents(tracks)) == pieces
    && (forall i :: 0 <= i < |tracks| ==> GoodTrack(tracks[i], Limit(i)))
    && Filled(tracks)
  }

  lemma FilledSnoc<M>(tracks: seq<Track<M>>, track: Track<M>, longer: Track<M>)
    requires Filled(tracks + [track])
    requires track.paragraphs != [] && longer.paragraphs != [] && longer.paragraphs[0] == track.paragraphs[0]
    ensures Filled(tracks + [longer])
  {
    var before, after := tracks + [track], tracks + [longer];
    forall i, j | 0 <= i < j < |after| && j == i + 1 && after[j].paragraphs != []
      ensures after[i].characters + 2 + |after[j].paragraphs[0].text| > Limit(i)
    {
      assert before[i] == after[i] && before[j].paragraphs[0] == after[j].paragraphs[0];
    }
  }

  lemma FilledNext<M>(tracks: seq<Track<M>>, next: Track<M>)
    requires Filled(tracks) && next.paragraphs != []
    requires tracks != [] ==>
      tracks[|tracks| - 1].characters + 2 + |next.paragraphs[0].text| > Limit(|tracks| - 1)
    ensures Filled(tracks + [next])
  {
    var after := tracks + [next];
    forall i, j | 0 <= i < j < |after| && j == i + 1 && after[j].paragraphs != []
      ensures after[i].characters + 2 + |after[j].paragraphs[0].text| > Limit(i)
    {
      assert after[i] == tracks[i];
      if j < |tracks| { assert after[j] == tracks[j]; }
    }
  }

  lemma {:induction false} ContentsSnoc<M>(tracks: seq<Track<M>>, track: Track<M>)
    ensures Flatten(Contents(tracks + [track])) == Flatten(Contents(tracks)) + track.paragraphs
    ensures tracks == [] ==> Flatten(Contents(tracks)) == []
  {
    if tracks == [] {
      assert tracks + [track] == [track];
      assert Contents([track]) == [track.paragraphs];
    } else {
      assert (tracks + [track])[1..] == tracks[1..] + [track];
      ContentsSnoc(tracks[1..], track);
    }
  }

  lemma {:induction false} TextsSnoc<M>(paragraphs: seq<Paragraph<M>>, last: Paragraph<M>)
    ensures Texts(paragraphs + [last]) == Texts(paragraphs) + [last.text]
  {
    if paragraphs != [] {
      assert (paragraphs + [last])[1..] == paragraphs[1..] + [last];
      TextsSnoc(paragraphs[1..], last);
    }
  }

  lemma TrackGrows<M>(paragraphs: seq<Paragraph<M>>, piece: Paragraph<M>)
    ensures JoinedLength(Texts(paragraphs + [piece]))
         == JoinedLength(Texts(paragraphs)) + |piece.text| + (if paragraphs == [] then 0 else 2)
  {
    TextsSnoc(paragraphs, piece);
    JoinSnoc(Texts(paragraphs), piece.text, PARAGRAPH_BREAK);
  }

  /** The closed tracks and the current one hold the pieces seen so far. */
  ghost predicate Holds<M>(tracks: seq<Track<M>>, track: Track<M>, done: seq<Paragraph<M>>) {
    if done == [] then tracks == [] && track == Track([], 0)
    else IsTrackList(tracks + [track], done) && track.paragraphs != []
  }

  lemma HoldsLonger<M>(tracks: seq<Track<M>>, track: Track<M>, done: seq<Paragraph<M>>, piece: Paragraph<M>)
    requires Holds(tracks, track, done)
    requires var n := JoinedLength(Texts(track.paragraphs + [piece])); n <= Limit(|tracks|)
    ensures var n := JoinedLength(Texts(track.paragraphs + [piece]));
            Holds(tracks, Track(track.paragraphs + [piece], n), done + [piece])
  {
    hide JoinedLength, Texts, Flatten, Contents;
    var longer := Track(track.paragraphs + [piece], JoinedLength(Texts(track.paragraphs + [piece])));
    ContentsSnoc(tracks, track);
    ContentsSnoc(tracks, longer);
    if done != [] {
      FilledSnoc(tracks, track, longer);
      forall k | 0 <= k < |tracks| + 1 ensures GoodTrack((tracks + [longer])[k], Limit(k)) {
        if k < |tracks| { assert (tracks + [longer])[k] == (tracks + [track])[k]; }
      }
    }
  }

  lemma HoldsNext<M>(tracks: seq<Track<M>>, track: Track<M>, done: seq<Paragraph<M>>, piece: Paragraph<M>)
    requires Holds(tracks, track, done) && done != [] && GoodPiece(piece.text)
    requires track.characters + 2 + |piece.text| > Limit(|tracks|)
    ensures Holds(tracks + [track], Track([piece], |piece.text|), done + [piece])
  {
    var all, next := tracks + [track], Track([piece], |piece.text|);
    assert Texts([piece]) == [piece.text];
    ContentsSnoc(all, next);
    FilledNext(all, next);
    forall k | 0 <= k < |all| + 1 ensures GoodTrack((all + [next])[k], Limit(k)) {
      if k < |all| { assert (all + [next])[k] == all[k]; }
    }
  }

  lemma HoldsAll<M>(tracks: seq<Track<M>>, track: Track<M>, pieces: seq<Paragraph<M>>)
    requires Holds(tracks, track, pieces)
    ensures track.paragraphs != [] ==> IsTrackList(tracks + [track], pieces)
    ensures track.paragraphs == [] ==> IsTrackList(tracks, pieces)
  {
  }

  lemma CharactersCount<M>(tracks: seq<Track<M>>, track: Track<M>, done: seq<Paragraph<M>>)
    requires Holds(tracks, track, done)
    ensures track.characters == JoinedLength(Texts(track.paragraphs))
    ensures track.paragraphs == [] <==> done == []
  {
    if done != [] { assert GoodTrack((tracks + [track])[|tracks|], Limit(|tracks|)); }
  }

  method GroupPieces<M>(pieces: seq<Paragraph<M>>) returns (tracks: seq<Track<M>>)
    requires forall p :: p in pieces ==> GoodPiece(p.text)
    ensures IsTrackList(tracks, pieces)
  {
    hide IsTrackList, JoinedLength, Texts;
    tracks := [];
    var track: Track<M> := Track([], 0);
    for i := 0 to |pieces|
      invariant Holds(tracks, track, pieces[..i])
    {
      var piece := pieces[i];
      assert GoodPiece(piece.text);
      assert pieces[..i + 1] == pieces[..i] + [piece];
      var added := |piece.text| + (if track.paragraphs != [] then 2 else 0);
      var limit := if |tracks| == 0 then 2400 else 6000;
      TrackGrows(track.paragraphs, piece);
      CharactersCount(tracks, track, pieces[..i]);
      if track.paragraphs != [] && track.characters + added > limit {
        HoldsNext(tracks, track, pieces[..i], piece);
        tracks := tracks + [track];
        track := Track([], 0);
        added := |piece.text|;
        assert [] + [piece] == [piece];
      } else {
        HoldsLonger(tracks, track, pieces[..i], piece);
      }
      track := Track(track.paragraphs + [piece], track.characters + added);
    }
    assert pieces[..|pieces|] == pieces;
    HoldsAll(tracks, track, pieces);
    if track.paragraphs != [] { tracks := tracks + [track]; }
  }

  /** The tracks of a chapter: every visible character of every paragraph is
      kept, in order and with its paragraph's place; the first track has at
      most 2400 characters, later ones at most 6000. */
  method BuildTTSTracks<M>(paragraphs: seq<Paragraph<M>>) returns (tracks: seq<Track<M>>)
    ensures IsTrackList(tracks, AllPieces(paragraphs))
    ensures Marks(Flatten(Contents(tracks))) == Marks(paragraphs)
    ensures forall p :: p in Flatten(Contents(tracks)) ==> GoodPiece(p.text)
    ensures forall i :: 0 <= i < |tracks| ==>
      tracks[i].characters == |Join(Texts(tracks[i].paragraphs), [0x0A, 0x0A])| <= if i == 0 then 2400 else 6000
    ensures forall i, j {:trigger tracks[i], tracks[j]} :: 0 <= i < j < |tracks| && j == i + 1 ==>
      && tracks[j].paragraphs != []
      && tracks[i].characters + 2 + |tracks[j].paragraphs[0].text| > if i == 0 then 2400 else 6000
  {
    var pieces := CutPieces(paragraphs);
    AllPiecesAreGood(paragraphs);
    tracks := GroupPieces(pieces);
  }
}
