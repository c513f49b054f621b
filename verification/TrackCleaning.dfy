/** How the speech server cleans the paragraphs of a track request
    (scripts/tts_server.py, handle_track), and why it leaves the browser's
    tracks alone. */
module TrackCleaning {
  import opened Sequences
  import opened Text
  import opened SectionPlanner
  import opened Utf16
  import T = TrackBuilder

  const MAX_TEXT: nat := 12000
  const MAX_PARAGRAPHS: nat := 400

  // ---------- from UTF-16 code units to code points ----------

  function FromUtf16All(texts: seq<Text>): seq<Text> {
    if texts == [] then [] else [FromUtf16(texts[0])] + FromUtf16All(texts[1..])
  }

  /** Every space is a single one that another character follows. */
  predicate SingleSpaces(s: Text) {
    if s == [] then true
    else (PySpace(s[0]) ==> s[0] == SPACE && |s| > 1 && !PySpace(s[1])) && SingleSpaces(s[1..])
  }

  lemma {:induction false} SingleSpacesIsSquashed(s: Text)
    ensures Squashed(s, PySpace) <==> SingleSpaces(s) && (s != [] ==> !PySpace(s[0]))
    ensures SingleSpaces(s) <==>
      && (forall i :: 0 <= i < |s| && PySpace(s[i]) ==> s[i] == SPACE && i < |s| - 1)
      && (forall i, j :: 0 <= i < j < |s| && PySpace(s[i]) && PySpace(s[j]) ==> j != i + 1)
  {
    hide PySpace;
    if s != [] {
      SingleSpacesIsSquashed(s[1..]);
      assert forall i :: 1 <= i < |s| ==> s[i] == s[1..][i - 1];
      assert forall i :: 0 <= i < |s[1..]| ==> s[1..][i] == s[i + 1];
    }
  }

  lemma {:induction false} Utf16KeepsSingleSpaces(s: Text)
    requires SingleSpaces(s)
    ensures SingleSpaces(FromUtf16(s))
    ensures s != [] ==> FromUtf16(s) != [] && PySpace(FromUtf16(s)[0]) == PySpace(s[0])
  {
    if |s| >= 2 && High(s[0]) && Low(s[1]) {
      Utf16KeepsSingleSpaces(s[2..]);
      assert SingleSpaces(s[1..]) && s[1..][1..] == s[2..];
    } else if s != [] {
      Utf16KeepsSingleSpaces(s[1..]);
    }
  }

  /** The server's white-space form is the same seen as code units or as code points. */
  lemma Utf16KeepsForm(s: Text)
    requires Squashed(s, PySpace)
    ensures Squashed(FromUtf16(s), PySpace)
    ensures s != [] ==> FromUtf16(s) != []
  {
    hide SingleSpaces, FromUtf16, Squashed;
    SingleSpacesIsSquashed(s);
    Utf16KeepsSingleSpaces(s);
    SingleSpacesIsSquashed(FromUtf16(s));
  }

  // ---------- the cleaning loop ----------

  /** An element of the JSON array in the request. */
  datatype Element = Str(text: Text) | NotText

  /** The paragraphs kept of the elements, when `used` characters are taken already. */
  function Clean(elements: seq<Element>, used: nat, first: bool): seq<Text> {
    if elements == [] then []
    else if elements[0].NotText? then Clean(elements[1..], used, first)
    else
      var value := Trim(Squash(elements[0].text, PySpace), PySpace);
      var separator := if first then 0 else 2;
      if value == [] then Clean(elements[1..], used, first)
      else if used + separator >= MAX_TEXT then []
      else
        var available := MAX_TEXT - used - separator;
        var kept := if |value| <= available then value else value[..available];
        [kept] + (if used + separator + |kept| >= MAX_TEXT then []
                  else Clean(elements[1..], used + separator + |kept|, false))
  }

  /** One step of the cleaning loop. */
  lemma CleanStep(elements: seq<Element>, used: nat, first: bool)
    requires elements != []
    ensures elements[0].NotText? ==> Clean(elements, used, first) == Clean(elements[1..], used, first)
    ensures elements[0].Str? ==>
      var value := Trim(Squash(elements[0].text, PySpace), PySpace);
      var available := MAX_TEXT - used - (if first then 0 else 2);
      var kept := if |value| <= available || available < 0 then value else value[..available];
      var used' := used + (if first then 0 else 2) + |kept|;
      && (value == [] ==> Clean(elements, used, first) == Clean(elements[1..], used, first))
      && (value != [] && available <= 0 ==> Clean(elements, used, first) == [])
      && (value != [] && available > 0 && used' >= MAX_TEXT ==> Clean(elements, used, first) == [kept])
      && (value != [] && available > 0 && used' < MAX_TEXT ==>
          Clean(elements, used, first) == [kept] + Clean(elements[1..], used', false))
  {
    hide Squash, Trim, PySpace;
  }

  function AllStr(texts: seq<Text>): (r: seq<Element>)
    ensures |r| == |texts|
  {
    if texts == [] then [] else [Str(texts[0])] + AllStr(texts[1..])
  }

  lemma CleanNothing(used: nat, first: bool)
    ensures AllStr([]) == [] && Clean([], used, first) == []
  {
  }

  /** The texts among the elements that are not blank, with single spaces between words. */
  function Spoken(elements: seq<Element>): seq<Text> {
    if elements == [] then []
    else if elements[0].NotText? || Words(elements[0].text, PySpace) == [] then Spoken(elements[1..])
    else [Join(Words(elements[0].text, PySpace), [' ' as nat])] + Spoken(elements[1..])
  }

  /** What is kept, when `used` characters are taken already: the texts in order,
      the last one cut where 12000 characters are reached; nothing is left out
      while there is room for a separator and a character. */
  ghost predicate KeptOf(texts: seq<Text>, kept: seq<Text>, used: nat, first: bool) {
    && |kept| <= |texts|
    && (forall i :: 0 <= i < |kept| ==> kept[i] != [] && kept[i] <= texts[i])
    && (forall i :: 0 <= i < |kept| - 1 ==> kept[i] == texts[i])
    && (kept == [] && texts != [] ==> used + (if first then 0 else 2) >= 12000)
    && (kept != [] ==>
          var total := used + (if first then 0 else 2) + JoinedLength(kept);
          && total <= 12000
          && (kept[|kept| - 1] != texts[|kept| - 1] ==> total == 12000)
          && (|kept| < |texts| ==> total + 2 >= 12000))
  }

  lemma SpaceIsSpace()
    ensures PySpace(SPACE)
  {
  }

  lemma SquashTrims(text: Text)
    ensures Trim(Squash(text, PySpace), PySpace) == Join(Words(text, PySpace), [' ' as nat])
    ensures Squash(text, PySpace) == [] <==> Words(text, PySpace) == []
  {
    hide PySpace;
    var words := Words(text, PySpace);
    WordsAreWords(text, PySpace);
    SpaceIsSpace();
    JoinIsSquashed(words, PySpace);
    TrimTrims(Squash(text, PySpace), PySpace);
  }

  lemma JoinedLengthFirst(own: Text, kept: seq<Text>)
    ensures JoinedLength([own] + kept) == |own| + if kept == [] then 0 else 2 + JoinedLength(kept)
  {
    JoinFirst(own, kept, PARAGRAPH_BREAK);
  }

  lemma KeptMore(texts: seq<Text>, kept: seq<Text>, used: nat, first: bool, text: Text, own: Text)
    requires own != [] && own <= text && used + (if first then 0 else 2) + |own| <= 12000
    requires var used' := used + (if first then 0 else 2) + |own|;
      if own == text && used' < 12000 then KeptOf(texts, kept, used', false) else used' == 12000 && kept == []
    ensures KeptOf([text] + texts, [own] + kept, used, first)
  {
    hide JoinedLength;
    JoinedLengthFirst(own, kept);
    var all, texts' := [own] + kept, [text] + texts;
    assert forall i :: 0 < i < |all| ==> all[i] == kept[i - 1] && texts'[i] == texts[i - 1];
  }

  lemma SquashIsJoin(text: Text)
    ensures Squash(text, PySpace) == Join(Words(text, PySpace), [' ' as nat])
  {
  }

  lemma WordsOf(text: Text)
    ensures Words(text, PySpace) == [] <==> Join(Words(text, PySpace), [' ' as nat]) == []
  {
    hide Words, PySpace, Squash;
    SquashTrims(text);
    SquashIsJoin(text);
  }

  lemma NothingKept(used: nat, first: bool)
    ensures KeptOf([], [], used, first)
  {
  }

  lemma NothingFits(texts: seq<Text>, used: nat, first: bool)
    requires used + (if first then 0 else 2) >= 12000
    ensures KeptOf(texts, [], used, first)
  {
  }

  /** The kept paragraphs, from the request alone. */
  lemma {:induction false} CleanIs(elements: seq<Element>, used: nat, first: bool)
    requires used <= 12000
    ensures KeptOf(Spoken(elements), Clean(elements, used, first), used, first)
  {
    hide Words, Join, Squash, Trim, PySpace, KeptOf;
    if elements == [] {
      NothingKept(used, first);
    } else if elements[0].NotText? {
      CleanIs(elements[1..], used, first);
    } else {
      var text := Join(Words(elements[0].text, PySpace), [' ' as nat]);
      SquashTrims(elements[0].text);
      WordsOf(elements[0].text);
      var separator := if first then 0 else 2;
      if Words(elements[0].text, PySpace) == [] {
        CleanIs(elements[1..], used, first);
      } else if used + separator >= 12000 {
        NothingFits(Spoken(elements), used, first);
      } else {
        var available := 12000 - used - separator;
        var own := if |text| <= available then text else text[..available];
        var used' := used + separator + |own|;
        var rest := if used' >= 12000 then [] else Clean(elements[1..], used', false);
        if used' < 12000 { CleanIs(elements[1..], used', false); }
        KeptMore(Spoken(elements[1..]), rest, used, first, text, own);
      }
    }
  }

  method CleanParagraphs(elements: seq<Element>) returns (cleaned: seq<Text>)
    ensures cleaned == Clean(if |elements| <= MAX_PARAGRAPHS then elements else elements[..MAX_PARAGRAPHS], 0, true)
    ensures KeptOf(Spoken(if |elements| <= 400 then elements else elements[..400]), cleaned, 0, true)
  {
    hide Squash, Trim, PySpace, Clean, Spoken, KeptOf;
    var values := if |elements| <= MAX_PARAGRAPHS then elements else elements[..MAX_PARAGRAPHS];
    cleaned := [];
    var used: nat := 0;
    for i := 0 to |values|
      invariant cleaned + Clean(values[i..], used, cleaned == []) == Clean(values, 0, true)
    {
      CleanStep(values[i..], used, cleaned == []);
      assert values[i..][1..] == values[i + 1..];
      if values[i].NotText? { continue; }
      var value := Trim(Squash(values[i].text, PySpace), PySpace);
      if value == [] { continue; }
      var separator := if cleaned == [] then 0 else 2;
      var available := MAX_TEXT - used - separator;
      if available <= 0 { break; }
      value := if |value| <= available then value else value[..available];
      if value != [] {
        cleaned := cleaned + [value];
        used := used + separator + |value|;
      }
      if used >= MAX_TEXT { break; }
    }
    CleanNothing(used, cleaned == []);
    CleanIs(values, 0, true);
  }

  /** Whatever the request holds, the kept paragraphs are nonempty and fit the text limit. */
  lemma {:induction false} CleanFits(elements: seq<Element>, used: nat, first: bool)
    requires used <= MAX_TEXT
    ensures var cleaned := Clean(elements, used, first);
      && (forall p :: p in cleaned ==> p != [])
      && (cleaned != [] ==> used + (if first then 0 else 2) + JoinedLength(cleaned) <= MAX_TEXT)
  {
    hide Squash, Trim, PySpace;
    if elements != [] && elements[0].Str? {
      var value := Trim(Squash(elements[0].text, PySpace), PySpace);
      var separator := if first then 0 else 2;
      if value == [] {
        CleanFits(elements[1..], used, first);
      } else if used + separator < MAX_TEXT {
        var available := MAX_TEXT - used - separator;
        var kept := if |value| <= available then value else value[..available];
        var used' := used + separator + |kept|;
        var rest := if used' >= MAX_TEXT then [] else Clean(elements[1..], used', false);
        if used' < MAX_TEXT { CleanFits(elements[1..], used', false); }
        JoinFirst(kept, rest, PARAGRAPH_BREAK);
      }
    } else if elements != [] {
      CleanFits(elements[1..], used, first);
    }
  }

  ghost predicate ServerForm(texts: seq<Text>) {
    forall t :: t in texts ==> t != [] && Squashed(t, PySpace)
  }

  lemma CleanOne(t: Text, rest: seq<Element>, used: nat, first: bool)
    requires t != [] && Squashed(t, PySpace)
    requires used + (if first then 0 else 2) + |t| <= MAX_TEXT
    ensures var used' := used + (if first then 0 else 2) + |t|;
      Clean([Str(t)] + rest, used, first) == [t] + (if used' >= MAX_TEXT then [] else Clean(rest, used', false))
  {
    hide Squash, Trim, PySpace, Squashed, Clean;
    assert Trim(Squash(t, PySpace), PySpace) == t by {
      SquashFixes(t, PySpace);
      SquashedIsTrimmed(t, PySpace);
    }
    assert ([Str(t)] + rest)[1..] == rest;
    CleanStep([Str(t)] + rest, used, first);
  }

  /** Paragraphs in the server's own form that fit are kept unchanged. */
  lemma {:induction false} CleanKeeps(texts: seq<Text>, used: nat, first: bool)
    requires ServerForm(texts)
    requires texts != [] ==> used + (if first then 0 else 2) + JoinedLength(texts) <= MAX_TEXT
    ensures Clean(AllStr(texts), used, first) == texts
  {
    hide Squashed, PySpace, Clean, JoinedLength;
    if texts != [] {
      var t, rest := texts[0], texts[1..];
      assert t in texts && forall r :: r in rest ==> r in texts;
      assert texts == [t] + rest;
      JoinedLengthFirst(t, rest);
      assert AllStr(texts) == [Str(t)] + AllStr(rest);
      hide AllStr;
      CleanOne(t, AllStr(rest), used, first);
      if rest != [] { CleanKeeps(rest, used + (if first then 0 else 2) + |t|, false); }
      else { CleanNothing(used + (if first then 0 else 2) + |t|, false); }
    } else {
      CleanNothing(used, first);
    }
  }

  // ---------- the browser's tracks ----------

  lemma {:induction false} DecodedNoLonger(texts: seq<Text>)
    ensures |FromUtf16All(texts)| == |texts|
    ensures JoinedLength(FromUtf16All(texts)) <= JoinedLength(texts)
  {
    if texts != [] {
      DecodedNoLonger(texts[1..]);
      JoinFirst(texts[0], texts[1..], PARAGRAPH_BREAK);
      JoinFirst(FromUtf16(texts[0]), FromUtf16All(texts[1..]), PARAGRAPH_BREAK);
      assert texts == [texts[0]] + texts[1..];
    }
  }

  lemma {:induction false} DecodedServerForm(texts: seq<Text>)
    requires ServerForm(texts)
    ensures ServerForm(FromUtf16All(texts))
  {
    hide Squashed, FromUtf16;
    if texts != [] {
      assert texts[0] in texts;
      assert forall t :: t in texts[1..] ==> t in texts;
      Utf16KeepsForm(texts[0]);
      DecodedServerForm(texts[1..]);
    }
  }

  lemma {:induction false} TextsLength<M>(paragraphs: seq<T.Paragraph<M>>)
    ensures |T.Texts(paragraphs)| == |paragraphs|
  {
    if paragraphs != [] { TextsLength(paragraphs[1..]); }
  }

  /** The server cleans a track of the browser to exactly the track's own
      paragraphs, if they are in the server's white-space form and few enough. */
  lemma TrackIsKept<M>(track: T.Track<M>, limit: nat)
    requires T.GoodTrack(track, limit) && limit <= MAX_TEXT
    requires ServerForm(T.Texts(track.paragraphs))
    ensures var texts := FromUtf16All(T.Texts(track.paragraphs));
      Clean(AllStr(texts), 0, true) == texts && |texts| == |track.paragraphs|
  {
    var texts := T.Texts(track.paragraphs);
    TextsLength(track.paragraphs);
    DecodedNoLonger(texts);
    DecodedServerForm(texts);
    hide Clean, FromUtf16All, JoinedLength, ServerForm, T.Texts;
    CleanKeeps(FromUtf16All(texts), 0, true);
  }

  /** What the browser posts for a list of paragraphs. */
  function Request<M>(paragraphs: seq<T.Paragraph<M>>): seq<Element> {
    AllStr(FromUtf16All(T.Texts(paragraphs)))
  }

  lemma {:induction false} PrefixOfRequest<M>(paragraphs: seq<T.Paragraph<M>>, n: nat)
    requires n <= |paragraphs|
    ensures |T.Texts(paragraphs)| == |Request(paragraphs)| == |paragraphs|
    ensures T.Texts(paragraphs[..n]) == T.Texts(paragraphs)[..n]
    ensures Request(paragraphs[..n]) == Request(paragraphs)[..n]
  {
    hide FromUtf16;
    if paragraphs != [] {
      var rest := paragraphs[1..];
      if n > 0 {
        PrefixOfRequest(rest, n - 1);
        assert paragraphs[..n][1..] == rest[..n - 1];
      } else {
        PrefixOfRequest(rest, 0);
      }
    }
  }

  /** The part of a track that the server looks at. */
  function Served<M>(paragraphs: seq<T.Paragraph<M>>): seq<T.Paragraph<M>> {
    if |paragraphs| <= MAX_PARAGRAPHS then paragraphs else paragraphs[..MAX_PARAGRAPHS]
  }

  /** A track in the server's form is cleaned to its own first paragraphs, as
      many as the server looks at. */
  lemma ServedIsKept<M>(track: T.Track<M>, limit: nat)
    requires T.GoodTrack(track, limit) && limit <= MAX_TEXT
    requires ServerForm(T.Texts(track.paragraphs))
    ensures var request, served := Request(track.paragraphs), Served(track.paragraphs);
      && var seen := if |request| <= MAX_PARAGRAPHS then request else request[..MAX_PARAGRAPHS];
         Clean(seen, 0, true) == FromUtf16All(T.Texts(served)) && |FromUtf16All(T.Texts(served))| == |served|
  {
    hide Clean, FromUtf16All, JoinedLength, Squashed;
    var all := T.Texts(track.paragraphs);
    var served := Served(track.paragraphs);
    PrefixOfRequest(track.paragraphs, |served|);
    assert served == track.paragraphs[..|served|];
    RunNoLonger([], all[..|served|], all[|served|..]);
    assert [] + all[..|served|] + all[|served|..] == all;
    assert forall p :: p in all[..|served|] ==> p in all;
    hide T.Texts;
    assert ServerForm(T.Texts(served)) && served != [];
    TrackIsKept(T.Track(served, JoinedLength(T.Texts(served))), limit);
  }

  // ---------- cutting keeps the server's form ----------

  lemma SliceKeepsSingleSpaces(s: Text, lo: nat, hi: nat)
    requires lo <= hi <= |s| && Squashed(s, PySpace) && Trimmed(s[lo..hi], JsSpace)
    ensures Squashed(s[lo..hi], PySpace)
  {
    var r := s[lo..hi];
    forall i | 0 <= i < |r| && PySpace(r[i]) ensures r[i] == SPACE && 0 < i < |r| - 1 {
      assert s[lo + i] == r[i];
      assert JsSpace(SPACE);
    }
    forall i, j | 0 <= i < j < |r| && PySpace(r[i]) && PySpace(r[j]) ensures j != i + 1 {
      assert s[lo + i] == r[i] && s[lo + j] == r[j];
    }
  }

  /** Trimming takes a slice. */
  lemma TrimIsSlice(s: Text) returns (lo: nat, hi: nat)
    ensures lo <= hi <= |s| && JsTrim(s) == s[lo..hi]
  {
    var left := TrimLeft(s, JsSpace);
    lo := |s| - |left|;
    hi := lo + |JsTrim(s)|;
    assert JsTrim(s) == left[..|JsTrim(s)|];
  }

  lemma SliceOfSlice(s: Text, lo: nat, hi: nat, a: nat, b: nat)
    requires lo <= hi <= |s| && a <= b <= hi - lo
    ensures s[lo..hi][a..b] == s[lo + a..lo + b]
  {
    var x, y := s[lo..hi][a..b], s[lo + a..lo + b];
    forall i | 0 <= i < b - a ensures x[i] == y[i] {
      assert x[i] == s[lo..hi][a + i] == s[lo + (a + i)];
    }
  }

  lemma TrimmedSliceKeepsForm(s: Text, lo: nat, hi: nat, r: Text)
    requires lo <= hi <= |s| && Squashed(s, PySpace) && r == s[lo..hi] && JsTrimmed(r)
    ensures Squashed(r, PySpace)
  {
    SliceKeepsSingleSpaces(s, lo, hi);
  }

  lemma TrimKeepsForm(s: Text, lo: nat, hi: nat)
    requires lo <= hi <= |s| && Squashed(s, PySpace)
    ensures Squashed(JsTrim(s[lo..hi]), PySpace)
  {
    hide Squashed, JsTrim, JsVisible, JsTrimmed;
    var x := s[lo..hi];
    assert JsTrimmed(JsTrim(x)) by { JsTrimFacts(x); }
    var a, b := TrimIsSlice(x);
    SliceOfSlice(s, lo, hi, a, b);
    TrimmedSliceKeepsForm(s, lo + a, lo + b, JsTrim(x));
  }

  /** A chapter in the server's form is cut into pieces in the server's form. */
  lemma {:induction false} PiecesKeepForm(s: Text)
    requires Squashed(s, PySpace)
    ensures forall p :: p in T.Pieces(s) ==> Squashed(p, PySpace)
    decreases |s|
  {
    hide JsTrim, Squashed;
    if |s| > T.PIECE_LIMIT {
      var cut := T.CutPoint(s);
      TrimKeepsForm(s, 0, cut);
      TrimKeepsForm(s, cut, |s|);
      assert s[0..cut] == s[..cut] && s[cut..|s|] == s[cut..];
      PiecesKeepForm(JsTrim(s[cut..]));
    }
  }

  ghost predicate FormOf<M>(paragraphs: seq<T.Paragraph<M>>) {
    forall i :: 0 <= i < |paragraphs| ==> Squashed(paragraphs[i].text, PySpace)
  }

  lemma {:induction false} PlaceKeepsForm<M>(texts: seq<Text>, place: M)
    requires forall t :: t in texts ==> Squashed(t, PySpace)
    ensures FormOf(T.Place(texts, place))
  {
    hide Squashed;
    if texts != [] {
      assert texts[0] in texts;
      PlaceKeepsForm(texts[1..], place);
    }
  }

  lemma {:induction false} AllPiecesKeepForm<M>(paragraphs: seq<T.Paragraph<M>>)
    requires FormOf(paragraphs)
    ensures FormOf(T.AllPieces(paragraphs))
  {
    hide Squashed, T.Pieces, JsTrim, T.Place;
    if paragraphs != [] {
      var last := paragraphs[|paragraphs| - 1];
      AllPiecesKeepForm(paragraphs[..|paragraphs| - 1]);
      TrimKeepsForm(last.text, 0, |last.text|);
      assert last.text[0..|last.text|] == last.text;
      PiecesKeepForm(JsTrim(last.text));
      PlaceKeepsForm(T.Pieces(JsTrim(last.text)), last.place);
    }
  }

  lemma {:induction false} TrackInContents<M>(tracks: seq<T.Track<M>>, k: nat)
    requires k < |tracks|
    ensures forall p :: p in tracks[k].paragraphs ==> p in Flatten(T.Contents(tracks))
  {
    if k > 0 { TrackInContents(tracks[1..], k - 1); }
  }

  lemma {:induction false} TextsServerForm<M>(paragraphs: seq<T.Paragraph<M>>)
    requires forall p :: p in paragraphs ==> p.text != [] && Squashed(p.text, PySpace)
    ensures ServerForm(T.Texts(paragraphs))
  {
    hide Squashed;
    if paragraphs != [] {
      assert paragraphs[0] in paragraphs;
      TextsServerForm(paragraphs[1..]);
    }
  }

  /** All tracks of a chapter in the server's form consist of paragraphs in the server's form. */
  lemma TracksKeepForm<M>(paragraphs: seq<T.Paragraph<M>>, tracks: seq<T.Track<M>>, k: nat)
    requires FormOf(paragraphs) && T.IsTrackList(tracks, T.AllPieces(paragraphs)) && k < |tracks|
    ensures ServerForm(T.Texts(tracks[k].paragraphs))
    ensures T.GoodTrack(tracks[k], T.Limit(k))
  {
    var pieces := T.AllPieces(paragraphs);
    hide Squashed, T.AllPieces, T.Contents, Flatten;
    AllPiecesKeepForm(paragraphs);
    T.AllPiecesAreGood(paragraphs);
    TrackInContents(tracks, k);
    forall p | p in tracks[k].paragraphs ensures p.text != [] && Squashed(p.text, PySpace) {
      var i :| 0 <= i < |pieces| && pieces[i] == p;
      assert T.GoodPiece(p.text);
    }
    TextsServerForm(tracks[k].paragraphs);
  }
}
