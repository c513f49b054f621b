/** Tags of bookmarks and notes (auth/library.go normalizeTag, auth/reading.go
    normalizeReadingTags and insertReadingTags). Texts are sequences of code
    points. Unicode lower-casing is a parameter; all that is used of it is that
    it treats the two cases of an ASCII letter alike. */
module ReadingTags {
  import opened Outcomes
  import opened Text

  const MAX_TAG: nat := 40
  const MAX_TAGS: nat := 12

  datatype Error = EnterTag | TagTooLong | TooManyTags

  // ---------- case ----------

  function Lower(s: Text, lower: nat -> nat): Text { seq(|s|, i requires 0 <= i < |s| => lower(s[i])) }

  ghost predicate LowersAscii(lower: nat -> nat) {
    forall c: nat :: 0x41 <= c <= 0x5A ==> lower(c) == lower(c + 0x20)
  }

  /** Texts that differ under lower-casing differ in more than the case of ASCII letters. */
  lemma LowerIsCoarser(s: Text, t: Text, lower: nat -> nat)
    requires LowersAscii(lower) && SameIgnoringCase(s, t)
    ensures Lower(s, lower) == Lower(t, lower)
  {
  }

  // ---------- one tag ----------

  function NormalizeTag(raw: Text): Result<Text, Error> {
    var tag := GoSquash(raw);
    if tag == [] then Err(EnterTag)
    else if |tag| > MAX_TAG then Err(TagTooLong)
    else Ok(tag)
  }

  /** Only a text of white space has no words. */
  lemma {:induction false} BlankSquash(s: Text)
    ensures GoSquash(s) == [] <==> GoTrim(s) == []
  {
    if s == [] {
    } else if GoSpace(s[0]) {
      BlankSquash(s[1..]);
    } else {
      WordsAreWords(s, GoSpace);
      assert Words(s, GoSpace) != [];
      assert IsWord(Words(s, GoSpace)[0], GoSpace);
      TrimTrims(s, GoSpace);
    }
  }

  lemma NormalizedIsFixed(raw: Text)
    requires NormalizeTag(raw).Ok?
    ensures NormalizeTag(NormalizeTag(raw).value) == NormalizeTag(raw)
  {
    hide Squash;
    SquashIdempotent(raw, GoSpace);
  }

  // ---------- the list of tags ----------

  /** The tags that are not blank, in normal form. */
  function Named(raws: seq<Text>): seq<Text> {
    if raws == [] then []
    else
      var tag := GoSquash(raws[|raws| - 1]);
      Named(raws[..|raws| - 1]) + if tag == [] then [] else [tag]
  }

  predicate HasKey(tags: seq<Text>, key: Text, lower: nat -> nat) {
    exists i :: 0 <= i < |tags| && Lower(tags[i], lower) == key
  }

  /** The tags without those that repeat an earlier one under lower-casing. */
  function Firsts(tags: seq<Text>, lower: nat -> nat): (r: seq<Text>)
    ensures |r| <= |tags|
  {
    if tags == [] then []
    else
      var before := Firsts(tags[..|tags| - 1], lower);
      var last := tags[|tags| - 1];
      if HasKey(before, Lower(last, lower), lower) then before else before + [last]
  }

  ghost predicate AllShort(raws: seq<Text>) { forall i :: 0 <= i < |raws| ==> |GoSquash(raws[i])| <= MAX_TAG }

  lemma HasKeySnoc(tags: seq<Text>, tag: Text, lower: nat -> nat)
    ensures forall key :: HasKey(tags + [tag], key, lower) <==> HasKey(tags, key, lower) || key == Lower(tag, lower)
  {
    hide Lower;
    forall key ensures HasKey(tags + [tag], key, lower) <==> HasKey(tags, key, lower) || key == Lower(tag, lower) {
      if HasKey(tags, key, lower) {
        var i :| 0 <= i < |tags| && Lower(tags[i], lower) == key;
        assert (tags + [tag])[i] == tags[i];
      }
      assert (tags + [tag])[|tags|] == tag;
    }
  }

  /** Every tag is represented. */
  lemma {:induction false} FirstsCover(tags: seq<Text>, lower: nat -> nat)
    ensures forall i :: 0 <= i < |tags| ==> HasKey(Firsts(tags, lower), Lower(tags[i], lower), lower)
  {
    hide Lower, HasKey;
    if tags != [] {
      var rest, last := tags[..|tags| - 1], tags[|tags| - 1];
      var before := Firsts(rest, lower);
      FirstsCover(rest, lower);
      HasKeySnoc(before, last, lower);
      forall i | 0 <= i < |tags| ensures HasKey(Firsts(tags, lower), Lower(tags[i], lower), lower) {
        if i < |rest| { assert tags[i] == rest[i]; }
      }
    }
  }

  /** The result keeps the first tag of every group, in order: `at` says where each one comes from. */
  lemma {:induction false} FirstsAreFirst(tags: seq<Text>, lower: nat -> nat) returns (at: seq<nat>)
    ensures |at| == |Firsts(tags, lower)|
    ensures forall k :: 0 <= k < |at| ==> at[k] < |tags| && Firsts(tags, lower)[k] == tags[at[k]]
    ensures forall j, k :: 0 <= j < k < |at| ==> at[j] < at[k]
    ensures forall k, i :: 0 <= k < |at| && 0 <= i < at[k] ==> Lower(tags[i], lower) != Lower(tags[at[k]], lower)
  {
    hide Lower, HasKey;
    if tags == [] {
      at := [];
    } else {
      var rest, last := tags[..|tags| - 1], tags[|tags| - 1];
      var before := Firsts(rest, lower);
      at := FirstsAreFirst(rest, lower);
      FirstsCover(rest, lower);
      if !HasKey(before, Lower(last, lower), lower) {
        forall i | 0 <= i < |rest| ensures Lower(tags[i], lower) != Lower(last, lower) {
          assert HasKey(before, Lower(rest[i], lower), lower);
        }
        at := at + [|rest|];
      }
    }
  }

  ghost predicate DistinctLower(tags: seq<Text>, lower: nat -> nat) {
    forall i, j :: 0 <= i < j < |tags| ==> Lower(tags[i], lower) != Lower(tags[j], lower)
  }

  lemma {:induction false} FirstsDistinct(tags: seq<Text>, lower: nat -> nat)
    ensures DistinctLower(Firsts(tags, lower), lower)
  {
    hide Lower;
    if tags != [] {
      FirstsDistinct(tags[..|tags| - 1], lower);
    }
  }

  lemma {:induction false} DistinctStays(tags: seq<Text>, lower: nat -> nat)
    requires DistinctLower(tags, lower)
    ensures Firsts(tags, lower) == tags
  {
    hide Lower;
    if tags != [] {
      DistinctStays(tags[..|tags| - 1], lower);
      assert tags == tags[..|tags| - 1] + [tags[|tags| - 1]];
    }
  }

  ghost predicate NormalForm(tags: seq<Text>) {
    forall i :: 0 <= i < |tags| ==> NormalizeTag(tags[i]) == Ok(tags[i])
  }

  lemma NormalTag(tag: Text)
    requires NormalizeTag(tag) == Ok(tag)
    ensures GoSquash(tag) == tag && tag != [] && |tag| <= MAX_TAG
  {
    hide GoSquash;
  }

  lemma NormalInit(tags: seq<Text>)
    requires NormalForm(tags) && tags != []
    ensures NormalForm(tags[..|tags| - 1])
    ensures var last := tags[|tags| - 1]; GoSquash(last) == last && last != [] && |last| <= MAX_TAG
  {
    hide GoSquash, NormalizeTag;
    NormalTag(tags[|tags| - 1]);
  }

  lemma NoTags()
    ensures AllShort([])
  {
  }

  lemma ShortStep(raws: seq<Text>, n: nat)
    requires n < |raws|
    ensures AllShort(raws[..n + 1]) <==> AllShort(raws[..n]) && |GoSquash(raws[n])| <= MAX_TAG
  {
    hide GoSquash;
    assert forall i :: 0 <= i < n ==> raws[..n + 1][i] == raws[..n][i] == raws[i];
    if AllShort(raws[..n + 1]) {
      assert raws[..n + 1][n] == raws[n];
    }
  }

  lemma {:induction false} NamedStays(tags: seq<Text>)
    requires NormalForm(tags)
    ensures Named(tags) == tags && AllShort(tags)
  {
    hide GoSquash, NormalForm, AllShort;
    if tags == [] {
      NoTags();
    } else {
      var rest, last := tags[..|tags| - 1], tags[|tags| - 1];
      NormalInit(tags);
      NamedStays(rest);
      ShortStep(tags, |rest|);
      assert tags[..|rest| + 1] == tags == rest + [last];
    }
  }

  lemma {:induction false} NamedIsNormal(raws: seq<Text>)
    requires AllShort(raws)
    ensures NormalForm(Named(raws))
  {
    hide GoSquash;
    if raws != [] {
      NamedIsNormal(raws[..|raws| - 1]);
      var last := raws[|raws| - 1];
      if GoSquash(last) != [] { NormalizedIsFixed(last); }
    }
  }

  /** What normalizeReadingTags yields. */
  function Normalized(raws: seq<Text>, lower: nat -> nat): seq<Text> { Firsts(Named(raws), lower) }

  ghost predicate Accepted(raws: seq<Text>, lower: nat -> nat) {
    AllShort(raws) && |Normalized(raws, lower)| <= MAX_TAGS
  }

  /** The position at which a list is refused for a tag that is too long. */
  ghost predicate TooLongAt(raws: seq<Text>, lower: nat -> nat, i: nat) {
    i < |raws| && Accepted(raws[..i], lower) && |GoSquash(raws[i])| > MAX_TAG
  }

  lemma NormalizedStep(raws: seq<Text>, n: nat, lower: nat -> nat)
    requires n < |raws|
    ensures var tag := GoSquash(raws[n]);
      var before := Normalized(raws[..n], lower);
      Normalized(raws[..n + 1], lower)
      == if tag == [] || HasKey(before, Lower(tag, lower), lower) then before else before + [tag]
    ensures AllShort(raws[..n + 1]) <==> AllShort(raws[..n]) && |GoSquash(raws[n])| <= MAX_TAG
  {
    hide GoSquash, HasKey, Lower, AllShort;
    ShortStep(raws, n);
    var prefix := raws[..n + 1];
    assert prefix[..n] == raws[..n] && prefix[n] == raws[n];
    var tag := GoSquash(raws[n]);
    var named := Named(raws[..n]);
    if tag == [] {
      assert Named(prefix) == named;
    } else {
      assert Named(prefix) == named + [tag];
      assert (named + [tag])[..|named|] == named;
    }
  }

  lemma {:induction false} RefusedStays(raws: seq<Text>, m: nat, n: nat, lower: nat -> nat)
    requires m <= n <= |raws| && !Accepted(raws[..m], lower)
    ensures !Accepted(raws[..n], lower)
    decreases n
  {
    hide Normalized, HasKey, Lower, GoSquash, AllShort;
    if m < n {
      RefusedStays(raws, m, n - 1, lower);
      NormalizedStep(raws, n - 1, lower);
    }
  }

  /** A list with a refused beginning is refused. */
  lemma {:induction false} NotAccepted(raws: seq<Text>, n: nat, lower: nat -> nat)
    requires n < |raws| && !Accepted(raws[..n + 1], lower)
    ensures !Accepted(raws, lower)
    ensures !(exists i: nat :: i > n && TooLongAt(raws, lower, i))
    decreases |raws| - n
  {
    hide GoSquash, HasKey, Lower;
    forall i: nat | n < i < |raws| ensures !Accepted(raws[..i], lower) {
      RefusedStays(raws, n + 1, i, lower);
    }
    RefusedStays(raws, n + 1, |raws|, lower);
    assert raws[..|raws|] == raws;
  }

  lemma AcceptedPrefixes(raws: seq<Text>, lower: nat -> nat)
    requires Accepted(raws, lower)
    ensures !(exists i: nat :: TooLongAt(raws, lower, i))
  {
    hide GoSquash, Normalized;
  }

  lemma NothingNormalized(lower: nat -> nat)
    ensures Normalized([], lower) == [] && forall key :: !HasKey([], key, lower)
  {
  }

  method NormalizeReadingTags(raws: seq<Text>, lower: nat -> nat) returns (r: Result<seq<Text>, Error>)
    ensures r.Ok? <==> Accepted(raws, lower)
    ensures r.Ok? ==> r.value == Normalized(raws, lower)
    ensures r == Err(TagTooLong) <==> exists i: nat :: TooLongAt(raws, lower, i)
    ensures r.Err? ==> r.error in {TagTooLong, TooManyTags}
    ensures r.Ok? <==> (forall i :: 0 <= i < |raws| ==> |GoSquash(raws[i])| <= 40) && |Normalized(raws, lower)| <= 12
  {
    hide GoSquash, GoTrim, Lower, Firsts, Named, HasKey;
    NothingNormalized(lower);
    var result: seq<Text> := [];
    var seen: set<Text> := {};
    for n := 0 to |raws|
      invariant AllShort(raws[..n]) && result == Normalized(raws[..n], lower) && |result| <= MAX_TAGS
      invariant forall key :: key in seen <==> HasKey(result, key, lower)
    {
      var raw := raws[n];
      NormalizedStep(raws, n, lower);
      BlankSquash(raw);
      var normal := NormalizeTag(raw);
      if normal.Err? {
        if GoTrim(raw) == [] { continue; }
        assert TooLongAt(raws, lower, n);
        NotAccepted(raws, n, lower);
        return Err(normal.error);
      }
      var tag := normal.value;
      var key := Lower(tag, lower);
      if key in seen { continue; }
      ghost var before := result;
      seen := seen + {key};
      result := result + [tag];
      HasKeySnoc(before, tag, lower);
      if |result| > 12 {
        NotAccepted(raws, n, lower);
        return Err(TooManyTags);
      }
    }
    assert raws[..|raws|] == raws;
    AcceptedPrefixes(raws, lower);
    return Ok(result);
  }

  /** A list that was accepted once is accepted unchanged from then on. */
  lemma NormalizationIsStable(raws: seq<Text>, lower: nat -> nat)
    requires Accepted(raws, lower)
    ensures var tags := Normalized(raws, lower);
      NormalForm(tags) && DistinctLower(tags, lower) && Accepted(tags, lower) && Normalized(tags, lower) == tags
  {
    hide Lower, HasKey, GoSquash, NormalizeTag;
    var tags := Normalized(raws, lower);
    NamedIsNormal(raws);
    FirstsDistinct(Named(raws), lower);
    var at := FirstsAreFirst(Named(raws), lower);
    NamedStays(tags);
    DistinctStays(tags, lower);
  }

  /** The named tags are the tags that are not blank, in order: `at` says where each one comes from. */
  lemma {:induction false} NamedPositions(raws: seq<Text>) returns (at: seq<nat>)
    ensures |at| == |Named(raws)|
    ensures forall k :: 0 <= k < |at| ==> at[k] < |raws| && Named(raws)[k] == GoSquash(raws[at[k]]) != []
    ensures forall j, k :: 0 <= j < k < |at| ==> at[j] < at[k]
    ensures forall i :: 0 <= i < |raws| && GoSquash(raws[i]) != [] ==> i in at
  {
    hide GoSquash;
    if raws == [] {
      at := [];
    } else {
      var rest, last := raws[..|raws| - 1], raws[|raws| - 1];
      at := NamedPositions(rest);
      ghost var before := at;
      if GoSquash(last) != [] { at := at + [|rest|]; }
      forall i | 0 <= i < |raws| && GoSquash(raws[i]) != [] ensures i in at {
        if i < |rest| {
          assert rest[i] == raws[i];
          assert i in before;
        }
      }
    }
  }

  lemma PlaceIn(places: seq<nat>, i: nat) returns (j: nat)
    requires i in places
    ensures j < |places| && places[j] == i
  {
    j :| 0 <= j < |places| && places[j] == i;
  }

  lemma KeyIn(tags: seq<Text>, key: Text, lower: nat -> nat) returns (k: nat)
    requires HasKey(tags, key, lower)
    ensures k < |tags| && key == Lower(tags[k], lower)
  {
    hide Lower;
    k :| 0 <= k < |tags| && Lower(tags[k], lower) == key;
  }

  lemma Ordered(at: seq<nat>, j: nat, k: nat)
    requires j < |at| && k < |at| && at[j] < at[k]
    requires forall j, k :: 0 <= j < k < |at| ==> at[j] < at[k]
    ensures j < k
  {
  }

  /** The result, from the list as sent: tag k is the squashed text number at[k],
      in order; no text before it reads alike under lower-casing, and every text
      that is not blank reads like a tag at or before its place. */
  lemma NormalizedAre(raws: seq<Text>, lower: nat -> nat) returns (at: seq<nat>)
    ensures var tags := Normalized(raws, lower);
      && |at| == |tags|
      && (forall k :: 0 <= k < |at| ==> at[k] < |raws| && tags[k] == GoSquash(raws[at[k]]) != [])
      && (forall j, k :: 0 <= j < k < |at| ==> at[j] < at[k])
      && (forall k, i :: 0 <= k < |at| && 0 <= i < at[k] && GoSquash(raws[i]) != [] ==>
            Lower(GoSquash(raws[i]), lower) != Lower(tags[k], lower))
      && (forall i :: 0 <= i < |raws| && GoSquash(raws[i]) != [] ==>
            exists k :: 0 <= k < |at| && Lower(GoSquash(raws[i]), lower) == Lower(tags[k], lower))
  {
    hide GoSquash, Lower, Firsts, Named, HasKey;
    var named, tags := Named(raws), Normalized(raws, lower);
    var places := NamedPositions(raws);
    var firsts := FirstsAreFirst(named, lower);
    FirstsCover(named, lower);
    at := seq(|firsts|, k requires 0 <= k < |firsts| => places[firsts[k]]);
    forall k, i | 0 <= k < |at| && 0 <= i < at[k] && GoSquash(raws[i]) != []
      ensures Lower(GoSquash(raws[i]), lower) != Lower(tags[k], lower)
    {
      var j := PlaceIn(places, i);
      Ordered(places, j, firsts[k]);
      assert Lower(named[j], lower) != Lower(named[firsts[k]], lower);
    }
    forall i | 0 <= i < |raws| && GoSquash(raws[i]) != []
      ensures exists k :: 0 <= k < |tags| && Lower(GoSquash(raws[i]), lower) == Lower(tags[k], lower)
    {
      var j := PlaceIn(places, i);
      var k := KeyIn(tags, Lower(named[j], lower), lower);
    }
  }

  // ---------- the table ----------

  datatype TagRow = TagRow(tag: Text, createdAt: int)

  /** user_reading_item_tags: the key is the item and the tag without case. */
  type TagTable = map<(Text, Text), TagRow>

  ghost predicate HasTags(table: TagTable, item: Text) { exists tag :: (item, tag) in table }

  function WithTags(table: TagTable, item: Text, tags: seq<Text>, now: int): TagTable {
    if tags == [] then table
    else WithTags(table, item, tags[..|tags| - 1], now)[(item, Fold(tags[|tags| - 1])) := TagRow(tags[|tags| - 1], now)]
  }

  ghost predicate DistinctFolds(tags: seq<Text>) {
    forall i, j :: 0 <= i < j < |tags| ==> Fold(tags[i]) != Fold(tags[j])
  }

  /** No tag meets the key of a row or of another tag. */
  ghost predicate Insertable(table: TagTable, item: Text, tags: seq<Text>) {
    DistinctFolds(tags) && forall i :: 0 <= i < |tags| ==> (item, Fold(tags[i])) !in table
  }

  lemma EmptyInsertable(table: TagTable, item: Text)
    ensures Insertable(table, item, [])
  {
  }

  lemma {:induction false} WithTagsKeys(table: TagTable, item: Text, tags: seq<Text>, now: int)
    ensures forall i :: 0 <= i < |tags| ==> (item, Fold(tags[i])) in WithTags(table, item, tags, now)
    ensures forall key :: key in WithTags(table, item, tags, now) ==>
      key in table || (key.0 == item && exists i :: 0 <= i < |tags| && key.1 == Fold(tags[i]))
    ensures forall key :: key in table ==> key in WithTags(table, item, tags, now)
    ensures forall key: (Text, Text) :: key.0 != item && key in table ==>
      WithTags(table, item, tags, now)[key] == table[key]
  {
    hide Fold;
    if tags != [] {
      var rest := tags[..|tags| - 1];
      WithTagsKeys(table, item, rest, now);
      assert forall i :: 0 <= i < |rest| ==> tags[i] == rest[i];
      forall key | key in WithTags(table, item, tags, now) && key !in table
        ensures key.0 == item && exists i :: 0 <= i < |tags| && key.1 == Fold(tags[i])
      {
        if key in WithTags(table, item, rest, now) {
          var i :| 0 <= i < |rest| && key.1 == Fold(rest[i]);
          assert key.1 == Fold(tags[i]);
        } else {
          assert key.1 == Fold(tags[|rest|]);
        }
      }
    }
  }

  /** Insertable tags each get a row with their own spelling; other rows stay. */
  lemma {:induction false} WithTagsRows(table: TagTable, item: Text, tags: seq<Text>, now: int)
    requires Insertable(table, item, tags)
    ensures var table' := WithTags(table, item, tags, now);
      && (forall i :: 0 <= i < |tags| ==>
            (item, Fold(tags[i])) in table' && table'[(item, Fold(tags[i]))] == TagRow(tags[i], now))
      && (forall key :: key in table ==> key in table' && table'[key] == table[key])
      && (forall key :: key in table' && key !in table ==>
            key.0 == item && exists i :: 0 <= i < |tags| && key.1 == Fold(tags[i]))
  {
    hide Fold;
    WithTagsKeys(table, item, tags, now);
    if tags != [] {
      var rest := tags[..|tags| - 1];
      assert forall i :: 0 <= i < |rest| ==> tags[i] == rest[i];
      WithTagsRows(table, item, rest, now);
    }
  }

  lemma InsertableStep(table: TagTable, item: Text, tags: seq<Text>, n: nat, now: int)
    requires n < |tags| && Insertable(table, item, tags[..n])
    ensures (item, Fold(tags[n])) !in WithTags(table, item, tags[..n], now) <==> Insertable(table, item, tags[..n + 1])
    ensures Insertable(table, item, tags) ==> Insertable(table, item, tags[..n + 1])
  {
    hide Fold, WithTags;
    var prefix, longer := tags[..n], tags[..n + 1];
    WithTagsKeys(table, item, prefix, now);
    assert forall i :: 0 <= i < n ==> longer[i] == prefix[i];
    assert longer[n] == tags[n];
  }

  /** Inserts one row per tag; a row with the key of another one fails the transaction. */
  method InsertReadingTags(table: TagTable, item: Text, tags: seq<Text>, now: int)
    returns (inserted: bool, table': TagTable)
    ensures inserted <==> Insertable(table, item, tags)
    ensures table' == if inserted then WithTags(table, item, tags, now) else table
  {
    hide Fold, Insertable;
    table' := table;
    EmptyInsertable(table, item);
    for n := 0 to |tags|
      invariant table' == WithTags(table, item, tags[..n], now)
      invariant Insertable(table, item, tags[..n])
    {
      InsertableStep(table, item, tags, n, now);
      if (item, Fold(tags[n])) in table' { return false, table; }
      assert tags[..n + 1][..n] == tags[..n];
      table' := table'[(item, Fold(tags[n])) := TagRow(tags[n], now)];
    }
    assert tags[..|tags|] == tags;
    return true, table';
  }

  /** Texts with a character 0 are the same to NOCASE if they are equally long
      and agree before it. */
  ghost predicate NulClash(s: Text, t: Text) {
    0 in s && 0 in t && Utf8Size(s) == Utf8Size(t) && SameIgnoringCase(BeforeNul(s), BeforeNul(t))
  }

  ghost predicate HasNulClash(tags: seq<Text>) {
    exists i, j :: 0 <= i < j < |tags| && NulClash(tags[i], tags[j])
  }

  lemma FoldsDiffer(s: Text, t: Text, lower: nat -> nat)
    requires LowersAscii(lower) && Lower(s, lower) != Lower(t, lower)
    ensures Fold(s) == Fold(t) <==> NulClash(s, t)
  {
    hide Fold, Lower, LowersAscii, SameIgnoringCase, Utf8Size;
    FoldEqual(s, t);
    if Fold(s) == Fold(t) && 0 !in s {
      WithoutNul(s);
      WithoutNul(t);
      LowerIsCoarser(s, t, lower);
    }
  }

  /** For an item that has no tags yet, normal tags violate the key exactly if
      two of them hold a character 0, are equally long in bytes and agree before
      it, ignoring ASCII case. */
  lemma InsertableExactly(raws: seq<Text>, lower: nat -> nat, table: TagTable, item: Text)
    requires LowersAscii(lower) && Accepted(raws, lower) && !HasTags(table, item)
    ensures Insertable(table, item, Normalized(raws, lower)) <==> !HasNulClash(Normalized(raws, lower))
  {
    hide Lower, Fold, Normalized, GoSquash, NulClash, LowersAscii;
    var tags := Normalized(raws, lower);
    NormalizationIsStable(raws, lower);
    forall i, j | 0 <= i < j < |tags| ensures Fold(tags[i]) == Fold(tags[j]) <==> NulClash(tags[i], tags[j]) {
      FoldsDiffer(tags[i], tags[j], lower);
    }
  }

  lemma {:induction false} NamedComeFrom(raws: seq<Text>)
    ensures forall t :: t in Named(raws) ==> exists i :: 0 <= i < |raws| && t == GoSquash(raws[i])
  {
    hide GoSquash;
    if raws != [] {
      var rest, last := raws[..|raws| - 1], raws[|raws| - 1];
      NamedComeFrom(rest);
      forall t | t in Named(raws) ensures exists i :: 0 <= i < |raws| && t == GoSquash(raws[i]) {
        if t in Named(rest) {
          var i :| 0 <= i < |rest| && t == GoSquash(rest[i]);
          assert t == GoSquash(raws[i]);
        } else {
          assert t == GoSquash(raws[|rest|]);
        }
      }
    }
  }

  lemma NoNulFromSquash(s: Text)
    requires 0 !in s
    ensures 0 !in GoSquash(s)
  {
    SquashComesFrom(s, GoSpace);
  }

  lemma NoClashWithoutNul(raws: seq<Text>, lower: nat -> nat)
    requires forall i :: 0 <= i < |raws| ==> 0 !in raws[i]
    ensures !HasNulClash(Normalized(raws, lower))
  {
    hide Lower, GoSquash;
    var tags := Normalized(raws, lower);
    var at := FirstsAreFirst(Named(raws), lower);
    NamedComeFrom(raws);
    forall k | 0 <= k < |tags| ensures 0 !in tags[k] {
      assert tags[k] in Named(raws);
      var i :| 0 <= i < |raws| && tags[k] == GoSquash(raws[i]);
      NoNulFromSquash(raws[i]);
    }
  }

  /** Tags without the character 0 never violate the key of an item that has no tags yet. */
  lemma InsertNeverFails(raws: seq<Text>, lower: nat -> nat, table: TagTable, item: Text)
    requires LowersAscii(lower) && Accepted(raws, lower) && !HasTags(table, item)
    requires forall i :: 0 <= i < |raws| ==> 0 !in raws[i]
    ensures Insertable(table, item, Normalized(raws, lower))
  {
    hide LowersAscii, Insertable, Normalized, Accepted, HasNulClash, HasTags;
    InsertableExactly(raws, lower, table, item);
    NoClashWithoutNul(raws, lower);
  }

  lemma SquashesToItself(s: Text)
    requires s != [] && forall i :: 0 <= i < |s| ==> !GoSpace(s[i])
    ensures GoSquash(s) == s
  {
    hide GoSpace;
    SquashFixes(s, GoSpace);
  }

  lemma TwoTags(s: Text, t: Text, lower: nat -> nat)
    requires GoSquash(s) == s != [] && GoSquash(t) == t != [] && |s| <= MAX_TAG && |t| <= MAX_TAG
    requires Lower(s, lower) != Lower(t, lower)
    ensures Accepted([s, t], lower) && Normalized([s, t], lower) == [s, t]
  {
    hide Lower, GoSquash;
    var tags := [s, t];
    assert NormalForm(tags) by { assert NormalizeTag(s) == Ok(s) && NormalizeTag(t) == Ok(t); }
    NamedStays(tags);
    assert DistinctLower(tags, lower);
    DistinctStays(tags, lower);
  }

  lemma NulTexts(s: Text, t: Text)
    requires s == [0x61, 0, 0x62] && t == [0x61, 0, 0x63]
    ensures NulClash(s, t)
  {
    assert s[1] == 0 && t[1] == 0;
    assert s[1..] == [0, 0x62] && t[1..] == [0, 0x63];
    assert BeforeNul(s) == [0x61] == BeforeNul(t);
    var b: Text, c: Text := [0x62], [0x63];
    assert s[1..][1..] == b && t[1..][1..] == c && b[1..] == [] && c[1..] == [];
    assert Utf8Size(b) == Utf8Size(c) == 1;
    assert Utf8Size(s[1..]) == Utf8Size(t[1..]) == 2;
  }

  /** For instance: the tags a-0-b and a-0-c, where 0 is the character 0. Both are
      accepted, and the second one violates the key. */
  lemma NulTagsExample(lower: nat -> nat, item: Text) returns (raws: seq<Text>)
    requires LowersAscii(lower) && lower(0x62) != lower(0x63)
    ensures Accepted(raws, lower) && Normalized(raws, lower) == raws && |raws| == 2
    ensures !Insertable(map[], item, raws)
  {
    var s: Text, t: Text := [0x61, 0, 0x62], [0x61, 0, 0x63];
    raws := [s, t];
    SquashesToItself(s);
    SquashesToItself(t);
    assert Lower(s, lower)[2] != Lower(t, lower)[2];
    TwoTags(s, t, lower);
    NulTexts(s, t);
    hide Fold, Lower, Accepted, Normalized, GoSquash;
    FoldsDiffer(s, t, lower);
    assert Fold(raws[0]) == Fold(raws[1]);
  }
}
