/** JavaScript strings: UTF-16 code units, in which half of a surrogate pair
    may stand alone. */
module Utf16 {
  import opened Text

  predicate High(c: nat) { 0xD800 <= c <= 0xDBFF }

  predicate Low(c: nat) { 0xDC00 <= c <= 0xDFFF }

  predicate Surrogate(c: nat) { High(c) || Low(c) }

  /** The code points of a string; lone surrogates stay as they are. */
  function FromUtf16(s: Text): (r: Text)
    ensures |r| <= |s|
  {
    if |s| >= 2 && High(s[0]) && Low(s[1]) then
      [0x1_0000 + (s[0] - 0xD800) * 0x400 + (s[1] - 0xDC00)] + FromUtf16(s[2..])
    else if s == [] then [] else [s[0]] + FromUtf16(s[1..])
  }

  /** No half of a surrogate pair stands alone. */
  predicate Paired(s: Text) {
    if s == [] then true
    else if High(s[0]) then |s| >= 2 && Low(s[1]) && Paired(s[2..])
    else !Low(s[0]) && Paired(s[1..])
  }

  /** str.encode() accepts a text without surrogates. */
  predicate Encodable(text: Text) { forall i :: 0 <= i < |text| ==> !Surrogate(text[i]) }

  lemma EncodableConcat(a: Text, b: Text)
    ensures Encodable(a + b) <==> Encodable(a) && Encodable(b)
  {
    var s := a + b;
    assert forall i :: 0 <= i < |a| ==> s[i] == a[i];
    assert forall i :: 0 <= i < |b| ==> s[|a| + i] == b[i];
    if Encodable(s) {
      forall i | 0 <= i < |b| ensures !Surrogate(b[i]) { assert !Surrogate(s[|a| + i]); }
    }
  }

  lemma NothingEncodable()
    ensures Encodable([])
  {
  }

  lemma OneEncodable(c: nat)
    ensures Encodable([c]) <==> !Surrogate(c)
  {
    if Encodable([c]) { assert !Surrogate([c][0]); }
  }

  /** What the browser sends can be encoded by the server exactly if its surrogates are paired. */
  lemma {:induction false} PairedIsEncodable(s: Text)
    ensures Encodable(FromUtf16(s)) <==> Paired(s)
  {
    hide Encodable;
    if s == [] {
      NothingEncodable();
    } else if |s| >= 2 && High(s[0]) && Low(s[1]) {
      var c := 0x1_0000 + (s[0] - 0xD800) * 0x400 + (s[1] - 0xDC00);
      OneEncodable(c);
      EncodableConcat([c], FromUtf16(s[2..]));
      PairedIsEncodable(s[2..]);
    } else {
      OneEncodable(s[0]);
      EncodableConcat([s[0]], FromUtf16(s[1..]));
      PairedIsEncodable(s[1..]);
    }
  }

  /** The cut after `a` separates the halves of a pair. */
  predicate Separates(a: Text, b: Text) { a != [] && b != [] && High(a[|a| - 1]) && Low(b[0]) }

  /** Cutting paired text leaves two paired parts, unless it separates a pair: then neither is. */
  lemma {:induction false} PairedParts(a: Text, b: Text)
    requires Paired(a + b)
    ensures if Separates(a, b) then !Paired(a) && !Paired(b) else Paired(a) && Paired(b)
    decreases |a|
  {
    var s := a + b;
    if a == [] {
      assert s == b;
    } else if High(s[0]) && |a| == 1 {
      assert s[1] == b[0];
    } else if High(s[0]) {
      assert a[1] == s[1] && s[2..] == a[2..] + b;
      PairedParts(a[2..], b);
    } else {
      assert s[1..] == a[1..] + b;
      PairedParts(a[1..], b);
    }
  }

  lemma {:induction false} PairedSnoc(s: Text, c: nat)
    requires !Surrogate(c)
    ensures Paired(s + [c]) <==> Paired(s)
    decreases |s|
  {
    var t := s + [c];
    if s == [] {
      assert t[1..] == [];
    } else if High(s[0]) {
      if |s| >= 2 {
        assert t[2..] == s[2..] + [c];
        PairedSnoc(s[2..], c);
      }
    } else {
      assert t[1..] == s[1..] + [c];
      PairedSnoc(s[1..], c);
    }
  }

  lemma SpaceIsPaired(s: Text)
    requires s != [] && JsSpace(s[0])
    ensures Paired(s) <==> Paired(s[1..])
  {
  }

  lemma {:induction false} PairedTrimLeft(s: Text)
    ensures Paired(TrimLeft(s, JsSpace)) <==> Paired(s)
  {
    hide Paired, JsSpace, TrimLeft;
    if s != [] {
      TrimLeftFirst(s, JsSpace);
      if JsSpace(s[0]) {
        SpaceIsPaired(s);
        PairedTrimLeft(s[1..]);
      }
    }
  }

  lemma {:induction false} PairedTrimRight(s: Text)
    ensures Paired(TrimRight(s, JsSpace)) <==> Paired(s)
  {
    hide Paired;
    if s != [] && JsSpace(s[|s| - 1]) {
      PairedTrimRight(s[..|s| - 1]);
      assert s == s[..|s| - 1] + [s[|s| - 1]];
      PairedSnoc(s[..|s| - 1], s[|s| - 1]);
    }
  }

  lemma PairedTrim(s: Text)
    ensures Paired(JsTrim(s)) <==> Paired(s)
  {
    hide Paired, TrimLeft, TrimRight;
    PairedTrimLeft(s);
    PairedTrimRight(TrimLeft(s, JsSpace));
  }
}
