/** UTF-8 with replacement of malformed bytes, as Python decodes it: every
    longest front part of a character that cannot be completed becomes one
    replacement character (section 3.9 of the Unicode Standard). */
module Utf8 {
  type Bytes = seq<nat>

  const REPLACEMENT: nat := 0xFFFD

  predicate Continuation(b: nat) { 0x80 <= b <= 0xBF }

  /** Length of the character that starts with lead byte b; 1 for bytes that start none. */
  function CharLength(b: nat): (n: nat)
    ensures 1 <= n <= 4
  {
    if 0xC2 <= b <= 0xDF then 2 else if 0xE0 <= b <= 0xEF then 3 else if 0xF0 <= b <= 0xF4 then 4 else 1
  }

  /** No overlong forms, no surrogates, nothing above 0x10FFFF. */
  predicate SecondFits(lead: nat, b: nat) {
    && Continuation(b)
    && (lead == 0xE0 ==> b >= 0xA0) && (lead == 0xED ==> b <= 0x9F)
    && (lead == 0xF0 ==> b >= 0x90) && (lead == 0xF4 ==> b <= 0x8F)
  }

  /** How many bytes at the front belong to one character, complete or not. */
  function FrontLength(s: Bytes): (n: nat)
    requires s != []
    ensures 1 <= n <= |s| && n <= CharLength(s[0])
    ensures forall i :: 1 <= i < n ==> Continuation(s[i])
  {
    var length := CharLength(s[0]);
    if length == 1 || |s| < 2 || !SecondFits(s[0], s[1]) then 1
    else if length == 2 || |s| < 3 || !Continuation(s[2]) then 2
    else if length == 3 || |s| < 4 || !Continuation(s[3]) then 3
    else 4
  }

  /** The first character. */
  function First(s: Bytes): nat
    requires s != []
  {
    if s[0] < 0x80 then s[0]
    else if CharLength(s[0]) == 1 || FrontLength(s) < CharLength(s[0]) then REPLACEMENT
    else if CharLength(s[0]) == 2 then (s[0] - 0xC0) * 0x40 + (s[1] - 0x80)
    else if CharLength(s[0]) == 3 then ((s[0] - 0xE0) * 0x40 + (s[1] - 0x80)) * 0x40 + (s[2] - 0x80)
    else (((s[0] - 0xF0) * 0x40 + (s[1] - 0x80)) * 0x40 + (s[2] - 0x80)) * 0x40 + (s[3] - 0x80)
  }

  /** bytes.decode("utf-8", "replace") */
  function Decode(s: Bytes): seq<nat> {
    if s == [] then [] else [First(s)] + Decode(s[FrontLength(s)..])
  }

  // ---------- decoding well-formed text ----------

  predicate Scalar(c: nat) { c < 0xD800 || 0xE000 <= c < 0x11_0000 }

  function EncodeOne(c: nat): Bytes {
    if c < 0x80 then [c]
    else if c < 0x800 then [0xC0 + c / 0x40, 0x80 + c % 0x40]
    else if c < 0x1_0000 then [0xE0 + c / 0x40 / 0x40, 0x80 + c / 0x40 % 0x40, 0x80 + c % 0x40]
    else [0xF0 + c / 0x40 / 0x40 / 0x40, 0x80 + c / 0x40 / 0x40 % 0x40, 0x80 + c / 0x40 % 0x40, 0x80 + c % 0x40]
  }

  function Encode(text: seq<nat>): Bytes {
    if text == [] then [] else EncodeOne(text[0]) + Encode(text[1..])
  }

  /** The first character of four bytes, or as many as its length needs. */
  lemma FirstOfBytes(s: Bytes, b: nat, c: nat, d: nat, e: nat)
    requires s != [] && s[0] == b && |s| >= CharLength(b)
    requires |s| > 1 ==> s[1] == c
    requires |s| > 2 ==> s[2] == d
    requires |s| > 3 ==> s[3] == e
    ensures b < 0x80 ==> FrontLength(s) == 1 && First(s) == b
    ensures CharLength(b) == 2 && SecondFits(b, c) ==> FrontLength(s) == 2 && First(s) == (b - 0xC0) * 0x40 + (c - 0x80)
    ensures CharLength(b) == 3 && SecondFits(b, c) && Continuation(d) ==>
      FrontLength(s) == 3 && First(s) == ((b - 0xE0) * 0x40 + (c - 0x80)) * 0x40 + (d - 0x80)
    ensures CharLength(b) == 4 && SecondFits(b, c) && Continuation(d) && Continuation(e) ==>
      FrontLength(s) == 4 && First(s) == (((b - 0xF0) * 0x40 + (c - 0x80)) * 0x40 + (d - 0x80)) * 0x40 + (e - 0x80)
  {
  }

  lemma FirstOfEncoded(c: nat, rest: Bytes)
    requires Scalar(c)
    ensures var s := EncodeOne(c) + rest; FrontLength(s) == |EncodeOne(c)| && First(s) == c
  {
    hide FrontLength, First;
    var one := EncodeOne(c);
    var s := one + rest;
    assert forall i :: 0 <= i < |one| ==> s[i] == one[i];
    FirstOfBytes(s, s[0], if |s| > 1 then s[1] else 0, if |s| > 2 then s[2] else 0, if |s| > 3 then s[3] else 0);
  }

  /** Decoding gives back every text that was encoded. */
  lemma {:induction false} DecodeEncode(text: seq<nat>)
    requires forall i :: 0 <= i < |text| ==> Scalar(text[i])
    ensures Decode(Encode(text)) == text
  {
    hide First, FrontLength, EncodeOne;
    if text != [] {
      var one, rest := EncodeOne(text[0]), Encode(text[1..]);
      FirstOfEncoded(text[0], rest);
      DecodeEncode(text[1..]);
      assert (one + rest)[|one|..] == rest;
      assert text == [text[0]] + text[1..];
      assert Encode(text) != [];
    }
  }

  lemma Digits(x: nat, d: nat)
    requires d < 0x40
    ensures (x * 0x40 + d) / 0x40 == x && (x * 0x40 + d) % 0x40 == d
  {
  }

  lemma TwoBytes(b: nat, c: nat)
    requires CharLength(b) == 2 && SecondFits(b, c)
    ensures var v := (b - 0xC0) * 0x40 + (c - 0x80); Scalar(v) && EncodeOne(v) == [b, c]
  {
    Digits(b - 0xC0, c - 0x80);
  }

  lemma ThreeBytes(b: nat, c: nat, d: nat)
    requires CharLength(b) == 3 && SecondFits(b, c) && Continuation(d)
    ensures var v := ((b - 0xE0) * 0x40 + (c - 0x80)) * 0x40 + (d - 0x80); Scalar(v) && EncodeOne(v) == [b, c, d]
  {
    Digits(b - 0xE0, c - 0x80);
    Digits((b - 0xE0) * 0x40 + (c - 0x80), d - 0x80);
  }

  lemma FourBytes(b: nat, c: nat, d: nat, e: nat)
    requires CharLength(b) == 4 && SecondFits(b, c) && Continuation(d) && Continuation(e)
    ensures var v := (((b - 0xF0) * 0x40 + (c - 0x80)) * 0x40 + (d - 0x80)) * 0x40 + (e - 0x80);
      Scalar(v) && EncodeOne(v) == [b, c, d, e]
  {
    Digits(b - 0xF0, c - 0x80);
    Digits((b - 0xF0) * 0x40 + (c - 0x80), d - 0x80);
    Digits(((b - 0xF0) * 0x40 + (c - 0x80)) * 0x40 + (d - 0x80), e - 0x80);
  }

  lemma FrontFits(s: Bytes)
    requires s != [] && CharLength(s[0]) == FrontLength(s) > 1
    ensures SecondFits(s[0], s[1])
    ensures FrontLength(s) > 2 ==> Continuation(s[2])
    ensures FrontLength(s) > 3 ==> Continuation(s[3])
  {
  }

  lemma OneByte(b: nat)
    requires b < 0x80
    ensures Scalar(b) && EncodeOne(b) == [b]
  {
  }

  lemma FirstIsStrict(s: Bytes)
    requires s != [] && First(s) != REPLACEMENT && forall i :: 0 <= i < |s| ==> s[i] < 256
    ensures Scalar(First(s)) && EncodeOne(First(s)) == s[..FrontLength(s)]
  {
    hide SecondFits, Continuation, EncodeOne, Scalar, FrontLength;
    var n := FrontLength(s);
    if s[0] < 0x80 {
      OneByte(s[0]);
      assert s[..1] == [s[0]];
    } else {
      FrontFits(s);
      if n == 2 {
        TwoBytes(s[0], s[1]);
        assert s[..2] == [s[0], s[1]];
      } else if n == 3 {
        ThreeBytes(s[0], s[1], s[2]);
        assert s[..3] == [s[0], s[1], s[2]];
      } else {
        FourBytes(s[0], s[1], s[2], s[3]);
        assert s[..4] == [s[0], s[1], s[2], s[3]];
      }
    }
  }

  /** Decoding is strict: where nothing is replaced, the bytes are the encoded text. */
  lemma {:induction false} DecodeIsStrict(s: Bytes)
    requires (forall i :: 0 <= i < |s| ==> s[i] < 256) && REPLACEMENT !in Decode(s)
    ensures Encode(Decode(s)) == s && forall c :: c in Decode(s) ==> Scalar(c)
  {
    hide First, FrontLength, EncodeOne;
    if s != [] {
      var n := FrontLength(s);
      FirstIsStrict(s);
      DecodeIsStrict(s[n..]);
      assert s == s[..n] + s[n..];
      assert Decode(s)[0] == First(s) && Decode(s)[1..] == Decode(s[n..]);
    }
  }

  // ---------- what follows ----------

  /** The first character depends on its own bytes only, unless its continuation is still missing. */
  lemma FirstIsLocal(s: Bytes, t: Bytes)
    requires s != [] && (t == [] || !Continuation(t[0]) || |s| >= CharLength(s[0]))
    ensures FrontLength(s + t) == FrontLength(s) && First(s + t) == First(s)
  {
    assert forall i :: 0 <= i < |s| ==> (s + t)[i] == s[i];
    if t != [] { assert (s + t)[|s|] == t[0]; }
  }

  lemma DecodeFirst(s: Bytes)
    requires s != []
    ensures Decode(s) == [First(s)] + Decode(s[FrontLength(s)..])
  {
    hide First, FrontLength;
  }

  lemma DecodeStep(s: Bytes, t: Bytes)
    requires s != [] && (t == [] || !Continuation(t[0]) || |s| >= CharLength(s[0]))
    ensures Decode(s + t) == [First(s)] + Decode(s[FrontLength(s)..] + t)
  {
    hide First, FrontLength, Decode;
    FirstIsLocal(s, t);
    DecodeFirst(s + t);
    var n := FrontLength(s);
    assert (s + t)[n..] == s[n..] + t;
  }
}
