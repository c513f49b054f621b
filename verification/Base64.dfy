/** Base64 of RFC 4648: the standard alphabet (section 4) and the URL-safe one
    (section 5), without padding. Bytes and characters are numbers. */
module Base64 {
  import opened Outcomes
  import opened Text

  type Bytes = seq<nat>

  predicate AreBytes(s: Bytes) { forall i :: 0 <= i < |s| ==> s[i] < 256 }

  predicate AreSextets(s: seq<nat>) { forall i :: 0 <= i < |s| ==> s[i] < 64 }

  // The four groups of six bits of three bytes, and the three bytes of four groups.

  function Group1(a: nat): nat { a / 4 }
  function Group2(a: nat, b: nat): nat { a % 4 * 16 + b / 16 }
  function Group3(b: nat, c: nat): nat { b % 16 * 4 + c / 64 }
  function Group4(c: nat): nat { c % 64 }

  function Byte1(v: nat, w: nat): nat { v * 4 + w / 16 }
  function Byte2(w: nat, x: nat): nat { w % 16 * 16 + x / 4 }
  function Byte3(x: nat, y: nat): nat { x % 4 * 64 + y }

  lemma GroupRoundTrip(a: nat, b: nat, c: nat)
    requires a < 256 && b < 256 && c < 256
    ensures Group1(a) < 64 && Group2(a, b) < 64 && Group3(b, c) < 64 && Group4(c) < 64
    ensures Byte1(Group1(a), Group2(a, b)) == a
    ensures Byte2(Group2(a, b), Group3(b, c)) == b
    ensures Byte3(Group3(b, c), Group4(c)) == c
  {
  }

  /** The groups of six bits of a byte string, the last one filled up with zeros. */
  function Sextets(s: Bytes): seq<nat> {
    if |s| == 0 then []
    else if |s| == 1 then [Group1(s[0]), Group2(s[0], 0)]
    else if |s| == 2 then [Group1(s[0]), Group2(s[0], s[1]), Group3(s[1], 0)]
    else [Group1(s[0]), Group2(s[0], s[1]), Group3(s[1], s[2]), Group4(s[2])] + Sextets(s[3..])
  }

  /** The bytes that groups of six bits hold; left-over bits are dropped. */
  function FromSextets(s: seq<nat>): Bytes
    requires |s| % 4 != 1
  {
    if |s| == 0 then []
    else if |s| == 2 then [Byte1(s[0], s[1])]
    else if |s| == 3 then [Byte1(s[0], s[1]), Byte2(s[1], s[2])]
    else [Byte1(s[0], s[1]), Byte2(s[1], s[2]), Byte3(s[2], s[3])] + FromSextets(s[4..])
  }

  lemma {:induction false} SextetsRoundTrip(s: Bytes)
    requires AreBytes(s)
    ensures AreSextets(Sextets(s)) && |Sextets(s)| % 4 != 1
    ensures FromSextets(Sextets(s)) == s
  {
    hide Group1, Group2, Group3, Group4, Byte1, Byte2, Byte3;
    if |s| == 1 {
      GroupRoundTrip(s[0], 0, 0);
    } else if |s| == 2 {
      GroupRoundTrip(s[0], s[1], 0);
    } else if |s| >= 3 {
      SextetsRoundTrip(s[3..]);
      GroupRoundTrip(s[0], s[1], s[2]);
      assert Sextets(s)[4..] == Sextets(s[3..]);
      assert s == [s[0], s[1], s[2]] + s[3..];
    }
  }

  /** Decoded bytes are bytes. */
  lemma {:induction false} FromSextetsIsBytes(s: seq<nat>)
    requires AreSextets(s) && |s| % 4 != 1
    ensures AreBytes(FromSextets(s))
  {
    if |s| >= 4 { FromSextetsIsBytes(s[4..]); }
  }

  /** The character for a group of six bits. */
  function Symbol(v: nat, url: bool): nat {
    if v < 26 then 0x41 + v
    else if v < 52 then 0x61 + (v - 26)
    else if v < 62 then 0x30 + (v - 52)
    else if v == 62 then (if url then 0x2D else 0x2B)
    else (if url then 0x5F else 0x2F)
  }

  /** The group of six bits of a character of the standard alphabet. */
  function SymbolValue(c: nat): Option<nat> {
    if 0x41 <= c <= 0x5A then Some(c - 0x41)
    else if 0x61 <= c <= 0x7A then Some(c - 0x61 + 26)
    else if 0x30 <= c <= 0x39 then Some(c - 0x30 + 52)
    else if c == 0x2B then Some(62)
    else if c == 0x2F then Some(63)
    else None
  }

  function Symbols(v: seq<nat>, url: bool): Text {
    if v == [] then [] else [Symbol(v[0], url)] + Symbols(v[1..], url)
  }

  function SymbolValues(s: Text): Option<seq<nat>> {
    if s == [] then Some([])
    else
      match (SymbolValue(s[0]), SymbolValues(s[1..]))
      case (Some(v), Some(rest)) => Some([v] + rest)
      case _ => None
  }

  lemma {:induction false} SymbolValuesAreSextets(s: Text)
    ensures SymbolValues(s).Some? ==> AreSextets(SymbolValues(s).value)
  {
    if s != [] { SymbolValuesAreSextets(s[1..]); }
  }

  predicate Alphabet(c: nat, url: bool) {
    || 0x41 <= c <= 0x5A || 0x61 <= c <= 0x7A || 0x30 <= c <= 0x39
    || (if url then c == 0x2D || c == 0x5F else c == 0x2B || c == 0x2F)
  }

  lemma SymbolFacts(v: nat, url: bool)
    requires v < 64
    ensures Alphabet(Symbol(v, url), url)
    ensures !url ==> SymbolValue(Symbol(v, url)) == Some(v)
  {
  }

  lemma SymbolsFirst(v: nat, rest: seq<nat>, url: bool)
    ensures Symbols([v] + rest, url) == [Symbol(v, url)] + Symbols(rest, url) && Symbols([], url) == []
  {
    assert ([v] + rest)[1..] == rest;
  }

  lemma SymbolValuesFirst(c: nat, rest: Text)
    ensures SymbolValues([c] + rest) ==
      match (SymbolValue(c), SymbolValues(rest)) { case (Some(v), Some(w)) => Some([v] + w) case _ => None }
    ensures SymbolValues([]) == Some([])
  {
    assert ([c] + rest)[1..] == rest;
  }

  lemma {:induction false} SymbolsFacts(v: seq<nat>, url: bool)
    requires AreSextets(v)
    ensures |Symbols(v, url)| == |v|
    ensures forall i :: 0 <= i < |v| ==> Alphabet(Symbols(v, url)[i], url)
    ensures !url ==> SymbolValues(Symbols(v, url)) == Some(v)
  {
    hide Symbol, SymbolValue, Symbols, SymbolValues, Alphabet;
    if v == [] {
      SymbolsFirst(0, [], url);
      SymbolValuesFirst(0, []);
    } else {
      SymbolsFacts(v[1..], url);
      SymbolFacts(v[0], url);
      SymbolsFirst(v[0], v[1..], url);
      SymbolValuesFirst(Symbol(v[0], url), Symbols(v[1..], url));
      assert v == [v[0]] + v[1..];
    }
  }

  /** Encoding without padding. */
  function Encode(s: Bytes, url: bool): Text { Symbols(Sextets(s), url) }

  /** Decoding of an unpadded text over the standard alphabet. */
  function Decode(s: Text): Option<Bytes> {
    match SymbolValues(s)
    case None => None
    case Some(v) => if |v| % 4 == 1 then None else Some(FromSextets(v))
  }

  lemma DecodeIsBytes(s: Text)
    ensures Decode(s).Some? ==> AreBytes(Decode(s).value)
  {
    SymbolValuesAreSextets(s);
    if Decode(s).Some? { FromSextetsIsBytes(SymbolValues(s).value); }
  }

  lemma DecodeEncode(s: Bytes)
    requires AreBytes(s)
    ensures Decode(Encode(s, false)) == Some(s)
  {
    SextetsRoundTrip(s);
    SymbolsFacts(Sextets(s), false);
  }

  lemma EncodeFacts(s: Bytes, url: bool)
    requires AreBytes(s)
    ensures forall i :: 0 <= i < |Encode(s, url)| ==> Alphabet(Encode(s, url)[i], url)
    ensures |Encode(s, url)| % 4 != 1
    ensures s != [] ==> Encode(s, url) != []
  {
    SextetsRoundTrip(s);
    SymbolsFacts(Sextets(s), url);
  }

  /** Four symbols stand for the 24 bits of three bytes, the first byte on top. */
  lemma GroupsAre24Bits(s: Bytes)
    requires AreBytes(s) && |s| >= 3
    ensures var v := Sextets(s);
      && |v| >= 4 && v[0] < 64 && v[1] < 64 && v[2] < 64 && v[3] < 64
      && ((v[0] * 64 + v[1]) * 64 + v[2]) * 64 + v[3] == (s[0] * 256 + s[1]) * 256 + s[2]
      && v[4..] == Sextets(s[3..])
  {
    GroupRoundTrip(s[0], s[1], s[2]);
    assert Sextets(s)[4..] == Sextets(s[3..]);
  }

  /** The symbols of both alphabets in order (tables 1 and 2 of RFC 4648). */
  lemma SymbolTable(v: nat, url: bool)
    requires v < 64
    ensures v < 26 ==> Symbol(v, url) == 'A' as nat + v
    ensures 26 <= v < 52 ==> Symbol(v, url) == 'a' as nat + (v - 26)
    ensures 52 <= v < 62 ==> Symbol(v, url) == '0' as nat + (v - 52)
    ensures v == 62 ==> Symbol(v, url) == if url then '-' as nat else '+' as nat
    ensures v == 63 ==> Symbol(v, url) == if url then '_' as nat else '/' as nat
  {
  }

  /** "fo" and "f" of section 10 of RFC 4648, without padding. */
  lemma ShortVectors(url: bool)
    ensures Encode([0x66, 0x6F], url) == [0x5A, 0x6D, 0x38]
    ensures Encode([0x66], url) == [0x5A, 0x67]
  {
    assert Sextets([0x66, 0x6F]) == [25, 38, 60] && Sextets([0x66]) == [25, 32];
    SymbolsFirst(60, [], url);
    SymbolsFirst(38, [60], url);
    SymbolsFirst(25, [38, 60], url);
    SymbolsFirst(32, [], url);
    SymbolsFirst(25, [32], url);
    assert [60] + [] == [60] && [38] + [60] == [38, 60] && [25] + [38, 60] == [25, 38, 60];
    assert [32] + [] == [32] && [25] + [32] == [25, 32];
  }
}
