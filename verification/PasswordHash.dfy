/** Stored password hashes (auth/auth.go, hashPassword and verifyPassword):
    "pbkdf2-sha256$" iterations "$" salt "$" key, with the iterations in
    decimal and salt and key in unpadded Base64. */
module PasswordHash {
  import opened Outcomes
  import opened Text
  import opened Decimal
  import B = Base64
  import P = Pbkdf2

  const ITERATIONS: nat := 210000
  const KEY_BYTES: nat := 32
  const SALT_BYTES: nat := 16
  const MAX_ITERATIONS: nat := 2000000

  const DOLLAR: nat := 0x24

  /** "pbkdf2-sha256" */
  const SCHEME: Text := [0x70, 0x62, 0x6B, 0x64, 0x66, 0x32, 0x2D, 0x73, 0x68, 0x61, 0x32, 0x35, 0x36]

  // ---------- splitting and parsing ----------

  /** Length of the text before the first separator. */
  function FieldLength(s: Text, separator: nat): (n: nat)
    ensures n <= |s| && (n < |s| ==> s[n] == separator)
  {
    if s == [] || s[0] == separator then 0 else 1 + FieldLength(s[1..], separator)
  }

  /** strings.Split for a one-character separator. */
  function Split(s: Text, separator: nat): seq<Text>
    decreases |s|
  {
    var n := FieldLength(s, separator);
    if n == |s| then [s] else [s[..n]] + Split(s[n + 1..], separator)
  }

  lemma {:induction false} FieldLengthOf(field: Text, rest: Text, separator: nat)
    requires separator !in field && (rest != [] ==> rest[0] == separator)
    ensures FieldLength(field + rest, separator) == |field|
  {
    if field == [] {
      assert field + rest == rest;
    } else {
      assert (field + rest)[1..] == field[1..] + rest;
      FieldLengthOf(field[1..], rest, separator);
    }
  }

  lemma SplitFirst(field: Text, rest: Text, separator: nat)
    requires separator !in field
    ensures Split(field + [separator] + rest, separator) == [field] + Split(rest, separator)
    ensures Split(field, separator) == [field]
  {
    FieldLengthOf(field, [separator] + rest, separator);
    FieldLengthOf(field, [], separator);
    var s := field + [separator] + rest;
    assert s == field + ([separator] + rest);
    assert s[..|field|] == field && s[|field| + 1..] == rest;
    assert field + [] == field;
  }

  function DropLineBreaks(s: Text): Text {
    if s == [] then []
    else (if s[0] == 0x0A || s[0] == 0x0D then [] else [s[0]]) + DropLineBreaks(s[1..])
  }

  lemma {:induction false} DropsNothing(s: Text)
    requires forall i :: 0 <= i < |s| ==> s[i] != 0x0A && s[i] != 0x0D
    ensures DropLineBreaks(s) == s
  {
    if s != [] { DropsNothing(s[1..]); }
  }

  /** base64.RawStdEncoding.DecodeString, which skips line breaks. */
  function RawStdDecode(s: Text): Option<P.Bytes> {
    B.DecodeIsBytes(DropLineBreaks(s));
    match B.Decode(DropLineBreaks(s))
    case None => None
    case Some(bytes) => Some(bytes)
  }

  function RawStdEncode(s: P.Bytes): Text { B.Encode(s, false) }

  lemma RawStdRoundTrip(s: P.Bytes)
    ensures RawStdDecode(RawStdEncode(s)) == Some(s)
    ensures DOLLAR !in RawStdEncode(s)
  {
    var text := B.Encode(s, false);
    B.EncodeFacts(s, false);
    B.DecodeEncode(s);
    hide B.Encode, B.Decode;
    DropsNothing(text);
  }

  // ---------- stored hashes ----------

  datatype Parsed = Parsed(iterations: nat, salt: P.Bytes, key: P.Bytes)

  /** The fields of a stored hash that verifyPassword accepts. */
  function Parse(encoded: Text): Option<Parsed> {
    var parts := Split(encoded, DOLLAR);
    if |parts| != 4 || parts[0] != SCHEME then None
    else
      match (Atoi(parts[1]), RawStdDecode(parts[2]), RawStdDecode(parts[3]))
      case (Some(n), Some(salt), Some(key)) =>
        if 1 <= n <= MAX_ITERATIONS && |salt| >= 8 && |key| >= 16 then Some(Parsed(n, salt, key)) else None
      case _ => None
  }

  function Format(salt: P.Bytes, key: P.Bytes): Text {
    SCHEME + [DOLLAR] + (Print(ITERATIONS) + [DOLLAR] + (RawStdEncode(salt) + [DOLLAR] + RawStdEncode(key)))
  }

  lemma FormatSplits(iterations: Text, salt: Text, key: Text)
    requires DOLLAR !in iterations && DOLLAR !in salt && DOLLAR !in key
    ensures Split(SCHEME + [DOLLAR] + (iterations + [DOLLAR] + (salt + [DOLLAR] + key)), DOLLAR)
         == [SCHEME, iterations, salt, key]
  {
    hide Split;
    SplitFirst(SCHEME, iterations + [DOLLAR] + (salt + [DOLLAR] + key), DOLLAR);
    SplitFirst(iterations, salt + [DOLLAR] + key, DOLLAR);
    SplitFirst(salt, key, DOLLAR);
    SplitFirst(key, [], DOLLAR);
  }

  lemma PrintHasNoDollar(n: nat)
    ensures DOLLAR !in Print(n)
  {
    ValueOfPrint(n);
  }

  /** A formatted hash is parsed back field by field. */
  lemma ParseFormat(salt: P.Bytes, key: P.Bytes)
    requires |salt| >= 8 && |key| >= 16
    ensures Parse(Format(salt, key)) == Some(Parsed(ITERATIONS, salt, key))
  {
    hide Split, RawStdDecode, RawStdEncode, Atoi, Print;
    AtoiOfItoa(ITERATIONS);
    PrintHasNoDollar(ITERATIONS);
    RawStdRoundTrip(salt);
    RawStdRoundTrip(key);
    FormatSplits(Print(ITERATIONS), RawStdEncode(salt), RawStdEncode(key));
  }

  lemma {:induction false} FieldHasNone(s: Text, separator: nat)
    ensures separator !in s[..FieldLength(s, separator)]
  {
    if s != [] && s[0] != separator {
      FieldHasNone(s[1..], separator);
      assert s[..FieldLength(s, separator)] == [s[0]] + s[1..][..FieldLength(s[1..], separator)];
    }
  }

  /** The parts of a text hold no separator, and separated by it they are the text. */
  lemma {:induction false} SplitParts(s: Text, separator: nat)
    ensures Split(s, separator) != [] && Join(Split(s, separator), [separator]) == s
    ensures forall part :: part in Split(s, separator) ==> separator !in part
    decreases |s|
  {
    hide FieldLength, Join;
    FieldHasNone(s, separator);
    var n := FieldLength(s, separator);
    if n == |s| {
      assert s[..n] == s && [s] == [s] + [];
      JoinFirst(s, [], [separator]);
    } else {
      SplitParts(s[n + 1..], separator);
      JoinFirst(s[..n], Split(s[n + 1..], separator), [separator]);
      assert s == s[..n] + [separator] + s[n + 1..];
    }
  }

  /** A stored hash with these three fields. */
  function Stored(iterations: Text, salt: Text, key: Text): Text {
    [0x70, 0x62, 0x6B, 0x64, 0x66, 0x32, 0x2D, 0x73, 0x68, 0x61, 0x32, 0x35, 0x36]
      + [0x24] + (iterations + [0x24] + (salt + [0x24] + key))
  }

  ghost predicate Acceptable(iterations: Text, salt: Text, key: Text, parsed: Parsed) {
    && 0x24 !in iterations && 0x24 !in salt && 0x24 !in key
    && Atoi(iterations) == Some(parsed.iterations) && 1 <= parsed.iterations <= 2_000_000
    && RawStdDecode(salt) == Some(parsed.salt) && |parsed.salt| >= 8
    && RawStdDecode(key) == Some(parsed.key) && |parsed.key| >= 16
  }

  lemma StoredParses(iterations: Text, salt: Text, key: Text, parsed: Parsed)
    requires Acceptable(iterations, salt, key, parsed)
    ensures Parse(Stored(iterations, salt, key)) == Some(parsed)
  {
    hide Split, Atoi, RawStdDecode;
    FormatSplits(iterations, salt, key);
  }

  lemma FourParts(parts: seq<Text>)
    requires |parts| == 4
    ensures Join(parts, [DOLLAR])
         == parts[0] + [DOLLAR] + (parts[1] + [DOLLAR] + (parts[2] + [DOLLAR] + parts[3]))
  {
    hide Join;
    JoinFirst(parts[3], [], [DOLLAR]);
    JoinFirst(parts[2], [parts[3]], [DOLLAR]);
    JoinFirst(parts[1], [parts[2], parts[3]], [DOLLAR]);
    JoinFirst(parts[0], [parts[1], parts[2], parts[3]], [DOLLAR]);
    assert [parts[3]] + [] == [parts[3]] && [parts[2]] + [parts[3]] == [parts[2], parts[3]];
    assert [parts[1]] + [parts[2], parts[3]] == [parts[1], parts[2], parts[3]];
    assert parts == [parts[0]] + [parts[1], parts[2], parts[3]];
  }

  lemma PartsAccepted(parts: seq<Text>, parsed: Parsed)
    requires |parts| == 4 && forall part :: part in parts ==> DOLLAR !in part
    requires Atoi(parts[1]) == Some(parsed.iterations) && RawStdDecode(parts[2]) == Some(parsed.salt)
    requires RawStdDecode(parts[3]) == Some(parsed.key)
    requires 1 <= parsed.iterations <= MAX_ITERATIONS && |parsed.salt| >= 8 && |parsed.key| >= 16
    ensures Acceptable(parts[1], parts[2], parts[3], parsed)
  {
    hide Atoi, RawStdDecode;
  }

  lemma StoredIs(parts: seq<Text>)
    requires |parts| == 4 && parts[0] == SCHEME
    ensures Stored(parts[1], parts[2], parts[3])
         == parts[0] + [DOLLAR] + (parts[1] + [DOLLAR] + (parts[2] + [DOLLAR] + parts[3]))
  {
  }

  /** Exactly the texts of four fields are accepted that name the scheme and
      hold 1 to 2000000 iterations, 8 bytes of salt and 16 bytes of key at least. */
  lemma ParseExactly(encoded: Text, parsed: Parsed)
    ensures Parse(encoded) == Some(parsed) <==>
      exists iterations, salt, key ::
        encoded == Stored(iterations, salt, key) && Acceptable(iterations, salt, key, parsed)
  {
    hide Split, Atoi, RawStdDecode, Stored, Acceptable, Join;
    if Parse(encoded) == Some(parsed) {
      SplitParts(encoded, DOLLAR);
      var parts := Split(encoded, DOLLAR);
      FourParts(parts);
      PartsAccepted(parts, parsed);
      assert Acceptable(parts[1], parts[2], parts[3], parsed);
      assert encoded == Stored(parts[1], parts[2], parts[3]) by { StoredIs(parts); }
    }
    if iterations, salt, key :| encoded == Stored(iterations, salt, key) && Acceptable(iterations, salt, key, parsed) {
      StoredParses(iterations, salt, key, parsed);
    }
  }

  lemma PrintIterations()
    ensures Print(ITERATIONS) == [0x32, 0x31, 0x30, 0x30, 0x30, 0x30]
  {
    assert Print(2) == [0x32];
    assert Print(21) == [0x32, 0x31];
    assert Print(210) == [0x32, 0x31, 0x30];
    assert Print(2100) == [0x32, 0x31, 0x30, 0x30];
    assert Print(21000) == [0x32, 0x31, 0x30, 0x30, 0x30];
  }

  method HashPassword(hmac: P.Mac, password: P.Bytes, salt: P.Bytes) returns (encoded: Text)
    requires P.IsMac(hmac) && |salt| == SALT_BYTES
    ensures encoded == Format(salt, P.Pbkdf2(hmac, password, salt, ITERATIONS, KEY_BYTES).value)
    ensures encoded == Stored([0x32, 0x31, 0x30, 0x30, 0x30, 0x30], B.Encode(salt, false),
                              B.Encode(P.Pbkdf2(hmac, password, salt, 210_000, 32).value, false))
  {
    PrintIterations();
    var key := P.Pbkdf2SHA256(hmac, password, salt, ITERATIONS, KEY_BYTES);
    encoded := Format(salt, key);
  }

  /** What verifyPassword accepts: the password derives the stored key. */
  ghost predicate Verifies(hmac: P.Mac, encoded: Text, password: P.Bytes)
    requires P.IsMac(hmac)
  {
    Parse(encoded).Some? &&
    var stored := Parse(encoded).value;
    P.Pbkdf2(hmac, password, stored.salt, stored.iterations, |stored.key|) == Some(stored.key)
  }

  method VerifyPassword(hmac: P.Mac, encoded: Text, password: P.Bytes) returns (ok: bool)
    requires P.IsMac(hmac)
    ensures Parse(encoded).None? ==> !ok
    ensures Parse(encoded).Some? && |Parse(encoded).value.key| <= 0xFFFF_FFFF * P.HASH_LENGTH ==>
      ok == Verifies(hmac, encoded, password)
  {
    var parts := Split(encoded, DOLLAR);
    if |parts| != 4 || parts[0] != SCHEME { return false; }
    var iterations := Atoi(parts[1]);
    if iterations.None? || iterations.value < 1 || iterations.value > MAX_ITERATIONS { return false; }
    var salt := RawStdDecode(parts[2]);
    if salt.None? || |salt.value| < 8 { return false; }
    var expected := RawStdDecode(parts[3]);
    if expected.None? || |expected.value| < 16 { return false; }
    hide Split, Atoi, RawStdDecode;
    var actual := P.Pbkdf2SHA256(hmac, password, salt.value, iterations.value, |expected.value|);
    ok := actual == expected.value;
  }

  /** A stored hash accepts exactly the passwords that derive the same key;
      in particular the password it was made from, for every salt. */
  lemma HashVerifies(hmac: P.Mac, password: P.Bytes, salt: P.Bytes, attempt: P.Bytes)
    requires P.IsMac(hmac) && |salt| == SALT_BYTES
    ensures var key := P.Pbkdf2(hmac, password, salt, ITERATIONS, KEY_BYTES).value;
      && (Verifies(hmac, Format(salt, key), attempt)
          <==> P.Pbkdf2(hmac, attempt, salt, ITERATIONS, KEY_BYTES) == Some(key))
      && Verifies(hmac, Format(salt, key), password)
  {
    var key := P.Pbkdf2(hmac, password, salt, ITERATIONS, KEY_BYTES).value;
    hide P.Blocks, Parse, Format;
    assert |key| == KEY_BYTES;
    ParseFormat(salt, key);
  }

  /** Hashing and then checking, end to end. */
  method HashThenVerify(hmac: P.Mac, password: P.Bytes, salt: P.Bytes, attempt: P.Bytes) returns (ok: bool)
    requires P.IsMac(hmac) && |salt| == SALT_BYTES
    ensures ok <==> P.Pbkdf2(hmac, attempt, salt, ITERATIONS, KEY_BYTES)
                    == P.Pbkdf2(hmac, password, salt, ITERATIONS, KEY_BYTES)
    ensures attempt == password ==> ok
  {
    hide P.Blocks, Parse, Format, Verifies;
    var encoded := HashPassword(hmac, password, salt);
    ghost var key := P.Pbkdf2(hmac, password, salt, ITERATIONS, KEY_BYTES).value;
    assert |key| == KEY_BYTES;
    ParseFormat(salt, key);
    HashVerifies(hmac, password, salt, attempt);
    ok := VerifyPassword(hmac, encoded, attempt);
  }
}
