/** Key derivation for stored passwords (auth/auth.go, pbkdf2SHA256), against
    the definition of PBKDF2 in section 5.2 of RFC 8018. HMAC-SHA-256 is a
    parameter: any function with 32-byte results. */
module Pbkdf2 {
  import opened Outcomes
  import opened Arithmetic

  type Byte = n: nat | n < 256

  type Bytes = seq<Byte>
  type Mac = (Bytes, Bytes) -> Bytes

  const HASH_LENGTH: nat := 32

  ghost predicate IsMac(hmac: Mac) {
    forall key: Bytes, message: Bytes :: |hmac(key, message)| == HASH_LENGTH
  }

  // ---------- RFC 8018, section 5.2 ----------

  /** INT(i): the four-octet encoding of i, most significant octet first. */
  function Octets(i: nat): Bytes
    requires i < 0x1_0000_0000
  {
    [i / 0x100_0000, i / 0x1_0000 % 0x100, i / 0x100 % 0x100, i % 0x100]
  }

  /** U_j, for j >= 1. */
  function U(hmac: Mac, password: Bytes, salt: Bytes, j: nat, i: nat): Bytes
    requires 1 <= j && i < 0x1_0000_0000
  {
    if j == 1 then hmac(password, salt + Octets(i)) else hmac(password, U(hmac, password, salt, j - 1, i))
  }

  /** Exclusive or of the lowest `bits` bits. */
  function XorBits(x: nat, y: nat, bits: nat): (r: nat)
    ensures r < Pow2(bits)
  {
    if bits == 0 then 0
    else (if x % 2 == y % 2 then 0 else 1) + 2 * XorBits(x / 2, y / 2, bits - 1)
  }

  /** Bit k of a number. */
  function Bit(x: nat, k: nat): nat { x / Pow2(k) % 2 }

  lemma ProductGrows(d: nat, a: nat, b: nat)
    requires a <= b
    ensures d * a <= d * b
  {
  }

  lemma QuotientAtMost(d: nat, q: nat, r: nat, q': nat, r': nat)
    requires r < d && d * q + r == d * q' + r'
    ensures q' <= q
  {
    if q < q' { ProductGrows(d, q + 1, q'); }
  }

  lemma QuotientIs(x: nat, d: nat, q: nat, r: nat)
    requires r < d && x == d * q + r
    ensures x / d == q
  {
    QuotientAtMost(d, q, r, x / d, x % d);
    QuotientAtMost(d, x / d, x % d, q, r);
  }

  lemma HalfFirst(x: nat, p: nat)
    requires p > 0
    ensures x / (2 * p) == x / 2 / p
  {
    var q, r := x / 2 / p, x / 2 % p;
    assert x == 2 * p * q + 2 * r + x % 2;
    QuotientIs(x, 2 * p, q, 2 * r + x % 2);
  }

  lemma BitStep(x: nat, k: nat)
    ensures Bit(x, k) == 0 || Bit(x, k) == 1
    ensures Bit(x, k) == if k == 0 then x % 2 else Bit(x / 2, k - 1)
  {
    if k > 0 { HalfFirst(x, Pow2(k - 1)); }
  }

  lemma XorStep(x: nat, y: nat, bits: nat)
    requires bits > 0
    ensures XorBits(x, y, bits) % 2 == 1 <==> x % 2 != y % 2
    ensures XorBits(x, y, bits) / 2 == XorBits(x / 2, y / 2, bits - 1)
  {
  }

  /** Bit k of the result is set exactly if bit k of one operand is and that of the other is not. */
  lemma {:induction false} XorBit(x: nat, y: nat, bits: nat, k: nat)
    requires k < bits
    ensures Bit(XorBits(x, y, bits), k) == 1 <==> Bit(x, k) != Bit(y, k)
  {
    hide XorBits, Bit;
    var r := XorBits(x, y, bits);
    XorStep(x, y, bits);
    BitStep(x, k);
    BitStep(y, k);
    BitStep(r, k);
    if k > 0 { XorBit(x / 2, y / 2, bits - 1, k - 1); }
  }

  /** A second fold of the same number takes the first one back. */
  lemma {:induction false} XorUndoes(x: nat, y: nat, bits: nat)
    requires x < Pow2(bits)
    ensures XorBits(XorBits(x, y, bits), y, bits) == x
  {
    if bits > 0 { XorUndoes(x / 2, y / 2, bits - 1); }
  }

  lemma {:induction false} XorNeutral(x: nat, bits: nat)
    requires x < Pow2(bits)
    ensures XorBits(x, 0, bits) == x && XorBits(x, x, bits) == 0
  {
    if bits > 0 { XorNeutral(x / 2, bits - 1); }
  }

  function XorByte(x: Byte, y: Byte): Byte { XorBits(x, y, 8) }

  function Xor(a: Bytes, b: Bytes): Bytes
    requires |a| == |b|
  {
    if a == [] then [] else [XorByte(a[0], b[0])] + Xor(a[1..], b[1..])
  }

  lemma {:induction false} XorAt(a: Bytes, b: Bytes)
    requires |a| == |b|
    ensures |Xor(a, b)| == |a| && forall k :: 0 <= k < |a| ==> Xor(a, b)[k] == XorByte(a[k], b[k])
  {
    hide XorByte;
    if a != [] { XorAt(a[1..], b[1..]); }
  }

  /** F(P, S, c, i) = U_1 xor ... xor U_c. */
  ghost function F(hmac: Mac, password: Bytes, salt: Bytes, c: nat, i: nat): (t: Bytes)
    requires IsMac(hmac) && 1 <= c && i < 0x1_0000_0000
    ensures |t| == HASH_LENGTH
  {
    if c == 1 then U(hmac, password, salt, 1, i)
    else
      var t := F(hmac, password, salt, c - 1, i);
      XorAt(t, U(hmac, password, salt, c, i));
      Xor(t, U(hmac, password, salt, c, i))
  }

  /** Which of U_1, ..., U_c have bit k of byte b set. */
  ghost function BitSet(hmac: Mac, password: Bytes, salt: Bytes, c: nat, i: nat, b: nat, k: nat): set<nat>
    requires IsMac(hmac) && i < 0x1_0000_0000 && b < HASH_LENGTH
  {
    set j: nat | 1 <= j <= c && Bit(U(hmac, password, salt, j, i)[b], k) == 1
  }

  lemma ULength(hmac: Mac, password: Bytes, salt: Bytes, j: nat, i: nat)
    requires IsMac(hmac) && 1 <= j && i < 0x1_0000_0000
    ensures |U(hmac, password, salt, j, i)| == HASH_LENGTH
  {
  }

  lemma BitSetStep(hmac: Mac, password: Bytes, salt: Bytes, c: nat, i: nat, b: nat, k: nat)
    requires IsMac(hmac) && 1 <= c && i < 0x1_0000_0000 && b < HASH_LENGTH && |U(hmac, password, salt, c, i)| > b
    ensures |BitSet(hmac, password, salt, c, i, b, k)| == |BitSet(hmac, password, salt, c - 1, i, b, k)| +
      if Bit(U(hmac, password, salt, c, i)[b], k) == 1 then 1 else 0
    ensures |BitSet(hmac, password, salt, 0, i, b, k)| == 0
  {
    hide U, IsMac, Bit;
    var set1, set0 := BitSet(hmac, password, salt, c, i, b, k), BitSet(hmac, password, salt, c - 1, i, b, k);
    assert set1 == set0 + if Bit(U(hmac, password, salt, c, i)[b], k) == 1 then {c} else {};
  }

  /** A bit of a block is set exactly if it is set in an odd number of the U_j. */
  lemma {:induction false} BlockBits(hmac: Mac, password: Bytes, salt: Bytes, c: nat, i: nat, b: nat, k: nat)
    requires IsMac(hmac) && 1 <= c && i < 0x1_0000_0000 && b < HASH_LENGTH && k < 8
    ensures Bit(F(hmac, password, salt, c, i)[b], k) == |BitSet(hmac, password, salt, c, i, b, k)| % 2
  {
    hide U, IsMac, Bit, BitSet, Xor, XorBits;
    var u := U(hmac, password, salt, c, i);
    ULength(hmac, password, salt, c, i);
    BitStep(u[b], k);
    BitSetStep(hmac, password, salt, c, i, b, k);
    if c > 1 {
      var t := F(hmac, password, salt, c - 1, i);
      BlockBits(hmac, password, salt, c - 1, i, b, k);
      XorAt(t, u);
      XorBit(t[b], u[b], 8, k);
      BitStep(t[b], k);
      BitStep(Xor(t, u)[b], k);
    }
  }

  /** T_1 || ... || T_l */
  ghost function Blocks(hmac: Mac, password: Bytes, salt: Bytes, c: nat, l: nat): (t: Bytes)
    requires IsMac(hmac) && 1 <= c && l < 0x1_0000_0000
    ensures |t| == l * HASH_LENGTH
  {
    if l == 0 then [] else Blocks(hmac, password, salt, c, l - 1) + F(hmac, password, salt, c, l)
  }

  function BlockCount(length: nat): nat { (length + HASH_LENGTH - 1) / HASH_LENGTH }

  /** DK, or None where the standard says "derived key too long". */
  ghost function Pbkdf2(hmac: Mac, password: Bytes, salt: Bytes, c: nat, dkLen: nat): Option<Bytes>
    requires IsMac(hmac) && 1 <= c
  {
    if dkLen > 0xFFFF_FFFF * HASH_LENGTH then None
    else Some(Blocks(hmac, password, salt, c, BlockCount(dkLen))[..dkLen])
  }

  lemma {:induction false} BlocksPrefix(hmac: Mac, password: Bytes, salt: Bytes, c: nat, m: nat, n: nat)
    requires IsMac(hmac) && 1 <= c && m <= n < 0x1_0000_0000
    ensures Blocks(hmac, password, salt, c, m) <= Blocks(hmac, password, salt, c, n)
    decreases n
  {
    hide F;
    if m < n { BlocksPrefix(hmac, password, salt, c, m, n - 1); }
  }

  /** A shorter key is a prefix of a longer one. */
  lemma ShorterIsPrefix(hmac: Mac, password: Bytes, salt: Bytes, c: nat, m: nat, n: nat)
    requires IsMac(hmac) && 1 <= c && m <= n <= 0xFFFF_FFFF * HASH_LENGTH
    ensures Pbkdf2(hmac, password, salt, c, m).value <= Pbkdf2(hmac, password, salt, c, n).value
  {
    hide Blocks;
    BlocksPrefix(hmac, password, salt, c, BlockCount(m), BlockCount(n));
  }

  lemma {:induction false} BlocksAt(hmac: Mac, password: Bytes, salt: Bytes, c: nat, l: nat, p: nat)
    requires IsMac(hmac) && 1 <= c && l < 0x1_0000_0000 && p < l * HASH_LENGTH
    ensures Blocks(hmac, password, salt, c, l)[p] == F(hmac, password, salt, c, p / HASH_LENGTH + 1)[p % HASH_LENGTH]
  {
    hide F;
    if p < (l - 1) * HASH_LENGTH {
      BlocksAt(hmac, password, salt, c, l - 1, p);
    } else {
      assert p / HASH_LENGTH == l - 1;
    }
  }

  /** Every bit of a key of the standard: bit k of byte p is set exactly if an
      odd number of U_1, ..., U_c for block p / 32 + 1 have it set in byte p % 32. */
  lemma KeyBits(hmac: Mac, password: Bytes, salt: Bytes, c: nat, dkLen: nat, p: nat, k: nat)
    requires IsMac(hmac) && 1 <= c && p < dkLen <= 0xFFFF_FFFF * 32 && k < 8
    ensures var key := Pbkdf2(hmac, password, salt, c, dkLen);
      && key.Some? && |key.value| == dkLen
      && Bit(key.value[p], k) == |BitSet(hmac, password, salt, c, p / 32 + 1, p % 32, k)| % 2
  {
    hide F, Blocks, Bit, BitSet;
    BlocksAt(hmac, password, salt, c, BlockCount(dkLen), p);
    BlockBits(hmac, password, salt, c, p / 32 + 1, p % 32, k);
  }

  /** The octets of a block number, most significant first. */
  lemma OctetsOf(i: nat)
    requires i < 0x1_0000_0000
    ensures var o := Octets(i);
      |o| == 4 && o[0] as nat * 0x100_0000 + o[1] as nat * 0x1_0000 + o[2] as nat * 0x100 + o[3] as nat == i
  {
    var a := i / 0x100;
    var b := a / 0x100;
    assert i == a * 0x100 + i % 0x100 && a == b * 0x100 + a % 0x100 && b == b / 0x100 * 0x100 + b % 0x100;
    assert b == i / 0x1_0000 && b / 0x100 == i / 0x100_0000;
  }

  /** The first two rounds for a small block number, written out. */
  lemma TwoRounds(hmac: Mac, password: Bytes, salt: Bytes, i: nat, b: nat, k: nat)
    requires IsMac(hmac) && i < 256 && b < 32 && k < 8
    ensures var u := hmac(password, salt + [0, 0, 0, i]);
      && F(hmac, password, salt, 1, i) == u
      && (Bit(F(hmac, password, salt, 2, i)[b], k) == 1 <==> Bit(u[b], k) != Bit(hmac(password, u)[b], k))
  {
    hide Bit;
    assert Octets(i) == [0, 0, 0, i];
    var u := hmac(password, salt + [0, 0, 0, i]);
    assert U(hmac, password, salt, 1, i) == u && U(hmac, password, salt, 2, i) == hmac(password, u);
    XorAt(u, hmac(password, u));
    XorBit(u[b], hmac(password, u)[b], 8, k);
  }

  // ---------- the implementation ----------

  /** The iteration count that takes effect: less than one counts as one. */
  function Effective(iterations: int): (c: nat)
    ensures c >= 1
  {
    if iterations < 1 then 1 else iterations
  }

  lemma BlocksStep(hmac: Mac, password: Bytes, salt: Bytes, c: nat, l: nat)
    requires IsMac(hmac) && 1 <= c && l < 0x1_0000_0000
    ensures l == 0 ==> Blocks(hmac, password, salt, c, l) == []
    ensures l > 0 ==>
      Blocks(hmac, password, salt, c, l) == Blocks(hmac, password, salt, c, l - 1) + F(hmac, password, salt, c, l)
  {
    hide F;
  }

  lemma Pbkdf2Value(hmac: Mac, password: Bytes, salt: Bytes, c: nat, dkLen: nat)
    requires IsMac(hmac) && 1 <= c && dkLen <= 0xFFFF_FFFF * HASH_LENGTH
    ensures dkLen <= BlockCount(dkLen) * HASH_LENGTH && BlockCount(dkLen) < 0x1_0000_0000
    ensures Pbkdf2(hmac, password, salt, c, dkLen)
         == Some(Blocks(hmac, password, salt, c, BlockCount(dkLen))[..dkLen])
  {
    hide Blocks;
  }

  method XorInto(t: array<Byte>, u: Bytes)
    requires t.Length == |u|
    modifies t
    ensures t[..] == Xor(old(t[..]), u)
  {
    for j := 0 to t.Length
      invariant forall k :: 0 <= k < j ==> t[k] == XorByte(old(t[k]), u[k])
      invariant forall k :: j <= k < t.Length ==> t[k] == old(t[k])
    {
      t[j] := XorByte(t[j], u[j]);
    }
    XorAt(old(t[..]), u);
  }

  /** One block: U_1, into which the later U_j are folded in place. */
  method DeriveBlock(hmac: Mac, password: Bytes, salt: Bytes, iterations: int, counter: nat) returns (block: Bytes)
    requires IsMac(hmac) && counter < 0x1_0000_0000
    ensures block == F(hmac, password, salt, Effective(iterations), counter) && |block| == HASH_LENGTH
  {
    var u := hmac(password, salt + Octets(counter));
    var t := new Byte[|u|](k requires 0 <= k < |u| => u[k]);
    assert t[..] == u;
    var i := 1;
    while i < iterations
      invariant 1 <= i <= Effective(iterations) && t.Length == |u| == HASH_LENGTH
      invariant u == U(hmac, password, salt, i, counter)
      invariant t[..] == F(hmac, password, salt, i, counter)
    {
      u := hmac(password, u);
      XorInto(t, u);
      i := i + 1;
    }
    block := t[..];
  }

  /** Derives a key block by block. The block number is truncated to 32 bits,
      so the result is the standard's for every length the standard allows. */
  method Pbkdf2SHA256(hmac: Mac, password: Bytes, salt: Bytes, iterations: int, keyLength: nat)
      returns (derived: Bytes)
    requires IsMac(hmac)
    ensures |derived| == keyLength
    ensures keyLength <= 0xFFFF_FFFF * HASH_LENGTH ==>
      Pbkdf2(hmac, password, salt, if iterations < 1 then 1 else iterations, keyLength) == Some(derived)
  {
    hide F, Pbkdf2, Blocks, IsMac;
    ghost var c := Effective(iterations);
    var blocks := (keyLength + HASH_LENGTH - 1) / HASH_LENGTH;
    derived := [];
    BlocksStep(hmac, password, salt, c, 0);
    for block := 1 to blocks + 1
      invariant |derived| == (block - 1) * HASH_LENGTH
      invariant block <= 0x1_0000_0000 ==> derived == Blocks(hmac, password, salt, c, block - 1)
    {
      if block < 0x1_0000_0000 { BlocksStep(hmac, password, salt, c, block); }
      var t := DeriveBlock(hmac, password, salt, iterations, block % 0x1_0000_0000);
      derived := derived + t;
    }
    if keyLength <= 0xFFFF_FFFF * HASH_LENGTH {
      Pbkdf2Value(hmac, password, salt, c, keyLength);
    }
    derived := derived[..keyLength];
  }
}
