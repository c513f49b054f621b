/** The header that carries the paragraph offsets of a track from the speech
    server to the browser: a JSON array in unpadded URL-safe Base64
    (scripts/tts_server.py, timing_header; public/static/reader/epub/script.js,
    decodeTTSTimingHeader). */
module TimingHeader {
  import opened Outcomes
  import opened Arithmetic
  import opened Text
  import opened Decimal
  import opened Base64

  const COMMA: nat := 0x2C
  const OPEN: nat := 0x5B
  const CLOSE: nat := 0x5D
  const MINUS: nat := 0x2D
  const PAD: nat := 0x3D

  // ---------- JavaScript numbers ----------

  /** An integer-valued JavaScript number. */
  datatype Number = Finite(value: int) | Infinity

  const PRECISION: nat := 0x20_0000_0000_0000  // 2 to the 53rd

  /** How many low bits of n do not fit into the 53 bits of a double. */
  function Excess(n: nat): nat {
    if n < PRECISION then 0 else 1 + Excess(n / 2)
  }

  function RoundHalfEven(n: nat, unit: nat): nat
    requires unit > 0
  {
    var q, r := n / unit, n % unit;
    if 2 * r > unit || (2 * r == unit && q % 2 == 1) then (q + 1) * unit else q * unit
  }

  /** A finite double has at most 1024 bits, of which the first 53 count. */
  const MAX_EXCESS: nat := 971

  /** The double nearest to n, as JSON.parse yields it. */
  function ToNumber(n: nat): Number {
    var rounded := RoundHalfEven(n, Pow2(Excess(n)));
    if Excess(rounded) > MAX_EXCESS then Infinity else Finite(rounded)
  }

  /** The naturals that are doubles: those whose excess low bits are all zero
      and that have at most 1024 bits. */
  predicate Representable(n: nat) {
    n % Pow2(Excess(n)) == 0 && Excess(n) <= MAX_EXCESS
  }

  lemma ToNumberExact(n: nat)
    ensures ToNumber(n) == Finite(n) <==> Representable(n)
  {
    var unit := Pow2(Excess(n));
    assert n == unit * (n / unit) + n % unit;
  }

  lemma SmallIsRepresentable(n: nat)
    requires n < PRECISION
    ensures Representable(n)
  {
    assert Pow2(0) == 1;
  }

  /** Order of JavaScript numbers. */
  predicate Leq(x: Number, y: Number) {
    y.Infinity? || (x.Finite? && x.value <= y.value)
  }

  lemma {:induction false} ExcessBounds(n: nat)
    ensures n < PRECISION * Pow2(Excess(n))
    ensures Excess(n) > 0 ==> 2 * n >= PRECISION * Pow2(Excess(n))
  {
    if n >= PRECISION {
      ExcessBounds(n / 2);
      if n / 2 < PRECISION { assert Pow2(1) == 2 * Pow2(0) == 2; }
    }
  }

  lemma {:induction false} ExcessMonotone(m: nat, n: nat)
    requires m <= n
    ensures Excess(m) <= Excess(n)
    decreases n
  {
    if m >= PRECISION { ExcessMonotone(m / 2, n / 2); }
  }

  lemma {:induction false} Pow2Grows(d: nat, e: nat)
    requires d < e
    ensures 2 * Pow2(d) <= Pow2(e)
    decreases e
  {
    if d < e - 1 { Pow2Grows(d, e - 1); }
  }

  lemma MulMonotone(a: nat, b: nat, c: nat)
    requires a <= b
    ensures a * c <= b * c
  {
  }

  lemma DivMonotone(m: nat, n: nat, unit: nat)
    requires unit > 0 && m <= n
    ensures m / unit <= n / unit
  {
    assert n == unit * (n / unit) + n % unit && m == unit * (m / unit) + m % unit;
    if m / unit > n / unit { MulMonotone(n / unit + 1, m / unit, unit); }
  }

  lemma RoundMonotone(m: nat, n: nat, unit: nat)
    requires unit > 0 && m <= n
    ensures RoundHalfEven(m, unit) <= RoundHalfEven(n, unit)
  {
    var p, q := m / unit, n / unit;
    DivMonotone(m, n, unit);
    if p < q {
      MulMonotone(p + 1, q, unit);
      MulMonotone(p, p + 1, unit);
      MulMonotone(q, q + 1, unit);
    } else {
      assert m == unit * p + m % unit && n == unit * p + n % unit;
      MulMonotone(p, p + 1, unit);
    }
  }

  lemma RoundBounds(n: nat, unit: nat, limit: nat)
    requires unit > 0
    ensures n < limit * unit ==> RoundHalfEven(n, unit) <= limit * unit
    ensures n >= limit * unit ==> RoundHalfEven(n, unit) >= limit * unit
  {
    var q := n / unit;
    assert n == unit * q + n % unit;
    if n < limit * unit {
      if q >= limit { MulMonotone(limit, q, unit); }
      MulMonotone(q + 1, limit, unit);
      MulMonotone(q, q + 1, unit);
    } else {
      if q < limit { MulMonotone(q + 1, limit, unit); }
      MulMonotone(limit, q, unit);
      MulMonotone(q, q + 1, unit);
    }
  }

  lemma RoundedMonotone(m: nat, n: nat)
    requires m <= n
    ensures RoundHalfEven(m, Pow2(Excess(m))) <= RoundHalfEven(n, Pow2(Excess(n)))
  {
    ExcessMonotone(m, n);
    ExcessBounds(m);
    ExcessBounds(n);
    hide Excess, Pow2, RoundHalfEven;
    var unit, larger := Pow2(Excess(m)), Pow2(Excess(n));
    if Excess(m) == Excess(n) {
      RoundMonotone(m, n, unit);
    } else {
      Pow2Grows(Excess(m), Excess(n));
      RoundBounds(m, unit, PRECISION);
      RoundBounds(n, larger, PRECISION / 2);
    }
  }

  function Distance(x: int, y: int): nat { if x <= y then y - x else x - y }

  lemma RoundNearest(n: nat, unit: nat, k: nat)
    requires unit > 0
    ensures Distance(RoundHalfEven(n, unit), n) <= Distance(k * unit, n)
  {
    var q, r := n / unit, n % unit;
    assert n == q * unit + r;
    assert (q + 1) * unit == q * unit + unit;
    if k <= q { MulMonotone(k, q, unit); } else { MulMonotone(q + 1, k, unit); }
  }

  lemma {:induction false} Pow2Adds(d: nat, e: nat)
    ensures Pow2(d + e) == Pow2(d) * Pow2(e)
  {
    if d > 0 { Pow2Adds(d - 1, e); }
  }

  lemma Product3(a: nat, b: nat, c: nat)
    ensures a * (b * c) == a * b * c
  {
  }

  /** No number of 53 bits, however far it is shifted, is nearer. */
  lemma NearestDouble(n: nat, s: nat, e: nat)
    requires s < 0x20_0000_0000_0000
    ensures ToNumber(n).Finite? ==> Distance(ToNumber(n).value, n) <= Distance(s * Pow2(e), n)
  {
    hide RoundHalfEven, Pow2, Excess;
    var x := Excess(n);
    var unit := Pow2(x);
    ExcessBounds(n);
    if e >= x {
      Pow2Adds(e - x, x);
      Product3(s, Pow2(e - x), unit);
      RoundNearest(n, unit, s * Pow2(e - x));
    } else {
      RoundNearest(n, unit, PRECISION / 2);
      Pow2Grows(e, x);
      MulMonotone(s, PRECISION, Pow2(e));
      assert PRECISION / 2 * unit >= PRECISION * Pow2(e);
    }
  }

  lemma {:induction false} ExcessOf(s: nat, e: nat)
    requires PRECISION / 2 <= s < PRECISION
    ensures Excess(s * Pow2(e)) == e
  {
    if e == 0 {
      assert s * Pow2(0) == s;
    } else {
      ExcessOf(s, e - 1);
      var half := s * Pow2(e - 1);
      assert s * Pow2(e) == 2 * half;
      MulMonotone(1, Pow2(e - 1), s);
      assert 2 * half / 2 == half;
    }
  }

  lemma RoundIsMultiple(n: nat, unit: nat) returns (q: nat)
    requires unit > 0
    ensures RoundHalfEven(n, unit) == q * unit
  {
    q := if RoundHalfEven(n, unit) == n / unit * unit then n / unit else n / unit + 1;
  }

  lemma FactorAtMost(q: nat, unit: nat, limit: nat)
    requires unit > 0 && q * unit <= limit * unit
    ensures q <= limit
  {
    if q > limit { MulMonotone(limit + 1, q, unit); }
  }

  lemma Doubled(x: nat)
    ensures Pow2(x + 1) == 2 * Pow2(x)
  {
  }

  /** What the browser holds is a double: 53 bits, shifted by 971 at most. */
  lemma IsDouble(n: nat) returns (s: nat, e: nat)
    requires ToNumber(n).Finite?
    ensures ToNumber(n).value == s * Pow2(e) && s < 0x20_0000_0000_0000 && e <= 971
  {
    hide RoundHalfEven, Pow2, Excess;
    var x := Excess(n);
    var unit := Pow2(x);
    var q := RoundIsMultiple(n, unit);
    ExcessBounds(n);
    RoundBounds(n, unit, PRECISION);
    FactorAtMost(q, unit, PRECISION);
    if q == PRECISION {
      s, e := PRECISION / 2, x + 1;
      Doubled(x);
      assert q * unit == PRECISION / 2 * Pow2(x + 1);
      ExcessOf(PRECISION / 2, x + 1);
    } else {
      s, e := q, x;
      if x > 0 {
        RoundBounds(n, unit, PRECISION / 2);
        FactorAtMost(PRECISION / 2, unit, q);
        ExcessOf(q, x);
      }
    }
  }

  /** Rounding to doubles keeps the order of the offsets. */
  lemma ToNumberMonotone(m: nat, n: nat)
    requires m <= n
    ensures Leq(ToNumber(m), ToNumber(n))
  {
    RoundedMonotone(m, n);
    hide RoundHalfEven, Pow2, Excess;
    ExcessMonotone(RoundHalfEven(m, Pow2(Excess(m))), RoundHalfEven(n, Pow2(Excess(n))));
  }

  // ---------- printing ----------

  /** json.dumps(offsets, separators=(",", ":")) from the first element on. */
  function Elements(xs: seq<nat>): Text {
    if xs == [] then []
    else if |xs| == 1 then Print(xs[0])
    else Print(xs[0]) + [COMMA] + Elements(xs[1..])
  }

  function Json(xs: seq<nat>): Text { [OPEN] + Elements(xs) + [CLOSE] }

  /** The padding that fills a length up to a multiple of four. */
  function Missing4(n: nat): nat { (4 - n % 4) % 4 }

  function Padding(n: nat): Text { if n == 0 then [] else [PAD] + Padding(n - 1) }

  /** urlsafe_b64encode fills its result up to a multiple of four characters. */
  function UrlSafeB64Encode(bytes: Bytes): Text {
    var s := Encode(bytes, true);
    s + Padding(Missing4(|s|))
  }

  function StripPadding(s: Text): Text {
    if s != [] && s[|s| - 1] == PAD then StripPadding(s[..|s| - 1]) else s
  }

  function Header(offsets: seq<nat>): Text {
    StripPadding(UrlSafeB64Encode(Json(offsets)))
  }

  // ---------- parsing ----------

  /** The length of the leading run of digits. */
  function DigitRun(s: Text): (n: nat)
    ensures n <= |s| && AllDigits(s[..n])
    ensures n < |s| ==> !IsDigit(s[n])
  {
    if s == [] || !IsDigit(s[0]) then 0
    else
      var n := 1 + DigitRun(s[1..]);
      assert forall i :: 1 <= i < n ==> s[..n][i] == s[1..][..n - 1][i - 1];
      n
  }

  /** The clamp to zero below makes every negative number zero. */
  function Negate(x: Number): Number {
    match x
    case Finite(v) => Finite(-v)
    case Infinity => Finite(-1)
  }

  /** The numbers of a JSON array, after its opening bracket or a comma. */
  function ParseElements(s: Text): Option<seq<Number>>
    decreases |s|
  {
    var sign := if s != [] && s[0] == MINUS then 1 else 0;
    var digits := s[sign..][..DigitRun(s[sign..])];
    var rest := s[sign + |digits|..];
    if digits == [] || (digits[0] == 0x30 && |digits| > 1) || rest == [] then None
    else
      var magnitude := ToNumber(Value(digits));
      var number := if sign == 0 then magnitude else Negate(magnitude);
      if rest == [CLOSE] then Some([number])
      else if rest[0] != COMMA then None
      else
        match ParseElements(rest[1..])
        case None => None
        case Some(numbers) => Some([number] + numbers)
  }

  function ParseArray(s: Text): Option<seq<Number>> {
    if s == [] || s[0] != OPEN then None
    else if s == [OPEN, CLOSE] then Some([])
    else ParseElements(s[1..])
  }

  function StandardSymbol(c: nat): nat {
    if c == 0x2D then 0x2B else if c == 0x5F then 0x2F else c
  }

  function ToStandard(s: Text): Text {
    if s == [] then [] else [StandardSymbol(s[0])] + ToStandard(s[1..])
  }

  /** atob on a text without white space: at most two padding characters are
      dropped, and only if the length is a multiple of four. */
  function Atob(s: Text): Option<Bytes> {
    var n := |s|;
    if n % 4 == 0 && n >= 2 && s[n - 1] == PAD && s[n - 2] == PAD then Decode(s[..n - 2])
    else if n % 4 == 0 && n >= 1 && s[n - 1] == PAD then Decode(s[..n - 1])
    else Decode(s)
  }

  function Clamp(x: Number): Number {
    match x
    case Finite(v) => if v < 0 then Finite(0) else x
    case Infinity => x
  }

  function ClampAll(xs: seq<Number>): seq<Number> {
    if xs == [] then [] else [Clamp(xs[0])] + ClampAll(xs[1..])
  }

  datatype Decoded = Offsets(offsets: seq<Number>) | Missing | Invalid

  function DecodeHeader(value: Text, count: nat): Decoded {
    if value == [] then Missing
    else
      var padded := value + Padding(Missing4(|value|));
      match Atob(ToStandard(padded))
      case None => Invalid
      case Some(text) =>
        match ParseArray(text)
        case None => Invalid
        case Some(numbers) => if |numbers| != count then Invalid else Offsets(ClampAll(numbers))
  }

  // ---------- the round trip ----------

  function Numbers(xs: seq<nat>): seq<Number> {
    if xs == [] then [] else [ToNumber(xs[0])] + Numbers(xs[1..])
  }

  lemma {:induction false} DigitRunOf(digits: Text, rest: Text)
    requires AllDigits(digits) && (rest != [] ==> !IsDigit(rest[0]))
    ensures DigitRun(digits + rest) == |digits|
  {
    if digits == [] {
      assert digits + rest == rest;
    } else {
      assert (digits + rest)[1..] == digits[1..] + rest;
      DigitRunOf(digits[1..], rest);
    }
  }

  lemma ParseOne(x: nat, rest: Text)
    requires rest != [] && !IsDigit(rest[0])
    ensures var s := Print(x) + rest;
      ParseElements(s) ==
        if rest == [CLOSE] then Some([ToNumber(x)])
        else if rest[0] != COMMA then None
        else if ParseElements(rest[1..]).None? then None
        else Some([ToNumber(x)] + ParseElements(rest[1..]).value)
  {
    hide ToNumber, Print, Value;
    ValueOfPrint(x);
    DigitRunOf(Print(x), rest);
    var s := Print(x) + rest;
    assert s[0] == Print(x)[0];
    assert s[0..] == s && s[..|Print(x)|] == Print(x) && s[|Print(x)|..] == rest;
  }

  lemma ElementsNonempty(xs: seq<nat>)
    requires xs != []
    ensures Elements(xs) != [] && IsDigit(Elements(xs)[0])
  {
    ValueOfPrint(xs[0]);
  }

  lemma {:induction false} ParseOfElements(xs: seq<nat>)
    requires xs != []
    ensures ParseElements(Elements(xs) + [CLOSE]) == Some(Numbers(xs))
    decreases |xs|
  {
    hide ToNumber, Print, ParseElements;
    if |xs| == 1 {
      ParseOne(xs[0], [CLOSE]);
      assert Numbers(xs) == [ToNumber(xs[0])];
    } else {
      var rest := [COMMA] + (Elements(xs[1..]) + [CLOSE]);
      ParseOfElements(xs[1..]);
      ParseOne(xs[0], rest);
      assert rest[1..] == Elements(xs[1..]) + [CLOSE];
      assert Elements(xs) + [CLOSE] == Print(xs[0]) + rest;
      ElementsNonempty(xs[1..]);
    }
  }

  lemma ParseOfJson(xs: seq<nat>)
    ensures ParseArray(Json(xs)) == Some(Numbers(xs))
  {
    hide ParseElements;
    if xs == [] {
      assert Json(xs) == [OPEN, CLOSE];
    } else {
      ParseOfElements(xs);
      ElementsNonempty(xs);
      assert Json(xs)[1..] == Elements(xs) + [CLOSE];
    }
  }

  lemma {:induction false} JsonIsBytes(xs: seq<nat>)
    ensures AreBytes(Json(xs)) && AreBytes(Elements(xs))
  {
    if xs != [] {
      ValueOfPrint(xs[0]);
      JsonIsBytes(xs[1..]);
    }
  }

  lemma {:induction false} PaddingIsPad(n: nat)
    ensures |Padding(n)| == n && forall i :: 0 <= i < n ==> Padding(n)[i] == PAD
  {
    if n > 0 { PaddingIsPad(n - 1); }
  }

  lemma {:induction false} StripAll(s: Text, n: nat)
    requires s != [] ==> s[|s| - 1] != PAD
    ensures StripPadding(s + Padding(n)) == s
    decreases n
  {
    PaddingIsPad(n);
    if n == 0 {
      assert s + [] == s;
    } else {
      PaddingIsPad(n - 1);
      assert Padding(n)[..n - 1] == Padding(n - 1);
      assert (s + Padding(n))[..|s| + n - 1] == s + Padding(n - 1);
      StripAll(s, n - 1);
    }
  }

  lemma {:induction false} ToStandardConcat(a: Text, b: Text)
    ensures ToStandard(a + b) == ToStandard(a) + ToStandard(b)
  {
    if a == [] {
      assert a + b == b;
    } else {
      assert (a + b)[1..] == a[1..] + b;
      ToStandardConcat(a[1..], b);
    }
  }

  lemma {:induction false} ToStandardPadding(n: nat)
    ensures ToStandard(Padding(n)) == Padding(n)
  {
    if n > 0 {
      ToStandardPadding(n - 1);
      assert Padding(n)[1..] == Padding(n - 1);
    }
  }

  lemma {:induction false} ToStandardSymbols(v: seq<nat>)
    requires AreSextets(v)
    ensures ToStandard(Symbols(v, true)) == Symbols(v, false)
  {
    if v != [] {
      ToStandardSymbols(v[1..]);
      assert Symbols(v, true)[1..] == Symbols(v[1..], true);
    }
  }

  lemma Missing4Facts(n: nat)
    ensures (n + Missing4(n)) % 4 == 0
    ensures n % 4 != 1 ==> Missing4(n) <= 2
    ensures Missing4(n) > 0 ==> n > 0
  {
  }

  /** atob drops the padding of a text whose length is then a multiple of four. */
  lemma AtobDropsPadding(s: Text)
    requires |s| % 4 != 1 && (s != [] ==> s[|s| - 1] != PAD)
    ensures Atob(s + Padding(Missing4(|s|))) == Decode(s)
  {
    var n := Missing4(|s|);
    Missing4Facts(|s|);
    PaddingIsPad(n);
    hide Decode, Missing4, Padding;
    var padded := s + Padding(n);
    assert |padded| == |s| + n && padded[..|s|] == s;
    if n == 0 {
      assert padded == s;
    } else if n == 1 {
      assert padded[|padded| - 1] == PAD && padded[|padded| - 2] == s[|s| - 1];
    } else {
      assert padded[|padded| - 1] == PAD && padded[|padded| - 2] == PAD;
    }
  }

  lemma AtobOfPadded(bytes: Bytes)
    requires AreBytes(bytes)
    ensures var s := Encode(bytes, false); Atob(s + Padding(Missing4(|s|))) == Some(bytes)
  {
    EncodeFacts(bytes, false);
    DecodeEncode(bytes);
    hide Encode, Decode, Atob, Missing4, Padding;
    AtobDropsPadding(Encode(bytes, false));
  }

  lemma {:induction false} NumbersFacts(xs: seq<nat>)
    ensures |Numbers(xs)| == |xs|
    ensures forall i :: 0 <= i < |xs| ==> Numbers(xs)[i] == ToNumber(xs[i])
    ensures ClampAll(Numbers(xs)) == Numbers(xs)
  {
    if xs != [] {
      NumbersFacts(xs[1..]);
      assert ClampAll(Numbers(xs))[1..] == ClampAll(Numbers(xs)[1..]);
      assert ToNumber(xs[0]).Finite? ==> ToNumber(xs[0]).value >= 0;
    }
  }

  lemma HeaderIsUnpadded(xs: seq<nat>)
    ensures Header(xs) == Encode(Json(xs), true) && Header(xs) != []
  {
    JsonIsBytes(xs);
    EncodeFacts(Json(xs), true);
    hide Encode, Json;
    var s := Encode(Json(xs), true);
    StripAll(s, Missing4(|s|));
  }

  /** Padding rebuilt and the alphabet translated, the browser decodes the bytes. */
  lemma AtobOfHeader(bytes: Bytes)
    requires AreBytes(bytes)
    ensures var s := Encode(bytes, true);
      Atob(ToStandard(s + Padding(Missing4(|s|)))) == Some(bytes)
  {
    SextetsRoundTrip(bytes);
    var v := Sextets(bytes);
    SymbolsFacts(v, true);
    SymbolsFacts(v, false);
    hide Sextets, Symbols, Atob, Missing4, Padding, ToStandard;
    ToStandardConcat(Symbols(v, true), Padding(Missing4(|v|)));
    ToStandardSymbols(v);
    ToStandardPadding(Missing4(|v|));
    AtobOfPadded(bytes);
  }

  /** What the browser decodes from the server's header: each offset as the
      nearest JavaScript number, if there are as many as it expects. */
  lemma HeaderDecodes(xs: seq<nat>, count: nat)
    ensures DecodeHeader(Header(xs), count) == if |xs| == count then Offsets(Numbers(xs)) else Invalid
  {
    JsonIsBytes(xs);
    hide Header, Json, ToStandard, Padding, Atob, Encode, ParseArray, Numbers, ClampAll;
    HeaderIsUnpadded(xs);
    AtobOfHeader(Json(xs));
    ParseOfJson(xs);
    NumbersFacts(xs);
  }

  /** The round trip is exact for exactly those lists whose offsets all are doubles. */
  lemma RoundTrip(xs: seq<nat>)
    ensures DecodeHeader(Header(xs), |xs|) == Offsets(seq(|xs|, i requires 0 <= i < |xs| => Finite(xs[i])))
        <==> forall i :: 0 <= i < |xs| ==> Representable(xs[i])
  {
    hide Header, DecodeHeader, Representable, ToNumber;
    HeaderDecodes(xs, |xs|);
    NumbersFacts(xs);
    var exact := seq(|xs|, i requires 0 <= i < |xs| => Finite(xs[i]));
    forall i | 0 <= i < |xs| ensures Numbers(xs)[i] == exact[i] <==> Representable(xs[i]) {
      ToNumberExact(xs[i]);
    }
    if Numbers(xs) == exact {
      forall i | 0 <= i < |xs| ensures Representable(xs[i]) { assert Numbers(xs)[i] == exact[i]; }
    }
  }

  lemma FirstGap(n: nat)
    requires n == PRECISION + 1
    ensures ToNumber(n) == Finite(PRECISION) && !Representable(n)
  {
    assert Excess(n) == 1 && Excess(PRECISION) == 1 by { assert Excess(n / 2) == 0; }
    assert Pow2(1) == 2 * Pow2(0) == 2;
  }

  /** 2^53 + 1 milliseconds arrive as 2^53. */
  lemma RoundTripFails(n: nat)
    requires n == PRECISION + 1
    ensures DecodeHeader(Header([n]), 1) == Offsets([Finite(PRECISION)])
    ensures !Representable(n)
  {
    hide ToNumber, DecodeHeader, Header, Representable;
    FirstGap(n);
    HeaderDecodes([n], |[n]|);
    assert Numbers([n]) == [ToNumber(n)];
  }
}
