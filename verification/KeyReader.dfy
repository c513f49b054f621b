/** The keyboard tokenizer of the LibGen terminal program (scripts/libgen_tui.py):
    escape sequences and UTF-8 text, read in pieces of any size. */
module KeyReader {
  import opened Outcomes
  import opened Sequences
  import opened Utf8

  const ESC: nat := 0x1B

  datatype Key = Up | Down | Right | Left | Ignore | Unknown

  datatype Escape = Incomplete | Parsed(key: Key, consumed: nat)

  /** One result of read_key: a key, or a run of text. */
  datatype Token = KeyPress(key: Key) | TextRun(text: seq<nat>)

  /** What a token amounts to: text is counted character by character, so that
      it does not matter how a run of text is divided into tokens. */
  datatype Item = KeyItem(key: Key) | CharItem(code: nat)

  function Arrow(b: nat): Key {
    if b == 65 then Up else if b == 66 then Down else if b == 67 then Right else if b == 68 then Left else Unknown
  }

  predicate IsFinal(b: nat) { 0x40 <= b <= 0x7E }

  /** Index of the first final byte of a control sequence at or after i, or |buf|. */
  function FinalByte(buf: Bytes, i: nat): (f: nat)
    requires i <= |buf|
    ensures i <= f <= |buf|
    ensures forall k :: i <= k < f ==> !IsFinal(buf[k])
    ensures f < |buf| ==> IsFinal(buf[f])
    decreases |buf| - i
  {
    if i == |buf| || IsFinal(buf[i]) then i else FinalByte(buf, i + 1)
  }

  function ControlKey(parameters: Bytes, final: nat): Key {
    if parameters in {[0x32, 0x30, 0x30], [0x32, 0x30, 0x31]} then Ignore
    else if parameters == [] then Arrow(final)
    else Unknown
  }

  /** _parse_escape on a nonempty buffer. */
  function EscapeSpec(buf: Bytes): (r: Escape)
    requires buf != []
    ensures r.Parsed? ==> 0 < r.consumed <= |buf|
  {
    if buf[0] != ESC || |buf| == 1 then Incomplete
    else if buf[1] == 0x4F then
      if |buf| < 3 then Incomplete else Parsed(Arrow(buf[2]), 3)
    else if buf[1] == 0x5B then
      var f := FinalByte(buf, 2);
      if f == |buf| then Incomplete else Parsed(ControlKey(buf[2..f], buf[f]), f + 1)
    else Parsed(Unknown, 2)
  }

  method ParseEscape(buf: Bytes) returns (r: Escape)
    requires buf != []
    ensures r == EscapeSpec(buf)
  {
    if buf[0] != ESC { return Incomplete; }
    if |buf| == 1 { return Incomplete; }
    if buf[1] == 0x4F {
      if |buf| < 3 { return Incomplete; }
      return Parsed(Arrow(buf[2]), 3);
    }
    if buf[1] == 0x5B {
      for i := 2 to |buf|
        invariant FinalByte(buf, 2) == FinalByte(buf, i)
      {
        var b := buf[i];
        if IsFinal(b) {
          var parameters := buf[2..i];
          if parameters == [0x32, 0x30, 0x30] || parameters == [0x32, 0x30, 0x31] {
            return Parsed(Ignore, i + 1);
          }
          if parameters == [] && Arrow(b) != Unknown { return Parsed(Arrow(b), i + 1); }
          return Parsed(Unknown, i + 1);
        }
      }
      return Incomplete;
    }
    return Parsed(Unknown, 2);
  }

  lemma {:induction false} FinalByteStable(a: Bytes, b: Bytes, i: nat)
    requires i <= |a| && FinalByte(a, i) < |a|
    ensures FinalByte(a + b, i) == FinalByte(a, i)
    decreases |a| - i
  {
    if i < |a| && !IsFinal(a[i]) { FinalByteStable(a, b, i + 1); }
  }

  /** A completed escape sequence is not changed by what follows it. */
  lemma EscapeStable(a: Bytes, b: Bytes)
    requires a != [] && EscapeSpec(a).Parsed?
    ensures EscapeSpec(a + b) == EscapeSpec(a)
  {
    assert (a + b)[0] == a[0] && (a + b)[1] == a[1];
    if a[1] == 0x5B {
      var f := FinalByte(a, 2);
      FinalByteStable(a, b, 2);
      assert (a + b)[2..f] == a[2..f];
    }
  }

  // ---------- UTF-8 text ----------

  predicate Continuations(buf: Bytes, from: nat, to: nat) {
    from <= to <= |buf| && forall j :: from <= j < to ==> Continuation(buf[j])
  }

  /** How far the scan moves on from index i; 0 where it stops. */
  function Advance(buf: Bytes, i: nat): (n: nat)
    requires i <= |buf|
    ensures i + n <= |buf|
  {
    if i == |buf| || buf[i] == ESC then 0
    else
      var n := CharLength(buf[i]);
      if i + n > |buf| then 0
      else if Continuations(buf, i + 1, i + n) then n else 1
  }

  /** The index at which the scan that has reached i stops. */
  function Scan(buf: Bytes, i: nat): (r: nat)
    requires i <= |buf|
    ensures i <= r <= |buf|
    decreases |buf| - i
  {
    if Advance(buf, i) == 0 then i else Scan(buf, i + Advance(buf, i))
  }

  /** The number of bytes that _decode_prefix decodes. */
  function Consumed(buf: Bytes): (n: nat)
    ensures n <= |buf|
  {
    Scan(buf, 0)
  }

  lemma NothingDecoded()
    ensures Decode([]) == []
  {
  }

  method DecodePrefix(buf: Bytes) returns (text: seq<nat>, rest: Bytes)
    ensures text == Decode(buf[..Consumed(buf)]) && rest == buf[Consumed(buf)..]
  {
    hide Decode;
    NothingDecoded();
    var n := |buf|;
    var i := 0;
    while i < n
      invariant 0 <= i <= n && Scan(buf, 0) == Scan(buf, i)
    {
      var b := buf[i];
      if b == ESC { break; }
      if b < 0x80 {
        i := i + 1;
        continue;
      }
      var length;
      if 0xC2 <= b <= 0xDF {
        length := 2;
      } else if 0xE0 <= b <= 0xEF {
        length := 3;
      } else if 0xF0 <= b <= 0xF4 {
        length := 4;
      } else {
        i := i + 1;
        continue;
      }
      if i + length > n { break; }
      if forall j :: i + 1 <= j < i + length ==> Continuation(buf[j]) {
        i := i + length;
      } else {
        i := i + 1;
      }
    }
    if i == 0 { return [], buf; }
    return Decode(buf[..i]), buf[i..];
  }

  lemma AdvanceStable(a: Bytes, b: Bytes, i: nat)
    requires i <= |a| && Advance(a, i) > 0
    ensures Advance(a + b, i) == Advance(a, i)
  {
    var n := CharLength(a[i]);
    assert forall j :: i <= j < i + n ==> (a + b)[j] == a[j];
  }

  lemma AdvanceShift(s: Bytes, k: nat, i: nat)
    requires k + i <= |s|
    ensures Advance(s, k + i) == Advance(s[k..], i)
  {
    if k + i < |s| {
      var n := CharLength(s[k + i]);
      if k + i + n <= |s| {
        assert Continuations(s[k..], i + 1, i + n) <==> Continuations(s, k + i + 1, k + i + n) by {
          assert forall j :: i + 1 <= j < i + n ==> s[k..][j] == s[k + j];
          assert forall j :: k + i + 1 <= j < k + i + n ==> s[j] == s[k..][j - k];
        }
      }
    }
  }

  /** With more input the scan passes through the index at which it stopped before. */
  lemma {:induction false} ScanResumes(a: Bytes, b: Bytes, i: nat)
    requires i <= |a|
    ensures Scan(a + b, i) == Scan(a + b, Scan(a, i))
    decreases |a| - i
  {
    hide Advance;
    if Advance(a, i) > 0 {
      AdvanceStable(a, b, i);
      ScanResumes(a, b, i + Advance(a, i));
    }
  }

  lemma {:induction false} ScanShift(s: Bytes, k: nat, i: nat)
    requires k + i <= |s|
    ensures Scan(s, k + i) == k + Scan(s[k..], i)
    decreases |s| - i
  {
    AdvanceShift(s, k, i);
    if Advance(s, k + i) > 0 { ScanShift(s, k, i + Advance(s, k + i)); }
  }

  /** Decoding can be interrupted anywhere: what is decoded of a + b is what is
      decoded of a, followed by what is decoded of the rest of a together with b. */
  lemma ConsumedAdds(a: Bytes, b: Bytes)
    ensures Consumed(a + b) == Consumed(a) + Consumed(a[Consumed(a)..] + b)
  {
    ScanResumes(a, b, 0);
    var n := Consumed(a);
    ScanShift(a + b, n, 0);
    assert (a + b)[n..] == a[n..] + b;
  }

  // ---------- decoding in parts ----------

  lemma {:induction false} StraysAreSkipped(a: Bytes, i: nat, k: nat)
    requires Continuations(a, i, k)
    ensures Scan(a, i) == Scan(a, k)
    decreases k - i
  {
    if i < k {
      assert Continuation(a[i]);
      StraysAreSkipped(a, i + 1, k);
    }
  }

  lemma {:induction false} ScanStops(a: Bytes, i: nat)
    requires i <= |a|
    ensures Advance(a, Scan(a, i)) == 0
    decreases |a| - i
  {
    if Advance(a, i) > 0 { ScanStops(a, i + Advance(a, i)); }
  }

  lemma StopIsNoContinuation(a: Bytes)
    requires Consumed(a) < |a|
    ensures !Continuation(a[Consumed(a)])
  {
    ScanStops(a, 0);
  }

  lemma ScanMoves(a: Bytes, i: nat)
    requires i <= |a| && i < Scan(a, i)
    ensures Advance(a, i) > 0 && Scan(a, i) == Scan(a, i + Advance(a, i))
    ensures i + CharLength(a[i]) <= |a|
    ensures Advance(a, i) > 1 ==> Advance(a, i) == CharLength(a[i]) && Continuations(a, i + 1, i + Advance(a, i))
  {
  }

  /** The scan also stops where it did when it starts after the first character
      that the decoder sees. */
  lemma ScanAfterFirst(a: Bytes, i: nat, v: nat)
    requires i <= |a| && i < Scan(a, i) && v == FrontLength(a[i..Scan(a, i)])
    ensures i + v <= |a| && Scan(a, i + v) == Scan(a, i)
  {
    hide FrontLength, Scan, Advance;
    var x := a[i..Scan(a, i)];
    assert x[0] == a[i];
    assert forall j :: i < j < i + v ==> a[j] == x[j - i] && Continuation(a[j]);
    ScanMoves(a, i);
    if Advance(a, i) == 1 {
      StraysAreSkipped(a, i + 1, i + v);
    } else {
      StraysAreSkipped(a, i + v, i + Advance(a, i));
    }
  }

  /** The characters of decoded bytes and those of what follows are decoded independently. */
  lemma {:induction false} DecodeAdds(a: Bytes, i: nat, t: Bytes)
    requires i <= |a| && (t == [] || !Continuation(t[0]) || Scan(a, i) == |a|)
    ensures Decode(a[i..Scan(a, i)] + t) == Decode(a[i..Scan(a, i)]) + Decode(t)
    decreases |a| - i
  {
    hide FrontLength, First, Decode, Scan, Advance;
    var n := Scan(a, i);
    var x := a[i..n];
    if i == n {
      assert x + t == t;
      NothingDecoded();
    } else {
      var v := FrontLength(x);
      ScanAfterFirst(a, i, v);
      ScanMoves(a, i);
      DecodeStep(x, t);
      DecodeStep(x, []);
      assert x + [] == x && x[v..] + [] == x[v..] == a[i + v..n];
      DecodeAdds(a, i + v, t);
    }
  }

  // ---------- the whole stream ----------

  function CharItems(text: seq<nat>): seq<Item> {
    if text == [] then [] else [CharItem(text[0])] + CharItems(text[1..])
  }

  lemma {:induction false} CharItemsConcat(a: seq<nat>, b: seq<nat>)
    ensures CharItems(a + b) == CharItems(a) + CharItems(b)
  {
    if a == [] {
      assert a + b == b;
    } else {
      assert (a + b)[1..] == a[1..] + b;
      CharItemsConcat(a[1..], b);
    }
  }

  function Items(token: Token): seq<Item> {
    match token
    case KeyPress(key) => [KeyItem(key)]
    case TextRun(text) => CharItems(text)
  }

  /** The items at the front of a stream and the bytes that do not form one yet. */
  function Tokenize(s: Bytes): (r: (seq<Item>, Bytes))
    decreases |s|
  {
    if s == [] then ([], [])
    else if s[0] == ESC then
      match EscapeSpec(s)
      case Incomplete => ([], s)
      case Parsed(key, n) => ([KeyItem(key)] + Tokenize(s[n..]).0, Tokenize(s[n..]).1)
    else
      var n := Consumed(s);
      if n == 0 then ([], s)
      else (CharItems(Decode(s[..n])) + Tokenize(s[n..]).0, Tokenize(s[n..]).1)
  }

  /** An incomplete front yields no item. */
  lemma NoItem(s: Bytes)
    requires s != []
    requires if s[0] == ESC then EscapeSpec(s).Incomplete? else Consumed(s) == 0
    ensures Tokenize(s) == ([], s)
  {
    hide EscapeSpec, Consumed, Decode;
  }

  lemma RestStartsNoEscape(s: Bytes)
    requires Consumed(s) > 0
    ensures s != [] && s[0] != ESC
  {
  }

  lemma PrefixesDecode(a: Bytes, t: Bytes)
    requires t != [] && (Consumed(a) < |a| ==> t[0] == a[Consumed(a)])
    ensures Decode(a[..Consumed(a)] + t) == Decode(a[..Consumed(a)]) + Decode(t)
  {
    hide Decode, Scan, Continuation;
    if Consumed(a) < |a| { StopIsNoContinuation(a); }
    DecodeAdds(a, 0, t);
    assert a[0..Consumed(a)] == a[..Consumed(a)];
  }

  /** Text decoded from a part of the stream is a front part of its items. */
  lemma TextFirst(a: Bytes, b: Bytes)
    ensures var n := Consumed(a);
      && Tokenize(a + b).0 == CharItems(Decode(a[..n])) + Tokenize(a[n..] + b).0
      && Tokenize(a + b).1 == Tokenize(a[n..] + b).1
  {
    hide EscapeSpec, Consumed, Decode, Continuation;
    var n := Consumed(a);
    ConsumedAdds(a, b);
    var s, rest := a + b, a[n..] + b;
    assert s[n..] == rest && s[..n] == a[..n];
    if n > 0 {
      RestStartsNoEscape(a);
      assert s[0] == a[0];
      var m := Consumed(rest);
      if m > 0 {
        RestStartsNoEscape(rest);
        assert s[..n + m] == s[..n] + rest[..m] && s[n + m..] == rest[m..];
        PrefixesDecode(a, rest[..m]);
        CharItemsConcat(Decode(s[..n]), Decode(rest[..m]));
      }
    } else {
      assert a[n..] == a && a[..n] == [];
      NothingDecoded();
    }
  }

  lemma EscapeFirst(a: Bytes, b: Bytes)
    requires a != [] && a[0] == ESC && EscapeSpec(a).Parsed?
    ensures var e := EscapeSpec(a);
      && Tokenize(a + b).0 == [KeyItem(e.key)] + Tokenize(a[e.consumed..] + b).0
      && Tokenize(a + b).1 == Tokenize(a[e.consumed..] + b).1
  {
    EscapeStable(a, b);
    hide EscapeSpec, Consumed, CharItems, Decode;
    var n := EscapeSpec(a).consumed;
    assert (a + b)[n..] == a[n..] + b && (a + b)[0] == ESC;
  }

  /** The items do not depend on how the stream is divided: what is tokenized
      of a + b is what is tokenized of a, followed by what is tokenized of the
      rest of a together with b. */
  lemma {:induction false} TokenizeResumes(a: Bytes, b: Bytes)
    ensures var r := Tokenize(a);
      && Tokenize(a + b).0 == r.0 + Tokenize(r.1 + b).0
      && Tokenize(a + b).1 == Tokenize(r.1 + b).1
    decreases |a|
  {
    hide EscapeSpec, Consumed, CharItems, Decode;
    if a == [] {
      assert a + b == [] + b;
    } else if a[0] == ESC {
      if EscapeSpec(a).Parsed? {
        EscapeFirst(a, b);
        TokenizeResumes(a[EscapeSpec(a).consumed..], b);
      }
    } else {
      TextFirst(a, b);
      if Consumed(a) > 0 { TokenizeResumes(a[Consumed(a)..], b); }
    }
  }

  // ---------- what is typed comes out ----------

  /** What a user does: types a character, presses an arrow key of a terminal in
      normal or application mode, starts or ends a paste, or presses another
      key that sends a control sequence. */
  datatype Stroke =
    | Typed(c: nat)
    | Pressed(key: Key, application: bool)
    | Paste(start: bool)
    | Control(parameters: Bytes, final: nat)

  /** The bytes that the terminal sends for it. */
  function Sent(stroke: Stroke): Bytes {
    match stroke
    case Typed(c) => EncodeOne(c)
    case Pressed(key, application) =>
      [0x1B, if application then 'O' as nat else '[' as nat,
       match key case Up => 'A' as nat case Down => 'B' as nat case Right => 'C' as nat case _ => 'D' as nat]
    case Paste(start) =>
      [0x1B, '[' as nat, '2' as nat, '0' as nat, if start then '0' as nat else '1' as nat, '~' as nat]
    case Control(parameters, final) => [0x1B, '[' as nat] + parameters + [final]
  }

  /** The control sequence is complete and none of those above. */
  ghost predicate IsOther(parameters: Bytes, final: nat) {
    && 0x40 <= final <= 0x7E && (forall b :: b in parameters ==> !(0x40 <= b <= 0x7E))
    && (parameters == [] ==> !('A' as nat <= final <= 'D' as nat))
    && parameters != ['2' as nat, '0' as nat, '0' as nat] && parameters != ['2' as nat, '0' as nat, '1' as nat]
  }

  ghost predicate CanSend(stroke: Stroke) {
    match stroke
    case Typed(c) => Scalar(c) && c != 0x1B
    case Pressed(key, _) => key in {Up, Down, Right, Left}
    case Paste(_) => true
    case Control(parameters, final) => IsOther(parameters, final)
  }

  function ItemOf(stroke: Stroke): Item {
    match stroke
    case Typed(c) => CharItem(c)
    case Pressed(key, _) => KeyItem(key)
    case Paste(_) => KeyItem(Ignore)
    case Control(_, _) => KeyItem(Unknown)
  }

  function SentAll(strokes: seq<Stroke>): Bytes {
    if strokes == [] then [] else Sent(strokes[0]) + SentAll(strokes[1..])
  }

  function ItemsOf(strokes: seq<Stroke>): seq<Item> {
    if strokes == [] then [] else [ItemOf(strokes[0])] + ItemsOf(strokes[1..])
  }

  lemma {:induction false} FinalByteIs(buf: Bytes, i: nat, f: nat)
    requires i <= f < |buf| && IsFinal(buf[f]) && forall k :: i <= k < f ==> !IsFinal(buf[k])
    ensures FinalByte(buf, i) == f
    decreases f - i
  {
    if i < f { FinalByteIs(buf, i + 1, f); }
  }

  /** A control sequence as a whole. */
  lemma ControlParses(parameters: Bytes, final: nat)
    requires IsFinal(final) && forall b :: b in parameters ==> !IsFinal(b)
    ensures var buf := [0x1B, 0x5B] + parameters + [final];
      EscapeSpec(buf) == Parsed(ControlKey(parameters, final), |buf|)
  {
    var buf := [0x1B, 0x5B] + parameters + [final];
    assert buf[2..|buf| - 1] == parameters && buf[0] == ESC && buf[1] == 0x5B;
    FinalByteIs(buf, 2, |buf| - 1);
  }

  lemma PressParses(stroke: Stroke)
    requires stroke.Pressed? && CanSend(stroke)
    ensures EscapeSpec(Sent(stroke)) == Parsed(stroke.key, 3)
  {
    var buf := Sent(stroke);
    if !stroke.application {
      ControlParses([], buf[2]);
      assert [0x1B, 0x5B] + [] + [buf[2]] == buf;
    }
  }

  /** Every key sends one escape sequence that stands for it. */
  lemma StrokeParses(stroke: Stroke)
    requires !stroke.Typed? && CanSend(stroke)
    ensures var buf := Sent(stroke);
      buf != [] && buf[0] == ESC && EscapeSpec(buf) == Parsed(ItemOf(stroke).key, |buf|)
  {
    match stroke
    case Pressed(_, _) => PressParses(stroke);
    case Paste(start) =>
      var parameters: Bytes := [0x32, 0x30, if start then 0x30 else 0x31];
      ControlParses(parameters, 0x7E);
      assert [0x1B, 0x5B] + parameters + [0x7E] == Sent(stroke);
    case Control(parameters, final) => ControlParses(parameters, final);
  }

  /** An encoded character is consumed and decoded as it stands. */
  lemma CharacterDecodes(c: nat)
    requires Scalar(c) && c != ESC
    ensures Consumed(EncodeOne(c)) == |EncodeOne(c)| && Decode(EncodeOne(c)) == [c]
  {
    var buf := EncodeOne(c);
    assert Scan(buf, 0) == |buf| by {
      assert Advance(buf, 0) == |buf|;
      assert Advance(buf, |buf|) == 0;
    }
    FirstOfEncoded(c, []);
    assert buf + [] == buf && buf[|buf|..] == [];
  }

  lemma StrokeFirst(stroke: Stroke, rest: Bytes)
    requires CanSend(stroke)
    ensures Tokenize(Sent(stroke) + rest).0 == [ItemOf(stroke)] + Tokenize(rest).0
    ensures Tokenize(Sent(stroke) + rest).1 == Tokenize(rest).1
  {
    hide Tokenize, EscapeSpec, Consumed, Decode, EncodeOne;
    var buf := Sent(stroke);
    assert buf[|buf|..] + rest == rest;
    if stroke.Typed? {
      CharacterDecodes(stroke.c);
      TextFirst(buf, rest);
      assert buf[..|buf|] == buf && [stroke.c][1..] == [];
    } else {
      StrokeParses(stroke);
      EscapeFirst(buf, rest);
    }
  }

  /** Whatever is typed and pressed comes out of the stream of bytes, key by key
      and character by character, with nothing left over. */
  lemma {:induction false} StrokesComeOut(strokes: seq<Stroke>)
    requires forall i :: 0 <= i < |strokes| ==> CanSend(strokes[i])
    ensures Tokenize(SentAll(strokes)) == (ItemsOf(strokes), [])
  {
    hide Sent, ItemOf, CanSend, EscapeSpec, Consumed, Decode;
    if strokes != [] {
      StrokesComeOut(strokes[1..]);
      StrokeFirst(strokes[0], SentAll(strokes[1..]));
    }
  }

  /** The reader's buffer and the pieces that reading the terminal will return.
      Waiting for more bytes never times out. */
  class Reader {
    var keyBuf: Bytes
    var input: seq<Bytes>

    constructor (pieces: seq<Bytes>)
      ensures keyBuf == [] && input == pieces
    {
      keyBuf, input := [], pieces;
    }

    /** All bytes not yet returned. */
    ghost function Stream(): Bytes
      reads this
    {
      keyBuf + Flatten(input)
    }

    /** Appends the next piece to the buffer; false if there is none. */
    method ReadMore() returns (more: bool)
      modifies this
      ensures more == (old(input) != [])
      ensures more ==> input == old(input)[1..] && keyBuf == old(keyBuf) + old(input)[0]
      ensures !more ==> input == old(input) && keyBuf == old(keyBuf)
      ensures Stream() == old(Stream())
    {
      if input == [] { return false; }
      keyBuf := keyBuf + input[0];
      input := input[1..];
      return true;
    }

    /** What a call that returns `token` takes off the stream `before`; None
        means that the whole input has been read and what is left of it is no
        complete key. */
    ghost predicate Takes(before: Bytes, token: Option<Token>)
      reads this
    {
      match token
      case None => input == [] && keyBuf == before && Tokenize(keyBuf) == ([], keyBuf)
      case Some(t) =>
        && Tokenize(before).0 == Items(t) + Tokenize(Stream()).0
        && Tokenize(before).1 == Tokenize(Stream()).1
        && |Stream()| < |before|
    }

    /** The branch of read_key for a buffer that starts with ESC. */
    method ReadEscape() returns (token: Option<Token>)
      requires keyBuf != [] && keyBuf[0] == ESC
      modifies this
      ensures Takes(old(Stream()), token)
    {
      hide Takes, EscapeSpec;
      ghost var before := Stream();
      var more := true;
      var escape := ParseEscape(keyBuf);
      while more && escape.Incomplete?
        invariant Stream() == before && (!more ==> input == [])
        invariant keyBuf != [] && keyBuf[0] == ESC && escape == EscapeSpec(keyBuf)
        decreases |input| + (if more then 1 else 0)
      {
        more := ReadMore();
        escape := ParseEscape(keyBuf);
      }
      if escape.Incomplete? {
        NothingEscaped();
        return None;
      }
      ghost var buf := keyBuf;
      keyBuf := keyBuf[escape.consumed..];
      KeyTaken(buf);
      return Some(KeyPress(escape.key));
    }

    lemma NothingEscaped()
      requires keyBuf != [] && keyBuf[0] == ESC && EscapeSpec(keyBuf).Incomplete? && input == []
      ensures Takes(Stream(), None)
    {
      hide EscapeSpec, Tokenize;
      assert Stream() == keyBuf;
      NoItem(keyBuf);
    }

    lemma KeyTaken(buf: Bytes)
      requires buf != [] && buf[0] == ESC && EscapeSpec(buf).Parsed? && keyBuf == buf[EscapeSpec(buf).consumed..]
      ensures Takes(buf + Flatten(input), Some(KeyPress(EscapeSpec(buf).key)))
    {
      hide EscapeSpec, Tokenize;
      EscapeFirst(buf, Flatten(input));
    }

    /** The branch of read_key for text. */
    method ReadText() returns (token: Option<Token>)
      requires keyBuf != [] && keyBuf[0] != ESC
      modifies this
      ensures Takes(old(Stream()), token)
    {
      hide Takes, Consumed, Decode;
      ghost var before := Stream();
      var more := true;
      var text, rest := DecodePrefix(keyBuf);
      while more && rest == keyBuf
        invariant Stream() == before && (!more ==> input == [])
        invariant keyBuf != [] && keyBuf[0] != ESC
        invariant text == Decode(keyBuf[..Consumed(keyBuf)]) && rest == keyBuf[Consumed(keyBuf)..]
        decreases |input| + (if more then 1 else 0)
      {
        more := ReadMore();
        text, rest := DecodePrefix(keyBuf);
      }
      if rest == keyBuf {
        assert |rest| == |keyBuf| - Consumed(keyBuf);
        NothingRead();
        return None;
      }
      ghost var buf := keyBuf;
      keyBuf := rest;
      TextTaken(buf);
      return Some(TextRun(text));
    }

    lemma NothingRead()
      requires keyBuf != [] && keyBuf[0] != ESC && Consumed(keyBuf) == 0 && input == []
      ensures Takes(Stream(), None)
    {
      hide Consumed, Tokenize, EscapeSpec, Items;
      assert Stream() == keyBuf;
      NoItem(keyBuf);
    }

    lemma TextTaken(buf: Bytes)
      requires buf != [] && keyBuf == buf[Consumed(buf)..] && keyBuf != buf
      ensures Takes(buf + Flatten(input), Some(TextRun(Decode(buf[..Consumed(buf)]))))
    {
      hide Consumed, Decode, Tokenize;
      TextFirst(buf, Flatten(input));
    }

    /** Returns the next key or run of text. */
    method ReadKey() returns (token: Option<Token>)
      modifies this
      ensures Takes(old(Stream()), token)
    {
      var more := true;
      while more && keyBuf == []
        invariant Stream() == old(Stream()) && (!more ==> input == [])
        decreases |input| + (if more then 1 else 0)
      {
        more := ReadMore();
      }
      if keyBuf == [] { return None; }
      hide Takes;
      if keyBuf[0] == ESC {
        token := ReadEscape();
      } else {
        token := ReadText();
      }
    }

    /** Reads keys until no complete one is left. The items returned and the
        bytes left over are a function of the concatenated input alone. */
    method ReadAll() returns (items: seq<Item>)
      modifies this
      ensures items == Tokenize(old(Stream())).0
      ensures input == [] && keyBuf == Tokenize(old(Stream())).1
    {
      hide Tokenize, Items, Stream;
      items := [];
      while true
        invariant Tokenize(old(Stream())).0 == items + Tokenize(Stream()).0
        invariant Tokenize(old(Stream())).1 == Tokenize(Stream()).1
        decreases |Stream()|
      {
        var token := ReadKey();
        if token.None? { return; }
        items := items + Items(token.value);
      }
    }
  }

  /** Two readers that get the same bytes in different pieces return the same
      keys and text, and are left with the same bytes. */
  method SameForEveryChunking(a: seq<Bytes>, b: seq<Bytes>)
    returns (x: seq<Item>, y: seq<Item>, restX: Bytes, restY: Bytes)
    requires Flatten(a) == Flatten(b)
    ensures x == y && restX == restY
    ensures x == Tokenize(Flatten(a)).0 && restX == Tokenize(Flatten(a)).1
  {
    var first := new Reader(a);
    var second := new Reader(b);
    assert first.Stream() == Flatten(a) && second.Stream() == Flatten(b);
    x := first.ReadAll();
    y := second.ReadAll();
    restX, restY := first.keyBuf, second.keyBuf;
  }
}
