/** Natural numbers in decimal notation. */
module Decimal {
  import opened Outcomes
  import opened Text

  predicate IsDigit(c: nat) { 0x30 <= c <= 0x39 }

  predicate AllDigits(s: Text) { forall i :: 0 <= i < |s| ==> IsDigit(s[i]) }

  function Print(n: nat): Text {
    if n < 10 then [0x30 + n] else Print(n / 10) + [0x30 + n % 10]
  }

  /** The number that a string of digits denotes. */
  function Value(s: Text): nat
    requires AllDigits(s)
  {
    if s == [] then 0 else 10 * Value(s[..|s| - 1]) + (s[|s| - 1] - 0x30)
  }

  /** Printing and reading back; the printed form has no leading zero. */
  lemma {:induction false} ValueOfPrint(n: nat)
    ensures Print(n) != [] && AllDigits(Print(n)) && Value(Print(n)) == n
    ensures Print(n)[0] == 0x30 ==> n == 0 && Print(n) == [0x30]
  {
    if n >= 10 {
      ValueOfPrint(n / 10);
      assert Print(n)[..|Print(n)| - 1] == Print(n / 10);
    } else {
      assert Print(n)[..0] == [];
    }
  }

  lemma PrintInjective(m: nat, n: nat)
    requires Print(m) == Print(n)
    ensures m == n
  {
    ValueOfPrint(m);
    ValueOfPrint(n);
  }

  // ---------- Go's int ----------

  type Int = n: int | -0x8000_0000_0000_0000 <= n < 0x8000_0000_0000_0000

  /** strconv.Itoa */
  function Itoa(n: int): Text { if n < 0 then [0x2D] + Print(-n) else Print(n) }

  /** strconv.Atoi */
  function Atoi(s: Text): Option<int> {
    var signed := s != [] && (s[0] == 0x2D || s[0] == 0x2B);
    var digits := if signed then s[1..] else s;
    if digits == [] || !AllDigits(digits) then None
    else
      var magnitude: int := Value(digits);
      var n := if signed && s[0] == 0x2D then -magnitude else magnitude;
      if -0x8000_0000_0000_0000 <= n < 0x8000_0000_0000_0000 then Some(n) else None
  }

  lemma ItoaShape(n: int)
    ensures var s := Itoa(n); var m: int := if n < 0 then -n else n;
      && s != [] && AllDigits(Print(m)) && Value(Print(m)) == m && Print(m) != []
      && (if n < 0 then s[0] == 0x2D && s[1..] == Print(m) else s == Print(m) && IsDigit(s[0]))
      && IsDigit(s[|s| - 1])
  {
    hide Print, Value;
    var m: int := if n < 0 then -n else n;
    ValueOfPrint(m);
  }

  lemma AtoiOfItoa(n: Int)
    ensures Atoi(Itoa(n)) == Some(n)
  {
    hide Print, Value, Itoa, AllDigits;
    ItoaShape(n);
  }
}
