/** Decimal text of integers, as `std::to_string` writes it and `std::stoi` reads it. */
module Decimal {
  import opened Bytes

  const ZERO: byte := 48
  const MINUS: byte := 45
  const INT_MIN: int := -0x8000_0000
  const INT_MAX: int := 0x7fff_ffff

  predicate IsDigit(c: byte) { 48 <= c <= 57 }

  predicate AllDigits(s: seq<byte>) { forall i :: 0 <= i < |s| ==> IsDigit(s[i]) }

  /** The decimal digits of `n`. */
  function Digits(n: nat): (s: seq<byte>)
    ensures |s| > 0 && AllDigits(s) && (s[0] == ZERO <==> n == 0)
  {
    if n < 10 then [48 + n] else Digits(n / 10) + [48 + n % 10]
  }

  /** The value of a string of digits. */
  function Value(s: seq<byte>): nat
    requires AllDigits(s)
  {
    if s == [] then 0 else 10 * Value(s[..|s| - 1]) + (s[|s| - 1] - 48)
  }

  lemma {:induction false} ValueDigits(n: nat)
    ensures Value(Digits(n)) == n
  {
    var s := Digits(n);
    if n < 10 {
      assert s[..0] == [];
    } else {
      ValueDigits(n / 10);
      assert s[..|s| - 1] == Digits(n / 10);
    }
  }

  /** Digits come back exactly when there is no superfluous leading zero. */
  lemma {:induction false} DigitsValue(s: seq<byte>)
    requires AllDigits(s) && s != []
    ensures Digits(Value(s)) == s <==> s[0] != ZERO || |s| == 1
    ensures s[0] != ZERO ==> Value(s) > 0
  {
    var t := s[..|s| - 1];
    if t == [] {
      assert s == [s[0]] && Value(t) == 0;
    } else {
      DigitsValue(t);
      var v, d := Value(t), s[|s| - 1] - 48;
      assert Value(s) == 10 * v + d && (10 * v + d) / 10 == v && (10 * v + d) % 10 == d;
      assert s == t + [s[|s| - 1]];
      if s[0] != ZERO {
        assert Digits(Value(s)) == Digits(v) + [48 + d];
      } else if v == 0 {
        assert |Digits(Value(s))| == 1;
      } else {
        assert Digits(Value(s))[..|Digits(v)|] == Digits(v);
        assert Digits(Value(s)) == s ==> Digits(v) == t;
      }
    }
  }

  /** `std::to_string`. */
  function ToText(i: int): (s: seq<byte>)
    ensures |s| > 0
  {
    if i < 0 then [MINUS] + Digits(-i) else Digits(i)
  }

  /** What `Str` takes for an integer: digits, after an optional sign; also the empty string. */
  predicate IntegerShaped(s: seq<byte>) {
    if |s| > 1 && s[0] == MINUS then AllDigits(s[1..]) else AllDigits(s)
  }

  /** The value `std::stoi` reads from such a string. */
  function Stoi(s: seq<byte>): int
    requires IntegerShaped(s)
  {
    if |s| > 1 && s[0] == MINUS then -(Value(s[1..]) as int) else Value(s)
  }

  lemma StoiToText(i: int)
    ensures IntegerShaped(ToText(i)) && Stoi(ToText(i)) == i
  {
    var s := ToText(i);
    if i < 0 {
      ValueDigits(-i);
      assert s[1..] == Digits(-i);
    } else {
      ValueDigits(i);
      assert IsDigit(s[0]);
    }
  }

  /** No leading zero, no negative zero, not empty. */
  predicate Canonical(s: seq<byte>) {
    if |s| > 1 && s[0] == MINUS then s[1] != ZERO else |s| == 1 || (|s| > 1 && s[0] != ZERO)
  }

  /** An integer-shaped text comes back from its value exactly when it is canonical. */
  lemma ToTextStoi(s: seq<byte>)
    requires IntegerShaped(s)
    ensures ToText(Stoi(s)) == s <==> Canonical(s)
  {
    if |s| > 1 && s[0] == MINUS {
      DigitsValue(s[1..]);
      assert s == [MINUS] + s[1..];
      if Stoi(s) == 0 {
        assert ToText(0) == [ZERO];
      } else {
        assert ToText(Stoi(s))[1..] == Digits(Value(s[1..]));
        if Canonical(s) { assert s[1..][0] == s[1]; }
        if ToText(Stoi(s)) == s && |s| == 2 { assert Value(s[1..]) == s[1] - 48 by { assert s[1..][..0] == []; } }
      }
    } else if s != [] {
      DigitsValue(s);
    }
  }
}
