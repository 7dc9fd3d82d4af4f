/** Numbers and their digits: uintToBase, ultoa and atoul of Userland/uCodeModule/lib.c. Characters are
    their codes. */
module Digits {
  import opened Arithmetic

  const INT_LIMIT: nat := 0x8000_0000

  function Digit(d: nat): (c: nat)
    requires d < 36
    ensures c != 0 && DigitValue(c) == d
  {
    if d < 10 then d + 48 else d + 55
  }

  /** The digits are those of the usual alphabet. */
  lemma DigitsInOrder(d: nat)
    requires d < 36
    ensures Digit(d) == "0123456789ABCDEFGHIJKLMNOPQRSTUVWXYZ"[d] as int
  {
  }

  function DigitValue(c: nat): int { if c < 58 then c - 48 else c - 55 }

  /** A digit of the base, written as the source does. */
  predicate IsDigit(c: nat, base: nat) { (48 <= c < 58 || 65 <= c < 91) && DigitValue(c) < base }

  predicate AllDigits(s: seq<nat>, base: nat) { forall i :: 0 <= i < |s| ==> IsDigit(s[i], base) }

  /** The number a string of digits stands for. */
  function Eval(s: seq<nat>, base: nat): int {
    if s == [] then 0 else Eval(s[..|s| - 1], base) * base + DigitValue(s[|s| - 1])
  }

  function Numeral(value: nat, base: nat): (s: seq<nat>)
    requires 2 <= base <= 36
    ensures s != [] && AllDigits(s, base)
    decreases value
  {
    if value < base then [Digit(value)] else Shrinks(value, base); Numeral(value / base, base) + [Digit(value % base)]
  }

  lemma Shrinks(value: nat, base: nat)
    requires 2 <= base <= value
    ensures 0 < value / base < value && value == value / base * base + value % base
  {
    var q := value / base;
    assert value == q * base + value % base;
    if q >= value {
      MulMono(value, q, 2, base);
    }
  }

  lemma EvalAppend(s: seq<nat>, c: nat, base: nat)
    ensures Eval(s + [c], base) == Eval(s, base) * base + DigitValue(c)
  {
    assert (s + [c])[..|s|] == s;
  }

  /** The numeral of a number stands for it. */
  lemma {:induction false} NumeralValue(value: nat, base: nat)
    requires 2 <= base <= 36
    ensures Eval(Numeral(value, base), base) == value
    decreases value
  {
    if value < base {
      EvalAppend([], Digit(value), base);
      assert [] + [Digit(value)] == [Digit(value)];
    } else {
      Shrinks(value, base);
      NumeralValue(value / base, base);
      EvalAppend(Numeral(value / base, base), Digit(value % base), base);
    }
  }

  lemma {:induction false} EvalNonNegative(s: seq<nat>, base: nat)
    requires AllDigits(s, base)
    ensures Eval(s, base) >= 0
  {
    if s != [] {
      EvalNonNegative(s[..|s| - 1], base);
      MulMono(0, Eval(s[..|s| - 1], base), 0, base);
    }
  }

  /** `s` is the end of `t`, and only zeros come before it. */
  ghost predicate Padded(t: seq<nat>, s: seq<nat>) {
    |s| <= |t| && s == t[|t| - |s|..] && forall i :: 0 <= i < |t| - |s| ==> t[i] == Digit(0)
  }

  lemma PaddedMore(t: seq<nat>, s: seq<nat>, c: nat)
    requires Padded(t, s)
    ensures Padded(t + [c], s + [c]) && (s == [Digit(0)] ==> Padded(t + [c], [c]))
  {
  }

  lemma NumeralOf(v: nat, q: nat, d: nat, base: nat)
    requires 2 <= base <= 36 && d < base && v == q * base + d
    ensures Numeral(v, base) == if q == 0 then [Digit(d)] else Numeral(q, base) + [Digit(d)]
  {
    DivUnique(v, base, q, d);
    if q > 0 {
      MulMono(1, q, base, base);
    }
  }

  /** A string of digits of a number is its numeral after some zeros, so the numeral is the shortest. */
  lemma {:induction false} NumeralMinimal(t: seq<nat>, base: nat)
    requires 2 <= base <= 36 && t != [] && AllDigits(t, base)
    ensures Eval(t, base) >= 0 && Padded(t, Numeral(Eval(t, base), base))
  {
    var n := |t| - 1;
    var q, d := Eval(t[..n], base), DigitValue(t[n]);
    EvalNonNegative(t[..n], base);
    MulMono(0, q, 0, base);
    var v: nat := Eval(t, base);
    NumeralOf(v, q, d, base);
    assert Digit(d) == t[n] && t == t[..n] + [t[n]];
    if n > 0 {
      NumeralMinimal(t[..n], base);
      PaddedMore(t[..n], Numeral(q, base), t[n]);
    }
  }

  // ---- uintToBase

  function Reversed(s: seq<nat>): (r: seq<nat>)
    ensures |r| == |s| && forall i :: 0 <= i < |r| ==> r[i] == s[|s| - 1 - i]
  {
    seq(|s|, i requires 0 <= i < |s| => s[|s| - 1 - i])
  }

  lemma NumeralStep(value: nat, base: nat)
    requires 2 <= base <= 36
    ensures value / base == 0 ==> Numeral(value, base) == [Digit(value % base)]
    ensures value / base != 0 ==> Numeral(value, base) == Numeral(value / base, base) + [Digit(value % base)]
  {
    if value >= base {
      Shrinks(value, base);
    } else {
      DivUnique(value, base, 0, value);
    }
  }

  /** If the first `k` digits of `w` are the numeral of `v`, its last digit and its quotient are known. */
  lemma LastDigit(v: nat, base: nat, w: seq<nat>, k: nat)
    requires 2 <= base <= 36 && k <= |w| && Numeral(v, base) == w[..k]
    ensures 0 <= v % base < base && w[k - 1] == Digit(v % base)
    ensures 0 < k && 0 <= v / base && (k > 1 <==> v / base != 0)
    ensures k > 1 ==> v / base < v && Numeral(v / base, base) == w[..k - 1]
  {
    NumeralStep(v, base);
    if v >= base {
      Shrinks(v, base);
      assert w[..k][..k - 1] == w[..k - 1];
    } else {
      DivUnique(v, base, 0, v);
    }
  }

  /** The digits from the last to the first, and a NUL. */
  method WriteBackwards(value: nat, buffer: array<nat>, base: nat) returns (digits: nat)
    requires 2 <= base <= 36 && buffer.Length > |Numeral(value, base)|
    modifies buffer
    ensures digits == |Numeral(value, base)| && buffer[..digits] == Reversed(Numeral(value, base))
    ensures buffer[digits] == 0 && forall i :: digits < i < buffer.Length ==> buffer[i] == old(buffer[i])
  {
    ghost var w := Numeral(value, base);
    var v: nat, more := value, true;
    digits := 0;
    while more
      invariant 0 <= digits <= |w| && (more <==> digits < |w|)
      invariant more ==> Numeral(v, base) == w[..|w| - digits]
      invariant forall i :: 0 <= i < digits ==> buffer[i] == w[|w| - 1 - i]
      invariant forall i :: digits <= i < buffer.Length ==> buffer[i] == old(buffer[i])
      decreases more, v
    {
      LastDigit(v, base, w, |w| - digits);
      var remainder := v % base;
      buffer[digits] := if remainder < 10 then remainder + 48 else remainder + 65 - 10;
      digits := digits + 1;
      v := v / base;
      more := v != 0;
    }
    buffer[digits] := 0;
  }

  method Reverse(buffer: array<nat>, n: nat)
    requires n <= buffer.Length
    modifies buffer
    ensures buffer[..n] == Reversed(old(buffer[..n]))
    ensures forall i :: n <= i < buffer.Length ==> buffer[i] == old(buffer[i])
  {
    var p1, p2 := 0, n - 1;
    while p1 < p2
      invariant 0 <= p1 && p2 == n - 1 - p1 && p1 <= p2 + 2
      invariant forall i :: p1 <= i <= p2 ==> buffer[i] == old(buffer[i])
      invariant forall i :: (0 <= i < p1 || p2 < i < n) ==> buffer[i] == old(buffer[n - 1 - i])
      invariant forall i :: n <= i < buffer.Length ==> buffer[i] == old(buffer[i])
      decreases p2 - p1
    {
      buffer[p1], buffer[p2] := buffer[p2], buffer[p1];
      p1, p2 := p1 + 1, p2 - 1;
    }
  }

  /** Leaves the numeral of `value` in the buffer, closed by a NUL, and touches nothing after it. */
  method UintToBase(value: nat, buffer: array<nat>, base: nat) returns (digits: nat)
    requires 2 <= base <= 36 && buffer.Length > |Numeral(value, base)|
    modifies buffer
    ensures digits == |Numeral(value, base)|
    ensures buffer[..digits + 1] == Numeral(value, base) + [0] && buffer[digits + 1..] == old(buffer[digits + 1..])
  {
    digits := WriteBackwards(value, buffer, base);
    Reverse(buffer, digits);
    assert buffer[..digits] == Numeral(value, base);
  }

  // ---- ultoa

  /** Writes the decimal digits from the last place to the first. */
  method Ultoa(number: nat, str: array<nat>) returns (digits: nat)
    requires number < MODULUS && str.Length > |Numeral(number, 10)|
    modifies str
    ensures digits == |Numeral(number, 10)|
    ensures str[..digits + 1] == Numeral(number, 10) + [0] && str[digits + 1..] == old(str[digits + 1..])
  {
    digits := CountDigits(number);
    if digits == 1 {
      str[0] := 48 + number;
      str[1] := 0;
      assert str[..2] == [Digit(number), 0];
      return;
    }
    str[digits] := 0;
    FillBack(number, str, digits);
    assert str[..digits + 1] == str[..digits] + [0];
  }

  method FillBack(number: nat, str: array<nat>, digits: nat)
    requires digits == |Numeral(number, 10)| < str.Length
    modifies str
    ensures str[..digits] == Numeral(number, 10) && forall j :: digits <= j < str.Length ==> str[j] == old(str[j])
  {
    ghost var w := Numeral(number, 10);
    var rest: nat, i := number, digits - 1;
    while i >= 0
      invariant -1 <= i < digits
      invariant i >= 0 ==> Numeral(rest, 10) == w[..i + 1]
      invariant forall j :: i < j < digits ==> str[j] == w[j]
      invariant forall j :: digits <= j < str.Length ==> str[j] == old(str[j])
    {
      LastDigit(rest, 10, w, i + 1);
      str[i] := rest % 10 + 48;
      rest := rest / 10;
      i := i - 1;
    }
  }

  method CountDigits(number: nat) returns (digits: nat)
    ensures digits == |Numeral(number, 10)|
    ensures digits == 1 ==> number < 10
  {
    digits := 1;
    var n: nat := number / 10;
    NumeralStep(number, 10);
    while n != 0
      invariant |Numeral(number, 10)| == digits + if n == 0 then 0 else |Numeral(n, 10)|
      invariant digits == 1 ==> n == number / 10
    {
      NumeralStep(n, 10);
      digits, n := digits + 1, n / 10;
    }
  }

  // ---- atoul

  predicate IsDecimal(c: nat) { 48 <= c < 58 }

  /** The decimal digits at the start of a string. */
  function Leading(s: seq<nat>): (k: nat)
    ensures k <= |s| && (forall i :: 0 <= i < k ==> IsDecimal(s[i])) && (k < |s| ==> !IsDecimal(s[k]))
  {
    if s == [] || !IsDecimal(s[0]) then 0 else 1 + Leading(s[1..])
  }

  /** A number cut to a 32-bit int with wrap-around. */
  function Int32(x: int): (r: int)
    ensures 0 - 0x8000_0000 <= r < 0x8000_0000 && (r - x) % 0x1_0000_0000 == 0
  {
    var y := x % (2 * INT_LIMIT);
    if y < INT_LIMIT then y else y - 2 * INT_LIMIT
  }

  /** An int extended to an unsigned 64-bit word. */
  function Extended(x: int): (r: nat)
    requires 0 - INT_LIMIT <= x < INT_LIMIT
    ensures r < 0x1_0000_0000_0000_0000 && (r - x) % 0x1_0000_0000_0000_0000 == 0
  {
    if x < 0 then x + MODULUS else x
  }

  lemma Int32Step(x: int, d: int)
    ensures Int32(Int32(x) * 10 + d) == Int32(x * 10 + d)
  {
    var m := 2 * INT_LIMIT;
    assert x == x / m * m + x % m;
    var k := if x % m < INT_LIMIT then x / m else x / m + 1;
    assert Int32(x) == x - k * m;
    assert Int32(x) * 10 + d == x * 10 + d - (10 * k) * m;
    Multiple(x * 10 + d, 10 * k, m);
  }

  lemma Multiple(x: int, k: int, m: nat)
    requires m > 0
    ensures (x - k * m) % m == x % m
  {
    assert x - k * m == m * (x / m - k) + x % m;
    DivUnique(x - k * m, m, x / m - k, x % m);
  }

  /** atoul keeps its result in an int. */
  method Atoul(str: array<nat>) returns (r: nat)
    requires exists i :: 0 <= i < str.Length && str[i] == 0
    ensures r == Extended(Int32(Eval(str[..Leading(str[..])], 10)))
  {
    var result, i := 0, 0;
    ghost var n := Leading(str[..]);
    assert n < str.Length;
    while str[i] != 0
      invariant 0 <= i <= n && result == Int32(Eval(str[..i], 10))
      invariant i < str.Length
      decreases n - i
    {
      assert str[..][i] == str[i];
      if 48 <= str[i] <= 57 {
        assert str[..i + 1] == str[..i] + [str[i]];
        EvalAppend(str[..i], str[i], 10);
        Int32Step(Eval(str[..i], 10), str[i] - 48);
        result := Int32(result * 10 + (str[i] - 48));
        i := i + 1;
      } else {
        break;
      }
    }
    assert i == n;
    r := Extended(result);
  }

  lemma FitsInt(n: nat)
    requires n < MODULUS
    ensures Extended(Int32(n)) == n <==> n < INT_LIMIT || n >= MODULUS - INT_LIMIT
  {
  }

  lemma LeadingIs(s: seq<nat>, k: nat)
    requires k < |s| && (forall i :: 0 <= i < k ==> IsDecimal(s[i])) && !IsDecimal(s[k])
    ensures Leading(s) == k
  {
  }

  /** Reading back what was written gives the number, exactly if it fits an int, or is a negative int
      extended to a word. */
  lemma ReadsBack(n: nat, rest: seq<nat>)
    requires n < MODULUS
    ensures var s := Numeral(n, 10) + [0] + rest;
            Leading(s) == |Numeral(n, 10)|
            && (Extended(Int32(Eval(s[..Leading(s)], 10))) == n <==> n < INT_LIMIT || n >= MODULUS - INT_LIMIT)
  {
    var d := Numeral(n, 10);
    var s := d + [0] + rest;
    LeadingIs(s, |d|);
    assert s[..|d|] == d;
    NumeralValue(n, 10);
    FitsInt(n);
  }

  /** So an address below 2^31 gets through the argument of a philosopher. */
  method PassAddress(address: nat, buffer: array<nat>) returns (r: nat)
    requires address < INT_LIMIT && buffer.Length > |Numeral(address, 10)|
    modifies buffer
    ensures r == address
  {
    var digits := Ultoa(address, buffer);
    assert buffer[digits] == buffer[..digits + 1][digits] == 0;
    assert buffer[..] == Numeral(address, 10) + [0] + buffer[digits + 1..];
    ReadsBack(address, buffer[digits + 1..]);
    r := Atoul(buffer);
  }
}
