/** Number printing and reading of `lib/stdlib.c`. */
module Numbers {
  import opened Words

  function Digit(d: nat): char
    requires d < 36
  {
    if d > 9 then (d - 10) as char + 'a' else d as char + '0'
  }

  function DigitValue(c: char): int {
    if '0' <= c <= '9' then c as int - '0' as int else c as int - 'a' as int + 10
  }

  /** The digits of `u`, least significant first, as the digit loops leave them. */
  function Emit(u: nat, base: nat): (s: seq<char>)
    requires 2 <= base <= 36
    ensures (s == []) == (u == 0)
    decreases u
  {
    if u == 0 then [] else
      Smaller(u, base);
      [Digit(u % base)] + Emit(u / base, base)
  }

  lemma Doubled(q: nat, base: nat)
    requires 2 <= base
    ensures 2 * q <= q * base
  {
    if 2 < base { MulStep(q, 2, base); }
  }

  lemma Smaller(u: nat, base: nat)
    requires 0 < u && 2 <= base
    ensures 0 <= u / base < u && 0 <= u % base < base && u == (u / base) * base + u % base && 2 * (u / base) <= u
  {
    Doubled(u / base, base);
  }

  function Reversed(s: seq<char>): (r: seq<char>)
    ensures |r| == |s| && forall i | 0 <= i < |s| :: r[i] == s[|s| - 1 - i]
  {
    if s == [] then [] else Reversed(s[1..]) + [s[0]]
  }

  /** The number a digit string stands for, most significant digit first. */
  function Eval(s: seq<char>, base: nat): int {
    if s == [] then 0 else Eval(s[..|s| - 1], base) * base + DigitValue(s[|s| - 1])
  }

  lemma DigitExact(d: nat)
    requires d < 36
    ensures DigitValue(Digit(d)) == d && (d != 0 ==> Digit(d) != '0')
    ensures Digit(d) == "0123456789abcdefghijklmnopqrstuvwxyz"[d]
  {
  }

  /** Printing is exact: the reversed digits stand for the number, without a leading zero. */
  lemma {:induction false} EmitExact(u: nat, base: nat)
    requires 2 <= base <= 36
    ensures Eval(Reversed(Emit(u, base)), base) == u
    ensures u != 0 ==> Reversed(Emit(u, base))[0] != '0'
    decreases u
  {
    if u != 0 {
      Smaller(u, base);
      var q, d := u / base, u % base;
      EmitExact(q, base);
      DigitExact(d);
      var r, t := Reversed(Emit(u, base)), Reversed(Emit(q, base));
      assert Emit(u, base)[1..] == Emit(q, base);
      assert r == t + [Digit(d)];
      assert r[..|r| - 1] == t;
      assert Eval(r, base) == Eval(t, base) * base + d;
    }
  }

  function Pow2(n: nat): nat {
    if n == 0 then 1 else 2 * Pow2(n - 1)
  }

  /** Numbers below 2^n need at most n digits in any base. */
  lemma {:induction false} EmitLength(u: nat, base: nat, n: nat)
    requires 2 <= base <= 36 && u < Pow2(n)
    ensures |Emit(u, base)| <= n
    decreases n
  {
    if u != 0 {
      Smaller(u, base);
      var q := u / base;
      EmitLength(q, base, n - 1);
    }
  }

  /** Digits are letters or decimal digits, in particular not the terminator. */
  lemma {:induction false} EmitDigits(u: nat, base: nat)
    requires 2 <= base <= 36
    ensures forall i | 0 <= i < |Emit(u, base)| :: Emit(u, base)[i] != '\0' && Emit(u, base)[i] != '-'
    ensures base == 10 ==> forall i | 0 <= i < |Emit(u, base)| :: '0' <= Emit(u, base)[i] <= '9'
    decreases u
  {
    if u != 0 {
      Smaller(u, base);
      EmitDigits(u / base, base);
    }
  }

  /** `reverse_string`; with length 0 the source's unsigned index wraps around, so callers pass at least 1. */
  method ReverseString(str: array<char>, length: nat)
    requires 1 <= length <= str.Length
    modifies str
    ensures str[..length] == Reversed(old(str[..length])) && str[length..] == old(str[length..])
  {
    var start, end := 0, length - 1;
    while start < end
      invariant 0 <= start <= end + 1 && start + end == length - 1
      invariant forall k | 0 <= k < start :: str[k] == old(str[length - 1 - k]) && str[length - 1 - k] == old(str[k])
      invariant forall k | start <= k <= end :: str[k] == old(str[k])
      invariant forall k | length <= k < str.Length :: str[k] == old(str[k])
    {
      str[start], str[end] := str[end], str[start];
      start, end := start + 1, end - 1;
    }
    assert forall k | 0 <= k < length :: str[k] == old(str[..length])[length - 1 - k];
  }

  lemma EmitStep(u: nat, base: nat)
    requires 2 <= base <= 36 && u != 0
    ensures Emit(u, base) == [Digit(u % base)] + Emit(u / base, base)
  {
  }

  lemma EmitNone(base: nat)
    requires 2 <= base <= 36
    ensures Emit(0, base) == []
  {
  }

  /** The digit loop of `itoa` and `utoa`: `str` holds the digits from `i` on. */
  method EmitDigitsTo(u: nat, str: array<char>, base: nat) returns (i: nat)
    requires 2 <= base <= 36 && |Emit(u, base)| <= str.Length
    modifies str
    ensures i == |Emit(u, base)| && str[..i] == Emit(u, base)
  {
    hide Emit;
    i := 0;
    var value: nat := u;
    while value != 0
      invariant i <= str.Length && str[..i] + Emit(value, base) == Emit(u, base)
      decreases value
    {
      Smaller(value, base);
      EmitStep(value, base);
      var rem := value % base;
      assert |str[..i]| + |Emit(value, base)| <= str.Length;
      ghost var before := str[..i];
      str[i] := if rem > 9 then (rem - 10) as char + 'a' else rem as char + '0';
      assert str[..i + 1] == before + [Digit(rem)];
      assert before + ([Digit(rem)] + Emit(value / base, base)) == str[..i + 1] + Emit(value / base, base);
      i := i + 1;
      value := value / base;
    }
    EmitNone(base);
  }

  const TWO32: int := 0x1_0000_0000

  predicate Int32(v: int) {
    -0x8000_0000 <= v < 0x8000_0000
  }

  /** The magnitude `itoa` prints: of the value itself in base 10, of its 32-bit pattern otherwise. */
  function Magnitude(v: int, base: nat): nat
    requires Int32(v)
  {
    if v < 0 && base == 10 then -v else if v < 0 then v + TWO32 else v
  }

  /** The text of `v` in `base`. */
  function Text(v: int, base: nat): seq<char>
    requires Int32(v) && 2 <= base <= 36
  {
    if v == 0 then "0"
    else (if v < 0 && base == 10 then "-" else "") + Reversed(Emit(Magnitude(v, base), base))
  }

  /** The NUL-terminated string at the start of a buffer is `s`. */
  ghost predicate Holds(str: array<char>, s: seq<char>)
    reads str
  {
    |s| < str.Length && str[..|s|] == s && str[|s|] == '\0' && forall i | 0 <= i < |s| :: s[i] != '\0'
  }

  lemma Fits(u: nat, base: nat)
    requires u < TWO32 && 2 <= base <= 36
    ensures |Emit(u, base)| <= 32
  {
    assert Pow2(8) == 256;
    assert Pow2(16) == 0x1_0000;
    assert Pow2(24) == 0x100_0000;
    assert Pow2(32) == TWO32;
    EmitLength(u, base, 32);
  }

  lemma ReversedDigits(u: nat, base: nat)
    requires 2 <= base <= 36
    ensures forall i | 0 <= i < |Emit(u, base)| :: Reversed(Emit(u, base))[i] != '\0'
  {
    EmitDigits(u, base);
  }

  lemma ReversedSign(s: seq<char>)
    ensures Reversed(s + ['-']) == ['-'] + Reversed(s)
  {
  }

  /** `itoa` */
  method Itoa(value: int, str: array<char>, base: int)
    requires Int32(value) && 34 <= str.Length
    modifies str
    ensures base < 2 || base > 36 ==> Holds(str, [])
    ensures 2 <= base <= 36 ==> Holds(str, Text(value, base))
  {
    hide Emit;
    if base < 2 || base > 36 {
      str[0] := '\0';
      return;
    }
    if value == 0 {
      str[0] := '0';
      str[1] := '\0';
      return;
    }
    var negative := false;
    var uvalue: nat;
    if value < 0 && base == 10 {
      negative := true;
      uvalue := -(value + 1) + 1;
    } else {
      uvalue := value % TWO32;
    }
    assert uvalue == Magnitude(value, base);
    PrintDigits(uvalue, negative, str, base);
  }

  /** The end of `itoa`: digits, sign, terminator, and the reversal of all but the terminator. */
  method PrintDigits(u: nat, negative: bool, str: array<char>, base: nat)
    requires 0 < u < TWO32 && 2 <= base <= 36 && 34 <= str.Length
    modifies str
    ensures Holds(str, (if negative then "-" else "") + Reversed(Emit(u, base)))
  {
    hide Emit;
    Fits(u, base);
    ReversedDigits(u, base);
    var i := EmitDigitsTo(u, str, base);
    ghost var digits := Emit(u, base);
    if negative {
      str[i] := '-';
      i := i + 1;
      assert str[..i] == digits + ['-'];
      ReversedSign(digits);
    }
    ghost var emitted := str[..i];
    str[i] := '\0';
    assert str[..i] == emitted;
    ReverseString(str, i);
    assert str[i] == str[i..][0];
  }

  /** `utoa` */
  method Utoa(num: nat, str: array<char>, base: nat)
    requires num < TWO32 && 34 <= str.Length && 2 <= base <= 36
    modifies str
    ensures Holds(str, if num == 0 then "0" else Reversed(Emit(num, base)))
  {
    if num == 0 {
      str[0] := '0';
      str[1] := '\0';
      return;
    }
    Fits(num, base);
    ReversedDigits(num, base);
    var i := EmitDigitsTo(num, str, base);
    ghost var emitted := str[..i];
    str[i] := '\0';
    assert str[..i] == emitted;
    ReverseString(str, i);
    assert str[i] == str[i..][0];
  }

  /** The number a printed text stands for. */
  function Meaning(s: seq<char>, base: nat): int {
    if s != [] && s[0] == '-' then -Eval(s[1..], base) else Eval(s, base)
  }

  lemma ZeroExact(base: nat)
    ensures Eval("0", base) == 0
  {
    assert "0"[..0] == [];
    assert Eval([], base) * base == 0;
  }

  lemma PositiveText(u: nat, base: nat)
    requires 0 < u && 2 <= base <= 36
    ensures var r := Reversed(Emit(u, base));
      && r != [] && r[0] != '-' && r[0] != '0'
      && Meaning(r, base) == u && Meaning("-" + r, base) + u == 0
  {
    hide Eval, Reversed, Emit;
    EmitExact(u, base);
    EmitDigits(u, base);
    var r := Reversed(Emit(u, base));
    assert r[0] == Emit(u, base)[|r| - 1];
    assert ("-" + r)[1..] == r;
  }

  /** Printing loses nothing: the text determines the value (modulo 2^32 for negative numbers outside base 10). */
  lemma TextExact(v: int, base: nat)
    requires Int32(v) && 2 <= base <= 36
    ensures Meaning(Text(v, base), base) == (if v < 0 && base != 10 then v + TWO32 else v)
    ensures v != 0 ==> Text(v, base)[if v < 0 && base == 10 then 1 else 0] != '0'
    ensures v < 0 && base == 10 <==> Text(v, base)[0] == '-'
  {
    ZeroExact(base);
    if v != 0 {
      hide Eval, Meaning, Reversed, Emit;
      var u := Magnitude(v, base);
      PositiveText(u, base);
      assert "" + Reversed(Emit(u, base)) == Reversed(Emit(u, base));
    }
  }

  /** The end of the run of decimal digits from `i` on. */
  function DigitsEnd(s: seq<char>, i: nat): (e: nat)
    requires i <= |s|
    ensures i <= e <= |s| && (forall j | i <= j < e :: '0' <= s[j] <= '9') && (e < |s| ==> !('0' <= s[e] <= '9'))
    decreases |s| - i
  {
    if i < |s| && '0' <= s[i] <= '9' then DigitsEnd(s, i + 1) else i
  }

  /** `atoi` on a NUL-terminated string `s`. */
  method Atoi(s: seq<char>) returns (res: int)
    ensures res == Eval(s[..DigitsEnd(s, 0)], 10)
  {
    res := 0;
    var i := 0;
    while i < |s| && '0' <= s[i] <= '9'
      invariant 0 <= i <= |s| && DigitsEnd(s, i) == DigitsEnd(s, 0) && i <= DigitsEnd(s, 0)
      invariant res == Eval(s[..i], 10)
    {
      assert s[..i + 1][..i] == s[..i];
      res := res * 10 + (s[i] as int - '0' as int);
      i := i + 1;
    }
  }

  /** Reading back a printed non-negative number gives that number. */
  method PrintThenRead(v: int) returns (r: int)
    requires 0 <= v && Int32(v)
    ensures r == v
  {
    var str := new char[34](_ => '\0');
    Itoa(v, str, 10);
    ghost var t := Text(v, 10);
    assert forall k | 0 <= k < |t| :: str[k] == str[..|t|][k] == t[k];
    var n := 0;
    while str[n] != '\0'
      invariant n <= |t| && forall k | 0 <= k < |t| :: str[k] == t[k]
      decreases |t| - n
    {
      n := n + 1;
    }
    assert n == |t| && str[..n] == t;
    r := Atoi(str[..n]);
    TextExact(v, 10);
    TextDigits(v);
    assert t[..|t|] == t;
  }

  lemma TextDigits(v: int)
    requires 0 <= v && Int32(v)
    ensures DigitsEnd(Text(v, 10), 0) == |Text(v, 10)| && (Text(v, 10) != [] ==> Text(v, 10)[0] != '-')
  {
    EmitDigits(v, 10);
  }
}
