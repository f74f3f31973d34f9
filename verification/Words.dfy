/** Arithmetic of machine words: quotients, and the four bytes of a 32-bit word. */
module Words {
  /** Byte `r` (0 lowest) of a 32-bit word. */
  function GetByte(w: int, r: nat): (b: nat)
    requires r < 4
    ensures b < 256
  {
    if r == 0 then w % 0x100
    else if r == 1 then w / 0x100 % 0x100
    else if r == 2 then w / 0x1_0000 % 0x100
    else w / 0x100_0000 % 0x100
  }

  function Weight(r: nat): nat
    requires r < 4
  {
    if r == 0 then 1 else if r == 1 then 0x100 else if r == 2 then 0x1_0000 else 0x100_0000
  }

  /** The word with byte `r` replaced. */
  function PutByte(w: int, r: nat, v: nat): int
    requires r < 4 && v < 256
  {
    w + (v - GetByte(w, r)) * Weight(r)
  }

  lemma Digits(w: int) returns (b0: nat, b1: nat, b2: nat, b3: nat, h: int)
    ensures b0 < 256 && b1 < 256 && b2 < 256 && b3 < 256
    ensures w == b0 + 0x100 * b1 + 0x1_0000 * b2 + 0x100_0000 * b3 + 0x1_0000_0000 * h
  {
    b0 := w % 256;
    var w1 := w / 256;
    b1 := w1 % 256;
    var w2 := w1 / 256;
    b2 := w2 % 256;
    var w3 := w2 / 256;
    b3 := w3 % 256;
    h := w3 / 256;
  }

  lemma MulStep(d: nat, q: int, q': int)
    requires q < q'
    ensures d * q + d <= d * q'
  {
    var k := q' - q - 1;
    assert q' == q + 1 + k && d * k >= 0;
    assert d * q' == d * q + d + d * k;
  }

  lemma UniqueQuotient(d: nat, q: int, r: int, q': int, r': int)
    requires 0 <= r < d && 0 <= r' < d && d * q + r == d * q' + r'
    ensures q == q' && r == r'
  {
    if q < q' {
      MulStep(d, q, q');
    } else if q' < q {
      MulStep(d, q', q);
    }
  }

  lemma Split(a: int, q: int, d: nat)
    requires 0 <= a < d
    ensures (a + d * q) / d == q && (a + d * q) % d == a
  {
    var x := a + d * q;
    UniqueQuotient(d, q, a, x / d, x % d);
  }

  lemma GetDigits(b0: nat, b1: nat, b2: nat, b3: nat, h: int)
    requires b0 < 256 && b1 < 256 && b2 < 256 && b3 < 256
    ensures var w := b0 + 0x100 * b1 + 0x1_0000 * b2 + 0x100_0000 * b3 + 0x1_0000_0000 * h;
      GetByte(w, 0) == b0 && GetByte(w, 1) == b1 && GetByte(w, 2) == b2 && GetByte(w, 3) == b3
  {
    Split(b0, b1 + 0x100 * b2 + 0x1_0000 * b3 + 0x100_0000 * h, 0x100);
    Split(b0 + 0x100 * b1, b2 + 0x100 * b3 + 0x1_0000 * h, 0x1_0000);
    Split(b0 + 0x100 * b1 + 0x1_0000 * b2, b3 + 0x100 * h, 0x100_0000);
    Split(b1, b2 + 0x100 * b3 + 0x1_0000 * h, 0x100);
    Split(b2, b3 + 0x100 * h, 0x100);
    Split(b3, h, 0x100);
  }

  lemma GetPut(w: int, r: nat, v: nat, q: nat)
    requires r < 4 && v < 256 && q < 4
    ensures GetByte(PutByte(w, r, v), q) == if q == r then v else GetByte(w, q)
  {
    var b0, b1, b2, b3, h := Digits(w);
    GetDigits(b0, b1, b2, b3, h);
    GetDigits(if r == 0 then v else b0, if r == 1 then v else b1,
              if r == 2 then v else b2, if r == 3 then v else b3, h);
  }
}
