// Byte strings read as numbers, most or least significant byte first.
module Numbers {
  import opened Bytes

  function Digit(b: bv8): (d: nat)
    ensures d < 0x100
  {
    b as nat
  }

  function BigEndian(s: seq<bv8>): nat
  {
    if s == [] then 0 else BigEndian(s[..|s| - 1]) * 0x100 + Digit(s[|s| - 1])
  }

  function LittleEndian(s: seq<bv8>): nat
  {
    if s == [] then 0 else Digit(s[0]) + 0x100 * LittleEndian(s[1..])
  }

  function Power256(n: nat): nat
  {
    if n == 0 then 1 else 0x100 * Power256(n - 1)
  }

  lemma {:induction false} BigEndianAppend(a: seq<bv8>, b: seq<bv8>)
    ensures BigEndian(a + b) == BigEndian(a) * Power256(|b|) + BigEndian(b)
    decreases |b|
  {
    if b == [] {
      assert a + b == a;
    } else {
      var n := |b| - 1;
      assert (a + b)[..|a + b| - 1] == a + b[..n];
      BigEndianAppend(a, b[..n]);
      Distribute(BigEndian(a), Power256(n), BigEndian(b[..n]));
    }
  }

  lemma Distribute(x: nat, p: nat, y: nat)
    ensures (x * p + y) * 0x100 == x * (0x100 * p) + y * 0x100
  {}

  lemma {:induction false} LittleEndianAppend(a: seq<bv8>, b: seq<bv8>)
    ensures LittleEndian(a + b) == LittleEndian(a) + Power256(|a|) * LittleEndian(b)
    decreases |a|
  {
    if a == [] {
      assert a + b == b;
    } else {
      assert (a + b)[1..] == a[1..] + b;
      LittleEndianAppend(a[1..], b);
      Spread(LittleEndian(a[1..]), Power256(|a| - 1), LittleEndian(b));
    }
  }

  lemma Spread(x: nat, p: nat, y: nat)
    ensures 0x100 * (x + p * y) == 0x100 * x + 0x100 * p * y
  {}

  // Strings of the same length that read the same are the same.
  lemma {:induction false} BigEndianInjective(a: seq<bv8>, b: seq<bv8>)
    requires |a| == |b| && BigEndian(a) == BigEndian(b)
    ensures a == b
    decreases |a|
  {
    if a != [] {
      var n := |a| - 1;
      LastDigit(BigEndian(a[..n]), Digit(a[n]), BigEndian(b[..n]), Digit(b[n]));
      BigEndianInjective(a[..n], b[..n]);
      DigitInjective(a[n], b[n]);
      assert a == a[..n] + [a[n]] && b == b[..n] + [b[n]];
    }
  }

  lemma LastDigit(q: nat, d: nat, q': nat, d': nat)
    requires d < 0x100 && d' < 0x100 && q * 0x100 + d == q' * 0x100 + d'
    ensures q == q' && d == d'
  {}

  lemma DigitInjective(a: bv8, b: bv8)
    requires Digit(a) == Digit(b)
    ensures a == b
  {}

  lemma {:induction false} ZerosRead(n: nat)
    ensures BigEndian(Zeros(n)) == 0
  {
    if n > 0 {
      assert Zeros(n)[..n - 1] == Zeros(n - 1);
      ZerosRead(n - 1);
    }
  }

  lemma BigEndian4(a: bv8, b: bv8, c: bv8, d: bv8)
    ensures BigEndian([a, b, c, d]) == Digit(a) * 0x1000000 + Digit(b) * 0x10000 + Digit(c) * 0x100 + Digit(d)
  {
    assert [a, b, c, d][..3] == [a, b, c] && [a, b, c][..2] == [a, b] && [a, b][..1] == [a];
    assert BigEndian([a]) == Digit(a);
    assert BigEndian([a, b]) == Digit(a) * 0x100 + Digit(b);
    assert BigEndian([a, b, c]) == (Digit(a) * 0x100 + Digit(b)) * 0x100 + Digit(c);
  }

  lemma LittleEndian4(a: bv8, b: bv8, c: bv8, d: bv8)
    ensures LittleEndian([a, b, c, d]) == Digit(a) + Digit(b) * 0x100 + Digit(c) * 0x10000 + Digit(d) * 0x1000000
  {
    assert [a, b, c, d][1..] == [b, c, d] && [b, c, d][1..] == [c, d] && [c, d][1..] == [d];
    assert LittleEndian([d]) == Digit(d);
    assert LittleEndian([c, d]) == Digit(c) + 0x100 * Digit(d);
    assert LittleEndian([b, c, d]) == Digit(b) + 0x100 * (Digit(c) + 0x100 * Digit(d));
  }

  lemma Powers()
    ensures Power256(4) == 0x1_0000_0000 && Power256(8) == 0x1_0000_0000_0000_0000
  {
    assert Power256(1) == 0x100 && Power256(2) == 0x1_0000;
    assert Power256(4) == 0x100 * 0x100 * Power256(2);
    assert Power256(6) == 0x100 * 0x100 * Power256(4);
  }

  // The four digits of a 32-bit number.
  lemma Digits(n: nat)
    requires n < 0x1_0000_0000
    ensures n / 0x1000000 < 0x100
    ensures n == n / 0x1000000 * 0x1000000 + n / 0x10000 % 0x100 * 0x10000 + n / 0x100 % 0x100 * 0x100 + n % 0x100
  {
    var q := n / 0x100;
    var r := q / 0x100;
    assert q / 0x100 == n / 0x10000 && r / 0x100 == n / 0x1000000;
  }

  lemma DigitOf(n: nat)
    requires n < 0x100
    ensures Digit(n as bv8) == n
  {}

  lemma HalfDigit(b: bv8)
    ensures Digit(b >> 1) == Digit(b) / 2
    ensures b & 1 != 0 <==> Digit(b) % 2 == 1
  {}
}
