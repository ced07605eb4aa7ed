// aes_gen_tables of share/crypto/aes.c, the tables computed at start-up when they are not in ROM:
// logarithms to base 3 in GF(2^8), and from them the S-boxes and the round tables.
module AesGenTables {
  import opened Bytes
  import opened Gf256
  import opened AesTables
  import opened AesSpec
  import opened AesWords
  import opened AesKey
  import opened AesSbox

  // ----- powers and logarithms -----

  // 3 to the power i.
  function Pow3(i: nat): bv8
  {
    if i == 0 then 1 else M3(Pow3(i - 1))
  }

  // z times 3 to the power i.
  function Times3(i: nat, z: bv8): bv8
  {
    if i == 0 then z else M3(Times3(i - 1, z))
  }

  // The exponent of a power of 3; 0 has none.
  function LogB(x: bv8): bv8
  {
    match x >> 4
    case 0 =>
      (match x & 0xf
       case 0 => 0x00 case 1 => 0x00 case 2 => 0x19 case 3 => 0x01
       case 4 => 0x32 case 5 => 0x02 case 6 => 0x1A case 7 => 0xC6
       case 8 => 0x4B case 9 => 0xC7 case 10 => 0x1B case 11 => 0x68
       case 12 => 0x33 case 13 => 0xEE case 14 => 0xDF case _ => 0x03)
    case 1 =>
      (match x & 0xf
       case 0 => 0x64 case 1 => 0x04 case 2 => 0xE0 case 3 => 0x0E
       case 4 => 0x34 case 5 => 0x8D case 6 => 0x81 case 7 => 0xEF
       case 8 => 0x4C case 9 => 0x71 case 10 => 0x08 case 11 => 0xC8
       case 12 => 0xF8 case 13 => 0x69 case 14 => 0x1C case _ => 0xC1)
    case 2 =>
      (match x & 0xf
       case 0 => 0x7D case 1 => 0xC2 case 2 => 0x1D case 3 => 0xB5
       case 4 => 0xF9 case 5 => 0xB9 case 6 => 0x27 case 7 => 0x6A
       case 8 => 0x4D case 9 => 0xE4 case 10 => 0xA6 case 11 => 0x72
       case 12 => 0x9A case 13 => 0xC9 case 14 => 0x09 case _ => 0x78)
    case 3 =>
      (match x & 0xf
       case 0 => 0x65 case 1 => 0x2F case 2 => 0x8A case 3 => 0x05
       case 4 => 0x21 case 5 => 0x0F case 6 => 0xE1 case 7 => 0x24
       case 8 => 0x12 case 9 => 0xF0 case 10 => 0x82 case 11 => 0x45
       case 12 => 0x35 case 13 => 0x93 case 14 => 0xDA case _ => 0x8E)
    case 4 =>
      (match x & 0xf
       case 0 => 0x96 case 1 => 0x8F case 2 => 0xDB case 3 => 0xBD
       case 4 => 0x36 case 5 => 0xD0 case 6 => 0xCE case 7 => 0x94
       case 8 => 0x13 case 9 => 0x5C case 10 => 0xD2 case 11 => 0xF1
       case 12 => 0x40 case 13 => 0x46 case 14 => 0x83 case _ => 0x38)
    case 5 =>
      (match x & 0xf
       case 0 => 0x66 case 1 => 0xDD case 2 => 0xFD case 3 => 0x30
       case 4 => 0xBF case 5 => 0x06 case 6 => 0x8B case 7 => 0x62
       case 8 => 0xB3 case 9 => 0x25 case 10 => 0xE2 case 11 => 0x98
       case 12 => 0x22 case 13 => 0x88 case 14 => 0x91 case _ => 0x10)
    case 6 =>
      (match x & 0xf
       case 0 => 0x7E case 1 => 0x6E case 2 => 0x48 case 3 => 0xC3
       case 4 => 0xA3 case 5 => 0xB6 case 6 => 0x1E case 7 => 0x42
       case 8 => 0x3A case 9 => 0x6B case 10 => 0x28 case 11 => 0x54
       case 12 => 0xFA case 13 => 0x85 case 14 => 0x3D case _ => 0xBA)
    case 7 =>
      (match x & 0xf
       case 0 => 0x2B case 1 => 0x79 case 2 => 0x0A case 3 => 0x15
       case 4 => 0x9B case 5 => 0x9F case 6 => 0x5E case 7 => 0xCA
       case 8 => 0x4E case 9 => 0xD4 case 10 => 0xAC case 11 => 0xE5
       case 12 => 0xF3 case 13 => 0x73 case 14 => 0xA7 case _ => 0x57)
    case 8 =>
      (match x & 0xf
       case 0 => 0xAF case 1 => 0x58 case 2 => 0xA8 case 3 => 0x50
       case 4 => 0xF4 case 5 => 0xEA case 6 => 0xD6 case 7 => 0x74
       case 8 => 0x4F case 9 => 0xAE case 10 => 0xE9 case 11 => 0xD5
       case 12 => 0xE7 case 13 => 0xE6 case 14 => 0xAD case _ => 0xE8)
    case 9 =>
      (match x & 0xf
       case 0 => 0x2C case 1 => 0xD7 case 2 => 0x75 case 3 => 0x7A
       case 4 => 0xEB case 5 => 0x16 case 6 => 0x0B case 7 => 0xF5
       case 8 => 0x59 case 9 => 0xCB case 10 => 0x5F case 11 => 0xB0
       case 12 => 0x9C case 13 => 0xA9 case 14 => 0x51 case _ => 0xA0)
    case 10 =>
      (match x & 0xf
       case 0 => 0x7F case 1 => 0x0C case 2 => 0xF6 case 3 => 0x6F
       case 4 => 0x17 case 5 => 0xC4 case 6 => 0x49 case 7 => 0xEC
       case 8 => 0xD8 case 9 => 0x43 case 10 => 0x1F case 11 => 0x2D
       case 12 => 0xA4 case 13 => 0x76 case 14 => 0x7B case _ => 0xB7)
    case 11 =>
      (match x & 0xf
       case 0 => 0xCC case 1 => 0xBB case 2 => 0x3E case 3 => 0x5A
       case 4 => 0xFB case 5 => 0x60 case 6 => 0xB1 case 7 => 0x86
       case 8 => 0x3B case 9 => 0x52 case 10 => 0xA1 case 11 => 0x6C
       case 12 => 0xAA case 13 => 0x55 case 14 => 0x29 case _ => 0x9D)
    case 12 =>
      (match x & 0xf
       case 0 => 0x97 case 1 => 0xB2 case 2 => 0x87 case 3 => 0x90
       case 4 => 0x61 case 5 => 0xBE case 6 => 0xDC case 7 => 0xFC
       case 8 => 0xBC case 9 => 0x95 case 10 => 0xCF case 11 => 0xCD
       case 12 => 0x37 case 13 => 0x3F case 14 => 0x5B case _ => 0xD1)
    case 13 =>
      (match x & 0xf
       case 0 => 0x53 case 1 => 0x39 case 2 => 0x84 case 3 => 0x3C
       case 4 => 0x41 case 5 => 0xA2 case 6 => 0x6D case 7 => 0x47
       case 8 => 0x14 case 9 => 0x2A case 10 => 0x9E case 11 => 0x5D
       case 12 => 0x56 case 13 => 0xF2 case 14 => 0xD3 case _ => 0xAB)
    case 14 =>
      (match x & 0xf
       case 0 => 0x44 case 1 => 0x11 case 2 => 0x92 case 3 => 0xD9
       case 4 => 0x23 case 5 => 0x20 case 6 => 0x2E case 7 => 0x89
       case 8 => 0xB4 case 9 => 0x7C case 10 => 0xB8 case 11 => 0x26
       case 12 => 0x77 case 13 => 0x99 case 14 => 0xE3 case _ => 0xA5)
    case _ =>
      (match x & 0xf
       case 0 => 0x67 case 1 => 0x4A case 2 => 0xED case 3 => 0xDE
       case 4 => 0xC5 case 5 => 0x31 case 6 => 0xFE case 7 => 0x18
       case 8 => 0x0D case 9 => 0x63 case 10 => 0x8C case 11 => 0x80
       case 12 => 0xC0 case 13 => 0xF7 case 14 => 0x70 case _ => 0x07)
  }

  // Division by 3.
  function D3(x: bv8): bv8
  {
    Product(x, 0xF6)
  }

  lemma PowZero()
    ensures Pow3(0) == 1
  {}

  // The step of the loop, x plus its double.
  lemma TripleIs(x: bv8)
    ensures XorByte(x, XTime(x)) == M3(x)
  {
    hide XTime, XorByte;
    XorComm(x, XTime(x));
  }

  lemma LogStep(x: bv8)
    requires x != 0
    ensures M3(x) != 0 && LogB(M3(x)) == if LogB(x) == 254 then 0 else LogB(x) + 1
  {}

  lemma LogBounds(x: bv8)
    ensures LogB(x) != 255 && LogB(1) == 0
    ensures x != 0 && LogB(x) == 0 ==> x == 1
  {}

  lemma TripledThird(x: bv8)
    ensures M3(D3(x)) == x && M3(0) == 0
  {}

  lemma LogBack(x: bv8)
    requires x != 0 && LogB(x) != 0
    ensures M3(D3(x)) == x && D3(x) != 0 && LogB(D3(x)) == LogB(x) - 1
  {
    hide D3, M3, LogB;
    TripledThird(x);
    LogStep(D3(x));
  }

  lemma ByE(x: bv8)
    ensures Product(0x0E, x) == ME(x)
  {
    match x & 0xf
    case 0 => case 1 => case 2 => case 3 => case 4 => case 5 => case 6 => case 7 =>
    case 8 => case 9 => case 10 => case 11 => case 12 => case 13 => case 14 => case _ =>
  }

  lemma By9(x: bv8)
    ensures Product(0x09, x) == M9(x)
  {
    match x & 0xf
    case 0 => case 1 => case 2 => case 3 => case 4 => case 5 => case 6 => case 7 =>
    case 8 => case 9 => case 10 => case 11 => case 12 => case 13 => case 14 => case _ =>
  }

  lemma ByD(x: bv8)
    ensures Product(0x0D, x) == MD(x)
  {
    match x & 0xf
    case 0 => case 1 => case 2 => case 3 => case 4 => case 5 => case 6 => case 7 =>
    case 8 => case 9 => case 10 => case 11 => case 12 => case 13 => case 14 => case _ =>
  }

  lemma ByB(x: bv8)
    ensures Product(0x0B, x) == MB(x)
  {
    match x & 0xf
    case 0 => case 1 => case 2 => case 3 => case 4 => case 5 => case 6 => case 7 =>
    case 8 => case 9 => case 10 => case 11 => case 12 => case 13 => case 14 => case _ =>
  }

  lemma ProductOne(z: bv8)
    ensures Product(1, z) == z
  {}

  // A byte as an index.
  function Ix(b: bv8): (i: nat)
    ensures i < 256
  {
    b as int
  }

  lemma Succ(b: bv8)
    requires b != 255
    ensures Ix(b + 1) == Ix(b) + 1 && Ix(b) < 255
  {}

  lemma Same(a: bv8, b: bv8)
    requires Ix(a) == Ix(b)
    ensures a == b
  {}

  lemma SmallIx()
    ensures Ix(0) == 0 && Ix(1) == 1 && Ix(254) == 254
  {}

  lemma ByZero(x: bv8)
    ensures Product(x, 0) == 0 && Product(0, x) == 0
  {}

  function Log(x: bv8): nat { Ix(LogB(x)) }

  lemma LogNext(x: bv8)
    requires x != 0
    ensures Log(x) < 255 && M3(x) != 0 && Log(M3(x)) == if Log(x) == 254 then 0 else Log(x) + 1
  {
    hide LogB, M3, Ix;
    SmallIx();
    LogStep(x);
    LogBounds(x);
    Succ(LogB(x));
    Succ(254);
    if Log(x) == 254 {
      Same(LogB(x), 254);
    }
  }

  lemma LogOne(x: bv8)
    ensures Log(x) < 255 && Log(1) == 0
    ensures x != 0 && Log(x) == 0 ==> x == 1
  {
    hide LogB, Ix;
    SmallIx();
    LogBounds(x);
    Succ(LogB(x));
    if Log(x) == 0 {
      Same(LogB(x), 0);
    }
  }

  lemma {:induction false} LogOfPow(i: nat)
    requires i < 255
    ensures Pow3(i) != 0 && Log(Pow3(i)) == i
  {
    hide Log, M3;
    if i == 0 {
      LogOne(1);
    } else {
      LogOfPow(i - 1);
      LogNext(Pow3(i - 1));
    }
  }

  lemma PowCycle()
    ensures Pow3(255) == 1
  {
    hide Log, M3;
    LogOfPow(254);
    LogNext(Pow3(254));
    LogOne(Pow3(255));
  }

  lemma {:induction false} PowOfLog(x: bv8)
    requires x != 0
    ensures Pow3(Log(x)) == x
    decreases Log(x)
  {
    hide LogB, M3, D3;
    LogOne(x);
    if Log(x) != 0 {
      LogBack(x);
      LogNext(D3(x));
      PowOfLog(D3(x));
    }
  }

  lemma {:induction false} TimesPow(i: nat, j: nat)
    ensures Times3(i, Pow3(j)) == Pow3(i + j)
  {
    hide M3;
    if i > 0 {
      TimesPow(i - 1, j);
    }
  }

  lemma {:induction false} PowMod(k: nat)
    ensures Pow3(k % 255) == Pow3(k)
  {
    hide M3, Pow3;
    if k >= 255 {
      PowMod(k - 255);
      assert (k - 255) % 255 == k % 255;
      TimesPow(k - 255, 255);
      TimesPow(k - 255, 0);
      PowCycle();
      PowZero();
    }
  }

  lemma TripledTime(a: bv8)
    ensures XTime(M3(a)) == M3(XTime(a))
  {
    hide XTime, XorByte;
    XTimeLinear(XTime(a), a);
  }

  lemma TripledWhen(c: bool, v: bv8)
    ensures M3(When(c, v)) == When(c, M3(v))
  {}

  lemma TripledSum(a: bv8, b: bv8, c: bv8, d: bv8)
    ensures M3(Sum(a, b, c, d)) == Sum(M3(a), M3(b), M3(c), M3(d))
  {
    hide XorByte, M3;
    MulLinear(a, b);
    MulLinear(c, d);
    MulLinear(XorByte(a, b), XorByte(c, d));
  }

  lemma TripledMultiples(a: bv8, b: bv8, c: bv8, d: bv8, p: bool, q: bool, r: bool, t: bool)
    ensures M3(Multiples(a, b, c, d, p, q, r, t)) == Multiples(M3(a), M3(b), M3(c), M3(d), p, q, r, t)
  {
    hide M3, Sum, When;
    TripledSum(When(p, a), When(q, b), When(r, c), When(t, d));
    TripledWhen(p, a);
    TripledWhen(q, b);
    TripledWhen(r, c);
    TripledWhen(t, d);
  }

  lemma TripledTimes(a: bv8)
    ensures XTime(M3(a)) == M3(XTime(a)) && XTime(XTime(M3(a))) == M3(XTime(XTime(a)))
    ensures XTime(XTime(XTime(M3(a)))) == M3(XTime(XTime(XTime(a))))
  {
    hide M3, XTime;
    TripledTime(a);
    TripledTime(XTime(a));
    TripledTime(XTime(XTime(a)));
  }

  lemma Tripled(a: bv8, z: bv8)
    ensures Product(M3(a), z) == M3(Product(a, z))
  {
    hide M3, XTime, XorByte, Multiples;
    var a3 := XTime(XTime(XTime(a)));
    var a4 := XTime(a3);
    TripledTimes(a);
    TripledTime(a3);
    TripledTimes(a4);
    TripledMultiples(a, XTime(a), XTime(XTime(a)), a3, z & 0x01 != 0, z & 0x02 != 0, z & 0x04 != 0, z & 0x08 != 0);
    TripledMultiples(a4, XTime(a4), XTime(XTime(a4)), XTime(XTime(XTime(a4))),
                     z & 0x10 != 0, z & 0x20 != 0, z & 0x40 != 0, z & 0x80 != 0);
    MulLinear(Multiples(a, XTime(a), XTime(XTime(a)), a3, z & 0x01 != 0, z & 0x02 != 0, z & 0x04 != 0, z & 0x08 != 0),
              Multiples(a4, XTime(a4), XTime(XTime(a4)), XTime(XTime(XTime(a4))),
                        z & 0x10 != 0, z & 0x20 != 0, z & 0x40 != 0, z & 0x80 != 0));
  }

  lemma {:induction false} ProductPow(i: nat, z: bv8)
    ensures Product(Pow3(i), z) == Times3(i, z)
  {
    hide M3, Product;
    if i == 0 {
      ProductOne(z);
    } else {
      ProductPow(i - 1, z);
      Tripled(Pow3(i - 1), z);
    }
  }

  lemma ProductLogs(x: bv8, y: bv8)
    requires x != 0 && y != 0
    ensures Product(x, y) == Pow3(Log(x) + Log(y))
  {
    hide Log, Product, Pow3, Times3;
    PowOfLog(x);
    PowOfLog(y);
    ProductPow(Log(x), y);
    TimesPow(Log(x), Log(y));
  }

  // The logarithm the loop leaves: 3 to the 255 overwrites the entry of 1.
  function CodeLog(x: bv8): nat
  {
    if x == 1 then 255 else Log(x)
  }

  // Factors of 1 have logarithms that add up to 255, or are 1 both.
  lemma InverseFromLogs(x: bv8, u: bv8)
    requires x != 0 && u != 0 && Product(x, u) == 1
    ensures CodeLog(x) <= 255 && Pow3(255 - CodeLog(x)) == u
  {
    hide Log, Product, Pow3;
    ProductLogs(x, u);
    var s := Log(x) + Log(u);
    PowMod(s);
    LogOne(x);
    LogOne(u);
    LogOfPow(s % 255);
    PowOfLog(u);
    assert s == 0 || s == 255;
    PowZero();
  }

  lemma SboxFromLogs(x: bv8)
    requires x != 0
    ensures CodeLog(x) <= 255 && FSb(x) == Affine(Pow3(255 - CodeLog(x)))
  {
    hide CodeLog, Product, Pow3, FSb, Affine, UnAffine;
    UnAffineInverts(x);
    AffineUndone(x);
    ByZero(x);
    InverseFromLogs(x, UnAffine(FSb(x)));
  }

  // The inverse is unique, so the table is the affine image of the inverse.
  lemma SboxOfInverse(x: bv8, y: bv8)
    requires IsInverse(x, y)
    ensures FSb(x) == Affine(y)
  {
    hide Product, Pow3, CodeLog, Affine;
    if x == 0 {
      SboxOfZero();
    } else {
      ByZero(x);
      InverseFromLogs(x, y);
      SboxFromLogs(x);
    }
  }

  lemma SboxOfZero()
    ensures FSb(0) == Affine(0) == 0x63
  {}

  lemma SboxReverses(y: bv8)
    ensures FSb(RSb(y)) == y
  {
    match y & 0xf
    case 0 => case 1 => case 2 => case 3 => case 4 => case 5 => case 6 => case 7 =>
    case 8 => case 9 => case 10 => case 11 => case 12 => case 13 => case 14 => case _ =>
  }

  // ----- what the loops keep -----

  // The entries of f at the indexes below i.
  ghost predicate Filled<T(!new)>(s: seq<T>, f: bv8 -> T, i: int)
    requires |s| == 256
  {
    forall b: bv8 :: Ix(b) < i ==> s[Ix(b)] == f(b)
  }

  lemma FilledNext<T(!new)>(s: seq<T>, f: bv8 -> T, b: bv8)
    requires |s| == 256 && Filled(s, f, Ix(b))
    ensures Filled(s[Ix(b) := f(b)], f, Ix(b) + 1)
  {
    forall c: bv8 | Ix(c) < Ix(b) + 1 ensures s[Ix(b) := f(b)][Ix(c)] == f(c) {
      if Ix(c) == Ix(b) {
        Same(c, b);
      }
    }
  }

  ghost predicate Logs(log: seq<int>, i: int)
    requires |log| == 256
  {
    forall x: bv8 :: x != 0 && Log(x) < i ==> log[Ix(x)] == if i == 256 then CodeLog(x) else Log(x)
  }

  lemma LogsNext(log: seq<int>, i: nat)
    requires |log| == 256 && i < 256 && Logs(log, i)
    ensures Logs(log[Ix(Pow3(i)) := i], i + 1)
  {
    hide LogB, Pow3, Ix;
    var p := Pow3(i);
    if i < 255 {
      LogOfPow(i);
    } else {
      PowCycle();
    }
    forall x: bv8 | x != 0 && Log(x) < i + 1
      ensures log[Ix(p) := i][Ix(x)] == if i + 1 == 256 then CodeLog(x) else Log(x)
    {
      LogOne(x);
      if Ix(x) == Ix(p) {
        Same(x, p);
      } else if Log(x) == i {
        PowOfLog(x);
      }
    }
  }

  // The tables of powers and logarithms once complete.
  ghost predicate LogTable(pow: seq<bv8>, log: seq<int>)
  {
    && |pow| == |log| == 256
    && (forall k :: 0 <= k < 256 ==> pow[k] == Pow3(k))
    && (forall x: bv8 :: x != 0 ==> log[Ix(x)] == CodeLog(x))
  }

  lemma LogsAll(log: seq<int>)
    requires |log| == 256 && Logs(log, 256)
    ensures forall x: bv8 :: x != 0 ==> log[Ix(x)] == CodeLog(x)
  {
    hide LogB, Ix;
    forall x: bv8 | x != 0 ensures log[Ix(x)] == CodeLog(x) {
      LogOne(x);
    }
  }

  lemma CodeLogRange(x: bv8)
    ensures CodeLog(x) <= 255 && (x != 0 ==> Pow3(CodeLog(x)) == x)
  {
    hide LogB, Pow3, Ix;
    LogOne(x);
    PowCycle();
    if x != 0 {
      PowOfLog(x);
    }
  }

  // MUL
  function Mul(pow: seq<bv8>, log: seq<int>, x: bv8, y: bv8): bv8
    requires |pow| == |log| == 256
  {
    if x != 0 && y != 0 then pow[(log[Ix(x)] + log[Ix(y)]) % 255] else 0
  }

  // Main result: adding logarithms multiplies in the field, for all factors.
  lemma MulIsProduct(pow: seq<bv8>, log: seq<int>, x: bv8, y: bv8)
    requires LogTable(pow, log)
    ensures Mul(pow, log, x, y) == Product(x, y)
  {
    hide Pow3, Product, CodeLog, Log;
    ByZero(x);
    ByZero(y);
    if x != 0 && y != 0 {
      CodeLogRange(x);
      CodeLogRange(y);
      var i, j := CodeLog(x), CodeLog(y);
      PowMod(i + j);
      ProductPow(i, y);
      TimesPow(i, j);
    }
  }

  // The S-box entries of the bytes below i, looked up backwards.
  ghost predicate Backwards(s: seq<bv8>, i: int)
    requires |s| == 256
  {
    forall b: bv8 :: Ix(b) < i ==> s[Ix(FSb(b))] == b
  }

  lemma BackwardsNext(s: seq<bv8>, b: bv8)
    requires |s| == 256 && Backwards(s, Ix(b))
    ensures Backwards(s[Ix(FSb(b)) := b], Ix(b) + 1)
  {
    hide FSb, Ix;
    var t := s[Ix(FSb(b)) := b];
    forall c: bv8 | Ix(c) < Ix(b) + 1 ensures t[Ix(FSb(c))] == c {
      if Ix(FSb(c)) == Ix(FSb(b)) {
        Same(FSb(c), FSb(b));
        SboxInverse(c);
        SboxInverse(b);
      } else if Ix(c) == Ix(b) {
        Same(c, b);
      }
    }
  }

  lemma BackwardsAll(s: seq<bv8>)
    requires |s| == 256 && Backwards(s, 256)
    ensures Filled(s, RSb, 256)
  {
    hide FSb, RSb, Ix;
    forall y: bv8 ensures s[Ix(y)] == RSb(y) {
      SboxReverses(y);
      assert s[Ix(FSb(RSb(y)))] == RSb(y);
    }
  }

  // ----- the entries -----

  // The low eight bits of (y << 1) | (y >> 7).
  function Turn(y: bv8): bv8 { (y << 1) | (y >> 7) }

  lemma TurnsMakeAffine(v: bv8)
    ensures var y1 := Turn(v);
            var y2 := Turn(y1);
            var y3 := Turn(y2);
            var y4 := Turn(y3);
            XorByte(XorByte(XorByte(XorByte(v, y1), y2), y3), XorByte(y4, 0x63)) == Affine(v)
  {}

  // Four bytes joined by exclusive or.
  function Joined(a: bv8, b: bv8, c: bv8, d: bv8): bv32
  {
    Xor32(Xor32(Xor32(a as bv32, P1(b)), P2(c)), P3(d))
  }

  lemma JoinedColumn(a: bv8, b: bv8, c: bv8, d: bv8)
    ensures Column(Joined(a, b, c, d)) == [a, b, c, d]
  {}

  lemma ForwardEntry(i: bv8)
    ensures var x := FSb(i);
            var y := XTime(x);
            Joined(y, x, x, XorByte(y, x)) == FT0(i)
  {
    hide Column, Joined, FT0, FSb, XTime, XorByte;
    var x := FSb(i);
    FT0Column(i);
    JoinedColumn(M2(x), x, x, M3(x));
    SameColumn(Joined(M2(x), x, x, M3(x)), FT0(i));
  }

  lemma ReverseEntry(pow: seq<bv8>, log: seq<int>, i: bv8)
    requires LogTable(pow, log)
    ensures var x := RSb(i);
            Joined(Mul(pow, log, 0x0E, x), Mul(pow, log, 0x09, x), Mul(pow, log, 0x0D, x), Mul(pow, log, 0x0B, x))
              == RT0(i)
  {
    hide Column, Joined, RT0, RSb, ME, M9, MD, MB, Product, Mul, LogTable;
    var x := RSb(i);
    MulIsProduct(pow, log, 0x0E, x);
    MulIsProduct(pow, log, 0x09, x);
    MulIsProduct(pow, log, 0x0D, x);
    MulIsProduct(pow, log, 0x0B, x);
    ByE(x);
    By9(x);
    ByD(x);
    ByB(x);
    RT0Column(i);
    JoinedColumn(ME(x), M9(x), MD(x), MB(x));
    SameColumn(Joined(ME(x), M9(x), MD(x), MB(x)), RT0(i));
  }

  // ----- the loops -----

  class Tables {
    const fsb: array<bv8>
    const rsb: array<bv8>
    const ft0: array<bv32>
    const ft1: array<bv32>
    const ft2: array<bv32>
    const ft3: array<bv32>
    const rt0: array<bv32>
    const rt1: array<bv32>
    const rt2: array<bv32>
    const rt3: array<bv32>
    const rcon: array<bv32>

    ghost function ByteTables(): set<object> { {fsb, rsb} }

    ghost function WordTables(): set<object> { {ft0, ft1, ft2, ft3, rt0, rt1, rt2, rt3, rcon} }

    // The arrays have their sizes and do not overlap.
    ghost predicate Shape()
    {
      && fsb.Length == rsb.Length == 256 && rcon.Length == 10 && fsb != rsb
      && ft0.Length == ft1.Length == ft2.Length == ft3.Length == 256
      && rt0.Length == rt1.Length == rt2.Length == rt3.Length == 256
      && ft0 !in {ft1, ft2, ft3, rt0, rt1, rt2, rt3} && ft1 !in {ft2, ft3, rt0, rt1, rt2, rt3}
      && ft2 !in {ft3, rt0, rt1, rt2, rt3} && ft3 !in {rt0, rt1, rt2, rt3}
      && rt0 !in {rt1, rt2, rt3} && rt1 !in {rt2, rt3} && rt2 != rt3
      && ByteTables() !! WordTables() && rcon !in {ft0, ft1, ft2, ft3, rt0, rt1, rt2, rt3}
    }

    constructor ()
      ensures Shape() && fresh(fsb) && fresh(rsb) && fresh(rcon)
      ensures fresh(ft0) && fresh(ft1) && fresh(ft2) && fresh(ft3)
      ensures fresh(rt0) && fresh(rt1) && fresh(rt2) && fresh(rt3)
    {
      fsb, rsb, rcon := new bv8[256], new bv8[256], new bv32[10];
      ft0, ft1, ft2, ft3 := new bv32[256], new bv32[256], new bv32[256], new bv32[256];
      rt0, rt1, rt2, rt3 := new bv32[256], new bv32[256], new bv32[256], new bv32[256];
    }

    // An object that is none of the tables.
    ghost predicate Outside(a: object)
    {
      a !in ByteTables() && a !in WordTables()
    }

    // The tables of the first i bytes.
    ghost predicate Forward(i: int)
      requires Shape()
      reads ft0, ft1, ft2, ft3
    {
      Filled(ft0[..], FT0, i) && Filled(ft1[..], FT1, i) && Filled(ft2[..], FT2, i) && Filled(ft3[..], FT3, i)
    }

    ghost predicate Reverse(i: int)
      requires Shape()
      reads rt0, rt1, rt2, rt3
    {
      Filled(rt0[..], RT0, i) && Filled(rt1[..], RT1, i) && Filled(rt2[..], RT2, i) && Filled(rt3[..], RT3, i)
    }

    // The logarithm tables, locals of the original.
    method Powers() returns (pow: array<bv8>, log: array<int>)
      ensures fresh(pow) && fresh(log) && LogTable(pow[..], log[..])
    {
      hide LogB, M3, Ix;
      pow, log := new bv8[256], new int[256];
      var i, x := 0, 1;
      while i < 256
        invariant 0 <= i <= 256 && x == Pow3(i)
        invariant forall k :: 0 <= k < i ==> pow[k] == Pow3(k)
        invariant Logs(log[..], i)
      {
        LogsNext(log[..], i);
        ghost var before := log[..];
        pow[i] := x;
        log[Ix(x)] := i;
        assert log[..] == before[Ix(x) := i];
        TripleIs(x);
        x := XorByte(x, XTime(x));
        i := i + 1;
      }
      LogsAll(log[..]);
    }

    method RoundConstants()
      requires Shape()
      modifies rcon
      ensures forall k :: 0 <= k < 10 ==> rcon[k] == RCON(k)
    {
      hide RCON, XTime;
      var i, x := 0, 1;
      while i < 10
        invariant 0 <= i <= 10 && x == RconByte(i + 1)
        invariant forall k :: 0 <= k < i ==> rcon[k] == RCON(k)
      {
        RconEntry(i);
        rcon[i] := x as bv32;
        x := XTime(x);
        i := i + 1;
      }
    }

    // The S-boxes; b is i as a byte.
    method SBoxes(pow: array<bv8>, log: array<int>)
      requires Shape() && LogTable(pow[..], log[..]) && Outside(pow) && Outside(log)
      modifies fsb, rsb
      ensures Filled(fsb[..], FSb, 256) && Filled(rsb[..], RSb, 256)
    {
      hide FSb, RSb, Ix, Affine, Turn, CodeLog, Pow3, Filled, Backwards;
      ghost var p, l := pow[..], log[..];
      FirstEntries(fsb[..], rsb[..]);
      fsb[0] := 0x63;
      rsb[0x63] := 0;
      var i, b: bv8 := 1, 1;
      while i < 256
        invariant 1 <= i <= 256 && (i < 256 ==> Ix(b) == i && b != 0)
        invariant pow[..] == p && log[..] == l
        invariant Filled(fsb[..], FSb, i) && Backwards(rsb[..], i)
      {
        SboxFromLogs(b);
        assert l[Ix(b)] == CodeLog(b) && log[..][i] == log[i];
        var v := pow[255 - log[i]];
        TurnsMakeAffine(v);
        var x, y := v, v;
        y := Turn(y);
        x := XorByte(x, y);
        y := Turn(y);
        x := XorByte(x, y);
        y := Turn(y);
        x := XorByte(x, y);
        y := Turn(y);
        x := XorByte(x, XorByte(y, 0x63));
        assert x == FSb(b);
        FilledNext(fsb[..], FSb, b);
        BackwardsNext(rsb[..], b);
        Store(fsb, i, x);
        Store(rsb, Ix(x), b);
        if i < 255 {
          NextByte(b);
        }
        i, b := i + 1, b + 1;
      }
      BackwardsAll(rsb[..]);
    }

    // The round tables; b is i as a byte.
    method RoundTables(pow: array<bv8>, log: array<int>)
      requires Shape() && LogTable(pow[..], log[..]) && Outside(pow) && Outside(log)
      requires Filled(fsb[..], FSb, 256) && Filled(rsb[..], RSb, 256)
      modifies ft0, ft1, ft2, ft3, rt0, rt1, rt2, rt3
      ensures Forward(256) && Reverse(256)
    {
      hide FSb, RSb, FT0, FT1, FT2, FT3, RT0, RT1, RT2, RT3, Ix, Filled, Forward, Reverse, Mul, Joined, LogTable;
      NothingFilled();
      ghost var p, l, f, r := pow[..], log[..], fsb[..], rsb[..];
      var i, b: bv8 := 0, 0;
      while i < 256
        invariant 0 <= i <= 256 && (i < 256 ==> Ix(b) == i)
        invariant pow[..] == p && log[..] == l && fsb[..] == f && rsb[..] == r
        invariant Forward(i) && Reverse(i)
      {
        FilledAt(fsb[..], FSb, b);
        FilledAt(rsb[..], RSb, b);
        PutForward(fsb[i], b);
        PutReverse(pow[..], log[..], rsb[i], b);
        if i < 255 {
          NextByte(b);
        }
        i, b := i + 1, b + 1;
      }
    }

    lemma NothingFilled()
      requires Shape()
      ensures Forward(0) && Reverse(0) && Ix(0) == 0
    {}

    method PutForward(x: bv8, b: bv8)
      requires Shape() && Forward(Ix(b)) && x == FSb(b)
      modifies ft0, ft1, ft2, ft3
      ensures Forward(Ix(b) + 1)
    {
      hide FSb, FT0, Ix, Filled, RotL8, XTime, XorByte, Joined;
      var y := XTime(x);
      var z := XorByte(y, x);
      ForwardEntry(b);
      FilledNext(ft0[..], FT0, b);
      FilledNext(ft1[..], FT1, b);
      FilledNext(ft2[..], FT2, b);
      FilledNext(ft3[..], FT3, b);
      Store(ft0, Ix(b), Joined(y, x, x, z));
      Store(ft1, Ix(b), RotL8(ft0[Ix(b)]));
      Store(ft2, Ix(b), RotL8(ft1[Ix(b)]));
      Store(ft3, Ix(b), RotL8(ft2[Ix(b)]));
    }

    method PutReverse(pow: seq<bv8>, log: seq<int>, x: bv8, b: bv8)
      requires Shape() && Reverse(Ix(b)) && x == RSb(b) && LogTable(pow, log)
      modifies rt0, rt1, rt2, rt3
      ensures Reverse(Ix(b) + 1)
    {
      hide RSb, RT0, Ix, Filled, RotL8, Joined, Mul;
      ReverseEntry(pow, log, b);
      FilledNext(rt0[..], RT0, b);
      FilledNext(rt1[..], RT1, b);
      FilledNext(rt2[..], RT2, b);
      FilledNext(rt3[..], RT3, b);
      Store(rt0, Ix(b), Joined(Mul(pow, log, 0x0E, x), Mul(pow, log, 0x09, x), Mul(pow, log, 0x0D, x),
        Mul(pow, log, 0x0B, x)));
      Store(rt1, Ix(b), RotL8(rt0[Ix(b)]));
      Store(rt2, Ix(b), RotL8(rt1[Ix(b)]));
      Store(rt3, Ix(b), RotL8(rt2[Ix(b)]));
    }

    // aes_gen_tables: every table it fills is the constant one.
    method GenTables()
      requires Shape()
      modifies fsb, rsb, rcon, ft0, ft1, ft2, ft3, rt0, rt1, rt2, rt3
      ensures Filled(fsb[..], FSb, 256) && Filled(rsb[..], RSb, 256)
      ensures Forward(256) && Reverse(256)
      ensures forall k :: 0 <= k < 10 ==> rcon[k] == RCON(k)
    {
      hide Filled, Forward, Reverse, LogTable, RCON, FSb, RSb;
      var pow, log := Powers();
      RoundConstants();
      SBoxes(pow, log);
      RoundTables(pow, log);
    }

    method Store<T>(a: array<T>, at: nat, v: T)
      requires at < a.Length
      modifies a
      ensures a[..] == old(a[..])[at := v]
    {
      a[at] := v;
    }
  }

  lemma NextByte(b: bv8)
    requires Ix(b) < 255
    ensures Ix(b + 1) == Ix(b) + 1 && b + 1 != 0
  {
    if b == 255 {
      LastIx();
    }
    Succ(b);
  }

  lemma FilledAt<T(!new)>(s: seq<T>, f: bv8 -> T, b: bv8)
    requires |s| == 256 && Filled(s, f, 256)
    ensures s[Ix(b)] == f(b)
  {}

  lemma LastIx()
    ensures Ix(255) == 255
  {}

  lemma FirstEntries(f: seq<bv8>, r: seq<bv8>)
    requires |f| == |r| == 256
    ensures Filled(f[0 := 0x63], FSb, 1) && Backwards(r[0x63 := 0], 1) && Ix(1) == 1
  {
  }
}
