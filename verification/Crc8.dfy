/**
  The CRC-8 of the serial frames: the table-free loop, what it computes as a
  polynomial remainder over GF(2), and exactly which errors it lets through.
 */
module Crc8 {
  import opened Octets
  import opened Gf2

  /** One shift of the register, with the feedback of x^8 = x^2 + x + 1. */
  function Step(c: bv8): bv8 {
    if c & 0x80 != 0 then (c << 1) ^ 0x07 else c << 1
  }

  function StepN(c: bv8, n: nat): bv8 {
    if n == 0 then c else Step(StepN(c, n - 1))
  }

  /** The register after one more byte. */
  function Feed(crc: bv8, b: bv8): bv8 {
    StepN(crc ^ b, 8)
  }

  function Crc(data: Bytes): bv8 {
    if data == [] then 0 else Feed(Crc(data[..|data| - 1]), data[|data| - 1])
  }

  method ComputeCrc(data: Bytes) returns (crc: bv8)
    ensures crc == Crc(data)
  {
    crc := 0;
    for i := 0 to |data|
      invariant crc == Crc(data[..i])
    {
      ghost var before := crc;
      crc := crc ^ data[i];
      for j := 0 to 8
        invariant crc == StepN(before ^ data[i], j)
      {
        if crc & 0x80 != 0 {
          crc := (crc << 1) ^ 0x07;
        } else {
          crc := crc << 1;
        }
      }
      assert data[..i + 1][..i] == data[..i];
    }
    assert data[..|data|] == data;
  }

  // ---- bytes as polynomials ----------------------------------------------------

  /** Bit i of b, counted from the least significant. */
  predicate Bit(b: bv8, i: nat)
    requires i < 8
  {
    if i == 0 then b & 0x01 != 0 else if i == 1 then b & 0x02 != 0
    else if i == 2 then b & 0x04 != 0 else if i == 3 then b & 0x08 != 0
    else if i == 4 then b & 0x10 != 0 else if i == 5 then b & 0x20 != 0
    else if i == 6 then b & 0x40 != 0 else b & 0x80 != 0
  }

  function BytePoly(b: bv8): (p: Poly)
    ensures forall e: nat {:trigger e in p} :: e in p <==> e < 8 && Bit(b, e)
  {
    set i: nat | i < 8 && Bit(b, i)
  }

  /** The bits of `data` as coefficients, the first bit on the wire having the highest exponent. */
  function PolyOf(data: Bytes): Poly {
    if data == [] then {} else Add(Shift(PolyOf(data[..|data| - 1]), 8), BytePoly(data[|data| - 1]))
  }

  /** x has bit for bit the exclusive or of b and c. */
  predicate BitwiseXor(b: bv8, c: bv8, x: bv8) {
    && (x & 0x01 != 0) == ((b & 0x01 != 0) != (c & 0x01 != 0))
    && (x & 0x02 != 0) == ((b & 0x02 != 0) != (c & 0x02 != 0))
    && (x & 0x04 != 0) == ((b & 0x04 != 0) != (c & 0x04 != 0))
    && (x & 0x08 != 0) == ((b & 0x08 != 0) != (c & 0x08 != 0))
    && (x & 0x10 != 0) == ((b & 0x10 != 0) != (c & 0x10 != 0))
    && (x & 0x20 != 0) == ((b & 0x20 != 0) != (c & 0x20 != 0))
    && (x & 0x40 != 0) == ((b & 0x40 != 0) != (c & 0x40 != 0))
    && (x & 0x80 != 0) == ((b & 0x80 != 0) != (c & 0x80 != 0))
  }

  lemma {:induction false} XorBits(b: bv8, c: bv8)
    ensures BitwiseXor(b, c, b ^ c)
  {
  }

  lemma {:induction false} XorBit(b: bv8, c: bv8, x: bv8, i: nat)
    requires i < 8 && BitwiseXor(b, c, x)
    ensures Bit(x, i) == (Bit(b, i) != Bit(c, i))
  {
    match i
    case 0 =>
    case 1 =>
    case 2 =>
    case 3 =>
    case 4 =>
    case 5 =>
    case 6 =>
    case _ =>
  }

  lemma {:induction false} BitXor(b: bv8, c: bv8, i: nat)
    requires i < 8
    ensures Bit(b ^ c, i) == (Bit(b, i) != Bit(c, i))
  {
    hide *;
    XorBits(b, c);
    XorBit(b, c, b ^ c, i);
  }

  lemma {:induction false} BytePolyXor(b: bv8, c: bv8)
    ensures BytePoly(b ^ c) == Add(BytePoly(b), BytePoly(c))
  {
    forall e: nat
      ensures e in BytePoly(b ^ c) <==> e in Add(BytePoly(b), BytePoly(c))
    {
      if e < 8 {
        BitXor(b, c, e);
      }
    }
  }

  lemma {:induction false} BytePolyZero(b: bv8)
    ensures BytePoly(b) == {} <==> b == 0
  {
    if BytePoly(b) == {} {
      assert forall e: nat {:trigger e in BytePoly(b)} | e < 8 :: e !in BytePoly(b);
      assert 0 !in BytePoly(b) && 1 !in BytePoly(b) && 2 !in BytePoly(b) && 3 !in BytePoly(b);
      assert 4 !in BytePoly(b) && 5 !in BytePoly(b) && 6 !in BytePoly(b) && 7 !in BytePoly(b);
    }
  }

  lemma {:induction false} PolyOfXor(a: Bytes, e: Bytes)
    requires |a| == |e|
    ensures PolyOf(Xor(a, e)) == Add(PolyOf(a), PolyOf(e))
  {
    if a != [] {
      var n := |a| - 1;
      PolyOfXor(a[..n], e[..n]);
      XorSlice(a, e, 0, n);
      assert Xor(a, e)[..n] == Xor(a, e)[0..n];
      ShiftAdd(PolyOf(a[..n]), PolyOf(e[..n]), 8);
      BytePolyXor(a[n], e[n]);
      AddShuffle(Shift(PolyOf(a[..n]), 8), Shift(PolyOf(e[..n]), 8), BytePoly(a[n]), BytePoly(e[n]));
    }
  }

  lemma {:induction false} AddShuffle(p: Poly, q: Poly, r: Poly, s: Poly)
    ensures Add(Add(p, q), Add(r, s)) == Add(Add(p, r), Add(q, s))
  {
  }

  // ---- the loop computes a remainder --------------------------------------------

  lemma {:induction false} StepBit(c: bv8, i: nat)
    requires i < 8
    ensures Bit(Step(c), i) == ((i > 0 && Bit(c, i - 1)) != (i <= 2 && Bit(c, 7)))
  {
    StepBits(c, Step(c));
  }

  lemma {:induction false} StepBits(c: bv8, s: bv8)
    requires s == Step(c)
    ensures (s & 0x01 != 0) == (c & 0x80 != 0)
    ensures (s & 0x02 != 0) == ((c & 0x01 != 0) != (c & 0x80 != 0))
    ensures (s & 0x04 != 0) == ((c & 0x02 != 0) != (c & 0x80 != 0))
    ensures (s & 0x08 != 0) == (c & 0x04 != 0)
    ensures (s & 0x10 != 0) == (c & 0x08 != 0)
    ensures (s & 0x20 != 0) == (c & 0x10 != 0)
    ensures (s & 0x40 != 0) == (c & 0x20 != 0)
    ensures (s & 0x80 != 0) == (c & 0x40 != 0)
  {
  }

  /** The coefficient of x^e in that is the bit that moves there, with the feedback. */
  lemma {:induction false} ByteShiftAt(c: bv8, e: nat)
    ensures e in Shift(BytePoly(c), 1) <==>
      e in Add(BytePoly(Step(c)), if Bit(c, 7) then TimesG({0}) else {})
  {
    hide Bit, Step, BytePoly;
    assert TimesG({0}) == {8, 2, 1, 0};
    assert e in Shift(BytePoly(c), 1) <==> e >= 1 && e - 1 in BytePoly(c);
    if e < 8 {
      StepBit(c, e);
    }
  }

  /** x times the register is the next register, plus the generator when the top bit falls out. */
  lemma {:induction false} ByteShift(c: bv8)
    ensures Shift(BytePoly(c), 1) == Add(BytePoly(Step(c)), if Bit(c, 7) then TimesG({0}) else {})
  {
    hide *;
    forall e: nat
      ensures e in Shift(BytePoly(c), 1) <==> e in Add(BytePoly(Step(c)), if Bit(c, 7) then TimesG({0}) else {})
    {
      ByteShiftAt(c, e);
    }
  }

  lemma {:induction false} StepCongruent(p: Poly, c: bv8)
    requires Congruent(p, BytePoly(c))
    ensures Congruent(Shift(p, 1), BytePoly(Step(c)))
  {
    CongruentShift(p, BytePoly(c), 1);
    ByteShift(c);
    var t := if Bit(c, 7) then {0} else {};
    assert TimesG({}) == {};
    assert Add(Shift(BytePoly(c), 1), BytePoly(Step(c))) == TimesG(t);
    CongruentTrans(Shift(p, 1), Shift(BytePoly(c), 1), BytePoly(Step(c)));
  }

  lemma {:induction false} StepNCongruent(p: Poly, c: bv8, n: nat)
    requires Congruent(p, BytePoly(c))
    ensures Congruent(Shift(p, n), BytePoly(StepN(c, n)))
  {
    hide Congruent, Step, BytePoly;
    if n == 0 {
      assert Shift(p, 0) == p;
    } else {
      StepNCongruent(p, c, n - 1);
      StepCongruent(Shift(p, n - 1), StepN(c, n - 1));
      ShiftShift(p, n - 1, 1);
    }
  }

  lemma {:induction false} CrcCongruent(data: Bytes)
    ensures Congruent(Shift(PolyOf(data), 8), BytePoly(Crc(data)))
  {
    if data == [] {
      assert TimesG({}) == {};
      assert Shift({}, 8) == {} && BytePoly(0) == {};
      assert Add(Shift(PolyOf(data), 8), BytePoly(0)) == TimesG({});
    } else {
      var n := |data| - 1;
      var p, c := Shift(PolyOf(data[..n]), 8), Crc(data[..n]);
      CrcCongruent(data[..n]);
      CongruentAdd(p, BytePoly(c), BytePoly(data[n]));
      BytePolyXor(c, data[n]);
      StepNCongruent(Add(p, BytePoly(data[n])), c ^ data[n], 8);
    }
  }

  lemma {:induction false} RemainderUnique(p: Poly, r: bv8, s: bv8)
    requires Congruent(p, BytePoly(r))
    ensures Congruent(p, BytePoly(s)) <==> r == s
  {
    if Congruent(p, BytePoly(s)) {
      CongruentTrans(p, BytePoly(r), BytePoly(s));
      BytePolyXor(r, s);
      MultipleSpans(BytePoly(r ^ s), 0);
      BytePolyZero(r ^ s);
    }
  }

  /** The register is the remainder of data(x) * x^8 modulo x^8 + x^2 + x + 1, and nothing else is. */
  lemma {:induction false} CrcIsRemainder(data: Bytes, r: bv8)
    ensures Congruent(Shift(PolyOf(data), 8), BytePoly(r)) <==> r == Crc(data)
  {
    CrcCongruent(data);
    RemainderUnique(Shift(PolyOf(data), 8), Crc(data), r);
  }

  /** The register is linear: the CRC of a damaged string is the CRC of the original, damaged by that of the error. */
  lemma {:induction false} CrcLinear(a: Bytes, e: Bytes)
    requires |a| == |e|
    ensures Crc(Xor(a, e)) == Crc(a) ^ Crc(e)
  {
    hide Crc, PolyOf, BytePoly;
    var p, q := Shift(PolyOf(a), 8), Shift(PolyOf(e), 8);
    PolyOfXor(a, e);
    ShiftAdd(PolyOf(a), PolyOf(e), 8);
    CrcCongruent(a);
    CrcCongruent(e);
    BytePolyXor(Crc(a), Crc(e));
    CongruentSum(p, BytePoly(Crc(a)), q, BytePoly(Crc(e)));
    CrcIsRemainder(Xor(a, e), Crc(a) ^ Crc(e));
  }

  lemma {:induction false} CongruentSum(p: Poly, r: Poly, q: Poly, s: Poly)
    requires Congruent(p, r) && Congruent(q, s)
    ensures Congruent(Add(p, q), Add(r, s))
  {
    MultipleAdd(Add(p, r), Add(q, s));
    AddShuffle(p, r, q, s);
  }

  /** The CRC has an odd number of bits exactly if the data has. */
  lemma {:induction false} CrcKeepsParity(data: Bytes)
    ensures |BytePoly(Crc(data))| % 2 == |PolyOf(data)| % 2
  {
    hide *;
    var p, r := Shift(PolyOf(data), 8), BytePoly(Crc(data));
    CrcCongruent(data);
    ShiftSize(PolyOf(data), 8);
    CongruentParity(p, r);
  }

  lemma {:induction false} CongruentParity(p: Poly, r: Poly)
    requires Congruent(p, r)
    ensures |p| % 2 == |r| % 2
  {
    hide Multiple, Add;
    MultipleIsEven(Add(p, r));
    AddParity(p, r);
    SameParity(|p|, |r|);
  }

  lemma {:induction false} SameParity(m: nat, n: nat)
    ensures (m + n) % 2 == 0 <==> m % 2 == n % 2
  {
  }

  // ---- error detection -------------------------------------------------------------

  /** `data` followed by its CRC, as all senders put it on the wire. */
  function Protect(data: Bytes): Bytes {
    data + [Crc(data)]
  }

  /** `body` ends in the CRC of what comes before, as both receivers check it. */
  predicate Checks(body: Bytes) {
    |body| >= 1 && body[|body| - 1] == Crc(body[..|body| - 1])
  }

  lemma {:induction false} ChecksIffProtected(body: Bytes)
    requires |body| >= 1
    ensures Checks(body) <==> body == Protect(body[..|body| - 1])
  {
    hide Crc;
    var n := |body| - 1;
    assert body == body[..n] + [body[n]];
  }

  lemma {:induction false} ChecksIffMultiple(body: Bytes)
    requires |body| >= 1
    ensures Checks(body) <==> Multiple(PolyOf(body))
  {
    CrcIsRemainder(body[..|body| - 1], body[|body| - 1]);
  }

  /** Both loops leave 0 exactly on data that ends in its own CRC. */
  lemma {:induction false} ChecksIffResidueZero(body: Bytes)
    requires |body| >= 1
    ensures Checks(body) <==> Crc(body) == 0
  {
    var n := |body| - 1;
    StepNInjective(Crc(body[..n]) ^ body[n], 0, 8);
    assert StepN(0, 8) == 0;
  }

  lemma {:induction false} StepNInjective(a: bv8, b: bv8, n: nat)
    ensures StepN(a, n) == StepN(b, n) <==> a == b
  {
    if n > 0 {
      StepNInjective(a, b, n - 1);
      StepInjective(StepN(a, n - 1), StepN(b, n - 1));
    }
  }

  lemma {:induction false} StepInjective(a: bv8, b: bv8)
    ensures Step(a) == Step(b) <==> a == b
  {
  }

  /** An error pattern goes undetected exactly when it is a multiple of the generator itself. */
  lemma {:induction false} UndetectedIffMultiple(body: Bytes, e: Bytes)
    requires Checks(body) && |e| == |body|
    ensures Checks(Xor(body, e)) <==> Multiple(PolyOf(e))
  {
    ChecksIffMultiple(body);
    ChecksIffMultiple(Xor(body, e));
    PolyOfXor(body, e);
    MultipleAdd(PolyOf(body), PolyOf(e));
  }

  lemma {:induction false} PolyOfZero(e: Bytes)
    ensures PolyOf(e) == {} <==> forall i :: 0 <= i < |e| ==> e[i] == 0
  {
    if e != [] {
      var n := |e| - 1;
      PolyOfZero(e[..n]);
      BytePolyZero(e[n]);
      PolyOfSplit(e);
    }
  }

  lemma {:induction false} PolyOfSplit(e: Bytes)
    requires e != []
    ensures PolyOf(e) == {} <==> PolyOf(e[..|e| - 1]) == {} && e[|e| - 1] == 0
  {
    var n := |e| - 1;
    var p := PolyOf(e[..n]);
    BytePolyZero(e[n]);
    if x: nat :| x in p {
      assert x + 8 in Shift(p, 8) && x + 8 !in BytePoly(e[n]);
      assert x + 8 in PolyOf(e);
    }
    if y: nat :| y in BytePoly(e[n]) {
      assert y !in Shift(p, 8);
      assert y in PolyOf(e);
    }
  }

  /** e flips at least one bit, and all flipped bits lie within eight consecutive ones. */
  ghost predicate Burst(e: Bytes) {
    && PolyOf(e) != {}
    && exists lo: nat :: Within(PolyOf(e), lo)
  }

  ghost predicate Within(p: Poly, lo: nat) {
    forall x: nat {:trigger x in p} :: x in p ==> lo <= x < lo + 8
  }

  /** The number of bits e flips. */
  function Weight(e: Bytes): nat {
    |PolyOf(e)|
  }

  lemma {:induction false} BurstDetected(body: Bytes, e: Bytes)
    requires Checks(body) && |e| == |body| && Burst(e)
    ensures !Checks(Xor(body, e))
  {
    UndetectedIffMultiple(body, e);
    var lo: nat :| Within(PolyOf(e), lo);
    if Multiple(PolyOf(e)) {
      MultipleSpans(PolyOf(e), lo);
    }
  }

  lemma {:induction false} OddWeightDetected(body: Bytes, e: Bytes)
    requires Checks(body) && |e| == |body| && Weight(e) % 2 == 1
    ensures !Checks(Xor(body, e))
  {
    UndetectedIffMultiple(body, e);
    if Multiple(PolyOf(e)) {
      MultipleIsEven(PolyOf(e));
    }
  }

  // ---- two-bit errors: the order of x is 127 ------------------------------------------

  lemma {:induction false} StepNAdd(c: bv8, m: nat, n: nat)
    ensures StepN(StepN(c, m), n) == StepN(c, m + n)
  {
    if n > 0 {
      StepNAdd(c, m, n - 1);
    }
  }

  lemma {:induction false} PowerCongruent(k: nat)
    ensures Congruent({k}, BytePoly(StepN(1, k)))
  {
    assert BytePoly(1) == {0};
    assert TimesG({}) == {};
    assert Add({0}, BytePoly(1)) == TimesG({});
    StepNCongruent({0}, 1, k);
    assert Shift({0}, k) == {k};
  }

  lemma {:induction false} PairRemainder(i: nat, j: nat)
    requires i != j
    ensures Congruent({i, j}, BytePoly(StepN(1, i) ^ StepN(1, j)))
  {
    var a, b := StepN(1, i), StepN(1, j);
    PowerCongruent(i);
    PowerCongruent(j);
    CongruentAdd({i}, BytePoly(a), {j});
    CongruentAdd({j}, BytePoly(b), BytePoly(a));
    AddCommutes(BytePoly(a), {j});
    AddCommutes(BytePoly(b), BytePoly(a));
    assert Add({i}, {j}) == {i, j};
    CongruentTrans({i, j}, Add({j}, BytePoly(a)), Add(BytePoly(a), BytePoly(b)));
    BytePolyXor(a, b);
  }

  lemma {:induction false} AddCommutes(p: Poly, q: Poly)
    ensures Add(p, q) == Add(q, p)
  {
  }

  lemma {:induction false} PairMultiple(i: nat, j: nat)
    requires i < j
    ensures Multiple({i, j}) <==> StepN(1, j - i) == 1
  {
    hide *;
    var a, b := StepN(1, i), StepN(1, j);
    PairRemainder(i, j);
    RemainderUnique({i, j}, a ^ b, 0);
    CongruentZero({i, j});
    StepNAdd(1, j - i, i);
    StepNInjective(StepN(1, j - i), 1, i);
    XorZero(a, b);
  }

  lemma {:induction false} CongruentZero(p: Poly)
    ensures Congruent(p, BytePoly(0)) <==> Multiple(p)
  {
    assert BytePoly(0) == {};
    assert Add(p, {}) == p;
  }

  lemma {:induction false} XorZero(a: bv8, b: bv8)
    ensures a ^ b == 0 <==> a == b
  {
  }

  function Step8(c: bv8): bv8 {
    Step(Step(Step(Step(Step(Step(Step(Step(c))))))))
  }

  lemma {:induction false} Step8Is(c: bv8)
    ensures StepN(c, 8) == Step8(c)
  {
    assert StepN(c, 0) == c;
    assert StepN(c, 2) == Step(StepN(c, 1));
    assert StepN(c, 4) == Step(Step(StepN(c, 2)));
    assert StepN(c, 6) == Step(Step(StepN(c, 4)));
  }

  /** x^127 = 1 modulo the generator. */
  lemma {:induction false} Order127(n: nat)
    requires n == 127
    ensures StepN(1, n) == 1
  {
    StepNAdd(1, 0, 8);
    Step8Is(1);
    assert StepN(1, 8) == 0x7;
    StepNAdd(1, 8, 8);
    Step8Is(7);
    assert StepN(1, 16) == 0x15;
    StepNAdd(1, 16, 8);
    Step8Is(21);
    assert StepN(1, 24) == 0x6b;
    StepNAdd(1, 24, 8);
    Step8Is(107);
    assert StepN(1, 32) == 0x16;
    StepNAdd(1, 32, 8);
    Step8Is(22);
    assert StepN(1, 40) == 0x62;
    StepNAdd(1, 40, 8);
    Step8Is(98);
    assert StepN(1, 48) == 0x29;
    StepNAdd(1, 48, 8);
    Step8Is(41);
    assert StepN(1, 56) == 0xdf;
    StepNAdd(1, 56, 8);
    Step8Is(223);
    assert StepN(1, 64) == 0x13;
    StepNAdd(1, 64, 8);
    Step8Is(19);
    assert StepN(1, 72) == 0x79;
    StepNAdd(1, 72, 8);
    Step8Is(121);
    assert StepN(1, 80) == 0x68;
    StepNAdd(1, 80, 8);
    Step8Is(104);
    assert StepN(1, 88) == 0x1f;
    StepNAdd(1, 88, 8);
    Step8Is(31);
    assert StepN(1, 96) == 0x5d;
    StepNAdd(1, 96, 8);
    Step8Is(93);
    assert StepN(1, 104) == 0x94;
    StepNAdd(1, 104, 8);
    Step8Is(148);
    assert StepN(1, 112) == 0xe5;
    StepNAdd(1, 112, 8);
    Step8Is(229);
    assert StepN(1, 120) == 0xb5;
    StepNAdd(1, 120, 8);
    Step8Is(0xb5);
    assert StepN(1, n + 1) == Step(1);
    StepInjective(StepN(1, n), 1);
  }

  lemma {:induction false} StepNMultiple(d: nat, k: nat)
    requires StepN(1, d) == 1
    ensures StepN(1, d * k) == 1
  {
    if k > 0 {
      StepNMultiple(d, k - 1);
      StepNAdd(1, d * (k - 1), d);
      assert d * k == d * (k - 1) + d;
    }
  }

  lemma {:induction false} Prime127(r: nat)
    requires 1 < r < 127
    ensures 127 % r != 0
  {
    var k := 127 / r;
    if r > 11 {
      assert 12 * k <= r * k <= 127;
      assert k == 1 || k == 2 || k == 3 || k == 4 || k == 5 || k == 6 || k == 7 || k == 8 || k == 9 || k == 10;
    }
  }

  lemma {:induction false} OrderRemainder(n: nat, r: nat, k: nat, m: nat)
    requires n == 127 && StepN(1, r) == 1 && n == r * k + m
    ensures StepN(1, m) == 1
  {
    StepNMultiple(r, k);
    Order127(n);
    StepNAdd(1, r * k, m);
  }

  lemma {:induction false} NoSmallerOrder(r: nat)
    requires 0 < r < 127
    ensures StepN(1, r) != 1
  {
    if r == 1 {
      assert StepN(1, 0) == 1;
    } else {
      Prime127(r);
      NoSmallerOrder(127 % r);
      if StepN(1, r) == 1 {
        OrderRemainder(127, r, 127 / r, 127 % r);
      }
    }
  }

  lemma {:induction false} OrderIff(d: nat)
    ensures StepN(1, d) == 1 <==> d % 127 == 0
  {
    OrderSplit(127, d / 127, d % 127);
    if d % 127 > 0 {
      NoSmallerOrder(d % 127);
    }
  }

  lemma {:induction false} OrderSplit(n: nat, k: nat, r: nat)
    requires n == 127
    ensures StepN(1, n * k + r) == StepN(1, r)
  {
    Order127(n);
    StepNMultiple(n, k);
    StepNAdd(1, n * k, r);
  }

  /** Two flipped bits go undetected exactly when their distance is a multiple of 127. */
  lemma {:induction false} PairUndetectedIff(body: Bytes, e: Bytes, i: nat, j: nat)
    requires Checks(body) && |e| == |body|
    requires i < j && PolyOf(e) == {i, j}
    ensures Checks(Xor(body, e)) <==> (j - i) % 127 == 0
  {
    UndetectedIffMultiple(body, e);
    PairMultiple(i, j);
    OrderIff(j - i);
  }

  lemma {:induction false} PolyOfBound(data: Bytes, x: nat)
    requires x in PolyOf(data)
    ensures x < 8 * |data|
  {
    if data != [] && x >= 8 && x - 8 in PolyOf(data[..|data| - 1]) {
      PolyOfBound(data[..|data| - 1], x - 8);
    }
  }

  lemma {:induction false} PairOf(p: Poly) returns (i: nat, j: nat)
    requires |p| == 2
    ensures i < j && p == {i, j}
  {
    i := Lowest(p);
    var q := p - {i};
    assert |q| == 1;
    j := Lowest(q);
    assert |q - {j}| == 0;
    assert p == {i, j};
  }

  lemma {:induction false} PairClose(e: Bytes, i: nat, j: nat)
    requires |e| <= 15 && i < j && PolyOf(e) == {i, j}
    ensures (j - i) % 127 != 0
  {
    hide *;
    PolyOfBound(e, j);
  }

  /** Up to 15 protected bytes, the check has Hamming distance 4. */
  lemma {:induction false} SmallWeightDetected(body: Bytes, e: Bytes)
    requires Checks(body) && |e| == |body| <= 15
    requires 1 <= Weight(e) <= 3
    ensures !Checks(Xor(body, e))
  {
    hide *;
    if Weight(e) == 2 {
      assert |PolyOf(e)| == 2 by { WeightIs(e); }
      var i, j := PairOf(PolyOf(e));
      PairClose(e, i, j);
      PairUndetectedIff(body, e, i, j);
    } else {
      OddWeightDetected(body, e);
    }
  }

  lemma {:induction false} WeightIs(e: Bytes)
    ensures Weight(e) == |PolyOf(e)|
  {
  }

  ghost predicate DetectsAllPairs(n: nat) {
    forall body: Bytes, e: Bytes :: |body| == n && Checks(body) && |e| == n && Weight(e) == 2 ==> !Checks(Xor(body, e))
  }

  lemma {:induction false} PolyOfConcat(a: Bytes, b: Bytes)
    ensures PolyOf(a + b) == Add(Shift(PolyOf(a), 8 * |b|), PolyOf(b))
  {
    if b == [] {
      assert a + b == a;
      assert Shift(PolyOf(a), 0) == PolyOf(a);
    } else {
      var n := |b| - 1;
      PolyOfConcat(a, b[..n]);
      assert (a + b)[..|a + b| - 1] == a + b[..n];
      ShiftAdd(Shift(PolyOf(a), 8 * n), PolyOf(b[..n]), 8);
      ShiftShift(PolyOf(a), 8 * n, 8);
      AddAssoc(Shift(PolyOf(a), 8 * |b|), Shift(PolyOf(b[..n]), 8), BytePoly(b[n]));
    }
  }

  lemma {:induction false} AddAssoc(p: Poly, q: Poly, r: Poly)
    ensures Add(Add(p, q), r) == Add(p, Add(q, r))
  {
  }

  lemma {:induction false} ZerosCheck(n: nat)
    requires n >= 1
    ensures Checks(Zeros(n))
  {
    ChecksIffMultiple(Zeros(n));
    PolyOfZero(Zeros(n));
    assert TimesG({}) == {};
  }

  /** The pattern of FarPair: the first bit, and the last bit of the 16th byte. */
  function FarPairBytes(n: nat): (e: Bytes)
    requires n >= 16
    ensures |e| == n && forall i :: 0 < i < n && i != 15 ==> e[i] == 0
  {
    [0x80] + Zeros(14) + [0x01] + Zeros(n - 16)
  }

  lemma {:induction false} FarPairHead()
    ensures PolyOf([0x80] + Zeros(14)) == {119}
  {
    PolyOfZero(Zeros(14));
    PolyOfOne(0x80);
    assert BytePoly(0x80) == {7};
    PolyOfConcat([0x80], Zeros(14));
    assert Shift({7}, 112) == {119};
  }

  lemma {:induction false} FarPairCore()
    ensures PolyOf([0x80] + Zeros(14) + [0x01]) == {0, 127}
  {
    FarPairHead();
    PolyOfOne(0x01);
    assert BytePoly(0x01) == {0};
    PolyOfConcat([0x80] + Zeros(14), [0x01]);
    assert Shift({119}, 8) == {127};
  }

  /** The two-bit error at distance 127 that starts with the first bit. */
  lemma {:induction false} FarPair(n: nat)
    requires n >= 16
    ensures PolyOf(FarPairBytes(n)) == {8 * (n - 16), 8 * (n - 16) + 127}
  {
    var u, tail := [0x80] + Zeros(14) + [0x01], Zeros(n - 16);
    assert FarPairBytes(n) == u + tail;
    FarPairCore();
    PolyOfZero(tail);
    PolyOfConcat(u, tail);
    ShiftPair(8 * (n - 16));
  }

  lemma {:induction false} ShiftPair(k: nat)
    ensures Add(Shift({0, 127}, k), {}) == {k, k + 127}
  {
  }

  lemma {:induction false} PolyOfOne(b: bv8)
    ensures PolyOf([b]) == BytePoly(b)
  {
    assert [b][..0] == [];
    assert Shift({}, 8) == {};
  }

  lemma {:induction false} LongPairUndetected(n: nat)
    requires n >= 16
    ensures !DetectsAllPairs(n)
  {
    hide Checks, Crc, PolyOf, BytePoly, Zeros, FarPairBytes;
    var e := FarPairBytes(n);
    FarPair(n);
    ZerosCheck(n);
    ZerosLength(n);
    PairUndetectedIff(Zeros(n), e, 8 * (n - 16), 8 * (n - 16) + 127);
    assert Weight(e) == 2;
  }

  lemma {:induction false} ZerosLength(n: nat)
    ensures |Zeros(n)| == n
  {
  }

  /** Exact range: all two-bit errors in n protected bytes are detected if and only if n <= 15. */
  lemma {:induction false} DetectsAllPairsIff(n: nat)
    requires n >= 1
    ensures DetectsAllPairs(n) <==> n <= 15
  {
    hide Checks, Weight;
    if n <= 15 {
      forall body: Bytes, e: Bytes | |body| == n && Checks(body) && |e| == n && Weight(e) == 2
        ensures !Checks(Xor(body, e))
      {
        SmallWeightDetected(body, e);
      }
    } else {
      hide DetectsAllPairs;
      LongPairUndetected(n);
    }
  }
}
