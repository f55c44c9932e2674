/** Byte strings as the serial links see them. */
module Octets {

  type Bytes = seq<bv8>

  datatype Option<+T> = None | Some(value: T)

  function NatOf(b: bv8): (n: nat)
    ensures n < 256
  {
    b as nat
  }

  /** Conversion to a byte, by counting up with the byte's own wrap-around. */
  function ByteOf(n: nat): bv8 {
    if n == 0 then 0 else ByteOf(n - 1) + 1
  }

  lemma {:induction false} NatOfSuccessor(b: bv8)
    ensures NatOf(b + 1) == if b == 0xFF then 0 else NatOf(b) + 1
    ensures NatOf(b) == 255 <==> b == 0xFF
  {
  }

  lemma {:induction false} ModSuccessor(n: nat)
    requires n > 0
    ensures n % 256 == if (n - 1) % 256 == 255 then 0 else (n - 1) % 256 + 1
  {
  }

  lemma {:induction false} NatOfByteOf(n: nat)
    ensures NatOf(ByteOf(n)) == n % 256
  {
    hide NatOf;
    if n == 0 {
      NatOfSuccessor(0xFF);
      assert ByteOf(n) == (0xFF as bv8) + 1;
    } else {
      NatOfByteOf(n - 1);
      NatOfSuccessor(ByteOf(n - 1));
      ModSuccessor(n);
    }
  }

  lemma {:induction false} NatOfInjective(b: bv8, c: bv8)
    ensures NatOf(b) == NatOf(c) <==> b == c
  {
  }

  /** Two counters give one byte exactly when they agree modulo 256. */
  lemma {:induction false} ByteOfEqual(m: nat, n: nat)
    ensures ByteOf(m) == ByteOf(n) <==> m % 256 == n % 256
  {
    NatOfByteOf(m);
    NatOfByteOf(n);
    NatOfInjective(ByteOf(m), ByteOf(n));
  }

  lemma {:induction false} ByteOfNatOf(b: bv8)
    ensures ByteOf(NatOf(b)) == b
  {
    hide *;
    NatOfByteOf(NatOf(b));
    NatOfInjective(ByteOf(NatOf(b)), b);
  }

  lemma {:induction false} Rejoin(stream: Bytes, n: nat, more: Bytes)
    requires n <= |stream|
    ensures stream[..n] + (stream[n..] + more) == stream + more
  {
  }

  /** n zero bytes. */
  function Zeros(n: nat): Bytes {
    seq(n, _ => 0)
  }

  /** Bitwise exclusive or of two byte strings of one length: `a` with the error pattern `e` on it. */
  function Xor(a: Bytes, e: Bytes): (r: Bytes)
    requires |a| == |e|
    ensures |r| == |a| && forall i :: 0 <= i < |a| ==> r[i] == a[i] ^ e[i]
  {
    seq(|a|, i requires 0 <= i < |a| => a[i] ^ e[i])
  }

  lemma {:induction false} XorSlice(a: Bytes, e: Bytes, lo: nat, hi: nat)
    requires |a| == |e| && lo <= hi <= |a|
    ensures Xor(a, e)[lo..hi] == Xor(a[lo..hi], e[lo..hi])
  {
  }
}
