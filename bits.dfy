/** Assembling bytes from the demodulator's bit decisions, least significant bit first. */
module BitAssembly {
  import opened Ascii

  /** Bit `k` of `x` (bit 0 is the least significant). */
  predicate Bit(x: byte, k: nat)
    requires k < 8
  {
    (x >> k) & 1 == 1
  }

  /** One decision: the register moves right by one and the new bit enters at the top. */
  function ShiftIn(x: byte, bit: bool): byte {
    (x >> 1) | (if bit then 0x80 else 0x00)
  }

  /** The new bit lands in bit 7 and every older bit moves down by one. */
  lemma ShiftInBits(x: byte, bit: bool)
    ensures Bit(ShiftIn(x, bit), 7) == bit
    ensures forall k :: 0 <= k < 7 ==> Bit(ShiftIn(x, bit), k) == Bit(x, k + 1)
  {
  }

  /** The register after the decisions `bits` have been shifted in, oldest first. */
  function ShiftInAll(x: byte, bits: seq<bool>): byte
    decreases |bits|
  {
    if |bits| == 0 then x else ShiftIn(ShiftInAll(x, bits[..|bits| - 1]), bits[|bits| - 1])
  }

  /** The eight bits of `x`, least significant first: the order in which they are sent. */
  function BitsOf(x: byte): (r: seq<bool>)
    ensures |r| == 8
    ensures forall k :: 0 <= k < 8 ==> r[k] == Bit(x, k)
  {
    seq(8, k requires 0 <= k < 8 => Bit(x, k))
  }

  /** After `n <= 8` decisions the newest `n` bits fill the top of the register in arrival
      order and the old contents have moved down by `n`. */
  lemma {:induction false} ShiftInAllBits(x: byte, bits: seq<bool>)
    requires |bits| <= 8
    ensures forall k :: 0 <= k < |bits| ==> Bit(ShiftInAll(x, bits), 8 - |bits| + k) == bits[k]
    ensures forall j :: 0 <= j < 8 - |bits| ==> Bit(ShiftInAll(x, bits), j) == Bit(x, j + |bits|)
  {
    if |bits| > 0 {
      var n := |bits|;
      var prev := bits[..n - 1];
      ShiftInAllBits(x, prev);
      var r' := ShiftInAll(x, prev);
      var r := ShiftInAll(x, bits);
      assert r == ShiftIn(r', bits[n - 1]);
      ShiftInBits(r', bits[n - 1]);
      forall k | 0 <= k < n ensures Bit(r, 8 - n + k) == bits[k] {
        if k < n - 1 {
          assert Bit(r, 8 - n + k) == Bit(r', 8 - (n - 1) + k);
          assert prev[k] == bits[k];
        }
      }
    }
  }

  /** Two bytes that agree on every bit are equal. */
  lemma SameBitsSameByte(a: byte, b: byte)
    requires forall k :: 0 <= k < 8 ==> Bit(a, k) == Bit(b, k)
    ensures a == b
  {
    assert Bit(a, 0) == Bit(b, 0) && Bit(a, 1) == Bit(b, 1);
    assert Bit(a, 2) == Bit(b, 2) && Bit(a, 3) == Bit(b, 3);
    assert Bit(a, 4) == Bit(b, 4) && Bit(a, 5) == Bit(b, 5);
    assert Bit(a, 6) == Bit(b, 6) && Bit(a, 7) == Bit(b, 7);
  }

  /** Eight decisions carrying the bits of `x` in LSB-first order leave exactly `x` in the
      register, whatever it held before. */
  lemma AssembleByte(prior: byte, x: byte)
    ensures ShiftInAll(prior, BitsOf(x)) == x
  {
    ShiftInAllBits(prior, BitsOf(x));
    SameBitsSameByte(ShiftInAll(prior, BitsOf(x)), x);
  }
}
