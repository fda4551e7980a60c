/** The frame decoder over a whole stream of bit decisions: what a sequence of decisions does
    to the decoder state and which frames it emits. */
module FrameStream {
  import opened Ascii
  import opened BitAssembly
  import opened BlockParser
  import opened FrameDecoder
  import opened SeqFacts

  datatype RunResult = RunResult(state: DecoderState, frames: seq<AcarsFrame>)

  /** Feeds `bits` to the decoder one decision at a time, collecting the emitted frames. */
  function Run(s: DecoderState, bits: seq<bool>): (r: RunResult)
    requires Bounded(s)
    ensures Bounded(r.state)
    ensures |r.frames| <= |bits|
    decreases |bits|
  {
    if |bits| == 0 then RunResult(s, [])
    else
      var step := Next(s, bits[0]);
      var rest := Run(step.state, bits[1..]);
      RunResult(rest.state, Emitted(step.frame) + rest.frames)
  }

  /** A decoder started in a reachable state stays in one, whatever it is fed. */
  lemma {:induction false} RunKeepsInv(s: DecoderState, bits: seq<bool>)
    requires Inv(s)
    ensures Inv(Run(s, bits).state)
    decreases |bits|
  {
    if |bits| > 0 {
      NextKeepsInv(s, bits[0]);
      RunKeepsInv(Next(s, bits[0]).state, bits[1..]);
    }
  }

  /** Running two stretches of decisions is running the first, then the second from where
      the first left off. */
  lemma {:induction false} RunAppend(s: DecoderState, a: seq<bool>, b: seq<bool>)
    requires Bounded(s)
    ensures Run(s, a + b) ==
            RunResult(Run(Run(s, a).state, b).state, Run(s, a).frames + Run(Run(s, a).state, b).frames)
    decreases |a|
  {
    if |a| == 0 {
      assert a + b == b;
    } else {
      var step := Next(s, a[0]);
      assert (a + b)[0] == a[0] && (a + b)[1..] == a[1..] + b;
      RunAppend(step.state, a[1..], b);
      var ra := Run(step.state, a[1..]);
      var rb := Run(ra.state, b);
      assert Run(s, a) == RunResult(ra.state, Emitted(step.frame) + ra.frames);
      assert Run(s, a + b) == RunResult(rb.state, Emitted(step.frame) + (ra.frames + rb.frames));
      ConcatAssoc(Emitted(step.frame), ra.frames, rb.frames);
    }
  }

  lemma BytesBitsCons(w: seq<byte>)
    requires |w| >= 1
    ensures BytesBits(w) == BitsOf(w[0]) + BytesBits(w[1..])
  {
  }

  /** The bits of a byte sequence, each byte least significant bit first. */
  function BytesBits(w: seq<byte>): (r: seq<bool>)
    ensures |r| == 8 * |w|
  {
    if |w| == 0 then [] else BitsOf(w[0]) + BytesBits(w[1..])
  }

  lemma {:induction false} BytesBitsAppend(v: seq<byte>, w: seq<byte>)
    ensures BytesBits(v + w) == BytesBits(v) + BytesBits(w)
    decreases |v|
  {
    if |v| > 0 {
      assert (v + w)[1..] == v[1..] + w;
      BytesBitsAppend(v[1..], w);
    } else {
      assert v + w == w;
    }
  }

  lemma {:induction false} ShiftInAllSnoc(x: byte, bits: seq<bool>, k: nat)
    requires k < |bits|
    ensures ShiftInAll(x, bits[..k + 1]) == ShiftIn(ShiftInAll(x, bits[..k]), bits[k])
  {
    assert bits[..k + 1][..k] == bits[..k];
  }

  /** While the countdown has not expired only the byte register and the countdown change. */
  lemma {:induction false} Partial(s: DecoderState, bits: seq<bool>)
    requires Bounded(s) && |bits| < s.nbits
    ensures Run(s, bits) == RunResult(s.(inByte := ShiftInAll(s.inByte, bits), nbits := s.nbits - |bits|), [])
    decreases |bits|
  {
    if |bits| > 0 {
      var n := |bits| - 1;
      var p := bits[..n];
      assert bits == p + [bits[n]];
      Partial(s, p);
      RunAppend(s, p, [bits[n]]);
      ShiftInAllSnoc(s.inByte, bits, n);
    }
  }

  /** A single decision is one step. */
  lemma RunOne(s: DecoderState, bit: bool)
    requires Bounded(s)
    ensures Run(s, [bit]) == RunResult(Next(s, bit).state, Emitted(Next(s, bit).frame))
  {
    assert [bit][1..] == [];
  }

  /** Eight decisions after a byte boundary run the stage logic once, on the byte they carry. */
  lemma FeedBits(s: DecoderState, bits: seq<bool>)
    requires Bounded(s) && s.nbits == 8 && |bits| == 8
    ensures var step := OnByte(s, ShiftInAll(s.inByte, bits));
            Run(s, bits) == RunResult(step.state, Emitted(step.frame))
  {
    var p := bits[..7];
    assert bits == p + [bits[7]];
    Partial(s, p);
    RunAppend(s, p, [bits[7]]);
    var s' := Run(s, p).state;
    RunOne(s', bits[7]);
    ShiftInAllSnoc(s.inByte, bits, 7);
    assert bits[..8] == bits;
    OnByteRegister(s, s', ShiftInAll(s.inByte, bits));
  }

  /** Sending the bits of `x` after a byte boundary runs the stage logic on `x`. */
  lemma FeedByte(s: DecoderState, x: byte)
    requires Bounded(s) && s.nbits == 8
    ensures Run(s, BitsOf(x)) == RunResult(OnByte(s, x).state, Emitted(OnByte(s, x).frame))
  {
    FeedBits(s, BitsOf(x));
    AssembleByte(s.inByte, x);
  }

  /** No window of the register ends on SYN before all eight bits of a SYN have arrived. */
  predicate NoEarlySyn(x: byte) {
    forall k :: 1 <= k < 8 ==> ShiftInAll(x, BitsOf(SYN)[..k]) != SYN
  }

  /** The hunting state after a decision that did not complete a SYN, with `x` in the
      register. */
  function Missed(s: DecoderState, x: byte): DecoderState {
    s.(inByte := x, blockLen := 0, nbits := 0)
  }

  /** One hunting decision that does not complete a SYN. */
  lemma HuntStep(s: DecoderState, bit: bool)
    requires Bounded(s) && s.stage == WSyn1 && s.nbits <= 1 && ShiftIn(s.inByte, bit) != SYN
    ensures Run(s, [bit]) == RunResult(Missed(s, ShiftIn(s.inByte, bit)), [])
  {
    RunOne(s, bit);
  }

  /** While hunting, every decision is evaluated; decisions that do not complete a SYN keep
      the decoder hunting with an empty block. */
  lemma {:induction false} HuntMiss(s: DecoderState, bits: seq<bool>)
    requires Bounded(s) && s.stage == WSyn1 && s.nbits <= 1
    requires forall k :: 1 <= k <= |bits| ==> ShiftInAll(s.inByte, bits[..k]) != SYN
    ensures |bits| > 0 ==> Run(s, bits) == RunResult(Missed(s, ShiftInAll(s.inByte, bits)), [])
    decreases |bits|
  {
    if |bits| > 0 {
      var n := |bits| - 1;
      var p := bits[..n];
      LastSplit(bits);
      ShiftInAllSnoc(s.inByte, bits, n);
      if n == 0 {
        HuntStep(s, bits[0]);
      } else {
        forall k | 1 <= k <= |p| ensures ShiftInAll(s.inByte, p[..k]) != SYN {
          assert p[..k] == bits[..k];
        }
        HuntMiss(s, p);
        HuntStep(Missed(s, ShiftInAll(s.inByte, p)), bits[n]);
      }
      RunSilent(s, p, [bits[n]]);
    }
  }

  /** A SYN found by the sliding search leaves the decoder waiting for the second SYN. */
  lemma HuntSyn(s: DecoderState)
    requires Bounded(s) && s.stage == WSyn1 && s.nbits <= 1 && NoEarlySyn(s.inByte)
    ensures Run(s, BitsOf(SYN)) == RunResult(s.(stage := WSyn2, inByte := SYN, blockLen := 0, nbits := 8), [])
  {
    var bits := BitsOf(SYN);
    var p := bits[..7];
    LastSplit(bits);
    forall k | 1 <= k <= |p| ensures ShiftInAll(s.inByte, p[..k]) != SYN {
      assert p[..k] == bits[..k];
    }
    HuntMiss(s, p);
    RunSilent(s, p, [bits[7]]);
    ShiftInAllSnoc(s.inByte, bits, 7);
    AssembleByte(s.inByte, SYN);
    RunOne(Missed(s, ShiftInAll(s.inByte, p)), bits[7]);
  }

  /** The register of a freshly started decoder cannot produce an early SYN. */
  lemma InitialHunt()
    ensures NoEarlySyn(Init().inByte)
  {
    var bits := BitsOf(SYN);
    assert bits == [false, true, true, false, true, false, false, false];
    var v := 0x00 as byte;
    forall k | 1 <= k < 8 ensures ShiftInAll(v, bits[..k]) != SYN {
      ShiftInAllSnoc(v, bits, 0);
      ShiftInAllSnoc(v, bits, 1);
      ShiftInAllSnoc(v, bits, 2);
      ShiftInAllSnoc(v, bits, 3);
      ShiftInAllSnoc(v, bits, 4);
      ShiftInAllSnoc(v, bits, 5);
      ShiftInAllSnoc(v, bits, 6);
      assert bits[..0] == [];
    }
  }

  /** The bytes as stored by the BLK stage: parity bit cleared. */
  function Strip(w: seq<byte>): (r: seq<byte>)
    ensures |r| == |w|
    ensures forall i :: 0 <= i < |w| ==> r[i] == w[i] & 0x7f
  {
    seq(|w|, i requires 0 <= i < |w| => w[i] & 0x7f)
  }

  /** The buffer after the bytes `p` were stored from offset `m`: a NUL follows them and the
      rest of the buffer is left as it was. */
  function Written(buf: seq<byte>, m: nat, p: seq<byte>): (r: seq<byte>)
    requires m + |p| + 1 <= |buf|
    ensures |r| == |buf|
  {
    buf[..m] + p + [NUL] + buf[m + |p| + 1..]
  }

  /** `[c] + q` written from `m` is `c` and a NUL written at `m`, then `q` from `m + 1`. */
  lemma WrittenStep(buf: seq<byte>, m: nat, c: byte, q: seq<byte>)
    requires m + |q| + 2 <= |buf|
    ensures Written(buf[m := c][m + 1 := NUL], m + 1, q) == Written(buf, m, [c] + q)
  {
    var b1 := buf[m := c][m + 1 := NUL];
    assert b1[..m + 1] == buf[..m] + [c];
    if |q| > 0 {
      assert b1[m + 1 + |q| + 1..] == buf[m + |q| + 2..];
    }
  }

  lemma WrittenOne(buf: seq<byte>, m: nat, c: byte)
    requires m + 2 <= |buf|
    ensures buf[m := c][m + 1 := NUL] == Written(buf, m, [c])
  {
  }

  lemma StripCons(w: seq<byte>)
    requires |w| >= 1
    ensures Strip(w) == [w[0] & 0x7f] + Strip(w[1..])
  {
  }

  /** The wire bytes `w`, stored from offset `m`, close the block on their last byte and not
      before: only the last may be a delimiter once its parity bit is cleared, and it is one
      unless the block reaches its longest length there. */
  predicate ClosesAt(m: int, w: seq<byte>) {
    1 <= |w| && 0 <= m && m + |w| <= MaxBlockSize + 1 &&
    (forall i :: 0 <= i < |w| - 1 ==> !IsDelimiter(w[i] & 0x7f)) &&
    (IsDelimiter(w[|w| - 1] & 0x7f) || m + |w| == MaxBlockSize + 1)
  }

  /** Once the first byte is stored, the rest close the block one offset further on. */
  lemma ClosesAtTail(m: int, w: seq<byte>)
    requires ClosesAt(m, w) && |w| >= 2
    ensures !IsDelimiter(w[0] & 0x7f) && m < MaxBlockSize && ClosesAt(m + 1, w[1..])
  {
    assert 0 < |w| - 1;
    forall i | 0 <= i < |w[1..]| - 1 ensures !IsDelimiter(w[1..][i] & 0x7f) {
      assert w[1..][i] == w[i + 1];
    }
  }

  /** One block byte that does not close the block. */
  lemma StoreOpen(s: DecoderState, x: byte)
    requires Bounded(s) && s.stage == Blk && s.nbits == 8
    requires !IsDelimiter(x & 0x7f) && s.blockLen < MaxBlockSize
    ensures Run(s, BitsOf(x)) == RunResult(StoreFirst(s, x), [])
  {
    FeedByte(s, x);
  }

  /** The byte that closes the block. */
  lemma StoreClose(s: DecoderState, x: byte)
    requires Bounded(s) && s.stage == Blk && s.nbits == 8
    requires IsDelimiter(x & 0x7f) || s.blockLen == MaxBlockSize
    ensures Run(s, BitsOf(x)) ==
            RunResult(s.(stage := Crc1, inByte := x & 0x7f, blockLen := s.blockLen + 1,
                         buf := s.buf[s.blockLen := x & 0x7f][s.blockLen + 1 := NUL]), [])
  {
    FeedByte(s, x);
  }

  /** Running the bits of a byte sequence is running its first byte, then the rest. */
  lemma RunBytesCons(s: DecoderState, w: seq<byte>)
    requires Bounded(s) && |w| >= 1 && Run(s, BitsOf(w[0])).frames == []
    ensures Run(s, BytesBits(w)) == Run(Run(s, BitsOf(w[0])).state, BytesBits(w[1..]))
  {
    BytesBitsCons(w);
    RunSilent(s, BitsOf(w[0]), BytesBits(w[1..]));
  }

  /** The state once the block bytes `w` have been stored from the block's current end. */
  function Closed(s: DecoderState, w: seq<byte>): DecoderState
    requires 1 <= |w| && 0 <= s.blockLen && s.blockLen + |w| + 1 <= |s.buf|
  {
    s.(stage := Crc1, inByte := w[|w| - 1] & 0x7f, nbits := 8,
       blockLen := s.blockLen + |w|, buf := Written(s.buf, s.blockLen, Strip(w)))
  }

  /** The state after the block byte `x` was stored at the block's current end. */
  function StoreFirst(s: DecoderState, x: byte): DecoderState
    requires 0 <= s.blockLen && s.blockLen + 2 <= |s.buf|
  {
    var c := x & 0x7f;
    s.(inByte := c, blockLen := s.blockLen + 1, buf := s.buf[s.blockLen := c][s.blockLen + 1 := NUL])
  }

  /** Storing the first byte, then the rest, ends where storing them all does. */
  lemma ClosedStep(s: DecoderState, w: seq<byte>)
    requires |w| >= 2 && 0 <= s.blockLen && s.blockLen + |w| + 1 <= |s.buf|
    ensures Closed(StoreFirst(s, w[0]), w[1..]) == Closed(s, w)
  {
    StripCons(w);
    WrittenStep(s.buf, s.blockLen, w[0] & 0x7f, Strip(w[1..]));
    LastOfTail(w);
  }

  /** After a byte that does not close the block the decoder still accumulates, and the
      rest of the bytes close the block one offset further on. */
  lemma StoreFirstOpen(s: DecoderState, w: seq<byte>)
    requires Bounded(s) && s.stage == Blk && s.nbits == 8
    requires ClosesAt(s.blockLen, w) && |w| >= 2
    ensures var s1 := StoreFirst(s, w[0]);
            Bounded(s1) && s1.stage == Blk && s1.nbits == 8 && ClosesAt(s1.blockLen, w[1..])
  {
    ClosesAtTail(s.blockLen, w);
  }

  /** A block byte that does not close the block: it is stored, and the rest of the block
      continues from there. */
  lemma AccumulateStep(s: DecoderState, w: seq<byte>)
    requires Bounded(s) && s.stage == Blk && s.nbits == 8
    requires ClosesAt(s.blockLen, w) && |w| >= 2
    ensures Run(s, BytesBits(w)) == Run(StoreFirst(s, w[0]), BytesBits(w[1..]))
  {
    ClosesAtTail(s.blockLen, w);
    StoreOpen(s, w[0]);
    RunBytesCons(s, w);
  }

  /** The BLK stage takes the wire bytes `w` one per eight decisions, stores them without
      their parity bit and closes the block on the last of them. */
  lemma {:induction false} Accumulate(s: DecoderState, w: seq<byte>)
    requires Bounded(s) && s.stage == Blk && s.nbits == 8
    requires ClosesAt(s.blockLen, w)
    ensures Run(s, BytesBits(w)) == RunResult(Closed(s, w), [])
    decreases |w|, 1
  {
    if |w| == 1 {
      AccumulateOne(s, w);
    } else {
      AccumulateMore(s, w);
    }
  }

  lemma AccumulateOne(s: DecoderState, w: seq<byte>)
    requires Bounded(s) && s.stage == Blk && s.nbits == 8
    requires ClosesAt(s.blockLen, w) && |w| == 1
    ensures Run(s, BytesBits(w)) == RunResult(Closed(s, w), [])
  {
    Singleton(w);
    AccumulateLast(s, w[0]);
  }

  lemma {:induction false} AccumulateMore(s: DecoderState, w: seq<byte>)
    requires Bounded(s) && s.stage == Blk && s.nbits == 8
    requires ClosesAt(s.blockLen, w) && |w| >= 2
    ensures Run(s, BytesBits(w)) == RunResult(Closed(s, w), [])
    decreases |w|, 0
  {
    StoreFirstOpen(s, w);
    AccumulateStep(s, w);
    Accumulate(StoreFirst(s, w[0]), w[1..]);
    ClosedStep(s, w);
  }

  lemma BytesBitsOne(x: byte)
    ensures BytesBits([x]) == BitsOf(x)
  {
    assert [x][1..] == [];
  }

  /** The last byte of the block. */
  lemma AccumulateLast(s: DecoderState, x: byte)
    requires Bounded(s) && s.stage == Blk && s.nbits == 8
    requires IsDelimiter(x & 0x7f) || s.blockLen == MaxBlockSize
    ensures Run(s, BytesBits([x])) == RunResult(Closed(s, [x]), [])
  {
    BytesBitsOne(x);
    StoreClose(s, x);
    ClosedOne(s, x);
  }

  lemma ClosedOne(s: DecoderState, x: byte)
    requires 0 <= s.blockLen && s.blockLen + 2 <= |s.buf| && s.nbits == 8
    ensures Closed(s, [x]) ==
            s.(stage := Crc1, inByte := x & 0x7f, blockLen := s.blockLen + 1,
               buf := s.buf[s.blockLen := x & 0x7f][s.blockLen + 1 := NUL])
  {
    assert Strip([x]) == [x & 0x7f];
    WrittenOne(s.buf, s.blockLen, x & 0x7f);
  }

  /** The decisions of a whole transmission: SYN SYN SOH, the block, two CRC bytes, and the
      eight decisions after which the frame is handed on. */
  function Transmission(w: seq<byte>, crc1: byte, crc2: byte, trailer: seq<bool>): seq<bool> {
    BytesBits([SYN, SYN, SOH] + w + [crc1, crc2]) + trailer
  }

  lemma BytesBitsPair(a: byte, b: byte)
    ensures BytesBits([a, b]) == BitsOf(a) + BitsOf(b)
  {
    assert [a, b][1..] == [b];
    assert [b][1..] == [];
  }

  lemma BytesBitsTriple(a: byte, b: byte, c: byte)
    ensures BytesBits([a, b, c]) == BitsOf(a) + (BitsOf(b) + BitsOf(c))
  {
    assert [a, b, c][1..] == [b, c];
    BytesBitsPair(b, c);
  }

  /** The transmission split into its preamble, its block and the rest. */
  lemma TransmissionParts(w: seq<byte>, crc1: byte, crc2: byte, trailer: seq<bool>)
    ensures Transmission(w, crc1, crc2, trailer) ==
            BytesBits([SYN, SYN, SOH]) + (BytesBits(w) + (BytesBits([crc1, crc2]) + trailer))
  {
    BytesBitsAppend([SYN, SYN, SOH] + w, [crc1, crc2]);
    BytesBitsAppend([SYN, SYN, SOH], w);
    var x, y, z := BytesBits([SYN, SYN, SOH]), BytesBits(w), BytesBits([crc1, crc2]);
    ConcatAssoc(x + y, z, trailer);
    ConcatAssoc(x, y, z + trailer);
  }

  /** A stretch of decisions that emits nothing can be set aside: what follows runs from
      where it left the decoder. */
  lemma RunSilent(s: DecoderState, a: seq<bool>, b: seq<bool>)
    requires Bounded(s) && Run(s, a).frames == []
    ensures Run(s, a + b) == Run(Run(s, a).state, b)
  {
    RunAppend(s, a, b);
    NilConcat(Run(Run(s, a).state, b).frames);
  }

  /** The state in which SYN SYN SOH leaves a hunting decoder. */
  function Opened(s: DecoderState): DecoderState {
    s.(stage := Blk, inByte := SOH, blockLen := 0, nbits := 8)
  }

  /** SYN SYN SOH, received while hunting, opens an empty block. */
  lemma Preamble(s: DecoderState)
    requires Bounded(s) && s.stage == WSyn1 && s.nbits <= 1 && NoEarlySyn(s.inByte)
    ensures Run(s, BytesBits([SYN, SYN, SOH])) == RunResult(Opened(s), [])
  {
    BytesBitsTriple(SYN, SYN, SOH);
    var s1 := s.(stage := WSyn2, inByte := SYN, blockLen := 0, nbits := 8);
    HuntSyn(s);
    RunSilent(s, BitsOf(SYN), BitsOf(SYN) + BitsOf(SOH));
    FeedByte(s1, SYN);
    var s2 := OnByte(s1, SYN).state;
    RunSilent(s1, BitsOf(SYN), BitsOf(SOH));
    FeedByte(s2, SOH);
  }

  /** The first CRC byte is kept as received. */
  lemma TakeCrc1(s: DecoderState, x: byte, rest: seq<bool>)
    requires Bounded(s) && s.stage == Crc1 && s.nbits == 8
    ensures Run(s, BitsOf(x) + rest) == Run(s.(stage := Crc2, inByte := x, crc1 := x), rest)
  {
    FeedByte(s, x);
    RunSilent(s, BitsOf(x), rest);
  }

  /** The second CRC byte is kept as received. */
  lemma TakeCrc2(s: DecoderState, x: byte, rest: seq<bool>)
    requires Bounded(s) && s.stage == Crc2 && s.nbits == 8
    ensures Run(s, BitsOf(x) + rest) == Run(s.(stage := End, inByte := x, crc2 := x), rest)
  {
    FeedByte(s, x);
    RunSilent(s, BitsOf(x), rest);
  }

  /** Eight decisions after the second CRC byte the stored block is parsed and handed on. */
  lemma Emit(s: DecoderState, trailer: seq<bool>)
    requires Bounded(s) && s.stage == End && s.nbits == 8 && |trailer| == 8
    ensures var r := Run(s, trailer);
            r.frames == [AcarsFrame(Build(s.buf, s.blockLen), s.crc1, s.crc2)] &&
            r.state.stage == WSyn1 && r.state.blockLen == s.blockLen && r.state.buf == s.buf
  {
    FeedBits(s, trailer);
  }

  /** The two CRC bytes are kept as received, and eight decisions later the block is parsed
      and handed on as a frame; the decoder then hunts again. */
  lemma Postamble(s: DecoderState, crc1: byte, crc2: byte, trailer: seq<bool>)
    requires Bounded(s) && s.stage == Crc1 && s.nbits == 8 && |trailer| == 8
    ensures var r := Run(s, BytesBits([crc1, crc2]) + trailer);
            r.frames == [AcarsFrame(Build(s.buf, s.blockLen), crc1, crc2)] &&
            r.state.stage == WSyn1 && r.state.blockLen == s.blockLen && r.state.buf == s.buf
  {
    BytesBitsPair(crc1, crc2);
    ConcatAssoc(BitsOf(crc1), BitsOf(crc2), trailer);
    TakeCrc1(s, crc1, BitsOf(crc2) + trailer);
    var s1 := s.(stage := Crc2, inByte := crc1, crc1 := crc1);
    TakeCrc2(s1, crc2, trailer);
    Emit(s1.(stage := End, inByte := crc2, crc2 := crc2), trailer);
  }

  /** The preamble and the block leave the decoder waiting for the first CRC byte. */
  lemma ReceiveBlock(s: DecoderState, w: seq<byte>, post: seq<bool>)
    requires Bounded(s) && s.stage == WSyn1 && s.nbits <= 1 && NoEarlySyn(s.inByte)
    requires ClosesAt(0, w)
    ensures Run(s, BytesBits([SYN, SYN, SOH]) + (BytesBits(w) + post)) == Run(Closed(Opened(s), w), post)
  {
    Preamble(s);
    RunSilent(s, BytesBits([SYN, SYN, SOH]), BytesBits(w) + post);
    Accumulate(Opened(s), w);
    RunSilent(Opened(s), BytesBits(w), post);
  }

  /** One transmission, received while hunting, yields exactly one frame: the parsed block as
      stored (parity stripped, NUL after it, rest of the buffer unchanged) and the two CRC
      bytes as received; the decoder is hunting again afterwards. */
  lemma DecodeFrame(s: DecoderState, w: seq<byte>, crc1: byte, crc2: byte, trailer: seq<bool>)
    requires Bounded(s) && s.stage == WSyn1 && s.nbits <= 1 && NoEarlySyn(s.inByte)
    requires ClosesAt(0, w) && |trailer| == 8
    ensures |w| + 1 <= BufferSize
    ensures var buf := Written(s.buf, 0, Strip(w));
            var r := Run(s, Transmission(w, crc1, crc2, trailer));
            r.frames == [AcarsFrame(Build(buf, |w|), crc1, crc2)] &&
            r.state.stage == WSyn1 && r.state.blockLen == |w| && r.state.buf == buf
  {
    TransmissionParts(w, crc1, crc2, trailer);
    ReceiveBlock(s, w, BytesBits([crc1, crc2]) + trailer);
    var s2 := Closed(Opened(s), w);
    Postamble(s2, crc1, crc2, trailer);
  }

  /** A well-formed message sent as 7-bit bytes (with any parity bits) is received as a frame
      whose block carries the message's fields. */
  lemma DecodeMessage(m: Message, w: seq<byte>, crc1: byte, crc2: byte, trailer: seq<bool>)
    requires WellFormed(m) && Strip(w) == Encode(m) && ClosesAt(0, w) && |trailer| == 8
    ensures var r := Run(Init(), Transmission(w, crc1, crc2, trailer));
            |r.frames| == 1 && r.frames[0].crc1 == crc1 && r.frames[0].crc2 == crc2 &&
            Recovers(r.frames[0].block, m)
  {
    var s := Init();
    InitialHunt();
    DecodeFrame(s, w, crc1, crc2, trailer);
    ParseStored(m, w, s.buf);
  }

  /** The parsed block carries every field of the message `m`; a text of a single byte is
      not recovered. */
  predicate Recovers(b: AcarsBlock, m: Message) {
    b.mode == m.mode && b.address == m.address && b.ackId == m.ackId &&
    b.msgLabel == m.msgLabel && b.blkId == m.blkId && b.suffix == m.suffix &&
    b.isUplink == IsUplinkId(m.blkId) && b.isMultiblock == (m.suffix == ETB) &&
    b.msn == (if m.body.DownlinkText? then m.body.msn else []) &&
    b.flightId == (if m.body.DownlinkText? then m.body.flightId else []) &&
    b.text == (if |BodyText(m.body)| >= 2 then BodyText(m.body) else [])
  }

  /** The buffer after `p` was stored from offset 0 starts with `p` and a NUL. */
  lemma WrittenFromStart(buf: seq<byte>, p: seq<byte>)
    requires |p| + 1 <= |buf|
    ensures Written(buf, 0, p) == p + ([NUL] + buf[|p| + 1..])
  {
    assert buf[..0] == [];
  }

  /** Parsing the buffer after the bytes of an encoded message were stored from offset 0. */
  lemma ParseStored(m: Message, w: seq<byte>, buf: seq<byte>)
    requires WellFormed(m) && Strip(w) == Encode(m) && |buf| == BufferSize && |w| + 1 <= BufferSize
    ensures Recovers(Build(Written(buf, 0, Strip(w)), |w|), m)
  {
    WrittenFromStart(buf, Encode(m));
    BuildEncode(m, [NUL] + buf[|w| + 1..]);
  }
}
