/** The ACARS frame decoder: a per-channel state machine fed one bit decision at a time.

    It hunts bit by bit for SYN, then requires SYN SYN SOH on byte boundaries, accumulates
    parity-stripped block bytes until ETX/ETB or the length cap, takes two raw CRC bytes and,
    one byte time later, hands the block to the parser and emits one frame. Neither parity
    nor CRC is checked. `Next` is the step as a function of the state; the class `Decoder`
    performs it in place on its fields and buffer. */
module FrameDecoder {
  import opened Ascii
  import opened BitAssembly
  import opened BlockParser

  const MaxHeaderSize: int := 23
  const MaxPayload: int := 220
  const MaxBlockSize: int := MaxHeaderSize + MaxPayload
  /** Room for the longest block plus the NUL written after its last byte. */
  const BufferSize: int := MaxBlockSize + 2

  datatype Stage = WSyn1 | WSyn2 | WSoh | Blk | Crc1 | Crc2 | End

  /** An emitted frame: the parsed block and the two CRC bytes as received. */
  datatype AcarsFrame = AcarsFrame(block: AcarsBlock, crc1: byte, crc2: byte)

  datatype DecoderState = DecoderState(
    stage: Stage,
    inByte: byte,
    nbits: int,
    blockLen: int,
    buf: seq<byte>,
    crc1: byte,
    crc2: byte)

  datatype StepResult = StepResult(state: DecoderState, frame: Option<AcarsFrame>)

  /** The frames a step hands to the output queue: none, or the one it emitted. */
  function Emitted(f: Option<AcarsFrame>): seq<AcarsFrame> {
    if f.Some? then [f.value] else []
  }

  /** Bytes accepted into a block that is still open: 7-bit, and no delimiter among them. */
  predicate Accumulated(p: seq<byte>) {
    forall i :: 0 <= i < |p| ==> p[i] < 0x80 && !IsDelimiter(p[i])
  }

  /** A closed block: 7-bit bytes, a delimiter only as the last byte, and either a delimiter
      there or the block cut at its longest length. */
  predicate Framed(p: seq<byte>) {
    1 <= |p| <= MaxBlockSize + 1 &&
    Accumulated(p[..|p| - 1]) && p[|p| - 1] < 0x80 &&
    (IsDelimiter(p[|p| - 1]) || |p| == MaxBlockSize + 1)
  }

  /** The shape every state keeps whatever the bytes: the buffer size, the length bounds the
      BLK stage relies on, and a non-empty block once it has closed. */
  predicate Bounded(s: DecoderState) {
    |s.buf| == BufferSize &&
    0 <= s.blockLen <= MaxBlockSize + 1 &&
    (s.stage == Blk ==> s.blockLen <= MaxBlockSize) &&
    (s.stage == Crc1 || s.stage == Crc2 || s.stage == End ==> 1 <= s.blockLen)
  }

  /** What holds between any two bit decisions of a decoder started in `Init()`. */
  predicate Inv(s: DecoderState) {
    Bounded(s) &&
    (s.stage == WSyn1 ==> 0 <= s.nbits <= 1) &&
    (s.stage != WSyn1 ==> 1 <= s.nbits <= 8) &&
    (s.stage == WSyn2 || s.stage == WSoh ==> s.blockLen == 0) &&
    (s.stage == Blk ==>
       Accumulated(s.buf[..s.blockLen]) && (s.blockLen > 0 ==> s.buf[s.blockLen] == NUL)) &&
    (s.stage == Crc1 || s.stage == Crc2 || s.stage == End ==>
       Framed(s.buf[..s.blockLen]) && s.buf[s.blockLen] == NUL)
  }

  /** The state before the first decision: hunting, with a one-bit countdown so that the
      stage logic runs on every decision. */
  function Init(): (s: DecoderState)
    ensures Inv(s) && s.stage == WSyn1
  {
    DecoderState(WSyn1, 0x00, 1, 0, seq(BufferSize, _ => NUL), 0x00, 0x00)
  }

  /** The stage logic, run when the bit countdown expires with `x` in the byte register. */
  function OnByte(s: DecoderState, x: byte): (r: StepResult)
    requires Bounded(s)
    ensures Bounded(r.state)
    ensures r.frame.Some? <==> s.stage == End
  {
    match s.stage
    case WSyn1 =>
      if x == SYN then StepResult(s.(stage := WSyn2, inByte := x, blockLen := 0, nbits := 8), None)
      else StepResult(s.(stage := WSyn1, inByte := x, blockLen := 0, nbits := 0), None)
    case WSyn2 =>
      if x == SYN then StepResult(s.(stage := WSoh, inByte := x, blockLen := 0, nbits := 8), None)
      else StepResult(s.(stage := WSyn1, inByte := x, blockLen := 0, nbits := 0), None)
    case WSoh =>
      if x == SOH then StepResult(s.(stage := Blk, inByte := x, blockLen := 0, nbits := 8), None)
      else StepResult(s.(stage := WSyn1, inByte := x, blockLen := 0, nbits := 0), None)
    case Blk =>
      var c := x & 0x7f;
      var closes := IsDelimiter(c) || s.blockLen >= MaxBlockSize;
      StepResult(s.(stage := if closes then Crc1 else Blk, inByte := c, nbits := 8,
                    buf := s.buf[s.blockLen := c][s.blockLen + 1 := NUL], blockLen := s.blockLen + 1), None)
    case Crc1 =>
      StepResult(s.(stage := Crc2, inByte := x, nbits := 8, crc1 := x), None)
    case Crc2 =>
      StepResult(s.(stage := End, inByte := x, nbits := 8, crc2 := x), None)
    case End =>
      var block := Build(s.buf, s.blockLen);
      StepResult(s.(stage := WSyn1, inByte := x, nbits := 0), Some(AcarsFrame(block, s.crc1, s.crc2)))
  }

  /** Storing one more block byte keeps the invariant. */
  lemma StoreKeepsInv(s: DecoderState, t: DecoderState)
    requires Inv(s) && s.stage == Blk
    requires var c := t.inByte;
             c < 0x80 && t.blockLen == s.blockLen + 1 && t.nbits == 8 &&
             t.buf == s.buf[s.blockLen := c][s.blockLen + 1 := NUL] &&
             t.stage == (if IsDelimiter(c) || s.blockLen >= MaxBlockSize then Crc1 else Blk)
    ensures Inv(t)
  {
    StoredPrefix(s.buf, s.blockLen, t.inByte);
    if t.stage == Blk {
      AccumulatedSnoc(s.buf[..s.blockLen], t.inByte);
    } else {
      FramedSnoc(s.buf[..s.blockLen], t.inByte);
    }
  }

  /** An open block stays open after a 7-bit byte that is not a delimiter. */
  lemma AccumulatedSnoc(q: seq<byte>, c: byte)
    requires Accumulated(q) && c < 0x80 && !IsDelimiter(c)
    ensures Accumulated(q + [c])
  {
  }

  /** A 7-bit delimiter, or the byte after the longest open block, closes the block. */
  lemma FramedSnoc(q: seq<byte>, c: byte)
    requires Accumulated(q) && c < 0x80 && |q| <= MaxBlockSize
    requires IsDelimiter(c) || |q| >= MaxBlockSize
    ensures Framed(q + [c])
  {
    assert (q + [c])[..|q|] == q;
  }

  /** After storing `c` and a NUL at `n`, the block is the old one with `c` appended. */
  lemma StoredPrefix(buf: seq<byte>, n: int, c: byte)
    requires 0 <= n && n + 2 <= |buf|
    ensures buf[n := c][n + 1 := NUL][..n + 1] == buf[..n] + [c]
    ensures buf[n := c][n + 1 := NUL][n + 1] == NUL
  {
  }

  /** One bit decision: shift the bit in, count it, and run the stage logic when the count
      reaches zero. Exactly the decisions that complete the byte after the second CRC byte
      emit a frame. */
  function Next(s: DecoderState, bit: bool): (r: StepResult)
    requires Bounded(s)
    ensures Bounded(r.state)
    ensures r.frame.Some? <==> s.stage == End && s.nbits <= 1
  {
    var x := ShiftIn(s.inByte, bit);
    if s.nbits - 1 > 0 then StepResult(s.(inByte := x, nbits := s.nbits - 1), None)
    else OnByte(s, x)
  }

  /** The stage logic does not look at the register or the countdown it replaces. */
  lemma OnByteRegister(s: DecoderState, t: DecoderState, x: byte)
    requires Bounded(s) && t == s.(inByte := t.inByte, nbits := t.nbits)
    ensures OnByte(t, x) == OnByte(s, x)
  {
  }

  /** The stage logic keeps the invariant. */
  lemma OnByteKeepsInv(s: DecoderState, x: byte)
    requires Inv(s)
    ensures Inv(OnByte(s, x).state)
  {
    if s.stage == Blk {
      StoreKeepsInv(s, OnByte(s, x).state);
    }
  }

  /** Every decision keeps the invariant. */
  lemma NextKeepsInv(s: DecoderState, bit: bool)
    requires Inv(s)
    ensures Inv(Next(s, bit).state)
  {
    if s.nbits - 1 <= 0 {
      OnByteKeepsInv(s, ShiftIn(s.inByte, bit));
    }
  }

  /** The stages a frame passes through, in order; hunting stages fall back to WSyn1. */
  predicate Successor(a: Stage, b: Stage) {
    (a == WSyn1 && b == WSyn2) || (a == WSyn2 && b == WSoh) || (a == WSoh && b == Blk) ||
    (a == Blk && b == Crc1) || (a == Crc1 && b == Crc2) || (a == Crc2 && b == End) ||
    (a == End && b == WSyn1)
  }

  predicate Hunting(a: Stage) {
    a == WSyn1 || a == WSyn2 || a == WSoh
  }

  /** A decision keeps the stage, advances it by one, or drops a hunt back to WSyn1. The
      block is only entered after SYN, SYN and SOH were assembled at three consecutive
      evaluations, and a mismatch while hunting restarts with an empty block. */
  lemma Transitions(s: DecoderState, bit: bool)
    requires Inv(s)
    ensures var t := Next(s, bit).state;
            var x := ShiftIn(s.inByte, bit);
            (t.stage == s.stage || Successor(s.stage, t.stage) || (Hunting(s.stage) && t.stage == WSyn1)) &&
            (s.stage == WSyn1 ==> t.stage == (if x == SYN then WSyn2 else WSyn1)) &&
            (s.stage == WSyn2 && s.nbits == 1 ==> t.stage == (if x == SYN then WSoh else WSyn1)) &&
            (s.stage == WSoh && s.nbits == 1 ==> t.stage == (if x == SOH then Blk else WSyn1)) &&
            (Hunting(s.stage) && s.nbits <= 1 ==> t.blockLen == 0) &&
            (t.stage == Blk && s.stage != Blk ==> s.stage == WSoh && x == SOH && t.blockLen == 0)
  {
    var x := ShiftIn(s.inByte, bit);
    if s.nbits - 1 <= 0 {
      var t := OnByte(s, x).state;
      match s.stage {
        case WSyn1 =>
        case WSyn2 =>
        case WSoh =>
        case Blk =>
        case Crc1 =>
        case Crc2 =>
        case End =>
      }
    }
  }

  /** A block byte is stored with its parity bit cleared and a NUL after it; nothing else in
      the buffer changes; the block closes exactly on ETX, ETB or when it already held
      MaxBlockSize bytes. */
  lemma BlockByte(s: DecoderState, bit: bool)
    requires Inv(s) && s.stage == Blk && s.nbits == 1
    ensures var t := Next(s, bit).state;
            var c := ShiftIn(s.inByte, bit) & 0x7f;
            c < 0x80 && t.blockLen == s.blockLen + 1 && t.blockLen <= MaxBlockSize + 1 &&
            t.buf[s.blockLen] == c && t.buf[s.blockLen + 1] == NUL &&
            (forall i :: 0 <= i < BufferSize && i != s.blockLen && i != s.blockLen + 1 ==> t.buf[i] == s.buf[i]) &&
            (t.stage == Crc1 <==> IsDelimiter(c) || s.blockLen >= MaxBlockSize) &&
            (t.stage != Crc1 ==> t.stage == Blk)
  {
  }

  /** One decoder per channel. The fields are the decoding loop's variables; `frames` records
      every frame handed to the output queue. */
  class Decoder {
    var frameStage: Stage
    var inByte: byte
    var nbits: int
    var blockLen: int
    const outputBlock: array<byte>
    var crc1: byte
    var crc2: byte
    ghost var frames: seq<AcarsFrame>

    ghost function State(): DecoderState
      reads this, outputBlock
    {
      DecoderState(frameStage, inByte, nbits, blockLen, outputBlock[..], crc1, crc2)
    }

    ghost predicate Valid()
      reads this, outputBlock
    {
      Inv(State())
    }

    constructor ()
      ensures Valid() && State() == Init() && frames == []
      ensures fresh(outputBlock)
    {
      frameStage := WSyn1;
      inByte := 0x00;
      nbits := 1;
      blockLen := 0;
      outputBlock := new byte[BufferSize](_ => NUL);
      crc1, crc2 := 0x00, 0x00;
      frames := [];
      new;
      assert outputBlock[..] == seq(BufferSize, _ => NUL);
    }

    /** Consumes one bit decision (`bit` is "the soft decision is positive"). */
    method Step(bit: bool) returns (frame: Option<AcarsFrame>)
      requires Valid()
      modifies this, outputBlock
      ensures Valid()
      ensures State() == Next(old(State()), bit).state
      ensures frame == Next(old(State()), bit).frame
      ensures frames == old(frames) + Emitted(frame)
    {
      ghost var s := State();
      NextKeepsInv(s, bit);
      frame := None;
      inByte := ShiftIn(inByte, bit);
      nbits := nbits - 1;
      if nbits <= 0 {
        OnByteRegister(s, State(), inByte);
        frame := Evaluate();
      }
    }

    /** The stage logic, on the byte now in `inByte`. */
    method Evaluate() returns (frame: Option<AcarsFrame>)
      requires Bounded(State())
      modifies this, outputBlock
      ensures State() == OnByte(old(State()), old(inByte)).state
      ensures frame == OnByte(old(State()), old(inByte)).frame
      ensures frames == old(frames) + Emitted(frame)
    {
      frame := None;
      match frameStage {
        case WSyn1 =>
          if inByte == SYN {
            frameStage, blockLen, nbits := WSyn2, 0, 8;
          } else {
            frameStage, blockLen, nbits := WSyn1, 0, 0;
          }
        case WSyn2 =>
          if inByte == SYN {
            frameStage, blockLen, nbits := WSoh, 0, 8;
          } else {
            frameStage, blockLen, nbits := WSyn1, 0, 0;
          }
        case WSoh =>
          if inByte == SOH {
            frameStage, blockLen, nbits := Blk, 0, 8;
          } else {
            frameStage, blockLen, nbits := WSyn1, 0, 0;
          }
        case Blk =>
          StoreByte();
        case Crc1 =>
          crc1 := inByte;
          frameStage, nbits := Crc2, 8;
        case Crc2 =>
          crc2 := inByte;
          frameStage, nbits := End, 8;
        case End =>
          frameStage, nbits := WSyn1, 0;
          var block := Build(outputBlock[..], blockLen);
          frame := Some(AcarsFrame(block, crc1, crc2));
          frames := frames + Emitted(frame);
      }
    }

    /** The BLK stage: strip the parity bit, close the block on a delimiter or at the length
        cap, store the byte and a NUL after it. */
    method StoreByte()
      requires outputBlock.Length == BufferSize && 0 <= blockLen <= MaxBlockSize
      modifies this, outputBlock
      ensures inByte == old(inByte) & 0x7f && nbits == 8 && blockLen == old(blockLen) + 1
      ensures frameStage == if IsDelimiter(inByte) || old(blockLen) >= MaxBlockSize then Crc1 else old(frameStage)
      ensures outputBlock[..] == old(outputBlock[..])[old(blockLen) := inByte][old(blockLen) + 1 := NUL]
      ensures crc1 == old(crc1) && crc2 == old(crc2) && frames == old(frames)
    {
      nbits := 8;
      inByte := inByte & 0x7f;
      if inByte == ETX || inByte == ETB || blockLen >= MaxBlockSize {
        frameStage, nbits := Crc1, 8;
      }
      outputBlock[blockLen] := inByte;
      outputBlock[blockLen + 1] := NUL;
      blockLen := blockLen + 1;
    }
  }
}
