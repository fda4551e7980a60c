# ACARS frame decoding, block parsing and clean-block output

This project models the part of acarsGO that turns the demodulator's bit decisions into
ACARS frames, and what it then does with each frame:

- **Frame decoder** (`acarsFrameDecoder`). This is a per-channel state machine fed one
  soft bit decision at a time.
  - It shifts each decision into a byte register, least significant bit first.
  - While hunting it evaluates the register after every decision, so the first SYN is
    found at any bit offset.
  - It then needs a second SYN and an SOH, each on a byte boundary.
  - Block bytes are stored with the parity bit cleared and a NUL after each one. The block
    closes on ETX or ETB, or when 243 bytes were already stored.
  - The next two bytes are kept raw as the CRC bytes.
  - One byte time later the buffer goes to the block parser and exactly one frame is
    emitted.
  - Neither parity nor CRC is checked.
- **Block parser** (`acarsBlockBuilder`). This reads fields at fixed offsets:
  - mode, aircraft address, technical ack, label, block id, preamble delimiter and suffix;
  - the uplink and multiblock flags;
  - when a start of text is present, the downlink sequence number, the flight id and the
    text;
  - the sublabel of "H1" messages.
- **Clean-block output** (`printAcarsCleanBlock`). This turns the stored bytes into
  printable text and stops at ETX, at ETB, or at a NUL past offset 25.

Modules:

- `Ascii` (ascii.dfy): the control bytes and an `Option` type.
- `BitAssembly` (bits.dfy): the byte register, with proofs that eight decisions carrying a
  byte LSB first assemble that byte.
- `BlockParser` (block.dfy): `Build`, the parser as a function. A sender-side `Encode` of a
  well-formed `Message` states what `Build` recovers.
- `FrameDecoder` (decoder.dfy):
  - the decoder's state as a value (`DecoderState`);
  - one decision as a function (`Next`, with the stage logic `OnByte`) and its invariant
    `Inv`;
  - the class `Decoder`, whose `Step` method updates the loop variables and the output
    buffer array in place, proved equal to `Next`.
- `FrameStream` (stream.dfy): `Run` feeds a whole sequence of decisions. It proves the
  sliding SYN hunt, the gating of the block behind SYN SYN SOH and the storage of the block
  bytes. Its end-to-end result is that one transmission yields exactly one frame, which
  carries the message's fields.
- `SeqFacts` (seqs.dfy): generic facts about sequences used by the stream proofs.
- `Output` (clean.dfy):
  - `CleanBlock`, the sanitiser as a loop over a character array;
  - its specification `Clean`;
  - what it yields on a buffer the decoder stored.

Two details of the code that the model follows as written:

- `maxBlockSize` is 243 (acars.go:71-73), but the length test at acars.go:127 runs before
  the byte is stored. A block without a delimiter therefore closes on its 244th byte. The
  245-byte buffer holds exactly that byte plus the trailing NUL. `Framed`, `BlockByte` and
  `ClosesAt` state the 244-byte limit.
- The parser does not bound-check its fixed offsets against the block length
  (acars.go:198-229). It always parses the whole 245-byte buffer, so offsets 0 to 25 are
  always inside it. `Build` therefore requires a buffer of at least 26 bytes and reads
  those offsets whatever the block length is.
  - For example, the sublabel of an "H1" block is bytes 24 and 25 of the buffer, even on a
    short block.

## Model

| member | source | states |
|---|---|---|
| BitAssembly.ShiftInBits | acars.go:87-90 | a decision enters the register at bit 7 and every older bit moves down by one |
| BitAssembly.ShiftInAllBits | acars.go:87-91 | after n <= 8 decisions the newest n bits fill the top of the register in arrival order and the old contents moved down by n |
| BitAssembly.AssembleByte | acars.go:87-91 | eight decisions carrying a byte's bits LSB first leave exactly that byte in the register, whatever it held before |
| BlockParser.TextField | acars.go:214-225 | the text is empty without a start of text; otherwise it runs from offset 23 (downlink, block longer than 25) or 13 (uplink, block longer than 15) to the byte before the suffix, and a non-empty text has at least 2 bytes |
| BlockParser.Build | acars.go:172-233 | address is 7 bytes and label 2; sequence number present iff start of text and downlink, then 4 bytes with a 6-byte flight id; text only after a start of text, at least 2 bytes, starting at offset 13 (uplink) or 23 (downlink) and ending just before the suffix; sublabel of 2 bytes iff the label is "H1" |
| BlockParser.FlagsIndependent | acars.go:206-230 | uplink iff block id >= 0x40 or NUL; multiblock iff the suffix is ETB; each flag depends on that byte alone; the sublabel is bytes 24..25 iff the label is "H1", whatever the preamble and direction, and depends on those bytes alone |
| BlockParser.BuildEncodeHeader | acars.go:197-212 | parsing an encoded block recovers mode, address, ack, label, block id, suffix and both flags, whatever follows it in the buffer |
| BlockParser.BuildEncodeNoText | acars.go:214 | without a start of text the preamble byte is the suffix and no sequence number, flight id or text is set |
| BlockParser.BuildEncodeDownlink | acars.go:214-221 | a downlink block yields its sequence number, its flight id and its text if the text has at least 2 bytes |
| BlockParser.BuildEncodeUplink | acars.go:222-225 | an uplink block yields its text if the text has at least 2 bytes and no sequence number or flight id |
| BlockParser.BuildEncode | acars.go:194-230 | parsing an encoded well-formed message recovers every field; a one-byte text is not recovered |
| FrameDecoder.Init | acars.go:77-81 | the start state is hunting with a one-decision countdown and satisfies the invariant |
| FrameDecoder.OnByte | acars.go:94-148 | the stage logic keeps the buffer size and length bounds; it emits a frame exactly in the END stage |
| FrameDecoder.StoreKeepsInv | acars.go:120-133 | storing a 7-bit byte and a NUL keeps an open block delimiter-free or closes it as a framed block |
| FrameDecoder.Next | acars.go:84-93 | one decision keeps the bounds; it emits a frame exactly when the countdown expires in the END stage |
| FrameDecoder.OnByteKeepsInv | acars.go:94-148 | the stage logic preserves the invariant |
| FrameDecoder.NextKeepsInv | acars.go:84-150 | every decision preserves the invariant |
| FrameDecoder.Transitions | acars.go:95-118 | a decision keeps the stage, advances it by one or drops a hunt to WSYN1; SYN, SYN, SOH are required in turn; BLK is entered only from WSOH on SOH with an empty block |
| FrameDecoder.BlockByte | acars.go:120-133 | a block byte is stored with its top bit cleared and a NUL after it; nothing else in the buffer changes; the block closes iff ETX/ETB or 243 bytes were already stored, so it never exceeds 244 |
| FrameDecoder.Decoder.constructor | acars.go:77-81 | a new decoder is in the start state with nothing emitted |
| FrameDecoder.Decoder.Step | acars.go:84-150 | the in-place step on the fields and the buffer array produces the state and frame of `Next`, keeps the invariant and records an emitted frame |
| FrameDecoder.Decoder.Evaluate | acars.go:93-148 | the switch on the stage updates fields and buffer exactly as `OnByte` does |
| FrameDecoder.Decoder.StoreByte | acars.go:120-133 | the BLK case clears the top bit, stores the byte and a NUL, counts it and moves to CRC1 on a delimiter or at the length cap |
| FrameStream.Run | acars.go:84-150 | feeding a decision sequence keeps the bounds and emits at most one frame per decision |
| FrameStream.RunKeepsInv | acars.go:84-150 | any decision sequence from a reachable state ends in a reachable state |
| FrameStream.RunAppend | acars.go:84-150 | running two stretches of decisions is running the second from where the first left off, frames concatenated |
| FrameStream.Partial | acars.go:87-93 | before the countdown expires only the register and the countdown change and nothing is emitted |
| FrameStream.FeedBits | acars.go:87-93 | eight decisions after a byte boundary run the stage logic once, on the byte they assembled |
| FrameStream.FeedByte | acars.go:87-93 | sending a byte's bits LSB first after a byte boundary runs the stage logic on that byte |
| FrameStream.HuntMiss | acars.go:95-100 | while hunting every decision is evaluated, and decisions that do not complete a SYN keep the decoder in WSYN1 with an empty block |
| FrameStream.HuntSyn | acars.go:87-100 | a SYN arriving at any bit offset is found by the sliding hunt and moves the decoder to WSYN2 |
| FrameStream.InitialHunt | acars.go:77-90 | the start state's register cannot complete a SYN early |
| FrameStream.StoreOpen | acars.go:120-133 | a block byte that is not a delimiter, below the cap, is stored and the block stays open |
| FrameStream.StoreClose | acars.go:127-133 | a delimiter, or the byte at the cap, is stored and closes the block |
| FrameStream.Accumulate | acars.go:120-133 | the block bytes are stored parity-stripped with a NUL after them, the rest of the buffer unchanged, and the block closes on the last of them with nothing emitted |
| FrameStream.AccumulateLast | acars.go:127-133 | the closing byte leads to CRC1 with the byte stored |
| FrameStream.Preamble | acars.go:95-118 | SYN SYN SOH received while hunting opens an empty block |
| FrameStream.TakeCrc1 | acars.go:135-137 | the first byte after the block is kept raw as the first CRC byte and nothing is emitted |
| FrameStream.TakeCrc2 | acars.go:139-141 | the next byte is kept raw as the second CRC byte and nothing is emitted |
| FrameStream.Emit | acars.go:143-147 | eight decisions later exactly one frame, the parsed buffer with both CRC bytes, is emitted and the decoder hunts again |
| FrameStream.Postamble | acars.go:135-147 | the two CRC bytes are kept raw and eight decisions later exactly one frame with the parsed buffer is emitted and hunting restarts |
| FrameStream.ReceiveBlock | acars.go:95-133 | preamble and block leave the decoder waiting for the first CRC byte with the block stored |
| FrameStream.DecodeFrame | acars.go:84-150 | one transmission received while hunting yields exactly one frame: the parsed stored block and the raw CRC bytes; the decoder then hunts again |
| FrameStream.DecodeMessage | acars.go:84-150 | a fresh decoder receiving a well-formed message emits one frame whose block carries every field of the message, a one-byte text excepted |
| FrameStream.ParseStored | acars.go:172-233 | parsing the buffer after an encoded message was stored recovers the message's fields, a one-byte text excepted |
| Output.Render | output.go:44-58 | a non-stopping byte is shown as itself if printable, 'd' for DEL, '.' otherwise; always printable |
| Output.StopFrom | output.go:42-59 | the scan stops at the first ETX/ETB, or NUL past index 25, or at the end |
| Output.CleanBlock | output.go:37-62 | the result is every byte before the first stopping byte, rendered; printable; no longer than the input |
| Output.StopFromFirst | output.go:42-59 | the first index at which the scan ends is the stop index |
| Output.CleanStoredBlock | output.go:42-59 | on a buffer the decoder stored the clean text never runs past the block; it ends at the delimiter, at the NUL after a 244-byte block, or at an embedded NUL past index 25 |

## Left out

- The demodulator, channelizer, tuner and program entry (demod.go, channel.go, rtl.go, main.go) are not part of this model. The decoder's input is a sequence of decisions, each the sign of a soft bit value.
- The channels are not modelled. The receive from the bit channel becomes a `bit` parameter, and the send to the output channel becomes an emitted frame (recorded in `Decoder.frames`). Queueing, blocking and concurrency are not modelled.
- The frame's reception time, signal level and frequency are left out (acars.go:111-113). They come from the clock, a floating-point logarithm and a parameter. A frame is the parsed block plus the two CRC bytes.
- The start-up log line (acars.go:75) is I/O and is left out.
- Parity and CRC validation is left out. The code has none (acars.go:122 only marks parity as still to do), so the model passes the CRC bytes through raw.
- `Build` copies the buffer into every field it extracts: `raw`, `address`, `msgLabel`, `msn`, `flightId`, `text` and `sublabel`. In the code all of these are slices of the decoder's own buffer (acars.go:197-229), which later blocks overwrite. The detailed frame printer also writes through the label slice into that buffer (output.go:71-74). The model does not capture this aliasing.
- The output dispatcher `controlOutput` and the detailed printers `printAcarsDetailedFrame` / `printAcarsDetailedBlock` are not part of this model; the printing is I/O.
- Output.CleanBlock returns the text; printing it is left out.
- BlockParser.BuildEncode: a one-byte text is not recovered, because the code takes the text only when the block is longer than 25 (downlink) or 15 (uplink) bytes.
