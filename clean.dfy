/** The clean-block sanitiser: the raw bytes of a block turned into printable text, up to the
    first byte that ends the block. */
module Output {
  import opened Ascii
  import opened FrameDecoder

  /** Printable ASCII, space to tilde. */
  predicate Printable(c: char) {
    ' ' <= c <= '~'
  }

  /** The byte at `i` ends the scan: ETX or ETB anywhere, NUL only past the fixed header
      offsets (index 26 on). */
  predicate Stops(s: seq<byte>, i: nat)
    requires i < |s|
  {
    IsDelimiter(s[i]) || (i > 25 && s[i] == NUL)
  }

  /** The character shown for a byte that does not end the scan. */
  function Render(b: byte): (c: char)
    ensures Printable(c)
    ensures 0x20 <= b < DEL ==> c as int == b as int
    ensures b == DEL ==> c == 'd'
    ensures !(0x20 <= b <= DEL) ==> c == '.'
  {
    if 0x20 <= b < DEL then (b as int) as char
    else if b == DEL then 'd'
    else '.'
  }

  /** The first index at or after `i` where the scan ends, or `|s|` if there is none. */
  function StopFrom(s: seq<byte>, i: nat): (n: nat)
    requires i <= |s|
    ensures i <= n <= |s|
    ensures n < |s| ==> Stops(s, n)
    ensures forall k :: i <= k < n ==> !Stops(s, k)
    decreases |s| - i
  {
    if i == |s| then i
    else if Stops(s, i) then i
    else StopFrom(s, i + 1)
  }

  /** The specification of the sanitiser: every byte before the first stopping byte,
      rendered. */
  function Clean(s: seq<byte>): (r: string)
    ensures |r| == StopFrom(s, 0)
  {
    seq(StopFrom(s, 0), k requires 0 <= k < StopFrom(s, 0) => Render(s[k]))
  }

  /** Fills a buffer as long as the input index by index and cuts it where the scan
      stopped. */
  method CleanBlock(byteStream: seq<byte>) returns (r: string)
    ensures r == Clean(byteStream)
    ensures |r| <= |byteStream|
    ensures |r| < |byteStream| ==> Stops(byteStream, |r|)
    ensures forall k :: 0 <= k < |r| ==> !Stops(byteStream, k) && r[k] == Render(byteStream[k])
    ensures forall k :: 0 <= k < |r| ==> Printable(r[k])
  {
    var blockBytes := new char[|byteStream|];
    var i := 0;
    while i < |byteStream|
      invariant 0 <= i <= |byteStream|
      invariant forall k :: 0 <= k < i ==> !Stops(byteStream, k) && blockBytes[k] == Render(byteStream[k])
    {
      var b := byteStream[i];
      if 0x20 <= b < DEL {
        blockBytes[i] := (b as int) as char;
      } else if b == DEL {
        blockBytes[i] := 'd';
      } else if b == ETX || b == ETB {
        break;
      } else if i > 25 && b == NUL {
        break;
      } else {
        blockBytes[i] := '.';
      }
      i := i + 1;
    }
    r := blockBytes[..i];
    StopFromFirst(byteStream, i);
  }

  /** The stop index is the first index at which the scan ends. */
  lemma {:induction false} StopFromFirst(s: seq<byte>, n: nat)
    requires n <= |s|
    requires forall k :: 0 <= k < n ==> !Stops(s, k)
    requires n < |s| ==> Stops(s, n)
    ensures StopFrom(s, 0) == n
  {
    StopFromAt(s, 0, n);
  }

  lemma {:induction false} StopFromAt(s: seq<byte>, i: nat, n: nat)
    requires i <= n <= |s|
    requires forall k :: i <= k < n ==> !Stops(s, k)
    requires n < |s| ==> Stops(s, n)
    ensures StopFrom(s, i) == n
    decreases n - i
  {
    if i < n {
      StopFromAt(s, i + 1, n);
    }
  }

  /** On a block as the decoder stores it (7-bit bytes closed by a delimiter or cut at its
      longest length, followed by a NUL), the sanitised text never runs past the block: it
      ends at a NUL inside the block past index 25, at the closing delimiter, or at the NUL
      after a block cut at its longest length. */
  lemma CleanStoredBlock(buf: seq<byte>, n: nat)
    requires n < |buf| && Framed(buf[..n]) && buf[n] == NUL
    ensures |Clean(buf)| <= n
    ensures |Clean(buf)| < n - 1 ==> |Clean(buf)| > 25 && buf[|Clean(buf)|] == NUL
    ensures (forall k :: 25 < k < n ==> buf[k] != NUL) ==>
              |Clean(buf)| == (if IsDelimiter(buf[n - 1]) then n - 1 else n)
  {
    var p := buf[..n];
    var m := |Clean(buf)|;
    assert p[..n - 1] == buf[..n - 1];
    if n > 25 {
      assert Stops(buf, n);
    } else {
      assert p[n - 1] == buf[n - 1];
      assert Stops(buf, n - 1);
    }
    if m < n - 1 {
      assert p[..n - 1][m] == buf[m];
    }
    if IsDelimiter(buf[n - 1]) {
      assert Stops(buf, n - 1);
    }
  }
}
