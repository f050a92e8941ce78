/** Length-prefixed frames on a byte stream (connections_tcp.go:59-138; the extended lengths of section 3.2 of
    RFC 8323, but with the length nibble in the low bits of the first byte). */
module TcpFraming {
  import opened Prelude
  import opened Integers

  datatype ReadError = EndOfStream | UnexpectedEnd | ShortBuffer

  datatype Read<T> = Got(value: T) | Failed(error: ReadError)

  // ---------------------------------------------------------------- lengths and frames as values

  function EncodeLength(length: nat): seq<byte> {
    if length <= 12 then [length]
    else if length <= 268 then [13, length - 13]
    else if length <= 65804 then [14] + BigEndian(length - 269, 2)
    else [15] + BigEndian(length - 65805, 4)
  }

  /** io.ReadFull: exactly `n` bytes, or an error that uses the stream up. */
  function Take(s: seq<byte>, n: nat): Read<(seq<byte>, seq<byte>)> {
    if n <= |s| then Got((s[..n], s[n..])) else Failed(if s == [] then EndOfStream else UnexpectedEnd)
  }

  function Extended(s: seq<byte>, width: nat, base: nat): Read<(nat, seq<byte>)> {
    match Take(s, width)
    case Failed(e) => Failed(e)
    case Got((b, rest)) => Got((Value(b) + base, rest))
  }

  function DecodeLength(s: seq<byte>): Read<(nat, seq<byte>)> {
    if s == [] then Failed(EndOfStream)
    else
      var nibble := s[0] % 16;
      if nibble == 13 then Extended(s[1..], 1, 13)
      else if nibble == 14 then Extended(s[1..], 2, 269)
      else if nibble == 15 then Extended(s[1..], 4, 65805)
      else Got((nibble, s[1..]))
  }

  function WriteFrame(frame: seq<byte>): seq<byte> { EncodeLength(|frame|) + frame }

  /** One frame into a buffer of `capacity` bytes.  A frame that does not fit costs its prefix. */
  function ReadFrame(s: seq<byte>, capacity: nat): Read<(seq<byte>, seq<byte>)> {
    match DecodeLength(s)
    case Failed(e) => Failed(e)
    case Got((length, rest)) => if length > capacity then Failed(ShortBuffer) else Take(rest, length)
  }

  function WriteFrames(frames: seq<seq<byte>>): seq<byte> {
    if frames == [] then [] else WriteFrame(frames[0]) + WriteFrames(frames[1..])
  }

  /** `count` frames one after the other. */
  function ReadFrames(s: seq<byte>, count: nat, capacity: nat): Read<(seq<seq<byte>>, seq<byte>)> {
    if count == 0 then Got(([], s))
    else
      match ReadFrame(s, capacity)
      case Failed(e) => Failed(e)
      case Got((frame, rest)) =>
        match ReadFrames(rest, count - 1, capacity)
        case Failed(e) => Failed(e)
        case Got((frames, left)) => Got(([frame] + frames, left))
  }

  const LENGTH_LIMIT := TWO_32 + 65805

  lemma TakeExactly(b: seq<byte>, rest: seq<byte>)
    ensures Take(b + rest, |b|) == Got((b, rest))
  {
  }

  lemma ExtendedRoundTrip(n: nat, width: nat, base: nat, rest: seq<byte>)
    requires base <= n
    ensures Extended(BigEndian(n - base, width) + rest, width, base) == Got((n, rest)) <==> n - base < Limit(width)
  {
    var b := BigEndian(n - base, width);
    TakeExactly(b, rest);
    ValueBound(b);
    if n - base < Limit(width) { ValueOfBigEndian(n - base, width); }
  }

  lemma OneByte(v: byte)
    ensures BigEndian(v, 1) == [v]
  {
    assert BigEndian(0, 0) == [];
  }

  /** A length is read back exactly when its excess over the third form fits in 32 bits. */
  lemma LengthRoundTrip(n: nat, rest: seq<byte>)
    ensures DecodeLength(EncodeLength(n) + rest) == Got((n, rest)) <==> n < LENGTH_LIMIT
  {
    Limits();
    var s := EncodeLength(n) + rest;
    if n <= 12 {
      assert s[1..] == rest;
    } else if n <= 268 {
      OneByte(n - 13);
      assert s[1..] == BigEndian(n - 13, 1) + rest;
      ExtendedRoundTrip(n, 1, 13, rest);
    } else if n <= 65804 {
      assert s[1..] == BigEndian(n - 269, 2) + rest;
      ExtendedRoundTrip(n, 2, 269, rest);
    } else {
      assert s[1..] == BigEndian(n - 65805, 4) + rest;
      ExtendedRoundTrip(n, 4, 65805, rest);
    }
  }

  lemma {:induction false} BigEndianOfValue(b: seq<byte>)
    ensures BigEndian(Value(b), |b|) == b
  {
    if b != [] { BigEndianOfValue(b[..|b| - 1]); }
  }

  /** And what is read is what was written: a prefix that decodes to `n` is the encoding of `n`, exactly when its
      high nibble is zero.  There is one prefix for every length. */
  lemma PrefixIsEncoding(s: seq<byte>, n: nat, rest: seq<byte>)
    requires DecodeLength(s) == Got((n, rest))
    ensures s == EncodeLength(n) + rest <==> s[0] < 16
  {
    Limits();
    var nibble := s[0] % 16;
    if nibble >= 13 {
      var width := if nibble == 13 then 1 else if nibble == 14 then 2 else 4;
      var b := s[1..][..width];
      ValueBound(b);
      BigEndianOfValue(b);
      assert s == [s[0]] + b + rest;
      if nibble == 13 { assert EncodeLength(n) == [13] + b by { assert b == [Value(b)] by { assert b[..0] == []; } } }
      assert EncodeLength(n) == [nibble] + b;
    } else {
      assert s == [s[0]] + rest;
    }
  }

  lemma FrameRoundTrip(frame: seq<byte>, rest: seq<byte>, capacity: nat)
    requires |frame| < LENGTH_LIMIT
    ensures ReadFrame(WriteFrame(frame) + rest, capacity) ==
            if |frame| <= capacity then Got((frame, rest)) else Failed(ShortBuffer)
  {
    LengthRoundTrip(|frame|, frame + rest);
    assert WriteFrame(frame) + rest == EncodeLength(|frame|) + (frame + rest);
    TakeExactly(frame, rest);
  }

  /** Framing: any frames that fit the buffer are read back as they were written, in order, and whatever
      follows them is left alone. */
  lemma {:induction false} StreamRoundTrip(frames: seq<seq<byte>>, tail: seq<byte>, capacity: nat)
    requires forall i :: 0 <= i < |frames| ==> |frames[i]| <= capacity && |frames[i]| < LENGTH_LIMIT
    ensures ReadFrames(WriteFrames(frames) + tail, |frames|, capacity) == Got((frames, tail))
  {
    if frames == [] {
      assert WriteFrames(frames) + tail == tail;
    } else {
      assert WriteFrames(frames) + tail == WriteFrame(frames[0]) + (WriteFrames(frames[1..]) + tail);
      FrameRoundTrip(frames[0], WriteFrames(frames[1..]) + tail, capacity);
      StreamRoundTrip(frames[1..], tail, capacity);
      assert frames == [frames[0]] + frames[1..];
    }
  }

  lemma CutLength(n: nat, k: nat)
    requires k < |EncodeLength(n)|
    ensures DecodeLength(EncodeLength(n)[..k]) == Failed(if k <= 1 then EndOfStream else UnexpectedEnd)
  {
    assert k > 0 ==> |EncodeLength(n)[..k][1..]| == k - 1;
  }

  /** A stream that ends inside a frame never yields a frame made up from what is there.  The error is that of a
      stream that ended properly if it ends between two of the reads: at the start, behind the first byte, or
      behind the prefix; but a frame that would not fit is refused as soon as its prefix is there. */
  lemma CutFrameFails(frame: seq<byte>, k: nat, capacity: nat)
    requires |frame| < LENGTH_LIMIT && k < |WriteFrame(frame)|
    ensures var prefix := |EncodeLength(|frame|)|;
            ReadFrame(WriteFrame(frame)[..k], capacity) ==
            Failed(if k >= prefix && |frame| > capacity then ShortBuffer
                   else if k in {0, 1, prefix} then EndOfStream
                   else UnexpectedEnd)
  {
    var prefix := EncodeLength(|frame|);
    if k < |prefix| {
      CutLength(|frame|, k);
      assert WriteFrame(frame)[..k] == prefix[..k];
    } else {
      LengthRoundTrip(|frame|, frame[..k - |prefix|]);
      assert WriteFrame(frame)[..k] == prefix + frame[..k - |prefix|];
    }
  }

  // ---------------------------------------------------------------- the program on streams and buffers

  /** Fills the front of a buffer. */
  method CopyInto(buff: array<byte>, data: seq<byte>)
    requires |data| <= buff.Length
    modifies buff
    ensures buff[..] == data + old(buff[..])[|data|..]
  {
    var i := 0;
    while i < |data|
      invariant 0 <= i <= |data|
      invariant forall j :: 0 <= j < i ==> buff[j] == data[j]
      invariant forall j :: i <= j < buff.Length ==> buff[j] == old(buff[j])
    {
      buff[i] := data[i];
      i := i + 1;
    }
  }

  /** One end of a connection: bytes still to be read, bytes written. */
  class Stream {
    var input: seq<byte>
    var output: seq<byte>

    constructor (input: seq<byte>)
      ensures this.input == input && output == []
    {
      this.input, output := input, [];
    }

    method ReadFull(n: nat) returns (r: Read<seq<byte>>)
      modifies `input
      ensures match Take(old(input), n)
              case Got((b, rest)) => r == Got(b) && input == rest
              case Failed(e) => r == Failed(e) && input == []
    {
      if n <= |input| {
        r := Got(input[..n]);
        input := input[n..];
      } else {
        r := Failed(if |input| == 0 then EndOfStream else UnexpectedEnd);
        input := [];
      }
    }

    method ReadExtended(width: nat, base: nat) returns (r: Read<nat>)
      modifies `input
      ensures match Extended(old(input), width, base)
              case Got((length, rest)) => r == Got(length) && input == rest
              case Failed(e) => r == Failed(e) && input == []
    {
      var b := ReadFull(width);
      if b.Failed? {
        return Failed(b.error);
      }
      return Got(Value(b.value) + base);
    }

    method ReadLength() returns (r: Read<nat>)
      modifies `input
      ensures match DecodeLength(old(input))
              case Got((length, rest)) => r == Got(length) && input == rest
              case Failed(e) => r == Failed(e) && input == []
    {
      var first := ReadFull(1);
      if first.Failed? {
        return Failed(first.error);
      }
      var nibble := first.value[0] % 16;
      if nibble == 13 {
        r := ReadExtended(1, 13);
      } else if nibble == 14 {
        r := ReadExtended(2, 269);
      } else if nibble == 15 {
        r := ReadExtended(4, 65805);
      } else {
        r := Got(nibble);
      }
    }

    /** io.ReadFull into the first `n` bytes of a buffer: what arrives before the stream ends is there. */
    method ReadInto(buff: array<byte>, n: nat) returns (r: Read<()>)
      requires n <= buff.Length
      modifies `input, buff
      ensures match Take(old(input), n)
              case Got((b, rest)) => r == Got(()) && input == rest && buff[..] == b + old(buff[..])[n..]
              case Failed(e) =>
                r == Failed(e) && input == [] && |old(input)| < n
                && buff[..] == old(input) + old(buff[..])[|old(input)|..]
    {
      if n <= |input| {
        CopyInto(buff, input[..n]);
        input := input[n..];
        return Got(());
      }
      CopyInto(buff, input);
      r := Failed(if |input| == 0 then EndOfStream else UnexpectedEnd);
      input := [];
    }

    /** Reads one frame into the front of `buff`, the rest of which keeps its bytes.  A frame longer than the buffer
        leaves its body in the stream and the buffer alone, as does a prefix that is cut off; a body that is cut off
        leaves in the buffer what arrived of it. */
    method ReadTcpFrame(buff: array<byte>) returns (r: Read<nat>)
      modifies `input, buff
      ensures match ReadFrame(old(input), buff.Length)
              case Got((frame, rest)) =>
                r == Got(|frame|) && input == rest && |frame| <= buff.Length
                && buff[..] == frame + old(buff[..])[|frame|..]
              case Failed(e) =>
                r == Failed(e)
                && match DecodeLength(old(input))
                   case Failed(_) => input == [] && buff[..] == old(buff[..])
                   case Got((length, arrived)) =>
                     if length > buff.Length then e.ShortBuffer? && input == arrived && buff[..] == old(buff[..])
                     else |arrived| < length && input == [] && buff[..] == arrived + old(buff[..])[|arrived|..]
    {
      var length := ReadLength();
      if length.Failed? {
        return Failed(length.error);
      }
      if length.value > buff.Length {
        return Failed(ShortBuffer);
      }
      var body := ReadInto(buff, length.value);
      if body.Failed? {
        return Failed(body.error);
      }
      return Got(length.value);
    }

    method WriteTcpFrame(data: seq<byte>) returns (n: nat)
      modifies `output
      ensures output == old(output) + WriteFrame(data) && n == |WriteFrame(data)|
    {
      var prefix := EncodeLength(|data|);
      output := output + prefix;
      output := output + data;
      assert output == old(output) + WriteFrame(data);
      n := |prefix| + |data|;
    }
  }
}
