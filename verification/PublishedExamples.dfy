/** Byte for byte: datagrams and values that the standards print as examples, and the limits of the length forms. */
module PublishedExamples {
  import opened Prelude
  import opened Integers
  import opened Options
  import opened Codec
  import opened CodecProofs
  import Checksum
  import TcpFraming

  // "22.3 C"
  const READING: seq<byte> := [50, 50, 46, 51, 32, 67]

  lemma PrintedOne(o: Opt, value: seq<byte>)
    requires o.code != URI_SCHEME && value == ValueBytes(o.value)
    ensures PrintedOptions([o]) == [o] && PrintOptions([o], 0) == PrintHeader(o.code, |value|) + value
  {
    assert GetOptions([o], URI_SCHEME) == [] by { assert [o][1..] == []; }
    SortOfSorted([o]);
    assert [o][1..] == [];
  }

  /** A message of one option and no payload. */
  lemma OneOption(m: Msg, o: Opt, value: seq<byte>)
    requires m.options == [o] && m.payload == [] && o.code != URI_SCHEME && value == ValueBytes(o.value)
    ensures Encode(m) == Checksum.Head(m) + (PrintHeader(o.code, |value|) + value)
  {
    PrintedOne(o, value);
    var body := PrintHeader(o.code, |value|) + value;
    assert body + PrintPayload([]) == body;
    Checksum.HeadAndBody(m, body);
  }

  /** A confirmable GET. */
  lemma RequestHead(m: Msg)
    requires m.typ == 0 && m.code == 1 && |m.token| <= 8
    ensures Checksum.Head(m) == [0x40 + |m.token|, 1, m.id / 0x100, m.id % 0x100] + m.token
  {
    FirstByteRoundTrip(0, |m.token|);
  }

  /** The requests of Figures 16 and 17 in appendix A of RFC 7252, with a path segment of any short text in the place of
      "temperature": the first byte, the code, the message id, the token, and one option byte before the text. */
  lemma GetRequest(id: uint16, token: seq<byte>, segment: seq<byte>, m: Msg)
    requires m == Msg(0, 1, id, token, [Opt(URI_PATH, Text(segment))], []) && |token| <= 8 && |segment| <= 12
    ensures Encode(m) == [0x40 + |token|, 1, id / 0x100, id % 0x100] + token + ([0xb0 + |segment|] + segment)
  {
    OneOption(m, Opt(URI_PATH, Text(segment)), segment);
    RequestHead(m);
    assert PrintHeader(11, |segment|) == [0xb0 + |segment|];
  }

  /** The response of Figure 16: 2.05 Content in the acknowledgement, with the payload. */
  lemma TemperatureResponse()
    ensures Encode(Msg(2, 0x45, 0x7d34, [], [], READING)) == [0x60, 0x45, 0x7d, 0x34, 0xff] + READING
  {
    var none: seq<Opt> := [];
    assert GetOptions(none, URI_SCHEME) == [] && PrintedOptions(none) == none;
  }

  /** The values of the block options in section 3 of RFC 7959, as NUM/M/SIZE. */
  lemma BlockValues()
    ensures ToInt(BlockInfo(0, true, 128)) == 0x0b && ToInt(BlockInfo(1, true, 128)) == 0x1b
    ensures ToInt(BlockInfo(3, false, 128)) == 0x33 && ToInt(BlockInfo(2, false, 64)) == 0x22
  {
  }

  /** The first and the last length of every form of a TCP prefix, and how options print theirs. */
  lemma LengthForms()
    ensures TcpFraming.EncodeLength(12) == [12] && TcpFraming.EncodeLength(13) == [13, 0]
    ensures TcpFraming.EncodeLength(268) == [13, 255] && TcpFraming.EncodeLength(269) == [14, 0, 0]
    ensures TcpFraming.EncodeLength(65804) == [14, 255, 255] && TcpFraming.EncodeLength(65805) == [15, 0, 0, 0, 0]
    ensures PrintHeader(12, 13) == [0xcd, 0] && PrintHeader(268, 269) == [0xde, 255, 0, 0]
  {
    assert BigEndian(0, 0) == [];
    assert BigEndian(0, 2) == [0, 0];
    assert BigEndian(0, 4) == [0, 0, 0, 0];
    assert BigEndian(65535, 2) == [255, 255];
  }
}
