/** The datagram format: printing and parsing of messages (message.go:86-286, common.go:51-89;
    sections 3, 3.1 and 3.2 of RFC 7252). */
module Codec {
  import opened Prelude
  import opened Integers
  import opened Options

  const PAYLOAD_MARKER: byte := 0xff

  type uint16 = x: int | 0 <= x < 0x1_0000

  datatype Msg = Msg(typ: byte, code: byte, id: uint16, token: seq<byte>, options: seq<Opt>, payload: seq<byte>)

  datatype Error =
    | PacketLengthLessThan4
    | InvalidCoapVersion
    | OptionDeltaUsesValue15
    | OptionLengthUsesValue15
    | DataOutsideOfType
    | UnknownCriticalOption
    | InvalidTokenLength
    | NilMessage
    | ChecksumMismatch

  datatype Result<T> = Ok(value: T) | Err(error: Error)

  // ---------------------------------------------------------------- printing

  /** The four-bit field for an option delta or length; a value too big for the format prints as 0. */
  function Nibble(x: int): (n: nat)
    requires x >= 0
    ensures n <= 14
  {
    if x <= 12 then x else if x <= 268 then 13 else if x <= 65804 then 14 else 0
  }

  function Big16(x: int): seq<byte>
    requires 0 <= x < 0x1_0000
  {
    [x / 0x100, x % 0x100]
  }

  function Extension(x: int): seq<byte>
    requires x >= 0
  {
    if Nibble(x) == 13 then [x - 13] else if Nibble(x) == 14 then Big16(x - 269) else []
  }

  function PrintHeader(delta: nat, length: nat): seq<byte> {
    [Nibble(delta) * 16 + Nibble(length)] + Extension(delta) + Extension(length)
  }

  /** Options in the order given, the first relative to code `last`. */
  function PrintOptions(opts: seq<Opt>, last: nat): seq<byte>
    requires forall i :: 0 <= i < |opts| ==> last <= opts[i].code
    requires Sorted(opts)
  {
    if opts == [] then []
    else
      var value := ValueBytes(opts[0].value);
      PrintHeader(opts[0].code - last, |value|) + value + PrintOptions(opts[1..], opts[0].code)
  }

  /** An explicit scheme other than coaps is sent as coap. */
  function NormalizeScheme(opts: seq<Opt>): seq<Opt> {
    var scheme := GetOption(opts, URI_SCHEME);
    if scheme.Some? && (scheme.value.value.Nil? || IntValue(scheme.value.value) != COAPS_SCHEME)
    then AddOption(opts, Opt(URI_SCHEME, Num(COAP_SCHEME)))
    else opts
  }

  /** Version 1, the type and the token length, or-ed together; bit 6 of an oversized type coincides with
      the version. */
  function FirstByte(typ: byte, tokenLength: nat): byte {
    var t := typ % 16;
    (if t / 4 % 2 == 1 then t else t + 4) * 16 + tokenLength % 16
  }

  function PrintPayload(payload: seq<byte>): seq<byte> {
    if payload == [] then [] else [PAYLOAD_MARKER] + payload
  }

  function PrintedOptions(opts: seq<Opt>): (sorted: seq<Opt>)
    ensures Sorted(sorted)
  {
    SortIsStable(NormalizeScheme(opts), 0);
    Sort(NormalizeScheme(opts))
  }

  function Encode(m: Msg): seq<byte> {
    [FirstByte(m.typ, |m.token|), m.code] + Big16(m.id) + m.token
      + PrintOptions(PrintedOptions(m.options), 0) + PrintPayload(m.payload)
  }

  // ---------------------------------------------------------------- parsing

  datatype Kind = Integer | String | Unknown

  function KindOf(code: nat): Kind {
    if code in {URI_SCHEME, PROXY_SCHEME, URI_PORT, CONTENT_FORMAT, MAX_AGE, ACCEPT, SIZE1, SIZE2, BLOCK1, BLOCK2,
                HANDSHAKE_TYPE, OBSERVE, SESSION_NOT_FOUND, SESSION_EXPIRED, WINDOW_SIZE, PROXY_SECURITY_ID}
    then Integer
    else if code in {URI_HOST, ETAG, LOCATION_PATH, URI_PATH, URI_QUERY, LOCATION_QUERY, PROXY_URI, COAPS_URI, CHECKSUM}
    then String
    else Unknown
  }

  /** What an option with these value bytes is decoded to; unknown elective options are dropped. */
  function ReadOption(code: nat, value: seq<byte>): Result<Option<Opt>> {
    match KindOf(code)
    case Integer =>
      var n := DecodeInt(value);
      if n.None? then Err(DataOutsideOfType) else Ok(Some(Opt(code, Num(n.value))))
    case String => Ok(Some(Opt(code, Text(value))))
    case Unknown => if code % 2 == 1 then Err(UnknownCriticalOption) else Ok(None)
  }

  /** A field with its extension: 13 and 14 take one and two more bytes, 15 is reserved.  Sixteen-bit
      arithmetic; running out of bytes is a panic that the caller turns into a nil message. */
  function ReadField(nibble: nat, tmp: seq<byte>, reserved: Error): Result<(nat, seq<byte>)> {
    if nibble == 13 then
      if tmp == [] then Err(NilMessage) else Ok((tmp[0] as int + 13, tmp[1..]))
    else if nibble == 14 then
      if |tmp| < 2 then Err(NilMessage)
      else Ok(((tmp[0] as int * 0x100 + tmp[1] as int + 269) % 0x1_0000, tmp[2..]))
    else if nibble == 15 then Err(reserved)
    else Ok((nibble, tmp))
  }

  datatype Header = Header(delta: nat, length: nat, rest: seq<byte>)

  function ReadHeader(tmp: seq<byte>): (r: Result<Header>)
    requires tmp != []
    ensures r.Ok? ==> |r.value.rest| < |tmp|
  {
    match ReadField(tmp[0] / 16, tmp[1..], OptionDeltaUsesValue15)
    case Err(e) => Err(e)
    case Ok((delta, rest)) =>
      match ReadField(tmp[0] % 16, rest, OptionLengthUsesValue15)
      case Err(e) => Err(e)
      case Ok((length, value)) => Ok(Header(delta, length, value))
  }

  function Cons(o: Option<Opt>, opts: seq<Opt>): seq<Opt> { if o.Some? then [o.value] + opts else opts }

  function Prepend(o: Option<Opt>, r: Result<(seq<Opt>, seq<byte>)>): Result<(seq<Opt>, seq<byte>)> {
    match r case Err(e) => Err(e) case Ok((opts, payload)) => Ok((Cons(o, opts), payload))
  }

  /** The options at the start of `tmp`, and the payload behind them.  An option whose value is cut off by the
      end of the datagram is recorded without a value, and its bytes are read as further options. */
  function ParseOptions(tmp: seq<byte>, last: nat): Result<(seq<Opt>, seq<byte>)>
    decreases |tmp|
  {
    if tmp == [] then Ok(([], []))
    else if tmp[0] == PAYLOAD_MARKER then Ok(([], tmp[1..]))
    else
      match ReadHeader(tmp)
      case Err(e) => Err(e)
      case Ok(Header(delta, length, rest)) =>
        var code := (last + delta) % 0x1_0000;
        if length > |rest| then Prepend(Some(Opt(code, Nil)), ParseOptions(rest, code))
        else
          match ReadOption(code, rest[..length])
          case Err(e) => Err(e)
          case Ok(o) => Prepend(o, ParseOptions(rest[length..], code))
  }

  predicate Repeats(opts: seq<Opt>, code: nat) {
    |GetOptions(opts, code)| > 1 && !IsRepeatable(code) && code % 2 == 1
  }

  /** A critical option that must not repeat does. */
  predicate RepeatsCritical(opts: seq<Opt>) {
    exists i | 0 <= i < |opts| :: Repeats(opts, opts[i].code)
  }

  function Validate(m: Msg): Result<Msg> {
    if |m.token| > 8 then Err(InvalidTokenLength)
    else if RepeatsCritical(m.options) then Err(UnknownCriticalOption)
    else Ok(m)
  }

  function Decode(data: seq<byte>): Result<Msg> {
    if |data| < 4 then Err(PacketLengthLessThan4)
    else if data[0] / 64 != 1 then Err(InvalidCoapVersion)
    else
      var tokenLength := data[0] as int % 16;
      if |data| < 4 + tokenLength then Err(NilMessage)
      else
        match ParseOptions(data[4 + tokenLength..], 0)
        case Err(e) => Err(e)
        case Ok((opts, payload)) =>
          Validate(Msg(data[0] / 16 % 4, data[1], data[2] as int * 0x100 + data[3] as int,
                       data[4..4 + tokenLength], opts, payload))
  }
}
