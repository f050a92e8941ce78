/** What printing and parsing a message do to each other. */
module CodecProofs {
  import opened Prelude
  import opened Integers
  import opened Options
  import opened Codec

  // ---------------------------------------------------------------- one option header

  /** A delta or length survives the wire exactly when it is below 2^16, although the printer has a form for
      269 more numbers. */
  lemma FieldRoundTrip(x: nat, rest: seq<byte>, reserved: Error)
    ensures ReadField(Nibble(x), Extension(x) + rest, reserved) == Ok((x, rest)) <==> x < 0x1_0000
    ensures ReadField(Nibble(x), Extension(x) + rest, reserved).Ok?
    ensures ReadField(Nibble(x), Extension(x) + rest, reserved).value.1 == rest
  {
    assert (Extension(x) + rest)[|Extension(x)|..] == rest;
  }

  lemma HalvesOf(high: nat, low: nat)
    requires high <= 14 && low <= 14
    ensures (high * 16 + low) / 16 == high && (high * 16 + low) % 16 == low && high * 16 + low < 0xff
  {
  }

  lemma HeaderRoundTrip(delta: nat, length: nat, rest: seq<byte>)
    ensures ReadHeader(PrintHeader(delta, length) + rest) == Ok(Header(delta, length, rest)) <==>
            delta < 0x1_0000 && length < 0x1_0000
    ensures (PrintHeader(delta, length) + rest)[0] != PAYLOAD_MARKER
  {
    var tmp := PrintHeader(delta, length) + rest;
    HalvesOf(Nibble(delta), Nibble(length));
    assert tmp[0] / 16 == Nibble(delta) && tmp[0] % 16 == Nibble(length);
    assert tmp[1..] == Extension(delta) + (Extension(length) + rest);
    var first := ReadField(tmp[0] / 16, tmp[1..], OptionDeltaUsesValue15);
    assert first.Ok? && first.value.1 == Extension(length) + rest && (first.value.0 == delta <==> delta < 0x1_0000) by {
      FieldRoundTrip(delta, Extension(length) + rest, OptionDeltaUsesValue15);
    }
    FieldRoundTrip(length, rest, OptionLengthUsesValue15);
  }

  // ---------------------------------------------------------------- a list of options

  /** What the peer makes of options sent in this order. */
  function Interpret(opts: seq<Opt>): Result<seq<Opt>> {
    if opts == [] then Ok([])
    else
      match ReadOption(opts[0].code, ValueBytes(opts[0].value))
      case Err(e) => Err(e)
      case Ok(first) => match Interpret(opts[1..]) case Err(e) => Err(e) case Ok(more) => Ok(Cons(first, more))
  }

  predicate Fits(o: Opt) { o.code < 0x1_0000 && |ValueBytes(o.value)| < 0x1_0000 }

  predicate AllFit(opts: seq<Opt>) { forall o :: o in opts ==> Fits(o) }

  /** The parser, given what it reads in the next header. */
  lemma ParseStep(tmp: seq<byte>, last: nat, delta: nat, value: seq<byte>, tail: seq<byte>, rest: seq<byte>)
    requires tmp != [] && tmp[0] != PAYLOAD_MARKER && ReadHeader(tmp) == Ok(Header(delta, |value|, rest))
    requires last + delta < 0x1_0000 && |value| <= |rest| && rest[..|value|] == value && rest[|value|..] == tail
    ensures ParseOptions(tmp, last) ==
            match ReadOption(last + delta, value)
            case Err(e) => Err(e)
            case Ok(o) => Prepend(o, ParseOptions(tail, last + delta))
  {
    var header := ReadHeader(tmp).value;
    assert header.delta == delta && header.length == |value| && header.rest == rest;
    assert (last + delta) % 0x1_0000 == last + delta;
  }

  /** The parser takes the first option off what was printed. */
  lemma ParseOne(tmp: seq<byte>, code: nat, last: nat, value: seq<byte>, tail: seq<byte>)
    requires last <= code < 0x1_0000 && |value| < 0x1_0000
    requires tmp == PrintHeader(code - last, |value|) + value + tail
    ensures ParseOptions(tmp, last) ==
            match ReadOption(code, value) case Err(e) => Err(e) case Ok(o) => Prepend(o, ParseOptions(tail, code))
  {
    var rest := value + tail;
    assert tmp == PrintHeader(code - last, |value|) + rest;
    HeaderRoundTrip(code - last, |value|, rest);
    assert rest[..|value|] == value && rest[|value|..] == tail;
    ParseStep(tmp, last, code - last, value, tail, rest);
  }

  lemma FirstPrinted(opts: seq<Opt>, last: nat, payload: seq<byte>)
    requires opts != [] && Sorted(opts) && forall i :: 0 <= i < |opts| ==> last <= opts[i].code
    ensures var value := ValueBytes(opts[0].value);
            PrintOptions(opts, last) + PrintPayload(payload) ==
            PrintHeader(opts[0].code - last, |value|) + value
              + (PrintOptions(opts[1..], opts[0].code) + PrintPayload(payload))
  {
    var value := ValueBytes(opts[0].value);
    var x, y, z := PrintHeader(opts[0].code - last, |value|) + value, PrintOptions(opts[1..], opts[0].code), PrintPayload(payload);
    assert (x + y) + z == x + (y + z);
  }

  function WithPayload(opts: Result<seq<Opt>>, payload: seq<byte>): Result<(seq<Opt>, seq<byte>)> {
    match opts case Err(e) => Err(e) case Ok(read) => Ok((read, payload))
  }

  lemma ParsePayload(payload: seq<byte>, last: nat)
    ensures ParseOptions(PrintPayload(payload), last) == Ok(([], payload))
  {
    assert payload != [] ==> PrintPayload(payload)[1..] == payload;
  }

  /** Interpreting one more option, on results alone. */
  lemma InterpretStep(opts: seq<Opt>, payload: seq<byte>, tail: Result<(seq<Opt>, seq<byte>)>)
    requires opts != [] && tail == WithPayload(Interpret(opts[1..]), payload)
    ensures WithPayload(Interpret(opts), payload) ==
            match ReadOption(opts[0].code, ValueBytes(opts[0].value)) case Err(e) => Err(e) case Ok(o) => Prepend(o, tail)
  {
  }

  lemma ParsePrintedStep(opts: seq<Opt>, last: nat, payload: seq<byte>, tmp: seq<byte>, tail: seq<byte>)
    requires opts != [] && Fits(opts[0]) && last <= opts[0].code
    requires ParseOptions(tail, opts[0].code) == WithPayload(Interpret(opts[1..]), payload)
    requires var value := ValueBytes(opts[0].value);
             tmp == PrintHeader(opts[0].code - last, |value|) + value + tail
    ensures ParseOptions(tmp, last) == WithPayload(Interpret(opts), payload)
  {
    InterpretStep(opts, payload, ParseOptions(tail, opts[0].code));
    ParseOne(tmp, opts[0].code, last, ValueBytes(opts[0].value), tail);
  }

  /** Parsing what was printed: whatever the options are, the peer reads them one by one. */
  lemma {:induction false} ParsePrinted(opts: seq<Opt>, last: nat, payload: seq<byte>)
    requires Sorted(opts) && AllFit(opts) && forall i :: 0 <= i < |opts| ==> last <= opts[i].code
    ensures ParseOptions(PrintOptions(opts, last) + PrintPayload(payload), last) == WithPayload(Interpret(opts), payload)
  {
    if opts == [] {
      assert PrintOptions(opts, last) + PrintPayload(payload) == PrintPayload(payload);
      ParsePayload(payload, last);
    } else {
      ParsePrinted(opts[1..], opts[0].code, payload);
      FirstPrinted(opts, last, payload);
      assert Fits(opts[0]);
      ParsePrintedStep(opts, last, payload, PrintOptions(opts, last) + PrintPayload(payload),
                       PrintOptions(opts[1..], opts[0].code) + PrintPayload(payload));
    }
  }

  /** Options the parser can produce from a complete value: a recognised code with a value of its kind. */
  predicate Clean(o: Opt) {
    match KindOf(o.code)
    case Integer => o.value.Num? && 0 <= o.value.n < TWO_32
    case String => o.value.Text?
    case Unknown => false
  }

  lemma ReadIsClean(code: nat, value: seq<byte>)
    ensures var r := ReadOption(code, value);
            r.Ok? && r.value.Some? ==>
              var o := r.value.value;
              o.code == code && Clean(o) && (o.value.Num? || o.value == Text(value))
  {
    DecodedFits(value);
  }

  /** An option is read back as itself exactly when it is clean. */
  lemma ReadBack(o: Opt)
    ensures ReadOption(o.code, ValueBytes(o.value)) == Ok(Some(o)) <==> Clean(o)
  {
    DecodedFits(ValueBytes(o.value));
    if o.value.Num? { IntRoundTrip(Uint32(o.value.n)); }
  }

  lemma {:induction false} InterpretShape(opts: seq<Opt>)
    ensures var r := Interpret(opts);
            r.Ok? ==> && |r.value| <= |opts|
                      && (forall o :: o in r.value ==> Clean(o) && exists p :: p in opts && p.code == o.code)
                      && (Sorted(opts) ==> Sorted(r.value))
  {
    if opts != [] {
      ReadIsClean(opts[0].code, ValueBytes(opts[0].value));
      InterpretShape(opts[1..]);
      var first, more := ReadOption(opts[0].code, ValueBytes(opts[0].value)), Interpret(opts[1..]);
      if first.Ok? && more.Ok? {
        forall o | o in Cons(first.value, more.value)
          ensures Clean(o) && exists p :: p in opts && p.code == o.code
        {
          if first.value == Some(o) { assert opts[0] in opts; }
          else { var p :| p in opts[1..] && p.code == o.code; assert p in opts; }
        }
        if Sorted(opts) {
          forall i | 0 <= i < |more.value| ensures opts[0].code <= more.value[i].code {
            assert more.value[i] in more.value;
          }
        }
      }
    }
  }

  /** A list is read back as itself exactly when all of it is clean. */
  lemma {:induction false} InterpretBack(opts: seq<Opt>)
    ensures Interpret(opts) == Ok(opts) <==> forall o :: o in opts ==> Clean(o)
  {
    if opts != [] {
      var head, tail := opts[0], opts[1..];
      ReadBack(head);
      InterpretBack(tail);
      InterpretShape(tail);
      assert opts == [head] + tail;
      if Interpret(opts) == Ok(opts) {
        var first, more := ReadOption(head.code, ValueBytes(head.value)).value, Interpret(tail).value;
        assert first.Some? && ([first.value] + more)[0] == head && ([first.value] + more)[1..] == tail;
      }
    }
  }

  // ---------------------------------------------------------------- a message

  /** What the peer makes of a message. */
  function Received(m: Msg): Result<Msg> {
    match Interpret(PrintedOptions(m.options))
    case Err(e) => Err(e)
    case Ok(opts) => Validate(m.(options := opts))
  }

  lemma {:induction false} RemoveMembers(opts: seq<Opt>, code: nat, o: Opt)
    ensures o in RemoveOptions(opts, code) <==> o in opts && o.code != code
  {
    if opts != [] { RemoveMembers(opts[1..], code, o); }
  }

  lemma PrintedMembers(opts: seq<Opt>, o: Opt)
    ensures o in PrintedOptions(opts) <==> o in NormalizeScheme(opts)
    ensures o in NormalizeScheme(opts) ==> o in opts || o == Opt(URI_SCHEME, Num(COAP_SCHEME))
  {
    SortKeepsMembers(NormalizeScheme(opts), o);
    RemoveMembers(opts, URI_SCHEME, o);
  }

  /** What holds of every option of a message, and of an explicit coap scheme, holds of all that is printed. */
  lemma PrintedAll(opts: seq<Opt>, p: Opt -> bool)
    requires (forall o :: o in opts ==> p(o)) && p(Opt(URI_SCHEME, Num(COAP_SCHEME)))
    ensures forall o :: o in PrintedOptions(opts) ==> p(o)
  {
    forall o | o in PrintedOptions(opts) ensures p(o) { PrintedMembers(opts, o); }
  }

  lemma FirstByteRoundTrip(typ: byte, tokenLength: nat)
    requires typ <= 3 && tokenLength <= 15
    ensures var b := FirstByte(typ, tokenLength);
            b / 64 == 1 && b / 16 % 4 == typ && b % 16 == tokenLength
  {
  }

  lemma HighNibble(v: nat, low: nat)
    requires v < 16 && low < 16
    ensures (v * 16 + low) % 16 == low && (v * 16 + low) / 16 == v
  {
  }

  lemma VersionOver(t: nat)
    requires t < 16
    ensures (if t / 4 % 2 == 1 then t else t + 4) == t / 8 * 8 + 4 + t % 4
  {
    assert t == t / 8 * 8 + t / 4 % 2 * 4 + t % 4;
  }

  /** The first byte, for a type of any size: the type's low four bits, with the version's bit put over the third of
      them, and then the length's low four. */
  lemma FirstByteBits(typ: byte, tokenLength: nat)
    ensures var (b, t) := (FirstByte(typ, tokenLength), typ % 16);
            && b % 16 == tokenLength % 16
            && b / 16 == t / 8 * 8 + 4 + t % 4
  {
    var t := typ % 16;
    VersionOver(t);
    HighNibble(t / 8 * 8 + 4 + t % 4, tokenLength % 16);
  }

  /** Parsing the fixed part of a datagram. */
  lemma DecodeParts(typ: byte, code: byte, id: uint16, token: seq<byte>, body: seq<byte>)
    requires typ <= 3 && |token| <= 15
    ensures Decode([FirstByte(typ, |token|), code] + Big16(id) + token + body) ==
            match ParseOptions(body, 0)
            case Err(e) => Err(e)
            case Ok((opts, payload)) => Validate(Msg(typ, code, id, token, opts, payload))
  {
    var data := [FirstByte(typ, |token|), code] + Big16(id) + token + body;
    FirstByteRoundTrip(typ, |token|);
    assert data[0] == FirstByte(typ, |token|) && data[1] == code && data[2..4] == Big16(id);
    assert data[4..4 + |token|] == token && data[4 + |token|..] == body;
    assert data[2] as int * 0x100 + data[3] as int == id;
  }

  /** Decoding an encoded message gives exactly what the peer makes of it, for every message of a valid type
      whose options fit the format: its errors as well as its successes. */
  lemma DecodeOfEncode(m: Msg)
    requires m.typ <= 3 && |m.token| <= 15 && AllFit(m.options)
    ensures Decode(Encode(m)) == Received(m)
  {
    var printed := PrintedOptions(m.options);
    PrintedAll(m.options, Fits);
    var body := PrintOptions(printed, 0) + PrintPayload(m.payload);
    assert Encode(m) == [FirstByte(m.typ, |m.token|), m.code] + Big16(m.id) + m.token + body;
    DecodeParts(m.typ, m.code, m.id, m.token, body);
    ParsePrinted(printed, 0, m.payload);
  }

  /** The scheme is absent, coaps, or a single explicit coap: the values that are sent as they are. */
  predicate SchemeKept(opts: seq<Opt>) {
    var schemes := GetOptions(opts, URI_SCHEME);
    schemes == [] || (!schemes[0].value.Nil? && IntValue(schemes[0].value) == COAPS_SCHEME)
      || schemes == [Opt(URI_SCHEME, Num(COAP_SCHEME))]
  }

  lemma NormalizedByCode(opts: seq<Opt>, code: nat)
    ensures GetOptions(NormalizeScheme(opts), code) ==
            if code != URI_SCHEME || NormalizeScheme(opts) == opts then GetOptions(opts, code)
            else [Opt(URI_SCHEME, Num(COAP_SCHEME))]
  {
    GetAdd(opts, Opt(URI_SCHEME, Num(COAP_SCHEME)), code);
  }

  lemma PrintedIsSorted(opts: seq<Opt>)
    ensures PrintedOptions(opts) == Sort(opts) <==> SchemeKept(opts)
  {
    NormalizedByCode(opts, URI_SCHEME);
    if SchemeKept(opts) {
      forall code: nat ensures GetOptions(NormalizeScheme(opts), code) == GetOptions(opts, code) {
        NormalizedByCode(opts, code);
      }
      SortDetermined(NormalizeScheme(opts), opts);
    } else {
      GetAdd(opts, Opt(URI_SCHEME, Num(COAP_SCHEME)), URI_SCHEME);
      SortIsStable(NormalizeScheme(opts), URI_SCHEME);
      SortIsStable(opts, URI_SCHEME);
    }
  }

  lemma SortKeepsRepeats(opts: seq<Opt>)
    ensures RepeatsCritical(Sort(opts)) <==> RepeatsCritical(opts)
  {
    forall code: nat ensures GetOptions(Sort(opts), code) == GetOptions(opts, code) { SortIsStable(opts, code); }
    if i :| 0 <= i < |opts| && Repeats(opts, opts[i].code) {
      SortKeepsMembers(opts, opts[i]);
      var j :| 0 <= j < |Sort(opts)| && Sort(opts)[j] == opts[i];
      assert Repeats(Sort(opts), Sort(opts)[j].code);
    }
    if j :| 0 <= j < |Sort(opts)| && Repeats(Sort(opts), Sort(opts)[j].code) {
      SortKeepsMembers(opts, Sort(opts)[j]);
      var i :| 0 <= i < |opts| && opts[i] == Sort(opts)[j];
      assert Repeats(opts, opts[i].code);
    }
  }

  /** Everything the wire preserves: a legal token, recognised options with values of their kind, no repeated
      critical option, and a scheme of 0 or 1. */
  predicate Faithful(m: Msg) {
    && |m.token| <= 8
    && (forall o :: o in m.options ==> Clean(o))
    && !RepeatsCritical(m.options)
    && SchemeKept(m.options)
  }

  /** The round trip: a message comes back with nothing changed but its options sorted by code, equal codes in
      their order, if and only if it is faithful. */
  lemma RoundTrip(m: Msg)
    requires m.typ <= 3 && |m.token| <= 15 && AllFit(m.options)
    ensures Decode(Encode(m)) == Ok(m.(options := Sort(m.options))) <==> Faithful(m)
  {
    DecodeOfEncode(m);
    PrintedIsSorted(m.options);
    SortKeepsRepeats(m.options);
    var printed := PrintedOptions(m.options);
    InterpretShape(printed);
    InterpretBack(printed);
    forall o ensures o in Sort(m.options) <==> o in m.options { SortKeepsMembers(m.options, o); }
    forall o ensures o in printed ==> o in m.options || o == Opt(URI_SCHEME, Num(COAP_SCHEME)) { PrintedMembers(m.options, o); }
    assert Clean(Opt(URI_SCHEME, Num(COAP_SCHEME)));
  }

  // ---------------------------------------------------------------- re-encoding

  /** What any datagram can put into an option list: complete values of the kind of their code, and cut-off ones. */
  predicate Readable(o: Opt) { Fits(o) && (Clean(o) || o.value.Nil?) }

  lemma ReadIsShort(code: nat, value: seq<byte>)
    requires |value| < 0x1_0000
    ensures var r := ReadOption(code, value); r.Ok? && r.value.Some? ==> |ValueBytes(r.value.value.value)| < 0x1_0000
  {
  }

  lemma ReadIsReadable(code: nat, value: seq<byte>)
    requires code < 0x1_0000 && |value| < 0x1_0000
    ensures var r := ReadOption(code, value); r.Ok? && r.value.Some? ==> Readable(r.value.value)
  {
    ReadIsClean(code, value);
    ReadIsShort(code, value);
  }

  lemma ReadFieldIsShort(nibble: nat, tmp: seq<byte>, reserved: Error)
    requires nibble < 16
    ensures var r := ReadField(nibble, tmp, reserved); r.Ok? ==> r.value.0 < 0x1_0000
  {
  }

  lemma HeaderIsShort(tmp: seq<byte>)
    requires tmp != []
    ensures var r := ReadHeader(tmp); r.Ok? ==> r.value.length < 0x1_0000
  {
    var first := ReadField(tmp[0] / 16, tmp[1..], OptionDeltaUsesValue15);
    if first.Ok? { ReadFieldIsShort(tmp[0] % 16, first.value.1, OptionLengthUsesValue15); }
  }

  lemma {:induction false} ParsedShape(tmp: seq<byte>, last: nat)
    ensures var r := ParseOptions(tmp, last); r.Ok? ==> forall o :: o in r.value.0 ==> Readable(o)
    decreases |tmp|
  {
    if tmp != [] && tmp[0] != PAYLOAD_MARKER {
      var header := ReadHeader(tmp);
      if header.Ok? {
        HeaderIsShort(tmp);
        var code, length, rest := (last + header.value.delta) % 0x1_0000, header.value.length, header.value.rest;
        if length > |rest| {
          ParsedShape(rest, code);
        } else {
          ReadIsReadable(code, rest[..length]);
          ParsedShape(rest[length..], code);
        }
      }
    }
  }

  /** The two ways to look at a message sent back, combined. */
  lemma StableVerdict(m: Msg, back: Result<Msg>)
    requires |m.token| <= 8 && !RepeatsCritical(m.options) && forall o :: o in m.options ==> Clean(o) || o.value.Nil?
    requires back == Ok(m.(options := Sort(m.options))) <==> Faithful(m)
    requires back == Ok(m) ==> Sorted(m.options)
    ensures back == Ok(m) <==>
            Sorted(m.options) && (forall o :: o in m.options ==> !o.value.Nil?) && SchemeKept(m.options)
  {
    SortOfSorted(m.options);
    assert Sorted(m.options) ==> m.(options := Sort(m.options)) == m;
    assert (forall o :: o in m.options ==> Clean(o)) <==> (forall o :: o in m.options ==> !o.value.Nil?);
  }

  lemma StableIsSorted(m: Msg)
    requires m.typ <= 3 && |m.token| <= 8 && AllFit(m.options) && Decode(Encode(m)) == Ok(m)
    ensures Sorted(m.options)
  {
    DecodeOfEncode(m);
    InterpretShape(PrintedOptions(m.options));
    assert Interpret(PrintedOptions(m.options)) == Ok(m.options);
  }

  lemma EncodedTwice(m: Msg)
    requires m.typ <= 3 && |m.token| <= 8 && !RepeatsCritical(m.options)
    requires AllFit(m.options) && forall o :: o in m.options ==> Clean(o) || o.value.Nil?
    ensures Decode(Encode(m)) == Ok(m) <==>
            Sorted(m.options) && (forall o :: o in m.options ==> !o.value.Nil?) && SchemeKept(m.options)
  {
    RoundTrip(m);
    if Decode(Encode(m)) == Ok(m) { StableIsSorted(m); }
    StableVerdict(m, Decode(Encode(m)));
  }

  lemma DecodedShape(data: seq<byte>, m: Msg)
    requires Decode(data) == Ok(m)
    ensures m.typ <= 3 && |m.token| <= 8 && !RepeatsCritical(m.options)
    ensures AllFit(m.options) && forall o :: o in m.options ==> Clean(o) || o.value.Nil?
  {
    ParsedShape(data[4 + data[0] as int % 16..], 0);
  }

  /** Re-encoding a decoded message and decoding it again gives the same message if and only if its options
      came in order (no code wrapped around), none was cut off, and its scheme is 0 or 1.  Longer integers
      than needed, dropped elective options and a bare payload marker in the datagram do not matter. */
  lemma ReencodingIsStable(data: seq<byte>, m: Msg)
    requires Decode(data) == Ok(m)
    ensures Decode(Encode(m)) == Ok(m) <==>
            && Sorted(m.options)
            && (forall o :: o in m.options ==> !o.value.Nil?)
            && SchemeKept(m.options)
  {
    DecodedShape(data, m);
    EncodedTwice(m);
  }
}
