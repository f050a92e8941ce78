/** Which messages the parser accepts, what it reads in them, and why it refuses the others
    (message.go:136-277, options.go:38-49, constants.go:211-246). */
module CodecAcceptance {
  import opened Prelude
  import opened Integers
  import opened Options
  import opened Codec
  import opened CodecProofs

  // ---------------------------------------------------------------- what is printed

  /** Options of this code are printed as they are: all but a scheme that is not coaps. */
  predicate Goes(opts: seq<Opt>, code: nat) { code == URI_SCHEME ==> IsSecure(opts) }

  /** What is printed, code by code: a scheme that is not coaps goes out as one coap, all else as given. */
  lemma PrintedByCode(opts: seq<Opt>, code: nat)
    ensures GetOptions(PrintedOptions(opts), code) ==
            if Goes(opts, code) then GetOptions(opts, code)
            else if GetOptions(opts, code) == [] then []
            else [Opt(URI_SCHEME, Num(COAP_SCHEME))]
  {
    SortIsStable(NormalizeScheme(opts), code);
    GetAdd(opts, Opt(URI_SCHEME, Num(COAP_SCHEME)), code);
  }

  lemma MemberByCode(a: seq<Opt>, b: seq<Opt>, o: Opt)
    requires GetOptions(a, o.code) == GetOptions(b, o.code) && o in a
    ensures o in b
  {
    MemberIsGot(a, o);
    var i :| 0 <= i < |GetOptions(a, o.code)| && GetOptions(a, o.code)[i] == o;
    GetIsMember(b, o.code, i);
  }

  lemma PrintedIsGiven(opts: seq<Opt>, o: Opt)
    ensures Goes(opts, o.code) ==> (o in PrintedOptions(opts) <==> o in opts)
    ensures o in PrintedOptions(opts) && !Goes(opts, o.code) ==> o == Opt(URI_SCHEME, Num(COAP_SCHEME))
  {
    PrintedByCode(opts, o.code);
    if Goes(opts, o.code) {
      if o in opts { MemberByCode(opts, PrintedOptions(opts), o); }
      if o in PrintedOptions(opts) { MemberByCode(PrintedOptions(opts), opts, o); }
    } else if o in PrintedOptions(opts) {
      MemberIsGot(PrintedOptions(opts), o);
    }
  }

  // ---------------------------------------------------------------- what one option does

  /** A critical code that the parser has no case for. */
  predicate Foreign(code: nat) { KindOf(code).Unknown? && code % 2 == 1 }

  predicate Overlong(o: Opt) { KindOf(o.code).Integer? && |ValueBytes(o.value)| > 4 }

  predicate Bad(o: Opt) { Foreign(o.code) || Overlong(o) }

  function Complaint(code: nat): Error { if KindOf(code).Integer? then DataOutsideOfType else UnknownCriticalOption }

  /** The value a peer reads: the big-endian integer, or the bytes as a string. */
  function Meant(o: Opt): Options.Value {
    if KindOf(o.code).Integer? then Num(Integers.Value(ValueBytes(o.value))) else Text(ValueBytes(o.value))
  }

  lemma BadIsRefused(o: Opt)
    ensures ReadOption(o.code, ValueBytes(o.value)) ==
            if Bad(o) then Err(Complaint(o.code))
            else if KindOf(o.code).Unknown? then Ok(None)
            else Ok(Some(Opt(o.code, Meant(o))))
  {
  }

  lemma {:induction false} InterpretFailsAt(opts: seq<Opt>, i: nat)
    requires i < |opts| && Bad(opts[i]) && forall j :: 0 <= j < i ==> !Bad(opts[j])
    ensures Interpret(opts) == Err(Complaint(opts[i].code))
  {
    BadIsRefused(opts[0]);
    if i > 0 {
      assert opts[1..][i - 1] == opts[i];
      InterpretFailsAt(opts[1..], i - 1);
    }
  }

  /** `read` is what a peer reads in options `sent`, all of one code. */
  predicate ReadAs(sent: seq<Opt>, read: seq<Opt>) {
    |read| == |sent| && forall i :: 0 <= i < |sent| ==> read[i] == Opt(sent[i].code, Meant(sent[i]))
  }

  lemma {:induction false} InterpretSucceeds(opts: seq<Opt>, code: nat)
    requires forall o :: o in opts ==> !Bad(o)
    ensures Interpret(opts).Ok?
    ensures KindOf(code).Unknown? ==> GetOptions(Interpret(opts).value, code) == []
    ensures !KindOf(code).Unknown? ==> ReadAs(GetOptions(opts, code), GetOptions(Interpret(opts).value, code))
  {
    if opts != [] {
      var first, more := ReadOption(opts[0].code, ValueBytes(opts[0].value)), Interpret(opts[1..]);
      assert !Bad(opts[0]);
      BadIsRefused(opts[0]);
      InterpretSucceeds(opts[1..], code);
      if first.value.Some? { GetAppend([first.value.value], more.value, code); assert [first.value.value][1..] == []; }
    }
  }

  // ---------------------------------------------------------------- the verdict on a message

  /** The parser refuses this option of a message. */
  predicate Refusable(opts: seq<Opt>, o: Opt) { o in opts && Bad(o) && Goes(opts, o.code) }

  /** A critical code that must not repeat is printed more than once. */
  predicate PrintedTwice(opts: seq<Opt>, code: nat) { Goes(opts, code) && Repeats(opts, code) }

  lemma PrintedIsBad(opts: seq<Opt>, o: Opt)
    ensures o in PrintedOptions(opts) && Bad(o) <==> Refusable(opts, o)
  {
    PrintedIsGiven(opts, o);
    assert !Bad(Opt(URI_SCHEME, Num(COAP_SCHEME)));
  }

  lemma FirstBad(opts: seq<Opt>, o: Opt) returns (i: nat)
    requires o in opts && Bad(o)
    ensures i < |opts| && Bad(opts[i]) && forall j :: 0 <= j < i ==> !Bad(opts[j])
  {
    i := 0;
    while !Bad(opts[i])
      invariant i < |opts| && forall j :: 0 <= j < i ==> !Bad(opts[j])
      decreases |opts| - i
    {
      var k :| 0 <= k < |opts| && opts[k] == o;
      assert k > i;
      i := i + 1;
    }
  }

  /** The refusable option with the least code decides the error: an integer of more than four bytes, or a
      critical option the parser does not know. */
  lemma RefusedForOption(m: Msg, o: Opt)
    requires m.typ <= 3 && |m.token| <= 15 && AllFit(m.options)
    requires Refusable(m.options, o) && forall p :: Refusable(m.options, p) ==> o.code <= p.code
    ensures Decode(Encode(m)) == Err(if KindOf(o.code).Integer? then DataOutsideOfType else UnknownCriticalOption)
  {
    var printed := PrintedOptions(m.options);
    PrintedIsBad(m.options, o);
    var i := FirstBad(printed, o);
    PrintedIsBad(m.options, printed[i]);
    var k :| 0 <= k < |printed| && printed[k] == o;
    assert i <= k && printed[i].code == o.code;
    InterpretFailsAt(printed, i);
    DecodeOfEncode(m);
  }

  lemma NothingBadPrinted(opts: seq<Opt>)
    requires forall o :: !Refusable(opts, o)
    ensures forall o :: o in PrintedOptions(opts) ==> !Bad(o)
  {
    forall o | o in PrintedOptions(opts) ensures !Bad(o) { PrintedIsBad(opts, o); }
  }

  lemma RepeatsRead(opts: seq<Opt>, read: seq<Opt>)
    requires (forall o :: !Refusable(opts, o)) && Interpret(PrintedOptions(opts)) == Ok(read)
    ensures RepeatsCritical(read) <==> exists o :: o in opts && PrintedTwice(opts, o.code)
  {
    NothingBadPrinted(opts);
    if i :| 0 <= i < |read| && Repeats(read, read[i].code) {
      var code := read[i].code;
      InterpretSucceeds(PrintedOptions(opts), code);
      PrintedByCode(opts, code);
      GetIsMember(opts, code, 0);
      assert PrintedTwice(opts, GetOptions(opts, code)[0].code);
    }
    if o :| o in opts && PrintedTwice(opts, o.code) {
      InterpretSucceeds(PrintedOptions(opts), o.code);
      PrintedByCode(opts, o.code);
      PrintedIsBad(opts, o);
      assert !KindOf(o.code).Unknown?;
      GetIsMember(read, o.code, 0);
      var i :| 0 <= i < |read| && read[i] == GetOptions(read, o.code)[0];
      assert Repeats(read, read[i].code);
    }
  }

  /** With no option refused, the token is judged first and repeated critical options after it. */
  lemma RefusedForMessage(m: Msg)
    requires m.typ <= 3 && |m.token| <= 15 && AllFit(m.options)
    requires forall o :: !Refusable(m.options, o)
    ensures |m.token| > 8 ==> Decode(Encode(m)) == Err(InvalidTokenLength)
    ensures |m.token| <= 8 && (exists o :: o in m.options && PrintedTwice(m.options, o.code)) ==>
              Decode(Encode(m)) == Err(UnknownCriticalOption)
    ensures |m.token| <= 8 && !(exists o :: o in m.options && PrintedTwice(m.options, o.code)) ==>
              Interpret(PrintedOptions(m.options)).Ok?
              && Decode(Encode(m)) == Ok(m.(options := Interpret(PrintedOptions(m.options)).value))
  {
    var printed := PrintedOptions(m.options);
    NothingBadPrinted(m.options);
    InterpretSucceeds(printed, 0);
    RepeatsRead(m.options, Interpret(printed).value);
    DecodeOfEncode(m);
  }

  lemma LeastRefusable(opts: seq<Opt>, o: Opt) returns (least: Opt)
    requires Refusable(opts, o)
    ensures Refusable(opts, least) && forall p :: Refusable(opts, p) ==> least.code <= p.code
  {
    PrintedIsBad(opts, o);
    var i := FirstBad(PrintedOptions(opts), o);
    least := PrintedOptions(opts)[i];
    PrintedIsBad(opts, least);
    forall p | Refusable(opts, p) ensures least.code <= p.code { PrintedIsBad(opts, p); }
  }

  /** The parser accepts a printed message exactly when the token has at most eight bytes, no option has a
      critical code that it does not know, no integer has more than four bytes, and no critical code that must
      not repeat is printed twice. */
  lemma AcceptedExactly(m: Msg)
    requires m.typ <= 3 && |m.token| <= 15 && AllFit(m.options)
    ensures Decode(Encode(m)).Ok? <==>
            && |m.token| <= 8
            && (forall o :: o in m.options ==> !(KindOf(o.code).Unknown? && o.code % 2 == 1))
            && (forall o :: o in m.options && Goes(m.options, o.code) && KindOf(o.code).Integer? ==>
                  |ValueBytes(o.value)| <= 4)
            && (forall o :: o in m.options && Goes(m.options, o.code) && o.code % 2 == 1 && !IsRepeatable(o.code) ==>
                  |GetOptions(m.options, o.code)| <= 1)
  {
    if o :| Refusable(m.options, o) {
      var least := LeastRefusable(m.options, o);
      RefusedForOption(m, least);
      assert least in m.options;
    } else {
      RefusedForMessage(m);
      assert forall o :: o in m.options && Bad(o) && Goes(m.options, o.code) ==> Refusable(m.options, o);
    }
  }

  /** What an accepted message is read as: every recognised option in its place among those of its code, as an
      integer or a string by its code, and no other option; the rest of the message unchanged. */
  lemma AcceptedReads(m: Msg, r: Msg, code: nat)
    requires m.typ <= 3 && |m.token| <= 15 && AllFit(m.options)
    requires Decode(Encode(m)) == Ok(r)
    ensures r == m.(options := r.options) && Sorted(r.options)
    ensures KindOf(code).Unknown? ==> GetOptions(r.options, code) == []
    ensures !KindOf(code).Unknown? ==> ReadAs(GetOptions(PrintedOptions(m.options), code), GetOptions(r.options, code))
  {
    var printed := PrintedOptions(m.options);
    AcceptedExactly(m);
    RefusedForMessage(m);
    NothingBadPrinted(m.options);
    InterpretSucceeds(printed, code);
    InterpretShape(printed);
  }

  // ---------------------------------------------------------------- the recognised codes

  lemma OneOption(o: Opt)
    requires Fits(o)
    ensures var m := Msg(0, 1, 0, [], [o], []);
            Decode(Encode(m)) == Ok(m) <==> Clean(o) && SchemeKept([o])
  {
    var m := Msg(0, 1, 0, [], [o], []);
    assert GetOptions([o], o.code) == [o] by { assert [o][1..] == []; }
    assert !RepeatsCritical([o]);
    assert Sort([o]) == [o] by { SortOfSorted([o]); }
    RoundTrip(m);
    assert o in m.options;
  }

  lemma NumbersKept(code: nat, n: nat)
    requires n < TWO_32
    ensures Clean(Opt(code, Num(n))) && SchemeKept([Opt(code, Num(n))]) <==>
            code in {6, 7, 12, 14, 17, 23, 27, 28, 39, 60, 3001, 3004, 3999, 4001, 4003} || (code == 2111 && n <= 1)
  {
    var o := Opt(code, Num(n));
    assert GetOptions([o], URI_SCHEME) == if code == URI_SCHEME then [o] else [] by { assert [o][1..] == []; }
  }

  lemma StringsKept(code: nat, s: seq<byte>)
    ensures Clean(Opt(code, Text(s))) && SchemeKept([Opt(code, Text(s))]) <==>
            code in {3, 4, 8, 11, 15, 20, 35, 4005, 4006}
  {
    var o := Opt(code, Text(s));
    assert code != URI_SCHEME ==> GetOptions([o], URI_SCHEME) == [] by { assert [o][1..] == []; }
  }

  /** The codes that carry integers: Observe, Uri-Port, Content-Format, Max-Age, Accept, Block2, Block1, Size2,
      Proxy-Scheme and Size1 of RFC 7252, RFC 7641 and RFC 7959, and six of the program's own. */
  lemma IntegerCodes(code: nat, n: nat)
    requires code < 0x1_0000 && n < TWO_32
    ensures var m := Msg(0, 1, 0, [], [Opt(code, Num(n))], []);
            Decode(Encode(m)) == Ok(m) <==>
            code in {6, 7, 12, 14, 17, 23, 27, 28, 39, 60, 3001, 3004, 3999, 4001, 4003} || (code == 2111 && n <= 1)
  {
    OneOption(Opt(code, Num(n)));
    NumbersKept(code, n);
  }

  /** The codes that carry strings: Uri-Host, ETag, Location-Path, Uri-Path, Uri-Query, Location-Query and
      Proxy-Uri of RFC 7252, and two of the program's own. */
  lemma StringCodes(code: nat, s: seq<byte>)
    requires code < 0x1_0000 && |s| < 0x1_0000
    ensures var m := Msg(0, 1, 0, [], [Opt(code, Text(s))], []);
            Decode(Encode(m)) == Ok(m) <==> code in {3, 4, 8, 11, 15, 20, 35, 4005, 4006}
  {
    OneOption(Opt(code, Text(s)));
    StringsKept(code, s);
  }

  /** An option sent as bytes, or without a value, arrives as the value of its code's kind. */
  lemma BytesArriveByKind(code: nat, b: seq<byte>, m: Msg, r: Msg)
    requires code < 0x1_0000 && |b| < 0x1_0000 && code != URI_SCHEME
    requires m == Msg(0, 1, 0, [], [Opt(code, if b == [] then Nil else Blob(b))], []) && Decode(Encode(m)) == Ok(r)
    ensures GetOptions(r.options, code) ==
            if KindOf(code).Unknown? then []
            else if KindOf(code).Integer? then [Opt(code, Num(Integers.Value(b)))]
            else [Opt(code, Text(b))]
  {
    assert GetOptions(m.options, code) == m.options by { assert m.options[1..] == []; }
    PrintedByCode(m.options, code);
    AcceptedReads(m, r, code);
  }

  // ---------------------------------------------------------------- arbitrary datagrams

  lemma {:induction false} ParseErrors(tmp: seq<byte>, last: nat)
    ensures var r := ParseOptions(tmp, last);
            r.Err? ==> r.error in {OptionDeltaUsesValue15, OptionLengthUsesValue15, DataOutsideOfType,
                                   UnknownCriticalOption, NilMessage}
    decreases |tmp|
  {
    if tmp != [] && tmp[0] != PAYLOAD_MARKER {
      var header := ReadHeader(tmp);
      if header.Ok? {
        var code, length, rest := (last + header.value.delta) % 0x1_0000, header.value.length, header.value.rest;
        if length > |rest| {
          ParseErrors(rest, code);
        } else {
          ParseErrors(rest[length..], code);
        }
      }
    }
  }

  /** Whatever the bytes: too few for a header and a wrong version have their own errors and no other cause; a
      datagram that ends inside its token yields no message. */
  lemma HeaderErrors(data: seq<byte>)
    ensures Decode(data) == Err(PacketLengthLessThan4) <==> |data| < 4
    ensures Decode(data) == Err(InvalidCoapVersion) <==> |data| >= 4 && !(0x40 <= data[0] < 0x80)
    ensures |data| >= 4 && 0x40 <= data[0] < 0x80 && |data| < 4 + data[0] as int % 16 ==> Decode(data) == Err(NilMessage)
  {
    if |data| >= 4 && |data| >= 4 + data[0] as int % 16 {
      ParseErrors(data[4 + data[0] as int % 16..], 0);
    }
  }

  /** The fixed fields of an accepted datagram are where section 3 of RFC 7252 puts them. */
  lemma HeaderFields(data: seq<byte>, m: Msg)
    requires Decode(data) == Ok(m)
    ensures |data| >= 4 + |m.token| && data[0] as int == 0x40 + m.typ as int * 0x10 + |m.token|
    ensures data[1] == m.code && data[2] as int * 0x100 + data[3] as int == m.id
    ensures data[4..4 + |m.token|] == m.token
  {
  }

  /** What stands behind the token: nothing, the payload marker, or a reserved nibble. */
  lemma BehindTheToken(data: seq<byte>, behind: seq<byte>)
    requires |data| >= 4 && 0x40 <= data[0] < 0x80 && |data| >= 4 + data[0] as int % 16
    requires behind == data[4 + data[0] as int % 16..]
    ensures behind != [] && 0xf0 <= behind[0] < 0xff ==> Decode(data) == Err(OptionDeltaUsesValue15)
    ensures behind != [] && behind[0] < 0xd0 && behind[0] % 16 == 15 ==> Decode(data) == Err(OptionLengthUsesValue15)
    ensures data[0] % 16 <= 8 && (behind == [] || behind[0] == 0xff) ==>
              Decode(data).Ok? && Decode(data).value.options == []
              && Decode(data).value.payload == if behind == [] then [] else behind[1..]
  {
  }

  /** The parser, when the next value is cut off. */
  lemma CutOffStep(tmp: seq<byte>, last: nat, delta: nat, length: nat, rest: seq<byte>)
    requires tmp != [] && tmp[0] != PAYLOAD_MARKER && ReadHeader(tmp) == Ok(Header(delta, length, rest))
    requires last + delta < 0x1_0000 && length > |rest|
    ensures ParseOptions(tmp, last) == Prepend(Some(Opt(last + delta, Nil)), ParseOptions(rest, last + delta))
  {
    var header := ReadHeader(tmp).value;
    assert header.delta == delta && header.length == length && header.rest == rest;
    assert (last + delta) % 0x1_0000 == last + delta;
  }

  lemma CutOffParsed(option: nat, length: nat, payload: seq<byte>, body: seq<byte>)
    requires option < 0x1_0000 && |PrintPayload(payload)| < length < 0x1_0000
    requires body == PrintHeader(option, length) + PrintPayload(payload)
    ensures ParseOptions(body, 0) == Ok(([Opt(option, Nil)], payload))
  {
    HeaderRoundTrip(option, length, PrintPayload(payload));
    ParsePayload(payload, option);
    CutOffStep(body, 0, option, length, PrintPayload(payload));
    var none: seq<Opt> := [];
    assert [Opt(option, Nil)] + none == [Opt(option, Nil)];
  }

  /** An option whose value is cut off by the end of the datagram is kept without a value, whatever its code:
      not even an unknown critical one is refused.  What there is of the value is read on as if it were the rest
      of the message, here its payload. */
  lemma CutOffOptionIsKept(code: byte, id: uint16, token: seq<byte>, option: nat, length: nat, payload: seq<byte>)
    requires |token| <= 8 && option < 0x1_0000 && |PrintPayload(payload)| < length < 0x1_0000
    ensures Decode([FirstByte(0, |token|), code] + Big16(id) + token + (PrintHeader(option, length) + PrintPayload(payload)))
         == Ok(Msg(0, code, id, token, [Opt(option, Nil)], payload))
  {
    var body := PrintHeader(option, length) + PrintPayload(payload);
    CutOffParsed(option, length, payload, body);
    DecodeParts(0, code, id, token, body);
    assert GetOptions([Opt(option, Nil)], option) == [Opt(option, Nil)] by { assert [Opt(option, Nil)][1..] == []; }
  }
}
