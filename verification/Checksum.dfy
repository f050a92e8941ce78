/** The optional checksum: a hash of the message printed without it, recomputed by the peer from what it has
    decoded (message.go:70-84, 288-356).  The hash is an arbitrary function. */
module Checksum {
  import opened Prelude
  import opened Integers
  import opened Options
  import opened Codec
  import opened CodecProofs

  type Hash = seq<byte> -> seq<byte>

  function Strip(m: Msg): Msg { m.(options := RemoveOptions(m.options, CHECKSUM)) }

  function Sum(h: Hash, m: Msg): seq<byte> { h(Encode(Strip(m))) }

  /** `m` with `sum` as its only checksum option, the last of its options. */
  function WithChecksum(m: Msg, sum: seq<byte>): Msg {
    m.(options := AddOption(RemoveOptions(m.options, CHECKSUM), Opt(CHECKSUM, Text(sum))))
  }

  function Apply(h: Hash, m: Msg): Msg { WithChecksum(m, Sum(h, Strip(m))) }

  predicate Verifies(h: Hash, m: Msg) {
    var option := GetOption(m.options, CHECKSUM);
    option.Some? ==> StringValue(option.value.value) == Sum(h, m)
  }

  function Check(h: Hash, decoded: Result<Msg>): Result<Msg> {
    match decoded
    case Err(e) => Err(e)
    case Ok(m) => if Verifies(h, m) then Ok(m) else Err(ChecksumMismatch)
  }

  /** Decoding with the check, as messages are received. */
  function DecodeChecked(h: Hash, data: seq<byte>): Result<Msg> { Check(h, Decode(data)) }

  // ---------------------------------------------------------------- printing forgets all but codes and bytes

  ghost predicate SameWire(a: seq<Opt>, b: seq<Opt>) {
    && |a| == |b|
    && forall i :: 0 <= i < |a| ==> a[i].code == b[i].code && ValueBytes(a[i].value) == ValueBytes(b[i].value)
  }

  lemma SameWireTail(a: seq<Opt>, b: seq<Opt>)
    requires SameWire(a, b) && a != []
    ensures SameWire(a[1..], b[1..]) && a[0].code == b[0].code && ValueBytes(a[0].value) == ValueBytes(b[0].value)
  {
  }

  lemma {:induction false} SameWirePrintsSame(a: seq<Opt>, b: seq<Opt>, last: nat)
    requires SameWire(a, b) && Sorted(a) && Sorted(b) && forall i :: 0 <= i < |a| ==> last <= a[i].code
    ensures PrintOptions(a, last) == PrintOptions(b, last)
  {
    if a != [] {
      SameWireTail(a, b);
      SameWirePrintsSame(a[1..], b[1..], a[0].code);
    }
  }

  lemma OptionDetermined(tmp: seq<byte>, delta: nat, value: seq<byte>, tail: seq<byte>,
                         delta': nat, value': seq<byte>, tail': seq<byte>)
    requires delta < 0x1_0000 && |value| < 0x1_0000 && delta' < 0x1_0000 && |value'| < 0x1_0000
    requires tmp == PrintHeader(delta, |value|) + value + tail
    requires tmp == PrintHeader(delta', |value'|) + value' + tail'
    ensures delta == delta' && value == value' && tail == tail'
  {
    assert tmp == PrintHeader(delta, |value|) + (value + tail);
    assert tmp == PrintHeader(delta', |value'|) + (value' + tail');
    HeaderRoundTrip(delta, |value|, value + tail);
    HeaderRoundTrip(delta', |value'|, value' + tail');
    assert value == (value + tail)[..|value|] && value' == (value' + tail')[..|value'|];
    assert tail == (value + tail)[|value|..] && tail' == (value' + tail')[|value'|..];
  }

  lemma OptionIsNoPayload(delta: nat, value: seq<byte>, tail: seq<byte>, payload: seq<byte>)
    ensures PrintHeader(delta, |value|) + value + tail != PrintPayload(payload)
  {
    assert PrintHeader(delta, |value|) + value + tail == PrintHeader(delta, |value|) + (value + tail);
    HeaderRoundTrip(delta, |value|, value + tail);
  }

  lemma PrintedStartsWithHeader(a: seq<Opt>, last: nat, payload: seq<byte>, other: seq<byte>)
    requires a != [] && Sorted(a) && forall i :: 0 <= i < |a| ==> last <= a[i].code
    ensures PrintOptions(a, last) + PrintPayload(payload) != PrintPayload(other)
  {
    FirstPrinted(a, last, payload);
    OptionIsNoPayload(a[0].code - last, ValueBytes(a[0].value),
                      PrintOptions(a[1..], a[0].code) + PrintPayload(payload), other);
  }

  lemma FirstDetermined(a: seq<Opt>, b: seq<Opt>, last: nat, tmp: seq<byte>, ta: seq<byte>, tb: seq<byte>)
    requires a != [] && b != [] && Fits(a[0]) && Fits(b[0]) && last <= a[0].code && last <= b[0].code
    requires var va := ValueBytes(a[0].value); tmp == PrintHeader(a[0].code - last, |va|) + va + ta
    requires var vb := ValueBytes(b[0].value); tmp == PrintHeader(b[0].code - last, |vb|) + vb + tb
    ensures a[0].code == b[0].code && ValueBytes(a[0].value) == ValueBytes(b[0].value) && ta == tb
  {
    OptionDetermined(tmp, a[0].code - last, ValueBytes(a[0].value), ta, b[0].code - last, ValueBytes(b[0].value), tb);
  }

  lemma HeadsAgree(a: seq<Opt>, b: seq<Opt>, last: nat, p: seq<byte>, q: seq<byte>)
    requires a != [] && b != [] && Sorted(a) && Sorted(b) && Fits(a[0]) && Fits(b[0])
    requires (forall i :: 0 <= i < |a| ==> last <= a[i].code) && (forall i :: 0 <= i < |b| ==> last <= b[i].code)
    requires PrintOptions(a, last) + PrintPayload(p) == PrintOptions(b, last) + PrintPayload(q)
    ensures a[0].code == b[0].code && ValueBytes(a[0].value) == ValueBytes(b[0].value)
    ensures PrintOptions(a[1..], a[0].code) + PrintPayload(p) == PrintOptions(b[1..], b[0].code) + PrintPayload(q)
  {
    FirstPrinted(a, last, p);
    FirstPrinted(b, last, q);
    FirstDetermined(a, b, last, PrintOptions(a, last) + PrintPayload(p),
                    PrintOptions(a[1..], a[0].code) + PrintPayload(p),
                    PrintOptions(b[1..], b[0].code) + PrintPayload(q));
  }

  lemma SameWireCons(a: seq<Opt>, b: seq<Opt>)
    requires a != [] && b != [] && SameWire(a[1..], b[1..])
    requires a[0].code == b[0].code && ValueBytes(a[0].value) == ValueBytes(b[0].value)
    ensures SameWire(a, b)
  {
    forall i | 0 <= i < |a| ensures a[i].code == b[i].code && ValueBytes(a[i].value) == ValueBytes(b[i].value) {
      if i > 0 { assert a[i] == a[1..][i - 1] && b[i] == b[1..][i - 1]; }
    }
  }

  lemma PayloadDetermined(p: seq<byte>, q: seq<byte>)
    requires PrintPayload(p) == PrintPayload(q)
    ensures p == q
  {
    assert p != [] ==> PrintPayload(p)[1..] == p;
    assert q != [] ==> PrintPayload(q)[1..] == q;
  }

  lemma EmptyDetermines(a: seq<Opt>, b: seq<Opt>, last: nat, p: seq<byte>, q: seq<byte>)
    requires Sorted(a) && Sorted(b) && (a == [] || b == [])
    requires (forall i :: 0 <= i < |a| ==> last <= a[i].code) && (forall i :: 0 <= i < |b| ==> last <= b[i].code)
    requires PrintOptions(a, last) + PrintPayload(p) == PrintOptions(b, last) + PrintPayload(q)
    ensures a == b == [] && p == q
  {
    assert PrintOptions([], last) + PrintPayload(p) == PrintPayload(p);
    assert PrintOptions([], last) + PrintPayload(q) == PrintPayload(q);
    if a != [] { PrintedStartsWithHeader(a, last, p, q); }
    if b != [] { PrintedStartsWithHeader(b, last, q, p); }
    PayloadDetermined(p, q);
  }

  /** Two lists and payloads that print the same agree in codes and value bytes, and in the payload. */
  lemma {:induction false} PrintingDetermines(a: seq<Opt>, b: seq<Opt>, last: nat, p: seq<byte>, q: seq<byte>)
    requires Sorted(a) && Sorted(b) && AllFit(a) && AllFit(b)
    requires (forall i :: 0 <= i < |a| ==> last <= a[i].code) && (forall i :: 0 <= i < |b| ==> last <= b[i].code)
    requires PrintOptions(a, last) + PrintPayload(p) == PrintOptions(b, last) + PrintPayload(q)
    ensures SameWire(a, b) && p == q
  {
    if a == [] || b == [] {
      EmptyDetermines(a, b, last, p, q);
    } else {
      HeadsAgree(a, b, last, p, q);
      PrintingDetermines(a[1..], b[1..], a[0].code, p, q);
      SameWireCons(a, b);
    }
  }

  lemma {:induction false} SameWireByCode(a: seq<Opt>, b: seq<Opt>, code: nat)
    requires SameWire(a, b)
    ensures SameWire(GetOptions(a, code), GetOptions(b, code))
  {
    if a != [] { SameWireByCode(a[1..], b[1..], code); }
  }

  // ---------------------------------------------------------------- interpreting part of a list

  lemma {:induction false} InterpretByCode(opts: seq<Opt>, code: nat)
    requires Interpret(opts).Ok?
    ensures Interpret(GetOptions(opts, code)) == Ok(GetOptions(Interpret(opts).value, code))
  {
    if opts != [] {
      InterpretByCode(opts[1..], code);
      ReadIsClean(opts[0].code, ValueBytes(opts[0].value));
      assert Cons(Some(opts[0]), GetOptions(opts[1..], code))[1..] == GetOptions(opts[1..], code);
      var first, more := ReadOption(opts[0].code, ValueBytes(opts[0].value)).value, Interpret(opts[1..]).value;
      assert first.Some? ==> Cons(first, more)[1..] == more;
    }
  }

  lemma {:induction false} InterpretWithout(opts: seq<Opt>, code: nat)
    requires Interpret(opts).Ok?
    ensures Interpret(RemoveOptions(opts, code)) == Ok(RemoveOptions(Interpret(opts).value, code))
  {
    if opts != [] {
      InterpretWithout(opts[1..], code);
      ReadIsClean(opts[0].code, ValueBytes(opts[0].value));
      assert Cons(Some(opts[0]), RemoveOptions(opts[1..], code))[1..] == RemoveOptions(opts[1..], code);
      var first, more := ReadOption(opts[0].code, ValueBytes(opts[0].value)).value, Interpret(opts[1..]).value;
      assert first.Some? ==> Cons(first, more)[1..] == more;
    }
  }

  lemma {:induction false} RemoveKeepsSorted(opts: seq<Opt>, code: nat)
    requires Sorted(opts)
    ensures Sorted(RemoveOptions(opts, code))
  {
    if opts != [] {
      RemoveKeepsSorted(opts[1..], code);
      forall i | 0 <= i < |RemoveOptions(opts[1..], code)| ensures opts[0].code <= RemoveOptions(opts[1..], code)[i].code {
        RemoveMembers(opts[1..], code, RemoveOptions(opts[1..], code)[i]);
      }
    }
  }

  // ---------------------------------------------------------------- the verdict

  /** The options of a message in the order they are printed, without the checksum. */
  function Hashed(m: Msg): seq<Opt> { PrintedOptions(Strip(m).options) }

  lemma SchemeUntouched(a: seq<Opt>, b: seq<Opt>, code: nat)
    requires GetOptions(a, URI_SCHEME) == GetOptions(b, URI_SCHEME) && GetOptions(a, code) == GetOptions(b, code)
    ensures GetOptions(NormalizeScheme(a), code) == GetOptions(NormalizeScheme(b), code)
  {
    GetAdd(a, Opt(URI_SCHEME, Num(COAP_SCHEME)), code);
    GetAdd(b, Opt(URI_SCHEME, Num(COAP_SCHEME)), code);
  }

  /** Taking the checksum out of what is sent leaves what was hashed: removing and sorting commute. */
  lemma SentWithoutChecksum(m: Msg, sum: seq<byte>)
    ensures RemoveOptions(PrintedOptions(WithChecksum(m, sum).options), CHECKSUM) == Hashed(m)
    ensures GetOptions(PrintedOptions(WithChecksum(m, sum).options), CHECKSUM) == [Opt(CHECKSUM, Text(sum))]
  {
    var a, s := WithChecksum(m, sum).options, Strip(m).options;
    forall code: nat
      ensures GetOptions(a, code) == if code == CHECKSUM then [Opt(CHECKSUM, Text(sum))] else GetOptions(s, code)
    {
      GetAdd(s, Opt(CHECKSUM, Text(sum)), code);
    }
    forall code: nat
      ensures GetOptions(RemoveOptions(PrintedOptions(a), CHECKSUM), code) == GetOptions(Hashed(m), code)
    {
      GetRemove(PrintedOptions(a), CHECKSUM, code);
      SortIsStable(NormalizeScheme(a), code);
      SortIsStable(NormalizeScheme(s), code);
      GetRemove(m.options, CHECKSUM, code);
      if code == CHECKSUM { GetAdd(s, Opt(URI_SCHEME, Num(COAP_SCHEME)), code); } else { SchemeUntouched(a, s, code); }
    }
    RemoveKeepsSorted(PrintedOptions(a), CHECKSUM);
    SortedIsUnique(RemoveOptions(PrintedOptions(a), CHECKSUM), Hashed(m));
    SortIsStable(NormalizeScheme(a), CHECKSUM);
    GetAdd(a, Opt(URI_SCHEME, Num(COAP_SCHEME)), CHECKSUM);
  }

  lemma {:induction false} RemoveTwice(opts: seq<Opt>, code: nat)
    ensures RemoveOptions(RemoveOptions(opts, code), code) == RemoveOptions(opts, code)
  {
    if opts != [] {
      RemoveTwice(opts[1..], code);
      if opts[0].code != code { assert RemoveOptions(opts, code)[1..] == RemoveOptions(opts[1..], code); }
    }
  }

  lemma ReceivedOptions(a: Msg, r: Msg)
    requires Received(a) == Ok(r)
    ensures Interpret(PrintedOptions(a.options)) == Ok(r.options)
    ensures r.(options := []) == a.(options := [])
    ensures !RepeatsCritical(r.options)
  {
  }

  lemma InterpretedParts(printed: seq<Opt>, read: seq<Opt>, sum: Opt)
    requires Interpret(printed) == Ok(read) && Clean(sum) && GetOptions(printed, CHECKSUM) == [sum]
    ensures Interpret(RemoveOptions(printed, CHECKSUM)) == Ok(RemoveOptions(read, CHECKSUM))
    ensures GetOptions(read, CHECKSUM) == [sum]
  {
    InterpretWithout(printed, CHECKSUM);
    InterpretByCode(printed, CHECKSUM);
    InterpretBack([sum]);
  }

  /** The parts of what the peer decodes: everything but the options is as sent, the checksum is the one sent,
      and the rest of the options is what it makes of the hashed ones. */
  lemma ReceivedParts(m: Msg, sum: seq<byte>, r: Msg)
    requires Received(WithChecksum(m, sum)) == Ok(r)
    ensures r.(options := []) == m.(options := []) && !RepeatsCritical(r.options)
    ensures Interpret(Hashed(m)) == Ok(Strip(r).options)
    ensures GetOptions(r.options, CHECKSUM) == [Opt(CHECKSUM, Text(sum))]
  {
    ReceivedOptions(WithChecksum(m, sum), r);
    SentWithoutChecksum(m, sum);
    InterpretedParts(PrintedOptions(WithChecksum(m, sum).options), r.options, Opt(CHECKSUM, Text(sum)));
  }

  lemma ApplyIsWithChecksum(h: Hash, m: Msg)
    ensures Apply(h, m) == WithChecksum(m, Sum(h, m))
  {
    RemoveTwice(m.options, CHECKSUM);
    assert Strip(Strip(m)) == Strip(m);
  }

  lemma VerifiesExactly(h: Hash, m: Msg, r: Msg)
    requires GetOptions(r.options, CHECKSUM) == [Opt(CHECKSUM, Text(Sum(h, m)))]
    ensures Verifies(h, r) <==> Sum(h, m) == Sum(h, r)
  {
  }

  lemma WithChecksumFits(m: Msg, sum: seq<byte>)
    requires AllFit(m.options) && |sum| < 0x1_0000
    ensures AllFit(WithChecksum(m, sum).options)
  {
    forall o | o in WithChecksum(m, sum).options ensures Fits(o) {
      RemoveMembers(RemoveOptions(m.options, CHECKSUM), CHECKSUM, o);
      RemoveMembers(m.options, CHECKSUM, o);
    }
  }

  /** The peer compares the hash of what was hashed with the hash of its own reprint, and nothing else. */
  lemma Verdict(h: Hash, m: Msg, r: Msg)
    requires m.typ <= 3 && |m.token| <= 8 && AllFit(m.options) && |Sum(h, m)| < 0x1_0000
    requires Received(Apply(h, m)) == Ok(r)
    ensures DecodeChecked(h, Encode(Apply(h, m))) == if Sum(h, m) == Sum(h, r) then Ok(r) else Err(ChecksumMismatch)
  {
    ApplyIsWithChecksum(h, m);
    ReceivedParts(m, Sum(h, m), r);
    VerifiesExactly(h, m, r);
    WithChecksumFits(m, Sum(h, m));
    DecodeOfEncode(Apply(h, m));
  }

  // ---------------------------------------------------------------- when the reprint is exact

  /** An option that the peer prints again as it came: recognised, an integer in its shortest form, and a scheme
      of 0 or 1. */
  predicate Stable(o: Opt) {
    match ReadOption(o.code, ValueBytes(o.value))
    case Err(_) => false
    case Ok(read) =>
      && read.Some?
      && ValueBytes(read.value.value) == ValueBytes(o.value)
      && (o.code == URI_SCHEME ==> read.value.value in {Num(COAP_SCHEME), Num(COAPS_SCHEME)})
  }

  lemma {:induction false} InterpretPointwise(sent: seq<Opt>, read: seq<Opt>)
    requires Interpret(sent) == Ok(read) && |read| == |sent|
    ensures forall i :: 0 <= i < |sent| ==> ReadOption(sent[i].code, ValueBytes(sent[i].value)) == Ok(Some(read[i]))
    ensures forall i :: 0 <= i < |sent| ==> read[i].code == sent[i].code
  {
    if sent != [] {
      ReadIsClean(sent[0].code, ValueBytes(sent[0].value));
      InterpretShape(sent[1..]);
      var (first, more) := (ReadOption(sent[0].code, ValueBytes(sent[0].value)).value, Interpret(sent[1..]).value);
      assert first.Some? && read == [first.value] + more;
      assert read[1..] == more;
      InterpretPointwise(sent[1..], more);
    }
  }

  lemma {:induction false} StableKeepsLength(sent: seq<Opt>, read: seq<Opt>)
    requires Interpret(sent) == Ok(read) && forall o :: o in sent ==> Stable(o)
    ensures |read| == |sent|
  {
    if sent != [] {
      assert Stable(sent[0]);
      StableKeepsLength(sent[1..], Interpret(sent[1..]).value);
    }
  }

  lemma RepeatIsSeen(opts: seq<Opt>, code: nat)
    ensures Repeats(opts, code) ==> RepeatsCritical(opts)
  {
    if Repeats(opts, code) {
      GetIsMember(opts, code, 0);
      var i :| 0 <= i < |opts| && opts[i] == GetOptions(opts, code)[0];
      assert Repeats(opts, opts[i].code);
    }
  }

  lemma SchemeIsUnique(opts: seq<Opt>)
    requires !RepeatsCritical(opts)
    ensures |GetOptions(opts, URI_SCHEME)| <= 1
  {
    RepeatIsSeen(opts, URI_SCHEME);
  }

  lemma SchemeKeptIfKnown(read: seq<Opt>, schemes: seq<Opt>)
    requires schemes == GetOptions(read, URI_SCHEME) && |schemes| <= 1
    requires schemes != [] ==> schemes[0].code == URI_SCHEME && schemes[0].value in {Num(COAP_SCHEME), Num(COAPS_SCHEME)}
    ensures SchemeKept(read)
  {
    if schemes != [] && schemes[0].value == Num(COAP_SCHEME) {
      assert schemes == [Opt(URI_SCHEME, Num(COAP_SCHEME))];
    }
  }

  /** The scheme is the only thing a second printing can change, and it does not change 0 or 1. */
  lemma PrintedAgain(read: seq<Opt>)
    requires Sorted(read) && |GetOptions(read, URI_SCHEME)| <= 1
    requires forall o :: o in read && o.code == URI_SCHEME ==> o.value in {Num(COAP_SCHEME), Num(COAPS_SCHEME)}
    ensures PrintedOptions(read) == read
  {
    assert SchemeKept(read) by {
      if GetOptions(read, URI_SCHEME) != [] { GetIsMember(read, URI_SCHEME, 0); }
      SchemeKeptIfKnown(read, GetOptions(read, URI_SCHEME));
    }
    assert PrintedOptions(read) == Sort(read) by { PrintedIsSorted(read); }
    SortOfSorted(read);
  }

  lemma StableReprints(sent: seq<Opt>, read: seq<Opt>)
    requires Interpret(sent) == Ok(read) && Sorted(sent) && |GetOptions(read, URI_SCHEME)| <= 1
    requires forall o :: o in sent ==> Stable(o)
    ensures SameWire(PrintedOptions(read), sent)
  {
    StableKeepsLength(sent, read);
    InterpretPointwise(sent, read);
    InterpretShape(sent);
    forall i | 0 <= i < |sent|
      ensures ValueBytes(read[i].value) == ValueBytes(sent[i].value)
      ensures read[i].code == URI_SCHEME ==> read[i].value in {Num(COAP_SCHEME), Num(COAPS_SCHEME)}
    {
      assert Stable(sent[i]);
    }
    PrintedAgain(read);
  }

  lemma {:induction false} RemoveLength(opts: seq<Opt>, code: nat)
    ensures |RemoveOptions(opts, code)| + |GetOptions(opts, code)| == |opts|
  {
    if opts != [] { RemoveLength(opts[1..], code); }
  }

  lemma PrintedLength(read: seq<Opt>)
    requires |GetOptions(read, URI_SCHEME)| <= 1
    ensures |PrintedOptions(read)| == |read|
  {
    RemoveLength(read, URI_SCHEME);
  }

  lemma PrintedByCode(read: seq<Opt>, code: nat)
    ensures GetOptions(PrintedOptions(read), code) == GetOptions(read, code)
         || (code == URI_SCHEME && GetOptions(PrintedOptions(read), code) == [Opt(URI_SCHEME, Num(COAP_SCHEME))])
    ensures code == URI_SCHEME && GetOptions(PrintedOptions(read), code) == GetOptions(read, code) != [] ==>
              IntValue(GetOptions(read, code)[0].value) == COAPS_SCHEME
              || GetOptions(read, code) == [Opt(URI_SCHEME, Num(COAP_SCHEME))]
  {
    SortIsStable(NormalizeScheme(read), code);
    NormalizedByCode(read, code);
    GetAdd(read, Opt(URI_SCHEME, Num(COAP_SCHEME)), code);
  }

  lemma {:induction false} SameCodesByCode(a: seq<Opt>, b: seq<Opt>, code: nat)
    requires |a| == |b| && forall i :: 0 <= i < |a| ==> a[i].code == b[i].code
    ensures |GetOptions(a, code)| == |GetOptions(b, code)|
  {
    if a != [] { SameCodesByCode(a[1..], b[1..], code); }
  }

  /** An option among equals of its code is read as the peer reads it. */
  lemma MemberOfCode(sent: seq<Opt>, read: seq<Opt>, o: Opt)
    requires Interpret(sent) == Ok(read) && |read| == |sent| && o in sent
    requires SameWire(GetOptions(PrintedOptions(read), o.code), GetOptions(sent, o.code))
    ensures exists k :: 0 <= k < |GetOptions(sent, o.code)| && GetOptions(sent, o.code)[k] == o
              && k < |GetOptions(read, o.code)| && ReadOption(o.code, ValueBytes(o.value)) == Ok(Some(GetOptions(read, o.code)[k]))
              && |GetOptions(read, o.code)| == |GetOptions(sent, o.code)|
  {
    MemberIsGot(sent, o);
    InterpretPointwise(sent, read);
    SameCodesByCode(sent, read, o.code);
    InterpretByCode(sent, o.code);
    InterpretPointwise(GetOptions(sent, o.code), GetOptions(read, o.code));
    var k :| 0 <= k < |GetOptions(sent, o.code)| && GetOptions(sent, o.code)[k] == o;
  }

  lemma ReprintedIsStable(sent: seq<Opt>, read: seq<Opt>, o: Opt)
    requires Interpret(sent) == Ok(read) && |GetOptions(read, URI_SCHEME)| <= 1
    requires SameWire(PrintedOptions(read), sent) && o in sent
    ensures Stable(o)
  {
    PrintedLength(read);
    SameWireByCode(PrintedOptions(read), sent, o.code);
    MemberOfCode(sent, read, o);
    PrintedByCode(read, o.code);
    var k :| 0 <= k < |GetOptions(sent, o.code)| && GetOptions(sent, o.code)[k] == o
              && k < |GetOptions(read, o.code)| && ReadOption(o.code, ValueBytes(o.value)) == Ok(Some(GetOptions(read, o.code)[k]));
    assert ValueBytes(GetOptions(PrintedOptions(read), o.code)[k].value) == ValueBytes(o.value);
    ReadIsClean(o.code, ValueBytes(o.value));
    if o.code == URI_SCHEME && GetOptions(PrintedOptions(read), o.code) != GetOptions(read, o.code) {
      assert ValueBytes(o.value) == ValueBytes(Num(COAP_SCHEME));
      ReadBack(Opt(URI_SCHEME, Num(COAP_SCHEME)));
    }
  }

  lemma OneScheme(r: Msg)
    requires !RepeatsCritical(r.options)
    ensures |GetOptions(Strip(r).options, URI_SCHEME)| <= 1
  {
    SchemeIsUnique(r.options);
    GetRemove(r.options, CHECKSUM, URI_SCHEME);
  }

  lemma SameWireEncodesSame(a: Msg, b: Msg)
    requires a.(options := []) == b.(options := []) && SameWire(PrintedOptions(a.options), PrintedOptions(b.options))
    ensures Encode(a) == Encode(b)
  {
    SameWirePrintsSame(PrintedOptions(a.options), PrintedOptions(b.options), 0);
  }

  lemma SameTail(head: seq<byte>, x: seq<byte>, y: seq<byte>, x': seq<byte>, y': seq<byte>)
    requires head + x + y == head + x' + y'
    ensures x + y == x' + y'
  {
    assert (head + x + y)[|head|..] == x + y && (head + x' + y')[|head|..] == x' + y';
  }

  lemma SameEncodingSameWire(a: Msg, b: Msg)
    requires a.(options := []) == b.(options := []) && Encode(a) == Encode(b)
    requires AllFit(PrintedOptions(a.options)) && AllFit(PrintedOptions(b.options))
    ensures SameWire(PrintedOptions(a.options), PrintedOptions(b.options))
  {
    SameTail([FirstByte(a.typ, |a.token|), a.code] + Big16(a.id) + a.token,
             PrintOptions(PrintedOptions(a.options), 0), PrintPayload(a.payload),
             PrintOptions(PrintedOptions(b.options), 0), PrintPayload(b.payload));
    PrintingDetermines(PrintedOptions(a.options), PrintedOptions(b.options), 0, a.payload, b.payload);
  }

  lemma HashedFit(m: Msg)
    requires AllFit(m.options)
    ensures AllFit(Hashed(m))
  {
    forall o | o in Strip(m).options ensures Fits(o) { RemoveMembers(m.options, CHECKSUM, o); }
    PrintedAll(Strip(m).options, Fits);
  }

  lemma {:induction false} InterpretKeepsFit(opts: seq<Opt>)
    requires AllFit(opts) && Interpret(opts).Ok?
    ensures AllFit(Interpret(opts).value)
  {
    if opts != [] {
      assert Fits(opts[0]);
      ReadIsClean(opts[0].code, ValueBytes(opts[0].value));
      InterpretKeepsFit(opts[1..]);
    }
  }

  lemma ReprintFits(sent: seq<Opt>, read: seq<Opt>)
    requires AllFit(sent) && Interpret(sent) == Ok(read)
    ensures AllFit(PrintedOptions(read))
  {
    InterpretKeepsFit(sent);
    PrintedAll(read, Fits);
  }

  /** The reprint equals what was hashed exactly when every hashed option is stable. */
  lemma ReprintExact(m: Msg, sum: seq<byte>, r: Msg)
    requires AllFit(m.options) && Received(WithChecksum(m, sum)) == Ok(r)
    ensures Encode(Strip(r)) == Encode(Strip(m)) <==> forall o :: o in Hashed(m) ==> Stable(o)
  {
    ReceivedParts(m, sum, r);
    OneScheme(r);
    HashedFit(m);
    ReprintFits(Hashed(m), Strip(r).options);
    assert Strip(r).(options := []) == Strip(m).(options := []);
    if forall o :: o in Hashed(m) ==> Stable(o) {
      StableReprints(Hashed(m), Strip(r).options);
      SameWireEncodesSame(Strip(r), Strip(m));
    }
    if Encode(Strip(r)) == Encode(Strip(m)) {
      SameEncodingSameWire(Strip(r), Strip(m));
      forall o | o in Hashed(m) ensures Stable(o) { ReprintedIsStable(Hashed(m), Strip(r).options, o); }
    }
  }

  // ---------------------------------------------------------------- the theorems

  /** A checksummed message the peer can decode is accepted if every option is stable.  If one is not, the reprint
      differs from what was hashed, and the honest message is refused if and only if the hash tells the two apart. */
  lemma ChecksumAccepted(h: Hash, m: Msg, r: Msg)
    requires m.typ <= 3 && |m.token| <= 8 && AllFit(m.options) && |Sum(h, m)| < 0x1_0000
    requires Received(Apply(h, m)) == Ok(r)
    ensures var (sent, reprint) := (Encode(Strip(m)), Encode(Strip(r)));
            var verdict := DecodeChecked(h, Encode(Apply(h, m)));
            if forall o :: o in Hashed(m) ==> Stable(o) then sent == reprint && verdict == Ok(r)
            else
              && sent != reprint
              && (verdict == Err(ChecksumMismatch) <==> h(sent) != h(reprint))
              && (verdict == Ok(r) <==> h(sent) == h(reprint))
  {
    ApplyIsWithChecksum(h, m);
    Verdict(h, m, r);
    ReprintExact(m, Sum(h, m), r);
  }

  /** Options that are in order and name no scheme are printed as they are. */
  lemma PrintedAsGiven(opts: seq<Opt>)
    requires Sorted(opts) && GetOptions(opts, URI_SCHEME) == []
    ensures PrintedOptions(opts) == opts
  {
    PrintedIsSorted(opts);
    SortOfSorted(opts);
  }

  const UNKNOWN_ELECTIVE := Opt(2, Nil)

  lemma KeptByStrip()
    ensures RemoveOptions([UNKNOWN_ELECTIVE], CHECKSUM) == [UNKNOWN_ELECTIVE]
    ensures GetOptions([UNKNOWN_ELECTIVE], URI_SCHEME) == []
  {
    assert [UNKNOWN_ELECTIVE][1..] == [];
  }

  lemma OneHeader(o: Opt)
    requires o.code == 2 && o.value.Nil?
    ensures PrintOptions([o], 0) == [0x20]
  {
    assert [o][1..] == [] && PrintHeader(2, 0) == [0x20];
  }

  lemma BareHead()
    ensures [FirstByte(0, 0), 1] + Big16(0) + [] == [0x40, 1, 0, 0]
  {
    assert FirstByte(0, 0) == 0x40 && Big16(0) == [0, 0];
  }

  lemma EncodedParts(m: Msg, head: seq<byte>, body: seq<byte>)
    requires head == [FirstByte(m.typ, |m.token|), m.code] + Big16(m.id) + m.token && m.payload == []
    requires body == PrintOptions(PrintedOptions(m.options), 0)
    ensures Encode(m) == head + body
  {
    assert Encode(m) == head + body + [];
  }

  lemma BareMessage(opts: seq<Opt>, printed: seq<byte>)
    requires Sorted(opts) && GetOptions(opts, URI_SCHEME) == [] && PrintOptions(opts, 0) == printed
    ensures Encode(Msg(0, 1, 0, [], opts, [])) == [0x40, 1, 0, 0] + printed
  {
    PrintedAsGiven(opts);
    BareHead();
    EncodedParts(Msg(0, 1, 0, [], opts, []), [0x40, 1, 0, 0], printed);
  }

  lemma ChecksumBehindUnknown(m: Msg, sum: seq<byte>)
    requires m.options == [UNKNOWN_ELECTIVE]
    ensures WithChecksum(m, sum).options == [UNKNOWN_ELECTIVE, Opt(CHECKSUM, Text(sum))]
  {
    KeptByStrip();
  }

  /** What a receiver makes of the two options. */
  lemma UnknownInterpreted(sum: seq<byte>)
    ensures var (o, c) := (UNKNOWN_ELECTIVE, Opt(CHECKSUM, Text(sum)));
            && PrintedOptions([o, c]) == [o, c] && Interpret([o, c]) == Ok([c]) && !RepeatsCritical([c])
  {
    var (o, c) := (UNKNOWN_ELECTIVE, Opt(CHECKSUM, Text(sum)));
    assert [o, c][1..] == [c] && [c][1..] == [];
    assert GetOptions([o, c], URI_SCHEME) == GetOptions([c], URI_SCHEME) == [];
    PrintedAsGiven([o, c]);
    InterpretBack([c]);
    assert GetOptions([c], CHECKSUM) == [c];
  }

  /** A receiver drops the unknown option of a message and keeps its checksum. */
  lemma UnknownIsDropped(m: Msg, sum: seq<byte>)
    requires m == Msg(0, 1, 0, [], [UNKNOWN_ELECTIVE], [])
    ensures Received(WithChecksum(m, sum)) == Ok(m.(options := [Opt(CHECKSUM, Text(sum))]))
  {
    ChecksumBehindUnknown(m, sum);
    UnknownInterpreted(sum);
  }

  /** What was hashed, and what the receiver hashes in its place. */
  lemma HashedAndReprinted(m: Msg)
    requires m == Msg(0, 1, 0, [], [UNKNOWN_ELECTIVE], [])
    ensures Encode(Strip(m)) == [0x40, 1, 0, 0, 0x20]
    ensures Encode(m.(options := [])) == [0x40, 1, 0, 0]
  {
    KeptByStrip();
    assert Strip(m) == m;
    OneHeader(UNKNOWN_ELECTIVE);
    BareMessage(m.options, [0x20]);
    BareMessage([], []);
  }

  lemma OnlyChecksumStrips(m: Msg, sum: seq<byte>)
    ensures Strip(m.(options := [Opt(CHECKSUM, Text(sum))])) == m.(options := [])
  {
    var opts := [Opt(CHECKSUM, Text(sum))];
    assert RemoveOptions(opts, CHECKSUM) == RemoveOptions(opts[1..], CHECKSUM) == [];
  }

  lemma Refused(h: Hash, m: Msg, r: Msg, sent: seq<byte>, reprint: seq<byte>)
    requires m.typ <= 3 && |m.token| <= 8 && AllFit(m.options) && Received(Apply(h, m)) == Ok(r)
    requires sent == Encode(Strip(m)) && reprint == Encode(Strip(r)) && |h(sent)| < 0x1_0000 && h(sent) != h(reprint)
    ensures DecodeChecked(h, Encode(Apply(h, m))) == Err(ChecksumMismatch)
  {
    Verdict(h, m, r);
  }

  lemma HonestMessage(h: Hash, m: Msg, r: Msg)
    requires m == Msg(0, 1, 0, [], [UNKNOWN_ELECTIVE], []) && r == m.(options := [Opt(CHECKSUM, Text(Sum(h, m)))])
    ensures AllFit(m.options) && Received(Apply(h, m)) == Ok(r)
    ensures Encode(Strip(m)) == [0x40, 1, 0, 0, 0x20] && Encode(Strip(r)) == [0x40, 1, 0, 0]
  {
    ApplyIsWithChecksum(h, m);
    HashedAndReprinted(m);
    UnknownIsDropped(m, Sum(h, m));
    OnlyChecksumStrips(m, Sum(h, m));
  }

  /** An honest message that is refused: one elective option its receiver does not know, and any hash that tells the
      datagram with it from the one without. */
  lemma HonestMessageRefused(h: Hash)
    requires h([0x40, 1, 0, 0, 0x20]) != h([0x40, 1, 0, 0]) && |h([0x40, 1, 0, 0, 0x20])| < 0x1_0000
    ensures var m := Msg(0, 1, 0, [], [UNKNOWN_ELECTIVE], []);
            Received(Apply(h, m)).Ok? && DecodeChecked(h, Encode(Apply(h, m))) == Err(ChecksumMismatch)
  {
    var m := Msg(0, 1, 0, [], [UNKNOWN_ELECTIVE], []);
    var r := m.(options := [Opt(CHECKSUM, Text(Sum(h, m)))]);
    HonestMessage(h, m, r);
    Refused(h, m, r, [0x40, 1, 0, 0, 0x20], [0x40, 1, 0, 0]);
  }

  /** What senders put into options: an integer (or nothing) under an integer code, a string or bytes (or
      anything else) under a string code, and no unknown code. */
  predicate Plain(o: Opt) {
    match KindOf(o.code)
    case Integer => o.value.Num? || o.value.Nil?
    case String => true
    case Unknown => false
  }

  lemma PlainReads(o: Opt)
    requires Plain(o)
    ensures var r := ReadOption(o.code, ValueBytes(o.value));
            r.Ok? && r.value.Some? && r.value.value.code == o.code && ValueBytes(r.value.value.value) == ValueBytes(o.value)
  {
    if KindOf(o.code).Integer? {
      var n := if o.value.Num? then Uint32(o.value.n) else 0;
      assert ValueBytes(o.value) == EncodeInt(n) && Uint32(n) == n;
      IntRoundTrip(n);
    }
  }

  lemma {:induction false} PlainInterprets(opts: seq<Opt>)
    requires forall o :: o in opts ==> Plain(o)
    ensures Interpret(opts).Ok? && SameWire(Interpret(opts).value, opts)
  {
    if opts != [] {
      PlainReads(opts[0]);
      PlainInterprets(opts[1..]);
    }
  }

  lemma PlainStable(o: Opt)
    requires Plain(o) && (o.code == URI_SCHEME ==> o.value in {Num(COAP_SCHEME), Num(COAPS_SCHEME)})
    ensures Stable(o)
  {
    PlainReads(o);
    ReadBack(o);
  }

  lemma PrintedIsPlain(opts: seq<Opt>, o: Opt)
    requires (forall p :: p in opts ==> Plain(p)) && o in PrintedOptions(opts)
    ensures Plain(o)
  {
    PrintedAll(opts, Plain);
  }

  lemma SchemeAmong(given: seq<Opt>, printed: seq<Opt>, o: Opt)
    requires o in printed && o.code == URI_SCHEME && Plain(o) && |given| <= 1
    requires printed == [Opt(URI_SCHEME, Num(COAP_SCHEME))]
          || (printed == given && (printed != [] ==>
                IntValue(given[0].value) == COAPS_SCHEME || given == [Opt(URI_SCHEME, Num(COAP_SCHEME))]))
    ensures o.value in {Num(COAP_SCHEME), Num(COAPS_SCHEME)}
  {
    assert o == printed[0];
  }

  lemma PrintedScheme(opts: seq<Opt>, o: Opt)
    requires o in PrintedOptions(opts) && o.code == URI_SCHEME && Plain(o) && |GetOptions(opts, URI_SCHEME)| <= 1
    ensures o.value in {Num(COAP_SCHEME), Num(COAPS_SCHEME)}
  {
    MemberIsGot(PrintedOptions(opts), o);
    PrintedByCode(opts, URI_SCHEME);
    SchemeAmong(GetOptions(opts, URI_SCHEME), GetOptions(PrintedOptions(opts), URI_SCHEME), o);
  }

  lemma PlainPrinted(opts: seq<Opt>, o: Opt)
    requires (forall p :: p in opts ==> Plain(p)) && o in PrintedOptions(opts) && !RepeatsCritical(opts)
    ensures Stable(o)
  {
    PrintedIsPlain(opts, o);
    if o.code == URI_SCHEME {
      SchemeIsUnique(opts);
      PrintedScheme(opts, o);
    }
    PlainStable(o);
  }

  lemma RepeatsByCode(a: seq<Opt>, b: seq<Opt>)
    requires forall code: nat :: code % 2 == 1 ==> |GetOptions(a, code)| <= |GetOptions(b, code)| || |GetOptions(a, code)| <= 1
    requires RepeatsCritical(a)
    ensures RepeatsCritical(b)
  {
    var i :| 0 <= i < |a| && Repeats(a, a[i].code);
    RepeatIsSeen(b, a[i].code);
  }

  lemma ChecksumKeepsUnrepeated(m: Msg, sum: seq<byte>)
    requires !RepeatsCritical(m.options)
    ensures !RepeatsCritical(Strip(m).options) && !RepeatsCritical(PrintedOptions(WithChecksum(m, sum).options))
  {
    var a := WithChecksum(m, sum).options;
    forall code: nat | code % 2 == 1
      ensures |GetOptions(Strip(m).options, code)| <= |GetOptions(m.options, code)|
      ensures |GetOptions(PrintedOptions(a), code)| <= |GetOptions(m.options, code)| || |GetOptions(PrintedOptions(a), code)| <= 1
    {
      GetRemove(m.options, CHECKSUM, code);
      GetAdd(Strip(m).options, Opt(CHECKSUM, Text(sum)), code);
      PrintedByCode(a, code);
    }
    if RepeatsCritical(Strip(m).options) { RepeatsByCode(Strip(m).options, m.options); }
    if RepeatsCritical(PrintedOptions(a)) { RepeatsByCode(PrintedOptions(a), m.options); }
  }

  lemma ChecksumStaysPlain(m: Msg, sum: seq<byte>)
    requires forall o :: o in m.options ==> Plain(o)
    ensures forall o :: o in Strip(m).options ==> Plain(o)
    ensures forall o :: o in PrintedOptions(WithChecksum(m, sum).options) ==> Plain(o)
  {
    forall o | o in Strip(m).options ensures Plain(o) { RemoveMembers(m.options, CHECKSUM, o); }
    forall o | o in PrintedOptions(WithChecksum(m, sum).options) ensures Plain(o) {
      PrintedMembers(WithChecksum(m, sum).options, o);
      RemoveMembers(Strip(m).options, CHECKSUM, o);
    }
  }

  lemma PlainIsReceived(a: Msg)
    requires |a.token| <= 8 && !RepeatsCritical(PrintedOptions(a.options))
    requires forall o :: o in PrintedOptions(a.options) ==> Plain(o)
    ensures Received(a).Ok?
  {
    var sent := PrintedOptions(a.options);
    PlainInterprets(sent);
    var read := Interpret(sent).value;
    forall code: nat ensures |GetOptions(read, code)| == |GetOptions(sent, code)| { SameWireByCode(read, sent, code); }
    if RepeatsCritical(read) { RepeatsByCode(read, sent); }
  }

  /** The checksum survives the wire: whatever the hash function, a plain message with a legal token and no
      repeated critical option is decoded and accepted by its receiver. */
  lemma ChecksumSurvives(h: Hash, m: Msg)
    requires m.typ <= 3 && |m.token| <= 8 && AllFit(m.options) && |Sum(h, m)| < 0x1_0000
    requires !RepeatsCritical(m.options) && forall o :: o in m.options ==> Plain(o)
    ensures Received(Apply(h, m)).Ok?
    ensures DecodeChecked(h, Encode(Apply(h, m))) == Received(Apply(h, m))
  {
    ApplyIsWithChecksum(h, m);
    ChecksumStaysPlain(m, Sum(h, m));
    ChecksumKeepsUnrepeated(m, Sum(h, m));
    PlainIsReceived(Apply(h, m));
    forall o | o in Hashed(m) ensures Stable(o) { PlainPrinted(Strip(m).options, o); }
    ChecksumAccepted(h, m, Received(Apply(h, m)).value);
  }

  // ---------------------------------------------------------------- arbitrary datagrams

  /** The verdict on any bytes: what cannot be decoded keeps its error, a message without a checksum is taken as it
      is, and one with a checksum is taken exactly when the first one is the hash of the message without any. */
  lemma CheckedExactly(h: Hash, data: seq<byte>)
    ensures Decode(data).Err? ==> DecodeChecked(h, data) == Decode(data)
    ensures Decode(data).Ok? ==>
              var m := Decode(data).value;
              var sums := GetOptions(m.options, CHECKSUM);
              var ok := sums == [] || StringValue(sums[0].value) == h(Encode(m.(options := RemoveOptions(m.options, CHECKSUM))));
              DecodeChecked(h, data) == if ok then Ok(m) else Err(ChecksumMismatch)
  {
  }

  function Head(a: Msg): seq<byte> { [FirstByte(a.typ, |a.token|), a.code] + Big16(a.id) + a.token }

  lemma FixedPart(a: Msg, head: seq<byte>, body: seq<byte>)
    requires a.typ <= 3 && |a.token| <= 15 && head == Head(a)
    ensures |head + body| >= 4 && (head + body)[0] as int == 0x40 + a.typ as int * 0x10 + |a.token|
    ensures (head + body)[1] == a.code && (head + body)[2] as int * 0x100 + (head + body)[3] as int == a.id
    ensures |head| == 4 + |a.token|
    ensures (head + body)[..|head|] == head && (head + body)[|head|..] == body && head[4..] == a.token
  {
  }

  /** The bytes of a message are its head and the rest. */
  lemma HeadAndBody(a: Msg, body: seq<byte>)
    requires body == PrintOptions(PrintedOptions(a.options), 0) + PrintPayload(a.payload)
    ensures Encode(a) == Head(a) + body
  {
    assert Encode(a) == Head(a) + PrintOptions(PrintedOptions(a.options), 0) + PrintPayload(a.payload);
  }

  lemma HeadsDetermine(a: Msg, b: Msg, body: seq<byte>, body': seq<byte>)
    requires a.typ <= 3 && |a.token| <= 15 && b.typ <= 3 && |b.token| <= 15 && Head(a) + body == Head(b) + body'
    ensures a.typ == b.typ && a.code == b.code && a.id == b.id && a.token == b.token && body == body'
  {
    FixedPart(a, Head(a), body);
    FixedPart(b, Head(b), body');
  }

  /** The datagram determines the message but for how its options were given. */
  lemma EncodingDetermines(a: Msg, b: Msg)
    requires a.typ <= 3 && |a.token| <= 15 && b.typ <= 3 && |b.token| <= 15 && Encode(a) == Encode(b)
    requires AllFit(PrintedOptions(a.options)) && AllFit(PrintedOptions(b.options))
    ensures a.(options := []) == b.(options := []) && SameWire(PrintedOptions(a.options), PrintedOptions(b.options))
  {
    var body := PrintOptions(PrintedOptions(a.options), 0) + PrintPayload(a.payload);
    var body' := PrintOptions(PrintedOptions(b.options), 0) + PrintPayload(b.payload);
    HeadAndBody(a, body);
    HeadAndBody(b, body');
    HeadsDetermine(a, b, body, body');
    PrintingDetermines(PrintedOptions(a.options), PrintedOptions(b.options), 0, a.payload, b.payload);
  }

  /** Integrity: whatever datagram arrives, a message accepted under the checksum of `m` is `m`, in type, code, id,
      token, payload, and codes and bytes of its other options, unless the hash takes two different strings for one. */
  lemma AcceptedIsWhatWasSent(h: Hash, m: Msg, data: seq<byte>, r: Msg)
    requires m.typ <= 3 && |m.token| <= 15 && AllFit(m.options)
    requires DecodeChecked(h, data) == Ok(r) && GetOption(r.options, CHECKSUM) == Some(Opt(CHECKSUM, Text(Sum(h, m))))
    requires h(Encode(Strip(m))) == h(Encode(Strip(r))) ==> Encode(Strip(m)) == Encode(Strip(r))
    ensures r.(options := []) == m.(options := [])
    ensures SameWire(PrintedOptions(RemoveOptions(m.options, CHECKSUM)), PrintedOptions(RemoveOptions(r.options, CHECKSUM)))
  {
    DecodedShape(data, r);
    HashedFit(m);
    HashedFit(r);
    EncodingDetermines(Strip(m), Strip(r));
  }
}
