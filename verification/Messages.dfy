/** Messages as the program holds them: objects whose option list is edited in place, printed into a growing
    buffer, and parsed by a loop over the datagram (message.go:86-337, options.go:174-270). */
module Messages {
  import opened Prelude
  import opened Integers
  import O = Options
  import opened Codec
  import Checksum
  import UriPath

  class CoapMessage {
    var typ: byte
    var code: byte
    var id: uint16
    var token: seq<byte>
    var options: seq<O.Opt>
    var payload: seq<byte>

    function Model(): Msg reads this { Msg(typ, code, id, token, options, payload) }

    constructor (m: Msg)
      ensures Model() == m
    {
      typ, code, id, token, options, payload := m.typ, m.code, m.id, m.token, m.options, m.payload;
    }

    method RemoveOptions(code: nat)
      modifies `options
      ensures options == O.RemoveOptions(old(options), code)
    {
      var opts: seq<O.Opt> := [];
      var i := 0;
      while i < |options|
        invariant 0 <= i <= |options|
        invariant opts + O.RemoveOptions(options[i..], code) == O.RemoveOptions(options, code)
      {
        assert options[i..][1..] == options[i + 1..];
        if options[i].code != code {
          opts := opts + [options[i]];
        }
        i := i + 1;
      }
      options := opts;
    }

    method GetOptions(code: nat) returns (opts: seq<O.Opt>)
      ensures opts == O.GetOptions(options, code)
    {
      opts := [];
      var i := 0;
      while i < |options|
        invariant 0 <= i <= |options|
        invariant opts + O.GetOptions(options[i..], code) == O.GetOptions(options, code)
      {
        assert options[i..][1..] == options[i + 1..];
        if options[i].code == code {
          opts := opts + [options[i]];
        }
        i := i + 1;
      }
    }

    method AddOption(code: nat, value: O.Value)
      modifies `options
      ensures options == O.AddOption(old(options), O.Opt(code, value))
    {
      if !O.IsRepeatable(code) {
        RemoveOptions(code);
      }
      options := options + [O.Opt(code, value)];
    }

    method AddOptions(more: seq<O.Opt>)
      modifies `options
      ensures options == O.AddOptions(old(options), more)
    {
      var i := 0;
      while i < |more|
        invariant 0 <= i <= |more|
        invariant options == O.AddOptions(old(options), more[..i])
      {
        assert more[..i + 1][..i] == more[..i];
        AddOption(more[i].code, more[i].value);
        i := i + 1;
      }
      assert more[..i] == more;
    }

    method SetUriPath(fullPath: seq<byte>)
      modifies `options
      ensures options == UriPath.SetUriPath(old(options), fullPath)
    {
      var parts := UriPath.Split(fullPath);
      var i := 0;
      while i < |parts|
        invariant 0 <= i <= |parts|
        invariant options + UriPath.PathOptions(UriPath.NonEmpty(parts[i..])) == UriPath.SetUriPath(old(options), fullPath)
      {
        assert parts[i..][1..] == parts[i + 1..];
        if parts[i] != [] {
          ghost var before := options;
          AddOption(O.URI_PATH, O.Text(parts[i]));
          assert UriPath.NonEmpty(parts[i..])[1..] == UriPath.NonEmpty(parts[i + 1..]);
          assert options == before + [O.Opt(O.URI_PATH, O.Text(parts[i]))];
        }
        i := i + 1;
      }
    }

    /** Sorts the options where they are. */
    method SortOptions()
      modifies `options
      ensures options == O.Sort(old(options))
    {
      var a := new O.Opt[|options|](i requires 0 <= i < |options| reads this => options[i]);
      assert a[..] == options;
      O.SortInPlace(a);
      options := a[..];
    }

    /** Replaces a foreign scheme and sorts: what printing does to the option list. */
    method PrepareOptions()
      modifies `options
      ensures options == PrintedOptions(old(options))
    {
      var scheme := O.GetOption(options, O.URI_SCHEME);
      if scheme.Some? {
        if scheme.value.value.Nil? || O.IntValue(scheme.value.value) != O.COAPS_SCHEME {
          AddOption(O.URI_SCHEME, O.Num(O.COAP_SCHEME));
        }
      }
      SortOptions();
    }

    /** Prints the message; leaves its options prepared. */
    method Serialize() returns (buf: seq<byte>)
      modifies `options
      ensures buf == Encode(old(Model()))
      ensures options == PrintedOptions(old(options))
    {
      PrepareOptions();
      buf := PrintHead(typ, code, id, token);
      var printed := PrintAll(options);
      buf := buf + printed;
      if |payload| > 0 {
        buf := buf + ([PAYLOAD_MARKER] + payload);
      }
      assert buf + [] == buf;
    }

    /** Replaces the checksum by a fresh one, computed on a copy. */
    method ApplyChecksum(h: Checksum.Hash)
      modifies `options
      ensures Model() == Checksum.Apply(h, old(Model()))
    {
      RemoveOptions(O.CHECKSUM);
      var copy := new CoapMessage(Model());
      copy.RemoveOptions(O.CHECKSUM);
      var buf := copy.Serialize();
      AddOption(O.CHECKSUM, O.Text(h(buf)));
    }
  }

  method PrintHead(typ: byte, code: byte, id: uint16, token: seq<byte>) returns (buf: seq<byte>)
    ensures buf == [FirstByte(typ, |token|), code] + Big16(id) + token
  {
    buf := [FirstByte(typ, |token|)];
    buf := buf + [code];
    buf := buf + Big16(id);
    buf := buf + token;
  }

  method PrintField(x: nat) returns (b: seq<byte>)
    ensures b == Extension(x)
  {
    b := [];
    if Nibble(x) == 13 {
      b := [x - 13];
    } else if Nibble(x) == 14 {
      b := Big16(x - 269);
    }
  }

  /** One option: its header, the extended fields the header asks for, its value. */
  method PrintOption(o: O.Opt, last: nat) returns (b: seq<byte>)
    requires last <= o.code
    ensures b == PrintHeader(o.code - last, |O.ValueBytes(o.value)|) + O.ValueBytes(o.value)
  {
    var value := O.ValueBytes(o.value);
    var delta := o.code - last;
    b := [Nibble(delta) * 16 + Nibble(|value|)];
    var deltaField := PrintField(delta);
    b := b + deltaField;
    var lengthField := PrintField(|value|);
    b := b + lengthField;
    b := b + value;
  }

  /** One option moved from what is left to print to what is printed. */
  lemma PrintNext(buf: seq<byte>, options: seq<O.Opt>, i: nat, last: nat, printed: seq<byte>)
    requires i < |options| && O.Sorted(options) && last <= options[i].code
    requires printed == PrintHeader(options[i].code - last, |O.ValueBytes(options[i].value)|) + O.ValueBytes(options[i].value)
    ensures buf + PrintOptions(options[i..], last) == buf + printed + PrintOptions(options[i + 1..], options[i].code)
  {
    assert options[i..][1..] == options[i + 1..];
    assert buf + (printed + PrintOptions(options[i + 1..], options[i].code))
        == buf + printed + PrintOptions(options[i + 1..], options[i].code);
  }

  /** The option loop of the printer. */
  method PrintAll(options: seq<O.Opt>) returns (buf: seq<byte>)
    requires O.Sorted(options)
    ensures buf == PrintOptions(options, 0)
  {
    buf := [];
    var lastOptionCode: nat := 0;
    var i := 0;
    while i < |options|
      invariant 0 <= i <= |options|
      invariant forall j :: i <= j < |options| ==> lastOptionCode <= options[j].code
      invariant buf + PrintOptions(options[i..], lastOptionCode) == PrintOptions(options, 0)
    {
      var printed := PrintOption(options[i], lastOptionCode);
      PrintNext(buf, options, i, lastOptionCode, printed);
      buf := buf + printed;
      lastOptionCode := options[i].code;
      i := i + 1;
    }
    assert options[i..] == [] && buf + [] == buf;
  }

  /** A cursor that reads one option field. */
  method TakeField(nibble: nat, tmp: seq<byte>, reserved: Error) returns (r: Result<(nat, seq<byte>)>)
    ensures r == ReadField(nibble, tmp, reserved)
  {
    if nibble == 13 {
      if |tmp| < 1 {
        return Err(NilMessage);
      }
      return Ok((tmp[0] as int + 13, tmp[1..]));
    } else if nibble == 14 {
      if |tmp| < 2 {
        return Err(NilMessage);
      }
      return Ok(((tmp[0] as int * 0x100 + tmp[1] as int + 269) % 0x1_0000, tmp[2..]));
    } else if nibble == 15 {
      return Err(reserved);
    }
    return Ok((nibble, tmp));
  }

  /** The delta and length in front of an option. */
  method TakeHeader(tmp: seq<byte>) returns (r: Result<Header>)
    requires tmp != []
    ensures r == ReadHeader(tmp)
  {
    var delta := TakeField(tmp[0] / 16, tmp[1..], OptionDeltaUsesValue15);
    if delta.Err? {
      return Err(delta.error);
    }
    var length := TakeField(tmp[0] % 16, delta.value.1, OptionLengthUsesValue15);
    if length.Err? {
      return Err(length.error);
    }
    return Ok(Header(delta.value.0, length.value.0, length.value.1));
  }

  /** What is left to parse, seen from the middle of the loop. */
  ghost function Continue(done: seq<O.Opt>, rest: Result<(seq<O.Opt>, seq<byte>)>): Result<(seq<O.Opt>, seq<byte>)> {
    match rest case Err(e) => Err(e) case Ok((opts, payload)) => Ok((done + opts, payload))
  }

  /** One round of the option loop: where it leaves the cursor, and the option it yields. */
  method TakeOption(tmp: seq<byte>, last: nat) returns (r: Result<(Option<O.Opt>, seq<byte>, nat)>)
    requires tmp != [] && tmp[0] != PAYLOAD_MARKER
    ensures match r
            case Err(e) => ParseOptions(tmp, last) == Err(e)
            case Ok((o, rest, code)) => |rest| < |tmp| && ParseOptions(tmp, last) == Prepend(o, ParseOptions(rest, code))
  {
    var header := TakeHeader(tmp);
    if header.Err? {
      return Err(header.error);
    }
    var code := (last + header.value.delta) % 0x1_0000;
    var n, rest := header.value.length, header.value.rest;
    if n <= |rest| {
      var read := ReadOption(code, rest[..n]);
      if read.Err? {
        return Err(read.error);
      }
      return Ok((read.value, rest[n..], code));
    } else {
      return Ok((Some(O.Opt(code, O.Nil)), rest, code));
    }
  }

  lemma Resume(done: seq<O.Opt>, o: Option<O.Opt>, rest: Result<(seq<O.Opt>, seq<byte>)>)
    ensures Continue(done, Prepend(o, rest)) == Continue(if o.Some? then done + [o.value] else done, rest)
  {
    if rest.Ok? && o.Some? {
      assert done + ([o.value] + rest.value.0) == done + [o.value] + rest.value.0;
    }
  }

  /** The option loop of the parser. */
  method TakeOptions(data: seq<byte>) returns (r: Result<(seq<O.Opt>, seq<byte>)>)
    ensures r == ParseOptions(data, 0)
  {
    var tmp, last: nat, opts := data, 0, [];
    assert ParseOptions(data, 0).Ok? ==> [] + ParseOptions(data, 0).value.0 == ParseOptions(data, 0).value.0;
    while tmp != []
      invariant Continue(opts, ParseOptions(tmp, last)) == ParseOptions(data, 0)
      decreases |tmp|
    {
      if tmp[0] == PAYLOAD_MARKER {
        assert opts + [] == opts;
        return Ok((opts, tmp[1..]));
      }
      var round := TakeOption(tmp, last);
      if round.Err? {
        return Err(round.error);
      }
      var (o, rest, code) := round.value;
      Resume(opts, o, ParseOptions(rest, code));
      if o.Some? {
        opts := opts + [o.value];
      }
      tmp, last := rest, code;
    }
    assert opts + [] == opts;
    return Ok((opts, []));
  }

  method Deserialize(h: Checksum.Hash, data: seq<byte>) returns (r: Result<Msg>)
    ensures r == Checksum.DecodeChecked(h, data)
  {
    if |data| < 4 {
      return Err(PacketLengthLessThan4);
    }
    if data[0] / 64 != 1 {
      return Err(InvalidCoapVersion);
    }
    var tokenLength := data[0] as int % 16;
    if |data| < 4 + tokenLength {
      return Err(NilMessage);
    }
    var parsed := TakeOptions(data[4 + tokenLength..]);
    if parsed.Err? {
      return Err(parsed.error);
    }
    var valid := Validate(Msg(data[0] / 16 % 4, data[1], data[2] as int * 0x100 + data[3] as int,
                              data[4..4 + tokenLength], parsed.value.0, parsed.value.1));
    return Checksum.Check(h, valid);
  }
}
