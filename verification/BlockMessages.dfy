/** The datagrams of a block transfer: the message rebuilt for every block, the acknowledgement rebuilt from
    it, and what the other side reads in them (common.go:225-313).  This ties the packets and replies of the
    protocol model to bytes. */
module BlockMessages {
  import opened Prelude
  import opened Integers
  import opened Options
  import opened Codec
  import opened CodecProofs
  import opened UriPath
  import ArqSender
  import ArqReceiver
  import ArqSystem
  import Checksum
  import Fragmentation

  const CON: byte := 0
  const ACK: byte := 2

  function CloneOptions(opts: seq<Opt>, from: seq<Opt>, code: nat): seq<Opt> {
    AddOptions(opts, GetOptions(from, code))
  }

  function BlockCode(dir: ArqSender.Direction): nat { match dir case Block1 => BLOCK1 case Block2 => BLOCK2 }

  /** Before the block option is added: scheme, window, path and query. */
  function Preamble(orig: Msg, window: int): seq<Opt> {
    var scheme := if IsSecure(orig.options) then AddOption([], Opt(URI_SCHEME, Num(COAPS_SCHEME))) else [];
    AddOptions(SetUriPath(AddOption(scheme, Opt(WINDOW_SIZE, Num(window))), GetUriPath(orig.options)),
               GetOptions(orig.options, URI_QUERY))
  }

  /** The message for one block of `orig`'s payload. */
  function BlockMessage(orig: Msg, dir: ArqSender.Direction, id: uint16, block: Fragmentation.Block, window: int): Msg {
    var info := BlockInfo(block.number, block.more, Fragmentation.MAX_PAYLOAD_SIZE);
    var numbered := AddOption(Preamble(orig, window), Opt(BlockCode(dir), Num(ToInt(info))));
    var proxied := CloneOptions(CloneOptions(numbered, orig.options, PROXY_URI), orig.options, PROXY_SECURITY_ID);
    Msg(CON, orig.code, id, orig.token, proxied, block.body)
  }

  /** The acknowledgement of a received block; `init` is the client's own request, if there is one. */
  function AckMessage(received: Msg, code: byte, init: seq<Opt>): Msg {
    var a := CloneOptions([], received.options, URI_SCHEME);
    var b := CloneOptions(a, received.options, WINDOW_SIZE);
    var c := CloneOptions(CloneOptions(b, received.options, BLOCK1), received.options, BLOCK2);
    var d := CloneOptions(CloneOptions(c, received.options, PROXY_SECURITY_ID), init, PROXY_URI);
    Msg(ACK, code, received.id, received.token, d, [])
  }

  /** A received block message, as the protocol model sees it. */
  function DataIn(m: Msg, dir: ArqSender.Direction): Option<ArqReceiver.Data> {
    var option := GetOption(m.options, BlockCode(dir));
    if option.Some? && IntValue(option.value.value) >= 0
    then Some(ArqReceiver.Data(IntValue(option.value.value), m.payload)) else None
  }

  function NumberIn(m: Msg, code: nat): Option<nat> {
    var option := GetOption(m.options, code);
    if option.Some? && IntValue(option.value.value) >= 0
    then Some(FromInt(IntValue(option.value.value)).number) else None
  }

  /** A received acknowledgement, as the protocol model sees it. */
  function ReplyIn(m: Msg): ArqSender.Reply {
    ArqSender.Reply(m.code, NumberIn(m, BLOCK1), NumberIn(m, BLOCK2))
  }

  // ---------------------------------------------------------------- adding options keeps lists sendable

  /** At most one option of every code that must not repeat. */
  ghost predicate Unique(opts: seq<Opt>) {
    forall code: nat :: !IsRepeatable(code) ==> |GetOptions(opts, code)| <= 1
  }

  predicate Sendable(o: Opt) { Clean(o) && Fits(o) }

  ghost predicate Good(opts: seq<Opt>) { Unique(opts) && forall o :: o in opts ==> Sendable(o) }

  lemma AddKeepsGood(opts: seq<Opt>, o: Opt)
    requires Good(opts) && Sendable(o)
    ensures Good(AddOption(opts, o))
  {
    forall code: nat | !IsRepeatable(code) ensures |GetOptions(AddOption(opts, o), code)| <= 1 { GetAdd(opts, o, code); }
    forall p | p in AddOption(opts, o) ensures Sendable(p) { RemoveMembers(opts, o.code, p); }
  }

  lemma {:induction false} AddAllKeepsGood(opts: seq<Opt>, more: seq<Opt>)
    requires Good(opts) && forall o :: o in more ==> Sendable(o)
    ensures Good(AddOptions(opts, more))
  {
    if more != [] {
      AddAllKeepsGood(opts, more[..|more| - 1]);
      AddKeepsGood(AddOptions(opts, more[..|more| - 1]), more[|more| - 1]);
    }
  }

  lemma CloneKeepsGood(opts: seq<Opt>, from: seq<Opt>, code: nat)
    requires Good(opts) && forall o :: o in from && o.code == code ==> Sendable(o)
    ensures Good(CloneOptions(opts, from, code))
  {
    forall o | o in GetOptions(from, code) ensures Sendable(o) {
      var i :| 0 <= i < |GetOptions(from, code)| && GetOptions(from, code)[i] == o;
      GetIsMember(from, code, i);
    }
    AddAllKeepsGood(opts, GetOptions(from, code));
  }

  lemma {:induction false} PathOptionsMembers(parts: seq<seq<byte>>, o: Opt)
    requires o in PathOptions(parts)
    ensures o.code == URI_PATH && o.value.Text? && o.value.s in parts
  {
    if o != PathOptions(parts)[0] { PathOptionsMembers(parts[1..], o); }
  }

  lemma PathKeepsGood(opts: seq<Opt>, path: seq<byte>)
    requires Good(opts) && forall part :: part in NonEmpty(Split(path)) ==> |part| < 0x1_0000
    ensures Good(SetUriPath(opts, path))
  {
    var parts := NonEmpty(Split(path));
    forall code: nat | !IsRepeatable(code) ensures |GetOptions(SetUriPath(opts, path), code)| <= 1 {
      GetAppend(opts, PathOptions(parts), code);
      PathOptionsByCode(parts, code);
    }
    forall o | o in SetUriPath(opts, path) ensures Sendable(o) {
      if o !in opts { PathOptionsMembers(parts, o); }
    }
  }

  lemma {:induction false} AddAllOther(opts: seq<Opt>, more: seq<Opt>, code: nat)
    requires forall o :: o in more ==> o.code != code
    ensures GetOptions(AddOptions(opts, more), code) == GetOptions(opts, code)
  {
    if more != [] {
      AddAllOther(opts, more[..|more| - 1], code);
      GetAdd(AddOptions(opts, more[..|more| - 1]), more[|more| - 1], code);
    }
  }

  function Last(opts: seq<Opt>): seq<Opt> { if opts == [] then [] else [opts[|opts| - 1]] }

  lemma {:induction false} AddAllSame(opts: seq<Opt>, more: seq<Opt>, code: nat)
    requires forall o :: o in more ==> o.code == code
    ensures GetOptions(AddOptions(opts, more), code) ==
            if IsRepeatable(code) then GetOptions(opts, code) + more
            else if more == [] then GetOptions(opts, code) else Last(more)
  {
    if more != [] {
      var front := more[..|more| - 1];
      AddAllSame(opts, front, code);
      GetAdd(AddOptions(opts, front), more[|more| - 1], code);
      assert more == front + [more[|more| - 1]];
    }
  }

  /** Cloning the options of one code does nothing to another.  Options that may repeat are all taken over, and
      of those that must not only the last. */
  lemma CloneByCode(opts: seq<Opt>, from: seq<Opt>, cloned: nat, code: nat)
    ensures GetOptions(CloneOptions(opts, from, cloned), code) ==
            if code != cloned then GetOptions(opts, code)
            else if IsRepeatable(code) then GetOptions(opts, code) + GetOptions(from, code)
            else if GetOptions(from, code) == [] then GetOptions(opts, code) else Last(GetOptions(from, code))
  {
    var more := GetOptions(from, cloned);
    forall o | o in more ensures o.code == cloned {
      var i :| 0 <= i < |more| && more[i] == o;
      GetIsMember(from, cloned, i);
    }
    if code != cloned { AddAllOther(opts, more, code); } else { AddAllSame(opts, more, code); }
  }

  function Arrived(m: Msg): Msg { m.(options := Sort(m.options)) }

  /** A good list with a kept scheme arrives as it was sent, sorted. */
  lemma GoodArrives(m: Msg)
    requires m.typ <= 3 && |m.token| <= 8 && Good(m.options) && SchemeKept(m.options)
    ensures Decode(Encode(m)) == Ok(Arrived(m))
  {
    assert forall code: nat :: !Repeats(m.options, code);
    forall o | o in m.options ensures Fits(o) && Clean(o) { assert Sendable(o); }
    RoundTrip(m);
  }

  // ---------------------------------------------------------------- block messages

  function PathOf(opts: seq<Opt>): seq<seq<byte>> { Segments(GetOptions(opts, URI_PATH)) }

  /** What is copied from the original request can be sent. */
  ghost predicate CanSplit(orig: Msg, window: int) {
    && |orig.token| <= 8
    && (forall o :: o in orig.options && o.code in {URI_QUERY, PROXY_URI, PROXY_SECURITY_ID} ==> Sendable(o))
    && (forall part :: part in Rebuild(PathOf(orig.options)) ==> |part| < 0x1_0000)
    && 0 <= window < TWO_32
  }

  lemma NumSendable(code: nat, n: int)
    requires KindOf(code).Integer? && code < 0x1_0000 && 0 <= n < TWO_32
    ensures Sendable(Opt(code, Num(n)))
  {
  }

  lemma EmptyIsGood()
    ensures Good([])
  {
  }

  function SchemeOf(opts: seq<Opt>): seq<Opt> {
    if IsSecure(opts) then [Opt(URI_SCHEME, Num(COAPS_SCHEME))] else []
  }

  lemma SchemeByCode(opts: seq<Opt>, code: nat)
    ensures (if IsSecure(opts) then AddOption([], Opt(URI_SCHEME, Num(COAPS_SCHEME))) else []) == SchemeOf(opts)
    ensures GetOptions(SchemeOf(opts), code) == if code == URI_SCHEME then SchemeOf(opts) else []
  {
    assert [Opt(URI_SCHEME, Num(COAPS_SCHEME))][1..] == [];
  }

  /** Every option of the preamble: a coaps scheme, the window, the path rebuilt, and all the queries. */
  lemma PreambleByCode(orig: Msg, window: int, code: nat)
    ensures GetOptions(Preamble(orig, window), code) ==
            if code == URI_SCHEME then SchemeOf(orig.options)
            else if code == WINDOW_SIZE then [Opt(WINDOW_SIZE, Num(window))]
            else if code == URI_PATH then PathOptions(Rebuild(PathOf(orig.options)))
            else if code == URI_QUERY then GetOptions(orig.options, URI_QUERY)
            else []
  {
    var sized := AddOption(SchemeOf(orig.options), Opt(WINDOW_SIZE, Num(window)));
    var path := PathOptions(Rebuild(PathOf(orig.options)));
    SchemeByCode(orig.options, code);
    GetAdd(SchemeOf(orig.options), Opt(WINDOW_SIZE, Num(window)), code);
    GetAppend(sized, path, code);
    PathOptionsByCode(Rebuild(PathOf(orig.options)), code);
    CloneByCode(sized + path, orig.options, URI_QUERY, code);
  }

  lemma PreambleOk(orig: Msg, window: int)
    requires CanSplit(orig, window)
    ensures Good(Preamble(orig, window))
  {
    EmptyIsGood();
    NumSendable(URI_SCHEME, COAPS_SCHEME);
    NumSendable(WINDOW_SIZE, window);
    var none: seq<Opt> := [];
    var scheme := if IsSecure(orig.options) then AddOption(none, Opt(URI_SCHEME, Num(COAPS_SCHEME))) else none;
    AddKeepsGood(none, Opt(URI_SCHEME, Num(COAPS_SCHEME)));
    var sized := AddOption(scheme, Opt(WINDOW_SIZE, Num(window)));
    AddKeepsGood(scheme, Opt(WINDOW_SIZE, Num(window)));
    PathKeepsGood(sized, GetUriPath(orig.options));
    CloneKeepsGood(SetUriPath(sized, GetUriPath(orig.options)), orig.options, URI_QUERY);
  }

  function BlockNum(block: Fragmentation.Block): int {
    ToInt(BlockInfo(block.number, block.more, Fragmentation.MAX_PAYLOAD_SIZE))
  }

  /** All that a block message for `orig` carries, code by code; its own checksum, if any, is left open. */
  ghost predicate Carries(opts: seq<Opt>, orig: Msg, dir: ArqSender.Direction, block: Fragmentation.Block, window: int) {
    && GetOptions(opts, URI_SCHEME) == SchemeOf(orig.options)
    && GetOptions(opts, WINDOW_SIZE) == [Opt(WINDOW_SIZE, Num(window))]
    && GetOptions(opts, URI_PATH) == PathOptions(Rebuild(PathOf(orig.options)))
    && GetOptions(opts, URI_QUERY) == GetOptions(orig.options, URI_QUERY)
    && GetOptions(opts, BlockCode(dir)) == [Opt(BlockCode(dir), Num(BlockNum(block)))]
    && GetOptions(opts, PROXY_URI) == Last(GetOptions(orig.options, PROXY_URI))
    && GetOptions(opts, PROXY_SECURITY_ID) == Last(GetOptions(orig.options, PROXY_SECURITY_ID))
    && forall code: nat ::
         GetOptions(opts, code) == []
         || code in {URI_SCHEME, WINDOW_SIZE, URI_PATH, URI_QUERY, BlockCode(dir), PROXY_URI, PROXY_SECURITY_ID, CHECKSUM}
  }

  /** Only the lists by code matter to what is carried. */
  lemma CarriesByCode(a: seq<Opt>, b: seq<Opt>, orig: Msg, dir: ArqSender.Direction, block: Fragmentation.Block,
                      window: int)
    requires Carries(a, orig, dir, block, window)
    requires forall code: nat :: code != CHECKSUM ==> GetOptions(a, code) == GetOptions(b, code)
    ensures Carries(b, orig, dir, block, window)
  {
  }

  lemma BlockByCode(orig: Msg, dir: ArqSender.Direction, id: uint16, block: Fragmentation.Block, window: int, code: nat)
    ensures GetOptions(BlockMessage(orig, dir, id, block, window).options, code) ==
            if code == BlockCode(dir) then [Opt(BlockCode(dir), Num(BlockNum(block)))]
            else if code in {PROXY_URI, PROXY_SECURITY_ID} then Last(GetOptions(orig.options, code))
            else GetOptions(Preamble(orig, window), code)
  {
    var pre, num := Preamble(orig, window), Opt(BlockCode(dir), Num(BlockNum(block)));
    var numbered := AddOption(pre, num);
    var uri := CloneOptions(numbered, orig.options, PROXY_URI);
    PreambleByCode(orig, window, code);
    GetAdd(pre, num, code);
    CloneByCode(numbered, orig.options, PROXY_URI, code);
    CloneByCode(uri, orig.options, PROXY_SECURITY_ID, code);
  }

  lemma BlockCarries(orig: Msg, dir: ArqSender.Direction, id: uint16, block: Fragmentation.Block, window: int)
    ensures Carries(BlockMessage(orig, dir, id, block, window).options, orig, dir, block, window)
  {
    forall code: nat
      ensures GetOptions(BlockMessage(orig, dir, id, block, window).options, code) ==
              if code == BlockCode(dir) then [Opt(BlockCode(dir), Num(BlockNum(block)))]
              else if code in {PROXY_URI, PROXY_SECURITY_ID} then Last(GetOptions(orig.options, code))
              else GetOptions(Preamble(orig, window), code)
    {
      BlockByCode(orig, dir, id, block, window, code);
    }
    forall code: nat
      ensures GetOptions(Preamble(orig, window), code) ==
              if code == URI_SCHEME then SchemeOf(orig.options)
              else if code == WINDOW_SIZE then [Opt(WINDOW_SIZE, Num(window))]
              else if code == URI_PATH then PathOptions(Rebuild(PathOf(orig.options)))
              else if code == URI_QUERY then GetOptions(orig.options, URI_QUERY)
              else []
    {
      PreambleByCode(orig, window, code);
    }
  }

  lemma BlockOptionsOk(orig: Msg, dir: ArqSender.Direction, id: uint16, block: Fragmentation.Block, window: int)
    requires CanSplit(orig, window) && block.number < MAX_BLOCKS
    ensures var opts := BlockMessage(orig, dir, id, block, window).options;
            && Good(opts) && SchemeKept(opts) && Carries(opts, orig, dir, block, window)
            && 0 <= BlockNum(block) < TWO_32
  {
    var pre, num := Preamble(orig, window), Opt(BlockCode(dir), Num(BlockNum(block)));
    PreambleOk(orig, window);
    NumSendable(BlockCode(dir), BlockNum(block));
    AddKeepsGood(pre, num);
    var numbered := AddOption(pre, num);
    CloneKeepsGood(numbered, orig.options, PROXY_URI);
    CloneKeepsGood(CloneOptions(numbered, orig.options, PROXY_URI), orig.options, PROXY_SECURITY_ID);
    BlockCarries(orig, dir, id, block, window);
  }

  lemma DataRead(m: Msg, dir: ArqSender.Direction, block: Fragmentation.Block, num: int)
    requires num == BlockNum(block) && 0 <= num < TWO_32 && m.payload == block.body
    requires GetOptions(m.options, BlockCode(dir)) == [Opt(BlockCode(dir), Num(num))]
    ensures DataIn(m, dir) == Some(ArqReceiver.DataOf(block))
  {
    assert Uint32(num) == num;
  }

  lemma SortKeepsGood(opts: seq<Opt>)
    requires Good(opts)
    ensures Good(Sort(opts)) && (SchemeKept(opts) ==> SchemeKept(Sort(opts)))
  {
    forall code: nat ensures GetOptions(Sort(opts), code) == GetOptions(opts, code) { SortIsStable(opts, code); }
    forall o | o in Sort(opts) ensures Sendable(o) { SortKeepsMembers(opts, o); }
  }

  lemma ArrivedReads(m: Msg, orig: Msg, dir: ArqSender.Direction, block: Fragmentation.Block, window: int)
    requires Good(m.options) && SchemeKept(m.options) && m.payload == block.body && 0 <= BlockNum(block) < TWO_32
    requires Carries(m.options, orig, dir, block, window)
    ensures var r := Arrived(m);
            && PathOf(r.options) == Rebuild(PathOf(orig.options))
            && DataIn(r, dir) == Some(ArqReceiver.DataOf(block))
            && Carries(r.options, orig, dir, block, window)
            && Good(r.options) && SchemeKept(r.options)
  {
    forall code: nat ensures GetOptions(Sort(m.options), code) == GetOptions(m.options, code) { SortIsStable(m.options, code); }
    CarriesByCode(m.options, Sort(m.options), orig, dir, block, window);
    PathOptionsByCode(Rebuild(PathOf(orig.options)), URI_PATH);
    DataRead(Arrived(m), dir, block, BlockNum(block));
    SortKeepsGood(m.options);
  }

  lemma BlockReads(orig: Msg, dir: ArqSender.Direction, id: uint16, block: Fragmentation.Block, window: int)
    requires CanSplit(orig, window) && block.number < MAX_BLOCKS
    ensures var r := Arrived(BlockMessage(orig, dir, id, block, window));
            && PathOf(r.options) == Rebuild(PathOf(orig.options))
            && DataIn(r, dir) == Some(ArqReceiver.DataOf(block))
            && Carries(r.options, orig, dir, block, window)
            && Good(r.options) && SchemeKept(r.options)
  {
    BlockOptionsOk(orig, dir, id, block, window);
    ArrivedReads(BlockMessage(orig, dir, id, block, window), orig, dir, block, window);
  }

  /** Every block of a transfer arrives: the peer decodes its datagram to a confirmable message with the message
      id given and the code and token of the request, with the path of the request taken apart and rebuilt, its
      queries, its coaps scheme, its proxy options and the window, with exactly the block option and body that
      the protocol model delivers for this block, and with no other option. */
  lemma BlockArrives(orig: Msg, dir: ArqSender.Direction, id: uint16, block: Fragmentation.Block, window: int)
    requires CanSplit(orig, window) && block.number < MAX_BLOCKS
    ensures var r := Arrived(BlockMessage(orig, dir, id, block, window));
            && Decode(Encode(BlockMessage(orig, dir, id, block, window))) == Ok(r)
            && r.typ == CON && r.code == orig.code && r.id == id && r.token == orig.token
            && PathOf(r.options) == Rebuild(PathOf(orig.options))
            && DataIn(r, dir) == Some(ArqReceiver.DataOf(block))
            && Carries(r.options, orig, dir, block, window) && GetOptions(r.options, CHECKSUM) == []
  {
    var b := BlockMessage(orig, dir, id, block, window);
    BlockOptionsOk(orig, dir, id, block, window);
    BlockReads(orig, dir, id, block, window);
    GoodArrives(b);
    BlockByCode(orig, dir, id, block, window, CHECKSUM);
    PreambleByCode(orig, window, CHECKSUM);
    SortIsStable(b.options, CHECKSUM);
  }

  /** A checksum leaves the options of every other code alone. */
  lemma WithSum(h: Checksum.Hash, b: Msg)
    requires Good(b.options) && SchemeKept(b.options) && |Checksum.Sum(h, b)| < 0x1_0000
    ensures var a := Checksum.Apply(h, b);
            && a.(options := []) == b.(options := []) && Good(a.options) && SchemeKept(a.options)
            && GetOptions(a.options, CHECKSUM) == [Opt(CHECKSUM, Text(Checksum.Sum(h, b)))]
            && forall code: nat :: code != CHECKSUM ==> GetOptions(a.options, code) == GetOptions(b.options, code)
  {
    var o := Opt(CHECKSUM, Text(Checksum.Sum(h, b)));
    Checksum.ApplyIsWithChecksum(h, b);
    Checksum.RemoveTwice(b.options, CHECKSUM);
    var a := Checksum.Apply(h, b);
    assert a.options == AddOption(b.options, o);
    AddKeepsGood(b.options, o);
    GetAdd(b.options, o, CHECKSUM);
    forall code: nat ensures code != CHECKSUM ==> GetOptions(a.options, code) == GetOptions(b.options, code) {
      GetAdd(b.options, o, code);
    }
  }

  lemma GoodIsPlain(opts: seq<Opt>)
    requires Good(opts)
    ensures AllFit(opts) && !RepeatsCritical(opts) && forall o :: o in opts ==> Checksum.Plain(o)
  {
    assert forall code: nat :: !Repeats(opts, code);
    forall o | o in opts ensures Fits(o) && Checksum.Plain(o) { assert Sendable(o); }
  }

  lemma GoodSurvives(h: Checksum.Hash, b: Msg)
    requires b.typ <= 3 && |b.token| <= 8 && Good(b.options) && SchemeKept(b.options) && |Checksum.Sum(h, b)| < 0x1_0000
    ensures Checksum.DecodeChecked(h, Encode(Checksum.Apply(h, b))) == Ok(Arrived(Checksum.Apply(h, b)))
  {
    GoodIsPlain(b.options);
    Checksum.ChecksumSurvives(h, b);
    WithSum(h, b);
    var a := Checksum.Apply(h, b);
    GoodArrives(a);
    GoodIsPlain(a.options);
    DecodeOfEncode(a);
  }

  /** With a checksum, as every block of a request that asks for one is sent (common.go:303): whatever the hash, the
      peer accepts the datagram, and reads the same block and path in it. */
  lemma ChecksummedBlockArrives(h: Checksum.Hash, orig: Msg, dir: ArqSender.Direction, id: uint16,
                                block: Fragmentation.Block, window: int)
    requires CanSplit(orig, window) && block.number < MAX_BLOCKS
    requires |Checksum.Sum(h, BlockMessage(orig, dir, id, block, window))| < 0x1_0000
    ensures var sent := Checksum.Apply(h, BlockMessage(orig, dir, id, block, window));
            var r := Arrived(sent);
            && Checksum.DecodeChecked(h, Encode(sent)) == Ok(r)
            && r.typ == CON && r.code == orig.code && r.id == id && r.token == orig.token
            && PathOf(r.options) == Rebuild(PathOf(orig.options))
            && DataIn(r, dir) == Some(ArqReceiver.DataOf(block))
            && Carries(r.options, orig, dir, block, window)
            && GetOptions(r.options, CHECKSUM)
            == [Opt(CHECKSUM, Text(Checksum.Sum(h, BlockMessage(orig, dir, id, block, window))))]
  {
    var b := BlockMessage(orig, dir, id, block, window);
    BlockOptionsOk(orig, dir, id, block, window);
    GoodSurvives(h, b);
    WithSum(h, b);
    var sent := Checksum.Apply(h, b);
    CarriesByCode(b.options, sent.options, orig, dir, block, window);
    ArrivedReads(sent, orig, dir, block, window);
    SortIsStable(sent.options, CHECKSUM);
  }

  // ---------------------------------------------------------------- acknowledgements

  /** An acknowledgement copies scheme, window, block options and proxy id from the message it answers, and the
      proxy address from the request of the client itself; nothing else. */
  lemma AckByCode(received: Msg, code: byte, init: seq<Opt>, option: nat)
    requires Good(received.options)
    ensures GetOptions(AckMessage(received, code, init).options, option) ==
            if option in {URI_SCHEME, WINDOW_SIZE, BLOCK1, BLOCK2, PROXY_SECURITY_ID} then GetOptions(received.options, option)
            else if option == PROXY_URI then Last(GetOptions(init, PROXY_URI))
            else []
  {
    var from := received.options;
    assert !IsRepeatable(option) ==> |GetOptions(from, option)| <= 1;
    var a := CloneOptions([], from, URI_SCHEME);
    var b := CloneOptions(a, from, WINDOW_SIZE);
    var c1 := CloneOptions(b, from, BLOCK1);
    var c2 := CloneOptions(c1, from, BLOCK2);
    var d := CloneOptions(c2, from, PROXY_SECURITY_ID);
    CloneByCode([], from, URI_SCHEME, option);
    CloneByCode(a, from, WINDOW_SIZE, option);
    CloneByCode(b, from, BLOCK1, option);
    CloneByCode(c1, from, BLOCK2, option);
    CloneByCode(c2, from, PROXY_SECURITY_ID, option);
    CloneByCode(d, init, PROXY_URI, option);
  }

  lemma AckIsGood(received: Msg, code: byte, init: seq<Opt>)
    requires Good(received.options) && forall o :: o in init && o.code == PROXY_URI ==> Sendable(o)
    ensures Good(AckMessage(received, code, init).options)
  {
    var from := received.options;
    EmptyIsGood();
    CloneKeepsGood([], from, URI_SCHEME);
    var a := CloneOptions([], from, URI_SCHEME);
    CloneKeepsGood(a, from, WINDOW_SIZE);
    var b := CloneOptions(a, from, WINDOW_SIZE);
    CloneKeepsGood(b, from, BLOCK1);
    var c1 := CloneOptions(b, from, BLOCK1);
    CloneKeepsGood(c1, from, BLOCK2);
    var c2 := CloneOptions(c1, from, BLOCK2);
    CloneKeepsGood(c2, from, PROXY_SECURITY_ID);
    CloneKeepsGood(CloneOptions(c2, from, PROXY_SECURITY_ID), init, PROXY_URI);
  }

  lemma NumberRead(m: Msg, code: nat, block: Fragmentation.Block)
    requires block.number < MAX_BLOCKS && GetOptions(m.options, code) == [Opt(code, Num(BlockNum(block)))]
    ensures NumberIn(m, code) == Some(block.number)
  {
    var x := block.number * 2 + if block.more then 1 else 0;
    Packed1024(block.number, block.more);
    Unpacked1024(x);
    assert FromInt(BlockNum(block)).number == x / 2 == block.number;
  }

  /** An acknowledgement names the block it answers, in the option of its direction alone. */
  lemma AckReads(received: Msg, dir: ArqSender.Direction, block: Fragmentation.Block, code: byte, init: seq<Opt>)
    requires Good(received.options) && block.number < MAX_BLOCKS
    requires GetOptions(received.options, BlockCode(dir)) == [Opt(BlockCode(dir), Num(BlockNum(block)))]
    requires GetOptions(received.options, if dir.Block1? then BLOCK2 else BLOCK1) == []
    ensures ReplyIn(Arrived(AckMessage(received, code, init))) == ArqSystem.AckFor(dir, block.number, code)
  {
    var ack := AckMessage(received, code, init);
    AckByCode(received, code, init, BLOCK1);
    AckByCode(received, code, init, BLOCK2);
    SortIsStable(ack.options, BLOCK1);
    SortIsStable(ack.options, BLOCK2);
    NumberRead(Arrived(ack), BlockCode(dir), block);
  }

  /** All that the acknowledgement of a block message for `orig` carries. */
  ghost predicate AckCarries(opts: seq<Opt>, orig: Msg, dir: ArqSender.Direction, block: Fragmentation.Block,
                             window: int, init: seq<Opt>) {
    && GetOptions(opts, URI_SCHEME) == SchemeOf(orig.options)
    && GetOptions(opts, WINDOW_SIZE) == [Opt(WINDOW_SIZE, Num(window))]
    && GetOptions(opts, BlockCode(dir)) == [Opt(BlockCode(dir), Num(BlockNum(block)))]
    && GetOptions(opts, PROXY_SECURITY_ID) == Last(GetOptions(orig.options, PROXY_SECURITY_ID))
    && GetOptions(opts, PROXY_URI) == Last(GetOptions(init, PROXY_URI))
    && forall code: nat ::
         GetOptions(opts, code) == [] || code in {URI_SCHEME, WINDOW_SIZE, BlockCode(dir), PROXY_SECURITY_ID, PROXY_URI}
  }

  lemma AckCopies(received: Msg, orig: Msg, dir: ArqSender.Direction, block: Fragmentation.Block, window: int,
                  code: byte, init: seq<Opt>)
    requires Good(received.options) && Carries(received.options, orig, dir, block, window)
    ensures AckCarries(Sort(AckMessage(received, code, init).options), orig, dir, block, window, init)
  {
    var ack := AckMessage(received, code, init);
    forall option: nat
      ensures GetOptions(Sort(ack.options), option) ==
              if option in {URI_SCHEME, WINDOW_SIZE, BLOCK1, BLOCK2, PROXY_SECURITY_ID} then GetOptions(received.options, option)
              else if option == PROXY_URI then Last(GetOptions(init, PROXY_URI))
              else []
    {
      AckByCode(received, code, init, option);
      SortIsStable(ack.options, option);
    }
  }

  /** And every acknowledgement arrives: a receiver that got the datagram of a block and answers with `code`
      makes the sender read exactly the reply of the protocol model, for this block and this direction, under
      the message id and token of the block message, with its scheme, window and proxy id, and with no other
      option but a proxy address of the receiver's own. */
  lemma AckArrives(orig: Msg, dir: ArqSender.Direction, id: uint16, block: Fragmentation.Block, window: int,
                   code: byte, init: seq<Opt>)
    requires CanSplit(orig, window) && block.number < MAX_BLOCKS
    requires forall o :: o in init && o.code == PROXY_URI ==> Sendable(o)
    ensures var ack := AckMessage(Arrived(BlockMessage(orig, dir, id, block, window)), code, init);
            var r := Arrived(ack);
            && Decode(Encode(ack)) == Ok(r)
            && r.typ == ACK && r.code == code && r.id == id && r.token == orig.token && r.payload == []
            && ReplyIn(r) == ArqSystem.AckFor(dir, block.number, code)
            && AckCarries(r.options, orig, dir, block, window, init)
  {
    var received := Arrived(BlockMessage(orig, dir, id, block, window));
    BlockReads(orig, dir, id, block, window);
    AckReads(received, dir, block, code, init);
    AckCopies(received, orig, dir, block, window, code, init);
    AckIsGood(received, code, init);
    AckByCode(received, code, init, URI_SCHEME);
    GoodArrives(AckMessage(received, code, init));
  }
}
