/** Collecting blocks in any order (localstate.go:154-184, transport.go:526-609). */
module ArqReceiver {
  import opened Prelude
  import opened Fragmentation
  import opened Integers

  /** A data packet on the wire: the value of its block option, and its body. */
  datatype Data = Data(option: nat, body: seq<byte>)

  datatype Receiver = Receiver(buf: map<nat, seq<byte>>, total: int)

  const FRESH_RECEIVER := Receiver(map[], -1)

  function Accept(r: Receiver, d: Data): Receiver {
    var block := FromInt(d.option);
    Receiver(r.buf[block.number := d.body], if !block.more then block.number + 1 else r.total)
  }

  predicate Full(r: Receiver) { r.total == |r.buf| }

  function Body(r: Receiver): seq<byte>
    requires Full(r)
  {
    Assemble(r.buf, r.total)
  }

  /** The buffer both receivers keep while a transfer runs. */
  class BlockBuffer {
    var buf: map<nat, seq<byte>>
    var total: int

    function Model(): Receiver reads this { Receiver(buf, total) }

    constructor ()
      ensures Model() == FRESH_RECEIVER
    {
      buf, total := map[], -1;
    }

    /** Stores one block; yields the body once nothing is missing, and otherwise the number to acknowledge. */
    method Take(d: Data) returns (complete: Option<seq<byte>>, number: nat)
      modifies this
      ensures Model() == Accept(old(Model()), d)
      ensures complete == if Full(Model()) then Some(Body(Model())) else None
      ensures number == FromInt(d.option).number
    {
      var block := FromInt(d.option);
      number := block.number;
      if !block.more {
        total := block.number + 1;
      }
      buf := buf[block.number := d.body];
      if total == |buf| {
        var body := AssembleBlocks(buf, total);
        return Some(body), number;
      }
      return None, number;
    }
  }

  // ---------------------------------------------------------------- one transfer's blocks

  function BlocksOf(payload: seq<byte>): seq<Block> { Fragments(payload, MAX_PAYLOAD_SIZE, 0) }

  function DataOf(block: Block): Data {
    Data(Uint32(ToInt(BlockInfo(block.number, block.more, MAX_PAYLOAD_SIZE))), block.body)
  }

  /** Every block of a payload reaches the peer under its own number and flag exactly when there are at most
      2^28 of them. */
  lemma NumbersSurvive(payload: seq<byte>)
    ensures var blocks := BlocksOf(payload);
            (forall k :: 0 <= k < |blocks| ==>
               FromInt(DataOf(blocks[k]).option) == BlockInfo(k, k < |blocks| - 1, MAX_PAYLOAD_SIZE))
            <==> |blocks| <= MAX_BLOCKS
  {
    var blocks := BlocksOf(payload);
    FragmentsShape(payload, MAX_PAYLOAD_SIZE, 0);
    forall k | 0 <= k < |blocks|
      ensures FromInt(DataOf(blocks[k]).option) == BlockInfo(k, k < |blocks| - 1, MAX_PAYLOAD_SIZE) <==> k < MAX_BLOCKS
    {
      NumberSurvives(k, k < |blocks| - 1);
    }
    if |blocks| > MAX_BLOCKS {
      assert !(MAX_BLOCKS < MAX_BLOCKS);
      assert FromInt(DataOf(blocks[MAX_BLOCKS]).option)
          != BlockInfo(MAX_BLOCKS, MAX_BLOCKS < |blocks| - 1, MAX_PAYLOAD_SIZE);
    }
  }

  /** The receiver holds blocks of `payload` only, each under its number, and knows the count of blocks from
      the moment it has the last one. */
  ghost predicate Holds(r: Receiver, payload: seq<byte>) {
    var blocks := BlocksOf(payload);
    && (forall k :: k in r.buf ==> k < |blocks| && r.buf[k] == blocks[k].body)
    && r.total == if |blocks| - 1 in r.buf then |blocks| else -1
  }

  lemma FreshHolds(payload: seq<byte>)
    ensures Holds(FRESH_RECEIVER, payload)
  {
  }

  lemma AcceptKeepsHolds(r: Receiver, payload: seq<byte>, k: nat)
    requires Holds(r, payload) && k < |BlocksOf(payload)| <= MAX_BLOCKS
    ensures var r' := Accept(r, DataOf(BlocksOf(payload)[k]));
            Holds(r', payload) && r'.buf.Keys == r.buf.Keys + {k}
  {
    NumbersSurvive(payload);
    FragmentsShape(payload, MAX_PAYLOAD_SIZE, 0);
  }

  /** Full exactly when every block is there; and then the body is the payload. */
  lemma FullMeansComplete(r: Receiver, payload: seq<byte>)
    requires Holds(r, payload)
    ensures Full(r) <==> (forall k :: 0 <= k < |BlocksOf(payload)| ==> k in r.buf)
    ensures Full(r) ==> Body(r) == payload
  {
    var n := |BlocksOf(payload)|;
    FullExactlyWhenCounted(r.buf.Keys, n);
    if Full(r) {
      AssembleRestores(r.buf, payload, MAX_PAYLOAD_SIZE);
    }
    assert (forall k :: 0 <= k < n ==> k in r.buf) ==> r.buf.Keys == Below(n);
  }

  /** Delivering block `k`, for the first time or again: it is stored under its number, and a complete buffer
      stays complete. */
  lemma Delivery(r: Receiver, payload: seq<byte>, k: nat)
    requires Holds(r, payload) && k < |BlocksOf(payload)| <= MAX_BLOCKS
    ensures var d := DataOf(BlocksOf(payload)[k]);
            var r' := Accept(r, d);
            && FromInt(d.option).number == k
            && Holds(r', payload) && r'.buf.Keys == r.buf.Keys + {k}
            && (Full(r) ==> Full(r'))
            && (Full(r') ==> Body(r') == payload)
  {
    NumbersSurvive(payload);
    AcceptKeepsHolds(r, payload, k);
    FullMeansComplete(Accept(r, DataOf(BlocksOf(payload)[k])), payload);
    FullMeansComplete(r, payload);
  }
}
