/** Cutting a body into numbered blocks and gluing them back (common.go:225-252, 315-324;
    storage.go:112-122). */
module Fragmentation {
  import opened Prelude

  const MAX_PAYLOAD_SIZE := 1024

  datatype Block = Block(number: nat, more: bool, body: seq<byte>)

  /** The blocks of `payload`, numbered from `number`. */
  function Fragments(payload: seq<byte>, size: nat, number: nat): (blocks: seq<Block>)
    requires size > 0
    ensures |blocks| > 0
    decreases |payload|
  {
    if |payload| <= size then [Block(number, false, payload)]
    else [Block(number, true, payload[..size])] + Fragments(payload[size..], size, number + 1)
  }

  function Bodies(blocks: seq<Block>): seq<byte> {
    if blocks == [] then [] else blocks[0].body + Bodies(blocks[1..])
  }

  /** `n` is the number of pieces of at most `size` that `len` needs: len / size, rounded up. */
  predicate IsCeiling(n: nat, len: nat, size: nat) { (n - 1) * size < len <= n * size }

  /** A payload is cut into ceil(len/size) blocks (one, if it is empty), numbered consecutively; all but the
      last are full and flagged `more`, the last alone is final, and it is not empty unless the payload is. */
  lemma {:induction false} FragmentsShape(payload: seq<byte>, size: nat, number: nat)
    requires size > 0
    ensures var blocks := Fragments(payload, size, number);
            && (if payload == [] then |blocks| == 1 else IsCeiling(|blocks|, |payload|, size))
            && (forall k :: 0 <= k < |blocks| ==> blocks[k].number == number + k)
            && (forall k :: 0 <= k < |blocks| ==> blocks[k].more == (k < |blocks| - 1))
            && (forall k :: 0 <= k < |blocks| - 1 ==> |blocks[k].body| == size)
            && |blocks[|blocks| - 1].body| <= size
            && (payload != [] ==> blocks[|blocks| - 1].body != [])
    decreases |payload|
  {
    if |payload| > size {
      FragmentsShape(payload[size..], size, number + 1);
      var rest := Fragments(payload[size..], size, number + 1);
      var blocks := Fragments(payload, size, number);
      assert |blocks| * size == size + |rest| * size && (|blocks| - 1) * size == size + (|rest| - 1) * size;
      assert forall k :: 1 <= k < |blocks| ==> blocks[k] == rest[k - 1];
    }
  }

  /** Nothing is lost, repeated or reordered by the cut. */
  lemma {:induction false} FragmentsConcatenate(payload: seq<byte>, size: nat, number: nat)
    requires size > 0
    ensures Bodies(Fragments(payload, size, number)) == payload
    decreases |payload|
  {
    if |payload| > size {
      FragmentsConcatenate(payload[size..], size, number + 1);
      assert Fragments(payload, size, number)[1..] == Fragments(payload[size..], size, number + 1);
      assert payload[..size] + payload[size..] == payload;
    } else {
      assert Fragments(payload, size, number)[1..] == [];
    }
  }

  /** The moving part of a transfer: where the next block starts and what its number is. */
  class StateSend {
    const payload: seq<byte>
    const blockSize: nat
    var start: nat
    var stop: nat
    var nextNumBlock: nat

    ghost predicate Valid() reads this { blockSize > 0 && start <= |payload| }

    ghost function Remaining(): seq<byte>
      requires Valid()
      reads this
    {
      payload[start..]
    }

    constructor (payload: seq<byte>, blockSize: nat)
      requires blockSize > 0
      ensures Valid() && this.blockSize == blockSize && Remaining() == payload && nextNumBlock == 0
    {
      this.payload, this.blockSize := payload, blockSize;
      start, stop, nextNumBlock := 0, 0, 0;
    }

    method ConstructNextBlock() returns (block: Block, end: bool)
      requires Valid()
      modifies this
      ensures Valid()
      ensures var blocks := Fragments(old(Remaining()), blockSize, old(nextNumBlock));
              && block == blocks[0]
              && (end <==> |blocks| == 1)
              && (!end ==> Fragments(Remaining(), blockSize, nextNumBlock) == blocks[1..]
                           && |Remaining()| < old(|Remaining()|))
    {
      stop := start + blockSize;
      if stop > |payload| {
        stop := |payload|;
      }
      var body := payload[start..stop];
      var isMore := stop < |payload|;
      block := Block(nextNumBlock, isMore, body);
      assert body == if isMore then Remaining()[..blockSize] else Remaining();
      ghost var before := Remaining();
      nextNumBlock := nextNumBlock + 1;
      start := stop;
      end := !isMore;
      if isMore {
        assert Remaining() == before[blockSize..];
      }
    }
  }

  /** The loop with which both senders cut their payload (transport.go:319-329, 439-449). */
  method Fragment(payload: seq<byte>, blockSize: nat) returns (blocks: seq<Block>)
    requires blockSize > 0
    ensures blocks == Fragments(payload, blockSize, 0)
  {
    var state := new StateSend(payload, blockSize);
    blocks := [];
    var end := false;
    while !end
      invariant state.Valid() && state.blockSize == blockSize
      invariant blocks + (if end then [] else Fragments(state.Remaining(), blockSize, state.nextNumBlock))
                == Fragments(payload, blockSize, 0)
      decreases !end, |state.Remaining()|
    {
      ghost var left := Fragments(state.Remaining(), blockSize, state.nextNumBlock);
      var block;
      block, end := state.ConstructNextBlock();
      assert left == [left[0]] + left[1..];
      blocks := blocks + [block];
    }
  }

  // ---------------------------------------------------------------- assembly

  function Lookup(buf: map<nat, seq<byte>>, k: nat): seq<byte> { if k in buf then buf[k] else [] }

  function Assemble(buf: map<nat, seq<byte>>, total: nat): seq<byte> {
    if total == 0 then [] else Assemble(buf, total - 1) + Lookup(buf, total - 1)
  }

  method AssembleBlocks(buf: map<nat, seq<byte>>, totalBlocks: int) returns (b: seq<byte>)
    ensures b == if totalBlocks <= 0 then [] else Assemble(buf, totalBlocks)
  {
    b := [];
    var i := 0;
    while i < totalBlocks
      invariant 0 <= i && (i <= totalBlocks || i == 0)
      invariant b == Assemble(buf, i)
    {
      b := b + Lookup(buf, i);
      i := i + 1;
    }
  }

  lemma {:induction false} BodiesAppend(blocks: seq<Block>, block: Block)
    ensures Bodies(blocks + [block]) == Bodies(blocks) + block.body
  {
    if blocks != [] {
      assert (blocks + [block])[1..] == blocks[1..] + [block];
      BodiesAppend(blocks[1..], block);
    } else {
      assert (blocks + [block])[1..] == [];
    }
  }

  lemma {:induction false} AssembleIsBodies(buf: map<nat, seq<byte>>, blocks: seq<Block>)
    requires forall k :: 0 <= k < |blocks| ==> k in buf && buf[k] == blocks[k].body
    ensures Assemble(buf, |blocks|) == Bodies(blocks)
  {
    if blocks != [] {
      var last := |blocks| - 1;
      AssembleIsBodies(buf, blocks[..last]);
      BodiesAppend(blocks[..last], blocks[last]);
      assert blocks == blocks[..last] + [blocks[last]];
    }
  }

  /** A buffer that holds every block of a payload under its number assembles to that payload. */
  lemma AssembleRestores(buf: map<nat, seq<byte>>, payload: seq<byte>, size: nat)
    requires size > 0
    requires var blocks := Fragments(payload, size, 0);
             forall k :: 0 <= k < |blocks| ==> k in buf && buf[k] == blocks[k].body
    ensures Assemble(buf, |Fragments(payload, size, 0)|) == payload
  {
    AssembleIsBodies(buf, Fragments(payload, size, 0));
    FragmentsConcatenate(payload, size, 0);
  }
}
