/** Sending a payload to the card as a chain of `STORE DATA` commands (section 5.7.2 of SGP.22),
    and what a card that follows the chain ends up with. */
module StoreData {
  import opened Basics
  import opened Tlv

  const BLOCK := 255
  const MAX_PAYLOAD := 255 * 256

  // ----- The sender ---------------------------------------------------------------

  function Blocks(payload: seq<u8>): nat {
    (|payload| + BLOCK - 1) / BLOCK
  }

  function Block(payload: seq<u8>, i: nat): (block: seq<u8>)
    requires i < Blocks(payload)
    ensures 1 <= |block| <= BLOCK
    ensures i + 1 < Blocks(payload) ==> |block| == BLOCK
  {
    var end := if (i + 1) * BLOCK <= |payload| then (i + 1) * BLOCK else |payload|;
    payload[i * BLOCK..end]
  }

  function Apdu(payload: seq<u8>, i: nat): seq<u8>
    requires |payload| <= MAX_PAYLOAD && i < Blocks(payload)
  {
    var block := Block(payload, i);
    [0x80, 0xe2, if i + 1 == Blocks(payload) then 0x91 else 0x11, i, |block|] + block
  }

  function Chain(payload: seq<u8>): Result<seq<seq<u8>>, Es10cError> {
    if payload == [] then Err(EmptyPayload)
    else if |payload| > MAX_PAYLOAD then Err(PayloadTooLarge)
    else Ok(seq(Blocks(payload), i requires 0 <= i < Blocks(payload) => Apdu(payload, i)))
  }

  /** The chain as it is built, one block after another. */
  method BuildChain(payload: seq<u8>) returns (chain: Result<seq<seq<u8>>, Es10cError>)
    ensures chain == Chain(payload)
  {
    if payload == [] {
      return Err(EmptyPayload);
    }
    if |payload| > MAX_PAYLOAD {
      return Err(PayloadTooLarge);
    }
    var apdus: seq<seq<u8>>, index := [], 0;
    while index < Blocks(payload)
      invariant index <= Blocks(payload)
      invariant |apdus| == index
      invariant forall i :: 0 <= i < index ==> apdus[i] == Apdu(payload, i)
    {
      var block := Block(payload, index);
      var p1 := if index == Blocks(payload) - 1 then 0x91 else 0x11;
      apdus := apdus + [[0x80, 0xe2, p1, index, |block|] + block];
      index := index + 1;
    }
    assert apdus == Chain(payload).value;
    chain := Ok(apdus);
  }

  // ----- The card -----------------------------------------------------------------

  /** A card taking in a chain: the number it expects next, what it has, and whether it is done. */
  datatype Card = Card(expected: nat, buffer: seq<u8>, done: bool)

  const Waiting := Card(0, [], false)

  /** A command is taken only if it is the expected block of this chain and as long as it says. */
  function Receive(card: Card, apdu: seq<u8>): Option<Card> {
    if || card.done || |apdu| < 6 || apdu[0] != 0x80 || apdu[1] != 0xe2
       || apdu[2] !in {0x11, 0x91} || apdu[3] != card.expected || apdu[4] != |apdu| - 5
    then None
    else Some(Card(card.expected + 1, card.buffer + apdu[5..], apdu[2] == 0x91))
  }

  function ReceiveAll(card: Card, apdus: seq<seq<u8>>): Option<Card>
    decreases |apdus|
  {
    if apdus == [] then Some(card)
    else
      match Receive(card, apdus[0])
      case None => None
      case Some(next) => ReceiveAll(next, apdus[1..])
  }

  /** The card after the first `n` blocks. */
  function Filled(payload: seq<u8>, n: nat): Card
    requires n <= Blocks(payload)
  {
    Card(n, if n == Blocks(payload) then payload else payload[..n * BLOCK], 0 < n == Blocks(payload))
  }

  lemma BlockFills(payload: seq<u8>, n: nat)
    requires 0 < |payload| <= MAX_PAYLOAD && n < Blocks(payload)
    ensures Receive(Filled(payload, n), Apdu(payload, n)) == Some(Filled(payload, n + 1))
  {
    var apdu, block := Apdu(payload, n), Block(payload, n);
    assert apdu[5..] == block;
    if n + 1 == Blocks(payload) {
      assert block == payload[n * BLOCK..];
      assert payload == payload[..n * BLOCK] + payload[n * BLOCK..];
    } else {
      assert payload[..(n + 1) * BLOCK] == payload[..n * BLOCK] + block;
    }
  }

  lemma {:induction false} ChainFills(payload: seq<u8>, n: nat)
    requires 0 < |payload| <= MAX_PAYLOAD && n <= Blocks(payload)
    ensures ReceiveAll(Filled(payload, n), Chain(payload).value[n..]) == Some(Filled(payload, Blocks(payload)))
    decreases Blocks(payload) - n
  {
    var chain := Chain(payload).value;
    if n < Blocks(payload) {
      BlockFills(payload, n);
      ChainFills(payload, n + 1);
      assert chain[n..][0] == Apdu(payload, n) && chain[n..][1..] == chain[n + 1..];
    }
  }

  /** A chain is built for exactly the payloads that fit, no command in it is longer than a card
      takes, and the card that follows it ends with the payload, done, and not before its last
      command. */
  lemma CardReceivesPayload(payload: seq<u8>)
    ensures Chain(payload).Ok? <==> 1 <= |payload| <= 65280
    ensures Chain(payload) == Err(EmptyPayload) <==> payload == []
    ensures Chain(payload).Ok? ==>
              var chain := Chain(payload).value;
              && 1 <= |chain| <= 256
              && (forall i :: 0 <= i < |chain| ==> 6 <= |chain[i]| <= 260)
              && ReceiveAll(Waiting, chain) == Some(Card(|chain|, payload, true))
  {
    if Chain(payload).Ok? {
      var chain := Chain(payload).value;
      assert Filled(payload, 0) == Waiting by {
        assert payload[..0] == [];
      }
      ChainFills(payload, 0);
      assert chain[0..] == chain;
    }
  }

  /** Any commands a card accepts in full are numbered in a row, say there is more until the last,
      and leave it with just what they carry. */
  lemma {:induction false} AcceptedChainsCarryTheirPayload(card: Card, apdus: seq<seq<u8>>)
    requires ReceiveAll(card, apdus).Some?
    ensures forall i :: 0 <= i < |apdus| ==> |apdus[i]| >= 5 && apdus[i][3] == card.expected + i
    ensures ReceiveAll(card, apdus).value.buffer == card.buffer + Carried(apdus)
    ensures forall i :: 0 <= i < |apdus| - 1 ==> apdus[i][2] == 0x11
    decreases |apdus|
  {
    if apdus != [] {
      var next := Receive(card, apdus[0]).value;
      AcceptedChainsCarryTheirPayload(next, apdus[1..]);
      forall i | 0 <= i < |apdus|
        ensures |apdus[i]| >= 5 && apdus[i][3] == card.expected + i
        ensures i < |apdus| - 1 ==> apdus[i][2] == 0x11
      {
        if i > 0 {
          assert apdus[i] == apdus[1..][i - 1];
        }
      }
    }
  }

  function Carried(apdus: seq<seq<u8>>): seq<u8> {
    if apdus == [] then []
    else (if |apdus[0]| >= 5 then apdus[0][5..] else []) + Carried(apdus[1..])
  }
}
