/** Reassembly of concatenated SMS fragments: the rows of one pass over a modem's store are
    grouped by sender, reference and count, queued by sequence number, paired oldest first,
    and what is left over is either kept waiting or, once old enough, released with its gaps
    marked. */
module Concat {
  import opened Basics
  import opened Sorting

  const FRAGMENT_GRACE_MS: i64 := 24 * 60 * 60 * 1000

  datatype ConcatPart = ConcatPart(
    sender: string,
    refId: u16,
    total: u8,
    seqNo: u8,
    body: string,
    receivedAt: Option<i64>)

  datatype AssembledSms = AssembledSms(
    sender: string,
    body: string,
    parts: u8,
    sources: seq<nat>,
    missing: seq<u8>)

  datatype Key = Key(sender: string, refId: u16, total: u8)

  /** What one group, or a whole pass, comes to. */
  datatype Outcome = Outcome(assembled: seq<AssembledSms>, pending: seq<nat>)

  /** A row whose header numbers it outside its own count is passed through as a message. */
  predicate Standalone(p: ConcatPart) {
    p.total <= 1 || p.seqNo == 0 || p.seqNo > p.total
  }

  function KeyOf(p: ConcatPart): Key {
    Key(p.sender, p.refId, p.total)
  }

  function PassedThrough(p: ConcatPart, slot: nat): AssembledSms {
    AssembledSms(p.sender, p.body, 1, [slot], [])
  }

  // ----- Key order of the group map ----------------------------------------

  /** `str` order, which is code-point order. */
  predicate StringLess(a: string, b: string) {
    b != [] && (a == [] || a[0] < b[0] || (a[0] == b[0] && StringLess(a[1..], b[1..])))
  }

  predicate KeyLess(a: Key, b: Key) {
    || StringLess(a.sender, b.sender)
    || (a.sender == b.sender && (a.refId < b.refId || (a.refId == b.refId && a.total < b.total)))
  }

  lemma {:induction false} StringLessIsStrictTotal(a: string, b: string, c: string)
    ensures StringLess(a, b) ==> !StringLess(b, a)
    ensures a == b || StringLess(a, b) || StringLess(b, a)
    ensures StringLess(a, b) && StringLess(b, c) ==> StringLess(a, c)
  {
    if a != [] && b != [] {
      StringLessIsStrictTotal(a[1..], b[1..], if c == [] then [] else c[1..]);
      assert a == [a[0]] + a[1..] && b == [b[0]] + b[1..];
    }
  }

  lemma KeyLessIsStrictTotal(a: Key, b: Key, c: Key)
    ensures KeyLess(a, b) ==> !KeyLess(b, a)
    ensures a == b || KeyLess(a, b) || KeyLess(b, a)
    ensures KeyLess(a, b) && KeyLess(b, c) ==> KeyLess(a, c)
  {
    StringLessIsStrictTotal(a.sender, b.sender, c.sender);
    StringLessIsStrictTotal(a.sender, b.sender, a.sender);
    StringLessIsStrictTotal(b.sender, c.sender, b.sender);
    StringLessIsStrictTotal(b.sender, b.sender, b.sender);
    StringLessIsStrictTotal(a.sender, a.sender, a.sender);
  }

  ghost predicate IsLeast(k: Key, keys: set<Key>) {
    k in keys && forall j :: j in keys && j != k ==> KeyLess(k, j)
  }

  lemma {:induction false} LeastExists(keys: set<Key>)
    requires keys != {}
    ensures exists k :: IsLeast(k, keys)
    decreases |keys|
  {
    var x :| x in keys;
    if keys == {x} {
      assert IsLeast(x, keys);
    } else {
      LeastExists(keys - {x});
      var y :| IsLeast(y, keys - {x});
      KeyLessIsStrictTotal(x, y, x);
      var k := if KeyLess(x, y) then x else y;
      forall j | j in keys && j != k
        ensures KeyLess(k, j)
      {
        KeyLessIsStrictTotal(x, y, j);
      }
      assert IsLeast(k, keys);
    }
  }

  lemma LeastIsUnique(a: Key, b: Key, keys: set<Key>)
    requires IsLeast(a, keys) && IsLeast(b, keys)
    ensures a == b
  {
    KeyLessIsStrictTotal(a, b, a);
  }

  /** The keys in the order a `BTreeMap` visits them. */
  ghost function KeyOrder(keys: set<Key>): seq<Key>
    decreases |keys|
  {
    if keys == {} then []
    else
      LeastExists(keys);
      var k :| IsLeast(k, keys);
      [k] + KeyOrder(keys - {k})
  }

  // ----- Grouping and queueing ---------------------------------------------

  /** Positions below `n` that belong to the group, ascending. */
  function Slots(parts: seq<ConcatPart>, key: Key, n: nat): seq<nat>
    requires n <= |parts|
  {
    if n == 0 then []
    else Slots(parts, key, n - 1) +
         if !Standalone(parts[n - 1]) && KeyOf(parts[n - 1]) == key then [n - 1] else []
  }

  function Singles(parts: seq<ConcatPart>, n: nat): seq<AssembledSms>
    requires n <= |parts|
  {
    if n == 0 then []
    else Singles(parts, n - 1) +
         if Standalone(parts[n - 1]) then [PassedThrough(parts[n - 1], n - 1)] else []
  }

  function Keys(parts: seq<ConcatPart>, n: nat): set<Key>
    requires n <= |parts|
  {
    set i | 0 <= i < n && !Standalone(parts[i]) :: KeyOf(parts[i])
  }

  predicate InRange(parts: seq<ConcatPart>, slots: seq<nat>) {
    forall i :: 0 <= i < |slots| ==> slots[i] < |parts|
  }

  function BySeq(parts: seq<ConcatPart>, slots: seq<nat>, seqNo: int): seq<nat>
    requires InRange(parts, slots)
  {
    if slots == [] then []
    else
      var last := slots[|slots| - 1];
      BySeq(parts, slots[..|slots| - 1], seqNo) + if parts[last].seqNo == seqNo then [last] else []
  }

  /** `Option` order: no stamp sorts before any stamp. */
  predicate StampLess(a: Option<i64>, b: Option<i64>) {
    b.Some? && (a.None? || a.value < b.value)
  }

  function StampOf(parts: seq<ConcatPart>, slot: nat): Option<i64> {
    if slot < |parts| then parts[slot].receivedAt else None
  }

  /** The queue order: oldest stamp first, then position. */
  function ByAge(parts: seq<ConcatPart>): Order {
    (a: nat, b: nat) =>
      StampLess(StampOf(parts, a), StampOf(parts, b)) || (StampOf(parts, a) == StampOf(parts, b) && a < b)
  }

  function Queue(parts: seq<ConcatPart>, slots: seq<nat>, seqNo: int): seq<nat>
    requires InRange(parts, slots)
  {
    Sort(ByAge(parts), BySeq(parts, slots, seqNo))
  }

  /** The queues of sequence numbers 1 to `t`. */
  function Queues(parts: seq<ConcatPart>, slots: seq<nat>, t: nat): seq<seq<nat>>
    requires InRange(parts, slots)
  {
    if t == 0 then [] else Queues(parts, slots, t - 1) + [Queue(parts, slots, t)]
  }

  /** How many messages the queues can complete. */
  function Shortest(queues: seq<seq<nat>>): nat
    requires queues != []
  {
    var here := |queues[|queues| - 1]|;
    if |queues| == 1 then here
    else
      var before := Shortest(queues[..|queues| - 1]);
      if here < before then here else before
  }

  predicate AllReach(queues: seq<seq<nat>>, n: nat) {
    forall i :: 0 <= i < |queues| ==> n <= |queues[i]|
  }

  /** The sources of the message made in round `round`: one row from each queue. */
  function Row(queues: seq<seq<nat>>, round: nat): seq<nat>
    requires AllReach(queues, round + 1)
  {
    if queues == [] then [] else Row(queues[..|queues| - 1], round) + [queues[|queues| - 1][round]]
  }

  /** What the queues hold beyond the first `whole` rows each. */
  function Tails(queues: seq<seq<nat>>, whole: nat): seq<nat>
    requires AllReach(queues, whole)
  {
    if queues == [] then [] else Tails(queues[..|queues| - 1], whole) + queues[|queues| - 1][whole..]
  }

  function Bodies(parts: seq<ConcatPart>, slots: seq<nat>): string
    requires InRange(parts, slots)
  {
    if slots == [] then []
    else Bodies(parts, slots[..|slots| - 1]) + parts[slots[|slots| - 1]].body
  }

  // ----- Leftovers ----------------------------------------------------------

  function Newest(parts: seq<ConcatPart>, slots: seq<nat>): Option<i64>
    requires InRange(parts, slots)
  {
    if slots == [] then None
    else
      var before := Newest(parts, slots[..|slots| - 1]);
      var here := parts[slots[|slots| - 1]].receivedAt;
      if StampLess(before, here) then here else before
  }

  predicate Expired(parts: seq<ConcatPart>, slots: seq<nat>, now: i64, grace: i64)
    requires InRange(parts, slots)
  {
    var newest := Newest(parts, slots);
    newest.Some? && SaturatingSub(now, newest.value) > grace
  }

  function Decimal(n: nat): string {
    if n < 10 then ["0123456789"[n]] else Decimal(n / 10) + ["0123456789"[n % 10]]
  }

  function MissingMarker(seqNo: nat, total: nat): string {
    "[missing part " + Decimal(seqNo) + " of " + Decimal(total) + "]"
  }

  /** The first of `slots` carrying this sequence number. */
  function Find(parts: seq<ConcatPart>, slots: seq<nat>, seqNo: int): Option<nat>
    requires InRange(parts, slots)
  {
    if slots == [] then None
    else if parts[slots[0]].seqNo == seqNo then Some(slots[0])
    else Find(parts, slots[1..], seqNo)
  }

  function FilledBody(parts: seq<ConcatPart>, slots: seq<nat>, total: u8, t: nat): string
    requires InRange(parts, slots)
  {
    if t == 0 then []
    else FilledBody(parts, slots, total, t - 1) +
         match Find(parts, slots, t)
         case Some(slot) => if slot < |parts| then parts[slot].body else []
         case None => MissingMarker(t, total)
  }

  function Gaps(parts: seq<ConcatPart>, slots: seq<nat>, t: nat): seq<u8>
    requires InRange(parts, slots) && t < 0x100
  {
    if t == 0 then []
    else Gaps(parts, slots, t - 1) + if Find(parts, slots, t).None? then [t] else []
  }

  // ----- One group, and the pass -------------------------------------------

  predicate IsGroup(parts: seq<ConcatPart>, key: Key, slots: seq<nat>) {
    && 2 <= key.total
    && InRange(parts, slots)
    && forall i :: 0 <= i < |slots| ==> !Standalone(parts[slots[i]]) && KeyOf(parts[slots[i]]) == key
  }

  function WholeMessage(parts: seq<ConcatPart>, key: Key, queues: seq<seq<nat>>, round: nat): AssembledSms
    requires AllInRange(parts, queues) && AllReach(queues, round + 1)
  {
    RowElements(parts, queues, round);
    var sources := Row(queues, round);
    AssembledSms(key.sender, Bodies(parts, sources), key.total, sources, [])
  }

  function WholeMessages(parts: seq<ConcatPart>, key: Key, queues: seq<seq<nat>>, rounds: nat): seq<AssembledSms>
    requires AllInRange(parts, queues) && AllReach(queues, rounds)
  {
    if rounds == 0 then []
    else WholeMessages(parts, key, queues, rounds - 1) + [WholeMessage(parts, key, queues, rounds - 1)]
  }

  function Released(parts: seq<ConcatPart>, key: Key, left: seq<nat>): AssembledSms
    requires InRange(parts, left)
  {
    AssembledSms(key.sender, FilledBody(parts, left, key.total, key.total), key.total, left,
                 Gaps(parts, left, key.total))
  }

  function QueuesOutcome(parts: seq<ConcatPart>, key: Key, queues: seq<seq<nat>>, now: i64, grace: i64): Outcome
    requires queues != [] && AllInRange(parts, queues)
  {
    var whole := Shortest(queues);
    ShortestBounds(queues);
    var messages := WholeMessages(parts, key, queues, whole);
    var left := Sort(Ascending(), Tails(queues, whole));
    TailsInRange(parts, queues, whole);
    if left == [] then Outcome(messages, [])
    else if !Expired(parts, left, now, grace) then Outcome(messages, left)
    else Outcome(messages + [Released(parts, key, left)], [])
  }

  function GroupOutcome(parts: seq<ConcatPart>, key: Key, slots: seq<nat>, now: i64, grace: i64): Outcome
    requires IsGroup(parts, key, slots)
  {
    QueuesInRange(parts, slots, key.total);
    QueuesOutcome(parts, key, Queues(parts, slots, key.total), now, grace)
  }

  function GroupsOutcome(parts: seq<ConcatPart>, order: seq<Key>, now: i64, grace: i64): Outcome
    requires forall key :: key in order ==> 2 <= key.total
  {
    if order == [] then Outcome([], [])
    else
      var key := order[|order| - 1];
      var before := GroupsOutcome(parts, order[..|order| - 1], now, grace);
      SlotsAreGroup(parts, key, |parts|);
      var here := GroupOutcome(parts, key, Slots(parts, key, |parts|), now, grace);
      Outcome(before.assembled + here.assembled, before.pending + here.pending)
  }

  /** The whole pass: rows passed through first, then the groups in key order. */
  ghost function Assembly(parts: seq<ConcatPart>, now: i64, grace: i64): Outcome {
    var order := KeyOrder(Keys(parts, |parts|));
    OrderCoversKeys(Keys(parts, |parts|));
    var groups := GroupsOutcome(parts, order, now, grace);
    Outcome(Singles(parts, |parts|) + groups.assembled, groups.pending)
  }

  // ----- Facts the definitions rest on --------------------------------------

  lemma {:induction false} ShortestBounds(queues: seq<seq<nat>>)
    requires queues != []
    ensures AllReach(queues, Shortest(queues))
    ensures exists i :: 0 <= i < |queues| && |queues[i]| == Shortest(queues)
  {
    var last := |queues| - 1;
    if last == 0 {
      assert |queues[0]| == Shortest(queues);
    } else {
      ShortestBounds(queues[..last]);
      var i :| 0 <= i < last && |queues[..last][i]| == Shortest(queues[..last]);
      assert |queues[i]| == Shortest(queues[..last]);
      assert |queues[i]| == Shortest(queues) || |queues[last]| == Shortest(queues);
      forall j | 0 <= j < |queues|
        ensures Shortest(queues) <= |queues[j]|
      {
        assert j < last ==> queues[j] == queues[..last][j];
      }
    }
  }

  predicate AllInRange(parts: seq<ConcatPart>, queues: seq<seq<nat>>) {
    forall i :: 0 <= i < |queues| ==> InRange(parts, queues[i])
  }

  lemma {:induction false} RowElements(parts: seq<ConcatPart>, queues: seq<seq<nat>>, round: nat)
    requires AllInRange(parts, queues) && AllReach(queues, round + 1)
    ensures |Row(queues, round)| == |queues|
    ensures forall i :: 0 <= i < |queues| ==> Row(queues, round)[i] == queues[i][round]
    ensures InRange(parts, Row(queues, round))
  {
    if queues != [] {
      RowElements(parts, queues[..|queues| - 1], round);
    }
  }

  lemma {:induction false} TailsContents(queues: seq<seq<nat>>, whole: nat)
    requires AllReach(queues, whole)
    ensures forall x :: x in Tails(queues, whole) <==>
                        exists i :: 0 <= i < |queues| && x in queues[i][whole..]
  {
    if queues != [] {
      var last := |queues| - 1;
      TailsContents(queues[..last], whole);
      forall x
        ensures x in Tails(queues, whole) <==> exists i :: 0 <= i < |queues| && x in queues[i][whole..]
      {
        if i :| 0 <= i < last && x in queues[..last][i][whole..] {
          assert x in queues[i][whole..];
        }
        if i :| 0 <= i < last && x in queues[i][whole..] {
          assert x in queues[..last][i][whole..];
        }
      }
    }
  }

  lemma TailsInRange(parts: seq<ConcatPart>, queues: seq<seq<nat>>, whole: nat)
    requires AllInRange(parts, queues) && AllReach(queues, whole)
    ensures InRange(parts, Sort(Ascending(), Tails(queues, whole)))
  {
    var tails := Tails(queues, whole);
    var left := Sort(Ascending(), tails);
    SortContents(Ascending(), tails);
    SameMembers(left, tails);
    TailsContents(queues, whole);
    forall j | 0 <= j < |left|
      ensures left[j] < |parts|
    {
      assert left[j] in left;
      var i :| 0 <= i < |queues| && left[j] in queues[i][whole..];
      assert left[j] in queues[i];
    }
  }

  lemma {:induction false} QueuesInRange(parts: seq<ConcatPart>, slots: seq<nat>, t: nat)
    requires InRange(parts, slots)
    ensures |Queues(parts, slots, t)| == t
    ensures forall i :: 0 <= i < t ==> Queues(parts, slots, t)[i] == Queue(parts, slots, i + 1)
    ensures AllInRange(parts, Queues(parts, slots, t))
  {
    hide Queue, InRange;
    if t > 0 {
      QueuesInRange(parts, slots, t - 1);
      QueueInRange(parts, slots, t);
    }
  }

  lemma QueueInRange(parts: seq<ConcatPart>, slots: seq<nat>, seqNo: int)
    requires InRange(parts, slots)
    ensures InRange(parts, Queue(parts, slots, seqNo))
  {
    QueueMembers(parts, slots, seqNo);
    var queue := Queue(parts, slots, seqNo);
    forall i | 0 <= i < |queue|
      ensures queue[i] < |parts|
    {
      assert queue[i] in queue;
    }
  }

  lemma {:induction false} BySeqMembers(parts: seq<ConcatPart>, slots: seq<nat>, seqNo: int)
    requires InRange(parts, slots)
    ensures forall x :: x in BySeq(parts, slots, seqNo) <==> x in slots && parts[x].seqNo == seqNo
  {
    if slots != [] {
      BySeqMembers(parts, slots[..|slots| - 1], seqNo);
      assert slots == slots[..|slots| - 1] + [slots[|slots| - 1]];
    }
  }

  lemma QueueMembers(parts: seq<ConcatPart>, slots: seq<nat>, seqNo: int)
    requires InRange(parts, slots)
    ensures forall x :: x in Queue(parts, slots, seqNo) <==> x in slots && parts[x].seqNo == seqNo
  {
    BySeqMembers(parts, slots, seqNo);
    SortContents(ByAge(parts), BySeq(parts, slots, seqNo));
    SameMembers(Queue(parts, slots, seqNo), BySeq(parts, slots, seqNo));
  }

  lemma {:induction false} SlotsMembers(parts: seq<ConcatPart>, key: Key, n: nat)
    requires n <= |parts|
    ensures forall x :: x in Slots(parts, key, n) <==> 0 <= x < n && !Standalone(parts[x]) && KeyOf(parts[x]) == key
  {
    if n > 0 {
      SlotsMembers(parts, key, n - 1);
    }
  }

  lemma SlotsAreGroup(parts: seq<ConcatPart>, key: Key, n: nat)
    requires n <= |parts| && 2 <= key.total
    ensures IsGroup(parts, key, Slots(parts, key, n))
  {
    SlotsMembers(parts, key, n);
  }

  lemma {:induction false} OrderCoversKeys(keys: set<Key>)
    ensures forall k :: k in KeyOrder(keys) <==> k in keys
    decreases |keys|
  {
    if keys != {} {
      LeastExists(keys);
      var k := KeyOrder(keys)[0];
      OrderCoversKeys(keys - {k});
    }
  }
}
