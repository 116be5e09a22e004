/** Two questions about a group whose reference was used more than once, or is still waiting:
    are the fragments of different deliveries ever crossed, and does looking again help? */
module Deliveries {
  import opened Basics
  import opened Sorting
  import opened Concat
  import opened Reassembly

  // ----- Several deliveries under one reference -----------------------------

  type Labelling = nat -> nat

  ghost predicate Reaches(slots: seq<nat>, delivery: Labelling, d: nat) {
    exists x :: x in slots && delivery(x) == d
  }

  /** Fragment `s` of delivery `d` arrived. */
  ghost predicate Arrived(parts: seq<ConcatPart>, slots: seq<nat>, delivery: Labelling, d: nat, s: nat) {
    exists x :: x in slots && x < |parts| && delivery(x) == d && parts[x].seqNo == s
  }

  /** `delivery` numbers the deliveries the rows came in, oldest first: at most one row per
      delivery and sequence number, and all stamps of a delivery before those of the next. */
  ghost predicate AreDeliveries(parts: seq<ConcatPart>, slots: seq<nat>, delivery: Labelling, count: nat) {
    && InRange(parts, slots)
    && Distinct(slots)
    && (forall x :: x in slots ==> delivery(x) < count)
    && (forall d :: 0 <= d < count ==> Reaches(slots, delivery, d))
    && (forall x, y :: x in slots && y in slots && delivery(x) == delivery(y) && parts[x].seqNo == parts[y].seqNo ==> x == y)
    && (forall x, y :: x in slots && y in slots && delivery(x) < delivery(y) ==>
          StampLess(parts[x].receivedAt, parts[y].receivedAt))
  }

  /** Every fragment of delivery `d` arrived. */
  ghost predicate Complete(parts: seq<ConcatPart>, slots: seq<nat>, delivery: Labelling, d: nat, total: nat)
  {
    forall s :: 1 <= s <= total ==> Arrived(parts, slots, delivery, d, s)
  }

  ghost predicate SameDelivery(sources: seq<nat>, delivery: Labelling) {
    forall i, j :: 0 <= i < |sources| && 0 <= j < |sources| ==> delivery(sources[i]) == delivery(sources[j])
  }

  lemma ByAgeIsStrictTotal(parts: seq<ConcatPart>)
    ensures StrictTotal(ByAge(parts))
  {
  }

  lemma {:induction false} BySeqDistinct(parts: seq<ConcatPart>, slots: seq<nat>, s: int)
    requires InRange(parts, slots) && Distinct(slots)
    ensures Distinct(BySeq(parts, slots, s))
  {
    if slots != [] {
      var rest := slots[..|slots| - 1];
      BySeqDistinct(parts, rest, s);
      BySeqMembers(parts, rest, s);
      assert slots[|slots| - 1] !in rest;
      assert forall i :: 0 <= i < |BySeq(parts, rest, s)| ==> BySeq(parts, rest, s)[i] in BySeq(parts, rest, s);
    }
  }

  /** A queue runs through the deliveries in order. */
  lemma QueueFollowsDeliveries(parts: seq<ConcatPart>, slots: seq<nat>, delivery: Labelling, count: nat, s: int)
    requires AreDeliveries(parts, slots, delivery, count)
    ensures InDeliveryOrder(Queue(parts, slots, s), delivery)
  {
    var queue := Queue(parts, slots, s);
    ByAgeIsStrictTotal(parts);
    SortSorts(ByAge(parts), BySeq(parts, slots, s));
    BySeqDistinct(parts, slots, s);
    SortKeepsDistinct(ByAge(parts), BySeq(parts, slots, s));
    QueueMembers(parts, slots, s);
    forall i, j | 0 <= i < j < |queue|
      ensures delivery(queue[i]) < delivery(queue[j])
    {
      assert queue[i] in queue && queue[j] in queue;
      assert ByAge(parts)(queue[i], queue[j]);
    }
  }

  lemma {:induction false} LabelsAtLeastIndex(queue: seq<nat>, delivery: Labelling, i: nat)
    requires InDeliveryOrder(queue, delivery)
    requires i < |queue|
    ensures i <= delivery(queue[i])
  {
    if i > 0 {
      LabelsAtLeastIndex(queue, delivery, i - 1);
    }
  }

  /** When the first deliveries all put a row in this queue, row `r` is delivery `r`. */
  lemma {:induction false} QueueIndexIsDelivery(queue: seq<nat>, delivery: Labelling, r: nat)
    requires InDeliveryOrder(queue, delivery)
    requires forall d :: 0 <= d <= r ==> Reaches(queue, delivery, d)
    ensures r < |queue| && delivery(queue[r]) == r
  {
    if r > 0 {
      QueueIndexIsDelivery(queue, delivery, r - 1);
    }
    assert Reaches(queue, delivery, r);
    var x :| x in queue && delivery(x) == r;
    var k :| 0 <= k < |queue| && queue[k] == x;
    LabelsAtLeastIndex(queue, delivery, k);
    assert k == r;
  }

  lemma CompleteKeepsTogether(parts: seq<ConcatPart>, slots: seq<nat>, delivery: Labelling, count: nat, total: nat, r: nat, s: nat)
    requires AreDeliveries(parts, slots, delivery, count) && 1 <= s <= total
    requires OldestComplete(parts, slots, delivery, total, r + 1)
    ensures r < |Queue(parts, slots, s)| && delivery(Queue(parts, slots, s)[r]) == r
  {
    var queue := Queue(parts, slots, s);
    QueueFollowsDeliveries(parts, slots, delivery, count, s);
    QueueMembers(parts, slots, s);
    forall d | 0 <= d <= r
      ensures Reaches(queue, delivery, d)
    {
      assert Complete(parts, slots, delivery, d, total) && Arrived(parts, slots, delivery, d, s);
      var x :| x in slots && x < |parts| && delivery(x) == d && parts[x].seqNo == s;
      assert x in queue;
    }
    QueueIndexIsDelivery(queue, delivery, r);
  }

  ghost predicate InDeliveryOrder(queue: seq<nat>, delivery: Labelling) {
    forall a, b :: 0 <= a < b < |queue| ==> delivery(queue[a]) < delivery(queue[b])
  }

  ghost predicate ReachesSome(queues: seq<seq<nat>>, delivery: Labelling, d: nat) {
    exists i :: 0 <= i < |queues| && Reaches(queues[i], delivery, d)
  }

  /** If every round up to `r` is pure, then round `r` is delivery `r`. */
  lemma {:induction false} PureRoundIsItsDelivery(queues: seq<seq<nat>>, delivery: Labelling, count: nat, r: nat, i: nat)
    requires AllReach(queues, r + 1) && r < count && i < |queues|
    requires forall j :: 0 <= j < |queues| ==> InDeliveryOrder(queues[j], delivery)
    requires forall d :: 0 <= d < count ==> ReachesSome(queues, delivery, d)
    requires AllPure(queues, r + 1, delivery)
    ensures delivery(queues[i][r]) == r
  {
    assert ReachesSome(queues, delivery, r);
    var j :| 0 <= j < |queues| && Reaches(queues[j], delivery, r);
    var queue := queues[j];
    var x :| x in queue && delivery(x) == r;
    var k :| 0 <= k < |queue| && queue[k] == x;
    LabelsAtLeastIndex(queue, delivery, r);
    LabelsAtLeastIndex(queue, delivery, k);
    if r > 0 {
      PureRoundIsItsDelivery(queues, delivery, count, r - 1, j);
    }
    assert k == r;
    SamePlace(queues, delivery, r, i, j);
  }

  lemma SamePlace(queues: seq<seq<nat>>, delivery: Labelling, r: nat, i: nat, j: nat)
    requires AllReach(queues, r + 1) && SameDelivery(Row(queues, r), delivery)
    requires i < |queues| && j < |queues|
    ensures delivery(queues[i][r]) == delivery(queues[j][r])
  {
    RowAt(queues, r, i);
    RowAt(queues, r, j);
  }

  lemma {:induction false} RowAt(queues: seq<seq<nat>>, r: nat, i: nat)
    requires AllReach(queues, r + 1) && i < |queues|
    ensures |Row(queues, r)| == |queues| && Row(queues, r)[i] == queues[i][r]
  {
    var rest := queues[..|queues| - 1];
    if rest != [] {
      RowAt(rest, r, if i < |rest| then i else 0);
    }
  }

  /** Each of the first `n` whole messages is made of fragments of one delivery. */
  ghost predicate AllPure(queues: seq<seq<nat>>, n: nat, delivery: Labelling)
    requires AllReach(queues, n)
  {
    forall r :: 0 <= r < n ==> SameDelivery(Row(queues, r), delivery)
  }

  /** The `n` oldest deliveries arrived complete. */
  ghost predicate OldestComplete(parts: seq<ConcatPart>, slots: seq<nat>, delivery: Labelling, total: nat, n: nat) {
    forall d :: 0 <= d < n ==> Complete(parts, slots, delivery, d, total)
  }

  /** Exactly when pairing oldest first keeps deliveries apart: every whole message consists of
      fragments of one delivery if and only if the oldest deliveries, as many as there are
      whole messages, all arrived complete. */
  lemma MessagesArePureExactlyWhenOldestAreComplete(
      parts: seq<ConcatPart>, key: Key, slots: seq<nat>, delivery: Labelling, count: nat)
    requires IsGroup(parts, key, slots) && AreDeliveries(parts, slots, delivery, count)
    ensures var queues := Queues(parts, slots, key.total);
            && queues != []
            && AllReach(queues, Shortest(queues))
            && (AllPure(queues, Shortest(queues), delivery) <==>
                OldestComplete(parts, slots, delivery, key.total, Shortest(queues)))
  {
    hide Queue, Queues, AreDeliveries, Complete, SameDelivery, Shortest;
    var queues := Queues(parts, slots, key.total);
    QueuesInRange(parts, slots, key.total);
    ShortestBounds(queues);
    var whole := Shortest(queues);
    WholeAtMostCount(parts, key, slots, delivery, count);
    if OldestComplete(parts, slots, delivery, key.total, whole) {
      forall r | 0 <= r < whole
        ensures SameDelivery(Row(queues, r), delivery)
      {
        CompleteMeansPure(parts, key, slots, delivery, count, r);
      }
    }
    if AllPure(queues, whole, delivery) {
      forall d | 0 <= d < whole
        ensures Complete(parts, slots, delivery, d, key.total)
      {
        PureMeansComplete(parts, key, slots, delivery, count, d);
      }
    }
  }

  lemma CompleteMeansPure(parts: seq<ConcatPart>, key: Key, slots: seq<nat>, delivery: Labelling, count: nat, r: nat)
    requires IsGroup(parts, key, slots) && AreDeliveries(parts, slots, delivery, count)
    requires AllReach(Queues(parts, slots, key.total), r + 1)
    requires OldestComplete(parts, slots, delivery, key.total, r + 1)
    ensures SameDelivery(Row(Queues(parts, slots, key.total), r), delivery)
  {
    hide Queue, Queues, AreDeliveries;
    var queues := Queues(parts, slots, key.total);
    QueuesInRange(parts, slots, key.total);
    var row := Row(queues, r);
    RowElements(parts, queues, r);
    forall i | 0 <= i < |row|
      ensures delivery(row[i]) == r
    {
      RowIsDelivery(parts, key, slots, delivery, count, r, i);
    }
  }

  lemma RowIsDelivery(parts: seq<ConcatPart>, key: Key, slots: seq<nat>, delivery: Labelling, count: nat, r: nat, i: nat)
    requires IsGroup(parts, key, slots) && AreDeliveries(parts, slots, delivery, count) && i < key.total
    requires OldestComplete(parts, slots, delivery, key.total, r + 1)
    ensures |Queues(parts, slots, key.total)| == key.total && r < |Queues(parts, slots, key.total)[i]|
    ensures delivery(Queues(parts, slots, key.total)[i][r]) == r
  {
    QueuesInRange(parts, slots, key.total);
    CompleteKeepsTogether(parts, slots, delivery, count, key.total, r, i + 1);
  }

  lemma WholeAtMostCount(parts: seq<ConcatPart>, key: Key, slots: seq<nat>, delivery: Labelling, count: nat)
    requires IsGroup(parts, key, slots) && AreDeliveries(parts, slots, delivery, count)
    ensures Queues(parts, slots, key.total) != [] && Shortest(Queues(parts, slots, key.total)) <= count
  {
    var queues := Queues(parts, slots, key.total);
    QueuesInRange(parts, slots, key.total);
    ShortestBounds(queues);
    var queue := Queue(parts, slots, 1);
    assert queues[0] == queue;
    assert forall i :: 0 <= i < |queue| ==> queue[i] in queue;
    if |queue| > count {
      QueueFollowsDeliveries(parts, slots, delivery, count, 1);
      LabelsAtLeastIndex(queue, delivery, count);
      QueueMembers(parts, slots, 1);
    }
  }

  lemma PureMeansComplete(parts: seq<ConcatPart>, key: Key, slots: seq<nat>, delivery: Labelling, count: nat, d: nat)
    requires IsGroup(parts, key, slots) && AreDeliveries(parts, slots, delivery, count)
    requires d < count && AllReach(Queues(parts, slots, key.total), d + 1)
    requires AllPure(Queues(parts, slots, key.total), d + 1, delivery)
    ensures Complete(parts, slots, delivery, d, key.total)
  {
    hide Queue, Queues, AllPure, InDeliveryOrder, ReachesSome, AreDeliveries;
    var queues := Queues(parts, slots, key.total);
    QueuesInRange(parts, slots, key.total);
    forall j | 0 <= j < |queues|
      ensures InDeliveryOrder(queues[j], delivery)
    {
      QueueFollowsDeliveries(parts, slots, delivery, count, j + 1);
    }
    forall e | 0 <= e < count
      ensures ReachesSome(queues, delivery, e)
    {
      QueuedSomewhere(parts, key, slots, delivery, count, e);
    }
    forall s | 1 <= s <= key.total
      ensures Arrived(parts, slots, delivery, d, s)
    {
      PureRoundIsItsDelivery(queues, delivery, count, d, s - 1);
      QueueMembers(parts, slots, s);
      var x := queues[s - 1][d];
      assert x in queues[s - 1];
    }
  }

  lemma QueuedSomewhere(parts: seq<ConcatPart>, key: Key, slots: seq<nat>, delivery: Labelling, count: nat, d: nat)
    requires IsGroup(parts, key, slots) && AreDeliveries(parts, slots, delivery, count) && d < count
    ensures ReachesSome(Queues(parts, slots, key.total), delivery, d)
  {
    var queues := Queues(parts, slots, key.total);
    QueuesInRange(parts, slots, key.total);
    assert Reaches(slots, delivery, d);
    var x :| x in slots && delivery(x) == d;
    var i :| 0 <= i < |slots| && slots[i] == x;
    assert !Standalone(parts[x]) && KeyOf(parts[x]) == key;
    var s := parts[x].seqNo;
    QueueMembers(parts, slots, s);
    assert x in queues[s - 1];
    assert Reaches(queues[s - 1], delivery, d);
  }

  /** Complete deliveries: each comes out as its own message, oldest first, nothing is left. */
  lemma CompleteDeliveriesComeOutWhole(
      parts: seq<ConcatPart>, key: Key, slots: seq<nat>, delivery: Labelling, count: nat, now: i64, grace: i64)
    requires IsGroup(parts, key, slots) && AreDeliveries(parts, slots, delivery, count)
    requires OldestComplete(parts, slots, delivery, key.total, count)
    ensures var o := GroupOutcome(parts, key, slots, now, grace);
            && |o.assembled| == count
            && o.pending == []
            && forall r, i :: 0 <= r < count && 0 <= i < |o.assembled[r].sources| ==> delivery(o.assembled[r].sources[i]) == r
  {
    var queues := Queues(parts, slots, key.total);
    QueuesInRange(parts, slots, key.total);
    forall i | 0 <= i < |queues|
      ensures |queues[i]| == count
    {
      QueueHoldsOneEach(parts, key, slots, delivery, count, i + 1);
    }
    ShortestBounds(queues);
    assert Shortest(queues) == count;
    NoTails(queues, count);
    assert Sort(Ascending(), []) == [];
    forall r | 0 <= r < count
      ensures |WholeMessages(parts, key, queues, count)| == count
      ensures WholeMessages(parts, key, queues, count)[r].sources == Row(queues, r)
    {
      WholeMessageAt(parts, key, queues, count, r);
    }
    WholeMessageCount(parts, key, queues, count);
    forall r, i | 0 <= r < count && 0 <= i < |Row(queues, r)|
      ensures delivery(Row(queues, r)[i]) == r
    {
      RowElements(parts, queues, r);
      RowIsDelivery(parts, key, slots, delivery, count, r, i);
    }
  }

  lemma QueueHoldsOneEach(parts: seq<ConcatPart>, key: Key, slots: seq<nat>, delivery: Labelling, count: nat, s: nat)
    requires IsGroup(parts, key, slots) && AreDeliveries(parts, slots, delivery, count)
    requires OldestComplete(parts, slots, delivery, key.total, count) && 1 <= s <= key.total
    ensures |Queue(parts, slots, s)| == count
  {
    var queue := Queue(parts, slots, s);
    if count > 0 {
      CompleteKeepsTogether(parts, slots, delivery, count, key.total, count - 1, s);
    }
    QueueMembers(parts, slots, s);
    assert forall i :: 0 <= i < |queue| ==> queue[i] in queue;
    if |queue| > count {
      QueueFollowsDeliveries(parts, slots, delivery, count, s);
      LabelsAtLeastIndex(queue, delivery, count);
    }
  }

  lemma {:induction false} NoTails(queues: seq<seq<nat>>, n: nat)
    requires forall i :: 0 <= i < |queues| ==> |queues[i]| == n
    ensures Tails(queues, n) == []
  {
    if queues != [] {
      NoTails(queues[..|queues| - 1], n);
    }
  }

  lemma {:induction false} WholeMessageCount(parts: seq<ConcatPart>, key: Key, queues: seq<seq<nat>>, n: nat)
    requires AllInRange(parts, queues) && AllReach(queues, n)
    ensures |WholeMessages(parts, key, queues, n)| == n
  {
    if n > 0 {
      WholeMessageCount(parts, key, queues, n - 1);
    }
  }

  lemma {:induction false} WholeMessageAt(parts: seq<ConcatPart>, key: Key, queues: seq<seq<nat>>, n: nat, r: nat)
    requires AllInRange(parts, queues) && AllReach(queues, n) && r < n
    ensures |WholeMessages(parts, key, queues, n)| == n
    ensures WholeMessages(parts, key, queues, n)[r].sources == Row(queues, r)
  {
    WholeMessageCount(parts, key, queues, n - 1);
    if r < n - 1 {
      WholeMessageAt(parts, key, queues, n - 1, r);
    }
  }

  // ----- The same at the messages a pass returns -------------------------------

  /** The message was made from rows of this group. */
  ghost predicate IsOf(parts: seq<ConcatPart>, m: AssembledSms, key: Key) {
    m.sources != [] && m.sources[0] < |parts| && !Standalone(parts[m.sources[0]]) && KeyOf(parts[m.sources[0]]) == key
  }

  /** The queues of all the rows of a group. */
  ghost function AllQueues(parts: seq<ConcatPart>, key: Key): (queues: seq<seq<nat>>)
    requires 2 <= key.total
    ensures queues != [] && QueuesOf(parts, key, queues) && AllReach(queues, Shortest(queues))
  {
    hide Queues, Slots;
    SlotsAreGroup(parts, key, |parts|);
    var slots := Slots(parts, key, |parts|);
    QueuesInRange(parts, slots, key.total);
    GroupQueues(parts, key, slots);
    ShortestBounds(Queues(parts, slots, key.total));
    Queues(parts, slots, key.total)
  }

  /** The whole messages that can be made from them, oldest first. */
  ghost function Whole(parts: seq<ConcatPart>, key: Key): seq<AssembledSms>
    requires 2 <= key.total
  {
    var queues := AllQueues(parts, key);
    WholeMessages(parts, key, queues, Shortest(queues))
  }

  ghost predicate InGroup(parts: seq<ConcatPart>, key: Key, now: i64, grace: i64, m: AssembledSms)
    requires 2 <= key.total
  {
    SlotsAreGroup(parts, key, |parts|);
    m in GroupOutcome(parts, key, Slots(parts, key, |parts|), now, grace).assembled
  }

  lemma {:induction false} InSomeGroup(parts: seq<ConcatPart>, order: seq<Key>, now: i64, grace: i64, m: AssembledSms)
    requires forall key :: key in order ==> 2 <= key.total
    ensures m in GroupsOutcome(parts, order, now, grace).assembled <==>
            exists key :: key in order && InGroup(parts, key, now, grace, m)
    decreases |order|
  {
    hide GroupOutcome, Slots;
    if order != [] {
      var rest, last := order[..|order| - 1], order[|order| - 1];
      InSomeGroup(parts, rest, now, grace, m);
      var before := GroupsOutcome(parts, rest, now, grace).assembled;
      assert m in GroupsOutcome(parts, order, now, grace).assembled <==> m in before || InGroup(parts, last, now, grace, m);
      assert forall key :: key in order <==> key in rest || key == last;
    }
  }

  lemma {:induction false} WholeMessagesAreOfTheirGroup(parts: seq<ConcatPart>, key: Key, queues: seq<seq<nat>>, n: nat, m: AssembledSms)
    requires 2 <= key.total && QueuesOf(parts, key, queues) && AllReach(queues, n)
    requires forall i, j :: 0 <= i < |queues| && 0 <= j < |queues[i]| ==> !Standalone(parts[queues[i][j]])
    requires m in WholeMessages(parts, key, queues, n)
    ensures IsOf(parts, m, key) && m.missing == []
    decreases n
  {
    var rest := WholeMessages(parts, key, queues, n - 1);
    if m in rest {
      WholeMessagesAreOfTheirGroup(parts, key, queues, n - 1, m);
    } else {
      RowElements(parts, queues, n - 1);
    }
  }

  lemma QueuedAreFragments(parts: seq<ConcatPart>, key: Key)
    requires 2 <= key.total
    ensures var queues := AllQueues(parts, key);
            forall i, j :: 0 <= i < |queues| && 0 <= j < |queues[i]| ==> !Standalone(parts[queues[i][j]])
  {
    hide Queues, Queue, Slots;
    var queues := AllQueues(parts, key);
    assert forall i, j :: 0 <= i < |queues| && 0 <= j < |queues[i]| ==> parts[queues[i][j]].seqNo == i + 1;
  }

  /** A message of a group is whole exactly if it lacks nothing. */
  lemma GroupMessage(parts: seq<ConcatPart>, key: Key, now: i64, grace: i64, m: AssembledSms)
    requires 2 <= key.total
    ensures InGroup(parts, key, now, grace, m) ==> IsOf(parts, m, key) && (m.missing == [] <==> m in Whole(parts, key))
    ensures m in Whole(parts, key) ==> InGroup(parts, key, now, grace, m) && IsOf(parts, m, key) && m.missing == []
  {
    hide Queues, Slots, Sort, Tails, Shortest, FilledBody;
    SlotsAreGroup(parts, key, |parts|);
    var queues := AllQueues(parts, key);
    QueuedAreFragments(parts, key);
    if m in Whole(parts, key) {
      WholeMessagesAreOfTheirGroup(parts, key, queues, Shortest(queues), m);
    } else if InGroup(parts, key, now, grace, m) {
      ReleasedIsReleased(parts, key, queues, now, grace);
      var gap := LeftoversHaveAGap(parts, key, queues);
    }
  }

  /** The messages of a pass that are whole and of one group are just those. */
  lemma WholeMessagesOfThePass(parts: seq<ConcatPart>, key: Key, now: i64, grace: i64, m: AssembledSms)
    requires 2 <= key.total
    ensures m in Assembly(parts, now, grace).assembled && m.missing == [] && IsOf(parts, m, key) <==> m in Whole(parts, key)
  {
    hide Keys, KeyOrder, Singles, GroupsOutcome, Whole, InGroup;
    var keys := Keys(parts, |parts|);
    var order := KeyOrder(keys);
    OrderCoversKeys(keys);
    KeysAreOfFragments(parts);
    InSomeGroup(parts, order, now, grace, m);
    GroupMessage(parts, key, now, grace, m);
    SinglesPassThrough(parts, |parts|);
    if IsOf(parts, m, key) {
      KeyOfFragment(parts, m.sources[0]);
    }
    if other :| other in order && InGroup(parts, other, now, grace, m) {
      GroupMessage(parts, other, now, grace, m);
    }
  }

  lemma KeysAreOfFragments(parts: seq<ConcatPart>)
    ensures forall key :: key in Keys(parts, |parts|) ==> 2 <= key.total
  {
  }

  lemma KeyOfFragment(parts: seq<ConcatPart>, x: nat)
    requires x < |parts| && !Standalone(parts[x])
    ensures KeyOf(parts[x]) in Keys(parts, |parts|)
  {
  }

  /** Exactly when the messages the assembler returns keep deliveries apart: every whole message of a
      group is of one delivery if and only if the oldest deliveries, as many as the group has whole
      messages, all arrived complete. */
  lemma AssembledArePureExactlyWhenOldestAreComplete(
      parts: seq<ConcatPart>, key: Key, delivery: Labelling, count: nat, now: i64, grace: i64)
    requires 2 <= key.total && AreDeliveries(parts, Slots(parts, key, |parts|), delivery, count)
    ensures (forall m :: m in Assembly(parts, now, grace).assembled && m.missing == [] && IsOf(parts, m, key) ==>
               SameDelivery(m.sources, delivery)) <==>
            OldestComplete(parts, Slots(parts, key, |parts|), delivery, key.total, |Whole(parts, key)|)
  {
    hide Queues, Slots, Assembly, IsOf, AreDeliveries, Complete, SameDelivery, Shortest;
    SlotsAreGroup(parts, key, |parts|);
    var slots := Slots(parts, key, |parts|);
    var queues := AllQueues(parts, key);
    var n := Shortest(queues);
    MessagesArePureExactlyWhenOldestAreComplete(parts, key, slots, delivery, count);
    WholeMessageCount(parts, key, queues, n);
    forall r | 0 <= r < n
      ensures Whole(parts, key)[r].sources == Row(queues, r)
    {
      WholeMessageAt(parts, key, queues, n, r);
    }
    forall m
      ensures m in Assembly(parts, now, grace).assembled && m.missing == [] && IsOf(parts, m, key) <==> m in Whole(parts, key)
    {
      WholeMessagesOfThePass(parts, key, now, grace, m);
    }
    assert forall r :: 0 <= r < n ==> Whole(parts, key)[r] in Whole(parts, key);
  }

  const CrossedRows: seq<ConcatPart> :=
    [ConcatPart("10086", 7, 2, 1, "old-", Some(1000)),
     ConcatPart("10086", 7, 2, 1, "new-", Some(9000)),
     ConcatPart("10086", 7, 2, 2, "end", Some(9000))]

  lemma SortOne(less: Order, a: nat)
    ensures Sort(less, [a]) == [a]
  {
    assert [a][1..] == [];
  }

  lemma SortSmall(less: Order, a: nat, b: nat)
    requires less(a, b) && !less(b, a)
    ensures Sort(less, [a, b]) == [a, b]
  {
    assert [a, b][1..] == [b];
    SortOne(less, b);
  }

  lemma BySeqOfThree(parts: seq<ConcatPart>, s: int)
    requires |parts| == 3
    ensures BySeq(parts, [0, 1, 2], s) ==
            (if parts[0].seqNo == s then [0] else []) + (if parts[1].seqNo == s then [1] else []) +
            (if parts[2].seqNo == s then [2] else [])
  {
    var slots: seq<nat> := [0, 1, 2];
    assert slots[..2] == [0, 1] && slots[..2][..1] == [0] && slots[..2][..1][..0] == [];
    assert BySeq(parts, slots[..2][..1], s) == if parts[0].seqNo == s then [0] else [];
  }

  lemma CrossedQueues()
    ensures Queues(CrossedRows, [0, 1, 2], 2) == [[0, 1], [2]]
  {
    var slots: seq<nat> := [0, 1, 2];
    BySeqOfThree(CrossedRows, 1);
    BySeqOfThree(CrossedRows, 2);
    SortSmall(ByAge(CrossedRows), 0, 1);
    SortOne(ByAge(CrossedRows), 2);
    var one := Queue(CrossedRows, slots, 1);
    var two := Queue(CrossedRows, slots, 2);
    assert one == [0, 1];
    assert two == [2];
    assert Queues(CrossedRows, slots, 1) == [] + [one];
    assert Queues(CrossedRows, slots, 2) == [one] + [two];
  }

  lemma TwoAndOne(a: nat, b: nat, c: nat)
    ensures var queues := [[a, b], [c]];
            AllReach(queues, 1) && Shortest(queues) == 1 && Row(queues, 0) == [a, c]
  {
    var queues := [[a, b], [c]];
    assert queues[..1] == [[a, b]];
    assert Shortest(queues[..1]) == 2;
    assert Row(queues[..1][..0], 0) == [];
    assert Row(queues[..1], 0) == [a];
  }

  lemma TwoBodies(parts: seq<ConcatPart>, a: nat, c: nat)
    requires a < |parts| && c < |parts|
    ensures Bodies(parts, [a, c]) == parts[a].body + parts[c].body
  {
    assert [a, c][..1] == [a] && [a][..0] == [];
    assert Bodies(parts, []) == [];
    assert Bodies(parts, [a]) == parts[a].body;
  }

  lemma CrossedRow()
    ensures InRange(CrossedRows, [0, 1, 2])
    ensures var queues := Queues(CrossedRows, [0, 1, 2], 2);
            && queues == [[0, 1], [2]] && AllReach(queues, 1)
            && Shortest(queues) == 1
            && Row(queues, 0) == [0, 2]
            && Bodies(CrossedRows, [0, 2]) == "old-" + "end"
  {
    hide Queues, Row, Bodies, Shortest;
    CrossedQueues();
    TwoAndOne(0, 1, 2);
    TwoBodies(CrossedRows, 0, 2);
  }

  const CrossedKey := Key("10086", 7, 2)

  lemma CrossedSlots()
    ensures Slots(CrossedRows, CrossedKey, 3) == [0, 1, 2]
    ensures Singles(CrossedRows, 3) == []
    ensures Keys(CrossedRows, 3) == {CrossedKey}
  {
    assert Slots(CrossedRows, CrossedKey, 1) == [] + [0];
    assert Slots(CrossedRows, CrossedKey, 2) == [0] + [1];
    assert Singles(CrossedRows, 1) == [];
    assert !Standalone(CrossedRows[0]) && KeyOf(CrossedRows[0]) == CrossedKey;
  }

  lemma OneKeyInOrder(key: Key)
    ensures KeyOrder({key}) == [key]
  {
    OrderCoversKeys({key});
    KeyOrderNoRepeats({key});
    var order := KeyOrder({key});
    assert forall i :: 0 <= i < |order| ==> order[i] in order;
  }

  lemma CrossedGroup(now: i64, grace: i64)
    ensures IsGroup(CrossedRows, CrossedKey, [0, 1, 2])
    ensures var first := GroupOutcome(CrossedRows, CrossedKey, [0, 1, 2], now, grace).assembled;
            first != [] && first[0] == AssembledSms("10086", "old-end", 2, [0, 2], [])
  {
    hide Queues, Row, Bodies, Shortest, Tails, Sort, Released, Expired;
    CrossedRow();
    var queues := Queues(CrossedRows, [0, 1, 2], 2);
    QueuesInRange(CrossedRows, [0, 1, 2], 2);
    assert WholeMessages(CrossedRows, CrossedKey, queues, 0) == [];
    assert WholeMessages(CrossedRows, CrossedKey, queues, 1) == [] + [WholeMessage(CrossedRows, CrossedKey, queues, 0)];
  }

  /** Oldest-first pairing does cross deliveries when an older one is incomplete: the first message the
      assembler returns for these rows is the lone first half of one message joined to the second half
      of the next, and it is reported as whole. */
  lemma AnIncompleteDeliveryIsCrossed(now: i64, grace: i64)
    ensures var assembled := Assembly(CrossedRows, now, grace).assembled;
            assembled != [] && assembled[0] == AssembledSms("10086", "old-end", 2, [0, 2], [])
  {
    hide GroupOutcome, Slots, Singles, Keys, KeyOrder;
    CrossedSlots();
    OneKeyInOrder(CrossedKey);
    CrossedGroup(now, grace);
    var order := [CrossedKey];
    assert order[..0] == [];
    assert GroupsOutcome(CrossedRows, [], now, grace) == Outcome([], []);
    var here := GroupOutcome(CrossedRows, CrossedKey, [0, 1, 2], now, grace);
    assert GroupsOutcome(CrossedRows, order, now, grace).assembled == [] + here.assembled;
  }

  // ----- Looking again -------------------------------------------------------

  /** The rows at these positions, in this order. */
  function Pick(parts: seq<ConcatPart>, slots: seq<nat>): seq<ConcatPart>
    requires InRange(parts, slots)
  {
    seq(|slots|, i requires 0 <= i < |slots| => parts[slots[i]])
  }

  function FlatMap(order: seq<Key>, f: Key -> seq<nat>): seq<nat> {
    if order == [] then [] else FlatMap(order[..|order| - 1], f) + f(order[|order| - 1])
  }

  lemma {:induction false} FlatMapMembers(order: seq<Key>, f: Key -> seq<nat>, x: nat)
    ensures x in FlatMap(order, f) <==> exists key :: key in order && x in f(key)
  {
    if order != [] {
      FlatMapMembers(order[..|order| - 1], f, x);
      assert order == order[..|order| - 1] + [order[|order| - 1]];
    }
  }

  /** The rows each group of a pass leaves waiting. */
  function Waiting(parts: seq<ConcatPart>, now: i64, grace: i64): Key -> seq<nat> {
    (key: Key) =>
      if key.total < 2 then []
      else
        SlotsAreGroup(parts, key, |parts|);
        GroupOutcome(parts, key, Slots(parts, key, |parts|), now, grace).pending
  }

  /** The messages each group of a pass gives. */
  function Given(parts: seq<ConcatPart>, now: i64, grace: i64): Key -> seq<AssembledSms> {
    (key: Key) =>
      if key.total < 2 then []
      else
        SlotsAreGroup(parts, key, |parts|);
        GroupOutcome(parts, key, Slots(parts, key, |parts|), now, grace).assembled
  }

  lemma {:induction false} PendingIsWaiting(parts: seq<ConcatPart>, order: seq<Key>, now: i64, grace: i64)
    requires forall key :: key in order ==> 2 <= key.total
    ensures GroupsOutcome(parts, order, now, grace).pending == FlatMap(order, Waiting(parts, now, grace))
  {
    if order != [] {
      SlotsAreGroup(parts, order[|order| - 1], |parts|);
      PendingIsWaiting(parts, order[..|order| - 1], now, grace);
    }
  }

  lemma {:induction false} NothingGiven(parts: seq<ConcatPart>, order: seq<Key>, now: i64, grace: i64)
    requires forall key :: key in order ==> 2 <= key.total && Given(parts, now, grace)(key) == []
    ensures GroupsOutcome(parts, order, now, grace).assembled == []
  {
    if order != [] {
      SlotsAreGroup(parts, order[|order| - 1], |parts|);
      NothingGiven(parts, order[..|order| - 1], now, grace);
    }
  }

  /** What a group that leaves rows waiting looks like: one sequence number is missing from
      all of them, and their newest stamp is not old enough. */
  lemma WaitingGroup(parts: seq<ConcatPart>, key: Key, now: i64, grace: i64) returns (gap: nat)
    requires Waiting(parts, now, grace)(key) != []
    ensures var left := Waiting(parts, now, grace)(key);
            && InRange(parts, left)
            && 1 <= gap <= key.total
            && (forall i :: 0 <= i < |left| ==>
                  !Standalone(parts[left[i]]) && KeyOf(parts[left[i]]) == key && parts[left[i]].seqNo != gap)
            && !Expired(parts, left, now, grace)
  {
    hide QueuesOutcome, Queues, Sort, Tails, Shortest, Expired, Slots;
    SlotsAreGroup(parts, key, |parts|);
    var slots := Slots(parts, key, |parts|);
    GroupQueues(parts, key, slots);
    var queues := Queues(parts, slots, key.total);
    gap := LeftoversHaveAGap(parts, key, queues);
    QueuesPending(parts, key, queues, now, grace);
  }

  lemma QueuesPending(parts: seq<ConcatPart>, key: Key, queues: seq<seq<nat>>, now: i64, grace: i64)
    requires queues != [] && AllInRange(parts, queues)
    ensures AllReach(queues, Shortest(queues))
    ensures var pending := QueuesOutcome(parts, key, queues, now, grace).pending;
            pending != [] ==>
              && pending == Sort(Ascending(), Tails(queues, Shortest(queues)))
              && InRange(parts, pending)
              && !Expired(parts, pending, now, grace)
  {
    ShortestBounds(queues);
    TailsInRange(parts, queues, Shortest(queues));
  }

  ghost function Pending(parts: seq<ConcatPart>, now: i64, grace: i64): seq<nat> {
    Assembly(parts, now, grace).pending
  }

  lemma PendingMembers(parts: seq<ConcatPart>, now: i64, grace: i64, x: nat)
    ensures x in Pending(parts, now, grace) <==>
            exists key :: key in Keys(parts, |parts|) && x in Waiting(parts, now, grace)(key)
  {
    var keys := Keys(parts, |parts|);
    OrderCoversKeys(keys);
    PendingIsWaiting(parts, KeyOrder(keys), now, grace);
    FlatMapMembers(KeyOrder(keys), Waiting(parts, now, grace), x);
  }

  /** A waiting row waits with its own group. */
  lemma PendingRow(parts: seq<ConcatPart>, now: i64, grace: i64, x: nat)
    requires x in Pending(parts, now, grace)
    ensures x < |parts| && !Standalone(parts[x]) && x in Waiting(parts, now, grace)(KeyOf(parts[x]))
  {
    PendingMembers(parts, now, grace, x);
    var key :| key in Keys(parts, |parts|) && x in Waiting(parts, now, grace)(key);
    var left := Waiting(parts, now, grace)(key);
    var gap := WaitingGroup(parts, key, now, grace);
    var i :| 0 <= i < |left| && left[i] == x;
  }

  lemma WaitingRow(parts: seq<ConcatPart>, now: i64, grace: i64, key: Key, x: nat)
    requires x in Waiting(parts, now, grace)(key)
    ensures x in Pending(parts, now, grace)
  {
    var left := Waiting(parts, now, grace)(key);
    var gap := WaitingGroup(parts, key, now, grace);
    var i :| 0 <= i < |left| && left[i] == x;
    assert KeyOf(parts[x]) in Keys(parts, |parts|);
    PendingMembers(parts, now, grace, x);
  }

  lemma PendingInRange(parts: seq<ConcatPart>, now: i64, grace: i64)
    ensures InRange(parts, Pending(parts, now, grace))
  {
    var pending := Pending(parts, now, grace);
    forall i | 0 <= i < |pending|
      ensures pending[i] < |parts|
    {
      PendingRow(parts, now, grace, pending[i]);
    }
  }

  ghost function StillWaiting(parts: seq<ConcatPart>, now: i64, grace: i64): seq<ConcatPart> {
    PendingInRange(parts, now, grace);
    Pick(parts, Pending(parts, now, grace))
  }

  /** On the second look, no queue of the missing sequence number has anything in it. */
  lemma AgainNothingWhole(parts: seq<ConcatPart>, now: i64, grace: i64, key: Key, slots: seq<nat>, gap: nat)
    requires 2 <= key.total && 1 <= gap <= key.total
    requires InRange(parts, Waiting(parts, now, grace)(key))
    requires var left := Waiting(parts, now, grace)(key);
             forall i :: 0 <= i < |left| ==> parts[left[i]].seqNo != gap
    requires slots == Slots(StillWaiting(parts, now, grace), key, |StillWaiting(parts, now, grace)|)
    ensures InRange(StillWaiting(parts, now, grace), slots)
    ensures var queues := Queues(StillWaiting(parts, now, grace), slots, key.total);
            queues != [] && Shortest(queues) == 0
  {
    hide Slots, Queue, Shortest, Assembly, Waiting;
    var again := StillWaiting(parts, now, grace);
    var pending := Pending(parts, now, grace);
    SlotsMembers(again, key, |again|);
    SlotsAreGroup(again, key, |again|);
    QueuesInRange(again, slots, key.total);
    var queues := Queues(again, slots, key.total);
    ShortestBounds(queues);
    QueueMembers(again, slots, gap);
    var queue := queues[gap - 1];
    if queue != [] {
      var x := queue[0];
      assert x in queue && x in slots;
      PendingRow(parts, now, grace, pending[x]);
    }
  }

  ghost predicate Carries(parts: seq<ConcatPart>, slots: seq<nat>, stamp: Option<i64>)
    requires InRange(parts, slots)
  {
    exists i :: 0 <= i < |slots| && parts[slots[i]].receivedAt == stamp
  }

  lemma NewestByStamps(parts: seq<ConcatPart>, slots: seq<nat>, other: seq<ConcatPart>, rows: seq<nat>)
    requires InRange(parts, slots) && InRange(other, rows)
    requires forall stamp :: Carries(parts, slots, stamp) <==> Carries(other, rows, stamp)
    ensures Newest(parts, slots) == Newest(other, rows)
  {
    NewestIsLatest(parts, slots);
    NewestIsLatest(other, rows);
    var a := Newest(parts, slots);
    var b := Newest(other, rows);
    if a.Some? {
      assert Carries(parts, slots, a) && Carries(other, rows, a);
    }
    if b.Some? {
      assert Carries(other, rows, b) && Carries(parts, slots, b);
    }
  }

  lemma AgainSameStamps(parts: seq<ConcatPart>, now: i64, grace: i64, key: Key, rows: seq<nat>, stamp: Option<i64>)
    requires InRange(parts, Waiting(parts, now, grace)(key)) && InRange(StillWaiting(parts, now, grace), rows)
    requires var again := StillWaiting(parts, now, grace);
             forall x :: x in rows <==> 0 <= x < |again| && KeyOf(again[x]) == key
    requires forall x :: x in Waiting(parts, now, grace)(key) ==> KeyOf(parts[x]) == key
    ensures Carries(parts, Waiting(parts, now, grace)(key), stamp) <==> Carries(StillWaiting(parts, now, grace), rows, stamp)
  {
    var again := StillWaiting(parts, now, grace);
    var pending := Pending(parts, now, grace);
    var left := Waiting(parts, now, grace)(key);
    if Carries(parts, left, stamp) {
      var i :| 0 <= i < |left| && parts[left[i]].receivedAt == stamp;
      WaitingRow(parts, now, grace, key, left[i]);
      var y :| 0 <= y < |pending| && pending[y] == left[i];
      assert again[y] == parts[left[i]];
      assert y in rows;
      var z :| 0 <= z < |rows| && rows[z] == y;
    }
    if Carries(again, rows, stamp) {
      var i :| 0 <= i < |rows| && again[rows[i]].receivedAt == stamp;
      assert rows[i] in rows;
      var x := pending[rows[i]];
      PendingRow(parts, now, grace, x);
      var j :| 0 <= j < |left| && left[j] == x;
    }
  }

  /** Nor has the group grown old: its stamps are the same. */
  lemma AgainNotExpired(parts: seq<ConcatPart>, now: i64, grace: i64, key: Key, rows: seq<nat>)
    requires Waiting(parts, now, grace)(key) != []
    requires var again := StillWaiting(parts, now, grace);
             forall x :: x in rows <==> 0 <= x < |again| && KeyOf(again[x]) == key
    ensures InRange(StillWaiting(parts, now, grace), rows)
    ensures !Expired(StillWaiting(parts, now, grace), rows, now, grace)
  {
    var again := StillWaiting(parts, now, grace);
    var left := Waiting(parts, now, grace)(key);
    var gap := WaitingGroup(parts, key, now, grace);
    assert forall i :: 0 <= i < |rows| ==> rows[i] in rows;
    forall stamp
      ensures Carries(parts, left, stamp) <==> Carries(again, rows, stamp)
    {
      AgainSameStamps(parts, now, grace, key, rows, stamp);
    }
    NewestByStamps(parts, left, again, rows);
  }

  lemma {:induction false} TailsFromStart(queues: seq<seq<nat>>, x: nat)
    ensures x in Tails(queues, 0) <==> exists i :: 0 <= i < |queues| && x in queues[i]
  {
    TailsContents(queues, 0);
    if i :| 0 <= i < |queues| && x in queues[i] {
      assert queues[i][0..] == queues[i];
    }
    if i :| 0 <= i < |queues| && x in queues[i][0..] {
      assert queues[i][0..] == queues[i];
    }
  }

  /** With nothing whole, the leftovers are the whole group. */
  lemma LeftoversAreTheGroup(parts: seq<ConcatPart>, key: Key, x: nat)
    requires 2 <= key.total
    requires InRange(parts, Slots(parts, key, |parts|))
    ensures var queues := Queues(parts, Slots(parts, key, |parts|), key.total);
            x in Sort(Ascending(), Tails(queues, 0)) <==>
            x < |parts| && !Standalone(parts[x]) && KeyOf(parts[x]) == key
  {
    hide Queue, Queues, Sort, Tails, Slots;
    var slots := Slots(parts, key, |parts|);
    var queues := Queues(parts, slots, key.total);
    QueuesInRange(parts, slots, key.total);
    SortContents(Ascending(), Tails(queues, 0));
    SameMembers(Sort(Ascending(), Tails(queues, 0)), Tails(queues, 0));
    TailsFromStart(queues, x);
    SlotsMembers(parts, key, |parts|);
    if x in slots {
      QueueMembers(parts, slots, parts[x].seqNo);
      assert x in queues[parts[x].seqNo - 1];
    }
    if i :| 0 <= i < |queues| && x in queues[i] {
      QueueMembers(parts, slots, i + 1);
    }
  }

  lemma AgainGivesNothing(parts: seq<ConcatPart>, now: i64, grace: i64, key: Key)
    requires 2 <= key.total && Waiting(parts, now, grace)(key) != []
    ensures Given(StillWaiting(parts, now, grace), now, grace)(key) == []
  {
    var again := StillWaiting(parts, now, grace);
    SlotsAreGroup(again, key, |again|);
    var slots := Slots(again, key, |again|);
    var gap := WaitingGroup(parts, key, now, grace);
    AgainNothingWhole(parts, now, grace, key, slots, gap);
    var queues := Queues(again, slots, key.total);
    QueuesInRange(again, slots, key.total);
    var rows := Sort(Ascending(), Tails(queues, 0));
    forall x
      ensures x in rows <==> 0 <= x < |again| && KeyOf(again[x]) == key
    {
      if 0 <= x {
        LeftoversAreTheGroup(again, key, x);
        if x < |again| {
          PendingRow(parts, now, grace, Pending(parts, now, grace)[x]);
        }
      }
    }
    AgainNotExpired(parts, now, grace, key, rows);
    NothingFromQueues(again, key, queues, now, grace);
  }

  lemma NothingFromQueues(parts: seq<ConcatPart>, key: Key, queues: seq<seq<nat>>, now: i64, grace: i64)
    requires queues != [] && AllInRange(parts, queues) && Shortest(queues) == 0
    requires InRange(parts, Sort(Ascending(), Tails(queues, 0)))
    requires !Expired(parts, Sort(Ascending(), Tails(queues, 0)), now, grace)
    ensures QueuesOutcome(parts, key, queues, now, grace).assembled == []
  {
  }

  lemma {:induction false} NoSingles(parts: seq<ConcatPart>, n: nat)
    requires n <= |parts| && forall i :: 0 <= i < n ==> !Standalone(parts[i])
    ensures Singles(parts, n) == []
  {
    if n > 0 {
      NoSingles(parts, n - 1);
    }
  }

  /** Running the pass again on only the rows it left waiting, at the same instant, completes
      nothing, releases nothing, and leaves every one of them waiting. */
  lemma LookingAgainChangesNothing(parts: seq<ConcatPart>, now: i64, grace: i64, x: nat)
    ensures var again := StillWaiting(parts, now, grace);
            && Assembly(again, now, grace).assembled == []
            && Times(Pending(again, now, grace), x) == if x < |again| then 1 else 0
  {
    var again := StillWaiting(parts, now, grace);
    var pending := Pending(parts, now, grace);
    forall i | 0 <= i < |again|
      ensures !Standalone(again[i]) && Waiting(parts, now, grace)(KeyOf(again[i])) != []
    {
      PendingRow(parts, now, grace, pending[i]);
    }
    NoSingles(again, |again|);
    var keys := Keys(again, |again|);
    OrderCoversKeys(keys);
    forall key | key in KeyOrder(keys)
      ensures 2 <= key.total && Given(again, now, grace)(key) == []
    {
      AgainGivesNothing(parts, now, grace, key);
    }
    NothingGiven(again, KeyOrder(keys), now, grace);
    EveryRowIsAccountedForOnce(again, now, grace, x);
  }
}
