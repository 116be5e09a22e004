/** `assemble` as the loops that run it: rows are pushed into groups, groups into queues,
    queues are sorted and paired off round by round, and leftovers are released or kept. */
module Assembler {
  import opened Basics
  import opened Sorting
  import opened Concat

  type QueueMap = map<u8, seq<nat>>

  /** The queue under a sequence number, empty when nothing was pushed to it. */
  function Lookup(queues: QueueMap, s: u8): seq<nat> {
    if s in queues then queues[s] else []
  }

  ghost predicate Represents(queues: QueueMap, expected: seq<seq<nat>>) {
    && |expected| < 0x100
    && forall i :: 0 <= i < |expected| ==> Lookup(queues, i + 1) == expected[i]
  }

  method QueueUp(parts: seq<ConcatPart>, slots: seq<nat>) returns (queues: QueueMap)
    requires InRange(parts, slots)
    ensures forall s: u8 :: Lookup(queues, s) == BySeq(parts, slots, s)
  {
    queues := map[];
    for n := 0 to |slots|
      invariant forall s: u8 :: Lookup(queues, s) == BySeq(parts, slots[..n], s)
    {
      var s := parts[slots[n]].seqNo;
      assert slots[..n + 1][..n] == slots[..n];
      queues := queues[s := Lookup(queues, s) + [slots[n]]];
    }
    assert slots[..|slots|] == slots;
  }

  method SortQueues(parts: seq<ConcatPart>, queues: QueueMap) returns (sorted: QueueMap)
    ensures forall s: u8 :: Lookup(sorted, s) == Sort(ByAge(parts), Lookup(queues, s))
  {
    sorted := queues;
    var todo := queues.Keys;
    while todo != {}
      invariant sorted.Keys == queues.Keys && todo <= queues.Keys
      invariant forall s :: s in queues ==>
                  sorted[s] == if s in todo then queues[s] else Sort(ByAge(parts), queues[s])
      decreases |todo|
    {
      var s :| s in todo;
      sorted := sorted[s := Sort(ByAge(parts), sorted[s])];
      todo := todo - {s};
    }
  }

  method CountWhole(queues: QueueMap, total: u8, ghost expected: seq<seq<nat>>) returns (whole: nat)
    requires 1 <= total && Represents(queues, expected) && |expected| == total
    ensures whole == Shortest(expected)
  {
    whole := |Lookup(queues, 1)|;
    var s := 1;
    while s < total
      invariant 1 <= s <= total
      invariant whole == Shortest(expected[..s])
    {
      s := s + 1;
      assert expected[..s][..s - 1] == expected[..s - 1];
      var here := |Lookup(queues, s)|;
      if here < whole {
        whole := here;
      }
    }
    assert expected[..total] == expected;
  }

  method TakeRound(parts: seq<ConcatPart>, key: Key, queues: QueueMap, round: nat, ghost expected: seq<seq<nat>>)
    returns (message: AssembledSms)
    requires Represents(queues, expected) && |expected| == key.total
    requires AllInRange(parts, expected) && AllReach(expected, round + 1)
    ensures message == WholeMessage(parts, key, expected, round)
  {
    var sources: seq<nat> := [];
    var s := 0;
    while s < key.total
      invariant 0 <= s <= key.total
      invariant sources == Row(expected[..s], round)
    {
      assert expected[..s + 1][..s] == expected[..s];
      s := s + 1;
      assert Lookup(queues, s) == expected[s - 1];
      sources := sources + [Lookup(queues, s)[round]];
    }
    assert expected[..s] == expected;
    RowElements(parts, expected, round);
    var body := Join(parts, sources);
    message := AssembledSms(key.sender, body, key.total, sources, []);
  }

  method Join(parts: seq<ConcatPart>, sources: seq<nat>) returns (body: string)
    requires InRange(parts, sources)
    ensures body == Bodies(parts, sources)
  {
    body := [];
    for n := 0 to |sources|
      invariant body == Bodies(parts, sources[..n])
    {
      assert sources[..n + 1][..n] == sources[..n];
      body := body + parts[sources[n]].body;
    }
    assert sources[..|sources|] == sources;
  }

  method Remainder(queues: QueueMap, total: u8, whole: nat, ghost expected: seq<seq<nat>>) returns (left: seq<nat>)
    requires Represents(queues, expected) && |expected| == total && AllReach(expected, whole)
    ensures left == Sort(Ascending(), Tails(expected, whole))
  {
    left := [];
    var s := 0;
    while s < total
      invariant 0 <= s <= total
      invariant left == Tails(expected[..s], whole)
    {
      assert expected[..s + 1][..s] == expected[..s];
      s := s + 1;
      assert Lookup(queues, s) == expected[s - 1];
      left := left + Lookup(queues, s)[whole..];
    }
    assert expected[..s] == expected;
    left := Sort(Ascending(), left);
  }

  method NewestStamp(parts: seq<ConcatPart>, slots: seq<nat>) returns (newest: Option<i64>)
    requires InRange(parts, slots)
    ensures newest == Newest(parts, slots)
  {
    newest := None;
    for n := 0 to |slots|
      invariant newest == Newest(parts, slots[..n])
    {
      assert slots[..n + 1][..n] == slots[..n];
      var here := parts[slots[n]].receivedAt;
      if StampLess(newest, here) {
        newest := here;
      }
    }
    assert slots[..|slots|] == slots;
  }

  method Release(parts: seq<ConcatPart>, key: Key, left: seq<nat>) returns (message: AssembledSms)
    requires InRange(parts, left)
    ensures message == Released(parts, key, left)
  {
    hide Find, MissingMarker;
    var body: string := [];
    var missing: seq<u8> := [];
    var s := 0;
    while s < key.total
      invariant 0 <= s <= key.total
      invariant body == FilledBody(parts, left, key.total, s)
      invariant missing == Gaps(parts, left, s)
    {
      s := s + 1;
      match Find(parts, left, s) {
        case Some(slot) =>
          FindFinds(parts, left, s);
          body := body + parts[slot].body;
        case None =>
          missing := missing + [s];
          body := body + MissingMarker(s, key.total);
      }
    }
    message := AssembledSms(key.sender, body, key.total, left, missing);
  }

  lemma {:induction false} FindFinds(parts: seq<ConcatPart>, slots: seq<nat>, s: int)
    requires InRange(parts, slots)
    ensures match Find(parts, slots, s)
            case Some(slot) => slot in slots && slot < |parts| && parts[slot].seqNo == s
            case None => forall i :: 0 <= i < |slots| ==> parts[slots[i]].seqNo != s
  {
    if slots != [] && parts[slots[0]].seqNo != s {
      FindFinds(parts, slots[1..], s);
      assert slots == [slots[0]] + slots[1..];
    }
  }

  method TakeRounds(parts: seq<ConcatPart>, key: Key, queues: QueueMap, whole: nat, ghost expected: seq<seq<nat>>)
    returns (assembled: seq<AssembledSms>)
    requires Represents(queues, expected) && |expected| == key.total
    requires AllInRange(parts, expected) && AllReach(expected, whole)
    ensures assembled == WholeMessages(parts, key, expected, whole)
  {
    assembled := [];
    for round := 0 to whole
      invariant assembled == WholeMessages(parts, key, expected, round)
    {
      var message := TakeRound(parts, key, queues, round, expected);
      assembled := assembled + [message];
    }
  }

  /** Pairing the queues of one group, and deciding about what is left of them. */
  method SettleQueues(parts: seq<ConcatPart>, key: Key, queues: QueueMap, now: i64, grace: i64, ghost expected: seq<seq<nat>>)
    returns (assembled: seq<AssembledSms>, pending: seq<nat>)
    requires Represents(queues, expected) && 1 <= |expected| == key.total && AllInRange(parts, expected)
    ensures Outcome(assembled, pending) == QueuesOutcome(parts, key, expected, now, grace)
  {
    ShortestBounds(expected);
    var whole := CountWhole(queues, key.total, expected);
    assembled := TakeRounds(parts, key, queues, whole, expected);
    var left := Remainder(queues, key.total, whole, expected);
    TailsInRange(parts, expected, whole);
    if left == [] {
      return assembled, [];
    }
    var newest := NewestStamp(parts, left);
    if !(newest.Some? && SaturatingSub(now, newest.value) > grace) {
      return assembled, left;
    }
    var message := Release(parts, key, left);
    return assembled + [message], [];
  }

  /** One iteration of the loop over groups. */
  method SettleGroup(parts: seq<ConcatPart>, key: Key, slots: seq<nat>, now: i64, grace: i64)
    returns (assembled: seq<AssembledSms>, pending: seq<nat>)
    requires IsGroup(parts, key, slots)
    ensures Outcome(assembled, pending) == GroupOutcome(parts, key, slots, now, grace)
  {
    var unsorted := QueueUp(parts, slots);
    var queues := SortQueues(parts, unsorted);
    ghost var expected := Queues(parts, slots, key.total);
    QueuesInRange(parts, slots, key.total);
    assert Represents(queues, expected);
    assembled, pending := SettleQueues(parts, key, queues, now, grace, expected);
  }

  /** The key a `BTreeMap` yields next. */
  method LeastKey(keys: set<Key>) returns (least: Key)
    requires keys != {}
    ensures IsLeast(least, keys)
  {
    var rest := keys;
    least :| least in rest;
    rest := rest - {least};
    while rest != {}
      invariant rest <= keys && least in keys
      invariant forall j :: j in keys && j !in rest && j != least ==> KeyLess(least, j)
      decreases |rest|
    {
      var k :| k in rest;
      rest := rest - {k};
      KeyLessIsStrictTotal(k, least, k);
      if KeyLess(k, least) {
        forall j | j in keys && j !in rest && j != k
          ensures KeyLess(k, j)
        {
          KeyLessIsStrictTotal(k, least, j);
        }
        least := k;
      }
    }
  }

  lemma KeyOrderStep(keys: set<Key>, least: Key)
    requires IsLeast(least, keys)
    ensures KeyOrder(keys) == [least] + KeyOrder(keys - {least})
  {
    LeastIsUnique(least, KeyOrder(keys)[0], keys);
  }

  /** The first loop: rows that are messages already, and everything else by group. */
  method GroupUp(parts: seq<ConcatPart>) returns (assembled: seq<AssembledSms>, groups: map<Key, seq<nat>>)
    ensures assembled == Singles(parts, |parts|)
    ensures groups.Keys == Keys(parts, |parts|)
    ensures forall k :: k in groups ==> groups[k] == Slots(parts, k, |parts|)
  {
    groups := map[];
    assembled := [];
    for n := 0 to |parts|
      invariant assembled == Singles(parts, n)
      invariant groups.Keys == Keys(parts, n)
      invariant forall k :: k in groups ==> groups[k] == Slots(parts, k, n)
    {
      var part := parts[n];
      if Standalone(part) {
        assembled := assembled + [PassedThrough(part, n)];
      } else {
        var k := KeyOf(part);
        if k !in groups && Slots(parts, k, n) != [] {
          SlotsMembers(parts, k, n);
          assert Slots(parts, k, n)[0] in Slots(parts, k, n);
        }
        groups := groups[k := (if k in groups then groups[k] else []) + [n]];
      }
      KeysGrow(parts, n);
    }
  }

  /** The body of the second loop. */
  method Visit(parts: seq<ConcatPart>, key: Key, slots: seq<nat>, now: i64, grace: i64,
               assembled: seq<AssembledSms>, pending: seq<nat>, ghost done: seq<Key>)
    returns (assembled': seq<AssembledSms>, pending': seq<nat>)
    requires slots == Slots(parts, key, |parts|) && 2 <= key.total
    requires forall k :: k in done ==> 2 <= k.total
    requires Outcome(assembled, pending) == GroupsOutcome(parts, done, now, grace)
    ensures Outcome(assembled', pending') == GroupsOutcome(parts, done + [key], now, grace)
  {
    SlotsAreGroup(parts, key, |parts|);
    var here, waiting := SettleGroup(parts, key, slots, now, grace);
    assert (done + [key])[..|done|] == done;
    return assembled + here, pending + waiting;
  }

  /** The second loop, over the groups in key order. */
  method VisitAll(parts: seq<ConcatPart>, groups: map<Key, seq<nat>>, now: i64, grace: i64)
    returns (assembled: seq<AssembledSms>, pending: seq<nat>)
    requires forall k :: k in groups ==> 2 <= k.total && groups[k] == Slots(parts, k, |parts|)
    ensures forall k :: k in KeyOrder(groups.Keys) ==> 2 <= k.total
    ensures Outcome(assembled, pending) == GroupsOutcome(parts, KeyOrder(groups.Keys), now, grace)
  {
    hide GroupsOutcome, Slots, KeyLess, KeyOrder, IsLeast;
    assembled, pending := [], [];
    var todo := groups.Keys;
    ghost var order: seq<Key> := [];
    ghost var full := KeyOrder(groups.Keys);
    NothingYet(parts, now, grace);
    while todo != {}
      invariant todo <= groups.Keys
      invariant order <= full && KeyOrder(todo) == full[|order|..]
      invariant forall k :: k in order ==> 2 <= k.total
      invariant Outcome(assembled, pending) == GroupsOutcome(parts, order, now, grace)
      decreases |todo|
    {
      var key := LeastKey(todo);
      NextInOrder(full, order, todo, key);
      assembled, pending := Visit(parts, key, groups[key], now, grace, assembled, pending, order);
      order := order + [key];
      todo := todo - {key};
    }
    assert order == full;
  }

  lemma NothingYet(parts: seq<ConcatPart>, now: i64, grace: i64)
    ensures GroupsOutcome(parts, [], now, grace) == Outcome([], [])
    ensures KeyOrder({}) == []
  {
  }

  lemma NextInOrder(full: seq<Key>, order: seq<Key>, todo: set<Key>, key: Key)
    requires order <= full && KeyOrder(todo) == full[|order|..] && IsLeast(key, todo)
    ensures order + [key] <= full && KeyOrder(todo - {key}) == full[|order| + 1..]
  {
    KeyOrderStep(todo, key);
    assert full == order + full[|order|..];
  }

  method Assemble(parts: seq<ConcatPart>, now: i64, grace: i64)
    returns (assembled: seq<AssembledSms>, pending: seq<nat>)
    ensures Outcome(assembled, pending) == Assembly(parts, now, grace)
  {
    var singles, groups := GroupUp(parts);
    assembled, pending := VisitAll(parts, groups, now, grace);
    assembled := singles + assembled;
  }

  lemma KeysGrow(parts: seq<ConcatPart>, n: nat)
    requires n < |parts|
    ensures Keys(parts, n + 1) == Keys(parts, n) + if Standalone(parts[n]) then {} else {KeyOf(parts[n])}
  {
    var next := Keys(parts, n + 1);
    assert !Standalone(parts[n]) ==> KeyOf(parts[n]) in next;
    forall k
      ensures k in next <==> k in Keys(parts, n) || (!Standalone(parts[n]) && k == KeyOf(parts[n]))
    {
      if k in next {
        var i :| 0 <= i < n + 1 && !Standalone(parts[i]) && KeyOf(parts[i]) == k;
      }
    }
  }
}
