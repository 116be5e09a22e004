/** What a pass of reassembly guarantees: no row is lost or used twice, and every message says
    exactly what it was made of. */
module Reassembly {
  import opened Basics
  import opened Sorting
  import opened Concat
  import opened Assembler

  // ----- Conservation -------------------------------------------------------

  function SourcesOf(messages: seq<AssembledSms>): seq<nat> {
    if messages == [] then []
    else SourcesOf(messages[..|messages| - 1]) + messages[|messages| - 1].sources
  }

  lemma {:induction false} SourcesOfAppend(a: seq<AssembledSms>, b: seq<AssembledSms>)
    ensures SourcesOf(a + b) == SourcesOf(a) + SourcesOf(b)
  {
    if b == [] {
      assert a + b == a;
    } else {
      assert (a + b)[..|a + b| - 1] == a + b[..|b| - 1];
      SourcesOfAppend(a, b[..|b| - 1]);
    }
  }

  /** How often `x` occurs in `xs`. */
  function Times(xs: seq<nat>, x: nat): nat {
    if xs == [] then 0 else Times(xs[..|xs| - 1], x) + if xs[|xs| - 1] == x then 1 else 0
  }

  lemma {:induction false} TimesAppend(xs: seq<nat>, ys: seq<nat>, x: nat)
    ensures Times(xs + ys, x) == Times(xs, x) + Times(ys, x)
  {
    if ys == [] {
      assert xs + ys == xs;
    } else {
      assert (xs + ys)[..|xs + ys| - 1] == xs + ys[..|ys| - 1];
      TimesAppend(xs, ys[..|ys| - 1], x);
    }
  }

  lemma {:induction false} TimesIsMultiplicity(xs: seq<nat>, x: nat)
    ensures Times(xs, x) == multiset(xs)[x]
  {
    if xs != [] {
      TimesIsMultiplicity(xs[..|xs| - 1], x);
      assert xs == xs[..|xs| - 1] + [xs[|xs| - 1]];
    }
  }

  lemma TimesSorted(less: Order, xs: seq<nat>, x: nat)
    ensures Times(Sort(less, xs), x) == Times(xs, x)
  {
    SortContents(less, xs);
    TimesIsMultiplicity(xs, x);
    TimesIsMultiplicity(Sort(less, xs), x);
  }

  /** How often an outcome accounts for a position, as a source or as waiting. */
  function Claims(o: Outcome, x: nat): nat {
    Times(SourcesOf(o.assembled), x) + Times(o.pending, x)
  }

  function InHeads(queues: seq<seq<nat>>, n: nat, x: nat): nat
    requires AllReach(queues, n)
  {
    if queues == [] then 0 else InHeads(queues[..|queues| - 1], n, x) + Times(queues[|queues| - 1][..n], x)
  }

  function InQueues(queues: seq<seq<nat>>, x: nat): nat {
    if queues == [] then 0 else InQueues(queues[..|queues| - 1], x) + Times(queues[|queues| - 1], x)
  }

  lemma {:induction false} HeadsGrow(queues: seq<seq<nat>>, n: nat, x: nat)
    requires AllReach(queues, n + 1)
    ensures AllReach(queues, n) && InHeads(queues, n + 1, x) == InHeads(queues, n, x) + Times(Row(queues, n), x)
  {
    if queues != [] {
      var last := queues[|queues| - 1];
      HeadsGrow(queues[..|queues| - 1], n, x);
      assert last[..n + 1][..n] == last[..n];
      var row := Row(queues[..|queues| - 1], n);
      assert (row + [last[n]])[..|row|] == row;
    }
  }

  lemma {:induction false} HeadsAndTails(queues: seq<seq<nat>>, n: nat, x: nat)
    requires AllReach(queues, n)
    ensures InHeads(queues, n, x) + Times(Tails(queues, n), x) == InQueues(queues, x)
  {
    if queues != [] {
      var last := queues[|queues| - 1];
      HeadsAndTails(queues[..|queues| - 1], n, x);
      assert last == last[..n] + last[n..];
      TimesAppend(last[..n], last[n..], x);
      TimesAppend(Tails(queues[..|queues| - 1], n), last[n..], x);
    }
  }

  lemma {:induction false} NoHeads(queues: seq<seq<nat>>, x: nat)
    ensures InHeads(queues, 0, x) == 0
  {
    if queues != [] {
      NoHeads(queues[..|queues| - 1], x);
    }
  }

  lemma RoundAddsRow(parts: seq<ConcatPart>, key: Key, queues: seq<seq<nat>>, rounds: nat)
    requires AllInRange(parts, queues) && AllReach(queues, rounds + 1)
    ensures SourcesOf(WholeMessages(parts, key, queues, rounds + 1)) ==
            SourcesOf(WholeMessages(parts, key, queues, rounds)) + Row(queues, rounds)
  {
    var before := WholeMessages(parts, key, queues, rounds);
    assert WholeMessages(parts, key, queues, rounds + 1)[..|before|] == before;
  }

  /** How often `x` is taken in the first rounds. */
  function InRows(queues: seq<seq<nat>>, rounds: nat, x: nat): nat
    requires AllReach(queues, rounds)
  {
    if rounds == 0 then 0 else InRows(queues, rounds - 1, x) + Times(Row(queues, rounds - 1), x)
  }

  lemma {:induction false} RowsAreHeads(queues: seq<seq<nat>>, rounds: nat, x: nat)
    requires AllReach(queues, rounds)
    ensures InRows(queues, rounds, x) == InHeads(queues, rounds, x)
  {
    hide InHeads, Times, Row;
    if rounds == 0 {
      NoHeads(queues, x);
    } else {
      RowsAreHeads(queues, rounds - 1, x);
      HeadsGrow(queues, rounds - 1, x);
    }
  }

  lemma {:induction false} RoundsUseRows(parts: seq<ConcatPart>, key: Key, queues: seq<seq<nat>>, rounds: nat, x: nat)
    requires AllInRange(parts, queues) && AllReach(queues, rounds)
    ensures Times(SourcesOf(WholeMessages(parts, key, queues, rounds)), x) == InRows(queues, rounds, x)
  {
    if rounds > 0 {
      RoundsUseRows(parts, key, queues, rounds - 1, x);
      RoundAddsRow(parts, key, queues, rounds - 1);
      TimesAppend(SourcesOf(WholeMessages(parts, key, queues, rounds - 1)), Row(queues, rounds - 1), x);
    }
  }

  lemma QueuesOutcomeConserves(parts: seq<ConcatPart>, key: Key, queues: seq<seq<nat>>, now: i64, grace: i64, x: nat)
    requires queues != [] && AllInRange(parts, queues)
    ensures Claims(QueuesOutcome(parts, key, queues, now, grace), x) == InQueues(queues, x)
  {
    var whole := Shortest(queues);
    ShortestBounds(queues);
    var messages := WholeMessages(parts, key, queues, whole);
    RoundsUseRows(parts, key, queues, whole, x);
    RowsAreHeads(queues, whole, x);
    HeadsAndTails(queues, whole, x);
    var left := Sort(Ascending(), Tails(queues, whole));
    TimesSorted(Ascending(), Tails(queues, whole), x);
    TailsInRange(parts, queues, whole);
    if left != [] && Expired(parts, left, now, grace) {
      var released := Released(parts, key, left);
      assert (messages + [released])[..|messages|] == messages;
      TimesAppend(SourcesOf(messages), left, x);
    }
  }

  function InBySeq(parts: seq<ConcatPart>, slots: seq<nat>, t: nat, x: nat): nat
    requires InRange(parts, slots)
  {
    if t == 0 then 0 else InBySeq(parts, slots, t - 1, x) + Times(BySeq(parts, slots, t), x)
  }

  lemma {:induction false} QueuesHoldAll(parts: seq<ConcatPart>, slots: seq<nat>, t: nat, x: nat)
    requires InRange(parts, slots)
    ensures InQueues(Queues(parts, slots, t), x) == InBySeq(parts, slots, t, x)
  {
    if t > 0 {
      QueuesHoldAll(parts, slots, t - 1, x);
      TimesSorted(ByAge(parts), BySeq(parts, slots, t), x);
      var queues := Queues(parts, slots, t);
      assert queues[..|queues| - 1] == Queues(parts, slots, t - 1);
    }
  }

  lemma BySeqGrows(parts: seq<ConcatPart>, slots: seq<nat>, s: nat, x: nat)
    requires InRange(parts, slots) && slots != []
    ensures var last := slots[|slots| - 1];
            Times(BySeq(parts, slots, s), x) ==
            Times(BySeq(parts, slots[..|slots| - 1], s), x) + if parts[last].seqNo == s && last == x then 1 else 0
  {
    var before := BySeq(parts, slots[..|slots| - 1], s);
    var last := slots[|slots| - 1];
    if parts[last].seqNo == s {
      assert (before + [last])[..|before|] == before;
    } else {
      assert BySeq(parts, slots, s) == before;
    }
  }

  lemma {:induction false} InBySeqGrows(parts: seq<ConcatPart>, slots: seq<nat>, rest: seq<nat>, last: nat, t: nat, x: nat)
    requires InRange(parts, slots) && slots == rest + [last] && InRange(parts, rest) && last < |parts|
    ensures InBySeq(parts, slots, t, x) ==
            InBySeq(parts, rest, t, x) + if 1 <= parts[last].seqNo <= t && last == x then 1 else 0
  {
    hide BySeq, Times, InRange;
    if t > 0 {
      InBySeqGrows(parts, slots, rest, last, t - 1, x);
      BySeqGrows(parts, slots, t, x);
      assert slots[..|slots| - 1] == rest;
    }
  }

  lemma {:induction false} InBySeqIsAll(parts: seq<ConcatPart>, slots: seq<nat>, t: nat, x: nat)
    requires InRange(parts, slots)
    requires forall i :: 0 <= i < |slots| ==> 1 <= parts[slots[i]].seqNo <= t
    ensures InBySeq(parts, slots, t, x) == Times(slots, x)
  {
    if slots == [] {
      NothingBySeq(parts, t, x);
    } else {
      InBySeqGrows(parts, slots, slots[..|slots| - 1], slots[|slots| - 1], t, x);
      InBySeqIsAll(parts, slots[..|slots| - 1], t, x);
    }
  }

  lemma {:induction false} NothingBySeq(parts: seq<ConcatPart>, t: nat, x: nat)
    ensures InBySeq(parts, [], t, x) == 0
  {
    if t > 0 {
      NothingBySeq(parts, t - 1, x);
    }
  }

  lemma QueuesHoldTheGroup(parts: seq<ConcatPart>, key: Key, slots: seq<nat>, x: nat)
    requires IsGroup(parts, key, slots)
    ensures InQueues(Queues(parts, slots, key.total), x) == Times(slots, x)
  {
    QueuesHoldAll(parts, slots, key.total, x);
    assert forall i :: 0 <= i < |slots| ==> !Standalone(parts[slots[i]]);
    InBySeqIsAll(parts, slots, key.total, x);
  }

  lemma GroupConserves(parts: seq<ConcatPart>, key: Key, slots: seq<nat>, now: i64, grace: i64, x: nat)
    requires IsGroup(parts, key, slots)
    ensures Claims(GroupOutcome(parts, key, slots, now, grace), x) == Times(slots, x)
  {
    QueuesInRange(parts, slots, key.total);
    QueuesHoldTheGroup(parts, key, slots, x);
    QueuesOutcomeConserves(parts, key, Queues(parts, slots, key.total), now, grace, x);
  }

  /** How often `x` occurs among the rows below `n` of these groups. */
  function InGroups(parts: seq<ConcatPart>, order: seq<Key>, n: nat, x: nat): nat
    requires n <= |parts|
  {
    if order == [] then 0
    else InGroups(parts, order[..|order| - 1], n, x) + Times(Slots(parts, order[|order| - 1], n), x)
  }

  lemma {:induction false} GroupsConserve(parts: seq<ConcatPart>, order: seq<Key>, now: i64, grace: i64, x: nat)
    requires forall key :: key in order ==> 2 <= key.total
    ensures Claims(GroupsOutcome(parts, order, now, grace), x) == InGroups(parts, order, |parts|, x)
  {
    if order != [] {
      var key := order[|order| - 1];
      var before := GroupsOutcome(parts, order[..|order| - 1], now, grace);
      GroupsConserve(parts, order[..|order| - 1], now, grace, x);
      SlotsAreGroup(parts, key, |parts|);
      GroupConserves(parts, key, Slots(parts, key, |parts|), now, grace, x);
      AppendClaims(before, GroupOutcome(parts, key, Slots(parts, key, |parts|), now, grace), x);
    }
  }

  lemma AppendClaims(a: Outcome, b: Outcome, x: nat)
    ensures Claims(Outcome(a.assembled + b.assembled, a.pending + b.pending), x) == Claims(a, x) + Claims(b, x)
  {
    SourcesOfAppend(a.assembled, b.assembled);
    TimesAppend(SourcesOf(a.assembled), SourcesOf(b.assembled), x);
    TimesAppend(a.pending, b.pending, x);
  }

  ghost predicate NoRepeats(order: seq<Key>) {
    forall i, j :: 0 <= i < j < |order| ==> order[i] != order[j]
  }

  lemma {:induction false} KeyOrderNoRepeats(keys: set<Key>)
    ensures NoRepeats(KeyOrder(keys))
    decreases |keys|
  {
    if keys != {} {
      LeastExists(keys);
      var order := KeyOrder(keys);
      var k := order[0];
      KeyOrderNoRepeats(keys - {k});
      OrderCoversKeys(keys - {k});
      assert order == [k] + KeyOrder(keys - {k});
      assert forall j :: 1 <= j < |order| ==> order[j] in KeyOrder(keys - {k});
    }
  }

  lemma {:induction false} GroupedOnce(parts: seq<ConcatPart>, order: seq<Key>, n: nat, x: nat)
    requires n <= |parts| && NoRepeats(order)
    ensures InGroups(parts, order, n, x) ==
            if x < n && !Standalone(parts[x]) && KeyOf(parts[x]) in order then 1 else 0
  {
    hide Slots, Times, Standalone, KeyOf;
    if order != [] {
      var rest := order[..|order| - 1];
      var key := order[|order| - 1];
      GroupedOnce(parts, rest, n, x);
      SlotsOnce(parts, key, n, x);
      assert order == rest + [key];
      assert key !in rest;
    }
  }

  lemma {:induction false} SlotsOnce(parts: seq<ConcatPart>, key: Key, n: nat, x: nat)
    requires n <= |parts|
    ensures Times(Slots(parts, key, n), x) == if x < n && !Standalone(parts[x]) && KeyOf(parts[x]) == key then 1 else 0
  {
    if n > 0 {
      SlotsOnce(parts, key, n - 1, x);
      var before := Slots(parts, key, n - 1);
      if !Standalone(parts[n - 1]) && KeyOf(parts[n - 1]) == key {
        assert (before + [n - 1])[..|before|] == before;
      } else {
        assert Slots(parts, key, n) == before;
      }
    }
  }

  lemma {:induction false} SinglesOnce(parts: seq<ConcatPart>, n: nat, x: nat)
    requires n <= |parts|
    ensures Times(SourcesOf(Singles(parts, n)), x) == if x < n && Standalone(parts[x]) then 1 else 0
  {
    if n > 0 {
      SinglesOnce(parts, n - 1, x);
      var before := Singles(parts, n - 1);
      if Standalone(parts[n - 1]) {
        assert (before + [PassedThrough(parts[n - 1], n - 1)])[..|before|] == before;
        TimesAppend(SourcesOf(before), [n - 1], x);
      } else {
        assert Singles(parts, n) == before;
      }
    }
  }

  /** Conservation: every input position occurs exactly once across all source lists and the
      waiting list, and nothing else occurs at all. */
  lemma EveryRowIsAccountedForOnce(parts: seq<ConcatPart>, now: i64, grace: i64, x: nat)
    ensures Claims(Assembly(parts, now, grace), x) == if x < |parts| then 1 else 0
  {
    var keys := Keys(parts, |parts|);
    var order := KeyOrder(keys);
    OrderCoversKeys(keys);
    KeyOrderNoRepeats(keys);
    SinglesOnce(parts, |parts|, x);
    GroupedOnce(parts, order, |parts|, x);
    GroupsConserve(parts, order, now, grace, x);
    AppendClaims(Outcome(Singles(parts, |parts|), []), GroupsOutcome(parts, order, now, grace), x);
    assert [] + GroupsOutcome(parts, order, now, grace).pending == GroupsOutcome(parts, order, now, grace).pending;
    assert x < |parts| && !Standalone(parts[x]) ==> KeyOf(parts[x]) in keys;
  }

  // ----- What a message is made of ------------------------------------------

  /** A row passed through as it came. */
  predicate IsPassedThrough(parts: seq<ConcatPart>, m: AssembledSms) {
    && |m.sources| == 1 && m.sources[0] < |parts|
    && var p := parts[m.sources[0]];
       && (p.total <= 1 || p.seqNo == 0 || p.seqNo > p.total)
       && m == AssembledSms(p.sender, p.body, 1, [m.sources[0]], [])
  }

  /** A source has the sender and the count the message has, and the reference its first source has. */
  predicate IsOfOne(parts: seq<ConcatPart>, m: AssembledSms, i: nat)
    requires i < |m.sources| && InRange(parts, m.sources)
  {
    var p := parts[m.sources[i]];
    p.sender == m.sender && p.total == m.parts && p.refId == parts[m.sources[0]].refId
  }

  /** A whole message: fragments 1 to total of one sender, reference and count, in order. */
  predicate IsWhole(parts: seq<ConcatPart>, m: AssembledSms) {
    && 2 <= m.parts == |m.sources|
    && InRange(parts, m.sources)
    && m.missing == []
    && (forall i :: 0 <= i < |m.sources| ==>
          && parts[m.sources[i]].seqNo == i + 1
          && IsOfOne(parts, m, i))
    && m.body == Bodies(parts, m.sources)
  }

  /** A group released early: its gaps are named exactly, it has at least one, and
      everything stamped in it is older than the grace. */
  ghost predicate IsReleased(parts: seq<ConcatPart>, m: AssembledSms, now: i64, grace: i64) {
    && m.sources != []
    && InRange(parts, m.sources)
    && m.missing != []
    && (forall s :: s in m.missing <==>
          1 <= s <= m.parts && forall i :: 0 <= i < |m.sources| ==> parts[m.sources[i]].seqNo != s)
    && (forall i, j :: 0 <= i < j < |m.missing| ==> m.missing[i] < m.missing[j])
    && (forall i :: 0 <= i < |m.sources| ==> IsOfOne(parts, m, i))
    && (forall i, stamp :: 0 <= i < |m.sources| && parts[m.sources[i]].receivedAt == Some(stamp) ==> now - stamp > grace)
    && m.body == FilledBody(parts, m.sources, m.parts, m.parts)
  }

  ghost predicate Accounted(parts: seq<ConcatPart>, m: AssembledSms, now: i64, grace: i64) {
    IsPassedThrough(parts, m) || IsWhole(parts, m) || IsReleased(parts, m, now, grace)
  }

  lemma {:induction false} SinglesPassThrough(parts: seq<ConcatPart>, n: nat)
    requires n <= |parts|
    ensures forall m :: m in Singles(parts, n) ==> IsPassedThrough(parts, m)
  {
    if n > 0 {
      SinglesPassThrough(parts, n - 1);
    }
  }

  /** What the queues of a group hold. */
  predicate QueuesOf(parts: seq<ConcatPart>, key: Key, queues: seq<seq<nat>>) {
    && |queues| == key.total
    && AllInRange(parts, queues)
    && forall i, j :: 0 <= i < |queues| && 0 <= j < |queues[i]| ==>
         KeyOf(parts[queues[i][j]]) == key && parts[queues[i][j]].seqNo == i + 1
  }

  lemma GroupQueues(parts: seq<ConcatPart>, key: Key, slots: seq<nat>)
    requires IsGroup(parts, key, slots)
    ensures QueuesOf(parts, key, Queues(parts, slots, key.total))
  {
    hide Queue, Queues;
    var queues := Queues(parts, slots, key.total);
    QueuesInRange(parts, slots, key.total);
    forall i, j | 0 <= i < |queues| && 0 <= j < |queues[i]|
      ensures KeyOf(parts[queues[i][j]]) == key && parts[queues[i][j]].seqNo == i + 1
    {
      QueueMembers(parts, slots, i + 1);
      assert queues[i][j] in Queue(parts, slots, i + 1);
    }
  }

  lemma WholeMessageIsWhole(parts: seq<ConcatPart>, key: Key, queues: seq<seq<nat>>, round: nat)
    requires 2 <= key.total && QueuesOf(parts, key, queues) && AllReach(queues, round + 1)
    ensures IsWhole(parts, WholeMessage(parts, key, queues, round))
  {
    RowElements(parts, queues, round);
    var m := WholeMessage(parts, key, queues, round);
    assert parts[m.sources[0]].refId == key.refId;
  }

  lemma {:induction false} WholeMessagesAreWhole(parts: seq<ConcatPart>, key: Key, queues: seq<seq<nat>>, rounds: nat)
    requires 2 <= key.total && QueuesOf(parts, key, queues) && AllReach(queues, rounds)
    ensures forall m :: m in WholeMessages(parts, key, queues, rounds) ==> IsWhole(parts, m)
  {
    if rounds > 0 {
      WholeMessagesAreWhole(parts, key, queues, rounds - 1);
      WholeMessageIsWhole(parts, key, queues, rounds - 1);
    }
  }

  lemma {:induction false} GapsAreAbsences(parts: seq<ConcatPart>, slots: seq<nat>, t: nat)
    requires InRange(parts, slots) && t < 0x100
    ensures forall s :: s in Gaps(parts, slots, t) <==>
                        1 <= s <= t && forall i :: 0 <= i < |slots| ==> parts[slots[i]].seqNo != s
    ensures forall i, j :: 0 <= i < j < |Gaps(parts, slots, t)| ==> Gaps(parts, slots, t)[i] < Gaps(parts, slots, t)[j]
  {
    if t > 0 {
      GapsAreAbsences(parts, slots, t - 1);
      FindFinds(parts, slots, t);
      var gaps := Gaps(parts, slots, t - 1);
      assert forall i :: 0 <= i < |gaps| ==> gaps[i] in gaps;
      if Find(parts, slots, t).Some? {
        var slot := Find(parts, slots, t).value;
        var i :| 0 <= i < |slots| && slots[i] == slot;
      }
    }
  }

  lemma {:induction false} NewestIsLatest(parts: seq<ConcatPart>, slots: seq<nat>)
    requires InRange(parts, slots)
    ensures forall i :: 0 <= i < |slots| ==> !StampLess(Newest(parts, slots), parts[slots[i]].receivedAt)
    ensures Newest(parts, slots).Some? ==>
              exists i :: 0 <= i < |slots| && parts[slots[i]].receivedAt == Newest(parts, slots)
  {
    if slots != [] {
      var n := |slots| - 1;
      NewestIsLatest(parts, slots[..n]);
      if Newest(parts, slots) != parts[slots[n]].receivedAt && Newest(parts, slots).Some? {
        var i :| 0 <= i < n && parts[slots[..n][i]].receivedAt == Newest(parts, slots[..n]);
        assert parts[slots[i]].receivedAt == Newest(parts, slots);
      }
    }
  }

  /** The leftovers of a group lack at least one sequence number. */
  lemma LeftoversHaveAGap(parts: seq<ConcatPart>, key: Key, queues: seq<seq<nat>>) returns (gap: nat)
    requires queues != [] && QueuesOf(parts, key, queues)
    ensures AllReach(queues, Shortest(queues))
    ensures var left := Sort(Ascending(), Tails(queues, Shortest(queues)));
            && InRange(parts, left)
            && 1 <= gap <= key.total
            && (forall i :: 0 <= i < |left| ==> 1 <= parts[left[i]].seqNo <= key.total && parts[left[i]].seqNo != gap)
            && (forall i :: 0 <= i < |left| ==> KeyOf(parts[left[i]]) == key)
  {
    var whole := Shortest(queues);
    ShortestBounds(queues);
    var g :| 0 <= g < |queues| && |queues[g]| == whole;
    gap := g + 1;
    var tails := Tails(queues, whole);
    var left := Sort(Ascending(), tails);
    TailsInRange(parts, queues, whole);
    SortContents(Ascending(), tails);
    SameMembers(left, tails);
    TailsContents(queues, whole);
    forall i | 0 <= i < |left|
      ensures 1 <= parts[left[i]].seqNo <= key.total && parts[left[i]].seqNo != gap && KeyOf(parts[left[i]]) == key
    {
      assert left[i] in left;
      var k :| 0 <= k < |queues| && left[i] in queues[k][whole..];
      assert left[i] in queues[k];
    }
  }

  lemma StampsAreOld(parts: seq<ConcatPart>, left: seq<nat>, now: i64, grace: i64)
    requires InRange(parts, left) && Expired(parts, left, now, grace)
    ensures forall i, stamp :: 0 <= i < |left| && parts[left[i]].receivedAt == Some(stamp) ==> now - stamp > grace
  {
    hide Newest;
    NewestIsLatest(parts, left);
    forall i, stamp | 0 <= i < |left| && parts[left[i]].receivedAt == Some(stamp)
      ensures now - stamp > grace
    {
      assert !StampLess(Newest(parts, left), parts[left[i]].receivedAt);
    }
  }

  lemma ReleasedFromRows(parts: seq<ConcatPart>, key: Key, left: seq<nat>, gap: nat, now: i64, grace: i64)
    requires InRange(parts, left) && left != [] && Expired(parts, left, now, grace) && 1 <= gap <= key.total
    requires forall i :: 0 <= i < |left| ==> KeyOf(parts[left[i]]) == key && parts[left[i]].seqNo != gap
    ensures IsReleased(parts, Released(parts, key, left), now, grace)
  {
    hide FilledBody, Gaps, Expired;
    GapsAreAbsences(parts, left, key.total);
    assert gap in Gaps(parts, left, key.total);
    StampsAreOld(parts, left, now, grace);
    var m := Released(parts, key, left);
    forall i | 0 <= i < |left|
      ensures IsOfOne(parts, m, i)
    {
      assert KeyOf(parts[left[i]]) == key && KeyOf(parts[left[0]]) == key;
    }
  }

  lemma ReleasedIsReleased(parts: seq<ConcatPart>, key: Key, queues: seq<seq<nat>>, now: i64, grace: i64)
    requires 2 <= key.total && QueuesOf(parts, key, queues)
    ensures AllReach(queues, Shortest(queues))
    ensures var left := Sort(Ascending(), Tails(queues, Shortest(queues)));
            && InRange(parts, left)
            && (left != [] && Expired(parts, left, now, grace) ==> IsReleased(parts, Released(parts, key, left), now, grace))
  {
    hide IsReleased, Released, Expired, Sort, Tails, Shortest, KeyOf;
    var gap := LeftoversHaveAGap(parts, key, queues);
    var left := Sort(Ascending(), Tails(queues, Shortest(queues)));
    if left != [] && Expired(parts, left, now, grace) {
      ReleasedFromRows(parts, key, left, gap, now, grace);
    }
  }

  lemma GroupAccounts(parts: seq<ConcatPart>, key: Key, slots: seq<nat>, now: i64, grace: i64)
    requires IsGroup(parts, key, slots)
    ensures forall m :: m in GroupOutcome(parts, key, slots, now, grace).assembled ==> Accounted(parts, m, now, grace)
  {
    GroupQueues(parts, key, slots);
    var queues := Queues(parts, slots, key.total);
    ShortestBounds(queues);
    WholeMessagesAreWhole(parts, key, queues, Shortest(queues));
    ReleasedIsReleased(parts, key, queues, now, grace);
  }

  lemma {:induction false} GroupsAccount(parts: seq<ConcatPart>, order: seq<Key>, now: i64, grace: i64)
    requires forall key :: key in order ==> 2 <= key.total
    ensures forall m :: m in GroupsOutcome(parts, order, now, grace).assembled ==> Accounted(parts, m, now, grace)
  {
    if order != [] {
      var key := order[|order| - 1];
      GroupsAccount(parts, order[..|order| - 1], now, grace);
      SlotsAreGroup(parts, key, |parts|);
      GroupAccounts(parts, key, Slots(parts, key, |parts|), now, grace);
    }
  }

  /** Every message of a pass is a row passed through, a whole message, or a group released
      early; nothing else ever comes out. */
  lemma EveryMessageIsAccounted(parts: seq<ConcatPart>, now: i64, grace: i64)
    ensures forall m :: m in Assembly(parts, now, grace).assembled ==> Accounted(parts, m, now, grace)
  {
    OrderCoversKeys(Keys(parts, |parts|));
    GroupsAccount(parts, KeyOrder(Keys(parts, |parts|)), now, grace);
    SinglesPassThrough(parts, |parts|);
  }
}
