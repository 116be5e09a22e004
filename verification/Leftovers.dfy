/** Which fragments a pass pairs, which it releases and which it leaves waiting, told from the rows
    alone: their numbers, their stamps and their places. */
module Leftovers {
  import opened Basics
  import opened Sorting
  import opened Concat
  import opened Reassembly
  import opened Deliveries
  import opened Settle
  import opened Texts

  // ----- Rows, and which stands before which --------------------------------------

  /** A row that is a fragment of this group. */
  ghost predicate IsFragment(parts: seq<ConcatPart>, key: Key, x: nat) {
    && x < |parts|
    && parts[x].sender == key.sender && parts[x].refId == key.refId && parts[x].total == key.total
    && 2 <= key.total && 1 <= parts[x].seqNo <= key.total
  }

  /** A row stands before another if it is older, one without a stamp being older than any with one, or
      as old and at an earlier place. */
  ghost predicate Before(parts: seq<ConcatPart>, y: nat, x: nat)
    requires x < |parts| && y < |parts|
  {
    match (parts[y].receivedAt, parts[x].receivedAt)
    case (None, Some(_)) => true
    case (Some(_), None) => false
    case (None, None) => y < x
    case (Some(a), Some(b)) => a < b || (a == b && y < x)
  }

  ghost function Numbered(parts: seq<ConcatPart>, key: Key, s: nat): set<nat> {
    set y: nat | y < |parts| && IsFragment(parts, key, y) && parts[y].seqNo == s
  }

  /** The fragments of the same number that stand before this one. */
  ghost function Ahead(parts: seq<ConcatPart>, key: Key, x: nat): set<nat>
    requires x < |parts|
  {
    set y | y in Numbered(parts, key, parts[x].seqNo) && y < |parts| && Before(parts, y, x)
  }

  lemma FragmentsAreSlots(parts: seq<ConcatPart>, key: Key, x: nat)
    requires 2 <= key.total
    ensures IsFragment(parts, key, x) <==> x in Slots(parts, key, |parts|)
  {
    SlotsMembers(parts, key, |parts|);
  }

  lemma {:induction false} SlotsDistinct(parts: seq<ConcatPart>, key: Key, n: nat)
    requires n <= |parts|
    ensures Distinct(Slots(parts, key, n))
  {
    if n > 0 {
      SlotsDistinct(parts, key, n - 1);
      SlotsMembers(parts, key, n - 1);
      var before := Slots(parts, key, n - 1);
      assert forall i :: 0 <= i < |before| ==> before[i] in before;
    }
  }

  ghost function Members(xs: seq<nat>): set<nat> {
    set x | x in xs
  }

  lemma {:induction false} CountDistinct(xs: seq<nat>)
    requires Distinct(xs)
    ensures |Members(xs)| == |xs|
  {
    if xs != [] {
      var rest, last := xs[..|xs| - 1], xs[|xs| - 1];
      CountDistinct(rest);
      assert last !in Members(rest);
      assert Members(xs) == Members(rest) + {last};
    }
  }

  /** A queue of a group holds the fragments of its number, each once, in that order. */
  lemma QueueIsInOrder(parts: seq<ConcatPart>, key: Key, s: nat)
    requires 2 <= key.total && 1 <= s <= key.total
    ensures var queue := AllQueues(parts, key)[s - 1];
            && Distinct(queue) && |queue| == |Numbered(parts, key, s)|
            && (forall x :: x in queue <==> x in Numbered(parts, key, s))
            && (forall i, j :: 0 <= i < j < |queue| ==> Before(parts, queue[i], queue[j]))
  {
    hide Slots, Queues;
    SlotsAreGroup(parts, key, |parts|);
    var slots := Slots(parts, key, |parts|);
    QueuesInRange(parts, slots, key.total);
    var queue := Queue(parts, slots, s);
    assert AllQueues(parts, key)[s - 1] == queue;
    QueueMembers(parts, slots, s);
    forall x: nat
      ensures IsFragment(parts, key, x) <==> x in slots
    {
      FragmentsAreSlots(parts, key, x);
    }
    SlotsDistinct(parts, key, |parts|);
    BySeqDistinct(parts, slots, s);
    SortKeepsDistinct(ByAge(parts), BySeq(parts, slots, s));
    CountDistinct(queue);
    assert Members(queue) == Numbered(parts, key, s);
    ByAgeIsStrictTotal(parts);
    SortSorts(ByAge(parts), BySeq(parts, slots, s));
    forall i, j | 0 <= i < j < |queue|
      ensures Before(parts, queue[i], queue[j])
    {
      assert queue[i] in queue && queue[j] in queue;
      assert ByAge(parts)(queue[i], queue[j]);
    }
  }

  lemma BeforeIsStrict(parts: seq<ConcatPart>, x: nat, y: nat)
    requires x < |parts| && y < |parts|
    ensures !(Before(parts, x, y) && Before(parts, y, x))
    ensures !Before(parts, x, x)
  {
  }

  /** So a fragment's place in its queue is the number of fragments that stand before it. */
  lemma PlaceIsRank(parts: seq<ConcatPart>, key: Key, s: nat, r: nat)
    requires 2 <= key.total && 1 <= s <= key.total && r < |AllQueues(parts, key)[s - 1]|
    ensures var x := AllQueues(parts, key)[s - 1][r];
            IsFragment(parts, key, x) && parts[x].seqNo == s && |Ahead(parts, key, x)| == r
  {
    hide AllQueues, Before;
    QueueIsInOrder(parts, key, s);
    var queue := AllQueues(parts, key)[s - 1];
    var x := queue[r];
    assert x in queue;
    CountDistinct(queue[..r]);
    forall y
      ensures y in Ahead(parts, key, x) <==> y in queue[..r]
    {
      if y in Numbered(parts, key, s) {
        var k :| 0 <= k < |queue| && queue[k] == y;
        BeforeIsStrict(parts, x, y);
      }
      if y in queue[..r] {
        assert y in queue;
      }
    }
    assert Ahead(parts, key, x) == Members(queue[..r]);
  }

  lemma InItsQueue(parts: seq<ConcatPart>, key: Key, x: nat) returns (r: nat)
    requires IsFragment(parts, key, x)
    ensures r < |AllQueues(parts, key)[parts[x].seqNo - 1]| && AllQueues(parts, key)[parts[x].seqNo - 1][r] == x
    ensures r == |Ahead(parts, key, x)|
  {
    hide AllQueues;
    QueueIsInOrder(parts, key, parts[x].seqNo);
    var queue := AllQueues(parts, key)[parts[x].seqNo - 1];
    assert x in queue;
    r :| 0 <= r < |queue| && queue[r] == x;
    PlaceIsRank(parts, key, parts[x].seqNo, r);
  }

  // ----- What is paired -------------------------------------------------------------

  /** The fragment is in no message that lacks nothing. */
  ghost predicate IsLeft(parts: seq<ConcatPart>, o: Outcome, key: Key, x: nat) {
    IsFragment(parts, key, x) && forall m :: m in o.assembled && m.missing == [] ==> x !in m.sources
  }

  lemma RoundOf(parts: seq<ConcatPart>, key: Key, m: AssembledSms) returns (r: nat)
    requires 2 <= key.total && m in Whole(parts, key)
    ensures r < Shortest(AllQueues(parts, key)) && AllReach(AllQueues(parts, key), r + 1)
    ensures m.sources == Row(AllQueues(parts, key), r)
  {
    hide AllQueues, Shortest;
    var queues := AllQueues(parts, key);
    var n := Shortest(queues);
    WholeMessageCount(parts, key, queues, n);
    r :| 0 <= r < n && Whole(parts, key)[r] == m;
    WholeMessageAt(parts, key, queues, n, r);
  }

  /** A message without gaps that uses a fragment is one of its group's. */
  lemma WholeOfItsGroup(parts: seq<ConcatPart>, key: Key, now: i64, grace: i64, x: nat, m: AssembledSms)
    requires IsFragment(parts, key, x)
    requires m in Assembly(parts, now, grace).assembled && m.missing == [] && x in m.sources
    ensures m in Whole(parts, key)
  {
    hide Assembly, Whole;
    EveryMessageIsAccounted(parts, now, grace);
    assert IsWhole(parts, m);
    var i :| 0 <= i < |m.sources| && m.sources[i] == x;
    assert KeyOf(parts[x]) == key && KeyOf(parts[m.sources[0]]) == key;
    assert parts[m.sources[0]].seqNo == 1;
    assert IsOf(parts, m, key);
    WholeMessagesOfThePass(parts, key, now, grace, m);
  }

  lemma WholeUsesTheFirst(parts: seq<ConcatPart>, key: Key, x: nat, m: AssembledSms)
    requires IsFragment(parts, key, x) && m in Whole(parts, key) && x in m.sources
    ensures |Ahead(parts, key, x)| < Shortest(AllQueues(parts, key))
    ensures forall y :: y in m.sources ==> y < |parts| && |Ahead(parts, key, y)| == |Ahead(parts, key, x)|
  {
    hide AllQueues, Shortest, Whole;
    var queues := AllQueues(parts, key);
    var r := RoundOf(parts, key, m);
    RowElements(parts, queues, r);
    forall y | y in m.sources
      ensures y < |parts| && |Ahead(parts, key, y)| == r
    {
      var i :| 0 <= i < |m.sources| && m.sources[i] == y;
      PlaceIsRank(parts, key, i + 1, r);
    }
  }

  lemma FirstAreWhole(parts: seq<ConcatPart>, key: Key, now: i64, grace: i64, x: nat) returns (m: AssembledSms)
    requires IsFragment(parts, key, x) && |Ahead(parts, key, x)| < Shortest(AllQueues(parts, key))
    ensures m in Assembly(parts, now, grace).assembled && m.missing == [] && x in m.sources
  {
    hide AllQueues, Shortest, Assembly;
    var queues := AllQueues(parts, key);
    var n := Shortest(queues);
    var r := InItsQueue(parts, key, x);
    WholeMessageCount(parts, key, queues, n);
    WholeMessageAt(parts, key, queues, n, r);
    m := Whole(parts, key)[r];
    RowElements(parts, queues, r);
    assert m.sources[parts[x].seqNo - 1] == x;
    WholeMessagesOfThePass(parts, key, now, grace, m);
  }

  /** A fragment is left over exactly if the shortest queue ends before its place. */
  lemma LeftIsBehind(parts: seq<ConcatPart>, key: Key, now: i64, grace: i64, x: nat)
    requires IsFragment(parts, key, x)
    ensures IsLeft(parts, Assembly(parts, now, grace), key, x) <==>
            Shortest(AllQueues(parts, key)) <= |Ahead(parts, key, x)|
  {
    hide AllQueues, Shortest, Assembly, Whole, Ahead;
    if |Ahead(parts, key, x)| < Shortest(AllQueues(parts, key)) {
      var m := FirstAreWhole(parts, key, now, grace, x);
    } else {
      forall m | m in Assembly(parts, now, grace).assembled && m.missing == []
        ensures x !in m.sources
      {
        if x in m.sources {
          WholeOfItsGroup(parts, key, now, grace, x, m);
          WholeUsesTheFirst(parts, key, x, m);
        }
      }
    }
  }

  /** Fragments are paired first with first, second with second, and so on, as far as there are some of
      every number: one is left over exactly if some number has no more fragments than stand before it. */
  lemma LeftExactlyWhenANumberRunsOut(parts: seq<ConcatPart>, key: Key, now: i64, grace: i64, x: nat)
    requires IsFragment(parts, key, x)
    ensures IsLeft(parts, Assembly(parts, now, grace), key, x) <==>
            exists s :: 1 <= s <= key.total && |Numbered(parts, key, s)| <= |Ahead(parts, key, x)|
  {
    hide AllQueues, Assembly, IsLeft, Ahead;
    LeftIsBehind(parts, key, now, grace, x);
    var queues := AllQueues(parts, key);
    ShortestBounds(queues);
    var n := |Ahead(parts, key, x)|;
    if i :| 0 <= i < |queues| && |queues[i]| == Shortest(queues) {
      QueueIsInOrder(parts, key, i + 1);
      assert |Numbered(parts, key, i + 1)| == Shortest(queues);
    }
    forall s | 1 <= s <= key.total
      ensures Shortest(queues) <= |Numbered(parts, key, s)|
    {
      QueueIsInOrder(parts, key, s);
    }
  }

  /** And fragments in one message have equally many before them. */
  lemma PairedByRank(parts: seq<ConcatPart>, key: Key, now: i64, grace: i64, m: AssembledSms, x: nat, y: nat)
    requires m in Assembly(parts, now, grace).assembled && m.missing == []
    requires IsFragment(parts, key, x) && x in m.sources && y in m.sources
    ensures IsFragment(parts, key, y) && |Ahead(parts, key, x)| == |Ahead(parts, key, y)|
  {
    hide Assembly, Whole, Ahead;
    WholeOfItsGroup(parts, key, now, grace, x, m);
    WholeUsesTheFirst(parts, key, x, m);
    EveryMessageIsAccounted(parts, now, grace);
    assert IsWhole(parts, m);
    var i :| 0 <= i < |m.sources| && m.sources[i] == x;
    var j :| 0 <= j < |m.sources| && m.sources[j] == y;
    assert KeyOf(parts[x]) == key && KeyOf(parts[y]) == KeyOf(parts[x]);
  }

  // ----- What is released, and what waits ---------------------------------------------

  /** More than the grace ago, by a difference that cannot exceed the largest 64-bit number. */
  predicate IsOld(stamp: i64, now: i64, grace: i64) {
    now - stamp > grace && grace < I64_MAX
  }

  /** Of what is left of the group something has a stamp, and every stamp is old. */
  ghost predicate HasGrownOld(parts: seq<ConcatPart>, o: Outcome, key: Key, now: i64, grace: i64) {
    && (exists x: nat :: IsLeft(parts, o, key, x) && parts[x].receivedAt.Some?)
    && (forall x: nat :: IsLeft(parts, o, key, x) && parts[x].receivedAt.Some? ==> IsOld(parts[x].receivedAt.value, now, grace))
  }

  /** The rows of a group behind its whole messages, by place. */
  ghost function Left(parts: seq<ConcatPart>, key: Key): (left: seq<nat>)
    requires 2 <= key.total
    ensures InRange(parts, left)
  {
    var queues := AllQueues(parts, key);
    TailsInRange(parts, queues, Shortest(queues));
    Sort(Ascending(), Tails(queues, Shortest(queues)))
  }

  lemma LeftRows(parts: seq<ConcatPart>, key: Key, now: i64, grace: i64, x: nat)
    requires 2 <= key.total
    ensures x in Left(parts, key) <==> IsLeft(parts, Assembly(parts, now, grace), key, x)
  {
    hide AllQueues, Shortest, Assembly, IsLeft, Sort;
    var queues := AllQueues(parts, key);
    var n := Shortest(queues);
    var tails := Tails(queues, n);
    SortContents(Ascending(), tails);
    SameMembers(Left(parts, key), tails);
    TailsContents(queues, n);
    IsLeftIsFragment(parts, Assembly(parts, now, grace), key, x);
    if IsFragment(parts, key, x) {
      LeftIsBehind(parts, key, now, grace, x);
      var r := InItsQueue(parts, key, x);
      var i := parts[x].seqNo - 1;
      if n <= r {
        assert queues[i][n..][r - n] == x;
      } else {
        forall k | 0 <= k < |queues|
          ensures x !in queues[k][n..]
        {
          NotBehind(parts, key, k, n, x);
        }
      }
    } else {
      forall k | 0 <= k < |queues|
        ensures x !in queues[k][n..]
      {
        QueueIsInOrder(parts, key, k + 1);
        assert x !in queues[k];
      }
    }
  }

  lemma IsLeftIsFragment(parts: seq<ConcatPart>, o: Outcome, key: Key, x: nat)
    ensures IsLeft(parts, o, key, x) ==> IsFragment(parts, key, x)
  {
  }

  lemma NotBehind(parts: seq<ConcatPart>, key: Key, k: nat, n: nat, x: nat)
    requires IsFragment(parts, key, x) && k < key.total && n <= |AllQueues(parts, key)[k]| && |Ahead(parts, key, x)| < n
    ensures x !in AllQueues(parts, key)[k][n..]
  {
    hide AllQueues, Ahead;
    var queue := AllQueues(parts, key)[k];
    forall i | n <= i < |queue|
      ensures queue[i] != x
    {
      PlaceIsRank(parts, key, k + 1, i);
    }
  }

  lemma ExpiredIsGrownOld(parts: seq<ConcatPart>, key: Key, now: i64, grace: i64)
    requires 2 <= key.total
    ensures Expired(parts, Left(parts, key), now, grace) <==> HasGrownOld(parts, Assembly(parts, now, grace), key, now, grace)
  {
    hide Left, Assembly, IsLeft;
    var left := Left(parts, key);
    var o := Assembly(parts, now, grace);
    NewestIsLatest(parts, left);
    forall x: nat
      ensures x in left <==> IsLeft(parts, o, key, x)
    {
      LeftRows(parts, key, now, grace, x);
    }
    if Newest(parts, left).Some? {
      var i :| 0 <= i < |left| && parts[left[i]].receivedAt == Newest(parts, left);
      assert left[i] in left;
    }
    forall x | x in left
      ensures x < |parts| && !StampLess(Newest(parts, left), parts[x].receivedAt)
    {
      var i :| 0 <= i < |left| && left[i] == x;
    }
  }

  lemma GroupGives(parts: seq<ConcatPart>, key: Key, now: i64, grace: i64)
    requires 2 <= key.total
    ensures var left := Left(parts, key);
            var released := left != [] && Expired(parts, left, now, grace);
            && Waiting(parts, now, grace)(key) == (if released then [] else left)
            && (released ==> InGroup(parts, key, now, grace, Released(parts, key, left)))
  {
    hide Shortest, Sort, Tails, Expired, Released, Slots;
    SlotsAreGroup(parts, key, |parts|);
    ShortestBounds(AllQueues(parts, key));
  }

  /** One message lists exactly the leftovers of this group, and says what it lacks. */
  ghost predicate ReleasesAll(parts: seq<ConcatPart>, o: Outcome, key: Key, m: AssembledSms) {
    && m in o.assembled && m.missing != []
    && m.sender == key.sender && m.parts == key.total
    && (forall x: nat :: x in m.sources <==> IsLeft(parts, o, key, x))
    && (forall i, j :: 0 <= i < j < |m.sources| ==> m.sources[i] < m.sources[j])
  }

  /** What is left of a group is released, all of it in one message, exactly when something of it has a
      stamp and every stamp of it is older than the grace; until then all of it waits. */
  lemma LeftAreReleasedExactlyWhenOld(parts: seq<ConcatPart>, key: Key, now: i64, grace: i64)
    requires 2 <= key.total
    ensures var o := Assembly(parts, now, grace);
            if HasGrownOld(parts, o, key, now, grace) then
              && (exists m :: ReleasesAll(parts, o, key, m))
              && (forall x: nat :: IsLeft(parts, o, key, x) ==> x !in o.pending)
            else forall x: nat :: IsLeft(parts, o, key, x) ==> x in o.pending
  {
    hide Left, Assembly, IsLeft, Waiting, HasGrownOld, Expired;
    var o := Assembly(parts, now, grace);
    var left := Left(parts, key);
    ExpiredIsGrownOld(parts, key, now, grace);
    GroupGives(parts, key, now, grace);
    forall x: nat
      ensures x in left <==> IsLeft(parts, o, key, x)
    {
      LeftRows(parts, key, now, grace, x);
    }
    GrownOldIsLeft(parts, o, key, now, grace);
    if HasGrownOld(parts, o, key, now, grace) {
      ReleasedInPass(parts, key, now, grace);
      forall x: nat | IsLeft(parts, o, key, x)
        ensures x !in o.pending
      {
        if x in Pending(parts, now, grace) {
          PendingRow(parts, now, grace, x);
          KeyOfLeft(parts, o, key, x);
        }
      }
    } else {
      forall x: nat | IsLeft(parts, o, key, x)
        ensures x in o.pending
      {
        WaitingRow(parts, now, grace, key, x);
      }
    }
  }

  lemma KeyOfLeft(parts: seq<ConcatPart>, o: Outcome, key: Key, x: nat)
    requires IsLeft(parts, o, key, x)
    ensures x < |parts| && KeyOf(parts[x]) == key && !Standalone(parts[x])
  {
  }

  lemma GrownOldIsLeft(parts: seq<ConcatPart>, o: Outcome, key: Key, now: i64, grace: i64)
    ensures HasGrownOld(parts, o, key, now, grace) ==> exists x: nat :: IsLeft(parts, o, key, x)
  {
  }

  lemma LeftAscends(parts: seq<ConcatPart>, key: Key)
    requires 2 <= key.total
    ensures var left := Left(parts, key); forall i, j :: 0 <= i < j < |left| ==> left[i] < left[j]
  {
    hide AllQueues, Shortest;
    var queues := AllQueues(parts, key);
    var tails := Tails(queues, Shortest(queues));
    var left := Left(parts, key);
    AscendingIsStrictTotal();
    SortSorts(Ascending(), tails);
    TailsDistinct(parts, key, queues, Shortest(queues), |queues|);
    assert queues[..|queues|] == queues;
    SortKeepsDistinct(Ascending(), tails);
    forall i, j | 0 <= i < j < |left|
      ensures left[i] < left[j]
    {
      assert Ascending()(left[i], left[j]);
    }
  }

  lemma DistinctAppend(a: seq<nat>, b: seq<nat>)
    requires Distinct(a) && Distinct(b) && forall i, j :: 0 <= i < |a| && 0 <= j < |b| ==> a[i] != b[j]
    ensures Distinct(a + b)
  {
  }

  /** The tails of the queues before this one hold none of its fragments. */
  lemma OtherTails(parts: seq<ConcatPart>, key: Key, queues: seq<seq<nat>>, n: nat, t: nat)
    requires 2 <= key.total && queues == AllQueues(parts, key) && t < |queues| && AllReach(queues, n)
    ensures forall x :: x in Tails(queues[..t], n) ==> x !in queues[t]
  {
    hide AllQueues, Before;
    QueueIsInOrder(parts, key, t + 1);
    TailsContents(queues[..t], n);
    forall x | x in Tails(queues[..t], n)
      ensures x !in queues[t]
    {
      var i :| 0 <= i < t && x in queues[..t][i][n..];
      QueueIsInOrder(parts, key, i + 1);
      assert x in queues[i];
    }
  }

  lemma {:induction false} TailsDistinct(parts: seq<ConcatPart>, key: Key, queues: seq<seq<nat>>, n: nat, t: nat)
    requires 2 <= key.total && queues == AllQueues(parts, key) && t <= |queues| && AllReach(queues, n)
    ensures Distinct(Tails(queues[..t], n))
  {
    hide AllQueues, Before, Numbered, IsFragment;
    if t > 0 {
      TailsDistinct(parts, key, queues, n, t - 1);
      assert queues[..t][..t - 1] == queues[..t - 1];
      var front, last := Tails(queues[..t - 1], n), queues[t - 1][n..];
      QueueIsInOrder(parts, key, t);
      OtherTails(parts, key, queues, n, t - 1);
      forall i, j | 0 <= i < |front| && 0 <= j < |last|
        ensures front[i] != last[j]
      {
        assert front[i] in front && last[j] in queues[t - 1];
      }
      DistinctAppend(front, last);
    }
  }

  lemma ReleasedInPass(parts: seq<ConcatPart>, key: Key, now: i64, grace: i64)
    requires 2 <= key.total && Left(parts, key) != []
    requires InGroup(parts, key, now, grace, Released(parts, key, Left(parts, key)))
    requires forall x: nat :: x in Left(parts, key) <==> IsLeft(parts, Assembly(parts, now, grace), key, x)
    ensures ReleasesAll(parts, Assembly(parts, now, grace), key, Released(parts, key, Left(parts, key)))
  {
    hide Left, InGroup, GroupsOutcome, KeyOrder, IsLeft;
    var left := Left(parts, key);
    var m := Released(parts, key, left);
    var keys := Keys(parts, |parts|);
    OrderCoversKeys(keys);
    KeysAreOfFragments(parts);
    assert left[0] in left;
    KeyOfLeft(parts, Assembly(parts, now, grace), key, left[0]);
    KeyOfFragment(parts, left[0]);
    InSomeGroup(parts, KeyOrder(keys), now, grace, m);
    LeftAscends(parts, key);
    LeftLacks(parts, key);
  }

  lemma LeftLacks(parts: seq<ConcatPart>, key: Key)
    requires 2 <= key.total
    ensures Gaps(parts, Left(parts, key), key.total) != []
  {
    hide AllQueues, Shortest, Sort, Tails;
    var queues := AllQueues(parts, key);
    var gap := LeftoversHaveAGap(parts, key, queues);
    GapsAreAbsences(parts, Left(parts, key), key.total);
    assert gap in Gaps(parts, Left(parts, key), key.total);
  }

  /** A row waits exactly if it is a fragment left over in a group that has not grown old. */
  lemma WaitsExactlyWhileYoung(parts: seq<ConcatPart>, key: Key, now: i64, grace: i64, x: nat)
    requires IsFragment(parts, key, x)
    ensures var o := Assembly(parts, now, grace);
            x in o.pending <==> IsLeft(parts, o, key, x) && !HasGrownOld(parts, o, key, now, grace)
  {
    hide Assembly, HasGrownOld;
    LeftAreReleasedExactlyWhenOld(parts, key, now, grace);
    var o := Assembly(parts, now, grace);
    if x in o.pending {
      forall m | m in o.assembled && m.missing == []
        ensures x !in m.sources
      {
        NotBoth(parts, now, grace, m, x);
      }
    }
  }

  lemma NotBoth(parts: seq<ConcatPart>, now: i64, grace: i64, m: AssembledSms, x: nat)
    requires m in Assembly(parts, now, grace).assembled && x in Assembly(parts, now, grace).pending
    ensures x !in m.sources
  {
    hide Assembly;
    var o := Assembly(parts, now, grace);
    EveryRowIsAccountedForOnce(parts, now, grace, x);
    TimesMembers(o.pending, x);
    TimesMembers(SourcesOf(o.assembled), x);
    SourcesOfMembers(o.assembled, x);
    var i :| 0 <= i < |o.assembled| && o.assembled[i] == m;
  }

  /** At the fragments of a pass over the store: one that is new waits for its siblings exactly while it is
      left over and its group has not been silent for a day. */
  lemma FragmentWaitsForADay(fragments: seq<InboundFragment>, seen: seq<bool>, now: i64, j: nat, key: Key)
    requires j < |Unseen(fragments, seen, |fragments|)| && IsFragment(NewParts(fragments, seen), key, j)
    ensures var o := PassOutcome(fragments, seen, now);
            var parts := NewParts(fragments, seen);
            Settle.IsWaiting(fragments, seen, now, Unseen(fragments, seen, |fragments|)[j]) <==>
            IsLeft(parts, o, key, j) && !HasGrownOld(parts, o, key, now, 86_400_000)
  {
    hide Assembly, HasGrownOld, IsLeft, Unseen;
    UnseenMembers(fragments, seen, |fragments|);
    WaitsExactlyWhileYoung(NewParts(fragments, seen), key, now, FRAGMENT_GRACE_MS, j);
    var kept := Unseen(fragments, seen, |fragments|);
    assert forall i :: 0 <= i < |kept| && kept[i] == kept[j] ==> i == j;
  }
}
