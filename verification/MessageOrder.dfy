/** The order in which a pass returns its messages. */
module MessageOrder {
  import opened Basics
  import opened Sorting
  import opened Concat
  import opened Reassembly
  import opened Deliveries
  import opened Leftovers

  // ----- Keys ---------------------------------------------------------------------

  /** The first text ends, or has the smaller character, where the two first differ. */
  ghost predicate DiffersAt(a: string, b: string, n: nat) {
    && n <= |a| && n < |b| && a[..n] == b[..n]
    && (n == |a| || a[n] < b[n])
  }

  ghost predicate TextBefore(a: string, b: string) {
    exists n: nat :: DiffersAt(a, b, n)
  }

  /** By sender, then by reference, then by the number of parts. */
  ghost predicate KeyBefore(a: Key, b: Key) {
    || TextBefore(a.sender, b.sender)
    || (a.sender == b.sender && a.refId < b.refId)
    || (a.sender == b.sender && a.refId == b.refId && a.total < b.total)
  }

  lemma {:induction false} StringLessIsBefore(a: string, b: string)
    ensures StringLess(a, b) <==> TextBefore(a, b)
    decreases |a|
  {
    SameFirst(a, b);
    if b != [] && (a == [] || a[0] < b[0]) {
      assert DiffersAt(a, b, 0);
    } else if a != [] && b != [] && a[0] == b[0] {
      StringLessIsBefore(a[1..], b[1..]);
      if n: nat :| DiffersAt(a[1..], b[1..], n) {
        assert a[..n + 1] == [a[0]] + a[1..][..n] && b[..n + 1] == [b[0]] + b[1..][..n];
        assert DiffersAt(a, b, n + 1);
      }
      if n: nat :| DiffersAt(a, b, n) {
        assert n > 0;
        assert a[1..][..n - 1] == a[..n][1..] && b[1..][..n - 1] == b[..n][1..];
        assert DiffersAt(a[1..], b[1..], n - 1);
      }
    }
  }

  lemma SameFirst(a: string, b: string)
    ensures forall n: nat :: DiffersAt(a, b, n) && n > 0 ==> a != [] && b != [] && a[0] == b[0]
  {
    forall n: nat | DiffersAt(a, b, n) && n > 0
      ensures a != [] && b != [] && a[0] == b[0]
    {
      assert a[..n][0] == b[..n][0];
    }
  }

  lemma KeyLessIsBefore(a: Key, b: Key)
    ensures KeyLess(a, b) <==> KeyBefore(a, b)
  {
    StringLessIsBefore(a.sender, b.sender);
  }

  ghost predicate Ascends(order: seq<Key>) {
    forall i, j :: 0 <= i < j < |order| ==> KeyLess(order[i], order[j])
  }

  lemma {:induction false} KeyOrderAscends(keys: set<Key>)
    ensures Ascends(KeyOrder(keys))
    decreases |keys|
  {
    hide KeyLess;
    if keys != {} {
      LeastExists(keys);
      var order := KeyOrder(keys);
      var k := order[0];
      KeyOrderAscends(keys - {k});
      OrderCoversKeys(keys - {k});
      var rest := KeyOrder(keys - {k});
      assert order == [k] + rest;
      assert forall j :: 0 <= j < |rest| ==> rest[j] in rest;
    }
  }

  // ----- Messages of groups --------------------------------------------------------

  /** Both messages are of groups, and the first comes first: an earlier group; or, in one group, a message
      that lacks nothing before one with gaps, and an older one before a newer. */
  ghost predicate GroupedBefore(parts: seq<ConcatPart>, a: AssembledSms, b: AssembledSms) {
    exists ka, kb :: IsOf(parts, a, ka) && IsOf(parts, b, kb) && Earlier(parts, a, ka, b, kb)
  }

  ghost predicate Earlier(parts: seq<ConcatPart>, a: AssembledSms, ka: Key, b: AssembledSms, kb: Key)
    requires IsOf(parts, a, ka) && IsOf(parts, b, kb)
  {
    || KeyBefore(ka, kb)
    || (&& ka == kb && a.missing == []
        && (b.missing != [] || |Ahead(parts, ka, a.sources[0])| < |Ahead(parts, kb, b.sources[0])|))
  }

  lemma WholeRank(parts: seq<ConcatPart>, key: Key, r: nat)
    requires 2 <= key.total && r < |Whole(parts, key)|
    ensures IsOf(parts, Whole(parts, key)[r], key) && |Ahead(parts, key, Whole(parts, key)[r].sources[0])| == r
  {
    hide AllQueues, Shortest, IsOf, Ahead;
    var queues := AllQueues(parts, key);
    var n := Shortest(queues);
    WholeMessageCount(parts, key, queues, n);
    WholeMessageAt(parts, key, queues, n, r);
    RowElements(parts, queues, r);
    PlaceIsRank(parts, key, 1, r);
    GroupMessage(parts, key, 0, 0, Whole(parts, key)[r]);
  }

  /** What a group gives: its whole messages, and perhaps one more, with gaps. */
  lemma GroupGivesWholeFirst(parts: seq<ConcatPart>, key: Key, now: i64, grace: i64)
    requires 2 <= key.total
    ensures var given := Given(parts, now, grace)(key);
            given == Whole(parts, key) || (|given| > 0 && given[..|given| - 1] == Whole(parts, key))
  {
    hide Shortest, Sort, Tails, Expired, Released, Slots, WholeMessages;
    SlotsAreGroup(parts, key, |parts|);
    ShortestBounds(AllQueues(parts, key));
    var whole := Whole(parts, key);
    var given := Given(parts, now, grace)(key);
    if given != whole {
      var last := given[|given| - 1];
      assert given == whole + [last];
    }
  }

  lemma GroupInOrder(parts: seq<ConcatPart>, key: Key, now: i64, grace: i64, i: nat, j: nat)
    requires 2 <= key.total && i < j < |Given(parts, now, grace)(key)|
    ensures GroupedBefore(parts, Given(parts, now, grace)(key)[i], Given(parts, now, grace)(key)[j])
  {
    hide Given, Whole, IsOf, Ahead;
    GroupGivesWholeFirst(parts, key, now, grace);
    var given, whole := Given(parts, now, grace)(key), Whole(parts, key);
    assert given[i] == whole[i];
    WholeRank(parts, key, i);
    IsGiven(parts, key, now, grace, i);
    IsGiven(parts, key, now, grace, j);
    assert whole[i] in whole;
    if j < |whole| {
      assert given[j] == whole[j];
      WholeRank(parts, key, j);
    }
    GroupMessage(parts, key, now, grace, given[i]);
    GroupMessage(parts, key, now, grace, given[j]);
    assert given[j] in whole ==> given[j].missing == [];
    if given[j].missing == [] && |whole| <= j {
      LastIsNotWhole(parts, key, now, grace);
    }
    assert Earlier(parts, given[i], key, given[j], key);
  }

  /** The one more is not whole. */
  lemma LastIsNotWhole(parts: seq<ConcatPart>, key: Key, now: i64, grace: i64)
    requires 2 <= key.total && Given(parts, now, grace)(key) != Whole(parts, key)
    ensures var given := Given(parts, now, grace)(key); |given| > 0 && given[|given| - 1].missing != []
  {
    hide Shortest, Sort, Tails, Slots, WholeMessages, FilledBody, Expired;
    SlotsAreGroup(parts, key, |parts|);
    LeftLacks(parts, key);
  }

  lemma IsGiven(parts: seq<ConcatPart>, key: Key, now: i64, grace: i64, i: nat)
    requires 2 <= key.total && i < |Given(parts, now, grace)(key)|
    ensures InGroup(parts, key, now, grace, Given(parts, now, grace)(key)[i])
  {
  }

  // ----- The pass --------------------------------------------------------------------

  lemma GroupsStep(parts: seq<ConcatPart>, order: seq<Key>, now: i64, grace: i64)
    requires order != [] && forall key :: key in order ==> 2 <= key.total
    ensures GroupsOutcome(parts, order, now, grace).assembled ==
            GroupsOutcome(parts, order[..|order| - 1], now, grace).assembled + Given(parts, now, grace)(order[|order| - 1])
  {
    SlotsAreGroup(parts, order[|order| - 1], |parts|);
  }

  lemma {:induction false} GroupsInOrder(parts: seq<ConcatPart>, order: seq<Key>, now: i64, grace: i64, i: nat, j: nat)
    requires Ascends(order) && forall key :: key in order ==> 2 <= key.total
    requires i < j < |GroupsOutcome(parts, order, now, grace).assembled|
    ensures var assembled := GroupsOutcome(parts, order, now, grace).assembled;
            GroupedBefore(parts, assembled[i], assembled[j])
    decreases |order|
  {
    hide GroupsOutcome, Given, GroupedBefore, KeyLess;
    if order == [] {
      NoGroups(parts, now, grace);
    } else {
      var rest, last := order[..|order| - 1], order[|order| - 1];
      GroupsStep(parts, order, now, grace);
      var before := GroupsOutcome(parts, rest, now, grace).assembled;
      var given := Given(parts, now, grace)(last);
      if j < |before| {
        GroupsInOrder(parts, rest, now, grace, i, j);
      } else if i >= |before| {
        GroupInOrder(parts, last, now, grace, i - |before|, j - |before|);
      } else {
        EarlierGroup(parts, rest, last, now, grace, before[i], j - |before|);
      }
    }
  }

  lemma NoGroups(parts: seq<ConcatPart>, now: i64, grace: i64)
    ensures GroupsOutcome(parts, [], now, grace).assembled == []
  {
  }

  lemma EarlierGroup(parts: seq<ConcatPart>, rest: seq<Key>, last: Key, now: i64, grace: i64, m: AssembledSms, j: nat)
    requires Ascends(rest + [last]) && 2 <= last.total && forall key :: key in rest ==> 2 <= key.total
    requires m in GroupsOutcome(parts, rest, now, grace).assembled && j < |Given(parts, now, grace)(last)|
    ensures GroupedBefore(parts, m, Given(parts, now, grace)(last)[j])
  {
    hide GroupsOutcome, Given, IsOf, KeyLess, InGroup;
    InSomeGroup(parts, rest, now, grace, m);
    var key :| key in rest && InGroup(parts, key, now, grace, m);
    var i :| 0 <= i < |rest| && rest[i] == key;
    assert (rest + [last])[i] == key && (rest + [last])[|rest|] == last;
    KeyLessIsBefore(key, last);
    IsGiven(parts, last, now, grace, j);
    GroupMessage(parts, key, now, grace, m);
    GroupMessage(parts, last, now, grace, Given(parts, now, grace)(last)[j]);
    assert Earlier(parts, m, key, Given(parts, now, grace)(last)[j], last);
  }

  lemma {:induction false} SinglesInOrder(parts: seq<ConcatPart>, n: nat, i: nat, j: nat)
    requires n <= |parts| && i < j < |Singles(parts, n)|
    ensures var singles := Singles(parts, n);
            && |singles[i].sources| == 1 && |singles[j].sources| == 1
            && singles[i].sources[0] < singles[j].sources[0] < n
    decreases n
  {
    var before := Singles(parts, n - 1);
    if j < |before| {
      SinglesInOrder(parts, n - 1, i, j);
    } else {
      SinglesPassThroughBelow(parts, n - 1);
      assert before[i] in before;
    }
  }

  lemma {:induction false} SinglesPassThroughBelow(parts: seq<ConcatPart>, n: nat)
    requires n <= |parts|
    ensures forall m :: m in Singles(parts, n) ==> |m.sources| == 1 && m.sources[0] < n
  {
    if n > 0 {
      SinglesPassThroughBelow(parts, n - 1);
    }
  }

  /** Rows passed through come first, by their place; then the groups, by sender, reference and total, each
      with its whole messages, oldest first, and what is released of it last. */
  ghost predicate ComesBefore(parts: seq<ConcatPart>, a: AssembledSms, b: AssembledSms) {
    if IsPassedThrough(parts, a) then IsPassedThrough(parts, b) ==> a.sources[0] < b.sources[0]
    else !IsPassedThrough(parts, b) && GroupedBefore(parts, a, b)
  }

  lemma MessagesComeInOrder(parts: seq<ConcatPart>, now: i64, grace: i64, i: nat, j: nat)
    requires i < j < |Assembly(parts, now, grace).assembled|
    ensures var assembled := Assembly(parts, now, grace).assembled;
            ComesBefore(parts, assembled[i], assembled[j])
  {
    hide Keys, KeyOrder, Singles, GroupsOutcome, IsPassedThrough, GroupedBefore, KeyLess;
    var keys := Keys(parts, |parts|);
    var order := KeyOrder(keys);
    OrderCoversKeys(keys);
    KeysAreOfFragments(parts);
    KeyOrderAscends(keys);
    var singles, grouped := Singles(parts, |parts|), GroupsOutcome(parts, order, now, grace).assembled;
    SinglesPassThrough(parts, |parts|);
    var assembled := Assembly(parts, now, grace).assembled;
    assert assembled == singles + grouped;
    if j < |singles| {
      SinglesInOrder(parts, |parts|, i, j);
      assert singles[i] in singles && singles[j] in singles;
    } else {
      assert grouped[j - |singles|] in grouped;
      GroupedIsNotPassed(parts, order, now, grace, assembled[j]);
      if i < |singles| {
        assert singles[i] in singles;
      } else {
        assert grouped[i - |singles|] in grouped;
        GroupedIsNotPassed(parts, order, now, grace, assembled[i]);
        GroupsInOrder(parts, order, now, grace, i - |singles|, j - |singles|);
      }
    }
  }

  lemma GroupedIsNotPassed(parts: seq<ConcatPart>, order: seq<Key>, now: i64, grace: i64, m: AssembledSms)
    requires forall key :: key in order ==> 2 <= key.total
    requires m in GroupsOutcome(parts, order, now, grace).assembled
    ensures !IsPassedThrough(parts, m)
  {
    hide GroupsOutcome, InGroup;
    InSomeGroup(parts, order, now, grace, m);
    var key :| key in order && InGroup(parts, key, now, grace, m);
    GroupMessage(parts, key, now, grace, m);
  }
}
