/** What one pass over a modem's store settles into, and which of its slots may be cleared. */
module Settle {
  import opened Basics
  import opened Sorting
  import opened Concat
  import opened Assembler
  import opened Reassembly

  datatype InboundFragment = InboundFragment(slot: nat, encoding: string, fingerprint: string, part: ConcatPart)

  datatype SettledMessage = SettledMessage(
    message: AssembledSms,
    encoding: string,
    slots: seq<nat>,
    fingerprints: seq<string>)

  datatype InboundSettlement = InboundSettlement(
    ready: seq<SettledMessage>,
    alreadyOurs: seq<nat>,
    pending: nat)

  /** The ledger already has this fragment; a short `seen` counts the rest as new. */
  predicate IsSeen(seen: seq<bool>, index: nat) {
    index < |seen| && seen[index]
  }

  /** Indices below `n` of the fragments that are new, ascending. */
  function Unseen(fragments: seq<InboundFragment>, seen: seq<bool>, n: nat): seq<nat>
    requires n <= |fragments|
  {
    if n == 0 then [] else Unseen(fragments, seen, n - 1) + if IsSeen(seen, n - 1) then [] else [n - 1]
  }

  function SeenSlots(fragments: seq<InboundFragment>, seen: seq<bool>, n: nat): seq<nat>
    requires n <= |fragments|
  {
    if n == 0 then []
    else SeenSlots(fragments, seen, n - 1) + if IsSeen(seen, n - 1) then [fragments[n - 1].slot] else []
  }

  function PartsOf(fragments: seq<InboundFragment>, kept: seq<nat>): seq<ConcatPart>
    requires forall i :: 0 <= i < |kept| ==> kept[i] < |fragments|
  {
    seq(|kept|, i requires 0 <= i < |kept| => fragments[kept[i]].part)
  }

  /** `filter_map` over `get`: an index past the end would be skipped. */
  function Collect<T>(xs: seq<T>, sources: seq<nat>): seq<T> {
    if sources == [] then []
    else
      var last := sources[|sources| - 1];
      Collect(xs, sources[..|sources| - 1]) + if last < |xs| then [xs[last]] else []
  }

  lemma {:induction false} CollectAll<T>(xs: seq<T>, sources: seq<nat>)
    requires forall i :: 0 <= i < |sources| ==> sources[i] < |xs|
    ensures |Collect(xs, sources)| == |sources|
    ensures forall i :: 0 <= i < |sources| ==> Collect(xs, sources)[i] == xs[sources[i]]
  {
    if sources != [] {
      CollectAll(xs, sources[..|sources| - 1]);
    }
  }

  // ----- The settlement, in terms of the fragments handed in -----------------

  /** A ready message names the fragments it was made of: their own slots, fingerprints and
      the first one's alphabet. */
  ghost predicate Describes(fragments: seq<InboundFragment>, kept: seq<nat>, m: SettledMessage, a: AssembledSms) {
    && m.message == a
    && a.sources != []
    && |m.slots| == |m.fingerprints| == |a.sources|
    && (forall i :: 0 <= i < |a.sources| ==>
          && a.sources[i] < |kept| && kept[a.sources[i]] < |fragments|
          && m.slots[i] == fragments[kept[a.sources[i]]].slot
          && m.fingerprints[i] == fragments[kept[a.sources[i]]].fingerprint)
    && m.encoding == fragments[kept[a.sources[0]]].encoding
  }

  ghost predicate Settles(fragments: seq<InboundFragment>, seen: seq<bool>, now: i64, s: InboundSettlement) {
    var kept := Unseen(fragments, seen, |fragments|);
    && (forall i :: 0 <= i < |kept| ==> kept[i] < |fragments|)
    && var outcome := Assembly(PartsOf(fragments, kept), now, FRAGMENT_GRACE_MS);
       && |s.ready| == |outcome.assembled|
       && (forall i :: 0 <= i < |s.ready| ==> Describes(fragments, kept, s.ready[i], outcome.assembled[i]))
       && s.alreadyOurs == SeenSlots(fragments, seen, |fragments|)
       && s.pending == |outcome.pending|
  }

  lemma {:induction false} UnseenMembers(fragments: seq<InboundFragment>, seen: seq<bool>, n: nat)
    requires n <= |fragments|
    ensures forall i :: 0 <= i < |Unseen(fragments, seen, n)| ==>
                        Unseen(fragments, seen, n)[i] < n && !IsSeen(seen, Unseen(fragments, seen, n)[i])
    ensures forall k: nat :: k < n && !IsSeen(seen, k) ==> k in Unseen(fragments, seen, n)
    ensures forall i, j :: 0 <= i < j < |Unseen(fragments, seen, n)| ==>
                           Unseen(fragments, seen, n)[i] < Unseen(fragments, seen, n)[j]
    ensures |Unseen(fragments, seen, n)| + |SeenSlots(fragments, seen, n)| == n
  {
    if n > 0 {
      UnseenMembers(fragments, seen, n - 1);
    }
  }

  lemma {:induction false} SeenSlotsMembers(fragments: seq<InboundFragment>, seen: seq<bool>, n: nat, slot: nat)
    requires n <= |fragments|
    ensures slot in SeenSlots(fragments, seen, n) <==>
            exists k :: 0 <= k < n && IsSeen(seen, k) && fragments[k].slot == slot
  {
    if n > 0 {
      SeenSlotsMembers(fragments, seen, n - 1, slot);
    }
  }

  /** A source list never points outside the parts, and never is empty. */
  lemma SourcesInRange(parts: seq<ConcatPart>, now: i64, grace: i64, m: AssembledSms)
    requires m in Assembly(parts, now, grace).assembled
    ensures m.sources != [] && InRange(parts, m.sources)
  {
    EveryMessageIsAccounted(parts, now, grace);
  }

  /** The five parallel vectors, all about the fragments at the indices `kept`. */
  ghost predicate Parallel(fragments: seq<InboundFragment>, kept: seq<nat>, parts: seq<ConcatPart>,
                           encodings: seq<string>, slots: seq<nat>, fingerprints: seq<string>) {
    && |parts| == |encodings| == |fingerprints| == |slots| == |kept|
    && forall i :: 0 <= i < |kept| ==>
         && kept[i] < |fragments|
         && parts[i] == fragments[kept[i]].part && slots[i] == fragments[kept[i]].slot
         && encodings[i] == fragments[kept[i]].encoding && fingerprints[i] == fragments[kept[i]].fingerprint
  }

  method Separate(fragments: seq<InboundFragment>, seen: seq<bool>)
    returns (parts: seq<ConcatPart>, encodings: seq<string>, slots: seq<nat>, fingerprints: seq<string>,
             alreadyOurs: seq<nat>, ghost kept: seq<nat>)
    ensures kept == Unseen(fragments, seen, |fragments|)
    ensures Parallel(fragments, kept, parts, encodings, slots, fingerprints)
    ensures alreadyOurs == SeenSlots(fragments, seen, |fragments|)
  {
    parts, encodings, fingerprints, slots, alreadyOurs := [], [], [], [], [];
    kept := [];
    for index := 0 to |fragments|
      invariant kept == Unseen(fragments, seen, index)
      invariant Parallel(fragments, kept, parts, encodings, slots, fingerprints)
      invariant alreadyOurs == SeenSlots(fragments, seen, index)
    {
      var fragment := fragments[index];
      if index < |seen| && seen[index] {
        alreadyOurs := alreadyOurs + [fragment.slot];
      } else {
        encodings := encodings + [fragment.encoding];
        fingerprints := fingerprints + [fragment.fingerprint];
        slots := slots + [fragment.slot];
        parts := parts + [fragment.part];
        kept := kept + [index];
      }
    }
  }

  method SettleInbound(fragments: seq<InboundFragment>, seen: seq<bool>, now: i64) returns (settled: InboundSettlement)
    ensures Settles(fragments, seen, now, settled)
  {
    ghost var kept: seq<nat>;
    var parts, encodings, slots, fingerprints, alreadyOurs;
    parts, encodings, slots, fingerprints, alreadyOurs, kept := Separate(fragments, seen);
    assert parts == PartsOf(fragments, kept);
    var assembled, pending := Assemble(parts, now, FRAGMENT_GRACE_MS);
    var ready := Label(assembled, encodings, slots, fingerprints, fragments, kept, parts, now, pending);
    settled := InboundSettlement(ready, alreadyOurs, |pending|);
  }

  /** The mapping of assembled messages back to the fragments of the pass. */
  method Label(assembled: seq<AssembledSms>, encodings: seq<string>, slots: seq<nat>, fingerprints: seq<string>,
               ghost fragments: seq<InboundFragment>, ghost kept: seq<nat>, ghost parts: seq<ConcatPart>, ghost now: i64,
               ghost pending: seq<nat>)
    returns (ready: seq<SettledMessage>)
    requires Parallel(fragments, kept, parts, encodings, slots, fingerprints)
    requires Outcome(assembled, pending) == Assembly(parts, now, FRAGMENT_GRACE_MS)
    ensures |ready| == |assembled|
    ensures forall i :: 0 <= i < |ready| ==> Describes(fragments, kept, ready[i], assembled[i])
  {
    hide Assembly, Collect;
    ready := [];
    for n := 0 to |assembled|
      invariant |ready| == n
      invariant forall i :: 0 <= i < n ==> Describes(fragments, kept, ready[i], assembled[i])
    {
      var message := assembled[n];
      SourcesInRange(parts, now, FRAGMENT_GRACE_MS, message);
      CollectAll(slots, message.sources);
      CollectAll(fingerprints, message.sources);
      var encoding := if |message.sources| > 0 && message.sources[0] < |encodings|
        then encodings[message.sources[0]] else "unknown";
      ready := ready + [SettledMessage(message, encoding, Collect(slots, message.sources),
                                       Collect(fingerprints, message.sources))];
    }
  }

  // ----- What may be deleted --------------------------------------------------

  function ReadySlots(ready: seq<SettledMessage>): seq<nat> {
    if ready == [] then [] else ReadySlots(ready[..|ready| - 1]) + ready[|ready| - 1].slots
  }

  /** `dedup` on a list: adjacent repeats are dropped. */
  function Dedup(xs: seq<nat>): seq<nat> {
    if |xs| < 2 then xs
    else
      var rest := Dedup(xs[..|xs| - 1]);
      if xs[|xs| - 2] == xs[|xs| - 1] then rest else rest + [xs[|xs| - 1]]
  }

  lemma {:induction false} DedupMembers(xs: seq<nat>)
    ensures forall x :: x in Dedup(xs) <==> x in xs
    ensures xs != [] ==> Dedup(xs) != [] && Dedup(xs)[|Dedup(xs)| - 1] == xs[|xs| - 1]
  {
    if |xs| >= 2 {
      var rest := xs[..|xs| - 1];
      DedupMembers(rest);
      assert xs == rest + [xs[|xs| - 1]];
    }
  }

  lemma {:induction false} DedupStrict(xs: seq<nat>)
    requires SortedBy(Ascending(), xs)
    ensures forall i, j :: 0 <= i < j < |Dedup(xs)| ==> Dedup(xs)[i] < Dedup(xs)[j]
  {
    if |xs| >= 2 {
      var rest := xs[..|xs| - 1];
      DedupStrict(rest);
      DedupMembers(rest);
      var d := Dedup(rest);
      forall i | 0 <= i < |d| && xs[|xs| - 2] != xs[|xs| - 1]
        ensures d[i] < xs[|xs| - 1]
      {
        assert d[i] in rest;
        var k :| 0 <= k < |rest| && rest[k] == d[i];
        assert xs[k] == d[i] && (xs[k] == xs[|xs| - 2] || Ascending()(xs[k], xs[|xs| - 2]));
        assert Ascending()(xs[|xs| - 2], xs[|xs| - 1]);
      }
    }
  }

  /** Every slot whose modem copy may go, once the ready messages are stored. */
  method Deletable(s: InboundSettlement) returns (slots: seq<nat>)
    ensures IsDeletable(s, slots)
  {
    slots := s.alreadyOurs;
    for n := 0 to |s.ready|
      invariant slots == s.alreadyOurs + ReadySlots(s.ready[..n])
    {
      assert s.ready[..n + 1][..n] == s.ready[..n];
      slots := slots + s.ready[n].slots;
    }
    assert s.ready[..|s.ready|] == s.ready;
    var sorted := Sort(Ascending(), slots);
    SortContents(Ascending(), slots);
    SameMembers(sorted, slots);
    AscendingIsStrictTotal();
    SortSorts(Ascending(), slots);
    DedupMembers(sorted);
    DedupStrict(sorted);
    slots := Dedup(sorted);
  }

  // ----- The deletion rule -----------------------------------------------------

  lemma {:induction false} ReadySlotsMembers(ready: seq<SettledMessage>, x: nat)
    ensures x in ReadySlots(ready) <==> exists i :: 0 <= i < |ready| && x in ready[i].slots
  {
    if ready != [] {
      var rest := ready[..|ready| - 1];
      ReadySlotsMembers(rest, x);
      if i :| 0 <= i < |rest| && x in rest[i].slots {
        assert x in ready[i].slots;
      }
      if i :| 0 <= i < |ready| && x in ready[i].slots {
        assert i < |rest| ==> x in rest[i].slots;
      }
    }
  }

  lemma {:induction false} TimesMembers(xs: seq<nat>, x: nat)
    ensures x in xs <==> Times(xs, x) > 0
  {
    TimesIsMultiplicity(xs, x);
    assert x in xs <==> x in multiset(xs);
  }

  lemma {:induction false} SourcesOfMembers(messages: seq<AssembledSms>, x: nat)
    ensures x in SourcesOf(messages) <==> exists i :: 0 <= i < |messages| && x in messages[i].sources
  {
    if messages != [] {
      var rest := messages[..|messages| - 1];
      SourcesOfMembers(rest, x);
      if i :| 0 <= i < |rest| && x in rest[i].sources {
        assert x in messages[i].sources;
      }
      if i :| 0 <= i < |messages| && x in messages[i].sources {
        assert i < |rest| ==> x in rest[i].sources;
      }
    }
  }

  ghost predicate DistinctSlots(fragments: seq<InboundFragment>) {
    forall i, j :: 0 <= i < j < |fragments| ==> fragments[i].slot != fragments[j].slot
  }

  ghost function PassOutcome(fragments: seq<InboundFragment>, seen: seq<bool>, now: i64): Outcome {
    UnseenMembers(fragments, seen, |fragments|);
    Assembly(PartsOf(fragments, Unseen(fragments, seen, |fragments|)), now, FRAGMENT_GRACE_MS)
  }

  /** Fragment `k` of the pass is still waiting for its siblings. */
  ghost predicate IsWaiting(fragments: seq<InboundFragment>, seen: seq<bool>, now: i64, k: nat) {
    var kept := Unseen(fragments, seen, |fragments|);
    exists j :: 0 <= j < |kept| && kept[j] == k && j in PassOutcome(fragments, seen, now).pending
  }

  /** Fragment `k` of the pass went into a message that is ready to be stored. */
  ghost predicate IsUsed(fragments: seq<InboundFragment>, seen: seq<bool>, now: i64, k: nat) {
    var kept := Unseen(fragments, seen, |fragments|);
    exists j :: 0 <= j < |kept| && kept[j] == k && j in SourcesOf(PassOutcome(fragments, seen, now).assembled)
  }

  /** Each fragment is exactly one of stored already, used, or waiting. */
  lemma EachFragmentHasOneFate(fragments: seq<InboundFragment>, seen: seq<bool>, now: i64, k: nat)
    requires k < |fragments|
    ensures k < |seen| && seen[k] ==> !IsUsed(fragments, seen, now, k) && !IsWaiting(fragments, seen, now, k)
    ensures !(k < |seen| && seen[k]) ==> (IsUsed(fragments, seen, now, k) <==> !IsWaiting(fragments, seen, now, k))
  {
    var kept := Unseen(fragments, seen, |fragments|);
    UnseenMembers(fragments, seen, |fragments|);
    var outcome := PassOutcome(fragments, seen, now);
    if !IsSeen(seen, k) {
      var j :| 0 <= j < |kept| && kept[j] == k;
      EveryRowIsAccountedForOnce(PartsOf(fragments, kept), now, FRAGMENT_GRACE_MS, j);
      TimesMembers(SourcesOf(outcome.assembled), j);
      TimesMembers(outcome.pending, j);
      assert forall i :: 0 <= i < |kept| && kept[i] == k ==> i == j;
    }
  }

  /** A slot is in a ready message exactly when its fragment was used. */
  lemma ReadySlotIsUsed(fragments: seq<InboundFragment>, seen: seq<bool>, now: i64, s: InboundSettlement, k: nat)
    requires Settles(fragments, seen, now, s) && DistinctSlots(fragments) && k < |fragments|
    ensures fragments[k].slot in ReadySlots(s.ready) <==> IsUsed(fragments, seen, now, k)
  {
    var kept := Unseen(fragments, seen, |fragments|);
    var assembled := PassOutcome(fragments, seen, now).assembled;
    var slot := fragments[k].slot;
    ReadySlotsMembers(s.ready, slot);
    if slot in ReadySlots(s.ready) {
      var i :| 0 <= i < |s.ready| && slot in s.ready[i].slots;
      assert Describes(fragments, kept, s.ready[i], assembled[i]);
      var p :| 0 <= p < |s.ready[i].slots| && s.ready[i].slots[p] == slot;
      var j := assembled[i].sources[p];
      assert kept[j] == k && j in assembled[i].sources;
      SourcesOfMembers(assembled, j);
    }
    if IsUsed(fragments, seen, now, k) {
      var j :| 0 <= j < |kept| && kept[j] == k && j in SourcesOf(assembled);
      SourcesOfMembers(assembled, j);
      var i :| 0 <= i < |assembled| && j in assembled[i].sources;
      var p :| 0 <= p < |assembled[i].sources| && assembled[i].sources[p] == j;
      assert Describes(fragments, kept, s.ready[i], assembled[i]);
      assert s.ready[i].slots[p] == slot;
    }
  }

  /** Only slots of this pass ever appear. */
  lemma ReadySlotHasFragment(fragments: seq<InboundFragment>, seen: seq<bool>, now: i64, s: InboundSettlement, x: nat)
    requires Settles(fragments, seen, now, s) && x in ReadySlots(s.ready)
    ensures exists k :: 0 <= k < |fragments| && fragments[k].slot == x
  {
    ReadySlotsMembers(s.ready, x);
    var i :| 0 <= i < |s.ready| && x in s.ready[i].slots;
    var kept := Unseen(fragments, seen, |fragments|);
    var a := PassOutcome(fragments, seen, now).assembled[i];
    assert Describes(fragments, kept, s.ready[i], a);
    var p :| 0 <= p < |s.ready[i].slots| && s.ready[i].slots[p] == x;
    assert fragments[kept[a.sources[p]]].slot == x;
  }

  ghost predicate IsDeletable(s: InboundSettlement, slots: seq<nat>) {
    && (forall x :: x in slots <==> x in s.alreadyOurs || x in ReadySlots(s.ready))
    && (forall i, j :: 0 <= i < j < |slots| ==> slots[i] < slots[j])
  }

  /** The deletion rule: exactly the slots that are stored already or went into a ready
      message may be cleared, never one whose fragment still waits. */
  lemma DeletableExactlyWhenSettled(fragments: seq<InboundFragment>, seen: seq<bool>, now: i64, s: InboundSettlement,
                                    slots: seq<nat>, k: nat)
    requires Settles(fragments, seen, now, s) && IsDeletable(s, slots)
    requires DistinctSlots(fragments) && k < |fragments|
    ensures fragments[k].slot in slots <==> (k < |seen| && seen[k]) || IsUsed(fragments, seen, now, k)
    ensures fragments[k].slot in slots <==> !IsWaiting(fragments, seen, now, k)
  {
    hide ReadySlots, Describes, IsWaiting, IsUsed;
    EachFragmentHasOneFate(fragments, seen, now, k);
    ReadySlotIsUsed(fragments, seen, now, s, k);
    SeenSlotsMembers(fragments, seen, |fragments|, fragments[k].slot);
  }

  // ----- Counting ---------------------------------------------------------------

  function Below(n: nat): set<nat> {
    if n == 0 then {} else Below(n - 1) + {n - 1}
  }

  lemma {:induction false} BelowCount(n: nat)
    ensures |Below(n)| == n
    ensures forall k: nat :: k in Below(n) <==> k < n
  {
    if n > 0 {
      BelowCount(n - 1);
    }
  }

  /** `f` pairs the rows off with the list. */
  ghost predicate PairsOff(rows: set<nat>, f: nat -> nat, xs: seq<nat>) {
    && Distinct(xs)
    && (forall a, b :: a in rows && b in rows && f(a) == f(b) ==> a == b)
    && (forall a :: a in rows ==> f(a) in xs)
    && (forall x :: x in xs ==> exists a :: a in rows && f(a) == x)
  }

  lemma {:induction false} PairsOffCount(rows: set<nat>, f: nat -> nat, xs: seq<nat>)
    requires PairsOff(rows, f, xs)
    ensures |rows| == |xs|
  {
    if xs == [] {
      assert forall a :: a in rows ==> f(a) in xs;
      assert rows == {};
    } else {
      var x := xs[|xs| - 1];
      var rest := xs[..|xs| - 1];
      assert xs == rest + [x];
      assert x in xs;
      var a :| a in rows && f(a) == x;
      assert forall b :: b in rows - {a} ==> f(b) in rest;
      assert x !in rest;
      forall y | y in rest
        ensures exists b :: b in rows - {a} && f(b) == y
      {
        assert y in xs;
        var b :| b in rows && f(b) == y;
        assert b in rows - {a};
      }
      PairsOffCount(rows - {a}, f, rest);
    }
  }

  lemma SlotOwner(fragments: seq<InboundFragment>, seen: seq<bool>, now: i64, s: InboundSettlement, slots: seq<nat>, x: nat)
    returns (k: nat)
    requires Settles(fragments, seen, now, s) && IsDeletable(s, slots) && x in slots
    ensures k < |fragments| && fragments[k].slot == x
  {
    if x in s.alreadyOurs {
      SeenSlotsMembers(fragments, seen, |fragments|, x);
    } else {
      ReadySlotHasFragment(fragments, seen, now, s, x);
    }
    k :| 0 <= k < |fragments| && fragments[k].slot == x;
  }

  function SlotOf(fragments: seq<InboundFragment>): nat -> nat {
    (k: nat) => if k < |fragments| then fragments[k].slot else 0
  }

  /** The fragments that are not waiting pair off with the deletable slots. */
  lemma DeletablePairsOff(fragments: seq<InboundFragment>, seen: seq<bool>, now: i64, s: InboundSettlement,
                          slots: seq<nat>, rows: set<nat>)
    requires Settles(fragments, seen, now, s) && IsDeletable(s, slots) && DistinctSlots(fragments)
    requires forall k: nat :: k in rows <==> k < |fragments| && !IsWaiting(fragments, seen, now, k)
    ensures PairsOff(rows, SlotOf(fragments), slots)
  {
    forall k | k in rows
      ensures SlotOf(fragments)(k) in slots
    {
      DeletableExactlyWhenSettled(fragments, seen, now, s, slots, k);
    }
    forall x | x in slots
      ensures exists k :: k in rows && SlotOf(fragments)(k) == x
    {
      var k := SlotOwner(fragments, seen, now, s, slots, x);
      DeletableExactlyWhenSettled(fragments, seen, now, s, slots, k);
      assert k in rows;
    }
  }

  lemma PendingIsDistinct(fragments: seq<InboundFragment>, seen: seq<bool>, now: i64)
    ensures var pending := PassOutcome(fragments, seen, now).pending;
            Distinct(pending) && forall j :: j in pending ==> j < |Unseen(fragments, seen, |fragments|)|
  {
    UnseenMembers(fragments, seen, |fragments|);
    var parts := PartsOf(fragments, Unseen(fragments, seen, |fragments|));
    var pending := PassOutcome(fragments, seen, now).pending;
    forall j: nat
      ensures Times(pending, j) <= 1
      ensures j in pending ==> j < |parts|
    {
      EveryRowIsAccountedForOnce(parts, now, FRAGMENT_GRACE_MS, j);
      TimesMembers(pending, j);
    }
    DistinctByTimes(pending);
  }

  lemma DistinctByTimes(xs: seq<nat>)
    requires forall x: nat :: Times(xs, x) <= 1
    ensures Distinct(xs)
  {
    DistinctMeansOnce(xs);
    forall x: nat
      ensures multiset(xs)[x] == Times(xs, x)
    {
      TimesIsMultiplicity(xs, x);
    }
  }

  /** Where fragment `k` went after compression. */
  ghost function IndexOf(kept: seq<nat>): nat -> nat {
    (k: nat) => if j: nat :| j < |kept| && kept[j] == k then j else 0
  }

  lemma CompressedPairsOff(kept: seq<nat>, pending: seq<nat>, rows: set<nat>)
    requires Distinct(kept) && Distinct(pending) && forall j :: j in pending ==> j < |kept|
    requires forall k :: k in rows <==> exists j :: 0 <= j < |kept| && kept[j] == k && j in pending
    ensures PairsOff(rows, IndexOf(kept), pending)
  {
    var f := IndexOf(kept);
    forall k | k in rows
      ensures f(k) in pending && f(k) < |kept| && kept[f(k)] == k
    {
      var j :| 0 <= j < |kept| && kept[j] == k && j in pending;
      assert f(k) == j;
    }
    forall j | j in pending
      ensures exists k :: k in rows && f(k) == j
    {
      assert f(kept[j]) == j && kept[j] in rows;
    }
  }

  /** The fragments that are waiting pair off with the pending list. */
  lemma WaitingPairsOff(fragments: seq<InboundFragment>, seen: seq<bool>, now: i64, rows: set<nat>)
    requires forall k: nat :: k in rows <==> k < |fragments| && IsWaiting(fragments, seen, now, k)
    ensures PairsOff(rows, IndexOf(Unseen(fragments, seen, |fragments|)), PassOutcome(fragments, seen, now).pending)
  {
    UnseenMembers(fragments, seen, |fragments|);
    PendingIsDistinct(fragments, seen, now);
    CompressedPairsOff(Unseen(fragments, seen, |fragments|), PassOutcome(fragments, seen, now).pending, rows);
  }

  /** Nothing is lost in the count either, despite the index compression: every fragment is
      either deletable or pending. */
  lemma DeletablePlusPendingIsEverything(fragments: seq<InboundFragment>, seen: seq<bool>, now: i64, s: InboundSettlement,
                                         slots: seq<nat>)
    requires Settles(fragments, seen, now, s) && IsDeletable(s, slots) && DistinctSlots(fragments)
    ensures |slots| + s.pending == |fragments|
  {
    var all := Below(|fragments|);
    BelowCount(|fragments|);
    var waiting := set k | k in all && IsWaiting(fragments, seen, now, k);
    var settled := all - waiting;
    DeletablePairsOff(fragments, seen, now, s, slots, settled);
    PairsOffCount(settled, SlotOf(fragments), slots);
    WaitingPairsOff(fragments, seen, now, waiting);
    PairsOffCount(waiting, IndexOf(Unseen(fragments, seen, |fragments|)), PassOutcome(fragments, seen, now).pending);
    assert |settled| == |all| - |waiting|;
  }
}
