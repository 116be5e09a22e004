/** Whose text ends up in a message: every fragment that is used up is named as a source, but where two
    of a released group carry the same number only the first is read. */
module Texts {
  import opened Basics
  import opened Sorting
  import opened Concat
  import opened Reassembly
  import opened Deliveries
  import opened Settle

  /** The source a message takes the text of each number from is the first that carries it. */
  ghost predicate IsRead(parts: seq<ConcatPart>, m: AssembledSms, x: nat) {
    && x in m.sources && InRange(parts, m.sources)
    && (IsPassedThrough(parts, m) || Find(parts, m.sources, parts[x].seqNo) == Some(x))
  }

  // ----- What being read means --------------------------------------------------

  lemma {:induction false} FirstIsFound(parts: seq<ConcatPart>, slots: seq<nat>, s: int, i: nat)
    requires InRange(parts, slots) && i < |slots| && parts[slots[i]].seqNo == s
    requires forall j :: 0 <= j < i ==> parts[slots[j]].seqNo != s
    ensures Find(parts, slots, s) == Some(slots[i])
    decreases i
  {
    if i > 0 {
      FirstIsFound(parts, slots[1..], s, i - 1);
    }
  }

  lemma {:induction false} FoundCarriesIt(parts: seq<ConcatPart>, slots: seq<nat>, s: int)
    requires InRange(parts, slots)
    ensures Find(parts, slots, s).Some? ==> Find(parts, slots, s).value in slots && parts[Find(parts, slots, s).value].seqNo == s
    ensures Find(parts, slots, s).None? ==> forall i :: 0 <= i < |slots| ==> parts[slots[i]].seqNo != s
    decreases |slots|
  {
    if slots != [] && parts[slots[0]].seqNo != s {
      FoundCarriesIt(parts, slots[1..], s);
      assert forall i :: 1 <= i < |slots| ==> slots[i] == slots[1..][i - 1];
    }
  }

  /** The body of a whole message, too, is the text of the first source of each number. */
  lemma {:induction false} WholeBodyIsFilled(parts: seq<ConcatPart>, m: AssembledSms, t: nat)
    requires IsWhole(parts, m) && t <= m.parts
    ensures FilledBody(parts, m.sources, m.parts, t) == Bodies(parts, m.sources[..t])
    decreases t
  {
    if t > 0 {
      WholeBodyIsFilled(parts, m, t - 1);
      FirstIsFound(parts, m.sources, t, t - 1);
      assert m.sources[..t][..t - 1] == m.sources[..t - 1];
    }
  }

  /** A message that was not passed through is made up of the texts that are read, in order, and a marker
      for each number nobody carries. */
  lemma BodyIsFilled(parts: seq<ConcatPart>, m: AssembledSms, now: i64, grace: i64)
    requires Accounted(parts, m, now, grace) && !IsPassedThrough(parts, m)
    ensures InRange(parts, m.sources) && m.body == FilledBody(parts, m.sources, m.parts, m.parts)
  {
    if IsWhole(parts, m) {
      WholeBodyIsFilled(parts, m, m.parts);
      assert m.sources[..m.parts] == m.sources;
    }
  }

  function Retold(parts: seq<ConcatPart>, x: nat, text: string): seq<ConcatPart>
    requires x < |parts|
  {
    parts[x := parts[x].(body := text)]
  }

  lemma {:induction false} FindIgnoresText(parts: seq<ConcatPart>, slots: seq<nat>, s: int, x: nat, text: string)
    requires InRange(parts, slots) && x < |parts|
    ensures InRange(Retold(parts, x, text), slots) && Find(Retold(parts, x, text), slots, s) == Find(parts, slots, s)
    decreases |slots|
  {
    if slots != [] {
      FindIgnoresText(parts, slots[1..], s, x, text);
    }
  }

  /** A text that is not read never shows: whatever it said, the body would be the same. */
  lemma {:induction false} UnreadTextNeverShows(parts: seq<ConcatPart>, slots: seq<nat>, total: u8, t: nat, x: nat, text: string)
    requires InRange(parts, slots) && x < |parts| && Find(parts, slots, parts[x].seqNo) != Some(x)
    ensures InRange(Retold(parts, x, text), slots)
    ensures FilledBody(Retold(parts, x, text), slots, total, t) == FilledBody(parts, slots, total, t)
    decreases t
  {
    hide Find, MissingMarker, InRange;
    FindIgnoresText(parts, slots, t, x, text);
    FoundCarriesIt(parts, slots, t);
    if t > 0 {
      UnreadTextNeverShows(parts, slots, total, t - 1, x, text);
    }
  }

  /** The body has this text at this place. */
  ghost predicate HasAt(body: string, at: nat, text: string) {
    at + |text| <= |body| && body[at..at + |text|] == text
  }

  /** A text that is read stands in the body. */
  lemma {:induction false} ReadTextShows(parts: seq<ConcatPart>, slots: seq<nat>, total: u8, t: nat, x: nat) returns (at: nat)
    requires InRange(parts, slots) && x < |parts| && 1 <= parts[x].seqNo <= t && Find(parts, slots, parts[x].seqNo) == Some(x)
    ensures HasAt(FilledBody(parts, slots, total, t), at, parts[x].body)
    decreases t
  {
    hide Find, MissingMarker;
    var before, all := FilledBody(parts, slots, total, t - 1), FilledBody(parts, slots, total, t);
    if parts[x].seqNo == t {
      at := |before|;
      assert all == before + parts[x].body;
    } else {
      at := ReadTextShows(parts, slots, total, t - 1, x);
      var text := parts[x].body;
      assert before <= all && all[at..at + |text|] == before[at..at + |text|];
    }
  }

  // ----- The marker -----------------------------------------------------------------------

  /** What a decimal numeral says, digit by digit. */
  function Value(digits: string): int {
    if digits == "" then 0 else 10 * Value(digits[..|digits| - 1]) + (digits[|digits| - 1] as int - '0' as int)
  }

  /** The numeral a person would write for the number. */
  ghost predicate IsNumeral(digits: string, n: nat) {
    && digits != "" && (forall i :: 0 <= i < |digits| ==> '0' <= digits[i] <= '9')
    && (|digits| > 1 ==> digits[0] != '0')
    && Value(digits) == n
  }

  lemma {:induction false} DecimalIsNumeral(n: nat)
    ensures IsNumeral(Decimal(n), n)
    ensures n > 0 ==> Decimal(n)[0] != '0'
    decreases n
  {
    var digit := "0123456789"[n % 10];
    assert digit as int == '0' as int + n % 10;
    if n >= 10 {
      DecimalIsNumeral(n / 10);
      var digits := Decimal(n);
      assert digits[..|digits| - 1] == Decimal(n / 10);
    } else {
      assert Decimal(n)[..0] == "";
    }
  }

  /** A gap is never silent: its marker is not empty and names the missing part and how many there are. */
  lemma MarkerNamesThePart(s: nat, total: nat) returns (part: string, of: string)
    ensures IsNumeral(part, s) && IsNumeral(of, total)
    ensures MissingMarker(s, total) == "[missing part " + part + " of " + of + "]"
  {
    part, of := Decimal(s), Decimal(total);
    DecimalIsNumeral(s);
    DecimalIsNumeral(total);
  }

  // ----- The body, piece by piece -----------------------------------------------------------

  /** The first of the sources that carries this number. */
  ghost predicate IsFirst(parts: seq<ConcatPart>, sources: seq<nat>, s: int, i: nat)
    requires InRange(parts, sources)
  {
    && i < |sources| && parts[sources[i]].seqNo == s
    && forall j :: 0 <= j < i ==> parts[sources[j]].seqNo != s
  }

  /** What stands for one number: the text of the first source that carries it, or, if none does, a note
      of which part of how many is missing. */
  ghost predicate IsPiece(parts: seq<ConcatPart>, sources: seq<nat>, total: nat, s: nat, piece: string)
    requires InRange(parts, sources)
  {
    if exists i: nat :: IsFirst(parts, sources, s, i)
    then exists i: nat :: IsFirst(parts, sources, s, i) && piece == parts[sources[i]].body
    else exists part, of :: IsNote(piece, part, of) && IsNumeral(part, s) && IsNumeral(of, total)
  }

  ghost predicate IsNote(piece: string, part: string, of: string) {
    piece == "[missing part " + part + " of " + of + "]"
  }

  lemma {:induction false} FoundIsTheFirst(parts: seq<ConcatPart>, slots: seq<nat>, s: int)
    requires InRange(parts, slots)
    ensures Find(parts, slots, s).Some? ==> exists i: nat :: IsFirst(parts, slots, s, i) && slots[i] == Find(parts, slots, s).value
    ensures Find(parts, slots, s).None? ==> forall i: nat :: !IsFirst(parts, slots, s, i)
    decreases |slots|
  {
    FoundCarriesIt(parts, slots, s);
    if slots != [] && Find(parts, slots, s).Some? {
      if parts[slots[0]].seqNo == s {
        assert IsFirst(parts, slots, s, 0);
      } else {
        FoundIsTheFirst(parts, slots[1..], s);
        var i: nat :| IsFirst(parts, slots[1..], s, i) && slots[1..][i] == Find(parts, slots, s).value;
        assert forall j :: 0 <= j < i ==> slots[j + 1] == slots[1..][j];
        assert IsFirst(parts, slots, s, i + 1);
      }
    }
  }

  lemma PieceOf(parts: seq<ConcatPart>, slots: seq<nat>, total: nat, s: nat, piece: string)
    requires InRange(parts, slots)
    requires match Find(parts, slots, s)
             case Some(slot) => slot < |parts| && piece == parts[slot].body
             case None => piece == MissingMarker(s, total)
    ensures IsPiece(parts, slots, total, s, piece)
  {
    hide Find, MissingMarker, IsFirst;
    FoundIsTheFirst(parts, slots, s);
    if Find(parts, slots, s).None? {
      var part, of := MarkerNamesThePart(s, total);
      assert IsNote(piece, part, of);
    }
  }

  lemma {:induction false} FilledIsPieces(parts: seq<ConcatPart>, slots: seq<nat>, total: u8, t: nat) returns (pieces: seq<string>)
    requires InRange(parts, slots)
    ensures |pieces| == t && FilledBody(parts, slots, total, t) == Flatten(pieces)
    ensures forall i :: 0 <= i < t ==> IsPiece(parts, slots, total, i + 1, pieces[i])
    decreases t
  {
    hide Find, MissingMarker, IsPiece;
    pieces := [];
    if t > 0 {
      var before := FilledIsPieces(parts, slots, total, t - 1);
      FoundCarriesIt(parts, slots, t);
      var piece := match Find(parts, slots, t) case Some(slot) => parts[slot].body case None => MissingMarker(t, total);
      PieceOf(parts, slots, total, t, piece);
      pieces := before + [piece];
      FlattenAppend(before, [piece]);
      assert [piece][1..] == [] && Flatten([piece]) == piece;
    }
  }

  /** The body of every message that was not passed through, whole or with gaps, is its pieces in order. */
  lemma BodyIsItsPieces(parts: seq<ConcatPart>, m: AssembledSms, now: i64, grace: i64) returns (pieces: seq<string>)
    requires m in Assembly(parts, now, grace).assembled && !IsPassedThrough(parts, m)
    ensures InRange(parts, m.sources) && |pieces| == m.parts && m.body == Flatten(pieces)
    ensures forall i :: 0 <= i < m.parts ==> IsPiece(parts, m.sources, m.parts, i + 1, pieces[i])
  {
    hide Assembly, FilledBody, IsPiece;
    EveryMessageIsAccounted(parts, now, grace);
    BodyIsFilled(parts, m, now, grace);
    pieces := FilledIsPieces(parts, m.sources, m.parts, m.parts);
  }

  // ----- When every text is read ------------------------------------------------------

  /** No two sources of the message carry one number. */
  ghost predicate NumbersDiffer(parts: seq<ConcatPart>, m: AssembledSms) {
    forall x, y :: x in m.sources && y in m.sources && x < |parts| && y < |parts| && x != y ==> parts[x].seqNo != parts[y].seqNo
  }

  lemma AllReadExactlyWhenNumbersDiffer(parts: seq<ConcatPart>, m: AssembledSms, now: i64, grace: i64)
    requires Accounted(parts, m, now, grace)
    ensures (forall x :: x in m.sources ==> IsRead(parts, m, x)) <==> NumbersDiffer(parts, m)
  {
    if !IsPassedThrough(parts, m) {
      BodyIsFilled(parts, m, now, grace);
      forall x | x in m.sources
        ensures x < |parts| && Find(parts, m.sources, parts[x].seqNo).Some?
        ensures Find(parts, m.sources, parts[x].seqNo).value in m.sources
        ensures parts[Find(parts, m.sources, parts[x].seqNo).value].seqNo == parts[x].seqNo
      {
        FoundCarriesIt(parts, m.sources, parts[x].seqNo);
      }
    }
  }

  /** Over a whole pass: the text of every fragment that is used up is read if and only if no message has
      two sources of one number.  Only a message with a gap can have them. */
  lemma TextsAreReadExactlyWhenNumbersDiffer(parts: seq<ConcatPart>, now: i64, grace: i64)
    ensures var assembled := Assembly(parts, now, grace).assembled;
            && ((forall m, x :: m in assembled && x in m.sources ==> IsRead(parts, m, x)) <==>
                (forall m :: m in assembled && m.missing != [] ==> NumbersDiffer(parts, m)))
            && (forall m :: m in assembled && m.missing == [] ==> NumbersDiffer(parts, m))
  {
    hide Assembly, IsRead;
    EveryMessageIsAccounted(parts, now, grace);
    var assembled := Assembly(parts, now, grace).assembled;
    forall m | m in assembled
      ensures (forall x :: x in m.sources ==> IsRead(parts, m, x)) <==> NumbersDiffer(parts, m)
      ensures m.missing == [] ==> NumbersDiffer(parts, m)
    {
      AllReadExactlyWhenNumbersDiffer(parts, m, now, grace);
    }
  }

  // ----- At the fragments of a pass ------------------------------------------------------

  lemma {:induction false} OneMessagePerSource(messages: seq<AssembledSms>, x: nat, a: nat, b: nat)
    requires Times(SourcesOf(messages), x) <= 1
    requires a < |messages| && b < |messages| && x in messages[a].sources && x in messages[b].sources
    ensures a == b
    decreases |messages|
  {
    var front, last := messages[..|messages| - 1], messages[|messages| - 1];
    TimesAppend(SourcesOf(front), last.sources, x);
    TimesMembers(last.sources, x);
    TimesMembers(SourcesOf(front), x);
    SourcesOfMembers(front, x);
    if a < |front| {
      assert front[a] == messages[a];
    }
    if b < |front| {
      assert front[b] == messages[b];
    }
    if a < |front| && b < |front| {
      OneMessagePerSource(front, x, a, b);
    }
  }

  /** The rows of a pass that are not stored already. */
  ghost function NewParts(fragments: seq<InboundFragment>, seen: seq<bool>): seq<ConcatPart> {
    UnseenMembers(fragments, seen, |fragments|);
    PartsOf(fragments, Unseen(fragments, seen, |fragments|))
  }

  /** Some ready message reads the text of fragment `k`. */
  ghost predicate TextIsKept(fragments: seq<InboundFragment>, seen: seq<bool>, now: i64, k: nat) {
    var kept := Unseen(fragments, seen, |fragments|);
    exists j, m :: 0 <= j < |kept| && kept[j] == k &&
      m in PassOutcome(fragments, seen, now).assembled && IsRead(NewParts(fragments, seen), m, j)
  }

  /** Exactly when clearing the slots of the used fragments loses no text: every used fragment's text is
      in a ready message if and only if no released group has two leftovers of one number. */
  lemma UsedTextsAreKeptExactlyWhenNumbersDiffer(fragments: seq<InboundFragment>, seen: seq<bool>, now: i64)
    ensures (forall k :: 0 <= k < |fragments| && IsUsed(fragments, seen, now, k) ==> TextIsKept(fragments, seen, now, k)) <==>
            (forall m :: m in PassOutcome(fragments, seen, now).assembled && m.missing != [] ==>
               NumbersDiffer(NewParts(fragments, seen), m))
  {
    hide Unseen, PartsOf, Assembly, IsRead, NumbersDiffer;
    var kept := Unseen(fragments, seen, |fragments|);
    UnseenMembers(fragments, seen, |fragments|);
    var parts := NewParts(fragments, seen);
    var assembled := PassOutcome(fragments, seen, now).assembled;
    TextsAreReadExactlyWhenNumbersDiffer(parts, now, FRAGMENT_GRACE_MS);
    if forall m :: m in assembled && m.missing != [] ==> NumbersDiffer(parts, m) {
      forall k | 0 <= k < |fragments| && IsUsed(fragments, seen, now, k)
        ensures TextIsKept(fragments, seen, now, k)
      {
        var j :| 0 <= j < |kept| && kept[j] == k && j in SourcesOf(assembled);
        SourcesOfMembers(assembled, j);
        var i :| 0 <= i < |assembled| && j in assembled[i].sources;
        assert IsRead(parts, assembled[i], j);
      }
    }
    if forall k :: 0 <= k < |fragments| && IsUsed(fragments, seen, now, k) ==> TextIsKept(fragments, seen, now, k) {
      forall m, x | m in assembled && x in m.sources
        ensures IsRead(parts, m, x)
      {
        KeptTextIsItsOwn(fragments, seen, now, m, x);
      }
    }
  }

  lemma KeptTextIsItsOwn(fragments: seq<InboundFragment>, seen: seq<bool>, now: i64, m: AssembledSms, x: nat)
    requires m in PassOutcome(fragments, seen, now).assembled && x in m.sources
    requires forall k :: 0 <= k < |fragments| && IsUsed(fragments, seen, now, k) ==> TextIsKept(fragments, seen, now, k)
    ensures IsRead(NewParts(fragments, seen), m, x)
  {
    hide Unseen, Assembly, IsRead, SourcesOf;
    var kept := Unseen(fragments, seen, |fragments|);
    UnseenMembers(fragments, seen, |fragments|);
    var parts := NewParts(fragments, seen);
    var assembled := PassOutcome(fragments, seen, now).assembled;
    SourceInRange(parts, m, x, now);
    assert IsUsed(fragments, seen, now, kept[x]);
    var j, m' :| 0 <= j < |kept| && kept[j] == kept[x] && m' in assembled && IsRead(parts, m', j);
    assert j == x;
    ReadIsSource(parts, m', x);
    OneReader(parts, now, m, m', x);
  }

  lemma SourceInRange(parts: seq<ConcatPart>, m: AssembledSms, x: nat, now: i64)
    requires m in Assembly(parts, now, FRAGMENT_GRACE_MS).assembled && x in m.sources
    ensures x < |parts| && x in SourcesOf(Assembly(parts, now, FRAGMENT_GRACE_MS).assembled)
  {
    hide Assembly;
    EveryMessageIsAccounted(parts, now, FRAGMENT_GRACE_MS);
    assert Accounted(parts, m, now, FRAGMENT_GRACE_MS);
    var assembled := Assembly(parts, now, FRAGMENT_GRACE_MS).assembled;
    SourcesOfMembers(assembled, x);
    var a :| 0 <= a < |assembled| && assembled[a] == m;
  }

  lemma ReadIsSource(parts: seq<ConcatPart>, m: AssembledSms, x: nat)
    requires IsRead(parts, m, x)
    ensures x in m.sources
  {
  }

  lemma OneReader(parts: seq<ConcatPart>, now: i64, m: AssembledSms, m': AssembledSms, x: nat)
    requires m in Assembly(parts, now, FRAGMENT_GRACE_MS).assembled && x in m.sources
    requires m' in Assembly(parts, now, FRAGMENT_GRACE_MS).assembled && x in m'.sources
    ensures m == m'
  {
    hide Assembly, SourcesOf, Times;
    var assembled := Assembly(parts, now, FRAGMENT_GRACE_MS).assembled;
    var a :| 0 <= a < |assembled| && assembled[a] == m;
    var b :| 0 <= b < |assembled| && assembled[b] == m';
    EveryRowIsAccountedForOnce(parts, now, FRAGMENT_GRACE_MS, x);
    OneMessagePerSource(assembled, x, a, b);
  }

  // ----- An input that loses one --------------------------------------------------------------

  function TwiceTheFirst(text: string): seq<ConcatPart> {
    [ConcatPart("10086", 7, 2, 1, "kept", Some(0)), ConcatPart("10086", 7, 2, 1, text, Some(0))]
  }

  lemma TwiceQueues(text: string)
    ensures Queues(TwiceTheFirst(text), [0, 1], 2) == [[0, 1], []]
  {
    var parts, slots: seq<nat> := TwiceTheFirst(text), [0, 1];
    assert slots[..1] == [0] && slots[..1][..0] == [];
    assert BySeq(parts, slots[..1][..0], 1) == [] && BySeq(parts, slots[..1][..0], 2) == [];
    assert BySeq(parts, slots[..1], 1) == [0] && BySeq(parts, slots[..1], 2) == [];
    assert BySeq(parts, slots, 1) == [0, 1] && BySeq(parts, slots, 2) == [];
    SortSmall(ByAge(parts), 0, 1);
    var one := Queue(parts, slots, 1);
    assert Queues(parts, slots, 1) == [] + [one];
    assert Queues(parts, slots, 2) == [one] + [[]];
  }

  lemma TwiceLeft()
    ensures var queues: seq<seq<nat>> := [[0, 1], []];
            AllReach(queues, 0) && Shortest(queues) == 0 && Sort(Ascending(), Tails(queues, 0)) == [0, 1]
  {
    var queues: seq<seq<nat>> := [[0, 1], []];
    assert queues[..1] == [[0, 1]] && queues[..1][..0] == [];
    assert Tails(queues[..1], 0) == [] + [0, 1];
    assert Tails(queues, 0) == [0, 1];
    SortSmall(Ascending(), 0, 1);
  }

  lemma TwiceReleased(text: string, key: Key)
    requires key == Key("10086", 7, 2)
    ensures InRange(TwiceTheFirst(text), [0, 1])
    ensures Newest(TwiceTheFirst(text), [0, 1]) == Some(0)
    ensures Released(TwiceTheFirst(text), key, [0, 1]) == AssembledSms("10086", "kept" + MissingMarker(2, 2), 2, [0, 1], [2])
  {
    hide MissingMarker;
    var parts, slots: seq<nat> := TwiceTheFirst(text), [0, 1];
    assert slots[..1] == [0] && slots[1..] == [1];
    assert Newest(parts, slots[..1]) == Some(0);
    assert Find(parts, slots, 1) == Some(0) && Find(parts, slots[1..], 2) == None;
    assert FilledBody(parts, slots, 2, 1) == [] + "kept";
    assert Gaps(parts, slots, 1) == [];
  }

  lemma TwiceGrouped(text: string, key: Key)
    requires key == Key("10086", 7, 2)
    ensures Slots(TwiceTheFirst(text), key, 2) == [0, 1]
    ensures Singles(TwiceTheFirst(text), 2) == []
    ensures Keys(TwiceTheFirst(text), 2) == {key}
  {
    var parts := TwiceTheFirst(text);
    assert Slots(parts, key, 1) == [] + [0];
    assert Singles(parts, 1) == [];
    assert !Standalone(parts[0]) && KeyOf(parts[0]) == key;
  }

  /** Two first halves of which the second was never followed by anything: once they are too old, one
      message names both as sources and says only what the first said, whatever the second said. */
  lemma ATextIsLost(text: string, now: i64, grace: i64)
    requires now > grace
    ensures Assembly(TwiceTheFirst(text), now, grace) ==
            Outcome([AssembledSms("10086", "kept" + MissingMarker(2, 2), 2, [0, 1], [2])], [])
  {
    hide Slots, Singles, Keys, KeyOrder, Queues, Shortest, Tails, Sort, Released, Newest, MissingMarker, WholeMessages;
    var parts, key := TwiceTheFirst(text), Key("10086", 7, 2);
    TwiceGrouped(text, key);
    OneKeyInOrder(key);
    TwiceQueues(text);
    TwiceLeft();
    TwiceReleased(text, key);
    NothingWhole(parts, key, [[0, 1], []]);
    SlotsAreGroup(parts, key, 2);
    QueuesInRange(parts, [0, 1], 2);
    var message := Released(parts, key, [0, 1]);
    assert GroupOutcome(parts, key, [0, 1], now, grace) == Outcome([] + [message], []);
    assert [key][..0] == [];
    assert GroupsOutcome(parts, [], now, grace) == Outcome([], []);
    assert GroupsOutcome(parts, [key], now, grace) == Outcome([] + [message], [] + []);
  }

  lemma NothingWhole(parts: seq<ConcatPart>, key: Key, queues: seq<seq<nat>>)
    requires AllInRange(parts, queues)
    ensures AllReach(queues, 0) && WholeMessages(parts, key, queues, 0) == []
  {
  }
}
