/** Looking again at modules already managed: what is decided from what can be read, and what a run of
    such decisions needs before it lets a module go. */
module Retro {
  import opened Basics

  // ----- The gates -----------------------------------------------------------------

  datatype Family = Recognised(name: string) | Other(name: string)

  datatype DeviceGate = NotStated | Enabled | Disabled | Absent

  predicate Admits(gate: DeviceGate) {
    gate.NotStated? || gate.Enabled?
  }

  type Usb = (u16, u16)

  /** What the build drives, what the catalogue lists, and which pairs have been measured. */
  datatype Rules = Rules(drives: Usb -> bool, gate: Usb -> DeviceGate, measured: (Family, string) -> bool)

  datatype Refusal =
    | UnreadableUsbIdentity
    | NoStrategy(usb: Usb)
    | NotInCatalogue(usb: Usb, gate: DeviceGate)
    | NotIdentifiedYet
    | NeverMeasured(family: Family, carrier: string)

  predicate IsVerdict(r: Refusal) {
    r.NoStrategy? || r.NotInCatalogue? || r.NeverMeasured?
  }

  function BindGates(rules: Rules, usb: Option<Usb>, pair: Option<(Family, string)>): Option<Refusal> {
    if usb.None? then Some(UnreadableUsbIdentity)
    else if !rules.drives(usb.value) then Some(NoStrategy(usb.value))
    else if !Admits(rules.gate(usb.value)) then Some(NotInCatalogue(usb.value, rules.gate(usb.value)))
    else if pair.None? then Some(NotIdentifiedYet)
    else if !rules.measured(pair.value.0, pair.value.1) then Some(NeverMeasured(pair.value.0, pair.value.1))
    else None
  }

  // ----- One decision -----------------------------------------------------------------

  datatype Authority = Stored | BuiltinNoRow | BuiltinUnparsed

  datatype Evidence = Evidence(
    adopted: Option<Family>,
    observed: Option<Family>,
    carrier: Option<string>,
    usb: Option<Usb>,
    age: Option<i64>,
    failingSince: Option<i64>,
    failingPasses: u32)

  datatype HoldReason =
    | GateStateUnreadable
    | MatrixNotAuthoritative(authority: Authority)
    | UplinkNeverResumed
    | NeverObserved
    | ObservationStale(age: i64)
    | FamilyUnknown
    | FamilyDisagrees(adopted: string, observed: string)
    | FamilyUnrecognised(name: string)
    | MissingEvidence(refusal: Refusal)

  datatype Enforcement =
    | Keep
    | Hold(reason: HoldReason)
    | Quarantine(refusal: Refusal, elapsed: i64, passes: u32)
    | Unbind(refusal: Refusal)

  const MAX_AGE: i64 := 10 * 60 * 1000
  const GRACE: i64 := 30 * 60 * 1000
  const GRACE_PASSES: u32 := 100
  const UNKNOWN := "unknown"

  function Elapsed(since: Option<i64>, now: i64): i64 {
    var d := SaturatingSub(now, if since.Some? then since.value else now);
    if d < 0 then 0 else d
  }

  function Settle(refusal: Refusal, e: Evidence, now: i64): Enforcement {
    var elapsed, passes := Elapsed(e.failingSince, now), SaturatingInc(e.failingPasses);
    if elapsed >= GRACE && passes >= GRACE_PASSES then Unbind(refusal) else Quarantine(refusal, elapsed, passes)
  }

  function EnforceOne(rules: Rules, authority: Authority, resumed: bool, e: Evidence, now: i64): Enforcement {
    if !authority.Stored? then Hold(MatrixNotAuthoritative(authority))
    else if !resumed then Hold(UplinkNeverResumed)
    else if e.age.None? then Hold(NeverObserved)
    else if e.age.value > MAX_AGE then Hold(ObservationStale(e.age.value))
    else if e.observed.None? || Blank(e.observed.value.name) || e.observed.value.name == UNKNOWN then Hold(FamilyUnknown)
    else if e.adopted.Some? && e.adopted.value != e.observed.value then
      Hold(FamilyDisagrees(e.adopted.value.name, e.observed.value.name))
    else if e.observed.value.Other? then Hold(FamilyUnrecognised(e.observed.value.name))
    else
      var pair := if e.carrier.Some? then Some((e.observed.value, e.carrier.value)) else None;
      match BindGates(rules, e.usb, pair)
      case None => Keep
      case Some(refusal) => if IsVerdict(refusal) then Settle(refusal, e, now) else Hold(MissingEvidence(refusal))
  }

  /** The value, or that it could not be read. */
  predicate OrUnread<T(==)>(read: Option<T>, value: Option<T>) {
    read == None || read == value
  }

  // ----- When a module is kept, let go, or left alone ----------------------------------------

  /** The rules may be used, and what was seen of the module is fresh, recognised and agrees with what
      was adopted. */
  ghost predicate Judgeable(authority: Authority, resumed: bool, e: Evidence) {
    && authority == Stored && resumed
    && e.age.Some? && e.age.value <= 600_000
    && e.observed.Some? && e.observed.value.Recognised?
    && !Blank(e.observed.value.name) && e.observed.value.name != "unknown"
    && OrUnread(e.adopted, e.observed)
  }

  /** The catalogue lists the device as enabled, or says nothing about devices. */
  ghost predicate Listed(rules: Rules, usb: Usb) {
    rules.gate(usb) == NotStated || rules.gate(usb) == Enabled
  }

  /** Everything was read, and it says the module should not be managed. */
  ghost predicate Condemned(rules: Rules, authority: Authority, resumed: bool, e: Evidence) {
    && Judgeable(authority, resumed, e)
    && e.usb.Some?
    && (|| !rules.drives(e.usb.value)
        || !Listed(rules, e.usb.value)
        || (e.carrier.Some? && !rules.measured(e.observed.value, e.carrier.value)))
  }

  /** Everything was read, and it says the module should be managed. */
  ghost predicate Sound(rules: Rules, authority: Authority, resumed: bool, e: Evidence) {
    && Judgeable(authority, resumed, e)
    && e.usb.Some? && rules.drives(e.usb.value) && Listed(rules, e.usb.value)
    && e.carrier.Some? && rules.measured(e.observed.value, e.carrier.value)
  }

  /** A module is let go exactly when it is condemned, was already failing half an hour ago by the
      clock, and fails for at least the hundredth time. */
  lemma UnbindsExactlyWhenCondemnedForLong(rules: Rules, authority: Authority, resumed: bool, e: Evidence, now: i64)
    ensures EnforceOne(rules, authority, resumed, e, now).Unbind? <==>
            && Condemned(rules, authority, resumed, e)
            && e.failingSince.Some? && now - e.failingSince.value >= 1_800_000
            && e.failingPasses >= 99
    ensures IsFailing(EnforceOne(rules, authority, resumed, e, now)) <==> Condemned(rules, authority, resumed, e)
  {
  }

  /** It passes exactly when it is sound, and is left alone exactly when neither can be said. */
  lemma KeepsExactlyWhenSound(rules: Rules, authority: Authority, resumed: bool, e: Evidence, now: i64)
    ensures EnforceOne(rules, authority, resumed, e, now).Keep? <==> Sound(rules, authority, resumed, e)
    ensures EnforceOne(rules, authority, resumed, e, now).Hold? <==>
            !Sound(rules, authority, resumed, e) && !Condemned(rules, authority, resumed, e)
  {
  }

  /** The reason given is the first gate the module fails, with how long and how often it has failed. */
  lemma RefusedForTheFirstGate(rules: Rules, authority: Authority, resumed: bool, e: Evidence, now: i64)
    requires Condemned(rules, authority, resumed, e)
    ensures var d := EnforceOne(rules, authority, resumed, e, now);
            var usb := e.usb.value;
            && (d.refusal == NoStrategy(usb) <==> !rules.drives(usb))
            && (d.refusal == NotInCatalogue(usb, rules.gate(usb)) <==> rules.drives(usb) && !Listed(rules, usb))
            && (rules.drives(usb) && Listed(rules, usb) ==>
                  e.carrier.Some? && d.refusal == NeverMeasured(e.observed.value, e.carrier.value))
            && (d.Quarantine? ==>
                  && d.passes == (if e.failingPasses == 0xffff_ffff then e.failingPasses else e.failingPasses + 1)
                  && (e.failingSince.None? || now <= e.failingSince.value ==> d.elapsed == 0)
                  && (e.failingSince.Some? && 0 <= now - e.failingSince.value <= I64_MAX ==>
                        d.elapsed == now - e.failingSince.value))
  {
  }

  /** What a reason for leaving a module alone says is the case. */
  ghost predicate Says(r: HoldReason, rules: Rules, authority: Authority, resumed: bool, e: Evidence) {
    match r
    case GateStateUnreadable => false
    case MatrixNotAuthoritative(a) => a == authority != Stored
    case UplinkNeverResumed => !resumed
    case NeverObserved => e.age == None
    case ObservationStale(age) => e.age == Some(age) && age > 600_000
    case FamilyUnknown => e.observed.None? || Blank(e.observed.value.name) || e.observed.value.name == "unknown"
    case FamilyDisagrees(adopted, observed) =>
      e.adopted.Some? && e.observed.Some? && e.adopted != e.observed
      && adopted == e.adopted.value.name && observed == e.observed.value.name
    case FamilyUnrecognised(name) => e.observed == Some(Other(name))
    case MissingEvidence(UnreadableUsbIdentity) => e.usb == None
    case MissingEvidence(NotIdentifiedYet) =>
      e.usb.Some? && rules.drives(e.usb.value) && Listed(rules, e.usb.value) && e.carrier == None
    case MissingEvidence(_) => false
  }

  /** Reasons in the order of the evidence they are about: whether the rules may be used, whether the
      module was seen, which module it is, and what the gates need. */
  function Place(r: HoldReason): nat {
    match r
    case GateStateUnreadable => 0
    case MatrixNotAuthoritative(_) => 1
    case UplinkNeverResumed => 2
    case NeverObserved => 3
    case ObservationStale(_) => 3
    case FamilyUnknown => 4
    case FamilyDisagrees(_, _) => 5
    case FamilyUnrecognised(_) => 6
    case MissingEvidence(_) => 7
  }

  /** A module is left alone for a reason exactly if what that reason says is the case and nothing that
      comes before it is. */
  lemma HeldForTheFirstReason(rules: Rules, authority: Authority, resumed: bool, e: Evidence, now: i64, r: HoldReason)
    ensures EnforceOne(rules, authority, resumed, e, now) == Hold(r) <==>
            && Says(r, rules, authority, resumed, e)
            && forall other :: Says(other, rules, authority, resumed, e) ==> Place(r) <= Place(other)
  {
    var d := EnforceOne(rules, authority, resumed, e, now);
    if d.Hold? {
      assert Says(d.reason, rules, authority, resumed, e);
      assert forall other :: Says(other, rules, authority, resumed, e) ==> Place(d.reason) <= Place(other);
      if Says(r, rules, authority, resumed, e) && Place(r) == Place(d.reason) {
        OneReasonPerPlace(rules, authority, resumed, e, r, d.reason);
      }
    }
  }

  lemma OneReasonPerPlace(rules: Rules, authority: Authority, resumed: bool, e: Evidence, r: HoldReason, s: HoldReason)
    requires Says(r, rules, authority, resumed, e) && Says(s, rules, authority, resumed, e) && Place(r) == Place(s)
    ensures r == s
  {
  }

  /** Some of the evidence could not be read. */
  ghost predicate Erases(less: Evidence, e: Evidence) {
    && OrUnread(less.observed, e.observed) && OrUnread(less.carrier, e.carrier)
    && OrUnread(less.usb, e.usb) && OrUnread(less.age, e.age) && OrUnread(less.failingSince, e.failingSince)
    && less.adopted == e.adopted && less.failingPasses == e.failingPasses
  }

  /** Failing to read something never lets a module go: if less evidence condemns it, all of it does,
      for the same reason. */
  lemma NotReadingNeverUnbinds(rules: Rules, authority: Authority, resumed: bool, less: Evidence, e: Evidence, now: i64)
    requires Erases(less, e) && EnforceOne(rules, authority, resumed, less, now).Unbind?
    ensures EnforceOne(rules, authority, resumed, e, now) == EnforceOne(rules, authority, resumed, less, now)
  {
  }

  /** Nor does it ever make one pass. */
  lemma NotReadingNeverPasses(rules: Rules, authority: Authority, resumed: bool, less: Evidence, e: Evidence, now: i64)
    requires Erases(less, e) && EnforceOne(rules, authority, resumed, less, now).Keep?
    ensures EnforceOne(rules, authority, resumed, e, now).Keep?
  {
    KeepsExactlyWhenSound(rules, authority, resumed, less, now);
    KeepsExactlyWhenSound(rules, authority, resumed, e, now);
  }

  /** The family noted at adoption is the one exception: not having it lets a module go exactly where
      having it would have held back, because it disagrees with what is observed. */
  lemma AdoptedFamilyOnlyHoldsBack(rules: Rules, authority: Authority, resumed: bool, e: Evidence, now: i64)
    ensures EnforceOne(rules, authority, resumed, e, now).Unbind? <==>
            && EnforceOne(rules, authority, resumed, e.(adopted := None), now).Unbind?
            && OrUnread(e.adopted, e.observed)
    ensures EnforceOne(rules, authority, resumed, e, now).Keep? <==>
            && EnforceOne(rules, authority, resumed, e.(adopted := None), now).Keep?
            && OrUnread(e.adopted, e.observed)
  {
  }

  // ----- Runs -------------------------------------------------------------------------------

  /** The countdown kept with the registration. */
  datatype Marks = Marks(since: Option<i64>, passes: nat)

  const Fresh := Marks(None, 0)

  /** One look at a module, and what becomes of reading and of writing its countdown. */
  datatype Look = Look(
    rules: Rules,
    authority: Authority,
    resumed: bool,
    evidence: Evidence,
    now: i64,
    readable: bool,
    written: bool)

  datatype Event =
    | Looks(look: Look)
    | Registers           // adopted again
    | Restarts(now: i64)  // confirmed by a person while it still fails

  /** The countdown as it is read; the count is cut to 32 bits. */
  function WithMarks(e: Evidence, m: Marks): Evidence {
    e.(failingSince := m.since, failingPasses := if m.since.Some? then m.passes % 0x1_0000_0000 else 0)
  }

  function Judge(m: Marks, l: Look): Enforcement {
    if !l.readable then Hold(GateStateUnreadable)
    else EnforceOne(l.rules, l.authority, l.resumed, WithMarks(l.evidence, m), l.now)
  }

  predicate IsFailing(d: Enforcement) {
    d.Quarantine? || d.Unbind?
  }

  function Mark(m: Marks, now: i64): Marks {
    Marks(if m.since.Some? then m.since else Some(now), m.passes + 1)
  }

  /** Keep clears, Hold leaves, a failing look counts; a write that fails changes nothing. */
  function Step(m: Marks, e: Event): Marks {
    match e
    case Registers => Fresh
    case Restarts(now) => Marks(Some(now), 0)
    case Looks(l) =>
      if !l.written then m
      else if Judge(m, l).Keep? then Fresh
      else if IsFailing(Judge(m, l)) then Mark(m, l.now)
      else m
  }

  function After(events: seq<Event>): Marks {
    if events == [] then Fresh else Step(After(events[..|events| - 1]), events[|events| - 1])
  }

  function DecisionAt(events: seq<Event>, i: nat): Enforcement
    requires i < |events| && events[i].Looks?
  {
    Judge(After(events[..i]), events[i].look)
  }

  /** The countdown could be read, and with it everything that condemns the module. */
  ghost predicate Fails(l: Look) {
    l.readable && Condemned(l.rules, l.authority, l.resumed, l.evidence)
  }

  /** The same, and everything says the module should be managed. */
  ghost predicate Passes(l: Look) {
    l.readable && Sound(l.rules, l.authority, l.resumed, l.evidence)
  }

  /** What is decided at a look does not depend on the countdown, but for letting go or not yet. */
  lemma LookedAt(m: Marks, l: Look)
    ensures Judge(m, l).Keep? <==> Passes(l)
    ensures IsFailing(Judge(m, l)) <==> Fails(l)
    ensures Judge(m, l).Unbind? <==>
            && Fails(l) && m.since.Some? && l.now - m.since.value >= 1_800_000
            && m.passes % 0x1_0000_0000 >= 99
    ensures Judge(m, l).Quarantine? && m.since.None? ==> Judge(m, l).passes == 1 && Judge(m, l).elapsed == 0
    ensures Judge(m, l).Quarantine? && m.since.Some? && m.passes < 0xffff_ffff ==> Judge(m, l).passes == m.passes + 1
  {
    hide EnforceOne;
    var e := WithMarks(l.evidence, m);
    UnbindsExactlyWhenCondemnedForLong(l.rules, l.authority, l.resumed, e, l.now);
    KeepsExactlyWhenSound(l.rules, l.authority, l.resumed, e, l.now);
    if Fails(l) {
      RefusedForTheFirstGate(l.rules, l.authority, l.resumed, e, l.now);
    }
  }

  ghost predicate FailsAt(events: seq<Event>, i: nat) {
    i < |events| && events[i].Looks? && Fails(events[i].look)
  }

  ghost predicate PassesAt(events: seq<Event>, i: nat) {
    i < |events| && events[i].Looks? && Passes(events[i].look)
  }

  /** The countdown starts over here: the module passed and that was noted, or it was adopted again. */
  ghost predicate ResetsAt(events: seq<Event>, i: nat) {
    i < |events| && (events[i].Registers? || events[i].Restarts? || (PassesAt(events, i) && events[i].look.written))
  }

  /** How many looks from `from` on, before `end`, found the module failing. */
  ghost function Failures(events: seq<Event>, from: nat, end: nat): nat
    decreases end
  {
    if end <= from then 0 else Failures(events, from, end - 1) + if FailsAt(events, end - 1) then 1 else 0
  }

  /** The countdown began at this event, by this clock, and has not started over since. */
  ghost predicate BeganAt(events: seq<Event>, o: nat, since: i64) {
    && o < |events|
    && (|| (FailsAt(events, o) && events[o].look.now == since)
        || events[o] == Restarts(since))
    && forall k :: o < k < |events| ==> !ResetsAt(events, k)
  }

  lemma {:induction false} FailuresOfPrefix(events: seq<Event>, from: nat, end: nat)
    requires events != [] && end < |events|
    ensures Failures(events[..|events| - 1], from, end) == Failures(events, from, end)
    decreases end
  {
    if end > from {
      FailuresOfPrefix(events, from, end - 1);
    }
  }

  /** Without a start there is no count; with one, it is an event of the run, and no more looks are
      counted than have failed since. */
  ghost predicate Accurate(events: seq<Event>, m: Marks) {
    && (m.since.None? ==> m.passes == 0)
    && (m.since.Some? ==> exists o :: Accounts(events, m, o))
  }

  ghost predicate Accounts(events: seq<Event>, m: Marks, o: nat)
    requires m.since.Some?
  {
    BeganAt(events, o, m.since.value) && m.passes <= Failures(events, o, |events|)
  }

  lemma {:induction false} MarksAreAccurate(events: seq<Event>)
    ensures Accurate(events, After(events))
    decreases |events|
  {
    if events != [] {
      MarksAreAccurate(events[..|events| - 1]);
      StepIsAccurate(events);
    }
  }

  lemma StepIsAccurate(events: seq<Event>)
    requires events != [] && Accurate(events[..|events| - 1], After(events[..|events| - 1]))
    ensures Accurate(events, After(events))
  {
    hide Judge, Fails, Passes;
    var n := |events| - 1;
    var front, last := events[..n], events[n];
    var m, m' := After(front), After(events);
    if last.Looks? {
      LookedAt(m, last.look);
    }
    if m'.since.Some? {
      if last.Restarts? {
        assert Accounts(events, m', n);
      } else if m.since.None? {
        StartedNow(events);
        assert Accounts(events, m', n);
      } else {
        var o :| Accounts(front, m, o);
        Continues(events, o);
        assert Accounts(events, m', o);
      }
    }
  }

  lemma StartedNow(events: seq<Event>)
    requires events != [] && events[|events| - 1].Looks?
    requires After(events[..|events| - 1]) == Fresh && After(events).since.Some?
    ensures Accounts(events, After(events), |events| - 1)
  {
    hide Judge, Fails, Passes;
    var n := |events| - 1;
    LookedAt(Fresh, events[n].look);
    assert FailsAt(events, n);
    assert Failures(events, n, n) == 0;
  }

  lemma Continues(events: seq<Event>, o: nat)
    requires events != [] && !events[|events| - 1].Restarts?
    requires After(events[..|events| - 1]).since.Some? && Accounts(events[..|events| - 1], After(events[..|events| - 1]), o)
    requires After(events).since.Some?
    ensures Accounts(events, After(events), o)
  {
    hide Judge, Fails, Passes;
    var n := |events| - 1;
    var front := events[..n];
    if events[n].Looks? {
      LookedAt(After(front), events[n].look);
    }
    FailuresOfPrefix(events, o, n);
    assert BeganAt(events, o, After(front).since.value) by {
      forall k | o < k < |events|
        ensures !ResetsAt(events, k)
      {
        if k < n {
          assert !ResetsAt(front, k);
        }
      }
    }
  }

  /** Whatever is read or not, whatever writes fail and however the clock jumps: when a module is let
      go, the run shows the event its countdown began with, half an hour earlier by the clock; since
      then it never passed with that noted, nor was it adopted or confirmed again; and it was found
      failing at least a hundred times. */
  lemma UnbindNeedsItsGrace(events: seq<Event>, n: nat) returns (o: nat)
    requires n < |events| && events[n].Looks? && DecisionAt(events, n).Unbind?
    ensures o < n && BeganAt(events[..n], o, BeganBy(events, o)) && events[n].look.now - BeganBy(events, o) >= GRACE
    ensures Failures(events, o, n + 1) >= GRACE_PASSES
  {
    hide Judge, Fails, BeganAt, After;
    var before, look := events[..n], events[n].look;
    MarksAreAccurate(before);
    var m := After(before);
    LookedAt(m, look);
    o :| Accounts(before, m, o);
    BeganByItsClock(events, n, o, m.since.value);
    FailuresSoFar(events, o, n, n);
    assert FailsAt(events, n);
  }

  lemma BeganByItsClock(events: seq<Event>, n: nat, o: nat, since: i64)
    requires n <= |events| && BeganAt(events[..n], o, since)
    ensures o < n && BeganBy(events, o) == since
  {
    assert events[..n][o] == events[o];
  }

  /** The clock at an event that can begin a countdown. */
  function BeganBy(events: seq<Event>, o: nat): i64 {
    if o >= |events| then 0
    else
      match events[o]
      case Looks(l) => l.now
      case Restarts(now) => now
      case Registers => 0
  }

  lemma {:induction false} FailuresSoFar(events: seq<Event>, from: nat, end: nat, n: nat)
    requires end <= n <= |events|
    ensures Failures(events[..n], from, end) == Failures(events, from, end)
    decreases end
  {
    if end > from {
      FailuresSoFar(events, from, end - 1, n);
    }
  }

  // ----- Where the contract can break -----------------------------------------------------------

  /** In the half hour and hundred failing looks before a module is let go it never passed, exactly if
      every pass in that time was noted. */
  lemma NothingPassedInTheGrace(events: seq<Event>, n: nat) returns (o: nat)
    requires n < |events| && events[n].Looks? && DecisionAt(events, n).Unbind?
    ensures o < n && BeganAt(events[..n], o, BeganBy(events, o)) && events[n].look.now - BeganBy(events, o) >= GRACE
    ensures Failures(events, o, n + 1) >= GRACE_PASSES
    ensures (forall k :: o < k < n ==> !PassesAt(events, k)) <==>
            (forall k :: o < k < n && PassesAt(events, k) ==> events[k].look.written)
  {
    o := UnbindNeedsItsGrace(events, n);
    forall k | o < k < n && PassesAt(events, k)
      ensures !events[k].look.written
    {
      assert !ResetsAt(events[..n], k);
    }
  }

  /** But a pass that could not be noted leaves a countdown that has run out as it was, and the very
      next failing look lets the module go, where with the pass noted it would only have been
      quarantined. */
  lemma UnnotedPassIsForgotten(m: Marks, passing: Look, failing: Look)
    requires Passes(passing) && !passing.written && Fails(failing)
    requires m.since.Some? && GRACE_PASSES - 1 <= m.passes < 0x1_0000_0000 && failing.now - m.since.value >= GRACE
    ensures Judge(Step(m, Looks(passing)), failing).Unbind?
    ensures Judge(Step(m, Looks(passing.(written := true))), failing).Quarantine?
  {
    hide Judge, Fails, Passes;
    LookedAt(m, failing);
    LookedAt(Fresh, failing);
    NotingIsNotLooking(passing);
    LookedAt(m, passing.(written := true));
  }

  lemma NotingIsNotLooking(l: Look)
    ensures Passes(l.(written := true)) <==> Passes(l)
  {
  }

  lemma {:induction false} FailingLooksAreCounted(l: Look, n: nat)
    requires Fails(l) && l.written
    ensures After(seq(n, _ => Looks(l))) == Marks(if n == 0 then None else Some(l.now), n)
    decreases n
  {
    hide Judge, Fails;
    var events := seq(n, _ => Looks(l));
    if n > 0 {
      FailingLooksAreCounted(l, n - 1);
      assert events[..n - 1] == seq(n - 1, _ => Looks(l));
      LookedAt(After(events[..n - 1]), l);
    }
  }

  /** So a run exists, from any such looks, in which a module that passed at the look just before is let
      go. */
  lemma PassedAndLetGo(failing: Look, passing: Look, last: Look) returns (events: seq<Event>)
    requires Fails(failing) && failing.written && Fails(last) && last.now - failing.now >= GRACE
    requires Passes(passing) && !passing.written
    ensures |events| == 101 && events[99] == Looks(passing) && events[100] == Looks(last)
    ensures PassesAt(events, 99) && DecisionAt(events, 100).Unbind?
  {
    hide Judge, Fails, Passes;
    var begun := seq(99, _ => Looks(failing));
    events := begun + [Looks(passing), Looks(last)];
    FailingLooksAreCounted(failing, 99);
    var m := After(begun);
    assert events[..99] == begun && events[..100] == begun + [Looks(passing)];
    assert (begun + [Looks(passing)])[..99] == begun;
    UnnotedPassIsForgotten(m, passing, last);
  }

  // ----- The countdown, exactly -------------------------------------------------------------------

  /** A failing look that is noted. */
  ghost predicate CountsAt(events: seq<Event>, i: nat) {
    FailsAt(events, i) && events[i].look.written
  }

  /** Nothing from `from` on started the countdown over; what came just before did, or nothing did. */
  ghost predicate RunsFrom(events: seq<Event>, from: nat) {
    && from <= |events|
    && (from > 0 ==> ResetsAt(events, from - 1))
    && forall k :: from <= k < |events| ==> !ResetsAt(events, k)
  }

  ghost function Counted(events: seq<Event>, from: nat, end: nat): nat
    decreases end
  {
    if end <= from then 0 else Counted(events, from, end - 1) + if CountsAt(events, end - 1) then 1 else 0
  }

  /** The countdown began at this clock: a person's confirmation if that started it over, and else the
      first failing look that was noted since. */
  ghost predicate BeginsBy(events: seq<Event>, from: nat, since: Option<i64>) {
    if 0 < from <= |events| && events[from - 1].Restarts? then since == Some(events[from - 1].now)
    else if since.None? then forall k :: from <= k < |events| ==> !CountsAt(events, k)
    else exists k: nat :: FirstCounts(events, from, k) && events[k].look.now == since.value
  }

  ghost predicate FirstCounts(events: seq<Event>, from: nat, k: nat) {
    from <= k && CountsAt(events, k) && forall j :: from <= j < k ==> !CountsAt(events, j)
  }

  lemma {:induction false} CountedOfPrefix(events: seq<Event>, from: nat, end: nat)
    requires events != [] && end < |events|
    ensures Counted(events[..|events| - 1], from, end) == Counted(events, from, end)
    decreases end
  {
    hide Fails;
    if end > from {
      CountedOfPrefix(events, from, end - 1);
    }
  }

  /** What is kept is exactly the noted failing looks since the countdown last started over, and when
      they began. */
  lemma {:induction false} MarksAreExact(events: seq<Event>) returns (from: nat)
    ensures RunsFrom(events, from) && BeginsBy(events, from, After(events).since)
    ensures After(events).passes == Counted(events, from, |events|)
    decreases |events|
  {
    hide Judge, Fails, Passes;
    if events == [] {
      from := 0;
    } else {
      var n := |events| - 1;
      var front := events[..n];
      var before := MarksAreExact(front);
      assert forall k :: 0 <= k < n ==> front[k] == events[k];
      if events[n].Looks? {
        LookedAt(After(front), events[n].look);
      }
      if ResetsAt(events, n) {
        from := |events|;
        assert Counted(events, from, |events|) == 0;
      } else {
        from := before;
        CountedOfPrefix(events, from, n);
        RunsOn(events, from);
        BeginsOn(events, from, After(front).since);
      }
    }
  }

  lemma RunsOn(events: seq<Event>, from: nat)
    requires events != [] && RunsFrom(events[..|events| - 1], from) && !ResetsAt(events, |events| - 1)
    ensures RunsFrom(events, from)
  {
    hide Passes;
    var front := events[..|events| - 1];
    forall k | 0 <= k < |front|
      ensures ResetsAt(front, k) == ResetsAt(events, k)
    {
      assert front[k] == events[k];
    }
  }

  lemma BeginsOn(events: seq<Event>, from: nat, since: Option<i64>)
    requires events != [] && from < |events| && BeginsBy(events[..|events| - 1], from, since)
    ensures since.Some? || !CountsAt(events, |events| - 1) ==> BeginsBy(events, from, since)
    ensures since.None? && CountsAt(events, |events| - 1) ==> BeginsBy(events, from, Some(events[|events| - 1].look.now))
  {
    hide Fails;
    var n := |events| - 1;
    var front := events[..n];
    assert forall k :: 0 <= k < n ==> front[k] == events[k];
    assert forall k :: 0 <= k < n ==> CountsAt(front, k) == CountsAt(events, k);
    if !(0 < from && events[from - 1].Restarts?) {
      if since.Some? {
        var k: nat :| FirstCounts(front, from, k) && front[k].look.now == since.value;
        assert FirstCounts(events, from, k);
      } else if CountsAt(events, n) {
        assert FirstCounts(events, from, n);
      }
    }
  }

  lemma OneStart(events: seq<Event>, from: nat, other: nat)
    requires RunsFrom(events, from) && RunsFrom(events, other)
    ensures from == other
  {
  }

  lemma OneBeginning(events: seq<Event>, from: nat, since: Option<i64>, other: Option<i64>)
    requires BeginsBy(events, from, since) && BeginsBy(events, from, other)
    ensures since == other
  {
  }

  /** Over every run, a module is let go exactly at a failing look half an hour or more after its
      countdown began, with ninety-nine failing looks or more noted since it last started over, the
      count being read modulo 2^32. */
  lemma LetGoExactlyWhen(events: seq<Event>, n: nat, from: nat, since: Option<i64>)
    requires n < |events| && events[n].Looks? && RunsFrom(events[..n], from) && BeginsBy(events[..n], from, since)
    ensures DecisionAt(events, n).Unbind? <==>
            && FailsAt(events, n)
            && since.Some? && events[n].look.now - since.value >= 1_800_000
            && Counted(events[..n], from, n) % 0x1_0000_0000 >= 99
  {
    hide Judge, Fails, After;
    var before := events[..n];
    var exact := MarksAreExact(before);
    OneStart(before, from, exact);
    OneBeginning(before, from, since, After(before).since);
    LookedAt(After(before), events[n].look);
  }
}
