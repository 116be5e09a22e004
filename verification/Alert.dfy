/** The alert throttle: a fault is announced when it starts and then at most once per window, with a
    count of what was held back. */
module Alert {
  import opened Basics

  datatype Seen = Seen(announcedAt: i64, held: u32)

  datatype Decision = Send | Suppress | Repeat(repeats: u32)

  type Memory = map<string, Seen>

  // ----- One occurrence ----------------------------------------------------------

  function Decide(window: i64, seen: Memory, code: string, now: i64): Decision {
    if code !in seen then Send
    else if SaturatingSub(now, seen[code].announcedAt) < window then Suppress
    else Repeat(seen[code].held)
  }

  function Note(seen: Memory, code: string, now: i64, decision: Decision): Memory {
    if decision.Suppress? && code in seen
    then seen[code := seen[code].(held := SaturatingInc(seen[code].held))]
    else seen[code := Seen(now, 0)]
  }

  class AlertThrottle {
    const window: i64
    var seen: Memory

    constructor (window: i64)
      ensures this.window == if window < 0 then 0 else window
      ensures seen == map[]
    {
      this.window := if window < 0 then 0 else window;
      this.seen := map[];
    }

    method Consider(code: string, now: i64) returns (decision: Decision)
      modifies this
      ensures decision == Decide(window, old(seen), code, now)
      ensures seen == Note(old(seen), code, now, decision)
    {
      if code !in seen {
        seen := seen[code := Seen(now, 0)];
        return Send;
      }
      var entry := seen[code];
      if SaturatingSub(now, entry.announcedAt) < window {
        seen := seen[code := entry.(held := SaturatingInc(entry.held))];
        return Suppress;
      }
      seen := seen[code := Seen(now, 0)];
      decision := Repeat(entry.held);
    }

    method Clear(code: string)
      modifies this
      ensures seen == old(seen) - {code}
    {
      seen := seen - {code};
    }
  }

  // ----- Runs -----------------------------------------------------------------------

  datatype Event = Happens(code: string, now: i64) | Clears(code: string)

  function Step(window: i64, seen: Memory, e: Event): Memory {
    match e
    case Happens(code, now) => Note(seen, code, now, Decide(window, seen, code, now))
    case Clears(code) => seen - {code}
  }

  function After(window: i64, events: seq<Event>): Memory {
    if events == [] then map[]
    else Step(window, After(window, events[..|events| - 1]), events[|events| - 1])
  }

  /** What was decided at one event of a run. */
  function DecisionAt(window: i64, events: seq<Event>, i: nat): Decision
    requires i < |events| && events[i].Happens?
  {
    Decide(window, After(window, events[..i]), events[i].code, events[i].now)
  }

  ghost predicate Announces(window: i64, events: seq<Event>, i: nat, code: string) {
    && i < |events| && events[i].Happens? && events[i].code == code
    && !DecisionAt(window, events, i).Suppress?
  }

  // ----- Codes do not share a budget ---------------------------------------------------

  function Only(events: seq<Event>, code: string): seq<Event> {
    if events == [] then []
    else Only(events[..|events| - 1], code) + if events[|events| - 1].code == code then [events[|events| - 1]] else []
  }

  lemma {:induction false} RememberedAlone(window: i64, events: seq<Event>, code: string)
    ensures var all, own := After(window, events), After(window, Only(events, code));
            (code in all <==> code in own) && (code in all ==> all[code] == own[code])
    decreases |events|
  {
    if events != [] {
      var front, last := events[..|events| - 1], events[|events| - 1];
      RememberedAlone(window, front, code);
      var own := Only(events, code);
      if last.code == code {
        assert own[|own| - 1] == last && own[..|own| - 1] == Only(front, code);
      } else {
        assert own == Only(front, code) + [] == Only(front, code);
      }
    }
  }

  /** What is remembered of a code, and so what is decided next about it, is what would be remembered
      had no other code ever occurred. */
  lemma CodesAreIndependent(window: i64, events: seq<Event>, code: string, now: i64)
    ensures var all, own := After(window, events), After(window, Only(events, code));
            && (code in all <==> code in own)
            && (code in all ==> all[code] == own[code])
            && Decide(window, all, code, now) == Decide(window, own, code, now)
  {
    hide After, Only;
    RememberedAlone(window, events, code);
  }

  // ----- Announcements keep their distance ------------------------------------------------

  ghost predicate NoClear(events: seq<Event>, code: string, from: nat, to: nat) {
    forall k :: from <= k < to && k < |events| ==> events[k] != Clears(code)
  }

  /** After an announcement and until the code is cleared, the time remembered is that announcement's
      or a later one's. */
  lemma {:induction false} RememberedAnnouncement(window: i64, events: seq<Event>, code: string, i: nat)
    requires window >= 0 && Announces(window, events, i, code) && NoClear(events, code, i + 1, |events|)
    ensures code in After(window, events) && After(window, events)[code].announcedAt >= events[i].now
    decreases |events|
  {
    var front, last := events[..|events| - 1], events[|events| - 1];
    assert events[..i] == front[..i];
    if i < |front| {
      RememberedAnnouncement(window, front, code, i);
      assert events[|front|] == last;
    } else {
      assert front == events[..i];
    }
  }

  /** Between clears of a code, any two announcements of it are at least a window apart, whatever the
      clock does in between. */
  lemma AnnouncementsAreAWindowApart(window: i64, events: seq<Event>, code: string, i: nat, j: nat)
    requires window >= 0 && i < j
    requires Announces(window, events, i, code) && Announces(window, events, j, code)
    requires NoClear(events, code, i + 1, j)
    ensures events[j].now - events[i].now >= window
  {
    var before := events[..j];
    assert before[..i] == events[..i];
    RememberedAnnouncement(window, before, code, i);
  }

  // ----- Every decision, from the run alone -------------------------------------------------

  ghost predicate Suppresses(window: i64, events: seq<Event>, i: nat, code: string) {
    && i < |events| && events[i].Happens? && events[i].code == code
    && DecisionAt(window, events, i).Suppress?
  }

  /** The code was announced here, has not been announced again, and was not cleared since. */
  ghost predicate Stands(window: i64, events: seq<Event>, i: nat, code: string) {
    && Announces(window, events, i, code)
    && NoClear(events, code, i + 1, |events|)
    && forall k :: i < k < |events| ==> !Announces(window, events, k, code)
  }

  /** How many occurrences of the code were held back from `from` on, before `end`. */
  ghost function HeldBack(window: i64, events: seq<Event>, code: string, from: nat, end: nat): nat
    decreases end
  {
    if end <= from then 0
    else HeldBack(window, events, code, from, end - 1) + if Suppresses(window, events, end - 1, code) then 1 else 0
  }

  function Capped(n: nat): u32 {
    if n > U32_MAX then U32_MAX else n
  }

  lemma SameSoFar(window: i64, events: seq<Event>, n: nat, i: nat, code: string)
    requires i < n <= |events|
    ensures Announces(window, events[..n], i, code) <==> Announces(window, events, i, code)
    ensures Suppresses(window, events[..n], i, code) <==> Suppresses(window, events, i, code)
  {
    assert events[..n][..i] == events[..i];
  }

  lemma {:induction false} HeldBackSoFar(window: i64, events: seq<Event>, n: nat, code: string, from: nat, end: nat)
    requires end <= n <= |events|
    ensures HeldBack(window, events[..n], code, from, end) == HeldBack(window, events, code, from, end)
    decreases end
  {
    hide Suppresses;
    if end > from {
      HeldBackSoFar(window, events, n, code, from, end - 1);
      SameSoFar(window, events, n, end - 1, code);
    }
  }

  /** An event that neither announces nor clears a code leaves its announcement standing. */
  lemma StandsOn(window: i64, events: seq<Event>, i: nat, code: string)
    requires events != [] && events[|events| - 1] != Clears(code) && !Announces(window, events, |events| - 1, code)
    ensures Stands(window, events[..|events| - 1], i, code) <==> Stands(window, events, i, code)
  {
    hide DecisionAt, Announces;
    var n := |events| - 1;
    var front := events[..n];
    assert forall k :: 0 <= k < n ==> front[k] == events[k];
    forall k | 0 <= k < n
      ensures Announces(window, front, k, code) <==> Announces(window, events, k, code)
    {
      SameSoFar(window, events, n, k, code);
    }
    Bounded(window, events, i, code);
    Bounded(window, front, i, code);
  }

  lemma Bounded(window: i64, events: seq<Event>, i: nat, code: string)
    ensures Announces(window, events, i, code) ==> i < |events|
  {
  }

  /** What one event does to what is remembered of a code. */
  lemma Remembers(window: i64, events: seq<Event>, code: string)
    requires events != []
    ensures var n := |events| - 1;
            var before, after := After(window, events[..n]), After(window, events);
            && (events[n] == Clears(code) ==> code !in after)
            && (Announces(window, events, n, code) ==> code in after && after[code] == Seen(events[n].now, 0))
            && (Suppresses(window, events, n, code) ==>
                  code in before && code in after && after[code] == before[code].(held := SaturatingInc(before[code].held)))
            && (events[n].code != code ==> (code in after <==> code in before) && (code in after ==> after[code] == before[code]))
  {
  }

  /** What is remembered of a code is its standing announcement and what was held back since. */
  lemma {:induction false} MemoryIsTheStanding(window: i64, events: seq<Event>, code: string)
    ensures code !in After(window, events) ==> forall i: nat :: !Stands(window, events, i, code)
    ensures code in After(window, events) ==>
              exists i: nat :: Stands(window, events, i, code) && Matches(window, events, i, code, After(window, events)[code])
    decreases |events|
  {
    hide After, Stands, Announces, Suppresses;
    if events == [] {
      NothingStands(window, code);
    } else {
      var n := |events| - 1;
      var front := events[..n];
      MemoryIsTheStanding(window, front, code);
      Remembers(window, events, code);
      OneOfFour(window, events, code);
      if events[n] == Clears(code) {
        NoneAfterClear(window, events, code);
      } else if Announces(window, events, n, code) {
        StandsNow(window, events, code);
        assert Matches(window, events, n, code, Seen(events[n].now, 0));
      } else {
        forall i: nat {
          StandsOn(window, events, i, code);
        }
        if code in After(window, front) {
          var i: nat :| Stands(window, front, i, code) && Matches(window, front, i, code, After(window, front)[code]);
          StandsBefore(window, front, i, code);
          HeldBackSoFar(window, events, n, code, i + 1, n);
          assert Matches(window, events, i, code, After(window, events)[code]);
        }
      }
    }
  }

  ghost predicate Matches(window: i64, events: seq<Event>, i: nat, code: string, seen: Seen) {
    && i < |events| && events[i].Happens?
    && seen == Seen(events[i].now, Capped(HeldBack(window, events, code, i + 1, |events|)))
  }

  lemma NothingStands(window: i64, code: string)
    ensures After(window, []) == map[] && forall i: nat :: !Stands(window, [], i, code)
  {
  }

  lemma OneOfFour(window: i64, events: seq<Event>, code: string)
    requires events != []
    ensures var n := |events| - 1;
            || events[n] == Clears(code) || Announces(window, events, n, code) || Suppresses(window, events, n, code)
            || events[n].code != code
    ensures var n := |events| - 1;
            Announces(window, events, n, code) || Suppresses(window, events, n, code) ==>
              events[n].Happens? && events[n].code == code
  {
  }

  lemma NoneAfterClear(window: i64, events: seq<Event>, code: string)
    requires events != [] && events[|events| - 1] == Clears(code)
    ensures forall i: nat :: !Stands(window, events, i, code)
  {
  }

  lemma StandsNow(window: i64, events: seq<Event>, code: string)
    requires events != [] && Announces(window, events, |events| - 1, code)
    ensures Stands(window, events, |events| - 1, code)
  {
  }

  lemma StandsBefore(window: i64, events: seq<Event>, i: nat, code: string)
    requires Stands(window, events, i, code)
    ensures i < |events| && events[i].Happens?
  {
  }

  lemma OneStands(window: i64, events: seq<Event>, i: nat, j: nat, code: string)
    requires Stands(window, events, i, code) && Stands(window, events, j, code)
    ensures i == j
  {
  }

  /** Every decision of every run, from the decisions before it: an occurrence is sent as new exactly if
      no announcement of its code stands; otherwise it is held back exactly if that announcement is less
      than a window ago, and else repeated with the number held back since. */
  lemma DecidedByTheStanding(window: i64, events: seq<Event>, n: nat)
    requires window >= 0 && n < |events| && events[n].Happens?
    ensures DecisionAt(window, events, n).Send? <==> forall i: nat :: !Stands(window, events[..n], i, events[n].code)
    ensures forall i: nat :: Stands(window, events[..n], i, events[n].code) ==>
              && (DecisionAt(window, events, n).Suppress? <==> events[n].now - events[i].now < window)
              && (DecisionAt(window, events, n).Repeat? ==>
                    DecisionAt(window, events, n).repeats == Capped(HeldBack(window, events, events[n].code, i + 1, n)))
  {
    hide Stands, After, HeldBack;
    var before, code := events[..n], events[n].code;
    MemoryIsTheStanding(window, before, code);
    if code in After(window, before) {
      var i: nat :| Stands(window, before, i, code) && Matches(window, before, i, code, After(window, before)[code]);
      StandsBefore(window, before, i, code);
      HeldBackSoFar(window, events, n, code, i + 1, n);
      forall j: nat | Stands(window, before, j, code)
        ensures j == i
      {
        OneStands(window, before, i, j, code);
      }
    }
  }

  /** So nothing is swallowed that was not announced first. */
  lemma SuppressedWasAnnounced(window: i64, events: seq<Event>, code: string) returns (i: nat)
    requires code in After(window, events)
    ensures Announces(window, events, i, code) && NoClear(events, code, i + 1, |events|)
    ensures After(window, events)[code].announcedAt == events[i].now
  {
    hide After;
    MemoryIsTheStanding(window, events, code);
    i :| Stands(window, events, i, code) && Matches(window, events, i, code, After(window, events)[code]);
  }

  // ----- Nothing held back is lost count of --------------------------------------------------

  /** Since a code was last cleared: how many of its occurrences were held back, how many its repeats
      have reported, and how many were held back with the counter already full. */
  datatype Tally = Tally(suppressed: nat, reported: nat, uncounted: nat)

  function Count(window: i64, events: seq<Event>, code: string): Tally {
    if events == [] then Tally(0, 0, 0)
    else
      var front, last := events[..|events| - 1], events[|events| - 1];
      var t := Count(window, front, code);
      if last.code != code then t
      else if last.Clears? then Tally(0, 0, 0)
      else
        match Decide(window, After(window, front), code, last.now)
        case Send => t
        case Suppress =>
          var full := Held(After(window, front), code) == U32_MAX;
          t.(suppressed := t.suppressed + 1, uncounted := t.uncounted + if full then 1 else 0)
        case Repeat(repeats) => t.(reported := t.reported + repeats)
  }

  function Held(seen: Memory, code: string): nat {
    if code in seen then seen[code].held else 0
  }

  /** What was reported and what is still held are all that was held back exactly if nothing was held
      back with the counter full; what is missing otherwise is just those.  Below 2^32 occurrences the
      counter is never full. */
  lemma {:induction false} RepeatsAccountForTheHeld(window: i64, events: seq<Event>, code: string)
    ensures var t, held := Count(window, events, code), Held(After(window, events), code);
            && t.reported + held + t.uncounted == t.suppressed
            && (t.reported + held == t.suppressed <==> t.uncounted == 0)
            && (t.suppressed <= U32_MAX ==> t.uncounted == 0)
            && (code !in After(window, events) ==> t == Tally(0, 0, 0))
    decreases |events|
  {
    if events != [] {
      RepeatsAccountForTheHeld(window, events[..|events| - 1], code);
    }
  }
}
