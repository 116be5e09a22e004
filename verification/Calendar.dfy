/** The service centre's timestamp, and the calendar arithmetic that turns it into an instant. */
module Calendar {
  import opened Basics

  // ----- Counting days, the long way ------------------------------------------------

  predicate IsLeap(year: int) {
    year % 4 == 0 && (year % 100 != 0 || year % 400 == 0)
  }

  function DaysInMonth(year: int, month: int): nat {
    if month == 2 then if IsLeap(year) then 29 else 28
    else if month in {4, 6, 9, 11} then 30
    else 31
  }

  function DaysInYear(year: int): nat {
    if IsLeap(year) then 366 else 365
  }

  /** Days from the first of January 1970 to the first of January of a year, counted year by year in
      either direction. */
  function YearStart(year: int): int
    decreases if year < 1970 then 1970 - year else year - 1970
  {
    if year == 1970 then 0
    else if year > 1970 then YearStart(year - 1) + DaysInYear(year - 1)
    else YearStart(year + 1) - DaysInYear(year)
  }

  /** Days of the year before a month. */
  function MonthStart(year: int, month: nat): nat {
    if month <= 1 then 0 else MonthStart(year, month - 1) + DaysInMonth(year, month - 1)
  }

  // ----- Counting days, the short way -------------------------------------------------

  /** Division as the machine does it, towards zero. */
  function Truncate(a: int, b: int): int
    requires b > 0
  {
    if a >= 0 then a / b else -(-a / b)
  }

  function DaysFromCivil(year: int, month: int, day: int): int {
    var shifted := if month <= 2 then year - 1 else year;
    var era := Truncate(if shifted >= 0 then shifted else shifted - 399, 400);
    var yearOfEra := shifted - era * 400;
    var dayOfYear := Truncate(153 * (if month > 2 then month - 3 else month + 9) + 2, 5) + day - 1;
    var dayOfEra := yearOfEra * 365 + Truncate(yearOfEra, 4) - Truncate(yearOfEra, 100) + dayOfYear;
    era * 146_097 + dayOfEra - 719_468
  }

  /** The eras are four centuries counted downwards as well as upwards. */
  lemma EraIsFloor(shifted: int)
    ensures Truncate(if shifted >= 0 then shifted else shifted - 399, 400) == shifted / 400
  {
    if shifted < 0 {
      var q, r := shifted / 400, shifted % 400;
      assert -(shifted - 399) == 400 * -q + (399 - r);
    }
  }

  /** Days from the epoch to the first of March of a year. */
  function MarchStart(year: int): int {
    var era, yearOfEra := year / 400, year % 400;
    era * 146_097 + yearOfEra * 365 + yearOfEra / 4 - yearOfEra / 100 - 719_468
  }

  lemma CivilFromMarch(year: int, month: int, day: int)
    requires 1 <= month <= 12
    ensures DaysFromCivil(year, month, day) ==
            MarchStart(if month <= 2 then year - 1 else year)
            + (153 * (if month > 2 then month - 3 else month + 9) + 2) / 5 + day - 1
  {
    var shifted := if month <= 2 then year - 1 else year;
    EraIsFloor(shifted);
  }

  lemma NextInEra(n: nat)
    ensures (n + 1) / 4 == n / 4 + if (n + 1) % 4 == 0 then 1 else 0
    ensures (n + 1) / 100 == n / 100 + if (n + 1) % 100 == 0 then 1 else 0
  {
  }

  lemma LeapInEra(year: int)
    ensures IsLeap(year) <==> year % 400 % 4 == 0 && (year % 400 % 100 != 0 || year % 400 == 0)
  {
    var q, r := year / 400, year % 400;
    assert year == 4 * (100 * q) + r && year == 100 * (4 * q) + r;
    QuartersDropOut(100 * q, r);
    HundredsDropOut(4 * q, r);
  }

  lemma QuartersDropOut(a: int, r: nat)
    ensures (4 * a + r) % 4 == r % 4
  {
    assert 4 * a + r == 4 * (a + r / 4) + r % 4;
  }

  lemma HundredsDropOut(a: int, r: nat)
    ensures (100 * a + r) % 100 == r % 100
  {
    assert 100 * a + r == 100 * (a + r / 100) + r % 100;
  }

  /** A year's worth of days lies between two Marches: the leap day belongs to the later year. */
  lemma MarchToMarch(year: int)
    ensures MarchStart(year) == MarchStart(year - 1) + DaysInYear(year)
  {
    LeapInEra(year);
    var n := (year - 1) % 400;
    if n == 399 {
      assert year % 400 == 0 && year / 400 == (year - 1) / 400 + 1;
    } else {
      assert year % 400 == n + 1 && year / 400 == (year - 1) / 400;
      NextInEra(n);
    }
  }

  lemma {:induction false} JanuaryFromMarch(year: int)
    ensures YearStart(year) == MarchStart(year - 1) + 306
    decreases if year < 1970 then 1970 - year else year - 1970
  {
    if year > 1970 {
      JanuaryFromMarch(year - 1);
      MarchToMarch(year - 1);
    } else if year < 1970 {
      JanuaryFromMarch(year + 1);
      MarchToMarch(year);
    } else {
      assert MarchStart(1969) == -306;
    }
  }

  lemma MonthsFromMarch(year: int, month: nat)
    requires 1 <= month <= 12
    ensures MonthStart(year, month) ==
            (if month <= 2 then (153 * (month + 9) + 2) / 5 - 306
             else (153 * (month - 3) + 2) / 5 - 306 + DaysInYear(year))
  {
    assert MonthStart(year, 2) == 31 + MonthStart(year, 1) == 31;
    assert MonthStart(year, 3) == 31 + DaysInMonth(year, 2);
    assert MonthStart(year, 4) == MonthStart(year, 3) + 31;
    assert MonthStart(year, 5) == MonthStart(year, 4) + 30;
    assert MonthStart(year, 6) == MonthStart(year, 5) + 31;
    assert MonthStart(year, 7) == MonthStart(year, 6) + 30;
    assert MonthStart(year, 8) == MonthStart(year, 7) + 31;
    assert MonthStart(year, 9) == MonthStart(year, 8) + 31;
    assert MonthStart(year, 10) == MonthStart(year, 9) + 30;
    assert MonthStart(year, 11) == MonthStart(year, 10) + 31;
    assert MonthStart(year, 12) == MonthStart(year, 11) + 30;
  }

  /** The formula counts days as the calendar does, for every year before or after the epoch. */
  lemma DaysFromCivilCountsDays(year: int, month: int, day: int)
    requires 1 <= month <= 12
    ensures DaysFromCivil(year, month, day) == YearStart(year) + MonthStart(year, month) + day - 1
  {
    hide MarchStart, YearStart, MonthStart, DaysFromCivil;
    CivilFromMarch(year, month, day);
    JanuaryFromMarch(year);
    MonthsFromMarch(year, month);
    MarchToMarch(year);
  }

  // ----- Real dates and others -------------------------------------------------------------

  /** Days from the epoch to a date. */
  function DayCount(year: int, month: nat, day: int): int {
    YearStart(year) + MonthStart(year, month) + day - 1
  }

  ghost predicate IsDate(year: int, month: int, day: int) {
    1 <= month <= 12 && 1 <= day <= DaysInMonth(year, month)
  }

  /** The day after a date, turning the month and the year over. */
  function NextDate(year: int, month: int, day: int): (int, int, int) {
    if day < DaysInMonth(year, month) then (year, month, day + 1)
    else if month < 12 then (year, month + 1, 1)
    else (year + 1, 1, 1)
  }

  /** The count is the calendar's: it is zero at the epoch, and the day after a date, which is a date
      again, counts one more, in every year. */
  lemma DayAfterDay(year: int, month: nat, day: int)
    requires IsDate(year, month, day)
    ensures DayCount(1970, 1, 1) == 0
    ensures var (y, m, d) := NextDate(year, month, day);
            IsDate(y, m, d) && DayCount(y, m, d) == DayCount(year, month, day) + 1
  {
    hide DaysInMonth;
    MonthLengths(year);
    MonthLengths(year + 1);
    if day == DaysInMonth(year, month) && month == 12 {
      NextYear(year);
    }
  }

  lemma MonthLengths(year: int)
    ensures forall m :: 1 <= m <= 12 ==> 28 <= DaysInMonth(year, m) <= 31
    ensures MonthStart(year, 12) + DaysInMonth(year, 12) == DaysInYear(year)
  {
    MonthsFromMarch(year, 12);
  }

  lemma NextYear(year: int)
    ensures YearStart(year + 1) == YearStart(year) + DaysInYear(year)
  {
  }

  /** A day the month does not have is counted on into the next month. */
  lemma ImpossibleDaysRollOver(year: int, month: int, day: int)
    requires 1 <= month <= 11
    ensures DaysFromCivil(year, month, day) == DaysFromCivil(year, month + 1, day - DaysInMonth(year, month))
  {
    hide DaysFromCivil, YearStart, DaysInMonth;
    DaysFromCivilCountsDays(year, month, day);
    DaysFromCivilCountsDays(year, month + 1, day - DaysInMonth(year, month));
  }

  // ----- The seven octets ------------------------------------------------------------------

  /** Two decimal digits, the first in the low half. */
  function SwappedDigits(byte: u8): Option<nat> {
    if byte % 16 > 9 || byte / 16 > 9 then None else Some(byte % 16 * 10 + byte / 16)
  }

  datatype Stamp = Stamp(year: nat, month: nat, day: nat, hour: nat, minute: nat, second: nat, quarters: int)

  /** What the field can hold: two digits of year, a date and a time, and up to 79 quarters of an
      hour either way. */
  ghost predicate Holds(t: Stamp) {
    && t.year <= 99 && 1 <= t.month <= 12 && 1 <= t.day <= 31
    && t.hour <= 23 && t.minute <= 59 && t.second <= 60
    && -79 <= t.quarters <= 79
  }

  /** Seconds since local midnight; a leap second can make them a whole day. */
  function Clock(t: Stamp): nat {
    t.hour * 3_600 + t.minute * 60 + t.second
  }

  /** What the fields of a stamp count to, in milliseconds, whether or not there is such a date. */
  function Counted(t: Stamp): int {
    (DayCount(2000 + t.year, t.month, t.day) * 86_400 + Clock(t) - t.quarters * 900) * 1_000
  }

  /** A stamp whose date exists. */
  ghost predicate IsReal(t: Stamp) {
    Holds(t) && IsDate(2000 + t.year, t.month, t.day)
  }

  /** The instant such a stamp names: its local time less its offset. */
  function Instant(t: Stamp): int
    requires IsReal(t)
  {
    Counted(t)
  }

  function Swap(n: nat): u8
    requires n <= 99
  {
    n % 10 * 16 + n / 10
  }

  function ZoneOctet(quarters: int): u8
    requires -79 <= quarters <= 79
  {
    if quarters < 0 then Swap(-quarters) + 8 else Swap(quarters)
  }

  function EncodeStamp(t: Stamp): seq<u8>
    requires Holds(t)
  {
    [Swap(t.year), Swap(t.month), Swap(t.day), Swap(t.hour), Swap(t.minute), Swap(t.second), ZoneOctet(t.quarters)]
  }

  function Milliseconds(year: nat, month: nat, day: nat, hour: nat, minute: nat, second: nat, quarters: int): int {
    (DaysFromCivil(2000 + year, month, day) * 86_400 + hour * 3_600 + minute * 60 + second - quarters * 15 * 60) * 1_000
  }

  function DecodeZone(zone: u8): Option<int> {
    if zone / 16 > 9 then None
    else
      var quarters := zone % 8 * 10 + zone / 16;
      Some(if zone / 8 % 2 == 1 then -quarters else quarters)
  }

  function AllDigits(field: seq<u8>, n: nat): Option<seq<nat>>
    requires n <= |field|
  {
    if n == 0 then Some([])
    else if AllDigits(field, n - 1).None? || SwappedDigits(field[n - 1]).None? then None
    else Some(AllDigits(field, n - 1).value + [SwappedDigits(field[n - 1]).value])
  }

  function DecodeStamp(field: seq<u8>): Option<int> {
    if |field| < 7 then None
    else
      match AllDigits(field, 6)
      case None => None
      case Some(p) => DecodeParts(p, field[6])
  }

  function DecodeParts(p: seq<nat>, zone: u8): Option<int> {
    if |p| != 6 then None
    else if !(1 <= p[1] <= 12) || !(1 <= p[2] <= 31) then None
    else if p[3] > 23 || p[4] > 59 || p[5] > 60 then None
    else
      match DecodeZone(zone)
      case None => None
      case Some(quarters) => Some(Milliseconds(p[0], p[1], p[2], p[3], p[4], p[5], quarters))
  }

  lemma {:induction false} AllDigitsAre(field: seq<u8>, n: nat)
    requires n <= |field|
    ensures AllDigits(field, n).Some? <==> forall i :: 0 <= i < n ==> SwappedDigits(field[i]).Some?
    ensures AllDigits(field, n).Some? ==>
              && |AllDigits(field, n).value| == n
              && forall i :: 0 <= i < n ==> AllDigits(field, n).value[i] == SwappedDigits(field[i]).value
  {
    if n > 0 {
      AllDigitsAre(field, n - 1);
    }
  }

  method ReadStamp(field: seq<u8>) returns (instant: Option<int>)
    ensures instant == DecodeStamp(field)
  {
    hide DecodeParts;
    if |field| < 7 {
      return None;
    }
    var parts := new nat[6](_ => 0);
    for i := 0 to 6
      invariant AllDigits(field, i).Some? && parts[..i] == AllDigits(field, i).value
    {
      var first, second := field[i] % 16, field[i] / 16;
      if first > 9 || second > 9 {
        AllDigitsAre(field, 6);
        return None;
      }
      parts[i] := first * 10 + second;
    }
    assert parts[..6] == parts[..];
    instant := CheckParts(parts[..], field[6]);
  }

  method CheckParts(p: seq<nat>, zone: u8) returns (instant: Option<int>)
    requires |p| == 6
    ensures instant == DecodeParts(p, zone)
  {
    hide DaysFromCivil;
    var month, day, hour, minute, second := p[1], p[2], p[3], p[4], p[5];
    if !(1 <= month <= 12) || !(1 <= day <= 31) {
      return None;
    }
    if hour > 23 || minute > 59 || second > 60 {
      return None;
    }
    if zone / 16 > 9 {
      return None;
    }
    var quarters: int := zone % 8 * 10 + zone / 16;
    if zone / 8 % 2 == 1 {
      quarters := -quarters;
    }
    var days := DaysFromCivil(2000 + p[0], month, day);
    var seconds := days * 86_400 + hour * 3_600 + minute * 60 + second - quarters * 15 * 60;
    instant := Some(seconds * 1_000);
  }

  lemma SwapReads(n: nat)
    requires n <= 99
    ensures SwappedDigits(Swap(n)) == Some(n)
  {
    Halves(n / 10, n % 10);
  }

  lemma Halves(low: nat, high: nat)
    requires low < 16 && high < 16
    ensures (high * 16 + low) % 16 == low && (high * 16 + low) / 16 == high
  {
  }

  lemma ZoneReads(quarters: int)
    requires -79 <= quarters <= 79
    ensures DecodeZone(ZoneOctet(quarters)) == Some(quarters)
  {
    var n := if quarters < 0 then -quarters else quarters;
    ZoneHalves(n / 10, n % 10, if quarters < 0 then 1 else 0);
  }

  lemma ZoneHalves(tens: nat, units: nat, sign: nat)
    requires tens < 8 && units < 10 && sign < 2
    ensures var zone := units * 16 + sign * 8 + tens;
            zone % 8 == tens && zone / 16 == units && zone / 8 % 2 == sign
  {
    var zone := units * 16 + sign * 8 + tens;
    assert zone / 8 == units * 2 + sign;
  }

  /** Every stamp the field can hold is read as what its fields count to, on either side of
      Greenwich. */
  lemma StampIsCounted(t: Stamp)
    requires Holds(t)
    ensures DecodeStamp(EncodeStamp(t)) == Some(Counted(t))
  {
    hide DaysFromCivil, YearStart, MonthStart, Swap, ZoneOctet, DecodeZone, SwappedDigits;
    var field := EncodeStamp(t);
    SwapReads(t.year);
    SwapReads(t.month);
    SwapReads(t.day);
    SwapReads(t.hour);
    SwapReads(t.minute);
    SwapReads(t.second);
    ZoneReads(t.quarters);
    AllDigitsAre(field, 6);
    DaysFromCivilCountsDays(2000 + t.year, t.month, t.day);
  }

  /** A stamp with a real date is read as the instant it names. */
  lemma StampIsReadAsItsInstant(t: Stamp)
    requires IsReal(t)
    ensures DecodeStamp(EncodeStamp(t)) == Some(Instant(t))
  {
    hide DecodeStamp, EncodeStamp, Counted;
    StampIsCounted(t);
  }

  /** Two stamps that count to the same, as those of one instant in different zones do, are read
      alike. */
  lemma ZonesAgree(t: Stamp, u: Stamp)
    requires Holds(t) && Holds(u) && Counted(t) == Counted(u)
    ensures DecodeStamp(EncodeStamp(t)) == DecodeStamp(EncodeStamp(u))
  {
    hide Counted, DecodeStamp, EncodeStamp;
    StampIsCounted(t);
    StampIsCounted(u);
  }

  /** A field with a day its month does not have is read, and as the date that many days into the next
      month. */
  lemma ImpossibleStampRollsOver(t: Stamp)
    requires Holds(t) && t.month < 12 && t.day > DaysInMonth(2000 + t.year, t.month)
    ensures var u := t.(month := t.month + 1, day := t.day - DaysInMonth(2000 + t.year, t.month));
            IsReal(u) && DecodeStamp(EncodeStamp(t)) == Some(Instant(u)) == DecodeStamp(EncodeStamp(u))
  {
    hide DecodeStamp, EncodeStamp, YearStart;
    var u := t.(month := t.month + 1, day := t.day - DaysInMonth(2000 + t.year, t.month));
    MonthLengths(2000 + t.year);
    ZonesAgree(t, u);
    StampIsReadAsItsInstant(u);
  }

  /** The thirtieth of February is the first or the second of March. */
  lemma ThirtiethOfFebruary(t: Stamp)
    requires Holds(t) && t.month == 2 && t.day == 30
    ensures var march := t.(month := 3, day := if IsLeap(2000 + t.year) then 1 else 2);
            IsReal(march) && DecodeStamp(EncodeStamp(t)) == Some(Instant(march))
  {
    hide DecodeStamp, EncodeStamp, Instant;
    ImpossibleStampRollsOver(t);
  }

  /** The local day, counted from the epoch, that a decoded field falls on. */
  function LocalDay(instant: int, quarters: int): int {
    (instant / 1_000 + quarters * 900) / 86_400
  }

  ghost predicate InMonth(year: int, month: nat, count: int) {
    exists day :: IsDate(year, month, day) && count == DayCount(year, month, day)
  }

  /** A field is read as a day of the month it names exactly when that month has the day, counting the
      midnight a leap second runs into as the day after. */
  lemma ReadInItsMonthExactlyWhenReal(t: Stamp)
    requires Holds(t)
    ensures DecodeStamp(EncodeStamp(t)).Some?
    ensures var read := LocalDay(DecodeStamp(EncodeStamp(t)).value, t.quarters);
            var day := t.day + if Clock(t) == 86_400 then 1 else 0;
            && read == DayCount(2000 + t.year, t.month, day)
            && (InMonth(2000 + t.year, t.month, read) <==> day <= DaysInMonth(2000 + t.year, t.month))
  {
    hide DecodeStamp, EncodeStamp, YearStart, MonthStart, DaysInMonth;
    StampIsCounted(t);
    var day := t.day + if Clock(t) == 86_400 then 1 else 0;
    var count := DayCount(2000 + t.year, t.month, t.day);
    LocalDayIs(count, Clock(t), t.quarters);
    if day <= DaysInMonth(2000 + t.year, t.month) {
      assert IsDate(2000 + t.year, t.month, day);
    }
  }

  lemma LocalDayIs(count: int, clock: nat, quarters: int)
    requires clock <= 86_400
    ensures LocalDay((count * 86_400 + clock - quarters * 900) * 1_000, quarters) == count + if clock == 86_400 then 1 else 0
  {
    var seconds := count * 86_400 + clock - quarters * 900;
    assert seconds * 1_000 / 1_000 == seconds;
  }

  /** And nothing else is read as an instant: any field that is, is such a stamp's, up to the sign of
      a zero offset. */
  lemma OnlyStampsAreRead(field: seq<u8>) returns (t: Stamp)
    requires |field| == 7 && DecodeStamp(field).Some?
    ensures Holds(t) && DecodeStamp(field) == Some(Counted(t))
    ensures EncodeStamp(t)[..6] == field[..6]
    ensures t.quarters != 0 ==> EncodeStamp(t) == field
  {
    hide DaysFromCivil, YearStart, MonthStart, SwappedDigits, Swap, ZoneOctet, DecodeZone;
    AllDigitsAre(field, 6);
    var p := AllDigits(field, 6).value;
    t := Stamp(p[0], p[1], p[2], p[3], p[4], p[5], DecodeZone(field[6]).value);
    forall i | 0 <= i < 6
      ensures p[i] <= 99 && Swap(p[i]) == field[i]
    {
      SwappedBack(field[i]);
    }
    ZoneBack(field[6]);
    DaysFromCivilCountsDays(2000 + t.year, t.month, t.day);
  }

  lemma SwappedBack(byte: u8)
    requires SwappedDigits(byte).Some?
    ensures SwappedDigits(byte).value <= 99 && Swap(SwappedDigits(byte).value) == byte
  {
    TwoDigits(byte % 16, byte / 16);
  }

  lemma TwoDigits(tens: nat, units: nat)
    requires units <= 9
    ensures (tens * 10 + units) / 10 == tens && (tens * 10 + units) % 10 == units
  {
  }

  lemma ZoneBack(zone: u8)
    requires DecodeZone(zone).Some?
    ensures -79 <= DecodeZone(zone).value <= 79
    ensures DecodeZone(zone).value != 0 ==> ZoneOctet(DecodeZone(zone).value) == zone
  {
    var tens, units, sign := zone % 8, zone / 16, zone / 8 % 2;
    assert zone / 8 == 2 * units + sign;
    var n := tens * 10 + units;
    assert n / 10 == tens && n % 10 == units;
  }
}
