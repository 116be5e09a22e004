/** Telephone numbers and sender names as they travel in a PDU. */
module Address {
  import opened Basics
  import opened Septets
  import Gsm7

  predicate IsDigit(c: char) {
    '0' <= c <= '9'
  }

  predicate AreDigits(s: string) {
    forall i :: 0 <= i < |s| ==> IsDigit(s[i])
  }

  function DigitOf(n: nat): char
    requires n <= 9
  {
    (n + 0x30) as char
  }

  function Nibble(c: char): (n: nat)
    ensures n < 16
  {
    if IsDigit(c) then c as int - 0x30 else 0xf
  }

  // ----- Writing ----------------------------------------------------------------

  /** Two digits an octet, the first in the low half, an odd last one beside a filler. */
  function Bcd(digits: string): seq<u8> {
    if digits == "" then []
    else if |digits| == 1 then [Nibble(digits[0]) + 0xf0]
    else [Nibble(digits[0]) + Nibble(digits[1]) * 16] + Bcd(digits[2..])
  }

  method PackDigits(digits: string) returns (bytes: seq<u8>)
    ensures bytes == Bcd(digits)
  {
    bytes := [];
    var i := 0;
    while i < |digits|
      invariant i <= |digits|
      invariant bytes + Bcd(digits[i..]) == Bcd(digits)
    {
      ghost var rest := digits[i..];
      var low := digits[i];
      i := i + 1;
      var high := 'F';
      if i < |digits| {
        high := digits[i];
        i := i + 1;
        assert rest[2..] == digits[i..];
      }
      bytes := bytes + [Nibble(low) + Nibble(high) * 16];
    }
  }

  // ----- Reading ----------------------------------------------------------------

  function Kept(n: nat): string {
    if n <= 9 then [DigitOf(n)] else ""
  }

  /** The decimal digits among the halves of the octets, in order. */
  function Digits(bytes: seq<u8>): string {
    if bytes == [] then "" else Kept(bytes[0] % 16) + Kept(bytes[0] / 16) + Digits(bytes[1..])
  }

  function Take(s: string, n: nat): string {
    if n < |s| then s[..n] else s
  }

  method ReadDigits(bytes: seq<u8>, digits: nat) returns (out: string)
    ensures out == Take(Digits(bytes), digits)
  {
    hide Take, Kept, DigitOf;
    out := "";
    TakeNothing(Digits(bytes), digits);
    for i := 0 to |bytes|
      invariant |out| <= digits
      invariant Take(out + Digits(bytes[i..]), digits) == Take(Digits(bytes), digits)
    {
      var rest := bytes[i..];
      assert rest[1..] == bytes[i + 1..];
      var low, high := bytes[i] % 16, bytes[i] / 16;
      ghost var later := Digits(bytes[i + 1..]);
      assert out + Digits(rest) == out + (Kept(low) + (Kept(high) + later));
      TakeMore(out, low, Kept(high) + later, digits);
      if low <= 9 && |out| < digits {
        out := out + [DigitOf(low)];
      }
      TakeMore(out, high, later, digits);
      if high <= 9 && |out| < digits {
        out := out + [DigitOf(high)];
      }
    }
    assert out + Digits(bytes[|bytes|..]) == out;
    TakeAll(out, digits);
  }

  lemma TakeNothing(s: string, n: nat)
    ensures Take("" + s, n) == Take(s, n)
  {
    assert "" + s == s;
  }

  lemma TakeAll(s: string, n: nat)
    requires |s| <= n
    ensures Take(s, n) == s
  {
  }

  lemma TakeMore(out: string, nibble: nat, later: string, digits: nat)
    requires |out| <= digits
    ensures var out' := if nibble <= 9 && |out| < digits then out + [DigitOf(nibble)] else out;
            Take(out + (Kept(nibble) + later), digits) == Take(out' + later, digits)
  {
    if nibble <= 9 && |out| < digits {
      assert out + ([DigitOf(nibble)] + later) == out + [DigitOf(nibble)] + later;
    } else if nibble <= 9 {
      assert Take(out + (Kept(nibble) + later), digits) == out;
      assert Take(out + later, digits) == out;
    } else {
      assert Kept(nibble) + later == later;
    }
  }

  /** The type-of-address octet says whether the field is a number, an international one, or a name. */
  function DecodeAddress(bytes: seq<u8>, digits: nat, toa: u8): string {
    var kind := toa / 16 % 8;
    if kind == 5 then Gsm7.DecodeSeptets(Unpack(bytes, 0, digits * 4 / 7))
    else
      var out := Take(Digits(bytes), digits);
      if kind == 1 && out != "" then "+" + out else out
  }

  // ----- There and back -----------------------------------------------------------

  lemma OctetHalves(low: nat, high: nat)
    requires low < 16 && high < 16
    ensures (low + high * 16) % 16 == low && (low + high * 16) / 16 == high
  {
  }

  lemma DigitIsKept(c: char)
    requires IsDigit(c)
    ensures Kept(Nibble(c)) == [c] && Kept(0xf) == ""
  {
  }

  lemma {:induction false} BcdIsRead(digits: string)
    requires AreDigits(digits)
    ensures Digits(Bcd(digits)) == digits
    ensures |Bcd(digits)| == (|digits| + 1) / 2
    decreases |digits|
  {
    hide Nibble, Kept;
    if |digits| == 1 {
      OctetHalves(Nibble(digits[0]), 0xf);
      DigitIsKept(digits[0]);
      assert Bcd(digits)[1..] == [];
    } else if |digits| > 1 {
      BcdIsRead(digits[2..]);
      OctetHalves(Nibble(digits[0]), Nibble(digits[1]));
      DigitIsKept(digits[0]);
      DigitIsKept(digits[1]);
      assert Bcd(digits)[1..] == Bcd(digits[2..]);
      assert digits == [digits[0]] + [digits[1]] + digits[2..];
    }
  }

  /** Two halves an octet, the first in the low one. */
  function Packed(halves: seq<nat>): seq<u8>
    requires |halves| % 2 == 0 && forall i :: 0 <= i < |halves| ==> halves[i] < 16
  {
    if halves == [] then [] else [halves[0] + 16 * halves[1]] + Packed(halves[2..])
  }

  /** The decimal ones among them. */
  function Decimals(halves: seq<nat>): string {
    if halves == [] then ""
    else
      var last := halves[|halves| - 1];
      Decimals(halves[..|halves| - 1]) + if last < 10 then ["0123456789"[last]] else ""
  }

  lemma {:induction false} DecimalsAppend(a: seq<nat>, b: seq<nat>)
    ensures Decimals(a + b) == Decimals(a) + Decimals(b)
    decreases |b|
  {
    if b == [] {
      assert a + b == a;
    } else {
      assert (a + b)[..|a + b| - 1] == a + b[..|b| - 1];
      DecimalsAppend(a, b[..|b| - 1]);
    }
  }

  lemma OneDecimal(n: nat)
    requires n < 16
    ensures Decimals([n]) == Kept(n)
  {
    assert [n][..0] == [];
  }

  lemma DecimalsOfTwo(low: nat, high: nat, rest: seq<nat>)
    requires low < 16 && high < 16
    ensures Decimals([low, high] + rest) == Kept(low) + Kept(high) + Decimals(rest)
  {
    hide Kept, Decimals;
    OneDecimal(low);
    OneDecimal(high);
    DecimalsAppend([low], [high]);
    DecimalsAppend([low, high], rest);
    assert [low] + [high] == [low, high];
  }

  lemma DigitsOfTwo(low: nat, high: nat, rest: seq<u8>)
    requires low < 16 && high < 16
    ensures Digits([low + 16 * high] + rest) == Kept(low) + Kept(high) + Digits(rest)
  {
    hide Kept;
    OctetHalves(low, high);
    assert ([low + 16 * high] + rest)[1..] == rest;
  }

  /** Whatever the octets of a number hold, just its decimal halves are read, in order. */
  lemma {:induction false} OnlyDecimalsAreRead(halves: seq<nat>)
    requires |halves| % 2 == 0 && forall i :: 0 <= i < |halves| ==> halves[i] < 16
    ensures Digits(Packed(halves)) == Decimals(halves)
    decreases |halves|
  {
    hide Kept, Digits, Decimals;
    if halves == [] {
      NoDigits();
    } else {
      OnlyDecimalsAreRead(halves[2..]);
      DigitsOfTwo(halves[0], halves[1], Packed(halves[2..]));
      DecimalsOfTwo(halves[0], halves[1], halves[2..]);
      assert halves == [halves[0], halves[1]] + halves[2..];
    }
  }

  lemma NoDigits()
    ensures Digits([]) == "" && Decimals([]) == ""
  {
  }

  /** Every number written is read back, of odd or even length, with its prefix if it is an
      international one. */
  lemma NumberIsRead(digits: string, toa: u8)
    requires digits != "" && AreDigits(digits) && toa / 16 % 8 != 5
    ensures DecodeAddress(Bcd(digits), |digits|, toa) == (if toa / 16 % 8 == 1 then "+" else "") + digits
  {
    hide Digits, Bcd, Take, Unpack, Gsm7.DecodeSeptets;
    BcdIsRead(digits);
    TakeAll(digits, |digits|);
    assert "" + digits == digits;
  }

  /** No more digits are read than are announced, and an empty number has no prefix. */
  lemma AnnouncedDigitsAreRead(bytes: seq<u8>, digits: nat, toa: u8)
    requires toa / 16 % 8 != 5
    ensures var all, number := Digits(bytes), DecodeAddress(bytes, digits, toa);
            && (|all| <= digits && all != "" ==> number == (if toa / 16 % 8 == 1 then "+" else "") + all)
            && (0 < digits < |all| ==> number == (if toa / 16 % 8 == 1 then "+" else "") + all[..digits])
            && (digits == 0 || all == "" ==> number == "")
  {
    hide Digits;
    var all := Digits(bytes);
    assert "" + all == all;
    assert 0 < digits < |all| ==> "" + all[..digits] == all[..digits];
    assert all[..0] == "";
  }

  /** A name in the address field is read back from a length that counts half octets. */
  lemma NameIsRead(septets: seq<u7>, toa: u8)
    requires toa / 16 % 8 == 5
    ensures DecodeAddress(Pack(septets), (7 * |septets| + 3) / 4, toa) == Gsm7.DecodeSeptets(septets)
    ensures |Pack(septets)| == ((7 * |septets| + 3) / 4 + 1) / 2
  {
    hide Pack, Unpack, Gsm7.DecodeSeptets;
    UnpackUndoesPack(septets);
    assert (7 * |septets| + 3) / 4 * 4 / 7 == |septets|;
  }
}
