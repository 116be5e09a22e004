/** UCS-2 bodies: UTF-16 out, UTF-16 with replacement characters in. */
module Utf16 {
  import opened Basics

  predicate IsLead(u: u16) {
    0xd800 <= u < 0xdc00
  }

  predicate IsTrail(u: u16) {
    0xdc00 <= u < 0xe000
  }

  function EncodeChar(c: char): (units: seq<u16>)
    ensures 1 <= |units| <= 2
  {
    var n := c as int;
    if n < 0x1_0000 then [n] else [0xd800 + (n - 0x1_0000) / 0x400, 0xdc00 + (n - 0x1_0000) % 0x400]
  }

  function Encode(text: string): seq<u16> {
    if text == "" then [] else EncodeChar(text[0]) + Encode(text[1..])
  }

  /** The twenty bits a pair of surrogates stands for. */
  function Joined(lead: u16, trail: u16): (n: nat)
    requires IsLead(lead) && IsTrail(trail)
    ensures n < 0x10_0000
    ensures n / 0x400 == lead - 0xd800 && n % 0x400 == trail - 0xdc00
  {
    (lead as int - 0xd800) * 0x400 + (trail as int - 0xdc00)
  }

  const REPLACEMENT := '\U{fffd}'

  /** `String::from_utf16_lossy`: a surrogate without its partner reads as the replacement character,
      and the unit after it is read on its own. */
  function DecodeLossy(units: seq<u16>): string {
    if units == [] then ""
    else if !IsLead(units[0]) && !IsTrail(units[0]) then [units[0] as char] + DecodeLossy(units[1..])
    else if IsLead(units[0]) && |units| > 1 && IsTrail(units[1]) then
      [(Joined(units[0], units[1]) + 0x1_0000) as char] + DecodeLossy(units[2..])
    else [REPLACEMENT] + DecodeLossy(units[1..])
  }

  lemma CharComesBack(c: char, rest: seq<u16>)
    ensures DecodeLossy(EncodeChar(c) + rest) == [c] + DecodeLossy(rest)
  {
    var units := EncodeChar(c);
    var all := units + rest;
    assert all[|units|..] == rest;
    if c as int >= 0x1_0000 {
      var n := c as int - 0x1_0000;
      assert Joined(all[0], all[1]) == n / 0x400 * 0x400 + n % 0x400 == n;
    }
  }

  /** A surrogate without its partner reads as U+FFFD, and what follows it is read on its own. */
  lemma LoneSurrogateIsReplaced(u: u16, rest: seq<u16>)
    requires 0xd800 <= u < 0xe000
    requires 0xdc00 <= u || rest == [] || !(0xdc00 <= rest[0] < 0xe000)
    ensures DecodeLossy([u] + rest) == ['\U{fffd}'] + DecodeLossy(rest)
  {
    assert ([u] + rest)[1..] == rest;
  }

  /** Every text comes back, also with characters outside the basic plane. */
  lemma {:induction false} DecodeUndoesEncode(text: string)
    ensures DecodeLossy(Encode(text)) == text
    decreases |text|
  {
    if text != "" {
      DecodeUndoesEncode(text[1..]);
      CharComesBack(text[0], Encode(text[1..]));
      assert text == [text[0]] + text[1..];
    }
  }

  /** Reading and writing again gives the units back exactly when every surrogate has its partner. */
  ghost predicate Paired(units: seq<u16>) {
    || units == []
    || (!IsLead(units[0]) && !IsTrail(units[0]) && Paired(units[1..]))
    || (|units| > 1 && IsLead(units[0]) && IsTrail(units[1]) && Paired(units[2..]))
  }

  lemma {:induction false} LosslessExactlyWhenPaired(units: seq<u16>)
    ensures Encode(DecodeLossy(units)) == units <==> Paired(units)
    decreases |units|
  {
    if units == [] {
    } else if !IsLead(units[0]) && !IsTrail(units[0]) {
      LosslessExactlyWhenPaired(units[1..]);
      Follows(units, 1, units[0] as char);
    } else if IsLead(units[0]) && |units| > 1 && IsTrail(units[1]) {
      LosslessExactlyWhenPaired(units[2..]);
      Follows(units, 2, (Joined(units[0], units[1]) + 0x1_0000) as char);
    } else {
      assert Encode(DecodeLossy(units))[0] == 0xfffd;
    }
  }

  lemma Follows(units: seq<u16>, n: nat, c: char)
    requires n <= |units| && units[..n] == EncodeChar(c)
    ensures Encode([c] + DecodeLossy(units[n..])) == units <==> Encode(DecodeLossy(units[n..])) == units[n..]
  {
    var text := [c] + DecodeLossy(units[n..]);
    assert text[1..] == DecodeLossy(units[n..]);
    var again := Encode(text[1..]);
    assert Encode(text) == EncodeChar(c) + again;
    assert units == units[..n] + units[n..];
    assert (EncodeChar(c) + again)[n..] == again;
  }

  // ----- On the wire ------------------------------------------------------------------

  function ToOctets(units: seq<u16>): (octets: seq<u8>)
    ensures |octets| == 2 * |units|
  {
    if units == [] then [] else [units[0] / 0x100, units[0] % 0x100] + ToOctets(units[1..])
  }

  /** Two octets a unit; an odd one at the end is dropped. */
  function FromOctets(octets: seq<u8>): seq<u16> {
    if |octets| < 2 then [] else [(octets[0] as int) * 0x100 + octets[1]] + FromOctets(octets[2..])
  }

  lemma {:induction false} OctetsComeBack(units: seq<u16>, odd: seq<u8>)
    requires |odd| <= 1
    ensures FromOctets(ToOctets(units) + odd) == units
    decreases |units|
  {
    if units == [] {
      assert ToOctets(units) + odd == odd;
    } else {
      OctetsComeBack(units[1..], odd);
      assert (ToOctets(units) + odd)[2..] == ToOctets(units[1..]) + odd;
    }
  }

  function DecodeUcs2(payload: seq<u8>): string {
    DecodeLossy(FromOctets(payload))
  }

  lemma Ucs2BodyIsRead(text: string)
    ensures DecodeUcs2(ToOctets(Encode(text))) == text
  {
    OctetsComeBack(Encode(text), []);
    assert ToOctets(Encode(text)) + [] == ToOctets(Encode(text));
    DecodeUndoesEncode(text);
  }
}
