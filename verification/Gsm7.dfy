/** The GSM 03.38 alphabet: reading any septets, and the subset this program sends. */
module Gsm7 {
  import opened Basics
  import opened Septets

  const ESCAPE: u7 := 0x1b

  /** Table 1. */
  function Basic(v: u7): char {
    if (0x20 <= v <= 0x5a && v != 0x24 && v != 0x40) || 0x61 <= v <= 0x7a then v as char
    else if v < 0x10 then
      ['@', '\U{a3}', '$', '\U{a5}', '\U{e8}', '\U{e9}', '\U{f9}', '\U{ec}',
       '\U{f2}', '\U{c7}', '\n', '\U{d8}', '\U{f8}', '\r', '\U{c5}', '\U{e5}'][v]
    else if v < 0x20 then
      ['\U{394}', '_', '\U{3a6}', '\U{393}', '\U{39b}', '\U{3a9}', '\U{3a0}', '\U{3a8}',
       '\U{3a3}', '\U{398}', '\U{39e}', '\U{1b}', '\U{c6}', '\U{e6}', '\U{df}', '\U{c9}'][v - 0x10]
    else if v == 0x24 then '\U{a4}'
    else if v == 0x40 then '\U{a1}'
    else if v < 0x61 then ['\U{c4}', '\U{d6}', '\U{d1}', '\U{dc}', '\U{a7}', '\U{bf}'][v - 0x5b]
    else ['\U{e4}', '\U{f6}', '\U{f1}', '\U{fc}', '\U{e0}'][v - 0x7b]
  }

  /** Table 2: the values that read differently after an escape. */
  function Extension(v: u7): Option<char> {
    match v
    case 0x0a => Some('\U{0c}')
    case 0x14 => Some('^')
    case 0x28 => Some('{')
    case 0x29 => Some('}')
    case 0x2f => Some('\\')
    case 0x3c => Some('[')
    case 0x3d => Some('~')
    case 0x3e => Some(']')
    case 0x40 => Some('|')
    case 0x65 => Some('\U{20ac}')
    case _ => None
  }

  /** Table 1 as the standard prints it, sixteen characters a row. */
  function Printed(row: nat): string
    requires row < 8
  {
    match row
    case 0 => "@\U{a3}$\U{a5}\U{e8}\U{e9}\U{f9}\U{ec}\U{f2}\U{c7}\n\U{d8}\U{f8}\r\U{c5}\U{e5}"
    case 1 => "\U{394}_\U{3a6}\U{393}\U{39b}\U{3a9}\U{3a0}\U{3a8}\U{3a3}\U{398}\U{39e}\U{1b}\U{c6}\U{e6}\U{df}\U{c9}"
    case 2 => " !\"#\U{a4}%&'()*+,-./"
    case 3 => "0123456789:;<=>?"
    case 4 => "\U{a1}ABCDEFGHIJKLMNO"
    case 5 => "PQRSTUVWXYZ\U{c4}\U{d6}\U{d1}\U{dc}\U{a7}"
    case 6 => "\U{bf}abcdefghijklmno"
    case 7 => "pqrstuvwxyz\U{e4}\U{f6}\U{f1}\U{fc}\U{e0}"
  }

  lemma BasicIsPrinted(v: u7)
    ensures |Printed(v / 16)| == 16 && Basic(v) == Printed(v / 16)[v % 16]
  {
    hide Printed;
    PrintedBelow(v / 16);
    PrintedAbove(v / 16);
    PrintedLast(v / 16);
  }

  lemma PrintedBelow(row: nat)
    requires row < 8
    ensures |Printed(row)| == 16
    ensures row < 4 ==> forall i :: 0 <= i < 16 ==> Printed(row)[i] == Basic(16 * row + i)
  {
  }

  lemma PrintedAbove(row: nat)
    requires row < 8
    ensures row == 4 || row == 5 ==> forall i :: 0 <= i < 16 ==> Printed(row)[i] == Basic(16 * row + i)
  {
    PrintedBelow(row);
  }

  lemma PrintedLast(row: nat)
    requires row < 8
    ensures row == 6 || row == 7 ==> forall i :: 0 <= i < 16 ==> Printed(row)[i] == Basic(16 * row + i)
  {
    PrintedBelow(row);
  }

  /** Only these ten read differently after an escape. */
  lemma ExtensionsAreTen(v: u7, c: char)
    ensures Extension(v) == Some(c) <==>
            (v, c) in {(0x0a, '\U{0c}'), (0x14, '^'), (0x28, '{'), (0x29, '}'), (0x2f, '\\'),
                       (0x3c, '['), (0x3d, '~'), (0x3e, ']'), (0x40, '|'), (0x65, '\U{20ac}')}
  {
  }

  function Escaped(v: u7): char {
    if Extension(v).Some? then Extension(v).value else Basic(v)
  }

  function DecodeSeptets(septets: seq<u7>): string {
    if septets == [] then ""
    else if septets[0] != ESCAPE then [Basic(septets[0])] + DecodeSeptets(septets[1..])
    else if |septets| == 1 then ""
    else [Escaped(septets[1])] + DecodeSeptets(septets[2..])
  }

  method ReadSeptets(septets: seq<u7>) returns (text: string)
    ensures text == DecodeSeptets(septets)
  {
    hide Basic, Escaped, DecodeSeptets;
    text := "";
    var i := 0;
    assert septets[0..] == septets;
    while i < |septets|
      invariant i <= |septets|
      invariant text + DecodeSeptets(septets[i..]) == DecodeSeptets(septets)
    {
      OneCharacter(septets, i);
      var value := septets[i];
      i := i + 1;
      if value == ESCAPE {
        if i == |septets| {
          return;
        }
        text := text + [Escaped(septets[i])];
        i := i + 1;
      } else {
        text := text + [Basic(value)];
      }
    }
    OneCharacter(septets, i);
  }

  /** What stands at a place, and what is read from there on. */
  lemma OneCharacter(septets: seq<u7>, i: nat)
    requires i <= |septets|
    ensures var rest := DecodeSeptets(septets[i..]);
            if i == |septets| then rest == ""
            else if septets[i] != ESCAPE then rest == [Basic(septets[i])] + DecodeSeptets(septets[i + 1..])
            else if i + 1 == |septets| then rest == ""
            else rest == [Escaped(septets[i + 1])] + DecodeSeptets(septets[i + 2..])
  {
    hide Basic, Escaped;
    var rest := septets[i..];
    assert i < |septets| ==> rest[1..] == septets[i + 1..];
    assert i + 1 < |septets| ==> rest[2..] == septets[i + 2..];
  }

  // ----- What septets can spell ------------------------------------------------------

  /** One septet, or an escape and the septet after it, that reads as this character. */
  ghost predicate Spells(unit: seq<u7>, c: char) {
    || (|unit| == 1 && unit[0] != 0x1b && Basic(unit[0]) == c)
    || (|unit| == 2 && unit[0] == 0x1b && Escaped(unit[1]) == c)
  }

  ghost predicate SpellsText(units: seq<seq<u7>>, text: string) {
    |units| == |text| && forall i :: 0 <= i < |units| ==> Spells(units[i], text[i])
  }

  /** These units spell the text, with at most a lone escape left over at the end. */
  ghost predicate IsSpelling(septets: seq<u7>, units: seq<seq<u7>>, text: string) {
    SpellsText(units, text) && (septets == Flatten(units) || septets == Flatten(units) + [0x1b])
  }

  /** A unit at the front reads as its character, whatever follows. */
  lemma UnitIsRead(unit: seq<u7>, c: char, rest: seq<u7>)
    requires Spells(unit, c)
    ensures DecodeSeptets(unit + rest) == [c] + DecodeSeptets(rest)
  {
    hide Basic, Escaped;
    assert (unit + rest)[|unit|..] == rest;
  }

  lemma {:induction false} SpellingIsRead(units: seq<seq<u7>>, text: string, end: seq<u7>)
    requires SpellsText(units, text) && (end == [] || end == [ESCAPE])
    ensures DecodeSeptets(Flatten(units) + end) == text
    decreases |units|
  {
    hide Basic, Escaped, Spells, DecodeSeptets;
    if units == [] {
      assert Flatten(units) + end == end;
      NothingIsRead(end);
    } else {
      var unit, rest := units[0], units[1..];
      assert Spells(unit, text[0]);
      SpellingIsRead(rest, text[1..], end);
      UnitIsRead(unit, text[0], Flatten(rest) + end);
      assert Flatten(units) + end == unit + (Flatten(rest) + end);
      assert text == [text[0]] + text[1..];
    }
  }

  lemma NothingIsRead(end: seq<u7>)
    requires end == [] || end == [ESCAPE]
    ensures DecodeSeptets(end) == ""
  {
  }

  lemma {:induction false} EveryRowIsASpelling(septets: seq<u7>) returns (units: seq<seq<u7>>)
    ensures IsSpelling(septets, units, DecodeSeptets(septets))
    decreases |septets|
  {
    hide Basic, Escaped, DecodeSeptets, Spells, IsSpelling;
    if septets == [] || septets == [ESCAPE] {
      units := [];
      NothingIsRead(septets);
      NothingIsSpelled(septets);
    } else {
      var n := if septets[0] == ESCAPE then 2 else 1;
      var later := EveryRowIsASpelling(septets[n..]);
      units := [septets[..n]] + later;
      FirstUnit(septets, n);
      OneMoreUnit(septets[..n], septets[n..], later, DecodeSeptets(septets)[0], DecodeSeptets(septets[n..]));
      assert septets == septets[..n] + septets[n..];
    }
  }

  lemma NothingIsSpelled(septets: seq<u7>)
    requires septets == [] || septets == [ESCAPE]
    ensures IsSpelling(septets, [], "")
  {
  }

  lemma FirstUnit(septets: seq<u7>, n: nat)
    requires septets != [] && n == (if septets[0] == ESCAPE then 2 else 1) && n <= |septets|
    ensures var text := DecodeSeptets(septets);
            text != "" && Spells(septets[..n], text[0]) && text == [text[0]] + DecodeSeptets(septets[n..])
  {
    hide Basic, Escaped;
  }

  lemma OneMoreUnit(unit: seq<u7>, septets: seq<u7>, units: seq<seq<u7>>, c: char, text: string)
    requires Spells(unit, c) && IsSpelling(septets, units, text)
    ensures IsSpelling(unit + septets, [unit] + units, [c] + text)
  {
    hide Spells;
    var all := [unit] + units;
    assert all[1..] == units;
    assert unit + (Flatten(units) + [0x1b]) == Flatten(all) + [0x1b];
    forall i | 0 <= i < |all|
      ensures Spells(all[i], ([c] + text)[i])
    {
      if i > 0 {
        assert all[i] == units[i - 1] && ([c] + text)[i] == text[i - 1];
      }
    }
  }

  /** Septets read as a text exactly when they spell it, character by character. */
  lemma ReadsExactlySpellings(septets: seq<u7>, text: string)
    ensures DecodeSeptets(septets) == text <==> exists units: seq<seq<u7>> :: IsSpelling(septets, units, text)
  {
    hide DecodeSeptets, SpellsText;
    if DecodeSeptets(septets) == text {
      var units := EveryRowIsASpelling(septets);
      assert IsSpelling(septets, units, text);
    }
    if units: seq<seq<u7>> :| IsSpelling(septets, units, text) {
      var end: seq<u7> := if septets == Flatten(units) then [] else [ESCAPE];
      assert septets == Flatten(units) + end;
      SpellingIsRead(units, text, end);
    }
  }

  lemma NeverNul(v: u7)
    ensures Basic(v) != '\0' && Escaped(v) != '\0'
  {
  }

  /** No septet reads as NUL, the character the store behind the uplink cannot hold. */
  lemma NoNul(septets: seq<u7>)
    ensures '\0' !in DecodeSeptets(septets)
  {
    hide Basic, Escaped, DecodeSeptets, Flatten;
    var units := EveryRowIsASpelling(septets);
    var text := DecodeSeptets(septets);
    forall i | 0 <= i < |text|
      ensures text[i] != '\0'
    {
      assert Spells(units[i], text[i]);
      NeverNul(units[i][|units[i]| - 1]);
    }
  }

  // ----- The subset that is sent -------------------------------------------------------

  function Gsm7Value(c: char): Option<u7> {
    if || 'A' <= c <= 'Z' || 'a' <= c <= 'z' || '0' <= c <= '9'
       || c in {' ', '.', ',', '!', '?', ':', '+', '-'}
    then Some(c as int)
    else None
  }

  /** These seventy characters are sent as septets, each as the septet that reads as it. */
  lemma SentAreSeventy(c: char)
    ensures Gsm7Value(c).Some? <==>
            || c in "ABCDEFGHIJKLMNOPQRSTUVWXYZ" || c in "abcdefghijklmnopqrstuvwxyz"
            || c in "0123456789" || c in " .,!?:+-"
    ensures Gsm7Value(c).Some? ==> Gsm7Value(c).value != ESCAPE && Basic(Gsm7Value(c).value) == c
  {
    hide Basic;
    Capitals(c);
    Smalls(c);
    assert '0' <= c <= '9' ==> "0123456789"[c as int - '0' as int] == c;
    Marks(c);
    if Gsm7Value(c).Some? {
      SentIsPlain(Gsm7Value(c).value);
    }
  }

  lemma SentIsPlain(v: u7)
    requires (0x20 <= v <= 0x5a && v != 0x24 && v != 0x40) || 0x61 <= v <= 0x7a
    ensures v != ESCAPE && Basic(v) == v as char
  {
  }

  lemma Capitals(c: char)
    ensures c in "ABCDEFGHIJKLMNOPQRSTUVWXYZ" <==> 'A' <= c <= 'Z'
  {
    var all := "ABCDEFGHIJKLMNOPQRSTUVWXYZ";
    if 'A' <= c <= 'Z' {
      assert all[c as int - 'A' as int] == c;
    }
  }

  lemma Smalls(c: char)
    ensures c in "abcdefghijklmnopqrstuvwxyz" <==> 'a' <= c <= 'z'
  {
    var all := "abcdefghijklmnopqrstuvwxyz";
    if 'a' <= c <= 'z' {
      assert all[c as int - 'a' as int] == c;
    }
  }

  lemma Marks(c: char)
    ensures c in " .,!?:+-" <==> c in {' ', '.', ',', '!', '?', ':', '+', '-'}
  {
    var marks := " .,!?:+-";
    assert marks[0] == ' ' && marks[1] == '.' && marks[2] == ',' && marks[3] == '!';
    assert marks[4] == '?' && marks[5] == ':' && marks[6] == '+' && marks[7] == '-';
  }

  predicate IsGsm7(body: string) {
    forall i :: 0 <= i < |body| ==> Gsm7Value(body[i]).Some?
  }

  function Values(body: string): (septets: seq<u7>)
    requires IsGsm7(body)
    ensures |septets| == |body|
  {
    seq<u7>(|body|, i requires 0 <= i < |body| => Gsm7Value(body[i]).value)
  }

  /** The encoder: `None` as soon as one character has no septet. */
  method PackGsm7(body: string) returns (packed: Option<seq<u8>>)
    ensures packed == if IsGsm7(body) then Some(Pack(Values(body))) else None
  {
    var septets: seq<u7> := [];
    for i := 0 to |body|
      invariant IsGsm7(body[..i]) && septets == Values(body[..i])
    {
      var value := Gsm7Value(body[i]);
      if value.None? {
        return None;
      }
      assert body[..i + 1] == body[..i] + [body[i]];
      septets := septets + [value.value];
    }
    assert body[..|body|] == body;
    var octets := PackSeptets(septets);
    packed := Some(octets);
  }

  lemma {:induction false} SentValuesAreRead(body: string)
    requires IsGsm7(body)
    ensures DecodeSeptets(Values(body)) == body
    decreases |body|
  {
    if body != "" {
      SentValuesAreRead(body[1..]);
      assert Values(body)[1..] == Values(body[1..]);
      assert body == [body[0]] + body[1..];
    }
  }

  /** User data straight from the wire. */
  function Decode(field: seq<u8>, header: nat, udl: nat): string {
    var skip := HeaderSeptets(header);
    DecodeSeptets(Unpack(field, skip, Minus(udl, skip)))
  }

  /** What the encoder packs, the decoder reads, with or without a header in front of it. */
  lemma SentBodyIsRead(body: string, header: seq<u8>)
    requires IsGsm7(body)
    ensures Decode(Pack(Values(body)), 0, |body|) == body
    ensures Decode(LayOut(header, Values(body)), |header|, HeaderSeptets(|header|) + |body|) == body
  {
    hide Pack, Unpack, LayOut, DecodeSeptets, Values;
    UnpackUndoesPack(Values(body));
    LaidOutTextIsRead(header, Values(body));
    SentValuesAreRead(body);
  }
}
