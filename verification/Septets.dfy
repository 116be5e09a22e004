/** Seven-bit values packed across octet boundaries, lowest bits first. */
module Septets {
  import opened Basics
  import opened Bits

  type u7 = x: int | 0 <= x < 0x80

  /** `u16::from(v) << k`. */
  function Shifted(v: nat, k: nat): u16 {
    Pow2(k) * v % 0x1_0000
  }

  lemma {:induction false} ShiftFits(v: u8, k: nat)
    requires k < 8
    ensures Shifted(v, k) == Pow2(k) * v
  {
    PowGrows(k, 7);
    PowersOfTwo();
    SmallProduct(Pow2(k), v);
  }

  lemma SmallProduct(p: nat, v: u8)
    requires p <= 128
    ensures p * v <= 128 * 255
  {
  }

  lemma {:induction false} PowGrows(a: nat, b: nat)
    requires a <= b
    ensures Pow2(a) <= Pow2(b)
    decreases b
  {
    if a < b {
      PowGrows(a, b - 1);
    }
  }

  /** What an accumulator holds of a stream. */
  function Held(stream: seq<bool>, from: nat, end: nat): nat
    requires from <= end <= |stream|
  {
    Value(stream[from..end])
  }

  /** Taking one more number of `w` bits into an accumulator. */
  lemma TakeIn(stream: seq<bool>, from: nat, end: nat, w: nat, v: u8)
    requires from <= end < from + 8 && end + w <= |stream|
    requires stream[end..end + w] == ToBits(v, w) && v < Pow2(w)
    ensures Or(Held(stream, from, end), Shifted(v, end - from)) == Held(stream, from, end + w)
  {
    hide Value, Or, Shifted, ToBits, Pow2;
    var held := stream[from..end];
    assert stream[from..end + w] == held + ToBits(v, w);
    ValueConcat(held, ToBits(v, w));
    ToBitsHasValue(v, w);
    ValueHasBits(held);
    ShiftFits(v, end - from);
    OrAbove(Value(held), v, end - from);
  }

  lemma TakeNumber(xs: seq<u8>, w: nat, from: nat, i: nat)
    requires (w == 7 || w == 8) && i < |xs| && xs[i] < Pow2(w)
    requires from <= w * i < from + 8
    ensures |Stream(xs, w)| == w * |xs| && w * (i + 1) <= w * |xs|
    ensures Or(Held(Stream(xs, w), from, w * i), Shifted(xs[i], w * i - from)) == Held(Stream(xs, w), from, w * (i + 1))
  {
    hide Stream, Held, Or, Shifted, ToBits, Pow2;
    StreamLength(xs, w);
    StreamAt(xs, w, i);
    assert w * (i + 1) == w * i + w;
    TakeIn(Stream(xs, w), from, w * i, w, xs[i]);
  }

  /** Handing out the lowest seven or eight bits of the accumulator. */
  lemma HandOut(stream: seq<bool>, from: nat, end: nat, w: nat)
    requires (w == 7 || w == 8) && from + w <= end <= |stream|
    ensures var p := if w == 7 then 128 else 256;
            && Held(stream, from, end) % p == Held(stream, from, from + w)
            && Held(stream, from, end) / p == Held(stream, from + w, end)
  {
    hide Value;
    SplitValue(stream[from..end], w);
    assert stream[from..end][..w] == stream[from..from + w];
    assert stream[from..end][w..] == stream[from + w..end];
  }

  lemma HoldsNothing(stream: seq<bool>, from: nat)
    requires from <= |stream|
    ensures Held(stream, from, from) == 0
  {
  }

  // ----- Unpacking ----------------------------------------------------------------

  /** The septet that starts `7 * k` bits into the octets. */
  function SeptetAt(packed: seq<u8>, k: nat): (v: u7)
    requires 7 * k + 7 <= 8 * |packed|
  {
    StreamLength(packed, 8);
    var bits := Stream(packed, 8)[7 * k..7 * k + 7];
    ValueHasBits(bits);
    PowersOfTwo();
    Value(bits)
  }

  lemma SeptetBits(packed: seq<u8>, k: nat)
    requires 7 * k + 7 <= 8 * |packed|
    ensures |Stream(packed, 8)| == 8 * |packed|
    ensures SeptetAt(packed, k) == Value(Stream(packed, 8)[7 * k..7 * k + 7]) == Held(Stream(packed, 8), 7 * k, 7 * k + 7)
  {
    StreamLength(packed, 8);
  }

  lemma Subslice(bits: seq<bool>, a: nat, b: nat, i: nat, j: nat)
    requires a <= b <= |bits| && i <= j <= b - a
    ensures bits[a..b][i..j] == bits[a + i..a + j]
  {
    var x, y := bits[a..b][i..j], bits[a + i..a + j];
    assert forall k :: 0 <= k < j - i ==> x[k] == bits[a..b][i + k] == bits[a + i + k] == y[k];
  }

  function Least(a: nat, b: nat): nat {
    if a < b then a else b
  }

  function Minus(a: nat, b: nat): nat {
    if a < b then 0 else a - b
  }

  /** The whole septets there are from the `skip`th on, up to `count` of them. */
  function Unpack(packed: seq<u8>, skip: nat, count: nat): (septets: seq<u7>)
    ensures |septets| == Minus(Least(skip + count, 8 * |packed| / 7), skip)
  {
    seq<u7>(Minus(Least(skip + count, 8 * |packed| / 7), skip),
        k requires 0 <= k < Minus(Least(skip + count, 8 * |packed| / 7), skip) => SeptetAt(packed, skip + k))
  }

  method UnpackSeptets(packed: seq<u8>, skip: nat, count: nat) returns (septets: seq<u7>)
    ensures septets == Unpack(packed, skip, count)
  {
    hide Stream, Held, Shifted, Or, SeptetAt, Pow2;
    ghost var all := Stream(packed, 8);
    StreamLength(packed, 8);
    PowersOfTwo();
    septets := [];
    var acc: nat, bits: nat, taken: nat := 0, 0, 0;
    var wanted := skip + count;
    HoldsNothing(all, 0);
    for i := 0 to |packed|
      invariant taken <= wanted && bits == 8 * i - 7 * taken && bits < 7
      invariant acc == Held(all, 7 * taken, 8 * i)
      invariant |septets| == Minus(taken, skip)
      invariant forall k :: 0 <= k < |septets| ==> septets[k] == SeptetAt(packed, skip + k)
    {
      TakeNumber(packed, 8, 7 * taken, i);
      acc := Or(acc, Shifted(packed[i], bits));
      bits := bits + 8;
      while bits >= 7
        invariant taken <= wanted && bits == 8 * (i + 1) - 7 * taken
        invariant acc == Held(all, 7 * taken, 8 * (i + 1))
        invariant |septets| == Minus(taken, skip)
        invariant forall k :: 0 <= k < |septets| ==> septets[k] == SeptetAt(packed, skip + k)
      {
        if taken == wanted {
          return;
        }
        HandOut(all, 7 * taken, 8 * (i + 1), 7);
        SeptetBits(packed, taken);
        var septet := acc % 128;
        acc := acc / 128;
        bits := bits - 7;
        if taken >= skip {
          septets := septets + [septet];
        }
        taken := taken + 1;
      }
    }
  }

  // ----- Packing --------------------------------------------------------------------

  function OctetAt(septets: seq<u7>, k: nat): (v: u8)
    requires 8 * k < 7 * |septets|
  {
    StreamLength(septets, 7);
    var bits := Stream(septets, 7)[8 * k..Least(8 * k + 8, 7 * |septets|)];
    ValueHasBits(bits);
    PowGrows(|bits|, 8);
    PowersOfTwo();
    Value(bits)
  }

  /** Eight bits at a time, the last octet filled up with zeros. */
  function Pack(septets: seq<u7>): (packed: seq<u8>)
    ensures |packed| == (7 * |septets| + 7) / 8
  {
    seq((7 * |septets| + 7) / 8, k requires 0 <= k < (7 * |septets| + 7) / 8 => OctetAt(septets, k))
  }

  lemma OctetIs(septets: seq<u7>, k: nat)
    requires 8 * k < 7 * |septets|
    ensures |Stream(septets, 7)| == 7 * |septets|
    ensures OctetAt(septets, k) == Held(Stream(septets, 7), 8 * k, Least(8 * k + 8, 7 * |septets|))
  {
    StreamLength(septets, 7);
  }

  method PackSeptets(septets: seq<u7>) returns (packed: seq<u8>)
    ensures packed == Pack(septets)
  {
    hide Stream, Held, Shifted, Or, OctetAt, Pow2;
    ghost var all := Stream(septets, 7);
    StreamLength(septets, 7);
    PowersOfTwo();
    packed := [];
    var acc: nat, bits: nat := 0, 0;
    HoldsNothing(all, 0);
    for i := 0 to |septets|
      invariant bits == 7 * i - 8 * |packed| && bits < 8
      invariant acc == Held(all, 8 * |packed|, 7 * i)
      invariant forall k :: 0 <= k < |packed| ==> packed[k] == OctetAt(septets, k)
    {
      TakeNumber(septets, 7, 8 * |packed|, i);
      acc := Or(acc, Shifted(septets[i], bits));
      bits := bits + 7;
      if bits >= 8 {
        HandOut(all, 8 * |packed|, 7 * (i + 1), 8);
        OctetIs(septets, |packed|);
        packed := packed + [acc % 256];
        acc := acc / 256;
        bits := bits - 8;
      }
    }
    if bits > 0 {
      OctetIs(septets, |packed|);
      packed := packed + [acc];
    }
  }

  // ----- Packing and unpacking --------------------------------------------------------

  lemma {:induction false} ZerosAreNothing(bits: seq<bool>, n: nat)
    ensures Value(bits + seq(n, _ => false)) == Value(bits)
    decreases |bits| + n
  {
    var zeros := seq(n, _ => false);
    if bits != [] {
      ZerosAreNothing(bits[1..], n);
      assert (bits + zeros)[1..] == bits[1..] + zeros;
    } else if n > 0 {
      ZerosAreNothing([], n - 1);
      assert (bits + zeros)[1..] == [] + seq(n - 1, _ => false);
    }
  }

  /** The octets hold exactly the septets' bits, and zeros after them. */
  lemma OctetBits(septets: seq<u7>, k: nat)
    requires 8 * k < 7 * |septets| && |Stream(septets, 7)| == 7 * |septets|
    ensures var end := Least(8 * k + 8, 7 * |septets|);
            ToBits(OctetAt(septets, k), 8) == Stream(septets, 7)[8 * k..end] + seq(8 * k + 8 - end, _ => false)
  {
    var end := Least(8 * k + 8, 7 * |septets|);
    var bits := Stream(septets, 7)[8 * k..end];
    ZerosAreNothing(bits, 8 * k + 8 - end);
    ValueHasBits(bits + seq(8 * k + 8 - end, _ => false));
  }

  lemma PackedBits(septets: seq<u7>)
    ensures |Stream(septets, 7)| == 7 * |septets| <= |Stream(Pack(septets), 8)|
    ensures Stream(Pack(septets), 8)[..7 * |septets|] == Stream(septets, 7)
  {
    hide Value, ToBits, Stream;
    var packed := Pack(septets);
    StreamLength(packed, 8);
    StreamLength(septets, 7);
    var octets, all := Stream(packed, 8), Stream(septets, 7);
    forall j | 0 <= j < |all|
      ensures octets[j] == all[j]
    {
      var k := j / 8;
      StreamAt(packed, 8, k);
      OctetBits(septets, k);
      assert octets[j] == octets[8 * k..8 * k + 8][j - 8 * k];
      assert all[j] == all[8 * k..Least(8 * k + 8, 7 * |septets|)][j - 8 * k];
    }
  }

  /** Wherever a row of septets lies in the bits of some octets, unpacking reads it from there. */
  lemma UnpackFinds(packed: seq<u8>, skip: nat, septets: seq<u7>)
    requires 7 * (skip + |septets|) <= 8 * |packed| == |Stream(packed, 8)|
    requires Stream(packed, 8)[7 * skip..7 * (skip + |septets|)] == Stream(septets, 7)
    ensures Unpack(packed, skip, |septets|) == septets
  {
    hide Stream, SeptetAt;
    forall k | 0 <= k < |septets|
      ensures SeptetAt(packed, skip + k) == septets[k]
    {
      FoundAt(packed, skip, septets, k);
    }
  }

  lemma FoundAt(packed: seq<u8>, skip: nat, septets: seq<u7>, k: nat)
    requires 7 * (skip + |septets|) <= 8 * |packed| == |Stream(packed, 8)|
    requires Stream(packed, 8)[7 * skip..7 * (skip + |septets|)] == Stream(septets, 7)
    requires k < |septets|
    ensures SeptetAt(packed, skip + k) == septets[k]
  {
    hide Value, ToBits, Stream, SeptetAt, Pow2;
    StreamLength(septets, 7);
    StreamAt(septets, 7, k);
    PowersOfTwo();
    ToBitsHasValue(septets[k], 7);
    SeptetBits(packed, skip + k);
    Subslice(Stream(packed, 8), 7 * skip, 7 * (skip + |septets|), 7 * k, 7 * k + 7);
  }

  /** Unpacking undoes packing, for every row of septets. */
  lemma UnpackUndoesPack(septets: seq<u7>)
    ensures Unpack(Pack(septets), 0, |septets|) == septets
  {
    hide Stream;
    PackedBits(septets);
    StreamLength(Pack(septets), 8);
    var bits := Stream(Pack(septets), 8);
    assert bits[7 * 0..7 * (0 + |septets|)] == bits[..7 * |septets|];
    UnpackFinds(Pack(septets), 0, septets);
  }

  // ----- Behind a header ----------------------------------------------------------------

  /** The septets a header of this many octets takes up. */
  function HeaderSeptets(octets: nat): nat {
    (8 * octets + 6) / 7
  }

  /** The bits between the end of the header and the septet the text starts on. */
  function FillBits(octets: nat): nat {
    7 * HeaderSeptets(octets) - 8 * octets
  }

  /** Nothing in the header's octets can reach the text: two fields that agree after the header read
      the same. */
  lemma HeaderIsNotRead(a: seq<u8>, b: seq<u8>, header: nat, count: nat)
    requires |a| == |b| && header <= |a| && a[header..] == b[header..]
    ensures Unpack(a, HeaderSeptets(header), count) == Unpack(b, HeaderSeptets(header), count)
  {
    hide Value, Stream, SeptetAt;
    var skip := HeaderSeptets(header);
    StreamLength(a, 8);
    StreamLength(b, 8);
    SameAfter(a, b, header);
    var x, y := Unpack(a, skip, count), Unpack(b, skip, count);
    forall k | 0 <= k < |x|
      ensures x[k] == y[k]
    {
      var start, from := 8 * header, 7 * (skip + k);
      SeptetBits(a, skip + k);
      SeptetBits(b, skip + k);
      Subslice(Stream(a, 8), start, |Stream(a, 8)|, from - start, from - start + 7);
      Subslice(Stream(b, 8), start, |Stream(b, 8)|, from - start, from - start + 7);
    }
  }

  lemma SameAfter(a: seq<u8>, b: seq<u8>, header: nat)
    requires |a| == |b| && header <= |a| && a[header..] == b[header..]
    requires |Stream(a, 8)| == 8 * |a| && |Stream(b, 8)| == 8 * |b|
    ensures Stream(a, 8)[8 * header..|Stream(a, 8)|] == Stream(b, 8)[8 * header..|Stream(b, 8)|]
  {
    hide Stream;
    assert a == a[..header] + a[header..] && b == b[..header] + b[header..];
    StreamConcat(a[..header], a[header..], 8);
    StreamConcat(b[..header], b[header..], 8);
    StreamLength(a[..header], 8);
    StreamLength(b[..header], 8);
  }

  /** A field laid out as the network does, header octets, fill bits to the next septet boundary and
      the text's septets, gives back the text whatever the fill bits are and whatever follows. */
  lemma TextIsReadBehindHeader(field: seq<u8>, header: seq<u8>, fill: seq<bool>, septets: seq<u7>, rest: seq<bool>)
    requires |fill| == FillBits(|header|)
    requires Stream(field, 8) == Stream(header, 8) + fill + Stream(septets, 7) + rest
    ensures Unpack(field, HeaderSeptets(|header|), |septets|) == septets
  {
    hide Stream;
    var skip := HeaderSeptets(|header|);
    StreamLength(field, 8);
    StreamLength(header, 8);
    StreamLength(septets, 7);
    var front := Stream(header, 8) + fill;
    assert Stream(field, 8) == front + Stream(septets, 7) + rest;
    assert Stream(field, 8)[7 * skip..7 * skip + 7 * |septets|] == Stream(septets, 7);
    UnpackFinds(field, skip, septets);
  }

  /** Septets packed behind as many filler septets as a header takes, with the header written over the
      first octets, still give back the text. */
  lemma OverwrittenHeaderLeavesText(filler: seq<u7>, septets: seq<u7>, header: seq<u8>)
    requires |filler| == HeaderSeptets(|header|)
    ensures var field := Pack(filler + septets);
            && |header| <= |field|
            && Unpack(header + field[|header|..], |filler|, |septets|) == septets
  {
    hide Stream, Pack, Unpack;
    var field := Pack(filler + septets);
    PackedBits(filler + septets);
    StreamConcat(filler, septets, 7);
    StreamLength(filler, 7);
    StreamLength(field, 8);
    var bits, n := Stream(field, 8), 7 * |filler|;
    assert bits[n..7 * (|filler| + |septets|)] == Stream(septets, 7) by {
      var all := bits[..7 * (|filler| + |septets|)];
      assert all == Stream(filler, 7) + Stream(septets, 7);
      assert all[n..] == Stream(septets, 7);
    }
    UnpackFinds(field, |filler|, septets);
    assert (header + field[|header|..])[|header|..] == field[|header|..];
    HeaderIsNotRead(field, header + field[|header|..], |header|, |septets|);
  }

  // ----- Laying a field out -----------------------------------------------------------------

  /** Bits taken eight at a time. */
  function Octets(bits: seq<bool>): (octets: seq<u8>)
    decreases |bits|
  {
    if |bits| < 8 then []
    else
      ValueHasBits(bits[..8]);
      PowersOfTwo();
      [Value(bits[..8])] + Octets(bits[8..])
  }

  lemma {:induction false} OctetsHoldTheBits(bits: seq<bool>)
    requires |bits| % 8 == 0
    ensures Stream(Octets(bits), 8) == bits
    decreases |bits|
  {
    if |bits| >= 8 {
      OctetsHoldTheBits(bits[8..]);
      ValueHasBits(bits[..8]);
      assert bits == bits[..8] + bits[8..];
    }
  }

  lemma {:induction false} OctetsBeginWith(octets: seq<u8>, bits: seq<bool>)
    ensures Octets(Stream(octets, 8) + bits) == octets + Octets(bits)
    decreases |octets|
  {
    hide ToBits, Value, Pow2;
    if octets == [] {
      assert Stream(octets, 8) + bits == bits;
    } else {
      var first, rest := ToBits(octets[0], 8), Stream(octets[1..], 8);
      OctetsBeginWith(octets[1..], bits);
      var all := Stream(octets, 8) + bits;
      Associates(first, rest, bits);
      assert all == first + (rest + bits) && all[..8] == first && all[8..] == rest + bits;
      PowersOfTwo();
      ToBitsHasValue(octets[0], 8);
      assert octets == [octets[0]] + octets[1..];
    }
  }

  function Zeros(n: nat): seq<bool> {
    seq(n, _ => false)
  }

  /** The bits between the end of the text and the end of its last octet. */
  function SpareBits(header: nat, septets: nat): nat {
    ToEight(7 * (HeaderSeptets(header) + septets))
  }

  function ToEight(n: nat): (spare: nat)
    ensures (n + spare) % 8 == 0 && spare < 8
  {
    if n % 8 == 0 then 0 else 8 - n % 8
  }

  /** The bits behind a header: zeros up to the next septet boundary, the text, and zeros to the end
      of the last octet, as 3GPP 23.040 lays a field out. */
  function TextBits(header: nat, septets: seq<u7>): seq<bool> {
    Zeros(FillBits(header)) + Stream(septets, 7) + Zeros(SpareBits(header, |septets|))
  }

  function LayOut(header: seq<u8>, septets: seq<u7>): seq<u8> {
    Octets(Stream(header, 8) + TextBits(|header|, septets))
  }

  lemma FillsUp(header: nat, septets: nat)
    ensures (FillBits(header) + 7 * septets + SpareBits(header, septets)) % 8 == 0
  {
    hide HeaderSeptets, ToEight;
    var n := 7 * (HeaderSeptets(header) + septets);
    EightsDropOut(n + ToEight(n), header);
  }

  lemma EightsDropOut(n: int, k: int)
    requires n % 8 == 0
    ensures (n - 8 * k) % 8 == 0
  {
    assert n - 8 * k == 8 * (n / 8 - k);
  }

  /** A field laid out this way begins with the header and gives back the text. */
  lemma LaidOutTextIsRead(header: seq<u8>, septets: seq<u7>)
    ensures var field := LayOut(header, septets);
            && |field| >= |header| && field[..|header|] == header
            && Unpack(field, HeaderSeptets(|header|), |septets|) == septets
  {
    hide Stream, Octets, Unpack, FillBits, SpareBits, HeaderSeptets;
    var text := TextBits(|header|, septets);
    StreamLength(header, 8);
    StreamLength(septets, 7);
    FillsUp(|header|, |septets|);
    OctetsHoldTheBits(Stream(header, 8) + text);
    OctetsBeginWith(header, text);
    var fill, rest := Zeros(FillBits(|header|)), Zeros(SpareBits(|header|, |septets|));
    Associates(Stream(header, 8), fill + Stream(septets, 7), rest);
    Associates(Stream(header, 8), fill, Stream(septets, 7));
    TextIsReadBehindHeader(LayOut(header, septets), header, fill, septets, rest);
  }
}
