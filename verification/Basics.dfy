/** Shared vocabulary: options, results, machine integers and their saturating arithmetic. */
module Basics {

  datatype Option<+T> = None | Some(value: T)

  datatype Result<+T, +E> = Ok(value: T) | Err(error: E)

  type u8 = x: int | 0 <= x < 0x100

  type u16 = x: int | 0 <= x < 0x1_0000

  type u32 = x: int | 0 <= x < 0x1_0000_0000

  type u64 = x: int | 0 <= x < 0x1_0000_0000_0000_0000

  type i64 = x: int | -0x8000_0000_0000_0000 <= x < 0x8000_0000_0000_0000

  const I64_MIN: int := -0x8000_0000_0000_0000
  const I64_MAX: int := 0x7fff_ffff_ffff_ffff
  const U32_MAX: int := 0xffff_ffff

  /** `i64::saturating_sub`: the difference, clamped at both ends of the type. */
  function SaturatingSub(a: i64, b: i64): (r: i64)
    ensures I64_MIN <= a - b <= I64_MAX ==> r == a - b
    ensures a - b > I64_MAX ==> r == I64_MAX
    ensures a - b < I64_MIN ==> r == I64_MIN
  {
    if a - b > I64_MAX then I64_MAX else if a - b < I64_MIN then I64_MIN else a - b
  }

  /** `u32::saturating_add(1)`. */
  function SaturatingInc(a: u32): (r: u32)
    ensures a < U32_MAX ==> r == a + 1
    ensures a == U32_MAX ==> r == a
  {
    if a == U32_MAX then a else a + 1
  }

  /** Unicode white space, as `str::trim` sees it. */
  predicate IsSpace(c: char) {
    var n := c as int;
    || 0x9 <= n <= 0xd || n == 0x20 || n == 0x85 || n == 0xa0 || n == 0x1680
    || 0x2000 <= n <= 0x200a || n == 0x2028 || n == 0x2029 || n == 0x202f || n == 0x205f || n == 0x3000
  }

  predicate Blank(s: string) {
    forall i :: 0 <= i < |s| ==> IsSpace(s[i])
  }

  function TrimStart(s: string): string {
    if s != "" && IsSpace(s[0]) then TrimStart(s[1..]) else s
  }

  function TrimEnd(s: string): string {
    if s != "" && IsSpace(s[|s| - 1]) then TrimEnd(s[..|s| - 1]) else s
  }

  /** `str::trim`. */
  function Trim(s: string): string {
    TrimEnd(TrimStart(s))
  }

  lemma {:induction false} TrimStartDrops(space: string, s: string)
    requires Blank(space) && (s == "" || !IsSpace(s[0]))
    ensures TrimStart(space + s) == s
    decreases |space|
  {
    if space == "" {
      assert space + s == s;
    } else {
      assert (space + s)[1..] == space[1..] + s;
      TrimStartDrops(space[1..], s);
    }
  }

  lemma {:induction false} TrimEndDrops(s: string, space: string)
    requires Blank(space) && (s == "" || !IsSpace(s[|s| - 1]))
    ensures TrimEnd(s + space) == s
    decreases |space|
  {
    if space == "" {
      assert s + space == s;
    } else {
      var n := |space| - 1;
      assert (s + space)[..|s + space| - 1] == s + space[..n];
      TrimEndDrops(s, space[..n]);
    }
  }

  lemma {:induction false} TrimStartLeaves(s: string) returns (space: string)
    ensures Blank(space) && s == space + TrimStart(s)
    ensures TrimStart(s) == "" || !IsSpace(TrimStart(s)[0])
    decreases |s|
  {
    space := "";
    if s != "" && IsSpace(s[0]) {
      var more := TrimStartLeaves(s[1..]);
      space := [s[0]] + more;
    }
  }

  lemma {:induction false} TrimEndLeaves(s: string) returns (space: string)
    ensures Blank(space) && s == TrimEnd(s) + space
    ensures TrimEnd(s) == "" || !IsSpace(TrimEnd(s)[|TrimEnd(s)| - 1])
    decreases |s|
  {
    space := "";
    if s != "" && IsSpace(s[|s| - 1]) {
      var more := TrimEndLeaves(s[..|s| - 1]);
      space := more + [s[|s| - 1]];
    }
  }

  /** Nothing of the text is left but what stands between its first and its last character that is not
      white space. */
  ghost predicate IsTrimmed(s: string, before: string, inner: string, after: string) {
    && s == before + inner + after && Blank(before) && Blank(after)
    && (inner == "" || (!IsSpace(inner[0]) && !IsSpace(inner[|inner| - 1])))
  }

  lemma TrimIsInner(s: string, before: string, inner: string, after: string)
    requires IsTrimmed(s, before, inner, after) && inner != ""
    ensures Trim(s) == inner
  {
    TrimStartDrops(before, inner + after);
    assert s == before + (inner + after);
    TrimEndDrops(inner, after);
  }

  lemma TrimTrims(s: string) returns (before: string, after: string)
    ensures IsTrimmed(s, before, Trim(s), after)
  {
    before := TrimStartLeaves(s);
    after := TrimEndLeaves(TrimStart(s));
  }

  /** The concatenation of a sequence of sequences. */
  function Flatten<T>(xss: seq<seq<T>>): seq<T> {
    if xss == [] then [] else xss[0] + Flatten(xss[1..])
  }

  lemma {:induction false} FlattenAppend<T>(xss: seq<seq<T>>, yss: seq<seq<T>>)
    ensures Flatten(xss + yss) == Flatten(xss) + Flatten(yss)
  {
    if xss == [] {
      assert xss + yss == yss;
    } else {
      assert (xss + yss)[1..] == xss[1..] + yss;
      FlattenAppend(xss[1..], yss);
    }
  }
}
