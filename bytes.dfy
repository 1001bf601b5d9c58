/**
 * Bytes, 32-bit unsigned fields and the two checksum primitives the UPG
 * tools link against.
 *
 * Every u32 field of the format is stored little-endian (the tools write
 * their structs in host order; the model fixes that order to little-endian).
 */
module Bytes {

  type byte = b: int | 0 <= b < 256

  const U32_LIMIT: int := 0x1_0000_0000

  type u32 = x: int | 0 <= x < U32_LIMIT

  /** A 16-byte MD5 digest. */
  type Digest = s: seq<byte> | |s| == 16 witness [0, 0, 0, 0, 0, 0, 0, 0, 0, 0, 0, 0, 0, 0, 0, 0]

  /**
   * MD5 and CRC32 are implemented in files that are not part of this model;
   * they are taken as arbitrary functions of the bytes they are given.
   * `crc32` stands for `crc32(0, buf, len)`, the CRC with seed 0.
   */
  datatype Checksums = Checksums(md5: seq<byte> -> Digest, crc32: seq<byte> -> u32)

  /** `n` zero bytes. */
  function Zeros(n: nat): seq<byte>
  {
    seq(n, _ => 0)
  }

  /** A window inside the left operand of a concatenation. */
  lemma SliceLeft<T>(a: seq<T>, b: seq<T>, lo: nat, hi: nat)
    requires lo <= hi <= |a|
    ensures (a + b)[lo..hi] == a[lo..hi]
  {
  }

  /** The right operand of a concatenation, as a window of it. */
  lemma SliceRight<T>(a: seq<T>, b: seq<T>)
    ensures (a + b)[|a|..|a| + |b|] == b
  {
  }

  /** A window inside the right operand of a concatenation. */
  lemma SliceAfter<T>(a: seq<T>, b: seq<T>, lo: nat, hi: nat)
    requires lo <= hi <= |b|
    ensures (a + b)[|a| + lo..|a| + hi] == b[lo..hi]
  {
  }

  /** The parts of `ss` laid end to end. */
  function Concat<T>(ss: seq<seq<T>>): seq<T>
  {
    if |ss| == 0 then [] else Concat(ss[..|ss| - 1]) + ss[|ss| - 1]
  }

  lemma ConcatSnoc<T>(ss: seq<seq<T>>, s: seq<T>)
    ensures Concat(ss + [s]) == Concat(ss) + s
  {
    assert (ss + [s])[..|ss|] == ss;
  }

  /** Part `i` of a concatenation sits right after the parts before it. */
  lemma {:induction false} ConcatWindow<T>(ss: seq<seq<T>>, i: nat)
    requires i < |ss|
    ensures |Concat(ss[..i])| + |ss[i]| <= |Concat(ss)|
    ensures Concat(ss)[|Concat(ss[..i])|..|Concat(ss[..i])| + |ss[i]|] == ss[i]
  {
    var front := ss[..|ss| - 1];
    if i == |ss| - 1 {
      SliceRight(Concat(front), ss[i]);
    } else {
      ConcatWindow(front, i);
      assert front[..i] == ss[..i];
      SliceLeft(Concat(front), ss[|ss| - 1], |Concat(ss[..i])|, |Concat(ss[..i])| + |ss[i]|);
    }
  }

  /** ConcatWindow, with the position and the part named by the caller. */
  lemma ConcatPart<T>(ss: seq<seq<T>>, i: nat, at: nat, part: seq<T>)
    requires i < |ss| && |Concat(ss[..i])| == at && ss[i] == part
    ensures at + |part| <= |Concat(ss)| && Concat(ss)[at..at + |part|] == part
  {
    ConcatWindow(ss, i);
  }

  /** ConcatPart, for a concatenation that starts at `d` in `s`. */
  lemma ConcatPartAfter<T>(s: seq<T>, d: nat, ss: seq<seq<T>>, i: nat, at: nat, part: seq<T>)
    requires d <= |s| && s[d..] == Concat(ss)
    requires i < |ss| && d + |Concat(ss[..i])| == at && ss[i] == part
    ensures at + |part| <= |s| && s[at..at + |part|] == part
  {
    ConcatPart(ss, i, at - d, part);
    Shifted(s, d, at - d, part);
  }

  lemma TakeSnoc<T>(ss: seq<T>, s: T, i: nat)
    requires i <= |ss|
    ensures (ss + [s])[..i] == ss[..i]
    ensures (ss + [s])[|ss|] == s
  {
  }

  /** A window of `body` seen through `head + body`. */
  lemma Shifted<T>(s: seq<T>, d: nat, lo: nat, part: seq<T>)
    requires d <= |s| && lo + |part| <= |s[d..]| && s[d..][lo..lo + |part|] == part
    ensures d + lo + |part| <= |s| && s[d + lo..d + lo + |part|] == part
  {
    assert s[d..][lo..lo + |part|] == s[d + lo..d + lo + |part|];
  }

  /** Reading inside a window of `s` that is known to hold `part`. */
  lemma Window<T>(s: seq<T>, at: nat, part: seq<T>, n: nat)
    requires at + |part| <= |s| && s[at..at + |part|] == part && n <= |part|
    ensures s[at..at + n] == part[..n]
    ensures forall k | at <= k < at + |part| :: s[k] == part[k - at]
  {
    forall k | at <= k < at + |part|
      ensures s[k] == part[k - at]
    {
      assert s[k] == s[at..at + |part|][k - at];
    }
  }

  lemma ZerosSnoc(n: nat)
    ensures Zeros(n) + [0] == Zeros(n + 1)
  {
  }

  /** The C conversion of a wider unsigned value into a `uint32_t` field. */
  function U32(n: nat): (r: u32)
    ensures n < U32_LIMIT ==> r == n
    ensures r <= n
  {
    n % U32_LIMIT
  }

  /** Little-endian encoding of a u32 field. */
  function U32Le(x: u32): (r: seq<byte>)
    ensures |r| == 4
    ensures r[0] == x % 0x100 && r[3] == x / 0x100_0000
  {
    var q1 := x / 0x100;
    var q2 := q1 / 0x100;
    var q3 := q2 / 0x100;
    [x % 0x100, q1 % 0x100, q2 % 0x100, q3]
  }

  /** The little-endian u32 stored at bytes `[at, at + 4)` of `s`. */
  function U32At(s: seq<byte>, at: nat): (r: u32)
    requires at + 4 <= |s|
    ensures r % 0x100 == s[at] && r / 0x100_0000 == s[at + 3]
  {
    s[at] as int + 0x100 * s[at + 1] as int + 0x1_0000 * s[at + 2] as int + 0x100_0000 * s[at + 3] as int
  }

  lemma U32LeRoundTrip(x: u32)
    ensures U32At(U32Le(x), 0) == x
  {
    var q1 := x / 0x100;
    var q2 := q1 / 0x100;
    var q3 := q2 / 0x100;
    assert x == 0x100 * q1 + x % 0x100;
    assert q1 == 0x100 * q2 + q1 % 0x100;
    assert q2 == 0x100 * q3 + q2 % 0x100;
  }

  lemma U32AtRoundTrip(s: seq<byte>)
    requires |s| == 4
    ensures U32Le(U32At(s, 0)) == s
  {
    var x := U32At(s, 0);
    var q2: int := s[2] as int + 0x100 * s[3] as int;
    var q1: int := s[1] as int + 0x100 * q2;
    assert x == s[0] as int + 0x100 * q1;
    DivMod256(q1, s[0]);
    DivMod256(q2, s[1]);
    DivMod256(s[3], s[2]);
    assert U32Le(x) == [s[0], s[1], s[2], s[3]];
  }

  lemma DivMod256(q: nat, r: nat)
    requires r < 0x100
    ensures (0x100 * q + r) / 0x100 == q && (0x100 * q + r) % 0x100 == r
  {
  }

  /** The u32 at `at` depends only on the four bytes there. */
  lemma U32AtSlice(s: seq<byte>, at: nat)
    requires at + 4 <= |s|
    ensures U32At(s, at) == U32At(s[at..at + 4], 0)
  {
  }

  /**
   * The smallest multiple of 32 that is at least `n`: where a write cursor
   * lands after zero padding (no padding when `n` is already aligned).
   */
  function RoundUp32(n: nat): (r: nat)
    ensures r % 32 == 0
    ensures n <= r < n + 32
    ensures n % 32 == 0 ==> r == n
  {
    if n % 32 == 0 then n else n + (32 - n % 32)
  }

  /** The two conditions of RoundUp32 determine it uniquely. */
  lemma RoundUp32Least(n: nat, m: nat)
    requires m % 32 == 0 && n <= m
    ensures RoundUp32(n) <= m
  {
  }
}
