/** Machine integers, byte strings and the fixed-width encodings that the other modules share. */
module Bytes {

  type byte = x: int | 0 <= x < 0x100
  type bytes = seq<byte>

  const TWO_31: int := 0x8000_0000
  const TWO_32: int := 0x1_0000_0000
  const TWO_63: int := 0x8000_0000_0000_0000
  const TWO_64: int := 0x1_0000_0000_0000_0000

  /** The bytes of a length word, in both ways of framing. */
  const HEADER_LEN: nat := 4

  type uint32 = x: int | 0 <= x < TWO_32
  type int32 = x: int | -TWO_31 <= x < TWO_31
  type uint64 = x: int | 0 <= x < TWO_64
  type int64 = x: int | -TWO_63 <= x < TWO_63

  datatype Option<+T> = None | Some(value: T)

  /** Two's complement: the conversion of an unsigned word to `int`. */
  function ToInt32(n: uint32): (r: int32)
    ensures r % 0x1_0000_0000 == n
  {
    if n < TWO_31 then n else n - TWO_32
  }

  function ToInt64(n: uint64): (r: int64)
    ensures r % 0x1_0000_0000_0000_0000 == n
  {
    if n < TWO_63 then n else n - TWO_64
  }

  /** The conversion of a signed number to a 64-bit word; `int32` values are sign-extended. */
  function ToUint64(n: int64): (r: uint64)
    ensures ToInt64(r) == n
  {
    if n < 0 then n + TWO_64 else n
  }

  /** The four bytes that `htonl` followed by a copy from memory leaves in a buffer. */
  function BigEndian(n: uint32): (s: bytes)
    ensures |s| == 4
  {
    [n / 0x100_0000, n / 0x1_0000 % 0x100, n / 0x100 % 0x100, n % 0x100]
  }

  function FromBigEndian(s: bytes): uint32
    requires |s| >= 4
  {
    (s[0] as int) * 0x100_0000 + (s[1] as int) * 0x1_0000 + (s[2] as int) * 0x100 + s[3]
  }

  /** Division by 256 peels one base-256 digit. */
  lemma Digit(high: nat, low: byte)
    ensures (0x100 * high + low) / 0x100 == high && (0x100 * high + low) % 0x100 == low
  {
  }

  lemma BigEndianRoundTrip(n: uint32, t: bytes)
    ensures FromBigEndian(BigEndian(n) + t) == n
  {
    assert n == 0x100 * (n / 0x100) + n % 0x100;
    assert n / 0x100 == 0x100 * (n / 0x1_0000) + n / 0x100 % 0x100;
    assert n / 0x1_0000 == 0x100 * (n / 0x100_0000) + n / 0x1_0000 % 0x100;
  }

  lemma BigEndianOfRead(s: bytes)
    requires |s| >= 4
    ensures BigEndian(FromBigEndian(s)) == s[..4]
  {
    var n := FromBigEndian(s);
    var a: nat := 0x100 * (s[0] as int) + s[1];
    var b: nat := 0x100 * a + s[2];
    assert n == 0x100 * b + s[3];
    Digit(b, s[3]);
    Digit(a, s[2]);
    Digit(s[0], s[1]);
    assert n / 0x100 == b && n / 0x1_0000 == a && n / 0x100_0000 == s[0];
  }

  lemma FirstDifferenceDecides(s: bytes, t: bytes, k: nat)
    requires |s| == |t| == 4 && k < 4 && s[..k] == t[..k] && s[k] != t[k]
    ensures FromBigEndian(s) < FromBigEndian(t) <==> s[k] < t[k]
  {
    forall j | 0 <= j < k ensures s[j] == t[j] {
      assert s[j] == s[..k][j] == t[..k][j];
    }
  }

  /** What network order means: words are ordered as their bytes are, compared from the first byte on. No other order
      of the bytes has this property. */
  lemma BigEndianOrder(m: uint32, n: uint32)
    ensures m < n <==>
              exists k :: 0 <= k < 4 && BigEndian(m)[..k] == BigEndian(n)[..k] && BigEndian(m)[k] < BigEndian(n)[k]
  {
    var s, t := BigEndian(m), BigEndian(n);
    BigEndianRoundTrip(m, []);
    BigEndianRoundTrip(n, []);
    assert s + [] == s && t + [] == t;
    if m < n {
      var k := if s[0] != t[0] then 0 else if s[1] != t[1] then 1 else if s[2] != t[2] then 2 else 3;
      assert s[..k] == t[..k];
      FirstDifferenceDecides(s, t, k);
    }
    if k :| 0 <= k < 4 && s[..k] == t[..k] && s[k] < t[k] {
      FirstDifferenceDecides(s, t, k);
    }
  }

  /** The `width` low-order bytes of `n`, least significant first. */
  function LittleEndian(n: nat, width: nat): (s: bytes)
    ensures |s| == width
  {
    if width == 0 then [] else [n % 0x100] + LittleEndian(n / 0x100, width - 1)
  }

  function FromLittleEndian(s: bytes): nat {
    if s == [] then 0 else s[0] + 0x100 * FromLittleEndian(s[1..])
  }

  function Pow256(width: nat): nat {
    if width == 0 then 1 else 0x100 * Pow256(width - 1)
  }

  lemma {:induction false} LittleEndianRoundTrip(n: nat, width: nat)
    requires n < Pow256(width)
    ensures FromLittleEndian(LittleEndian(n, width)) == n
  {
    if width > 0 {
      LittleEndianRoundTrip(n / 0x100, width - 1);
    }
  }

  lemma {:induction false} LittleEndianOfRead(s: bytes)
    ensures FromLittleEndian(s) < Pow256(|s|)
    ensures LittleEndian(FromLittleEndian(s), |s|) == s
  {
    if s != [] {
      LittleEndianOfRead(s[1..]);
      Digit(FromLittleEndian(s[1..]), s[0]);
      assert s == [s[0]] + s[1..];
    }
  }

  lemma FixedWidths()
    ensures Pow256(4) == TWO_32 && Pow256(8) == TWO_64
  {
    assert Pow256(2) == 0x1_0000;
    assert Pow256(4) == TWO_32;
    assert Pow256(6) == 0x1_0000 * TWO_32;
  }

  lemma Regroup(b: nat, p: nat)
    ensures 0x100 * (b * p) == b * (0x100 * p)
  {
  }

  /** Every byte weighs 256 times as much as the one before it. */
  lemma {:induction false} LittleEndianWeights(s: bytes, b: byte)
    ensures FromLittleEndian(s + [b]) == FromLittleEndian(s) + b * Pow256(|s|)
  {
    if s == [] {
      assert (s + [b])[1..] == [];
    } else {
      LittleEndianWeights(s[1..], b);
      assert (s + [b])[1..] == s[1..] + [b];
      Regroup(b, Pow256(|s| - 1));
    }
  }

  function Flatten<T>(parts: seq<seq<T>>): seq<T> {
    if parts == [] then [] else parts[0] + Flatten(parts[1..])
  }

  lemma NothingFlat<T>()
    ensures Flatten<T>([]) == []
  {
  }

  lemma FlattenFirst<T>(first: seq<T>, parts: seq<seq<T>>)
    ensures Flatten([first] + parts) == first + Flatten(parts)
  {
    assert ([first] + parts)[1..] == parts;
  }

  lemma Associative<T>(a: seq<T>, b: seq<T>, c: seq<T>)
    ensures a + (b + c) == (a + b) + c
  {
  }

  lemma SamePrefix<T>(a: seq<T>, s: seq<T>, b: seq<T>, t: seq<T>)
    requires |a| == |b|
    ensures a + s == b + t <==> a == b && s == t
  {
    assert (a + s)[..|a|] == a && (b + t)[..|b|] == b && (a + s)[|a|..] == s && (b + t)[|b|..] == t;
  }

  lemma {:induction false} FlattenAppend<T>(a: seq<seq<T>>, b: seq<seq<T>>)
    ensures Flatten(a + b) == Flatten(a) + Flatten(b)
  {
    if a == [] {
      assert a + b == b;
    } else {
      var c, d := a + b, a[1..];
      FlattenAppend(d, b);
      assert c != [] && c[0] == a[0] && c[1..] == d + b;
      Associative(a[0], Flatten(d), Flatten(b));
    }
  }

  lemma SliceSplits<T>(s: seq<T>, lo: nat, mid: nat, hi: nat)
    requires lo <= mid <= hi <= |s|
    ensures s[..mid][lo..] == s[lo..mid]
    ensures s[lo..hi] == s[lo..mid] + s[mid..hi]
  {
  }

  lemma SliceOfSlice<T>(s: seq<T>, lo: nat, hi: nat, i: nat, n: nat)
    requires lo <= hi <= |s| && lo + i + n <= hi
    ensures s[lo..hi][i..i + n] == s[lo + i..lo + i + n]
  {
    var a, b := s[lo..hi][i..i + n], s[lo + i..lo + i + n];
    forall k | 0 <= k < n ensures a[k] == b[k] {
      assert a[k] == s[lo..hi][i + k] == s[lo + i + k];
    }
  }

  /** The characters of a C string: what stands before the first terminator. */
  function CString<T(==)>(s: seq<T>, nul: T): (t: seq<T>)
    requires nul in s
    ensures |t| < |s| && t == s[..|t|] && s[|t|] == nul && nul !in t
  {
    if s[0] == nul then [] else [s[0]] + CString(s[1..], nul)
  }

  /** A string without terminator is the C string that it becomes with one. */
  lemma {:induction false} CStringWhole<T>(s: seq<T>, nul: T)
    requires nul !in s
    ensures CString(s + [nul], nul) == s
  {
    if s != [] {
      CStringWhole(s[1..], nul);
      assert (s + [nul])[1..] == s[1..] + [nul];
    }
  }
}
