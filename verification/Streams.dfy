/** The coded streams of the protobuf library, as far as the generated code uses them. */
module Streams {
  import opened Bytes
  import opened Wire
  import opened Schema

  class CodedInputStream {
    var unread: bytes
    /** Set when a tag was asked for exactly at the end of the input: what `ConsumedEntireMessage` reports. */
    var legitimateEnd: bool

    constructor (input: bytes)
      ensures unread == input && !legitimateEnd
    {
      unread := input;
      legitimateEnd := false;
    }

    method ReadTagWithCutoffNoLastTag(cutoff: uint32) returns (tag: uint32, within: bool)
      modifies this
      ensures within <==> 1 <= tag <= cutoff
      ensures legitimateEnd <==> old(unread) == []
      ensures TagRead(old(unread), tag, unread)
    {
      hide ScanVarint;
      legitimateEnd := unread == [];
      match ReadVarint(unread) {
        case NoScan =>
          tag := 0;
        case Scan(v, rest) =>
          tag := v % TWO_32;
          unread := rest;
      }
      within := 1 <= tag <= cutoff;
    }

    method ReadInt64() returns (ok: bool, value: int64)
      modifies this`unread
      ensures match ReadVarint(old(unread))
              case NoScan => !ok
              case Scan(v, rest) => ok && value == ToInt64(v % TWO_64) && unread == rest
    {
      hide ScanVarint;
      match ReadVarint(unread)
      case NoScan =>
        ok, value := false, 0;
      case Scan(v, rest) =>
        ok, value := true, ToInt64(v % TWO_64);
        unread := rest;
    }

    method ReadInt32() returns (ok: bool, value: int32)
      modifies this`unread
      ensures match ReadVarint(old(unread))
              case NoScan => !ok
              case Scan(v, rest) => ok && value == ToInt32(v % TWO_32) && unread == rest
    {
      hide ScanVarint;
      match ReadVarint(unread)
      case NoScan =>
        ok, value := false, 0;
      case Scan(v, rest) =>
        ok, value := true, ToInt32(v % TWO_32);
        unread := rest;
    }

    /** What a failed read leaves in the string is not specified. */
    method ReadString() returns (ok: bool, value: bytes)
      modifies this`unread
      ensures match ReadBytes(old(unread))
              case NoChunk => !ok
              case Chunk(d, rest) => ok && value == d && unread == rest
    {
      hide ReadBytes;
      match ReadBytes(unread)
      case NoChunk =>
        ok, value := false, *;
      case Chunk(data, rest) =>
        ok, value := true, data;
        unread := rest;
    }

    /** Reads the rest of an unknown field and returns what is to be added to the set of unknown fields. What a
        failed read adds to it is not specified. */
    method SkipUnknown(tag: uint32) returns (ok: bool, fields: seq<Field>)
      modifies this`unread
      ensures match SkipField(tag, old(unread), RECURSION_LIMIT)
              case Malformed => !ok
              case Skipped(f, rest) => ok && fields == [f] && unread == rest && TagOf(f) == tag
    {
      hide SkipField, WellFormed;
      if SkipField(tag, unread, RECURSION_LIMIT).Skipped? {
        SkippedIsWellFormed(tag, unread, RECURSION_LIMIT);
      }
      match SkipField(tag, unread, RECURSION_LIMIT)
      case Malformed =>
        ok, fields := false, *;
      case Skipped(f, rest) =>
        ok, fields := true, [f];
        unread := rest;
    }
  }

  class CodedOutputStream {
    var written: bytes

    constructor ()
      ensures written == []
    {
      written := [];
    }

    method WriteInt64(number: nat, value: int64)
      modifies this
      ensures written == old(written) + Encode(VarintField(number, ToUint64(value)))
    {
      written := written + (Varint(MakeTag(number, 0)) + Varint(ToUint64(value)));
    }

    /** A negative `int32` is sign-extended and takes ten bytes. */
    method WriteInt32(number: nat, value: int32)
      modifies this
      ensures written == old(written) + Encode(VarintField(number, ToUint64(value)))
    {
      written := written + (Varint(MakeTag(number, 0)) + Varint(ToUint64(value)));
    }

    method WriteString(number: nat, value: bytes)
      requires |value| < TWO_31
      modifies this
      ensures written == old(written) + Encode(LengthField(number, value))
    {
      written := written + (Varint(MakeTag(number, 2)) + (Varint(|value|) + value));
    }

    method WriteUnknown(fields: seq<Field>)
      modifies this
      ensures written == old(written) + EncodeAll(fields)
    {
      written := written + EncodeAll(fields);
    }
  }

  /** The array `was` with `s` written over it at position `target`, and nothing else changed, is `now`. */
  predicate Wrote(was: bytes, now: bytes, target: nat, s: bytes) {
    && |now| == |was| && target + |s| <= |was|
    && now[..target] == was[..target]
    && now[target..target + |s|] == s
    && now[target + |s|..] == was[target + |s|..]
  }

  lemma WroteNothing(was: bytes, target: nat)
    requires target <= |was|
    ensures Wrote(was, was, target, [])
  {
  }

  lemma WroteTwice(was: bytes, mid: bytes, now: bytes, target: nat, s: bytes, t: bytes)
    requires Wrote(was, mid, target, s) && Wrote(mid, now, target + |s|, t)
    ensures Wrote(was, now, target, s + t)
  {
    var e, f := target + |s|, target + |s| + |t|;
    assert now[..target] == now[..e][..target] == mid[..e][..target] == mid[..target];
    assert now[target..e] == now[..e][target..] == mid[..e][target..] == mid[target..e];
    assert now[target..f] == now[target..e] + now[e..f];
    assert mid[f..] == mid[e..][|t|..] == was[e..][|t|..] == was[f..];
  }

  /** Part `j` of a message written behind the parts before it, to an array. */
  lemma WrotePart(was: bytes, mid: bytes, now: bytes, target: nat, k: Kind, m: Value, j: nat)
    requires Wrote(was, mid, target, Parts(k, m, j)) && Wrote(mid, now, target + |Parts(k, m, j)|, Part(k, m, j))
    ensures Wrote(was, now, target, Parts(k, m, j + 1))
  {
    hide Wrote, Part;
    WroteTwice(was, mid, now, target, Parts(k, m, j), Part(k, m, j));
  }

  /** The same for a stream, into which `before` was written earlier. */
  lemma PutPart(before: bytes, k: Kind, m: Value, j: nat)
    ensures before + Parts(k, m, j) + Part(k, m, j) == before + Parts(k, m, j + 1)
  {
    hide Part;
    assert before + (Parts(k, m, j) + Part(k, m, j)) == before + Parts(k, m, j) + Part(k, m, j);
  }

  /** What every `...ToArray` writer of the library does: puts `s` at position `target` and returns the position
      behind it. */
  method WriteToArray(a: array<byte>, target: nat, s: bytes) returns (end: nat)
    requires target + |s| <= a.Length
    modifies a
    ensures end == target + |s| && Wrote(old(a[..]), a[..], target, s)
  {
    end := target;
    ghost var was := a[..];
    for i := 0 to |s|
      invariant end == target + i
      invariant Wrote(was, a[..], target, s[..i])
    {
      ghost var mid := a[..];
      a[end] := s[i];
      assert Wrote(mid, a[..], end, [s[i]]);
      WroteTwice(was, mid, a[..], target, s[..i], [s[i]]);
      assert s[..i] + [s[i]] == s[..i + 1];
      end := end + 1;
    }
    assert s[..|s|] == s;
  }

  method WriteInt64ToArray(number: nat, value: int64, a: array<byte>, target: nat) returns (end: nat)
    requires target + |Encode(VarintField(number, ToUint64(value)))| <= a.Length
    modifies a
    ensures end == target + |Encode(VarintField(number, ToUint64(value)))|
    ensures Wrote(old(a[..]), a[..], target, Encode(VarintField(number, ToUint64(value))))
  {
    end := WriteToArray(a, target, Encode(VarintField(number, ToUint64(value))));
  }

  method WriteStringToArray(number: nat, value: bytes, a: array<byte>, target: nat) returns (end: nat)
    requires |value| < TWO_31 && target + |Encode(LengthField(number, value))| <= a.Length
    modifies a
    ensures end == target + |Encode(LengthField(number, value))|
    ensures Wrote(old(a[..]), a[..], target, Encode(LengthField(number, value)))
  {
    end := WriteToArray(a, target, Encode(LengthField(number, value)));
  }

  method WriteUnknownToArray(fields: seq<Field>, a: array<byte>, target: nat) returns (end: nat)
    requires target + |EncodeAll(fields)| <= a.Length
    modifies a
    ensures end == target + |EncodeAll(fields)| && Wrote(old(a[..]), a[..], target, EncodeAll(fields))
  {
    end := WriteToArray(a, target, EncodeAll(fields));
  }

  // ---- Loops that the serializers of Query and Answer have in common ----

  lemma NextString(before: bytes, number: nat, ss: seq<bytes>, i: nat)
    requires i < |ss| && AllShortStrings(ss)
    ensures |ss[i]| < TWO_31
    ensures before + RepeatedBytes(number, ss[..i]) + Encode(LengthField(number, ss[i])) ==
              before + RepeatedBytes(number, ss[..i + 1])
    ensures |RepeatedBytes(number, ss[..i])| + |Encode(LengthField(number, ss[i]))| <= |RepeatedBytes(number, ss)|
  {
    hide RepeatedBytes, Encode, AllShortStrings;
    ShortAt(ss, i);
    RepeatedTurn(number, ss, i);
  }

  method WriteStrings(number: nat, ss: seq<bytes>, output: CodedOutputStream)
    requires AllShortStrings(ss)
    modifies output
    ensures output.written == old(output.written) + RepeatedBytes(number, ss)
  {
    hide RepeatedBytes, Encode, AllShortStrings;
    NothingRepeated(number);
    for i := 0 to |ss|
      invariant output.written == old(output.written) + RepeatedBytes(number, ss[..i])
    {
      NextString(old(output.written), number, ss, i);
      output.WriteString(number, ss[i]);
    }
    assert ss[..|ss|] == ss;
  }

  method WriteStringsToArray(number: nat, ss: seq<bytes>, a: array<byte>, target: nat) returns (end: nat)
    requires AllShortStrings(ss) && target + |RepeatedBytes(number, ss)| <= a.Length
    modifies a
    ensures end == target + |RepeatedBytes(number, ss)|
    ensures Wrote(old(a[..]), a[..], target, RepeatedBytes(number, ss))
  {
    hide RepeatedBytes, Encode, AllShortStrings, Wrote;
    NothingRepeated(number);
    WroteNothing(a[..], target);
    end := target;
    for i := 0 to |ss|
      invariant end == target + |RepeatedBytes(number, ss[..i])| <= a.Length
      invariant Wrote(old(a[..]), a[..], target, RepeatedBytes(number, ss[..i]))
    {
      ghost var mid := a[..];
      NextString([], number, ss, i);
      RepeatedTurn(number, ss, i);
      end := WriteStringToArray(number, ss[i], a, end);
      WroteTwice(old(a[..]), mid, a[..], target, RepeatedBytes(number, ss[..i]), Encode(LengthField(number, ss[i])));
    }
    assert ss[..|ss|] == ss;
  }

  method StringsSize(number: nat, ss: seq<bytes>) returns (size: nat)
    requires 1 <= number <= 4
    ensures size == |RepeatedBytes(number, ss)|
  {
    hide RepeatedBytes, StringSize;
    size := 1 * |ss|;
    NothingRepeated(number);
    for i := 0 to |ss|
      invariant size == |RepeatedBytes(number, ss[..i])| + (|ss| - i)
    {
      RepeatedSizeTurn(number, ss, i);
      size := size + StringSize(ss[i]);
    }
    assert ss[..|ss|] == ss;
  }
}
