/** The wire format primitives that the generated code of codec_test calls: varints, tags, the five kinds of field
    records, and skipping over an unknown field. They follow the document "Protocol Buffers Encoding", sections
    "Base 128 Varints", "Message Structure", "Length-Delimited Records" and "Groups". */
module Wire {
  import opened Bytes

  const MAX_VARINT_BYTES: nat := 10
  const RECURSION_LIMIT: nat := 100
  const TWO_29: int := 0x2000_0000

  // ---- Varints ----

  function Varint(v: nat): (s: bytes)
    ensures |s| >= 1
  {
    if v < 0x80 then [v] else [0x80 + v % 0x80] + Varint(v / 0x80)
  }

  /** The bytes that `Varint` takes, counted by comparing. */
  function VarintSize(v: nat): (n: nat)
    ensures n == |Varint(v)|
  {
    if v < 0x80 then 1 else 1 + VarintSize(v / 0x80)
  }

  datatype Scan = NoScan | Scan(value: nat, rest: bytes)

  /** Reads a varint of at most `limit` bytes, minimal or not. */
  function ScanVarint(s: bytes, limit: nat): (r: Scan)
    ensures r.Scan? ==> |r.rest| < |s|
  {
    if limit == 0 || s == [] then NoScan
    else if s[0] < 0x80 then Scan(s[0], s[1..])
    else
      match ScanVarint(s[1..], limit - 1)
      case NoScan => NoScan
      case Scan(v, rest) => Scan(s[0] - 0x80 + 0x80 * v, rest)
  }

  function Pow128(n: nat): nat {
    if n == 0 then 1 else 0x80 * Pow128(n - 1)
  }

  lemma {:induction false} ScanEncoded(v: nat, limit: nat, t: bytes)
    requires limit > 0 && v < Pow128(limit)
    ensures ScanVarint(Varint(v) + t, limit) == Scan(v, t)
    decreases limit
  {
    var s := Varint(v) + t;
    if v < 0x80 {
      assert s[1..] == t;
    } else {
      ScanEncoded(v / 0x80, limit - 1, t);
      assert s[1..] == Varint(v / 0x80) + t;
    }
  }

  lemma {:induction false} ScanAppend(s: bytes, limit: nat, t: bytes)
    requires ScanVarint(s, limit).Scan?
    ensures ScanVarint(s + t, limit) == Scan(ScanVarint(s, limit).value, ScanVarint(s, limit).rest + t)
    decreases limit
  {
    assert (s + t)[1..] == s[1..] + t;
    if s[0] >= 0x80 {
      ScanAppend(s[1..], limit - 1, t);
    }
  }

  lemma TenBytesHoldAnyWord()
    ensures Pow128(MAX_VARINT_BYTES) == 64 * TWO_64
  {
    assert Pow128(2) == 0x4000;
    assert Pow128(4) == 0x1000_0000;
    assert Pow128(6) == 0x400_0000_0000;
    assert Pow128(8) == 0x100_0000_0000_0000;
  }

  /** A word of up to 64 bits reads back, whatever follows it. */
  lemma VarintRoundTrip(v: uint64, t: bytes)
    ensures ScanVarint(Varint(v) + t, MAX_VARINT_BYTES) == Scan(v, t)
  {
    TenBytesHoldAnyWord();
    ScanEncoded(v, MAX_VARINT_BYTES, t);
  }

  function ReadVarint(s: bytes): Scan {
    ScanVarint(s, MAX_VARINT_BYTES)
  }

  // ---- What number a varint stands for ----

  /** The number whose digits to the base 128 are the low seven bits of the bytes, the first byte weighing least. */
  function Groups(s: bytes): nat {
    if s == [] then 0 else Groups(s[..|s| - 1]) + s[|s| - 1] % 0x80 * Pow128(|s| - 1)
  }

  /** The first `n` bytes are a varint: all but the last have the continuation bit. */
  predicate VarintEnds(s: bytes, n: nat) {
    0 < n <= |s| && s[n - 1] < 0x80 && forall i :: 0 <= i < n - 1 ==> s[i] >= 0x80
  }

  lemma Regroup128(b: nat, p: nat)
    ensures 0x80 * (b * p) == b * (0x80 * p)
  {
  }

  lemma {:induction false} GroupsFirst(s: bytes)
    requires s != []
    ensures Groups(s) == s[0] % 0x80 + 0x80 * Groups(s[1..])
  {
    var n := |s| - 1;
    if n > 0 {
      GroupsFirst(s[..n]);
      assert s[..n][1..] == s[1..][..n - 1] && s[..n][0] == s[0] && s[1..][n - 1] == s[n];
      Regroup128(s[n] % 0x80, Pow128(n - 1));
    } else {
      assert s[..0] == [] && s[1..] == [];
    }
  }

  lemma EndsTail(s: bytes, n: nat)
    requires VarintEnds(s, n)
    ensures 0 < n <= |s| && (n == 1 <==> s[0] < 0x80)
    ensures n > 1 ==> VarintEnds(s[1..], n - 1)
  {
  }

  lemma NoGroups()
    ensures Groups([]) == 0
  {
  }

  lemma {:induction false} ScanValue(s: bytes, limit: nat, n: nat)
    requires VarintEnds(s, n) && n <= limit
    ensures ScanVarint(s, limit) == Scan(Groups(s[..n]), s[n..])
    decreases n
  {
    hide Groups, VarintEnds;
    EndsTail(s, n);
    GroupsFirst(s[..n]);
    assert s[..n][1..] == s[1..][..n - 1] && s[..n][0] == s[0];
    if n > 1 {
      ScanValue(s[1..], limit - 1, n - 1);
      assert s[1..][n - 1..] == s[n..];
    } else {
      NoGroups();
      assert s[1..][..0] == [];
    }
  }

  lemma {:induction false} ScanEnds(s: bytes, limit: nat)
    requires ScanVarint(s, limit).Scan?
    ensures var n := |s| - |ScanVarint(s, limit).rest|; VarintEnds(s, n) && n <= limit
    decreases limit
  {
    if s[0] >= 0x80 {
      ScanEnds(s[1..], limit - 1);
      var n := |s| - |ScanVarint(s, limit).rest|;
      forall i | 0 <= i < n - 1 ensures s[i] >= 0x80 {
        if i > 0 { assert s[i] == s[1..][i - 1]; }
      }
    }
  }

  /** Reading a varint, minimal or not: it is the number of its groups of seven bits, if it ends within ten bytes, and
      otherwise there is none. */
  lemma ReadVarintValue(s: bytes, n: nat)
    ensures VarintEnds(s, n) ==> ReadVarint(s) == if n <= 10 then Scan(Groups(s[..n]), s[n..]) else NoScan
    ensures ReadVarint(s).Scan? ==> exists k :: 0 < k <= 10 && VarintEnds(s, k)
  {
    hide ScanVarint;
    if ReadVarint(s).Scan? {
      ScanEnds(s, MAX_VARINT_BYTES);
      var k := |s| - |ReadVarint(s).rest|;
      if VarintEnds(s, n) {
        assert k == n;
      }
    }
    if VarintEnds(s, n) && n <= 10 {
      ScanValue(s, MAX_VARINT_BYTES, n);
    }
  }

  lemma OneByteEnds(b: byte)
    requires b < 0x80
    ensures VarintEnds([b], 1)
  {
  }

  lemma LongerEnds(b: byte, s: bytes)
    requires b >= 0x80 && VarintEnds(s, |s|)
    ensures VarintEnds([b] + s, |s| + 1)
  {
  }

  /** Writing a number: its groups of seven bits, and no superfluous one at the end. */
  lemma {:induction false} VarintValue(v: nat)
    ensures VarintEnds(Varint(v), |Varint(v)|) && Groups(Varint(v)) == v
    ensures |Varint(v)| > 1 ==> Varint(v)[|Varint(v)| - 1] != 0
  {
    hide Groups, VarintEnds;
    var s := Varint(v);
    GroupsFirst(s);
    if v < 0x80 {
      assert s[1..] == [];
      NoGroups();
      OneByteEnds(v);
    } else {
      VarintValue(v / 0x80);
      assert s[1..] == Varint(v / 0x80);
      LongerEnds(s[0], Varint(v / 0x80));
    }
  }

  // ---- Field records ----

  /** One record of a message. Groups hold records in turn. */
  datatype Field =
    | VarintField(number: nat, word: nat)
    | Fixed64Field(number: nat, word: nat)
    | LengthField(number: nat, data: bytes)
    | GroupField(number: nat, fields: seq<Field>)
    | Fixed32Field(number: nat, word: nat)

  const START_GROUP: nat := 3
  const END_GROUP: nat := 4

  function WireType(f: Field): nat {
    match f
    case VarintField(_, _) => 0
    case Fixed64Field(_, _) => 1
    case LengthField(_, _) => 2
    case GroupField(_, _) => START_GROUP
    case Fixed32Field(_, _) => 5
  }

  function MakeTag(number: nat, wireType: nat): nat {
    8 * number + wireType
  }

  function TagOf(f: Field): nat {
    MakeTag(f.number, WireType(f))
  }

  /** What a field can hold. `depth` is how many levels of groups may still be opened. */
  predicate WellFormed(f: Field, depth: nat)
    decreases f, 0
  {
    && 1 <= f.number < TWO_29
    && match f
       case VarintField(_, v) => v < TWO_64
       case Fixed64Field(_, v) => v < TWO_64
       case LengthField(_, d) => |d| < TWO_31
       case GroupField(_, fs) => depth > 0 && AllWellFormed(fs, depth - 1)
       case Fixed32Field(_, v) => v < TWO_32
  }

  predicate AllWellFormed(fs: seq<Field>, depth: nat)
    decreases fs, 1
  {
    fs == [] || (WellFormed(fs[0], depth) && AllWellFormed(fs[1..], depth))
  }

  function EncodePayload(f: Field): bytes
    decreases f, 0
  {
    match f
    case VarintField(_, v) => Varint(v)
    case Fixed64Field(_, v) => LittleEndian(v, 8)
    case LengthField(_, d) => Varint(|d|) + d
    case GroupField(n, fs) => EncodeAll(fs) + Varint(MakeTag(n, END_GROUP))
    case Fixed32Field(_, v) => LittleEndian(v, 4)
  }

  function Encode(f: Field): (s: bytes)
    ensures |s| >= 1
    decreases f, 1
  {
    Varint(TagOf(f)) + EncodePayload(f)
  }

  function EncodeAll(fs: seq<Field>): bytes
    decreases fs, 2
  {
    if fs == [] then [] else Encode(fs[0]) + EncodeAll(fs[1..])
  }

  datatype Skipped = Malformed | Skipped(field: Field, rest: bytes)
  datatype Group = NoGroup | Group(fields: seq<Field>, rest: bytes)

  datatype Chunk = NoChunk | Chunk(data: bytes, rest: bytes)

  /** Reads a length and that many bytes. The length is a word of 32 bits put into an `int`. */
  function ReadBytes(s: bytes): (r: Chunk)
    ensures r.Chunk? ==> |r.rest| < |s|
  {
    match ReadVarint(s)
    case NoScan => NoChunk
    case Scan(v, rest) =>
      var len := ToInt32(v % TWO_32);
      if len < 0 || len > |rest| then NoChunk else Chunk(rest[..len], rest[len..])
  }

  /** Reads what follows a tag: `SkipField` with the unknown field set as its target. */
  function SkipField(tag: uint32, s: bytes, depth: nat): (r: Skipped)
    ensures r.Skipped? ==> |r.rest| <= |s|
    decreases |s|, 1
  {
    var number := tag / 8;
    if number == 0 then Malformed
    else if tag % 8 == 0 then
      match ReadVarint(s)
      case NoScan => Malformed
      case Scan(v, rest) => Skipped(VarintField(number, v % TWO_64), rest)
    else if tag % 8 == 1 then
      if |s| < 8 then Malformed else Skipped(Fixed64Field(number, FromLittleEndian(s[..8])), s[8..])
    else if tag % 8 == 2 then
      match ReadBytes(s)
      case NoChunk => Malformed
      case Chunk(data, rest) => Skipped(LengthField(number, data), rest)
    else if tag % 8 == START_GROUP then
      if depth == 0 then Malformed
      else
        match SkipGroup(number, s, depth - 1)
        case NoGroup => Malformed
        case Group(fs, rest) => Skipped(GroupField(number, fs), rest)
    else if tag % 8 == 5 then
      if |s| < 4 then Malformed else Skipped(Fixed32Field(number, FromLittleEndian(s[..4])), s[4..])
    else Malformed
  }

  /** Reads records up to the end tag of group `number`. */
  function SkipGroup(number: nat, s: bytes, depth: nat): (r: Group)
    ensures r.Group? ==> |r.rest| < |s|
    decreases |s|, 0
  {
    match ReadVarint(s)
    case NoScan => NoGroup
    case Scan(v, rest) =>
      var tag := v % TWO_32;
      if tag % 8 == END_GROUP then (if tag / 8 == number then Group([], rest) else NoGroup)
      else
        match SkipField(tag, rest, depth)
        case Malformed => NoGroup
        case Skipped(f, rest') =>
          match SkipGroup(number, rest', depth)
          case NoGroup => NoGroup
          case Group(fs, rest'') => Group([f] + fs, rest'')
  }

  lemma {:induction false} TagRoundTrip(number: nat, wireType: nat, t: bytes)
    requires 1 <= number < TWO_29 && wireType < 8
    ensures 0 < MakeTag(number, wireType) < TWO_32
    ensures MakeTag(number, wireType) / 8 == number && MakeTag(number, wireType) % 8 == wireType
    ensures ReadVarint(Varint(MakeTag(number, wireType)) + t) == Scan(MakeTag(number, wireType), t)
  {
    VarintRoundTrip(MakeTag(number, wireType), t);
  }

  /** A well-formed record reads back, whatever follows it. */
  lemma {:induction false} FieldRoundTrip(f: Field, depth: nat, t: bytes)
    requires WellFormed(f, depth)
    ensures 0 < TagOf(f) < TWO_32 && TagOf(f) % 8 == WireType(f)
    ensures ReadVarint(Encode(f) + t) == Scan(TagOf(f), EncodePayload(f) + t)
    ensures SkipField(TagOf(f), EncodePayload(f) + t, depth) == Skipped(f, t)
    decreases f, 2
  {
    hide Varint, ReadVarint, SkipField, EncodePayload;
    TagRoundTrip(f.number, WireType(f), EncodePayload(f) + t);
    assert Encode(f) + t == Varint(TagOf(f)) + (EncodePayload(f) + t);
    PayloadRoundTrip(f, depth, t);
  }

  lemma {:induction false} GroupRoundTrip(fs: seq<Field>, number: nat, depth: nat, t: bytes)
    requires AllWellFormed(fs, depth) && 1 <= number < TWO_29
    ensures SkipGroup(number, EncodeAll(fs) + Varint(MakeTag(number, END_GROUP)) + t, depth) == Group(fs, t)
    decreases fs, 2
  {
    hide Varint, ReadVarint, Encode, SkipField, WellFormed, MakeTag, TagOf;
    var end := Varint(MakeTag(number, END_GROUP)) + t;
    var s := EncodeAll(fs) + Varint(MakeTag(number, END_GROUP)) + t;
    if fs == [] {
      assert s == end;
      TagRoundTrip(number, END_GROUP, t);
    } else {
      var rest := EncodeAll(fs[1..]) + Varint(MakeTag(number, END_GROUP)) + t;
      assert s == Encode(fs[0]) + rest;
      FieldRoundTrip(fs[0], depth, rest);
      GroupRoundTrip(fs[1..], number, depth, t);
      assert [fs[0]] + fs[1..] == fs;
    }
  }

  lemma {:induction false} BytesRoundTrip(d: bytes, t: bytes)
    requires |d| < TWO_31
    ensures ReadBytes(Varint(|d|) + d + t) == Chunk(d, t)
  {
    hide Varint, ScanVarint;
    VarintRoundTrip(|d|, d + t);
    assert Varint(|d|) + d + t == Varint(|d|) + (d + t);
  }

  lemma {:induction false} BytesAppend(s: bytes, t: bytes)
    requires ReadBytes(s).Chunk?
    ensures ReadBytes(s + t) == Chunk(ReadBytes(s).data, ReadBytes(s).rest + t)
  {
    hide ScanVarint;
    ScanAppend(s, MAX_VARINT_BYTES, t);
    var r := ReadVarint(s);
    var len := ToInt32(r.value % TWO_32);
    assert (r.rest + t)[..len] == r.rest[..len] && (r.rest + t)[len..] == r.rest[len..] + t;
  }

  lemma {:induction false} PayloadRoundTrip(f: Field, depth: nat, t: bytes)
    requires WellFormed(f, depth)
    requires TagOf(f) < TWO_32 && TagOf(f) / 8 == f.number && TagOf(f) % 8 == WireType(f)
    ensures SkipField(TagOf(f), EncodePayload(f) + t, depth) == Skipped(f, t)
    decreases f, 1
  {
    hide Varint, ScanVarint, LittleEndian, FromLittleEndian, EncodeAll, AllWellFormed, SkipGroup;
    var s := EncodePayload(f) + t;
    match f
    case VarintField(_, v) =>
      VarintRoundTrip(v, t);
    case LengthField(_, d) =>
      BytesRoundTrip(d, t);
    case GroupField(n, fs) =>
      GroupRoundTrip(fs, n, depth - 1, t);
    case Fixed64Field(_, v) =>
      FixedWidths();
      LittleEndianRoundTrip(v, 8);
      assert s[..8] == LittleEndian(v, 8);
    case Fixed32Field(_, v) =>
      FixedWidths();
      LittleEndianRoundTrip(v, 4);
      assert s[..4] == LittleEndian(v, 4);
  }

  /** What is read is well-formed and carries the tag it was read with. */
  lemma {:induction false} SkippedIsWellFormed(tag: uint32, s: bytes, depth: nat)
    requires SkipField(tag, s, depth).Skipped?
    ensures WellFormed(SkipField(tag, s, depth).field, depth) && TagOf(SkipField(tag, s, depth).field) == tag
    decreases |s|, 1
  {
    hide ScanVarint, FromLittleEndian;
    if tag % 8 == START_GROUP {
      GroupIsWellFormed(tag / 8, s, depth - 1);
    } else if tag % 8 == 1 {
      FixedWidths();
      LittleEndianOfRead(s[..8]);
    } else if tag % 8 == 5 {
      FixedWidths();
      LittleEndianOfRead(s[..4]);
    }
  }

  lemma {:induction false} GroupIsWellFormed(number: nat, s: bytes, depth: nat)
    requires SkipGroup(number, s, depth).Group?
    ensures AllWellFormed(SkipGroup(number, s, depth).fields, depth)
    decreases |s|, 0
  {
    hide ScanVarint, SkipField, WellFormed;
    var tag := ReadVarint(s).value % TWO_32;
    if tag % 8 != END_GROUP {
      var first := SkipField(tag, ReadVarint(s).rest, depth);
      SkippedIsWellFormed(tag, ReadVarint(s).rest, depth);
      GroupIsWellFormed(number, first.rest, depth);
      var fs := SkipGroup(number, first.rest, depth).fields;
      assert ([first.field] + fs)[1..] == fs;
    }
  }

  /** Bytes that follow a record do not change how it is read. */
  lemma {:induction false} SkipAppend(tag: uint32, s: bytes, depth: nat, t: bytes)
    requires SkipField(tag, s, depth).Skipped?
    ensures SkipField(tag, s + t, depth) == Skipped(SkipField(tag, s, depth).field, SkipField(tag, s, depth).rest + t)
    decreases |s|, 1
  {
    hide ScanVarint, FromLittleEndian, SkipGroup;
    if tag % 8 == START_GROUP {
      GroupAppend(tag / 8, s, depth - 1, t);
    } else if tag % 8 == 0 {
      ScanAppend(s, MAX_VARINT_BYTES, t);
    } else if tag % 8 == 2 {
      BytesAppend(s, t);
    } else if tag % 8 == 1 {
      assert (s + t)[..8] == s[..8] && (s + t)[8..] == s[8..] + t;
    } else {
      assert (s + t)[..4] == s[..4] && (s + t)[4..] == s[4..] + t;
    }
  }

  lemma {:induction false} GroupAppend(number: nat, s: bytes, depth: nat, t: bytes)
    requires SkipGroup(number, s, depth).Group?
    ensures SkipGroup(number, s + t, depth)
         == Group(SkipGroup(number, s, depth).fields, SkipGroup(number, s, depth).rest + t)
    decreases |s|, 0
  {
    hide ScanVarint, SkipField;
    ScanAppend(s, MAX_VARINT_BYTES, t);
    var tag := ReadVarint(s).value % TWO_32;
    if tag % 8 != END_GROUP {
      SkipAppend(tag, ReadVarint(s).rest, depth, t);
      GroupAppend(number, SkipField(tag, ReadVarint(s).rest, depth).rest, depth, t);
    }
  }

  // ---- Sizes ----

  /** What `ComputeUnknownFieldsSize` adds up. */
  function FieldSize(f: Field): (n: nat)
    ensures n == |Encode(f)|
    decreases f, 1
  {
    VarintSize(TagOf(f)) +
    match f
    case VarintField(_, v) => VarintSize(v)
    case Fixed64Field(_, _) => 8
    case LengthField(_, d) => VarintSize(|d|) + |d|
    case GroupField(n, fs) => FieldsSize(fs) + VarintSize(MakeTag(n, END_GROUP))
    case Fixed32Field(_, _) => 4
  }

  function FieldsSize(fs: seq<Field>): (n: nat)
    ensures n == |EncodeAll(fs)|
    decreases fs, 2
  {
    if fs == [] then 0 else FieldSize(fs[0]) + FieldsSize(fs[1..])
  }

  // ---- Where a record of each wire type ends ----

  /** The records of a number, by the numbers of their wire types. */
  lemma NumberLayout(number: nat, s: bytes, n: nat, depth: nat)
    requires 1 <= number < TWO_29
    ensures VarintEnds(s, n) ==>
              SkipField(8 * number, s, depth) ==
                if n <= 10 then Skipped(VarintField(number, Groups(s[..n]) % TWO_64), s[n..]) else Malformed
    ensures SkipField(8 * number + 1, s, depth) ==
              if |s| < 8 then Malformed else Skipped(Fixed64Field(number, FromLittleEndian(s[..8])), s[8..])
    ensures SkipField(8 * number + 5, s, depth) ==
              if |s| < 4 then Malformed else Skipped(Fixed32Field(number, FromLittleEndian(s[..4])), s[4..])
  {
    hide ScanVarint, Groups, VarintEnds, FromLittleEndian, SkipGroup, ReadBytes;
    ReadVarintValue(s, n);
  }

  lemma ChunkValue(s: bytes, n: nat)
    requires VarintEnds(s, n) && n <= 10
    ensures ReadBytes(s) ==
              var len := ToInt32(Groups(s[..n]) % TWO_32);
              if 0 <= len && n + len <= |s| then Chunk(s[n..n + len], s[n + len..]) else NoChunk
  {
    hide ScanVarint, Groups, ToInt32;
    ReadVarintValue(s, n);
    var len := ToInt32(Groups(s[..n]) % TWO_32);
    if 0 <= len && n + len <= |s| {
      SliceOfSlice(s, n, |s|, 0, len);
      assert s[n..] == s[n..|s|] && s[n..][len..] == s[n + len..];
    }
  }

  /** A record of bytes: a length, of which the low 32 bits count as a signed number, and that many bytes. */
  lemma LengthLayout(number: nat, s: bytes, n: nat, depth: nat)
    requires 1 <= number < TWO_29 && VarintEnds(s, n)
    ensures SkipField(8 * number + 2, s, depth) ==
              var len := ToInt32(Groups(s[..n]) % TWO_32);
              if n <= 10 && 0 <= len && n + len <= |s| then Skipped(LengthField(number, s[n..n + len]), s[n + len..])
              else Malformed
  {
    hide ScanVarint, Groups, SkipGroup, FromLittleEndian, ToInt32;
    ReadVarintValue(s, n);
    if n <= 10 {
      ChunkValue(s, n);
    }
  }

  /** There are no other wire types, and the end of a group is no record. */
  lemma NoOtherWireType(number: nat, s: bytes, depth: nat)
    requires 1 <= number < TWO_29
    ensures SkipField(8 * number + 4, s, depth) == Malformed
    ensures SkipField(8 * number + 6, s, depth) == Malformed
    ensures SkipField(8 * number + 7, s, depth) == Malformed
  {
    hide ScanVarint, SkipGroup, FromLittleEndian;
  }

  /** A group consists of the records up to an end tag, and that has to be its own. */
  lemma {:induction false} GroupEnds(fs: seq<Field>, number: nat, end: nat, depth: nat, t: bytes)
    requires AllWellFormed(fs, depth) && 1 <= number < TWO_29 && 1 <= end < TWO_29
    ensures SkipGroup(number, EncodeAll(fs) + Varint(8 * end + 4) + t, depth) ==
              if end == number then Group(fs, t) else NoGroup
    decreases |fs|
  {
    hide Varint, ReadVarint, Encode, SkipField, WellFormed, TagOf;
    var s := EncodeAll(fs) + Varint(8 * end + 4) + t;
    TagRoundTrip(end, 4, t);
    if fs == [] {
      assert s == Varint(8 * end + 4) + t;
    } else {
      hide MakeTag;
      var rest := EncodeAll(fs[1..]) + Varint(8 * end + 4) + t;
      assert s == Encode(fs[0]) + rest;
      FieldRoundTrip(fs[0], depth, rest);
      GroupEnds(fs[1..], number, end, depth, t);
      assert [fs[0]] + fs[1..] == fs;
    }
  }

  /** Wire type 3 opens a group and wire type 4 with the same number closes it. */
  lemma GroupLayout(fs: seq<Field>, number: nat, end: nat, depth: nat, t: bytes)
    requires AllWellFormed(fs, depth) && 1 <= number < TWO_29 && 1 <= end < TWO_29
    ensures SkipField(8 * number + 3, EncodeAll(fs) + Varint(8 * end + 4) + t, depth + 1) ==
              if end == number then Skipped(GroupField(number, fs), t) else Malformed
  {
    hide SkipGroup, EncodeAll, Varint;
    GroupEnds(fs, number, end, depth, t);
  }

  /** A group in a group in a group: `n` groups around an empty one. */
  function Nested(n: nat): Field {
    GroupField(1, if n == 0 then [] else [Nested(n - 1)])
  }

  lemma {:induction false} NestedWellFormed(n: nat, depth: nat)
    ensures WellFormed(Nested(n), depth) <==> n < depth
  {
    if n > 0 && depth > 0 {
      NestedWellFormed(n - 1, depth - 1);
      assert AllWellFormed([Nested(n - 1)][1..], depth - 1);
    }
  }

  lemma NestedBytes(n: nat, t: bytes)
    requires n > 0
    ensures EncodePayload(Nested(n)) + t == Varint(11) + (EncodePayload(Nested(n - 1)) + (Varint(12) + t))
  {
    hide Varint;
    var inner := Nested(n - 1);
    assert EncodeAll([inner]) == Encode(inner) by {
      assert EncodeAll([inner]) == Encode(inner) + EncodeAll([inner][1..]) && [inner][1..] == [];
    }
    assert Encode(inner) == Varint(11) + EncodePayload(inner);
  }

  lemma {:induction false} NestingLimit(n: nat, depth: nat, t: bytes)
    ensures SkipField(11, EncodePayload(Nested(n)) + t, depth).Skipped? <==> n < depth
    decreases n
  {
    hide Varint, ReadVarint, EncodePayload, WellFormed;
    if n < depth {
      NestedWellFormed(n, depth);
      FieldRoundTrip(Nested(n), depth, t);
    } else if depth > 0 {
      var behind := EncodePayload(Nested(n - 1)) + (Varint(12) + t);
      NestingLimit(n - 1, depth - 1, Varint(12) + t);
      NestedBytes(n, t);
      TagRoundTrip(1, START_GROUP, behind);
    }
  }

  // ---- Lists of records ----

  datatype Next =
    | AtEnd
    | ZeroTag(rest: bytes)
    | BadField(tag: uint32)
    | Next(field: Field, rest: bytes)

  /** The next record of a message. A tag that is zero or cannot be read ends the message without ending the input. */
  function NextField(s: bytes): (r: Next)
    ensures r.Next? ==> |r.rest| < |s|
  {
    if s == [] then AtEnd
    else
      match ReadVarint(s)
      case NoScan => ZeroTag(s)
      case Scan(v, rest) =>
        var tag := v % TWO_32;
        if tag == 0 then ZeroTag(rest)
        else
          match SkipField(tag, rest, RECURSION_LIMIT)
          case Malformed => BadField(tag)
          case Skipped(f, rest') => Next(f, rest')
  }

  lemma {:induction false} NextAppend(s: bytes, t: bytes)
    requires NextField(s).Next?
    ensures NextField(s + t) == Next(NextField(s).field, NextField(s).rest + t)
    ensures WellFormed(NextField(s).field, RECURSION_LIMIT)
  {
    hide ScanVarint, SkipField, WellFormed;
    ScanAppend(s, MAX_VARINT_BYTES, t);
    var r := ReadVarint(s);
    SkipAppend(r.value % TWO_32, r.rest, RECURSION_LIMIT, t);
    SkippedIsWellFormed(r.value % TWO_32, r.rest, RECURSION_LIMIT);
  }

  lemma {:induction false} NextRoundTrip(f: Field, t: bytes)
    requires WellFormed(f, RECURSION_LIMIT)
    ensures NextField(Encode(f) + t) == Next(f, t)
  {
    hide ScanVarint, SkipField, WellFormed, Encode, EncodePayload, TagOf, WireType, MakeTag;
    FieldRoundTrip(f, RECURSION_LIMIT, t);
  }

  /** The next record by the numbers: a tag within ten bytes, of which the low 32 bits count. Zero ends the message, and
      so does a tag that is too long; a tag below 8 has the field number zero, which is none. */
  lemma NextByNumbers(s: bytes, n: nat)
    requires VarintEnds(s, n)
    ensures var tag := Groups(s[..n]) % 0x1_0000_0000;
            NextField(s) ==
              if n > 10 then ZeroTag(s)
              else if tag == 0 then ZeroTag(s[n..])
              else if tag < 8 then BadField(tag)
              else
                match SkipField(tag, s[n..], 100)
                case Malformed => BadField(tag)
                case Skipped(f, rest) => Next(f, rest)
  {
    hide ReadVarint, Groups, ReadBytes, SkipGroup;
    ReadVarintValue(s, n);
  }

  /** An unknown record of groups is accepted up to one hundred levels and no more. */
  lemma HundredLevels(n: nat, t: bytes)
    ensures NextField(Encode(Nested(n)) + t).Next? <==> n < 100
  {
    hide Varint, ReadVarint, SkipField, EncodePayload;
    NestingLimit(n, RECURSION_LIMIT, t);
    TagRoundTrip(1, START_GROUP, EncodePayload(Nested(n)) + t);
    assert Encode(Nested(n)) + t == Varint(11) + (EncodePayload(Nested(n)) + t);
  }

  /** The input is a list of whole records and nothing else. */
  predicate Accepted(s: bytes)
    decreases |s|
  {
    match NextField(s)
    case AtEnd => true
    case Next(_, rest) => Accepted(rest)
    case _ => false
  }

  function Fields(s: bytes): seq<Field>
    requires Accepted(s)
    decreases |s|
  {
    match NextField(s)
    case AtEnd => []
    case Next(f, rest) => [f] + Fields(rest)
  }

  lemma EmptyIsAccepted()
    ensures NextField([]) == AtEnd
  {
  }

  lemma OnlyEmptyIsAtEnd(s: bytes)
    ensures NextField(s).AtEnd? <==> s == []
  {
  }

  /** Acceptance and the list of records go through concatenation. */
  lemma {:induction false} FieldsAppend(s: bytes, t: bytes)
    requires Accepted(s)
    ensures Accepted(s + t) == Accepted(t)
    ensures Accepted(t) ==> Fields(s + t) == Fields(s) + Fields(t)
    decreases |s|
  {
    hide NextField;
    if s == [] {
      EmptyIsAccepted();
      assert s + t == t;
    } else if NextField(s).Next? {
      NextAppend(s, t);
      var f, rest := NextField(s).field, NextField(s).rest;
      FieldsAppend(rest, t);
      assert Accepted(rest) && NextField(s + t) == Next(f, rest + t);
      if Accepted(t) {
        Associative([f], Fields(rest), Fields(t));
      }
    } else {
      OnlyEmptyIsAtEnd(s);
    }
  }

  lemma {:induction false} FieldsAreWellFormed(s: bytes)
    requires Accepted(s)
    ensures AllWellFormed(Fields(s), RECURSION_LIMIT)
    decreases |s|
  {
    hide NextField, WellFormed;
    if NextField(s).Next? {
      NextAppend(s, []);
      FieldsAreWellFormed(NextField(s).rest);
      assert Fields(s)[1..] == Fields(NextField(s).rest);
    }
  }

  lemma {:induction false} FieldsRoundTrip(fs: seq<Field>)
    requires AllWellFormed(fs, RECURSION_LIMIT)
    ensures Accepted(EncodeAll(fs)) && Fields(EncodeAll(fs)) == fs
  {
    hide NextField, Encode, WellFormed;
    EmptyIsAccepted();
    if fs != [] {
      NextRoundTrip(fs[0], EncodeAll(fs[1..]));
      FieldsRoundTrip(fs[1..]);
      assert [fs[0]] + fs[1..] == fs;
    }
  }

  lemma {:induction false} EncodeAllAppend(a: seq<Field>, b: seq<Field>)
    ensures EncodeAll(a + b) == EncodeAll(a) + EncodeAll(b)
  {
    hide Encode;
    if a == [] {
      assert a + b == b;
    } else {
      assert (a + b)[1..] == a[1..] + b;
      EncodeAllAppend(a[1..], b);
    }
  }

  lemma {:induction false} AllWellFormedAppend(a: seq<Field>, b: seq<Field>, depth: nat)
    ensures AllWellFormed(a + b, depth) <==> AllWellFormed(a, depth) && AllWellFormed(b, depth)
  {
    hide WellFormed;
    if a == [] {
      assert a + b == b;
    } else {
      assert (a + b)[1..] == a[1..] + b;
      AllWellFormedAppend(a[1..], b, depth);
    }
  }

  // ---- Known fields ----

  /** Reading a tag at `s` gives `tag` and leaves `rest`. Zero stands for the end of the input, a tag that cannot be
      read, and a tag that is zero. */
  predicate TagRead(s: bytes, tag: uint32, rest: bytes) {
    match ReadVarint(s)
    case NoScan => tag == 0 && rest == s
    case Scan(v, r) => tag == v % TWO_32 && rest == r
  }

  /** A varint field is read alike whether it is known or skipped. */
  lemma KnownVarint(number: nat, s: bytes)
    requires 1 <= number < TWO_29
    ensures SkipField(MakeTag(number, 0), s, RECURSION_LIMIT) ==
              match ReadVarint(s) {
                case NoScan => Malformed
                case Scan(v, rest) => Skipped(VarintField(number, v % TWO_64), rest)
              }
  {
    hide ScanVarint;
  }

  lemma KnownString(number: nat, s: bytes)
    requires 1 <= number < TWO_29
    ensures SkipField(MakeTag(number, 2), s, RECURSION_LIMIT) ==
              match ReadBytes(s) {
                case NoChunk => Malformed
                case Chunk(d, rest) => Skipped(LengthField(number, d), rest)
              }
  {
    hide ReadBytes;
  }
}
