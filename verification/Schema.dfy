/** What a Query, Answer or Empty message means, independent of how the generated classes hold it: a value with
    optional fields, the order of its fields on the wire, merging, and parsing as a fold over records.

    One theory serves the three message types of query.proto; `Kind` says which fields a type has. */
module Schema {
  import opened Bytes
  import opened Wire

  datatype Kind = QueryKind | AnswerKind | EmptyKind

  /** `repeated` holds `question` of a Query and `solution` of an Answer. */
  datatype Value = Value(
    id: Option<int64>,
    questioner: Option<bytes>,
    answerer: Option<bytes>,
    repeated: seq<bytes>,
    unknown: seq<Field>)

  const CLEARED: Value := Value(None, None, None, [], [])

  datatype Role = IdRole | QuestionerRole | AnswererRole | RepeatedRole | UnknownRole

  function RepeatedNumber(k: Kind): nat {
    if k == AnswerKind then 4 else 3
  }

  /** Which field of the message a record sets. A known number with another wire type is an unknown record. */
  function RoleOf(k: Kind, f: Field): Role {
    match f
    case VarintField(n, _) => if n == 1 then IdRole else UnknownRole
    case LengthField(n, _) =>
      if n == 2 && k != EmptyKind then QuestionerRole
      else if n == 3 && k == AnswerKind then AnswererRole
      else if n == RepeatedNumber(k) && k != EmptyKind then RepeatedRole
      else UnknownRole
    case _ => UnknownRole
  }

  /** The number that a varint stands for: `int64`, except that Empty keeps the low 32 bits as an `int32`. */
  function IdOf(k: Kind, word: nat): int64 {
    if k == EmptyKind then ToInt32(word % TWO_32) else ToInt64(word % TWO_64)
  }

  function Word(f: Field): nat {
    if f.VarintField? then f.word else 0
  }

  function Data(f: Field): bytes {
    if f.LengthField? then f.data else []
  }

  /** The effect of one record. */
  function Take(k: Kind, m: Value, f: Field): Value {
    match RoleOf(k, f)
    case IdRole => m.(id := Some(IdOf(k, Word(f))))
    case QuestionerRole => m.(questioner := Some(Data(f)))
    case AnswererRole => m.(answerer := Some(Data(f)))
    case RepeatedRole => m.(repeated := m.repeated + [Data(f)])
    case UnknownRole => m.(unknown := m.unknown + [f])
  }

  function TakeAll(k: Kind, m: Value, fs: seq<Field>): Value
    decreases |fs|
  {
    if fs == [] then m else TakeAll(k, Take(k, m, fs[0]), fs[1..])
  }

  function Later<T>(a: Option<T>, b: Option<T>): Option<T> {
    if b.Some? then b else a
  }

  /** `MergeFrom`: the later scalar wins, lists are joined in order. */
  function Merge(a: Value, b: Value): Value {
    Value(
      Later(a.id, b.id),
      Later(a.questioner, b.questioner),
      Later(a.answerer, b.answerer),
      a.repeated + b.repeated,
      a.unknown + b.unknown)
  }

  /** `IsInitialized`: all required fields are there. */
  predicate Initialized(k: Kind, m: Value) {
    k != EmptyKind ==> m.id.Some? && m.questioner.Some? && (k == AnswerKind ==> m.answerer.Some?)
  }

  // ---- Values that a message object can hold and write ----

  predicate ShortString(s: bytes) {
    |s| < TWO_31
  }

  predicate AllShortStrings(ss: seq<bytes>) {
    ss == [] || (ShortString(ss[0]) && AllShortStrings(ss[1..]))
  }

  predicate Writable(m: Value) {
    && (m.questioner.Some? ==> ShortString(m.questioner.value))
    && (m.answerer.Some? ==> ShortString(m.answerer.value))
    && AllShortStrings(m.repeated)
  }

  predicate AllUnknown(k: Kind, fs: seq<Field>) {
    fs == [] || (RoleOf(k, fs[0]) == UnknownRole && AllUnknown(k, fs[1..]))
  }

  predicate IdFits(k: Kind, id: int64) {
    k == EmptyKind ==> -TWO_31 <= id < TWO_31
  }

  /** The fields are those of the type, in range, and no unknown record could be taken for a known field. */
  predicate Fits(k: Kind, m: Value) {
    && (m.id.Some? ==> IdFits(k, m.id.value))
    && (m.questioner.Some? ==> k != EmptyKind && ShortString(m.questioner.value))
    && (m.answerer.Some? ==> k == AnswerKind && ShortString(m.answerer.value))
    && (m.repeated != [] ==> k != EmptyKind)
    && AllShortStrings(m.repeated)
    && AllWellFormed(m.unknown, RECURSION_LIMIT)
    && AllUnknown(k, m.unknown)
  }

  // ---- Serialization ----

  function IdFields(id: Option<int64>): seq<Field> {
    match id
    case None => []
    case Some(v) => [VarintField(1, ToUint64(v))]
  }

  function StringFields(number: nat, s: Option<bytes>): seq<Field> {
    match s
    case None => []
    case Some(d) => [LengthField(number, d)]
  }

  function RepeatedFields(number: nat, ss: seq<bytes>): seq<Field> {
    if ss == [] then [] else [LengthField(number, ss[0])] + RepeatedFields(number, ss[1..])
  }

  /** The records of a message in the order in which both serializers write them. */
  function ToFields(k: Kind, m: Value): seq<Field> {
    IdFields(m.id) + StringFields(2, m.questioner) + StringFields(3, m.answerer)
    + RepeatedFields(RepeatedNumber(k), m.repeated) + m.unknown
  }

  function Serialize(k: Kind, m: Value): bytes {
    EncodeAll(ToFields(k, m))
  }

  // ---- Parsing ----

  /** Parsing into a cleared message, up to the end of the input. */
  function Parse(k: Kind, s: bytes): Option<Value> {
    if Accepted(s) then Some(TakeAll(k, CLEARED, Fields(s))) else None
  }

  datatype Outcome =
    | Finished(value: Value)
    | Stopped(value: Value, rest: bytes)
    | Failed(value: Value, tag: nat)

  function OrElse<T>(a: Option<T>, default: T): Option<T> {
    if a.Some? then a else Some(default)
  }

  /** Parsing into whatever a message already holds: what every input does, accepted or not. `Failed` has the message
      before the field that could not be read, and the tag of that field. */
  function MergeBytes(k: Kind, m: Value, s: bytes): Outcome
    decreases |s|
  {
    match NextField(s)
    case AtEnd => Finished(m)
    case ZeroTag(rest) => Stopped(m, rest)
    case BadField(tag) => Failed(m, tag)
    case Next(f, rest) => MergeBytes(k, Take(k, m, f), rest)
  }

  predicate KnownTag(k: Kind, tag: nat) {
    tag == 8 || (k != EmptyKind && (tag == 18 || tag == 26)) || (k == AnswerKind && tag == 34)
  }

  /** A known field is marked as present, or added, before its content is read, and remains so when reading fails.
      What text or what unknown records the failed read itself leaves is open. */
  predicate Touched(k: Kind, before: Value, after: Value, tag: nat) {
    if tag == 8 then
      after == before.(id := OrElse(before.id, 0))
    else if tag == 18 && k != EmptyKind then
      after.questioner.Some? && after == before.(questioner := after.questioner)
    else if tag == 26 && k == AnswerKind then
      after.answerer.Some? && after == before.(answerer := after.answerer)
    else if tag == MakeTag(RepeatedNumber(k), 2) && k != EmptyKind then
      |after.repeated| == |before.repeated| + 1 && after == before.(repeated := after.repeated)
      && before.repeated <= after.repeated
    else
      before.unknown <= after.unknown && after == before.(unknown := after.unknown)
  }

  /** How a parser ends that should come to the outcome `o`: whether it succeeds, whether it is at the end of its
      input, the message it leaves and the bytes it has not read. */
  predicate Ends(k: Kind, o: Outcome, ok: bool, atEnd: bool, m: Value, rest: bytes) {
    match o
    case Finished(v) => ok && atEnd && m == v
    case Stopped(v, r) => ok && !atEnd && m == v && rest == r
    case Failed(v, tag) => !ok && Touched(k, v, m, tag)
  }

  // ---- Folding ----

  lemma {:induction false} TakeAllAppend(k: Kind, m: Value, a: seq<Field>, b: seq<Field>)
    ensures TakeAll(k, m, a + b) == TakeAll(k, TakeAll(k, m, a), b)
    decreases |a|
  {
    hide Take;
    if a == [] {
      assert a + b == b;
    } else {
      assert (a + b)[1..] == a[1..] + b;
      TakeAllAppend(k, Take(k, m, a[0]), a[1..], b);
    }
  }

  lemma {:induction false} TakeAfterMerge(k: Kind, a: Value, b: Value, f: Field)
    ensures Take(k, Merge(a, b), f) == Merge(a, Take(k, b, f))
  {
    hide RoleOf, IdOf, Word, Data;
  }

  /** Taking records into a merged message is merging the records taken separately. */
  lemma {:induction false} TakeAllAfterMerge(k: Kind, a: Value, b: Value, fs: seq<Field>)
    ensures TakeAll(k, Merge(a, b), fs) == Merge(a, TakeAll(k, b, fs))
    decreases |fs|
  {
    hide Take, Merge;
    if fs != [] {
      TakeAfterMerge(k, a, b, fs[0]);
      TakeAllAfterMerge(k, a, Take(k, b, fs[0]), fs[1..]);
    }
  }

  /** The cleared message is an identity of merging, on either side. */
  lemma {:induction false} MergeIdentity(m: Value)
    ensures Merge(m, CLEARED) == m && Merge(CLEARED, m) == m
  {
    assert m.repeated + [] == m.repeated && [] + m.repeated == m.repeated;
    assert m.unknown + [] == m.unknown && [] + m.unknown == m.unknown;
  }

  lemma {:induction false} MergeAssociative(a: Value, b: Value, c: Value)
    ensures Merge(Merge(a, b), c) == Merge(a, Merge(b, c))
  {
    assert a.repeated + b.repeated + c.repeated == a.repeated + (b.repeated + c.repeated);
    assert a.unknown + b.unknown + c.unknown == a.unknown + (b.unknown + c.unknown);
  }

  /** Initialization of a merge: exactly when every required field is in one of the two. */
  lemma InitializedMerge(k: Kind, a: Value, b: Value)
    ensures Initialized(k, Merge(a, b)) <==>
              k == EmptyKind ||
              (&& (a.id.Some? || b.id.Some?)
               && (a.questioner.Some? || b.questioner.Some?)
               && (k == AnswerKind ==> a.answerer.Some? || b.answerer.Some?))
  {
  }

  lemma {:induction false} TakeRepeated(k: Kind, m: Value, ss: seq<bytes>)
    requires k != EmptyKind
    ensures TakeAll(k, m, RepeatedFields(RepeatedNumber(k), ss)) == m.(repeated := m.repeated + ss)
    decreases |ss|
  {
    hide IdOf;
    if ss == [] {
      assert m.repeated + ss == m.repeated;
    } else {
      var fs := RepeatedFields(RepeatedNumber(k), ss);
      var m' := m.(repeated := m.repeated + [ss[0]]);
      assert Take(k, m, fs[0]) == m';
      assert fs[1..] == RepeatedFields(RepeatedNumber(k), ss[1..]);
      TakeRepeated(k, m', ss[1..]);
      assert m.repeated + ss == m'.repeated + ss[1..];
    }
  }

  lemma {:induction false} TakeUnknown(k: Kind, m: Value, fs: seq<Field>)
    requires AllUnknown(k, fs)
    ensures TakeAll(k, m, fs) == m.(unknown := m.unknown + fs)
    decreases |fs|
  {
    hide RoleOf;
    if fs == [] {
      assert m.unknown + fs == m.unknown;
    } else {
      var m' := m.(unknown := m.unknown + [fs[0]]);
      TakeUnknown(k, m', fs[1..]);
      assert m.unknown + fs == m'.unknown + fs[1..];
    }
  }

  lemma IdRoundTrip(k: Kind, id: int64)
    requires IdFits(k, id)
    ensures IdOf(k, ToUint64(id)) == id
  {
  }

  lemma TakeScalars(k: Kind, m: Value, n: Value)
    requires Fits(k, n)
    ensures TakeAll(k, m, IdFields(n.id)) == m.(id := Later(m.id, n.id))
    ensures TakeAll(k, m, StringFields(2, n.questioner)) == m.(questioner := Later(m.questioner, n.questioner))
    ensures TakeAll(k, m, StringFields(3, n.answerer)) == m.(answerer := Later(m.answerer, n.answerer))
  {
    hide IdOf, AllWellFormed, AllUnknown, AllShortStrings;
    if n.id.Some? {
      IdRoundTrip(k, n.id.value);
    }
  }

  lemma TakeNoneOrRepeated(k: Kind, m: Value, n: Value)
    requires Fits(k, n)
    ensures TakeAll(k, m, RepeatedFields(RepeatedNumber(k), n.repeated)) == m.(repeated := m.repeated + n.repeated)
  {
    hide AllWellFormed, AllUnknown, AllShortStrings;
    if k == EmptyKind {
      assert m.repeated + n.repeated == m.repeated;
    } else {
      TakeRepeated(k, m, n.repeated);
    }
  }

  /** Reading the records of `n` into `m` is merging `n` into `m`. */
  lemma TakeOwnFields(k: Kind, m: Value, n: Value)
    requires Fits(k, n)
    ensures TakeAll(k, m, ToFields(k, n)) == Merge(m, n)
  {
    hide TakeAll, IdFields, StringFields, RepeatedFields;
    var a := m.(id := Later(m.id, n.id));
    var b := a.(questioner := Later(m.questioner, n.questioner));
    var c := b.(answerer := Later(m.answerer, n.answerer));
    var d := c.(repeated := m.repeated + n.repeated);
    var ids, qs, as_ := IdFields(n.id), StringFields(2, n.questioner), StringFields(3, n.answerer);
    var rs := RepeatedFields(RepeatedNumber(k), n.repeated);
    TakeAllAppend(k, m, ids + qs + as_ + rs, n.unknown);
    TakeAllAppend(k, m, ids + qs + as_, rs);
    TakeAllAppend(k, m, ids + qs, as_);
    TakeAllAppend(k, m, ids, qs);
    TakeScalars(k, m, n);
    TakeScalars(k, a, n);
    TakeScalars(k, b, n);
    TakeNoneOrRepeated(k, c, n);
    TakeUnknown(k, d, n.unknown);
  }

  // ---- The records of a message are well-formed, and records make messages that fit ----

  lemma {:induction false} RepeatedFieldsAreWellFormed(number: nat, ss: seq<bytes>)
    requires 1 <= number <= 4 && AllShortStrings(ss)
    ensures AllWellFormed(RepeatedFields(number, ss), RECURSION_LIMIT)
  {
    if ss != [] {
      RepeatedFieldsAreWellFormed(number, ss[1..]);
      assert RepeatedFields(number, ss)[1..] == RepeatedFields(number, ss[1..]);
    }
  }

  lemma ToFieldsAreWellFormed(k: Kind, m: Value)
    requires Fits(k, m)
    ensures AllWellFormed(ToFields(k, m), RECURSION_LIMIT)
  {
    hide AllUnknown, AllShortStrings, RepeatedFields;
    var ids, qs, as_ := IdFields(m.id), StringFields(2, m.questioner), StringFields(3, m.answerer);
    var rs := RepeatedFields(RepeatedNumber(k), m.repeated);
    RepeatedFieldsAreWellFormed(RepeatedNumber(k), m.repeated);
    AllWellFormedAppend(ids, qs, RECURSION_LIMIT);
    AllWellFormedAppend(ids + qs, as_, RECURSION_LIMIT);
    AllWellFormedAppend(ids + qs + as_, rs, RECURSION_LIMIT);
    AllWellFormedAppend(ids + qs + as_ + rs, m.unknown, RECURSION_LIMIT);
  }

  lemma {:induction false} AllShortStringsAppend(a: seq<bytes>, b: seq<bytes>)
    ensures AllShortStrings(a + b) <==> AllShortStrings(a) && AllShortStrings(b)
  {
    if a == [] {
      assert a + b == b;
    } else {
      assert (a + b)[1..] == a[1..] + b;
      AllShortStringsAppend(a[1..], b);
    }
  }

  lemma {:induction false} AllUnknownAppend(k: Kind, a: seq<Field>, b: seq<Field>)
    ensures AllUnknown(k, a + b) <==> AllUnknown(k, a) && AllUnknown(k, b)
  {
    hide RoleOf;
    if a == [] {
      assert a + b == b;
    } else {
      assert (a + b)[1..] == a[1..] + b;
      AllUnknownAppend(k, a[1..], b);
    }
  }

  lemma MergeFits(k: Kind, a: Value, b: Value)
    requires Fits(k, a) && Fits(k, b)
    ensures Fits(k, Merge(a, b))
  {
    hide AllUnknown, AllShortStrings, AllWellFormed;
    AllShortStringsAppend(a.repeated, b.repeated);
    AllUnknownAppend(k, a.unknown, b.unknown);
    AllWellFormedAppend(a.unknown, b.unknown, RECURSION_LIMIT);
  }

  lemma Singletons(k: Kind, f: Field)
    ensures AllShortStrings([Data(f)]) <==> ShortString(Data(f))
    ensures AllUnknown(k, [f]) <==> RoleOf(k, f) == UnknownRole
    ensures AllWellFormed([f], RECURSION_LIMIT) <==> WellFormed(f, RECURSION_LIMIT)
  {
    hide RoleOf, WellFormed, ShortString;
    assert [Data(f)][1..] == [] && [f][1..] == [];
  }

  lemma TakeFits(k: Kind, m: Value, f: Field)
    requires Fits(k, m) && WellFormed(f, RECURSION_LIMIT)
    ensures Fits(k, Take(k, m, f))
  {
    hide AllUnknown, AllShortStrings, AllWellFormed;
    AllShortStringsAppend(m.repeated, [Data(f)]);
    AllUnknownAppend(k, m.unknown, [f]);
    AllWellFormedAppend(m.unknown, [f], RECURSION_LIMIT);
    Singletons(k, f);
  }

  lemma {:induction false} TakeAllFits(k: Kind, m: Value, fs: seq<Field>)
    requires Fits(k, m) && AllWellFormed(fs, RECURSION_LIMIT)
    ensures Fits(k, TakeAll(k, m, fs))
    decreases |fs|
  {
    hide Fits, Take, WellFormed;
    if fs != [] {
      TakeFits(k, m, fs[0]);
      TakeAllFits(k, Take(k, m, fs[0]), fs[1..]);
    }
  }

  // ---- Main results ----

  /** Every accepted input gives a message that fits its type and can be written again. */
  lemma ParseFits(k: Kind, s: bytes)
    requires Parse(k, s).Some?
    ensures Fits(k, Parse(k, s).value)
  {
    hide TakeAll, Accepted, Fields;
    FieldsAreWellFormed(s);
    TakeAllFits(k, CLEARED, Fields(s));
  }

  /** Parsing turns concatenation of inputs into merging of messages, whatever the inputs look like. */
  lemma ParseConcatenation(k: Kind, s: bytes, t: bytes)
    requires Parse(k, s).Some?
    ensures Parse(k, s + t) ==
              match Parse(k, t) { case None => None case Some(n) => Some(Merge(Parse(k, s).value, n)) }
  {
    hide TakeAll, Accepted, Fields, Merge;
    FieldsAppend(s, t);
    if Accepted(t) {
      var m := TakeAll(k, CLEARED, Fields(s));
      TakeAllAppend(k, CLEARED, Fields(s), Fields(t));
      MergeIdentity(m);
      TakeAllAfterMerge(k, m, CLEARED, Fields(t));
    }
  }

  /** Writing a message and parsing it restores every field, presence, list element and unknown record. */
  lemma RoundTrip(k: Kind, m: Value)
    requires Fits(k, m)
    ensures Parse(k, Serialize(k, m)) == Some(m)
  {
    hide TakeAll, Accepted, Fields, Merge, ToFields, Fits;
    ToFieldsAreWellFormed(k, m);
    FieldsRoundTrip(ToFields(k, m));
    TakeOwnFields(k, CLEARED, m);
    MergeIdentity(m);
  }

  /** Two written messages put one after the other parse as the first with the second merged into it. */
  lemma MergeHomomorphism(k: Kind, a: Value, b: Value)
    requires Fits(k, a) && Fits(k, b)
    ensures Parse(k, Serialize(k, a) + Serialize(k, b)) == Some(Merge(a, b))
  {
    hide Parse, Serialize, Merge, Fits;
    RoundTrip(k, a);
    RoundTrip(k, b);
    ParseConcatenation(k, Serialize(k, a), Serialize(k, b));
  }

  /** Whatever was accepted, with fields out of order, doubled, of another wire type, unknown or not minimally
      encoded: writing the message and parsing again gives the same message. */
  lemma Normalisation(k: Kind, s: bytes)
    requires Parse(k, s).Some?
    ensures Parse(k, Serialize(k, Parse(k, s).value)) == Parse(k, s)
  {
    hide Parse, Serialize, Fits;
    ParseFits(k, s);
    RoundTrip(k, Parse(k, s).value);
  }

  /** Different messages are written differently. */
  lemma SerializeInjective(k: Kind, a: Value, b: Value)
    requires Fits(k, a) && Fits(k, b) && Serialize(k, a) == Serialize(k, b)
    ensures a == b
  {
    hide Parse, Serialize, Fits;
    RoundTrip(k, a);
    RoundTrip(k, b);
  }

  /** Parsing into a message is merging what a cleared message would have received; it finishes at the end of the
      input exactly on the accepted inputs. */
  lemma {:induction false} MergeBytesIsMerge(k: Kind, m: Value, s: bytes)
    ensures MergeBytes(k, m, s).Finished? <==> Accepted(s)
    ensures Accepted(s) ==> MergeBytes(k, m, s) == Finished(TakeAll(k, m, Fields(s)))
    ensures Accepted(s) ==> MergeBytes(k, m, s) == Finished(Merge(m, Parse(k, s).value))
    decreases |s|
  {
    hide NextField, Take, Merge;
    if NextField(s).Next? {
      MergeBytesIsMerge(k, Take(k, m, NextField(s).field), NextField(s).rest);
    }
    if Accepted(s) {
      MergeIdentity(m);
      TakeAllAfterMerge(k, m, CLEARED, Fields(s));
    }
  }

  lemma ParseSome(k: Kind, s: bytes)
    ensures Parse(k, s).Some? <==> Accepted(s)
  {
    hide TakeAll, Accepted, Fields;
  }

  /** Reading what another message wrote, into a message that may already hold something, is merging. */
  lemma ReadingBack(k: Kind, m: Value, n: Value)
    requires Fits(k, n)
    ensures MergeBytes(k, m, Serialize(k, n)) == Finished(Merge(m, n))
    ensures MergeBytes(k, CLEARED, Serialize(k, n)) == Finished(n)
  {
    hide Parse, Serialize, Merge, MergeBytes, Fits;
    RoundTrip(k, n);
    ParseSome(k, Serialize(k, n));
    MergeBytesIsMerge(k, m, Serialize(k, n));
    MergeBytesIsMerge(k, CLEARED, Serialize(k, n));
    MergeIdentity(n);
  }

  /** No input, accepted or not, leaves a message that could not be written, except for what a failed read left. */
  lemma {:induction false} MergeBytesFits(k: Kind, m: Value, s: bytes)
    requires Fits(k, m)
    ensures Fits(k, MergeBytes(k, m, s).value)
    decreases |s|
  {
    hide NextField, Take, Fits;
    match NextField(s)
    case Next(f, rest) =>
      NextAppend(s, []);
      TakeFits(k, m, f);
      MergeBytesFits(k, Take(k, m, f), rest);
    case _ =>
  }

  /** After a known field that could not be read, the message can be written if and only if no string is too long. */
  lemma TouchedFits(k: Kind, m: Value, n: Value, tag: nat)
    requires Fits(k, m) && KnownTag(k, tag) && Touched(k, m, n, tag)
    ensures Fits(k, n) <==> Writable(n)
  {
    hide AllUnknown, AllShortStrings, AllWellFormed;
  }

  // ---- One turn of the parse loop ----

  lemma NothingToScan()
    ensures ReadVarint([]) == NoScan
  {
  }

  lemma Turn(k: Kind, m: Value, s: bytes, tag: uint32, rest: bytes)
    requires TagRead(s, tag, rest)
    ensures tag == 0 ==> MergeBytes(k, m, s) == if s == [] then Finished(m) else Stopped(m, rest)
    ensures tag != 0 ==> |rest| < |s|
    ensures tag != 0 && SkipField(tag, rest, RECURSION_LIMIT).Malformed? ==>
              MergeBytes(k, m, s) == Failed(m, tag)
    ensures tag != 0 && SkipField(tag, rest, RECURSION_LIMIT).Skipped? ==>
              var r := SkipField(tag, rest, RECURSION_LIMIT);
              MergeBytes(k, m, s) == MergeBytes(k, Take(k, m, r.field), r.rest)
  {
    hide ScanVarint, SkipField, Take;
    if s == [] {
      NothingToScan();
    }
  }

  /** The tags that the switch of a parse loop does not know are exactly those of unknown records. */
  lemma UnknownTag(k: Kind, m: Value, f: Field)
    ensures KnownTag(k, TagOf(f)) <==> RoleOf(k, f) != UnknownRole
    ensures !KnownTag(k, TagOf(f)) ==> Take(k, m, f) == m.(unknown := m.unknown + [f])
  {
  }

  lemma TouchedUnknown(k: Kind, m: Value, fs: seq<Field>, tag: nat)
    ensures !KnownTag(k, tag) ==> Touched(k, m, m.(unknown := m.unknown + fs), tag)
  {
  }

  lemma TouchedKnown(k: Kind, m: Value, d: bytes)
    ensures Touched(k, m, m.(id := OrElse(m.id, 0)), 8)
    ensures k != EmptyKind ==> Touched(k, m, m.(questioner := Some(d)), 18)
    ensures k == QueryKind ==> Touched(k, m, m.(repeated := m.repeated + [d]), 26)
    ensures k == AnswerKind ==> Touched(k, m, m.(answerer := Some(d)), 26)
    ensures k == AnswerKind ==> Touched(k, m, m.(repeated := m.repeated + [d]), 34)
  {
  }

  lemma TakeKnown(k: Kind, m: Value, word: nat, d: bytes)
    ensures Take(k, m, VarintField(1, word)) == m.(id := Some(IdOf(k, word)))
    ensures k != EmptyKind ==> Take(k, m, LengthField(2, d)) == m.(questioner := Some(d))
    ensures k == QueryKind ==> Take(k, m, LengthField(3, d)) == m.(repeated := m.repeated + [d])
    ensures k == AnswerKind ==> Take(k, m, LengthField(3, d)) == m.(answerer := Some(d))
    ensures k == AnswerKind ==> Take(k, m, LengthField(4, d)) == m.(repeated := m.repeated + [d])
  {
  }

  lemma SameRemainder(v: nat, q: nat, r: nat)
    requires v == TWO_32 * q + r && r < TWO_32
    ensures v % TWO_32 == r
  {
  }

  /** An `int32` is read from the low 32 bits of the word, whether the word was cut to 64 bits first or not. */
  lemma IdOfWord(k: Kind, v: nat)
    ensures IdOf(k, v % TWO_64) == if k == EmptyKind then ToInt32(v % TWO_32) else ToInt64(v % TWO_64)
  {
    assert v == TWO_64 * (v / TWO_64) + v % TWO_64;
    assert v % TWO_64 == TWO_32 * (v % TWO_64 / TWO_32) + v % TWO_64 % TWO_32;
    SameRemainder(v, TWO_32 * (v / TWO_64) + v % TWO_64 / TWO_32, v % TWO_64 % TWO_32);
  }

  // ---- The order of writing ----

  lemma {:induction false} ShortAt(ss: seq<bytes>, i: nat)
    requires AllShortStrings(ss) && i < |ss|
    ensures ShortString(ss[i])
  {
    if i > 0 { ShortAt(ss[1..], i - 1); }
  }

  function IdBytes(id: Option<int64>): bytes {
    if id.Some? then Encode(VarintField(1, ToUint64(id.value))) else []
  }

  function StringBytes(number: nat, s: Option<bytes>): bytes {
    if s.Some? then Encode(LengthField(number, s.value)) else []
  }

  function RepeatedBytes(number: nat, ss: seq<bytes>): bytes {
    EncodeAll(RepeatedFields(number, ss))
  }

  /** The parts of a message that the serializers write one by one. */
  function Part(k: Kind, m: Value, j: nat): bytes {
    match j
    case 0 => IdBytes(m.id)
    case 1 => StringBytes(2, m.questioner)
    case 2 => StringBytes(3, m.answerer)
    case 3 => RepeatedBytes(RepeatedNumber(k), m.repeated)
    case _ => EncodeAll(m.unknown)
  }

  function Parts(k: Kind, m: Value, j: nat): bytes {
    if j == 0 then [] else Parts(k, m, j - 1) + Part(k, m, j - 1)
  }

  lemma PartValues(k: Kind, m: Value)
    ensures Part(k, m, 0) == if m.id.Some? then Encode(VarintField(1, ToUint64(m.id.value))) else []
    ensures Part(k, m, 1) == if m.questioner.Some? then Encode(LengthField(2, m.questioner.value)) else []
    ensures Part(k, m, 2) == if m.answerer.Some? then Encode(LengthField(3, m.answerer.value)) else []
    ensures Part(k, m, 3) == RepeatedBytes(RepeatedNumber(k), m.repeated)
    ensures Part(k, m, 4) == EncodeAll(m.unknown)
  {
    hide Encode, RepeatedBytes, EncodeAll;
  }

  lemma EncodeOne(f: Field)
    ensures EncodeAll([f]) == Encode(f)
  {
    hide Encode;
    assert EncodeAll([f]) == Encode(f) + EncodeAll([f][1..]) && [f][1..] == [];
  }

  lemma ScalarParts(id: Option<int64>, number: nat, s: Option<bytes>)
    ensures EncodeAll(IdFields(id)) == IdBytes(id)
    ensures EncodeAll(StringFields(number, s)) == StringBytes(number, s)
  {
    hide Encode;
    EncodeOne(VarintField(1, if id.Some? then ToUint64(id.value) else 0));
    EncodeOne(LengthField(number, if s.Some? then s.value else []));
  }

  /** A serialization consists of the five parts in order. */
  lemma PartsAreAll(k: Kind, m: Value)
    ensures Serialize(k, m) == Parts(k, m, 5)
  {
    hide IdFields, StringFields, RepeatedFields, EncodeAll, IdBytes, StringBytes;
    var ids, qs, as_ := IdFields(m.id), StringFields(2, m.questioner), StringFields(3, m.answerer);
    var rs := RepeatedFields(RepeatedNumber(k), m.repeated);
    EncodeAllAppend(ids, qs);
    EncodeAllAppend(ids + qs, as_);
    EncodeAllAppend(ids + qs + as_, rs);
    EncodeAllAppend(ids + qs + as_ + rs, m.unknown);
    ScalarParts(m.id, 2, m.questioner);
    ScalarParts(m.id, 3, m.answerer);
    assert Parts(k, m, 1) == [] + IdBytes(m.id) == IdBytes(m.id);
    assert Parts(k, m, 3) == Parts(k, m, 2) + Part(k, m, 2);
  }

  /** Strings as they stand in a message: each behind `tag` and its length. */
  function Tagged(tag: byte, ss: seq<bytes>): bytes {
    if ss == [] then [] else [tag] + Varint(|ss[0]|) + ss[0] + Tagged(tag, ss[1..])
  }

  lemma NothingRepeated(number: nat)
    ensures RepeatedBytes(number, []) == []
  {
  }

  lemma RepeatedFirst(number: nat, ss: seq<bytes>)
    requires ss != []
    ensures RepeatedBytes(number, ss) == Encode(LengthField(number, ss[0])) + RepeatedBytes(number, ss[1..])
  {
    hide Encode;
    var fs := RepeatedFields(number, ss);
    assert fs[1..] == RepeatedFields(number, ss[1..]);
  }

  lemma OneByteVarint(v: nat)
    requires v < 0x80
    ensures Varint(v) == [v]
  {
  }

  lemma StringOnTheWire(number: nat, s: bytes)
    requires number < 16
    ensures Encode(LengthField(number, s)) == [8 * number + 2] + Varint(|s|) + s
  {
    hide Varint;
    OneByteVarint(8 * number + 2);
    Associative([8 * number + 2], Varint(|s|), s);
  }

  lemma {:induction false} RepeatedTagged(number: nat, ss: seq<bytes>)
    requires number < 16
    ensures RepeatedBytes(number, ss) == Tagged(8 * number + 2, ss)
  {
    hide RepeatedBytes;
    NothingRepeated(number);
    if ss != [] {
      RepeatedFirst(number, ss);
      StringOnTheWire(number, ss[0]);
      RepeatedTagged(number, ss[1..]);
    }
  }

  lemma NumberOnTheWire(word: nat)
    ensures Encode(VarintField(1, word)) == [0x08] + Varint(word)
  {
    OneByteVarint(8);
  }

  lemma OneTagged(number: nat, s: bytes)
    requires number < 16
    ensures Encode(LengthField(number, s)) == Tagged(8 * number + 2, [s])
  {
    hide Encode, Varint;
    StringOnTheWire(number, s);
    assert [s][1..] == [];
  }

  lemma FiveParts(k: Kind, m: Value)
    ensures Parts(k, m, 5) == Part(k, m, 0) + Part(k, m, 1) + Part(k, m, 2) + Part(k, m, 3) + Part(k, m, 4)
  {
    hide Part;
    assert Parts(k, m, 1) == [] + Part(k, m, 0) == Part(k, m, 0);
    assert Parts(k, m, 3) == Parts(k, m, 2) + Part(k, m, 2);
  }

  /** The bytes of a message by the numbers of the tags: id 08, questioner 12, the string or strings of field 3 1A, the
      solutions of an Answer 22, and behind them the unknown records. */
  lemma WireLayout(k: Kind, m: Value)
    ensures Serialize(k, m) ==
              (if m.id.Some? then [0x08] + Varint(ToUint64(m.id.value)) else [])
              + (if m.questioner.Some? then Tagged(0x12, [m.questioner.value]) else [])
              + (if m.answerer.Some? then Tagged(0x1A, [m.answerer.value]) else [])
              + Tagged(if k == AnswerKind then 0x22 else 0x1A, m.repeated)
              + EncodeAll(m.unknown)
  {
    hide RepeatedBytes, Encode, Varint, EncodeAll, Serialize;
    PartsAreAll(k, m);
    PartValues(k, m);
    RepeatedTagged(RepeatedNumber(k), m.repeated);
    if m.id.Some? {
      NumberOnTheWire(ToUint64(m.id.value));
    }
    if m.questioner.Some? {
      OneTagged(2, m.questioner.value);
    }
    if m.answerer.Some? {
      OneTagged(3, m.answerer.value);
    }
    FiveParts(k, m);
  }

  lemma VarintOfEight(s: bytes)
    ensures ReadVarint([0x08] + s) == Scan(8, s)
  {
    assert ([0x08] + s)[1..] == s;
  }

  lemma NothingBehind()
    ensures Accepted([]) && Fields([]) == []
  {
    hide ScanVarint, SkipField;
  }

  lemma OneRecord(s: bytes, f: Field)
    requires NextField(s) == Next(f, [])
    ensures Accepted(s) && Fields(s) == [f]
  {
    hide NextField;
    NothingBehind();
  }

  /** Reading the bytes of an id, minimal or not: the number of its groups of seven bits, as a 64-bit or, in Empty, a
      32-bit signed number. */
  lemma ReadsId(k: Kind, s: bytes)
    requires VarintEnds(s, |s|) && |s| <= 10
    ensures var id := if k == EmptyKind then ToInt32(Groups(s) % TWO_32) else ToInt64(Groups(s) % TWO_64);
            Parse(k, [0x08] + s) == Some(CLEARED.(id := Some(id)))
  {
    hide Groups, ScanVarint, SkipField, Accepted, Fields;
    assert s[..|s|] == s && s[|s|..] == [];
    NumberLayout(1, s, |s|, RECURSION_LIMIT);
    VarintOfEight(s);
    NothingBehind();
    var f := VarintField(1, Groups(s) % TWO_64);
    assert SkipField(8, s, RECURSION_LIMIT) == Skipped(f, []);
    assert NextField([0x08] + s) == Next(f, []);
    OneRecord([0x08] + s, f);
    assert TakeAll(k, CLEARED, [f]) == Take(k, CLEARED, f);
    IdOfWord(k, Groups(s));
    assert [f][1..] == [];
  }

  lemma PartSizes(k: Kind, m: Value)
    ensures Parts(k, m, 0) == []
    ensures |Parts(k, m, 1)| == |Part(k, m, 0)|
    ensures |Parts(k, m, 2)| == |Parts(k, m, 1)| + |Part(k, m, 1)|
    ensures |Parts(k, m, 3)| == |Parts(k, m, 2)| + |Part(k, m, 2)|
    ensures |Parts(k, m, 4)| == |Parts(k, m, 3)| + |Part(k, m, 3)|
    ensures |Serialize(k, m)| == |Parts(k, m, 4)| + |Part(k, m, 4)|
  {
    hide Part, Serialize;
    PartsAreAll(k, m);
    assert Parts(k, m, 3) == Parts(k, m, 2) + Part(k, m, 2);
  }

  lemma {:induction false} RepeatedCut(number: nat, ss: seq<bytes>, i: nat)
    requires i <= |ss|
    ensures RepeatedBytes(number, ss) == RepeatedBytes(number, ss[..i]) + RepeatedBytes(number, ss[i..])
  {
    hide RepeatedBytes, Encode;
    NothingRepeated(number);
    if i == 0 {
      assert ss[..i] == [] && ss[i..] == ss;
    } else {
      RepeatedCut(number, ss[1..], i - 1);
      assert ss[..i][1..] == ss[1..][..i - 1] && ss[i..] == ss[1..][i - 1..];
      RepeatedFirst(number, ss);
      RepeatedFirst(number, ss[..i]);
    }
  }

  /** One turn of a loop that writes a list of strings. */
  lemma RepeatedTurn(number: nat, ss: seq<bytes>, i: nat)
    requires i < |ss|
    ensures RepeatedBytes(number, ss[..i + 1]) == RepeatedBytes(number, ss[..i]) + Encode(LengthField(number, ss[i]))
    ensures |RepeatedBytes(number, ss[..i + 1])| <= |RepeatedBytes(number, ss)|
  {
    hide RepeatedBytes, Encode;
    RepeatedCut(number, ss, i + 1);
    RepeatedCut(number, ss[..i + 1], i);
    assert ss[..i + 1][..i] == ss[..i] && ss[..i + 1][i..] == [ss[i]];
    RepeatedFirst(number, [ss[i]]);
    var none: seq<bytes> := [];
    assert [ss[i]][1..] == none;
    NothingRepeated(number);
  }

  // ---- Sizes ----

  /** `StringSize`: the length prefix and the bytes. */
  function StringSize(s: bytes): nat {
    VarintSize(|s|) + |s|
  }

  /** `Int64Size`. */
  function Int64Size(v: int64): nat {
    VarintSize(ToUint64(v))
  }

  /** `Int32Size`: a negative number is sign-extended to ten bytes. */
  function Int32Size(v: int32): nat {
    if v < 0 then 10 else VarintSize(v)
  }

  lemma {:induction false} LongVarint(v: nat, n: nat)
    requires n > 0 && Pow128(n - 1) <= v < Pow128(n)
    ensures VarintSize(v) == n
    decreases n
  {
    if n > 1 {
      assert Pow128(n - 1) == 0x80 * Pow128(n - 2);
      LongVarint(v / 0x80, n - 1);
    } else {
      assert Pow128(1) == 0x80 && Pow128(0) == 1;
    }
  }

  lemma Int32SizeIsInt64Size(v: int32)
    ensures Int32Size(v) == Int64Size(v)
  {
    if v < 0 {
      TenBytesHoldAnyWord();
      assert 0x80 * Pow128(9) == Pow128(10);
      LongVarint(ToUint64(v), 10);
    }
  }

  lemma OneByteTag(number: nat, wireType: nat)
    requires number <= 4 && wireType < 8
    ensures |Varint(MakeTag(number, wireType))| == 1
  {
  }

  /** Sizes of the records of known fields: one byte of tag and the content. */
  lemma KnownSizes(number: nat, id: int64, s: bytes)
    requires 1 <= number <= 4
    ensures |Encode(VarintField(1, ToUint64(id)))| == 1 + Int64Size(id)
    ensures |Encode(LengthField(number, s))| == 1 + StringSize(s)
  {
    hide Varint;
    OneByteTag(1, 0);
    OneByteTag(number, 2);
  }

  /** One turn of a loop that adds up the sizes of a list of strings. */
  lemma RepeatedSizeTurn(number: nat, ss: seq<bytes>, i: nat)
    requires 1 <= number <= 4 && i < |ss|
    ensures |RepeatedBytes(number, ss[..i + 1])| == |RepeatedBytes(number, ss[..i])| + 1 + StringSize(ss[i])
  {
    hide RepeatedBytes, Encode, StringSize;
    RepeatedTurn(number, ss, i);
    KnownSizes(number, 0, ss[i]);
  }
}
