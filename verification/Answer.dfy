/** The generated class Answer of codec_test/query.pb. */
module Answers {
  import opened Bytes
  import opened Wire
  import opened Schema
  import opened Streams

  /** The message that fields with these has-bits hold. */
  function Held(bits: bv32, questioner: bytes, answerer: bytes, id: int64, solution: seq<bytes>, unknown: seq<Field>):
    Value
  {
    Value(
      if bits & 4 != 0 then Some(id) else None,
      if bits & 1 != 0 then Some(questioner) else None,
      if bits & 2 != 0 then Some(answerer) else None,
      solution,
      unknown)
  }

  /** The has-bits of a merge: each of the three is set if it was set on either side, and no other is. */
  lemma UnionOfBits(a: bv32, b: bv32)
    requires a & 0xFFFF_FFF8 == 0 && b & 0xFFFF_FFF8 == 0
    ensures (a | b) & 0xFFFF_FFF8 == 0
    ensures (a | b) & 1 == 0 <==> a & 1 == 0 && b & 1 == 0
    ensures (a | b) & 2 == 0 <==> a & 2 == 0 && b & 2 == 0
    ensures (a | b) & 4 == 0 <==> a & 4 == 0 && b & 4 == 0
    ensures b & 7 == 0 ==> b == 0 && a | b == a
    ensures b & 1 != 0 ==> a | 1 | b == a | b
    ensures b & 2 != 0 ==> a | 2 | b == a | b
    ensures b & 1 != 0 && b & 2 != 0 ==> a | 1 | 2 | b == a | b
  {
  }

  /** Merging field by field is merging messages. */
  lemma HeldMerge(a: bv32, q: bytes, r: bytes, id: int64, ss: seq<bytes>, us: seq<Field>,
                  a': bv32, q': bytes, r': bytes, id': int64, ss': seq<bytes>, us': seq<Field>)
    requires a & 0xFFFF_FFF8 == 0 && a' & 0xFFFF_FFF8 == 0
    ensures Merge(Held(a, q, r, id, ss, us), Held(a', q', r', id', ss', us')) ==
              Held(a | a', if a' & 1 != 0 then q' else q, if a' & 2 != 0 then r' else r,
                   if a' & 4 != 0 then id' else id, ss + ss', us + us')
  {
    UnionOfBits(a, a');
  }

  lemma HeldCleared(bits: bv32, q: bytes, r: bytes, id: int64, ss: seq<bytes>, us: seq<Field>)
    requires bits & 0xFFFF_FFF8 == 0 && Held(bits, q, r, id, ss, us) == CLEARED
    ensures bits == 0 && ss == [] && us == []
  {
  }

  lemma HeldParts(bits: bv32, q: bytes, r: bytes, id: int64, ss: seq<bytes>, us: seq<Field>)
    ensures var m := Held(bits, q, r, id, ss, us);
            && (Writable(m) ==>
                  && (bits & 1 != 0 ==> ShortString(q)) && (bits & 2 != 0 ==> ShortString(r)) && AllShortStrings(ss))
            && Part(AnswerKind, m, 0) == (if bits & 4 != 0 then Encode(VarintField(1, ToUint64(id))) else [])
            && Part(AnswerKind, m, 1) == (if bits & 1 != 0 then Encode(LengthField(2, q)) else [])
            && Part(AnswerKind, m, 2) == (if bits & 2 != 0 then Encode(LengthField(3, r)) else [])
            && Part(AnswerKind, m, 3) == RepeatedBytes(4, ss)
            && Part(AnswerKind, m, 4) == EncodeAll(us)
  {
    hide Encode, RepeatedBytes, EncodeAll, AllShortStrings, ShortString;
  }

  class Answer {
    /** Bit 0: questioner. Bit 1: answerer. Bit 2: id. */
    var hasBits: bv32
    var questioner: bytes
    var answerer: bytes
    var id: int64
    var solution: seq<bytes>
    var unknownFields: seq<Field>

    /** No other bit is ever set, and an absent field has its default value. */
    ghost predicate Valid()
      reads this
    {
      && hasBits & 0xFFFF_FFF8 == 0
      && (hasBits & 1 == 0 ==> questioner == [])
      && (hasBits & 2 == 0 ==> answerer == [])
      && (hasBits & 4 == 0 ==> id == 0)
    }

    /** The message that the fields hold. */
    ghost function Message(): Value
      reads this
    {
      Held(hasBits, questioner, answerer, id, solution, unknownFields)
    }

    constructor ()
      ensures Valid() && Message() == CLEARED
    {
      hasBits, questioner, answerer, id, solution, unknownFields := 0, [], [], 0, [], [];
    }

    constructor Copy(from: Answer)
      requires from.Valid()
      ensures Valid() && Message() == from.Message() && SameFields(from)
    {
      hasBits := from.hasBits;
      solution := from.solution;
      unknownFields := from.unknownFields;
      questioner := if from.HasQuestioner() then from.questioner else [];
      answerer := if from.HasAnswerer() then from.answerer else [];
      id := from.id;
    }

    /** Equal in every field, present or not. */
    ghost predicate SameFields(other: Answer)
      reads this, other
    {
      && hasBits == other.hasBits && questioner == other.questioner && answerer == other.answerer && id == other.id
      && solution == other.solution && unknownFields == other.unknownFields
    }

    predicate HasId()
      reads this
    {
      hasBits & 4 != 0
    }

    predicate HasQuestioner()
      reads this
    {
      hasBits & 1 != 0
    }

    predicate HasAnswerer()
      reads this
    {
      hasBits & 2 != 0
    }

    method SetHasId()
      requires Valid()
      modifies this`hasBits
      ensures Valid() && HasId() && Message() == old(Message()).(id := Some(id))
    {
      hasBits := hasBits | 4;
    }

    method SetHasQuestioner()
      requires Valid()
      modifies this`hasBits
      ensures Valid() && HasQuestioner() && Message() == old(Message()).(questioner := Some(questioner))
      ensures hasBits == old(hasBits) | 1
    {
      hasBits := hasBits | 1;
    }

    method SetHasAnswerer()
      requires Valid()
      modifies this`hasBits
      ensures Valid() && HasAnswerer() && Message() == old(Message()).(answerer := Some(answerer))
      ensures hasBits == old(hasBits) | 2
    {
      hasBits := hasBits | 2;
    }

    method SetId(value: int64)
      requires Valid()
      modifies this
      ensures Valid() && Message() == old(Message()).(id := Some(value))
    {
      SetHasId();
      id := value;
    }

    method ClearId()
      requires Valid()
      modifies this
      ensures Valid() && Message() == old(Message()).(id := None)
    {
      id := 0;
      hasBits := hasBits & !4;
    }

    method SetQuestioner(value: bytes)
      requires Valid()
      modifies this
      ensures Valid() && Message() == old(Message()).(questioner := Some(value))
    {
      SetHasQuestioner();
      questioner := value;
    }

    method SetAnswerer(value: bytes)
      requires Valid()
      modifies this
      ensures Valid() && Message() == old(Message()).(answerer := Some(value))
    {
      SetHasAnswerer();
      answerer := value;
    }

    /** The pointer that `mutable_questioner` returns is the field itself. */
    method MutableQuestioner()
      requires Valid()
      modifies this`hasBits
      ensures Valid() && HasQuestioner() && Message() == old(Message()).(questioner := Some(questioner))
    {
      SetHasQuestioner();
    }

    method MutableAnswerer()
      requires Valid()
      modifies this`hasBits
      ensures Valid() && HasAnswerer() && Message() == old(Message()).(answerer := Some(answerer))
    {
      SetHasAnswerer();
    }

    method ClearQuestioner()
      requires Valid()
      modifies this
      ensures Valid() && Message() == old(Message()).(questioner := None)
    {
      questioner := [];
      hasBits := hasBits & !1;
    }

    method ClearAnswerer()
      requires Valid()
      modifies this
      ensures Valid() && Message() == old(Message()).(answerer := None)
    {
      answerer := [];
      hasBits := hasBits & !2;
    }

    method AddSolution(value: bytes)
      requires Valid()
      modifies this`solution
      ensures Valid() && Message() == old(Message()).(repeated := old(Message()).repeated + [value])
    {
      solution := solution + [value];
    }

    method SetSolution(index: nat, value: bytes)
      requires Valid() && index < |solution|
      modifies this`solution
      ensures Valid() && Message() == old(Message()).(repeated := old(Message()).repeated[index := value])
    {
      solution := solution[index := value];
    }

    method ClearSolution()
      requires Valid()
      modifies this`solution
      ensures Valid() && Message() == old(Message()).(repeated := [])
    {
      solution := [];
    }

    /** Touches the string only where its bit is set, which is enough because of `Valid`. */
    method Clear()
      requires Valid()
      modifies this
      ensures Valid() && Message() == CLEARED
    {
      solution := [];
      if hasBits & 3 != 0 {
        if hasBits & 1 != 0 {
          questioner := [];
        }
        if hasBits & 2 != 0 {
          answerer := [];
        }
      }
      id := 0;
      hasBits := 0;
      unknownFields := [];
    }

    method MergeFrom(from: Answer)
      requires Valid() && from.Valid() && from != this
      modifies this
      ensures Valid() && Message() == Merge(old(Message()), from.Message())
      ensures old(Message()) == CLEARED ==> SameFields(from)
    {
      hide Held, Merge;
      UnionOfBits(hasBits, from.hasBits);
      HeldMerge(hasBits, questioner, answerer, id, solution, unknownFields, from.hasBits, from.questioner,
                from.answerer, from.id, from.solution, from.unknownFields);
      if Message() == CLEARED {
        HeldCleared(hasBits, questioner, answerer, id, solution, unknownFields);
      }
      unknownFields := unknownFields + from.unknownFields;
      solution := solution + from.solution;
      var cached := from.hasBits;
      if cached & 7 != 0 {
        if cached & 1 != 0 {
          SetHasQuestioner();
          questioner := from.questioner;
        }
        if cached & 2 != 0 {
          SetHasAnswerer();
          answerer := from.answerer;
        }
        if cached & 4 != 0 {
          id := from.id;
        }
        hasBits := hasBits | cached;
      }
      assert hasBits == old(hasBits) | cached;
    }

    method CopyFrom(from: Answer)
      requires Valid() && from.Valid()
      modifies this
      ensures Valid() && Message() == old(from.Message())
      ensures from != this ==> SameFields(from)
    {
      if from == this {
        return;
      }
      Clear();
      MergeIdentity(from.Message());
      MergeFrom(from);
    }

    predicate IsInitialized()
      reads this
      ensures IsInitialized() <==> Initialized(AnswerKind, Message())
    {
      hasBits & 7 == 7
    }

    /** The switch of the parse loop: reads the field that `tag` announces, if it is one of the message's own and
        has the right wire type. */
    method ReadKnownField(tag: uint32, input: CodedInputStream) returns (known: bool, read: bool)
      requires Valid()
      modifies this, input`unread
      ensures Valid() && (known <==> KnownTag(AnswerKind, tag))
      ensures !known ==> Message() == old(Message()) && input.unread == old(input.unread)
      ensures known && !read ==>
                SkipField(tag, old(input.unread), RECURSION_LIMIT).Malformed?
                && Touched(AnswerKind, old(Message()), Message(), tag)
      ensures known && read ==>
                var r := SkipField(tag, old(input.unread), RECURSION_LIMIT);
                r.Skipped? && input.unread == r.rest && Message() == Take(AnswerKind, old(Message()), r.field)
    {
      hide ReadVarint, SkipField, ReadBytes, Take, Touched, IdOf;
      ghost var m, s := Message(), input.unread;
      match tag / 8 {
        case 1 =>
          if tag % 0x100 == 8 {
            KnownVarint(1, s);
            SetHasId();
            var value;
            read, value := input.ReadInt64();
            TouchedKnown(AnswerKind, m, []);
            if read {
              id := value;
              IdOfWord(AnswerKind, ReadVarint(s).value);
              TakeKnown(AnswerKind, m, ReadVarint(s).value % TWO_64, []);
            }
            return true, read;
          }
        case 2 =>
          if tag % 0x100 == 18 {
            KnownString(2, s);
            MutableQuestioner();
            var value;
            read, value := input.ReadString();
            questioner := value;
            TouchedKnown(AnswerKind, m, value);
            TakeKnown(AnswerKind, m, 0, value);
            return true, read;
          }
        case 3 =>
          if tag % 0x100 == 26 {
            KnownString(3, s);
            MutableAnswerer();
            var value;
            read, value := input.ReadString();
            answerer := value;
            TouchedKnown(AnswerKind, m, value);
            TakeKnown(AnswerKind, m, 0, value);
            return true, read;
          }
        case 4 =>
          if tag % 0x100 == 34 {
            KnownString(4, s);
            AddSolution([]);
            var value;
            read, value := input.ReadString();
            SetSolution(|solution| - 1, value);
            assert solution == m.repeated + [value];
            TouchedKnown(AnswerKind, m, value);
            TakeKnown(AnswerKind, m, 0, value);
            return true, read;
          }
        case _ =>
      }
      return false, false;
    }

    method MergePartialFromCodedStream(input: CodedInputStream) returns (ok: bool)
      requires Valid()
      modifies this, input
      ensures Valid()
      ensures Ends(AnswerKind, MergeBytes(AnswerKind, old(Message()), old(input.unread)),
                   ok, input.legitimateEnd, Message(), input.unread)
    {
      hide ReadVarint, SkipField, MergeBytes, Take, Touched, TagRead, TagOf;
      while true
        invariant Valid()
        invariant MergeBytes(AnswerKind, Message(), input.unread)
               == MergeBytes(AnswerKind, old(Message()), old(input.unread))
        decreases |input.unread|
      {
        ghost var m, s := Message(), input.unread;
        var tag, within := input.ReadTagWithCutoffNoLastTag(127);
        Turn(AnswerKind, m, s, tag, input.unread);
        var known, read := false, false;
        if within {
          known, read := ReadKnownField(tag, input);
          if known && !read {
            return false;
          }
        }
        if !known {
          if tag == 0 {
            return true;
          }
          var fields;
          read, fields := input.SkipUnknown(tag);
          unknownFields := unknownFields + fields;
          TouchedUnknown(AnswerKind, m, fields, tag);
          if !read {
            return false;
          }
          UnknownTag(AnswerKind, m, fields[0]);
        }
      }
    }

    method SerializeWithCachedSizes(output: CodedOutputStream)
      requires Valid() && Writable(Message())
      modifies output
      ensures output.written == old(output.written) + Serialize(AnswerKind, Message())
    {
      hide RepeatedBytes, Encode, EncodeAll, Serialize, Part, Parts, Valid, AllShortStrings, Held, Writable;
      ghost var before, m := output.written, Message();
      PartsAreAll(AnswerKind, m);
      PartSizes(AnswerKind, m);
      HeldParts(hasBits, questioner, answerer, id, solution, unknownFields);
      if hasBits & 4 != 0 {
        output.WriteInt64(1, id);
      }
      PutPart(before, AnswerKind, m, 0);
      if hasBits & 1 != 0 {
        output.WriteString(2, questioner);
      }
      PutPart(before, AnswerKind, m, 1);
      if hasBits & 2 != 0 {
        output.WriteString(3, answerer);
      }
      PutPart(before, AnswerKind, m, 2);
      WriteStrings(4, solution, output);
      PutPart(before, AnswerKind, m, 3);
      output.WriteUnknown(unknownFields);
      PutPart(before, AnswerKind, m, 4);
    }

    /** Writes the same bytes to an array, and nothing outside of them. */
    method InternalSerializeWithCachedSizesToArray(a: array<byte>, target: nat) returns (end: nat)
      requires Valid() && Writable(Message())
      requires target + |Serialize(AnswerKind, Message())| <= a.Length
      modifies a
      ensures end == target + |Serialize(AnswerKind, Message())|
      ensures Wrote(old(a[..]), a[..], target, Serialize(AnswerKind, Message()))
    {
      hide RepeatedBytes, Encode, EncodeAll, Serialize, Part, Parts, Wrote, Valid, AllShortStrings, Held, Writable;
      ghost var was, m := a[..], Message();
      PartsAreAll(AnswerKind, m);
      PartSizes(AnswerKind, m);
      HeldParts(hasBits, questioner, answerer, id, solution, unknownFields);
      WroteNothing(was, target);
      end := target;
      ghost var mid := was;
      WroteNothing(mid, end);
      if hasBits & 4 != 0 {
        end := WriteInt64ToArray(1, id, a, end);
      }
      WrotePart(was, mid, a[..], target, AnswerKind, m, 0);
      mid := a[..];
      WroteNothing(mid, end);
      if hasBits & 1 != 0 {
        end := WriteStringToArray(2, questioner, a, end);
      }
      WrotePart(was, mid, a[..], target, AnswerKind, m, 1);
      mid := a[..];
      WroteNothing(mid, end);
      if hasBits & 2 != 0 {
        end := WriteStringToArray(3, answerer, a, end);
      }
      WrotePart(was, mid, a[..], target, AnswerKind, m, 2);
      mid := a[..];
      end := WriteStringsToArray(4, solution, a, end);
      WrotePart(was, mid, a[..], target, AnswerKind, m, 3);
      mid := a[..];
      end := WriteUnknownToArray(unknownFields, a, end);
      WrotePart(was, mid, a[..], target, AnswerKind, m, 4);
    }

    method RequiredFieldsByteSizeFallback() returns (size: nat)
      requires Valid()
      ensures size == |IdBytes(Message().id)| + |StringBytes(2, Message().questioner)|
                    + |StringBytes(3, Message().answerer)|
    {
      hide Encode, StringSize, Int64Size;
      KnownSizes(2, id, questioner);
      KnownSizes(3, id, answerer);
      size := 0;
      if HasQuestioner() {
        size := size + 1 + StringSize(questioner);
      }
      if HasAnswerer() {
        size := size + 1 + StringSize(answerer);
      }
      if HasId() {
        size := size + 1 + Int64Size(id);
      }
    }

    /** Both ways of adding up agree with what is written. */
    method ByteSizeLong() returns (size: nat)
      requires Valid()
      ensures size == |Serialize(AnswerKind, Message())|
    {
      hide Encode, EncodeAll, StringSize, Int64Size, Serialize, RepeatedBytes, FieldsSize;
      PartSizes(AnswerKind, Message());
      KnownSizes(2, id, questioner);
      KnownSizes(3, id, answerer);
      size := FieldsSize(unknownFields);
      if (hasBits & 7) ^ 7 == 0 {
        size := size + 1 + StringSize(questioner);
        size := size + 1 + StringSize(answerer);
        size := size + 1 + Int64Size(id);
      } else {
        var required := RequiredFieldsByteSizeFallback();
        size := size + required;
      }
      var repeated := StringsSize(4, solution);
      size := size + repeated;
    }
  }
}
