/** The generated class Query of codec_test/query.pb: has-bits, fields and the methods on them. */
module Queries {
  import opened Bytes
  import opened Wire
  import opened Schema
  import opened Streams

  class Query {
    /** Bit 0: questioner. Bit 1: id. */
    var hasBits: bv32
    var questioner: bytes
    var id: int64
    var question: seq<bytes>
    var unknownFields: seq<Field>

    /** No other bit is ever set, and an absent field has its default value. */
    ghost predicate Valid()
      reads this
    {
      && hasBits & 0xFFFF_FFFC == 0
      && (hasBits & 1 == 0 ==> questioner == [])
      && (hasBits & 2 == 0 ==> id == 0)
    }

    /** The message that the fields hold. */
    ghost function Message(): Value
      reads this
    {
      Value(
        if HasId() then Some(id) else None,
        if HasQuestioner() then Some(questioner) else None,
        None,
        question,
        unknownFields)
    }

    constructor ()
      ensures Valid() && Message() == CLEARED
    {
      hasBits, questioner, id, question, unknownFields := 0, [], 0, [], [];
    }

    constructor Copy(from: Query)
      requires from.Valid()
      ensures Valid() && Message() == from.Message() && SameFields(from)
    {
      hasBits := from.hasBits;
      question := from.question;
      unknownFields := from.unknownFields;
      questioner := if from.HasQuestioner() then from.questioner else [];
      id := from.id;
    }

    /** Equal in every field, present or not. */
    ghost predicate SameFields(other: Query)
      reads this, other
    {
      && hasBits == other.hasBits && questioner == other.questioner && id == other.id
      && question == other.question && unknownFields == other.unknownFields
    }

    predicate HasId()
      reads this
    {
      hasBits & 2 != 0
    }

    predicate HasQuestioner()
      reads this
    {
      hasBits & 1 != 0
    }

    method SetHasId()
      requires Valid()
      modifies this`hasBits
      ensures Valid() && HasId() && Message() == old(Message()).(id := Some(id))
    {
      hasBits := hasBits | 2;
    }

    method SetHasQuestioner()
      requires Valid()
      modifies this`hasBits
      ensures Valid() && HasQuestioner() && Message() == old(Message()).(questioner := Some(questioner))
    {
      hasBits := hasBits | 1;
    }

    method SetId(value: int64)
      requires Valid()
      modifies this
      ensures Valid() && Message() == old(Message()).(id := Some(value))
    {
      SetHasId();
      id := value;
    }

    method ClearId()
      requires Valid()
      modifies this
      ensures Valid() && Message() == old(Message()).(id := None)
    {
      id := 0;
      hasBits := hasBits & !2;
    }

    method SetQuestioner(value: bytes)
      requires Valid()
      modifies this
      ensures Valid() && Message() == old(Message()).(questioner := Some(value))
    {
      SetHasQuestioner();
      questioner := value;
    }

    /** The pointer that `mutable_questioner` returns is the field itself. */
    method MutableQuestioner()
      requires Valid()
      modifies this`hasBits
      ensures Valid() && HasQuestioner() && Message() == old(Message()).(questioner := Some(questioner))
    {
      SetHasQuestioner();
    }

    method ClearQuestioner()
      requires Valid()
      modifies this
      ensures Valid() && Message() == old(Message()).(questioner := None)
    {
      questioner := [];
      hasBits := hasBits & !1;
    }

    method AddQuestion(value: bytes)
      requires Valid()
      modifies this`question
      ensures Valid() && Message() == old(Message()).(repeated := old(Message()).repeated + [value])
    {
      question := question + [value];
    }

    method SetQuestion(index: nat, value: bytes)
      requires Valid() && index < |question|
      modifies this`question
      ensures Valid() && Message() == old(Message()).(repeated := old(Message()).repeated[index := value])
    {
      question := question[index := value];
    }

    method ClearQuestion()
      requires Valid()
      modifies this`question
      ensures Valid() && Message() == old(Message()).(repeated := [])
    {
      question := [];
    }

    /** Touches the string only where its bit is set, which is enough because of `Valid`. */
    method Clear()
      requires Valid()
      modifies this
      ensures Valid() && Message() == CLEARED
    {
      question := [];
      if hasBits & 1 != 0 {
        questioner := [];
      }
      id := 0;
      hasBits := 0;
      unknownFields := [];
    }

    method MergeFrom(from: Query)
      requires Valid() && from.Valid() && from != this
      modifies this
      ensures Valid() && Message() == Merge(old(Message()), from.Message())
      ensures old(Message()) == CLEARED ==> SameFields(from)
    {
      unknownFields := unknownFields + from.unknownFields;
      question := question + from.question;
      var cached := from.hasBits;
      if cached & 3 != 0 {
        if cached & 1 != 0 {
          SetHasQuestioner();
          questioner := from.questioner;
        }
        if cached & 2 != 0 {
          id := from.id;
        }
        hasBits := hasBits | cached;
      }
    }

    method CopyFrom(from: Query)
      requires Valid() && from.Valid()
      modifies this
      ensures Valid() && Message() == old(from.Message())
      ensures from != this ==> SameFields(from)
    {
      if from == this {
        return;
      }
      Clear();
      MergeIdentity(from.Message());
      MergeFrom(from);
    }

    predicate IsInitialized()
      reads this
      ensures IsInitialized() <==> Initialized(QueryKind, Message())
    {
      hasBits & 3 == 3
    }

    /** The switch of the parse loop: reads the field that `tag` announces, if it is one of the message's own and
        has the right wire type. */
    method ReadKnownField(tag: uint32, input: CodedInputStream) returns (known: bool, read: bool)
      requires Valid()
      modifies this, input`unread
      ensures Valid() && (known <==> KnownTag(QueryKind, tag))
      ensures !known ==> Message() == old(Message()) && input.unread == old(input.unread)
      ensures known && !read ==>
                SkipField(tag, old(input.unread), RECURSION_LIMIT).Malformed?
                && Touched(QueryKind, old(Message()), Message(), tag)
      ensures known && read ==>
                var r := SkipField(tag, old(input.unread), RECURSION_LIMIT);
                r.Skipped? && input.unread == r.rest && Message() == Take(QueryKind, old(Message()), r.field)
    {
      hide ReadVarint, SkipField, ReadBytes, Take, Touched, IdOf;
      ghost var m, s := Message(), input.unread;
      match tag / 8 {
        case 1 =>
          if tag % 0x100 == 8 {
            KnownVarint(1, s);
            SetHasId();
            var value;
            read, value := input.ReadInt64();
            TouchedKnown(QueryKind, m, []);
            if read {
              id := value;
              IdOfWord(QueryKind, ReadVarint(s).value);
              TakeKnown(QueryKind, m, ReadVarint(s).value % TWO_64, []);
            }
            return true, read;
          }
        case 2 =>
          if tag % 0x100 == 18 {
            KnownString(2, s);
            MutableQuestioner();
            var value;
            read, value := input.ReadString();
            questioner := value;
            TouchedKnown(QueryKind, m, value);
            TakeKnown(QueryKind, m, 0, value);
            return true, read;
          }
        case 3 =>
          if tag % 0x100 == 26 {
            KnownString(3, s);
            AddQuestion([]);
            var value;
            read, value := input.ReadString();
            SetQuestion(|question| - 1, value);
            assert question == m.repeated + [value];
            TouchedKnown(QueryKind, m, value);
            TakeKnown(QueryKind, m, 0, value);
            return true, read;
          }
        case _ =>
      }
      return false, false;
    }

    method MergePartialFromCodedStream(input: CodedInputStream) returns (ok: bool)
      requires Valid()
      modifies this, input
      ensures Valid()
      ensures Ends(QueryKind, MergeBytes(QueryKind, old(Message()), old(input.unread)),
                   ok, input.legitimateEnd, Message(), input.unread)
    {
      hide ReadVarint, SkipField, MergeBytes, Take, Touched, TagRead, TagOf;
      while true
        invariant Valid()
        invariant MergeBytes(QueryKind, Message(), input.unread)
               == MergeBytes(QueryKind, old(Message()), old(input.unread))
        decreases |input.unread|
      {
        ghost var m, s := Message(), input.unread;
        var tag, within := input.ReadTagWithCutoffNoLastTag(127);
        Turn(QueryKind, m, s, tag, input.unread);
        var known, read := false, false;
        if within {
          known, read := ReadKnownField(tag, input);
          if known && !read {
            return false;
          }
        }
        if !known {
          if tag == 0 {
            return true;
          }
          var fields;
          read, fields := input.SkipUnknown(tag);
          unknownFields := unknownFields + fields;
          TouchedUnknown(QueryKind, m, fields, tag);
          if !read {
            return false;
          }
          UnknownTag(QueryKind, m, fields[0]);
        }
      }
    }

    method SerializeWithCachedSizes(output: CodedOutputStream)
      requires Valid() && Writable(Message())
      modifies output
      ensures output.written == old(output.written) + Serialize(QueryKind, Message())
    {
      hide RepeatedBytes, Encode, EncodeAll, Serialize, Part, Parts, Valid, AllShortStrings;
      ghost var before, m := output.written, Message();
      PartsAreAll(QueryKind, m);
      PartSizes(QueryKind, m);
      PartValues(QueryKind, m);
      if hasBits & 2 != 0 {
        output.WriteInt64(1, id);
      }
      PutPart(before, QueryKind, m, 0);
      if hasBits & 1 != 0 {
        output.WriteString(2, questioner);
      }
      PutPart(before, QueryKind, m, 1);
      PutPart(before, QueryKind, m, 2);
      WriteStrings(3, question, output);
      PutPart(before, QueryKind, m, 3);
      output.WriteUnknown(unknownFields);
      PutPart(before, QueryKind, m, 4);
    }

    /** Writes the same bytes to an array, and nothing outside of them. */
    method InternalSerializeWithCachedSizesToArray(a: array<byte>, target: nat) returns (end: nat)
      requires Valid() && Writable(Message())
      requires target + |Serialize(QueryKind, Message())| <= a.Length
      modifies a
      ensures end == target + |Serialize(QueryKind, Message())|
      ensures Wrote(old(a[..]), a[..], target, Serialize(QueryKind, Message()))
    {
      hide RepeatedBytes, Encode, EncodeAll, Serialize, Part, Parts, Wrote, Valid, AllShortStrings;
      ghost var was, m := a[..], Message();
      PartsAreAll(QueryKind, m);
      PartSizes(QueryKind, m);
      PartValues(QueryKind, m);
      WroteNothing(was, target);
      end := target;
      ghost var mid := was;
      WroteNothing(mid, end);
      if hasBits & 2 != 0 {
        end := WriteInt64ToArray(1, id, a, end);
      }
      WrotePart(was, mid, a[..], target, QueryKind, m, 0);
      mid := a[..];
      WroteNothing(mid, end);
      if hasBits & 1 != 0 {
        end := WriteStringToArray(2, questioner, a, end);
      }
      WrotePart(was, mid, a[..], target, QueryKind, m, 1);
      mid := a[..];
      WroteNothing(mid, end);
      WrotePart(was, mid, mid, target, QueryKind, m, 2);
      end := WriteStringsToArray(3, question, a, end);
      WrotePart(was, mid, a[..], target, QueryKind, m, 3);
      mid := a[..];
      end := WriteUnknownToArray(unknownFields, a, end);
      WrotePart(was, mid, a[..], target, QueryKind, m, 4);
    }

    method RequiredFieldsByteSizeFallback() returns (size: nat)
      requires Valid()
      ensures size == |IdBytes(Message().id)| + |StringBytes(2, Message().questioner)|
    {
      hide Encode, StringSize, Int64Size;
      KnownSizes(2, id, questioner);
      size := 0;
      if HasQuestioner() {
        size := size + 1 + StringSize(questioner);
      }
      if HasId() {
        size := size + 1 + Int64Size(id);
      }
    }

    /** Both ways of adding up agree with what is written. */
    method ByteSizeLong() returns (size: nat)
      requires Valid()
      ensures size == |Serialize(QueryKind, Message())|
    {
      hide Encode, EncodeAll, StringSize, Int64Size, Serialize, RepeatedBytes, FieldsSize;
      PartSizes(QueryKind, Message());
      KnownSizes(2, id, questioner);
      size := FieldsSize(unknownFields);
      if (hasBits & 3) ^ 3 == 0 {
        size := size + 1 + StringSize(questioner);
        size := size + 1 + Int64Size(id);
      } else {
        var required := RequiredFieldsByteSizeFallback();
        size := size + required;
      }
      var repeated := StringsSize(3, question);
      size := size + repeated;
    }
  }
}
