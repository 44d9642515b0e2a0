/** The generated class Empty of codec_test/query.pb: one optional `int32`. */
module Empties {
  import opened Bytes
  import opened Wire
  import opened Schema
  import opened Streams

  class Empty {
    /** Bit 0: id. */
    var hasBits: bv32
    var id: int32
    var unknownFields: seq<Field>

    ghost predicate Valid()
      reads this
    {
      hasBits & 0xFFFF_FFFE == 0 && (hasBits & 1 == 0 ==> id == 0)
    }

    ghost function Message(): Value
      reads this
    {
      Value(if HasId() then Some(id as int64) else None, None, None, [], unknownFields)
    }

    constructor ()
      ensures Valid() && Message() == CLEARED
    {
      hasBits, id, unknownFields := 0, 0, [];
    }

    constructor Copy(from: Empty)
      requires from.Valid()
      ensures Valid() && Message() == from.Message() && SameFields(from)
    {
      hasBits := from.hasBits;
      unknownFields := from.unknownFields;
      id := from.id;
    }

    ghost predicate SameFields(other: Empty)
      reads this, other
    {
      hasBits == other.hasBits && id == other.id && unknownFields == other.unknownFields
    }

    predicate HasId()
      reads this
    {
      hasBits & 1 != 0
    }

    method SetHasId()
      requires Valid()
      modifies this`hasBits
      ensures Valid() && HasId() && Message() == old(Message()).(id := Some(id))
    {
      hasBits := hasBits | 1;
    }

    method SetId(value: int32)
      requires Valid()
      modifies this
      ensures Valid() && Message() == old(Message()).(id := Some(value))
      ensures HasId() && id == value && unknownFields == old(unknownFields)
    {
      SetHasId();
      id := value;
    }

    method ClearId()
      requires Valid()
      modifies this
      ensures Valid() && Message() == old(Message()).(id := None)
    {
      id := 0;
      hasBits := hasBits & !1;
    }

    method Clear()
      requires Valid()
      modifies this
      ensures Valid() && Message() == CLEARED
    {
      id := 0;
      hasBits := 0;
      unknownFields := [];
    }

    /** Goes through `set_id`, unlike the other two classes. */
    method MergeFrom(from: Empty)
      requires Valid() && from.Valid() && from != this
      modifies this
      ensures Valid() && Message() == Merge(old(Message()), from.Message())
      ensures old(Message()) == CLEARED ==> SameFields(from)
    {
      unknownFields := unknownFields + from.unknownFields;
      if from.HasId() {
        SetId(from.id);
      }
    }

    method CopyFrom(from: Empty)
      requires Valid() && from.Valid()
      modifies this
      ensures Valid() && Message() == old(from.Message())
      ensures from != this ==> SameFields(from)
    {
      if from == this {
        return;
      }
      Clear();
      MergeIdentity(from.Message());
      MergeFrom(from);
    }

    predicate IsInitialized()
      reads this
      ensures IsInitialized() <==> Initialized(EmptyKind, Message())
    {
      true
    }

    method ReadKnownField(tag: uint32, input: CodedInputStream) returns (known: bool, read: bool)
      requires Valid()
      modifies this, input`unread
      ensures Valid() && (known <==> KnownTag(EmptyKind, tag))
      ensures !known ==> Message() == old(Message()) && input.unread == old(input.unread)
      ensures known && !read ==>
                SkipField(tag, old(input.unread), RECURSION_LIMIT).Malformed?
                && Touched(EmptyKind, old(Message()), Message(), tag)
      ensures known && read ==>
                var r := SkipField(tag, old(input.unread), RECURSION_LIMIT);
                r.Skipped? && input.unread == r.rest && Message() == Take(EmptyKind, old(Message()), r.field)
    {
      hide ReadVarint, SkipField, Take, Touched, IdOf;
      ghost var m, s := Message(), input.unread;
      match tag / 8 {
        case 1 =>
          if tag % 0x100 == 8 {
            KnownVarint(1, s);
            SetHasId();
            var value;
            read, value := input.ReadInt32();
            TouchedKnown(EmptyKind, m, []);
            if read {
              id := value;
              IdOfWord(EmptyKind, ReadVarint(s).value);
              TakeKnown(EmptyKind, m, ReadVarint(s).value % TWO_64, []);
            }
            return true, read;
          }
        case _ =>
      }
      return false, false;
    }

    method MergePartialFromCodedStream(input: CodedInputStream) returns (ok: bool)
      requires Valid()
      modifies this, input
      ensures Valid()
      ensures Ends(EmptyKind, MergeBytes(EmptyKind, old(Message()), old(input.unread)),
                   ok, input.legitimateEnd, Message(), input.unread)
    {
      hide ReadVarint, SkipField, MergeBytes, Take, Touched, TagRead, TagOf;
      while true
        invariant Valid()
        invariant MergeBytes(EmptyKind, Message(), input.unread)
               == MergeBytes(EmptyKind, old(Message()), old(input.unread))
        decreases |input.unread|
      {
        ghost var m, s := Message(), input.unread;
        var tag, within := input.ReadTagWithCutoffNoLastTag(127);
        Turn(EmptyKind, m, s, tag, input.unread);
        var known, read := false, false;
        if within {
          known, read := ReadKnownField(tag, input);
          if known && !read {
            return false;
          }
        }
        if !known {
          if tag == 0 {
            return true;
          }
          var fields;
          read, fields := input.SkipUnknown(tag);
          unknownFields := unknownFields + fields;
          TouchedUnknown(EmptyKind, m, fields, tag);
          if !read {
            return false;
          }
          UnknownTag(EmptyKind, m, fields[0]);
        }
      }
    }

    method SerializeWithCachedSizes(output: CodedOutputStream)
      requires Valid()
      modifies output
      ensures output.written == old(output.written) + Serialize(EmptyKind, Message())
    {
      hide RepeatedBytes, Encode, EncodeAll, Serialize, Part, Parts, Valid;
      ghost var before, m := output.written, Message();
      PartsAreAll(EmptyKind, m);
      PartSizes(EmptyKind, m);
      PartValues(EmptyKind, m);
      NothingRepeated(3);
      if hasBits & 1 != 0 {
        output.WriteInt32(1, id);
      }
      PutPart(before, EmptyKind, m, 0);
      PutPart(before, EmptyKind, m, 1);
      PutPart(before, EmptyKind, m, 2);
      PutPart(before, EmptyKind, m, 3);
      output.WriteUnknown(unknownFields);
      PutPart(before, EmptyKind, m, 4);
    }

    method InternalSerializeWithCachedSizesToArray(a: array<byte>, target: nat) returns (end: nat)
      requires Valid()
      requires target + |Serialize(EmptyKind, Message())| <= a.Length
      modifies a
      ensures end == target + |Serialize(EmptyKind, Message())|
      ensures Wrote(old(a[..]), a[..], target, Serialize(EmptyKind, Message()))
    {
      hide RepeatedBytes, Encode, EncodeAll, Serialize, Part, Parts, Wrote, Valid;
      ghost var was, m := a[..], Message();
      PartsAreAll(EmptyKind, m);
      PartSizes(EmptyKind, m);
      PartValues(EmptyKind, m);
      NothingRepeated(3);
      WroteNothing(was, target);
      end := target;
      if hasBits & 1 != 0 {
        end := WriteInt64ToArray(1, id, a, end);
      }
      WrotePart(was, was, a[..], target, EmptyKind, m, 0);
      ghost var mid := a[..];
      WroteNothing(mid, end);
      WrotePart(was, mid, mid, target, EmptyKind, m, 1);
      WrotePart(was, mid, mid, target, EmptyKind, m, 2);
      WrotePart(was, mid, mid, target, EmptyKind, m, 3);
      end := WriteUnknownToArray(unknownFields, a, end);
      WrotePart(was, mid, a[..], target, EmptyKind, m, 4);
    }

    method ByteSizeLong() returns (size: nat)
      requires Valid()
      ensures size == |Serialize(EmptyKind, Message())|
    {
      hide Encode, EncodeAll, Int64Size, Int32Size, Serialize, RepeatedBytes, FieldsSize;
      PartSizes(EmptyKind, Message());
      NothingRepeated(3);
      KnownSizes(2, id, []);
      Int32SizeIsInt64Size(id);
      size := FieldsSize(unknownFields);
      if HasId() {
        size := size + 1 + Int32Size(id);
      }
    }
  }
}
