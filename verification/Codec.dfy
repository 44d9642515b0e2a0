/** The codec object of chat/Codec and the sender of chat/ChatClient. */
module Codecs {
  import opened Bytes
  import opened Buffers
  import opened Framing

  lemma HeaderIsSigned(t: bytes)
    requires |t| >= HEADER_LEN
    ensures HeaderOf(t) == ToInt32(FromBigEndian(t))
  {
  }

  /** One turn of the decoder's loop. */
  lemma FirstFrame(sent: seq<Message>, t: bytes)
    requires Ready(t)
    ensures t[HEADER_LEN..][..HeaderOf(t)] == Head(t) && t[HEADER_LEN..][HeaderOf(t)..] == Tail(t)
    ensures sent + Messages(t) == sent + [Head(t)] + Messages(Tail(t)) && Rest(t) == Rest(Tail(t))
  {
    hide HeaderOf;
    assert Messages(t) == [Head(t)] + Messages(Tail(t));
    Associative(sent, [Head(t)], Messages(Tail(t)));
  }

  lemma NoFrame(sent: seq<Message>, t: bytes)
    requires !Ready(t)
    ensures sent + Messages(t) == sent && Rest(t) == t
  {
  }

  class Codec {
    const buffer: Buffer
    /** Stands for the callback: the messages handed to it, in order. */
    var delivered: seq<Message>

    ghost predicate Valid()
      reads this, buffer
    {
      buffer.Valid()
    }

    constructor ()
      ensures Valid() && fresh(buffer) && fresh(buffer.data)
      ensures buffer.Contents() == [] && delivered == []
      ensures buffer.Shape() == Layout(CODEC_BUF, 0, 0)
    {
      buffer := new Buffer(CODEC_BUF);
      delivered := [];
    }

    /** One read is one step of the runs of `Framing`, in all three respects. */
    method OnUvRead(chunk: bytes)
      requires Valid()
      modifies this, buffer, buffer.data
      ensures Valid() && (buffer.data == old(buffer.data) || fresh(buffer.data))
      ensures delivered == old(delivered) + Messages(old(buffer.Contents()) + chunk)
      ensures buffer.Contents() == Rest(old(buffer.Contents()) + chunk)
      ensures buffer.Shape() == AfterRead(old(buffer.Shape()), old(buffer.Contents()), chunk)
    {
      hide Messages, Rest, Buffer.Contents;
      buffer.Append(chunk);
      OnMessage();
    }

    method OnMessage()
      requires Valid()
      modifies this, buffer`readerIndex, buffer`writerIndex
      ensures Valid()
      ensures delivered == old(delivered) + Messages(old(buffer.Contents()))
      ensures buffer.Contents() == Rest(old(buffer.Contents()))
      ensures buffer.Shape() == old(buffer.Shape()).Retrieve(|old(buffer.Contents())| - |buffer.Contents()|)
    {
      hide Head, Tail, HeaderOf, Messages, Rest, Buffer.Contents;
      ghost var s := buffer.Contents();
      ghost var shape := buffer.Shape();
      assert shape.Readable() == buffer.ReadableBytes();
      while buffer.ReadableBytes() > HEADER_LEN
        invariant Valid() && |buffer.Contents()| <= |s|
        invariant delivered + Messages(buffer.Contents()) == old(delivered) + Messages(s)
        invariant Rest(s) == Rest(buffer.Contents())
        invariant buffer.Shape() == shape.Retrieve(|s| - |buffer.Contents()|)
        decreases |buffer.Contents()|
      {
        ghost var t := buffer.Contents();
        HeaderIsSigned(t);
        var word := buffer.PeekUInt32();
        var len := ToInt32(word);
        if len > MAX_MESSAGE_SIZE || len < 0 {
          break;
        } else if len + HEADER_LEN <= buffer.ReadableBytes() {
          shape.RetrieveTwice(|s| - |t|, HEADER_LEN);
          buffer.RetrieveUInt32();
          shape.RetrieveTwice(|s| - |t| + HEADER_LEN, len);
          var msg := buffer.RetrieveAsString(len);
          FirstFrame(delivered, t);
          delivered := delivered + [msg];
        } else {
          break;
        }
      }
      NoFrame(delivered, buffer.Contents());
    }

    /** A whole run: the library calls `OnUvRead` with one chunk after the other. */
    method ReadAll(chunks: seq<bytes>)
      requires Valid()
      modifies this, buffer, buffer.data
      ensures Valid() && (buffer.data == old(buffer.data) || fresh(buffer.data))
      ensures delivered == old(delivered) + Delivered(old(buffer.Contents()), chunks)
      ensures buffer.Contents() == Unread(old(buffer.Contents()), chunks)
      ensures buffer.Shape() == Storage(old(buffer.Shape()), old(buffer.Contents()), chunks)
      decreases |chunks|
    {
      hide Messages, Rest, Buffer.Contents, AfterRead;
      assert buffer.Shape().Readable() == buffer.ReadableBytes();
      if chunks != [] {
        AfterReadFits(buffer.Shape(), buffer.Contents(), chunks[0]);
        OnUvRead(chunks[0]);
        ReadAll(chunks[1..]);
      }
    }

    /** `msg` points to a C string: what lies in memory from there on, up to at least its terminator. */
    method Encode(target: Buffer, msg: bytes) returns (n: int)
      requires target.Valid() && 0 in msg && Encodable(CString(msg, 0))
      modifies target, target.data
      ensures target.Valid() && (target.data == old(target.data) || fresh(target.data))
      ensures target.Contents() == old(target.Contents()) + Frame(CString(msg, 0))
      ensures n == |Frame(CString(msg, 0))|
    {
      hide Buffer.Contents, Layout.Append;
      var len := |CString(msg, 0)|;
      target.WriteUInt32(len);
      target.Append(msg[..len]);
      n := len + HEADER_LEN;
    }
  }

  /** A new codec after any run of chunks of at most `r` bytes, the last of which may bring the first refused length. */
  method ReadFromTheStart(chunks: seq<bytes>, r: nat) returns (codec: Codec)
    requires AllWithin(chunks, r)
    requires chunks != [] ==> !Stuck(Unread([], chunks[..|chunks| - 1]))
    ensures codec.Valid() && codec.delivered == Delivered([], chunks) && codec.buffer.Contents() == Unread([], chunks)
    ensures r <= 4093 ==> codec.buffer.data.Length == CODEC_BUF
    ensures r >= 4094 ==> CODEC_BUF <= codec.buffer.data.Length <= 4098 + 2 * r
    ensures !Stuck(codec.buffer.Contents()) ==> |codec.buffer.Contents()| <= 4099
  {
    hide Storage, Unread, Delivered, Stuck, Buffer.Contents;
    codec := new Codec();
    BoundedFromTheStart(codec.buffer.Shape(), chunks, r);
    codec.ReadAll(chunks);
  }

  /** The pieces that `test` sends: two bytes each, the last perhaps one. */
  function Pieces(s: bytes): seq<bytes>
    decreases |s|
  {
    if |s| <= 2 then (if s == [] then [] else [s]) else [s[..2]] + Pieces(s[2..])
  }

  lemma {:induction false} PiecesCoverAll(s: bytes)
    ensures Flatten(Pieces(s)) == s
    decreases |s|
  {
    if |s| > 2 {
      PiecesCoverAll(s[2..]);
      assert Pieces(s)[1..] == Pieces(s[2..]);
    } else if s != [] {
      assert Flatten(Pieces(s)) == s + Flatten<byte>([]);
    }
  }

  lemma {:induction false} PiecesCount(s: bytes)
    ensures |Pieces(s)| == (|s| + 1) / 2
    decreases |s|
  {
    if |s| > 2 {
      PiecesCount(s[2..]);
    }
  }

  lemma SliceOfTail(s: bytes, lo: nat, hi: nat)
    requires 2 <= lo <= hi <= |s|
    ensures s[2..][lo - 2..hi - 2] == s[lo..hi]
  {
    assert s[2..] == s[2..|s|];
    SliceOfSlice(s, 2, |s|, lo - 2, hi - lo);
  }

  /** Two bytes in every piece, except that the last of an odd number has one. */
  lemma {:induction false} PieceAt(s: bytes, i: nat)
    requires 2 * i < |s|
    ensures i < |Pieces(s)|
    ensures Pieces(s)[i] == if 2 * i + 2 <= |s| then s[2 * i..2 * i + 2] else s[2 * i..|s|]
    decreases |s|
  {
    if |s| > 2 && i > 0 {
      PieceAt(s[2..], i - 1);
      SliceOfTail(s, 2 * i, if 2 * i + 2 <= |s| then 2 * i + 2 else |s|);
    }
  }

  lemma {:induction false} PiecesAppend(s: bytes, t: bytes)
    requires |s| % 2 == 0
    ensures Pieces(s + t) == Pieces(s) + Pieces(t)
    decreases |s|
  {
    if s == [] {
      assert s + t == t;
    } else {
      PiecesAppend(s[2..], t);
      assert (s + t)[2..] == s[2..] + t && (s + t)[..2] == s[..2];
      if |s| == 2 {
        assert s[2..] == [] && s[..2] == s;
        if t == [] { assert s + t == s; }
      }
    }
  }

  lemma NoPieceYet(s: bytes)
    ensures Pieces(s[..0]) == []
  {
  }

  lemma NextPiece(s: bytes, i: nat, n: nat)
    requires i % 2 == 0 && 1 <= n <= 2 && i + n <= |s|
    ensures Pieces(s[..i + n]) == Pieces(s[..i]) + [s[i..i + n]]
    ensures i + n == |s| ==> s[..i + n] == s
  {
    PiecesAppend(s[..i], s[i..i + n]);
    assert s[..i] + s[i..i + n] == s[..i + n];
  }

  /** What a client sends for the message `m` when its buffer holds `held`: it encodes behind `held`, and then sends
      as many bytes as the new frame has from the front. */
  function SentFor(held: bytes, m: Message): bytes
    requires Encodable(m)
  {
    (held + Frame(m))[..|Frame(m)|]
  }

  /** `sendBuf` of chat/ChatClient. */
  const SEND_BUF: nat := 1024

  /** The longest message whose frame fits `sendBuf`. */
  const MAX_WHOLE: nat := SEND_BUF - HEADER_LEN

  /** Copies `n` bytes from `peek() + i` to `sendBuf` and sends them. The source does not compare `n` with the size of
      `sendBuf`; what it does when the bytes do not fit is not specified. */
  method SendRawContent(buffer: Buffer, i: nat, n: nat) returns (fits: bool, sent: bytes)
    requires buffer.Valid() && i + n <= buffer.ReadableBytes()
    ensures fits <==> n <= SEND_BUF
    ensures fits ==> sent == buffer.Contents()[i..i + n]
  {
    fits, sent := n <= SEND_BUF, *;
    if fits {
      sent := buffer.PeekAt(i, n);
    }
  }

  /** `test` of chat/ChatClient: encodes into the shared buffer and sends from its front in pieces. The buffer is
      never drained. */
  method SendSplit(codec: Codec, buffer: Buffer, msg: bytes) returns (sent: seq<bytes>)
    requires buffer.Valid() && 0 in msg && Encodable(CString(msg, 0))
    modifies buffer, buffer.data
    ensures buffer.Valid() && (buffer.data == old(buffer.data) || fresh(buffer.data))
    ensures buffer.Contents() == old(buffer.Contents()) + Frame(CString(msg, 0))
    ensures sent == Pieces(SentFor(old(buffer.Contents()), CString(msg, 0)))
  {
    hide Buffer.Contents, Layout.Valid, Pieces, Frame;
    var contentLen := codec.Encode(buffer, msg);
    var step, i := 2, 0;
    sent := [];
    ghost var s := buffer.Contents()[..contentLen];
    NoPieceYet(s);
    while i < contentLen
      modifies {}
      invariant s == buffer.Contents()[..contentLen]
      invariant 0 <= i <= contentLen + 1
      invariant i % 2 == 0 && sent == Pieces(s[..if i < contentLen then i else contentLen])
      decreases contentLen - i
    {
      var n := if i + step > contentLen then contentLen - i else step;
      var fits, piece := SendRawContent(buffer, i, n);
      assert fits;
      SliceOfSlice(buffer.Contents(), 0, contentLen, i, n);
      NextPiece(s, i, n);
      sent := sent + [piece];
      i := i + step;
    }
    assert s[..contentLen] == s;
  }

  /** The reader of standard input in chat/ChatClient sends the same bytes in one piece, if the array that it copies
      them to is large enough. `msg` is memory from the start of the read on: the message ends at the first NUL,
      however many bytes were read. */
  method SendWhole(codec: Codec, buffer: Buffer, msg: bytes) returns (fits: bool, sent: bytes)
    requires buffer.Valid() && 0 in msg && Encodable(CString(msg, 0))
    modifies buffer, buffer.data
    ensures buffer.Valid() && (buffer.data == old(buffer.data) || fresh(buffer.data))
    ensures buffer.Contents() == old(buffer.Contents()) + Frame(CString(msg, 0))
    ensures fits <==> |CString(msg, 0)| <= MAX_WHOLE
    ensures fits ==> sent == SentFor(old(buffer.Contents()), CString(msg, 0))
  {
    hide Buffer.Contents, Layout.Valid, Frame;
    var len := codec.Encode(buffer, msg);
    fits, sent := SendRawContent(buffer, 0, len);
  }

  // ---- What a client sends in the long run ----

  predicate AllSendable(msgs: seq<bytes>) {
    msgs == [] || (0 in msgs[0] && Encodable(CString(msgs[0], 0)) && AllSendable(msgs[1..]))
  }

  function CStrings(msgs: seq<bytes>): (ms: seq<Message>)
    requires AllSendable(msgs)
    ensures AllEncodable(ms)
  {
    if msgs == [] then [] else [CString(msgs[0], 0)] + CStrings(msgs[1..])
  }

  /** All bytes sent for the messages `ms`, one after the other, when the buffer holds `held` at first. */
  function SentForAll(held: bytes, ms: seq<Message>): bytes
    requires AllEncodable(ms)
    decreases |ms|
  {
    if ms == [] then [] else SentFor(held, ms[0]) + SentForAll(held + Frame(ms[0]), ms[1..])
  }

  lemma SendTurn(held: bytes, msgs: seq<bytes>)
    requires AllSendable(msgs)
    ensures msgs == [] ==> held + Frames(CStrings(msgs)) == held && SentForAll(held, CStrings(msgs)) == []
    ensures msgs != [] ==>
              var m, ms := CString(msgs[0], 0), CStrings(msgs[1..]);
              && held + Frames(CStrings(msgs)) == held + Frame(m) + Frames(ms)
              && SentForAll(held, CStrings(msgs)) == SentFor(held, m) + SentForAll(held + Frame(m), ms)
  {
    hide CString, Frame, SentFor;
    if msgs == [] {
      assert held + Frames([]) == held;
    } else {
      var m, ms := CString(msgs[0], 0), CStrings(msgs[1..]);
      assert CStrings(msgs)[0] == m && CStrings(msgs)[1..] == ms;
      assert held + (Frame(m) + Frames(ms)) == held + Frame(m) + Frames(ms);
    }
  }

  predicate AllFitWhole(ms: seq<Message>) {
    ms == [] || (|ms[0]| <= MAX_WHOLE && AllFitWhole(ms[1..]))
  }

  lemma FitWholeTurn(msgs: seq<bytes>)
    requires AllSendable(msgs)
    ensures AllFitWhole(CStrings(msgs)) <==>
              msgs == [] || (|CString(msgs[0], 0)| <= MAX_WHOLE && AllFitWhole(CStrings(msgs[1..])))
  {
    hide CString;
    if msgs != [] {
      assert CStrings(msgs)[0] == CString(msgs[0], 0) && CStrings(msgs)[1..] == CStrings(msgs[1..]);
    }
  }

  /** A session at standard input, as far as the messages fit. */
  method SendEachWhole(codec: Codec, buffer: Buffer, msgs: seq<bytes>) returns (fits: bool, sent: seq<bytes>)
    requires buffer.Valid() && AllSendable(msgs)
    modifies buffer, buffer.data
    ensures buffer.Valid() && (buffer.data == old(buffer.data) || fresh(buffer.data))
    ensures fits <==> AllFitWhole(CStrings(msgs))
    ensures fits ==>
              buffer.Contents() == old(buffer.Contents()) + Frames(CStrings(msgs))
              && Flatten(sent) == SentForAll(old(buffer.Contents()), CStrings(msgs))
    decreases |msgs|
  {
    hide Buffer.Contents, Layout.Valid, Frame, SentFor, CString, CStrings, Frames, SentForAll, Flatten, AllFitWhole;
    SendTurn(buffer.Contents(), msgs);
    FitWholeTurn(msgs);
    NothingFlat<byte>();
    fits, sent := true, [];
    if msgs != [] {
      var first, others;
      fits, first := SendWhole(codec, buffer, msgs[0]);
      if fits {
        fits, others := SendEachWhole(codec, buffer, msgs[1..]);
        FlattenFirst(first, others);
        sent := [first] + others;
      }
    }
  }

  /** A session of `test`. */
  method SendEach(codec: Codec, buffer: Buffer, msgs: seq<bytes>) returns (sent: seq<bytes>)
    requires buffer.Valid() && AllSendable(msgs)
    modifies buffer, buffer.data
    ensures buffer.Valid() && (buffer.data == old(buffer.data) || fresh(buffer.data))
    ensures buffer.Contents() == old(buffer.Contents()) + Frames(CStrings(msgs))
    ensures Flatten(sent) == SentForAll(old(buffer.Contents()), CStrings(msgs))
    decreases |msgs|
  {
    hide Buffer.Contents, Layout.Valid, Frame, SentFor, Pieces, CString, CStrings, Frames, SentForAll, Flatten;
    SendTurn(buffer.Contents(), msgs);
    NothingFlat<byte>();
    sent := [];
    if msgs != [] {
      ghost var held := buffer.Contents();
      sent := SendSplit(codec, buffer, msgs[0]);
      PiecesCoverAll(SentFor(held, CString(msgs[0], 0)));
      var others := SendEach(codec, buffer, msgs[1..]);
      FlattenAppend(sent, others);
      sent := sent + others;
    }
  }

  /** A frame at the front of any bytes determines the message. */
  lemma {:induction false} FrameIsPrefixFree(a: Message, s: bytes, b: Message, t: bytes)
    requires Encodable(a) && Encodable(b) && Frame(a) + s == Frame(b) + t
    ensures a == b && s == t
  {
    hide HeaderOf;
    FrameHead(a, s);
    FrameHead(b, t);
    assert a == (Frame(a) + s)[HEADER_LEN..HEADER_LEN + |a|];
    assert b == (Frame(b) + t)[HEADER_LEN..HEADER_LEN + |b|];
    assert s == (Frame(a) + s)[|Frame(a)|..] && t == (Frame(b) + t)[|Frame(b)|..];
  }

  /** A client that has sent `past` sends the new frame if and only if `past` is empty or began with the same
      message. */
  lemma {:induction false} SentIsNewFrame(past: seq<Message>, m: Message)
    requires AllEncodable(past) && Encodable(m)
    ensures SentFor(Frames(past), m) == Frame(m) <==> past == [] || past[0] == m
  {
    hide HeaderOf, Frame;
    if past == [] {
      assert Frames(past) + Frame(m) == Frame(m) && Frame(m)[..|Frame(m)|] == Frame(m);
    } else {
      var first, behind := past[0], Frames(past[1..]) + Frame(m);
      assert Frames(past) + Frame(m) == Frame(first) + behind;
      if first == m {
        assert (Frame(m) + behind)[..|Frame(m)|] == Frame(m);
      } else if SentFor(Frames(past), m) == Frame(m) {
        assert Frame(first) + behind == Frame(m) + (Frame(first) + behind)[|Frame(m)|..];
        FrameIsPrefixFree(first, behind, m, (Frame(first) + behind)[|Frame(m)|..]);
      }
    }
  }

  predicate AllAre(ms: seq<Message>, m: Message) {
    ms == [] || (ms[0] == m && AllAre(ms[1..], m))
  }

  lemma {:induction false} FramesAppend(a: seq<Message>, b: seq<Message>)
    requires AllEncodable(a) && AllEncodable(b)
    ensures Frames(a + b) == Frames(a) + Frames(b)
  {
    hide Frame;
    if a == [] {
      assert a + b == b;
    } else {
      FramesAppend(a[1..], b);
      assert (a + b)[1..] == a[1..] + b;
    }
  }

  lemma SentForSize(held: bytes, m: Message)
    requires Encodable(m)
    ensures |SentFor(held, m)| == |Frame(m)|
  {
    hide Frame;
  }

  lemma {:induction false} SentAfterMessages(past: seq<Message>, ms: seq<Message>)
    requires AllEncodable(past) && AllEncodable(ms) && past != []
    ensures |SentForAll(Frames(past), ms)| == |Frames(ms)|
    ensures SentForAll(Frames(past), ms) == Frames(ms) <==> AllAre(ms, past[0])
    decreases |ms|
  {
    hide Frame, SentFor;
    if ms != [] {
      var m := ms[0];
      SentIsNewFrame(past, m);
      FramesAppend(past, [m]);
      assert Frames([m]) == Frame(m);
      SentAfterMessages(past + [m], ms[1..]);
      SentForSize(Frames(past), m);
      SamePrefix(SentFor(Frames(past), m), SentForAll(Frames(past) + Frame(m), ms[1..]), Frame(m), Frames(ms[1..]));
    }
  }

  /** A client sends what it was given if and only if it was given one message again and again. */
  lemma {:induction false} SentIsGiven(ms: seq<Message>)
    requires AllEncodable(ms)
    ensures |SentForAll([], ms)| == |Frames(ms)|
    ensures SentForAll([], ms) == Frames(ms) <==> ms == [] || AllAre(ms, ms[0])
  {
    hide Frame, SentFor;
    if ms != [] {
      var m := ms[0];
      SentIsNewFrame([], m);
      assert Frames([]) == [] && [] + Frame(m) == Frame(m) && Frames([m]) == Frame(m);
      SentAfterMessages([m], ms[1..]);
      SamePrefix(SentFor([], m), SentForAll(Frame(m), ms[1..]), Frame(m), Frames(ms[1..]));
    }
  }

  lemma {:induction false} AllAreAt(ms: seq<Message>, m: Message)
    requires AllAre(ms, m)
    ensures forall i :: 0 <= i < |ms| ==> ms[i] == m
  {
    if ms != [] {
      AllAreAt(ms[1..], m);
    }
  }

  /** From client to decoder, however the bytes are cut: the messages arrive if and only if they are all the same one
      and that has 1 to 4096 bytes. */
  lemma {:induction false} SenderMeetsDecoder(ms: seq<Message>, chunks: seq<bytes>)
    requires AllEncodable(ms) && Flatten(chunks) == SentForAll([], ms)
    ensures Delivered([], chunks) == ms <==>
              ms == [] || (AllAre(ms, ms[0]) && 0 < |ms[0]| <= MAX_MESSAGE_SIZE)
  {
    hide Delivered, Unread, Frames, SentForAll;
    SentIsGiven(ms);
    RunConserves(chunks);
    if Delivered([], chunks) == ms {
      assert Unread([], chunks) == [];
      assert Frames(ms) + [] == Frames(ms);
    }
    if Flatten(chunks) == Frames(ms) {
      RoundTripExactly(ms, chunks);
      if ms != [] && AllAre(ms, ms[0]) {
        AllAreAt(ms, ms[0]);
      }
    }
  }

  lemma SentForBoth(a: Message, b: Message)
    requires Encodable(a) && Encodable(b)
    ensures SentForAll([], [a, b]) == SentFor([], a) + SentFor(Frame(a), b)
  {
    hide Frame, SentFor;
    assert [a, b][1..] == [b] && [b][1..] == [] && [] + Frame(a) == Frame(a);
    assert SentForAll(Frame(a), [b]) == SentFor(Frame(a), b);
  }

  /** Two different messages of equal length: the first is sent, and arrives, twice. */
  lemma {:induction false} SecondMessageIsLost(a: Message, b: Message, chunks: seq<bytes>)
    requires 0 < |a| == |b| <= MAX_MESSAGE_SIZE && a != b
    requires Flatten(chunks) == SentForAll([], [a, b])
    ensures Delivered([], chunks) == [a, a] && [a, a] != [a, b]
  {
    hide Delivered, Deliverable;
    assert SentFor([], a) == Frame(a);
    assert SentFor(Frame(a), b) == Frame(a);
    SentForBoth(a, b);
    assert Frames([a, a]) == Frame(a) + Frame(a) by {
      assert [a, a][1..] == [a] && Frames([a]) == Frame(a);
    }
    RoundTripExactly([a, a], chunks);
    assert [a, a][1] != [a, b][1];
  }

  /** The reader of standard input sends the new frame, and within the bounds of `sendBuf`, if and only if the message
      has at most 1020 bytes and nothing was sent before or the first message sent was the same. */
  lemma WholeIsNewFrame(past: seq<Message>, m: Message)
    requires AllEncodable(past) && Encodable(m)
    ensures |SentFor(Frames(past), m)| <= SEND_BUF && SentFor(Frames(past), m) == Frame(m) <==>
              |m| <= MAX_WHOLE && (past == [] || past[0] == m)
  {
    hide Frame, Frames, SentFor;
    SentIsNewFrame(past, m);
    SentForSize(Frames(past), m);
  }

  lemma {:induction false} AllFitWholeIfSame(ms: seq<Message>, m: Message)
    requires AllAre(ms, m) && |m| <= MAX_WHOLE
    ensures AllFitWhole(ms)
  {
    if ms != [] {
      AllFitWholeIfSame(ms[1..], m);
    }
  }

  /** From standard input to decoder, however the bytes are cut: all copies are within bounds and the messages arrive
      if and only if they are all the same one and that has 1 to 1020 bytes. */
  lemma WholeSenderMeetsDecoder(ms: seq<Message>, chunks: seq<bytes>)
    requires AllEncodable(ms) && (AllFitWhole(ms) ==> Flatten(chunks) == SentForAll([], ms))
    ensures AllFitWhole(ms) && Delivered([], chunks) == ms <==>
              ms == [] || (AllAre(ms, ms[0]) && 0 < |ms[0]| <= MAX_WHOLE)
  {
    hide Delivered, SentForAll;
    if AllFitWhole(ms) {
      SenderMeetsDecoder(ms, chunks);
    } else if AllAre(ms, ms[0]) && |ms[0]| <= MAX_WHOLE {
      AllFitWholeIfSame(ms, ms[0]);
    }
  }

  /** A fresh decoder that is fed the pieces of one frame delivers the message, if it is not empty and not too long;
      nothing else is ever delivered from them. */
  lemma SplitSenderMeetsDecoder(m: Message)
    requires Encodable(m)
    ensures Delivered([], Pieces(Frame(m))) == if m != [] && |m| <= MAX_MESSAGE_SIZE then [m] else []
  {
    PiecesCoverAll(Frame(m));
    assert Frames([m]) == Frame(m);
    RoundTrip([m], Pieces(Frame(m)));
    assert [m][..0] == [] && [m][..1] == [m];
  }

  /** A first message of 1021 bytes is one byte too long for `sendBuf`, though the decoder would take it. */
  lemma TooLongForOnePiece(m: Message)
    requires |m| == 1021
    ensures SentFor([], m) == Frame(m) && |SentFor([], m)| == SEND_BUF + 1 && !AllFitWhole([m])
    ensures Delivered([], [Frame(m)]) == [m] && Delivered([], Pieces(SentFor([], m))) == [m]
  {
    hide Frame, Delivered, Pieces;
    assert [] + Frame(m) == Frame(m) && Frames([m]) == Frame(m);
    FlattenFirst(Frame(m), []);
    NothingFlat<byte>();
    RoundTripExactly([m], [Frame(m)]);
    SplitSenderMeetsDecoder(m);
  }
}
