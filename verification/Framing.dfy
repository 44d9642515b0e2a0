/** The length-prefixed message stream of chat/Codec as functions on byte strings and on chunk lists. */
module Framing {
  import opened Bytes
  import opened Buffers

  const MAX_MESSAGE_SIZE: nat := 4096
  const CODEC_BUF: nat := 8192

  type Message = bytes

  /** The length word as the decoder reads it: an unsigned word put into an `int`. */
  function HeaderOf(s: bytes): int32
    requires |s| >= HEADER_LEN
  {
    ToInt32(FromBigEndian(s))
  }

  /** The decoder has met a length that it refuses. */
  predicate Stuck(s: bytes) {
    |s| > HEADER_LEN && (HeaderOf(s) > MAX_MESSAGE_SIZE || HeaderOf(s) < 0)
  }

  /** A whole frame is at hand and more than a bare header. */
  predicate Ready(s: bytes) {
    |s| > HEADER_LEN && !Stuck(s) && HeaderOf(s) + HEADER_LEN <= |s|
  }

  function Head(s: bytes): Message
    requires Ready(s)
  {
    s[HEADER_LEN..HEADER_LEN + HeaderOf(s)]
  }

  function Tail(s: bytes): (t: bytes)
    requires Ready(s)
    ensures |t| < |s|
  {
    s[HEADER_LEN + HeaderOf(s)..]
  }

  /** What the decoder delivers from the unread bytes `s`. */
  function Messages(s: bytes): seq<Message>
    decreases |s|
  {
    if Ready(s) then [Head(s)] + Messages(Tail(s)) else []
  }

  /** What the decoder leaves of the unread bytes `s`. */
  function Rest(s: bytes): (t: bytes)
    ensures |t| <= |s| && !Ready(t)
    decreases |s|
  {
    if Ready(s) then Rest(Tail(s)) else s
  }

  predicate Encodable(m: Message) {
    |m| < TWO_31 - HEADER_LEN
  }

  function Frame(m: Message): (f: bytes)
    requires Encodable(m)
    ensures |f| == HEADER_LEN + |m|
  {
    BigEndian(|m|) + m
  }

  predicate AllEncodable(ms: seq<Message>) {
    forall i :: 0 <= i < |ms| ==> Encodable(ms[i])
  }

  predicate AllShort(ms: seq<Message>) {
    forall i :: 0 <= i < |ms| ==> |ms[i]| <= MAX_MESSAGE_SIZE
  }

  function Frames(ms: seq<Message>): bytes
    requires AllEncodable(ms)
  {
    if ms == [] then [] else Frame(ms[0]) + Frames(ms[1..])
  }

  // ---- One buffer full of bytes ----

  lemma {:induction false} ReadyHead(s: bytes)
    requires Ready(s)
    ensures |Head(s)| <= MAX_MESSAGE_SIZE && s == Frame(Head(s)) + Tail(s)
  {
    BigEndianOfRead(s);
  }

  lemma {:induction false} FrameHead(m: Message, t: bytes)
    requires Encodable(m)
    ensures HeaderOf(Frame(m) + t) == |m|
    ensures |m| > MAX_MESSAGE_SIZE ==> Stuck(Frame(m) + t)
    ensures |m| <= MAX_MESSAGE_SIZE && (m != [] || t != []) ==>
              Ready(Frame(m) + t) && Head(Frame(m) + t) == m && Tail(Frame(m) + t) == t
  {
    assert Frame(m) + t == BigEndian(|m|) + (m + t);
    BigEndianRoundTrip(|m|, m + t);
  }

  lemma {:induction false} HeaderStays(s: bytes, t: bytes)
    requires |s| >= HEADER_LEN
    ensures HeaderOf(s + t) == HeaderOf(s)
    ensures Ready(s) ==> Ready(s + t) && Head(s + t) == Head(s) && Tail(s + t) == Tail(s) + t
    ensures Stuck(s) ==> Stuck(s + t)
  {
    assert (s + t)[..4] == s[..4];
  }

  /** The loop of the decoder by the numbers: a message is taken if more than four bytes are there, the first four are
      a network-order word of at most 4096, and that many bytes follow. Words from 2^31 on, which are negative as
      `int`, exceed 4096 too. */
  lemma TakenByNumbers(s: bytes)
    ensures Messages(s) ==
              if |s| > 4 && FromBigEndian(s) <= 4096 && 4 + FromBigEndian(s) <= |s| then
                [s[4..4 + FromBigEndian(s)]] + Messages(s[4 + FromBigEndian(s)..])
              else
                []
    ensures Stuck(s) <==> |s| > 4 && FromBigEndian(s) > 4096
  {
    hide FromBigEndian;
  }

  /** A frame is its message behind a network-order word with the length of the message. */
  lemma FrameLayout(m: Message)
    requires Encodable(m)
    ensures |Frame(m)| == 4 + |m| && FromBigEndian(Frame(m)) == |m| && Frame(m)[4..] == m
  {
    BigEndianRoundTrip(|m|, m);
  }

  /** Nothing is lost, invented or reordered: the bytes are exactly the frames of the delivered messages and then
      the rest. */
  lemma {:induction false} DrainConserves(s: bytes)
    ensures AllShort(Messages(s)) && AllEncodable(Messages(s))
    ensures s == Frames(Messages(s)) + Rest(s)
    decreases |s|
  {
    hide Frame, HeaderOf, Head, Tail;
    if Ready(s) {
      ReadyHead(s);
      DrainConserves(Tail(s));
      assert Messages(s)[1..] == Messages(Tail(s));
    }
  }

  /** More bytes never change what has been delivered, and decoding can resume from the rest. */
  lemma {:induction false} DrainAppend(s: bytes, t: bytes)
    ensures Messages(s + t) == Messages(s) + Messages(Rest(s) + t)
    ensures Rest(s + t) == Rest(Rest(s) + t)
    decreases |s|
  {
    hide Head, Tail, HeaderOf;
    if Ready(s) {
      HeaderStays(s, t);
      DrainAppend(Tail(s), t);
    }
  }

  // ---- Whole runs: a run is a list of chunks, read in order, starting with `u` unread ----

  function Delivered(u: bytes, chunks: seq<bytes>): seq<Message>
    decreases |chunks|
  {
    if chunks == [] then [] else Messages(u + chunks[0]) + Delivered(Rest(u + chunks[0]), chunks[1..])
  }

  function Unread(u: bytes, chunks: seq<bytes>): bytes
    decreases |chunks|
  {
    if chunks == [] then u else Unread(Rest(u + chunks[0]), chunks[1..])
  }

  /** Where the cuts fall does not matter: a run delivers what one drain of all its bytes delivers, and leaves
      the same bytes unread. This holds after a refused length too. */
  lemma {:induction false} ChunkIndependence(u: bytes, chunks: seq<bytes>)
    requires !Ready(u)
    ensures Delivered(u, chunks) == Messages(u + Flatten(chunks))
    ensures Unread(u, chunks) == Rest(u + Flatten(chunks))
    decreases |chunks|
  {
    hide Ready;
    if chunks == [] {
      assert u + Flatten(chunks) == u;
    } else {
      var fed := u + chunks[0];
      ChunkIndependence(Rest(fed), chunks[1..]);
      DrainAppend(fed, Flatten(chunks[1..]));
      assert u + Flatten(chunks) == fed + Flatten(chunks[1..]);
    }
  }

  /** Two ways to cut one stream into chunks cannot be told apart by what is delivered or left unread. */
  lemma {:induction false} CutsDoNotMatter(a: seq<bytes>, b: seq<bytes>)
    requires Flatten(a) == Flatten(b)
    ensures Delivered([], a) == Delivered([], b) && Unread([], a) == Unread([], b)
  {
    hide Delivered, Unread, Messages, Rest;
    ChunkIndependence([], a);
    ChunkIndependence([], b);
  }

  /** Over every run the bytes fed are the frames of the delivered messages followed by the unread bytes. */
  lemma {:induction false} RunConserves(chunks: seq<bytes>)
    ensures AllShort(Delivered([], chunks)) && AllEncodable(Delivered([], chunks))
    ensures Flatten(chunks) == Frames(Delivered([], chunks)) + Unread([], chunks)
    ensures !Ready(Unread([], chunks))
  {
    hide Delivered, Unread, Messages, Rest, Frames;
    ChunkIndependence([], chunks);
    DrainConserves([] + Flatten(chunks));
    assert [] + Flatten(chunks) == Flatten(chunks);
  }

  /** Once a refused length heads the unread bytes, no later chunk delivers anything; all bytes pile up. */
  lemma {:induction false} StickyStop(u: bytes, chunks: seq<bytes>)
    requires Stuck(u)
    ensures Delivered(u, chunks) == []
    ensures Unread(u, chunks) == u + Flatten(chunks) && Stuck(Unread(u, chunks))
  {
    hide Delivered, Unread;
    ChunkIndependence(u, chunks);
    HeaderStays(u, Flatten(chunks));
  }

  // ---- Round trip ----

  /** How many of `ms` a decoder delivers: those ahead of the first oversized one, less an empty message at the
      very end. */
  function Deliverable(ms: seq<Message>): (n: nat)
    ensures n <= |ms|
  {
    if ms == [] || |ms[0]| > MAX_MESSAGE_SIZE || ms == [[]] then 0 else 1 + Deliverable(ms[1..])
  }

  lemma {:induction false} DeliverableAll(ms: seq<Message>)
    ensures Deliverable(ms) == |ms| <==> AllShort(ms) && (ms == [] || ms[|ms| - 1] != [])
  {
    if ms == [] || |ms[0]| > MAX_MESSAGE_SIZE || ms == [[]] {
    } else {
      DeliverableAll(ms[1..]);
      assert ms == [ms[0]] + ms[1..];
      if |ms| > 1 {
        assert ms[1..][|ms| - 2] == ms[|ms| - 1];
      }
    }
  }

  lemma {:induction false} DrainFrames(ms: seq<Message>)
    requires AllEncodable(ms)
    ensures Messages(Frames(ms)) == ms[..Deliverable(ms)]
    ensures Rest(Frames(ms)) == Frames(ms[Deliverable(ms)..])
  {
    hide Head, Tail, HeaderOf, Frame;
    if ms != [] {
      var t := Frames(ms[1..]);
      FrameHead(ms[0], t);
      if ms == [[]] {
        assert Frames(ms) == Frame([]);
      } else if |ms[0]| <= MAX_MESSAGE_SIZE {
        DrainFrames(ms[1..]);
        var k := Deliverable(ms[1..]);
        assert ms[..1 + k] == [ms[0]] + ms[1..][..k];
        assert ms[1 + k..] == ms[1..][k..];
      }
    }
  }

  /** Encoding messages and decoding the stream, however it is cut, delivers exactly the deliverable ones. */
  lemma {:induction false} RoundTrip(ms: seq<Message>, chunks: seq<bytes>)
    requires AllEncodable(ms) && Flatten(chunks) == Frames(ms)
    ensures Delivered([], chunks) == ms[..Deliverable(ms)]
    ensures Unread([], chunks) == Frames(ms[Deliverable(ms)..])
  {
    hide Delivered, Unread, Messages, Rest, Frames, Deliverable;
    ChunkIndependence([], chunks);
    DrainFrames(ms);
    assert [] + Flatten(chunks) == Frames(ms);
  }

  /** All messages come back if and only if each is small enough and the last is not empty. */
  lemma {:induction false} RoundTripExactly(ms: seq<Message>, chunks: seq<bytes>)
    requires AllEncodable(ms) && Flatten(chunks) == Frames(ms)
    ensures Delivered([], chunks) == ms <==> AllShort(ms) && (ms == [] || ms[|ms| - 1] != [])
  {
    hide Delivered, Frames, Deliverable, AllShort;
    RoundTrip(ms, chunks);
    DeliverableAll(ms);
    if Deliverable(ms) < |ms| {
      assert |ms[..Deliverable(ms)]| < |ms|;
    } else {
      assert ms[..Deliverable(ms)] == ms;
    }
  }

  /** Further bytes of whatever kind release a withheld empty message. */
  lemma {:induction false} MoreBytesRelease(ms: seq<Message>, more: bytes)
    requires AllEncodable(ms) && AllShort(ms) && more != []
    ensures Messages(Frames(ms) + more) == ms + Messages(more)
    ensures Rest(Frames(ms) + more) == Rest(more)
  {
    hide Head, Tail, HeaderOf, Frame;
    if ms == [] {
      assert Frames(ms) + more == more;
    } else {
      var t := Frames(ms[1..]) + more;
      assert Frames(ms) + more == Frame(ms[0]) + t;
      FrameHead(ms[0], t);
      MoreBytesRelease(ms[1..], more);
    }
  }

  // ---- Memory ----

  /** The shape of the buffer after reading one chunk and draining. */
  function AfterRead(l: Layout, u: bytes, chunk: bytes): Layout
    requires l.Valid()
  {
    l.Append(|chunk|).Retrieve(|u + chunk| - |Rest(u + chunk)|)
  }

  lemma {:induction false} AfterReadFits(l: Layout, u: bytes, chunk: bytes)
    requires l.Valid() && l.Readable() == |u|
    ensures AfterRead(l, u, chunk).Valid() && AfterRead(l, u, chunk).Readable() == |Rest(u + chunk)|
    ensures AfterRead(l, u, chunk).size == l.Append(|chunk|).size
  {
    l.AppendKeepsValid(|chunk|);
    l.Append(|chunk|).RetrieveTwice(|u + chunk| - |Rest(u + chunk)|, 0);
  }

  /** The shape of the buffer after a run. */
  function Storage(l: Layout, u: bytes, chunks: seq<bytes>): (r: Layout)
    requires l.Valid() && l.Readable() == |u|
    ensures r.Valid() && r.Readable() == |Unread(u, chunks)|
    decreases |chunks|
  {
    if chunks == [] then l
    else
      AfterReadFits(l, u, chunks[0]);
      Storage(AfterRead(l, u, chunks[0]), Rest(u + chunks[0]), chunks[1..])
  }

  /** What a buffer of `size` bytes can grow to when chunks have at most `r` bytes. */
  function Bound(size: nat, r: nat): nat {
    if 4099 + r <= size then size else 4098 + 2 * r
  }

  predicate AllWithin(chunks: seq<bytes>, r: nat) {
    forall i :: 0 <= i < |chunks| ==> |chunks[i]| <= r
  }

  /** The unread bytes ahead of the last chunk decide: until a chunk arrives on a stuck decoder, at most 4099 bytes
      stay unread and the buffer never outgrows the bound. */
  lemma {:induction false} BoundedMemory(l: Layout, u: bytes, chunks: seq<bytes>, r: nat)
    requires l.Valid() && l.Readable() == |u| && !Ready(u)
    requires AllWithin(chunks, r)
    requires chunks != [] ==> !Stuck(Unread(u, chunks[..|chunks| - 1]))
    ensures l.size <= Storage(l, u, chunks).size <= Bound(l.size, r)
    ensures !Stuck(Unread(u, chunks)) ==> |Unread(u, chunks)| <= 4099
    decreases |chunks|
  {
    if chunks != [] {
      var u' := Rest(u + chunks[0]);
      assert !Stuck(u) by {
        if Stuck(u) { StickyStop(u, chunks[..|chunks| - 1]); }
      }
      l.AppendKeepsValid(|chunks[0]|);
      AfterReadFits(l, u, chunks[0]);
      if |chunks| > 1 {
        assert chunks[..|chunks| - 1][1..] == chunks[1..][..|chunks| - 2];
      }
      BoundedMemory(AfterRead(l, u, chunks[0]), u', chunks[1..], r);
    }
  }

  /** What holds of a decoder from its construction on: as long as chunks have at most 4093 bytes its buffer keeps
      its size. */
  lemma {:induction false} BoundedFromTheStart(l: Layout, chunks: seq<bytes>, r: nat)
    requires l.Valid() && l.size >= CODEC_BUF && l.Readable() == 0
    requires AllWithin(chunks, r)
    requires chunks != [] ==> !Stuck(Unread([], chunks[..|chunks| - 1]))
    ensures r <= 4093 ==> Storage(l, [], chunks).size == l.size
    ensures r >= 4094 && l.size <= 4098 + r ==> l.size <= Storage(l, [], chunks).size <= 4098 + 2 * r
    ensures !Stuck(Unread([], chunks)) ==> |Unread([], chunks)| <= 4099
  {
    hide Unread, Storage, AllWithin;
    BoundedMemory(l, [], chunks, r);
  }

  /** A frame whose end has not arrived stays unread, behind a complete one. */
  lemma {:induction false} CutFrameWaits(a: Message, b: Message, cut: nat)
    requires 0 < |a| <= MAX_MESSAGE_SIZE && |b| <= MAX_MESSAGE_SIZE && cut < |Frame(b)|
    ensures Rest(Frame(b)[..cut]) == Frame(b)[..cut] && !Stuck(Frame(b)[..cut])
    ensures Rest(Frame(a) + Frame(b)[..cut]) == Frame(b)[..cut]
  {
    hide Head, Tail, HeaderOf, Frame;
    var part := Frame(b)[..cut];
    FrameHead(a, part);
    if cut >= HEADER_LEN {
      FrameHead(b, []);
      assert Frame(b) + [] == part + Frame(b)[cut..];
      HeaderStays(part, Frame(b)[cut..]);
    }
  }

  lemma NothingRead(l: Layout, u: bytes)
    requires l.Valid() && l.Readable() == |u|
    ensures Storage(l, u, []) == l && Unread(u, []) == u
  {
  }

  lemma {:induction false} StorageStep(l: Layout, u: bytes, chunk: bytes, chunks: seq<bytes>)
    requires l.Valid() && l.Readable() == |u|
    ensures AfterRead(l, u, chunk).Valid() && AfterRead(l, u, chunk).Readable() == |Rest(u + chunk)|
    ensures AfterRead(l, u, chunk).size == l.Append(|chunk|).size
    ensures Storage(l, u, [chunk] + chunks) == Storage(AfterRead(l, u, chunk), Rest(u + chunk), chunks)
    ensures Unread(u, [chunk] + chunks) == Unread(Rest(u + chunk), chunks)
  {
    hide Rest, AfterRead;
    AfterReadFits(l, u, chunk);
    assert ([chunk] + chunks)[1..] == chunks;
  }

  /** Messages, the last not empty, whose frames have `n` bytes in all. */
  function Filler(n: nat): (ms: seq<Message>)
    requires n > HEADER_LEN
    ensures AllShort(ms) && AllEncodable(ms) && |Frames(ms)| == n
    ensures ms != [] && ms[|ms| - 1] != []
  {
    if n <= MAX_MESSAGE_SIZE + HEADER_LEN then [seq(n - HEADER_LEN, _ => 0)] else [[]] + Filler(n - HEADER_LEN)
  }

  /** Fills an empty buffer of `4098 + r` bytes to its end while `r - 1` bytes at its front are free. */
  function FillToTheEnd(r: nat, f: bytes): seq<bytes>
    requires r > HEADER_LEN + 1 && |f| == 4100
  {
    [Frames(Filler(r - 1)) + f[..1], f[1..2050], f[2050..4099]]
  }

  /** Grows the buffer to `4098 + r` bytes and leaves it empty. */
  function GrowOnce(r: nat, f: bytes): seq<bytes>
    requires r > HEADER_LEN + 2 && |f| == 4100
  {
    [f[..2050], f[2050..4099], f[4099..] + Frames(Filler(r - 2))]
  }

  lemma NothingWaits(b: Message, ms: seq<Message>)
    requires |b| <= MAX_MESSAGE_SIZE && AllShort(ms) && AllEncodable(ms) && ms != [] && ms[|ms| - 1] != []
    ensures Rest(Frame(b) + Frames(ms)) == []
  {
    hide Frame, Messages, Head, HeaderOf, Ready, Deliverable;
    DeliverableAll(ms);
    DrainFrames(ms);
    FrameHead(b, Frames(ms));
    assert ms[Deliverable(ms)..] == [];
  }

  lemma {:induction false} GrowsOnce(l: Layout, r: nat, b: Message)
    requires l.Valid() && l.Readable() == 0 && 4099 <= l.size < 4098 + r && r >= 2050
    requires |b| == MAX_MESSAGE_SIZE
    ensures AllWithin(GrowOnce(r, Frame(b)), r)
    ensures Storage(l, [], GrowOnce(r, Frame(b))) == Layout(4098 + r, 0, 0)
    ensures Unread([], GrowOnce(r, Frame(b))) == []
  {
    hide Rest, Frame, Frames, Filler, Ready;
    var f := Frame(b);
    var c1, c2, c3 := f[..2050], f[2050..4099], f[4099..] + Frames(Filler(r - 2));
    CutFrameWaits([0], b, 2050);
    CutFrameWaits([0], b, 4099);
    NothingWaits(b, Filler(r - 2));
    assert [] + c1 == c1 && f[..2050] + c2 == f[..4099] && f[..4099] + c3 == f + Frames(Filler(r - 2));
    StorageStep(l, [], c1, [c2, c3]);
    var l1 := AfterRead(l, [], c1);
    StorageStep(l1, f[..2050], c2, [c3]);
    var l2 := AfterRead(l1, f[..2050], c2);
    assert l2 == Layout(l.size, 0, 4099);
    StorageStep(l2, f[..4099], c3, []);
    assert [c1, c2, c3] == [c1] + [c2, c3] && [c2, c3] == [c2] + [c3] && [c3] == [c3] + [];
  }

  lemma {:induction false} FillsToTheEnd(l: Layout, r: nat, b: Message)
    requires l.Valid() && l.Readable() == 0 && l.size == 4098 + r && r >= 2050
    requires |b| == MAX_MESSAGE_SIZE
    ensures AllWithin(FillToTheEnd(r, Frame(b)), r)
    ensures Storage(l, [], FillToTheEnd(r, Frame(b))) == Layout(4098 + r, r - 1, 4098 + r)
    ensures Unread([], FillToTheEnd(r, Frame(b))) == Frame(b)[..4099]
  {
    hide Rest, Frame, Frames, Filler, Ready, Stuck, Storage, Unread, Messages, AllShort, AllEncodable;
    var f := Frame(b);
    var ms := Filler(r - 1);
    var c1, c2, c3 := Frames(ms) + f[..1], f[1..2050], f[2050..4099];
    CutFrameWaits([0], b, 1);
    CutFrameWaits([0], b, 2050);
    CutFrameWaits([0], b, 4099);
    assert Rest([] + c1) == f[..1] by {
      MoreBytesRelease(ms, f[..1]);
      assert [] + c1 == c1;
    }
    assert f[..1] + c2 == f[..2050] && f[..2050] + c3 == f[..4099];
    StorageStep(l, [], c1, [c2, c3]);
    var l1 := AfterRead(l, [], c1);
    assert l1 == Layout(l.size, r - 1, r);
    StorageStep(l1, f[..1], c2, [c3]);
    var l2 := AfterRead(l1, f[..1], c2);
    assert l2 == Layout(l.size, r - 1, r + 2049);
    StorageStep(l2, f[..2050], c3, []);
    NothingRead(AfterRead(l2, f[..2050], c3), f[..4099]);
    assert [c1, c2, c3] == [c1] + [c2, c3] && [c2, c3] == [c2] + [c3] && [c3] == [c3] + [];
  }

  lemma {:induction false} RunInTwo(l: Layout, u: bytes, a: seq<bytes>, b: seq<bytes>)
    requires l.Valid() && l.Readable() == |u|
    ensures Unread(u, a + b) == Unread(Unread(u, a), b)
    ensures Storage(l, u, a + b) == Storage(Storage(l, u, a), Unread(u, a), b)
    decreases |a|
  {
    hide Rest, AfterRead;
    if a == [] {
      assert a + b == b;
    } else {
      AfterReadFits(l, u, a[0]);
      RunInTwo(AfterRead(l, u, a[0]), Rest(u + a[0]), a[1..], b);
      assert (a + b)[0] == a[0] && (a + b)[1..] == a[1..] + b;
    }
  }

  /** Brings a buffer of `size` bytes to where the next `r` bytes drive it to its bound. */
  function WorstRun(size: nat, r: nat, f: bytes): seq<bytes>
    requires r > HEADER_LEN + 2 && |f| == 4100
  {
    (if size < 4098 + r then GrowOnce(r, f) else []) + FillToTheEnd(r, f)
  }

  /** The bound is attained, by a run of chunks of at most r bytes that no refused length ever blocks. This covers
      every r from 4094 on when the buffer has its initial size. */
  lemma {:induction false} BoundIsSharp(l: Layout, r: nat, b: Message, more: bytes)
    requires l.Valid() && l.Readable() == 0 && 4099 <= l.size <= 4098 + r && r >= 2050
    requires |b| == MAX_MESSAGE_SIZE && |more| == r
    ensures var chunks := WorstRun(l.size, r, Frame(b));
            && AllWithin(chunks + [more], r) && !Stuck(Unread([], chunks))
            && Storage(l, [], chunks + [more]).size == Bound(l.size, r) == 4098 + 2 * r
  {
    hide Rest, Frame, Ready, Stuck, Unread, Storage, GrowOnce, FillToTheEnd;
    var f := Frame(b);
    var first, last := if l.size < 4098 + r then GrowOnce(r, f) else [], FillToTheEnd(r, f);
    if l.size < 4098 + r {
      GrowsOnce(l, r, b);
    } else {
      NothingRead(l, []);
    }
    FillsToTheEnd(Layout(4098 + r, 0, 0), r, b);
    RunInTwo(l, [], first, last);
    RunInTwo(l, [], first + last, [more]);
    CutFrameWaits([0], b, 4099);
    StorageStep(Storage(l, [], first + last), f[..4099], more, []);
    assert [more] + [] == [more];
    NothingRead(AfterRead(Storage(l, [], first + last), f[..4099], more), Rest(f[..4099] + more));
  }

  // ---- The compaction as the repository has it ----

  predicate NeverCompacts(l: Layout, u: bytes, chunks: seq<bytes>)
    requires l.Valid() && l.Readable() == |u|
    decreases |chunks|
  {
    chunks == [] ||
    (&& !l.Compacts(|chunks[0]|)
     && (AfterReadFits(l, u, chunks[0]);
         NeverCompacts(AfterRead(l, u, chunks[0]), Rest(u + chunks[0]), chunks[1..])))
  }

  /** `Storage` with the assignments of `makeSpace` in the order as written; `None` is a failed assertion. */
  function StorageAsWritten(l: Layout, u: bytes, chunks: seq<bytes>): Option<Layout>
    decreases |chunks|
  {
    if chunks == [] then Some(l)
    else
      match l.AppendAsWritten(|chunks[0]|)
      case None => None
      case Some(a) =>
        StorageAsWritten(a.Retrieve(|u + chunks[0]| - |Rest(u + chunks[0])|), Rest(u + chunks[0]), chunks[1..])
  }

  /** A run of the code as written gets through, and then agrees with the intended one, if and only if it never
      compacts. */
  lemma {:induction false} AsWrittenRuns(l: Layout, u: bytes, chunks: seq<bytes>)
    requires l.Valid() && l.Readable() == |u|
    ensures StorageAsWritten(l, u, chunks) == if NeverCompacts(l, u, chunks) then Some(Storage(l, u, chunks)) else None
    decreases |chunks|
  {
    hide Rest;
    if chunks != [] {
      AfterReadFits(l, u, chunks[0]);
      l.AsWrittenIsRightUnlessCompacting(|chunks[0]|);
      AsWrittenRuns(AfterRead(l, u, chunks[0]), Rest(u + chunks[0]), chunks[1..]);
    }
  }

  /** Ordinary traffic reaches the failing assertion: two largest messages, the second cut ten bytes before its
      end, on a decoder that has just been constructed with room for 8192 bytes. */
  lemma {:induction false} AsWrittenFails(l: Layout, a: Message, b: Message)
    requires l.Valid() && CODEC_BUF <= l.size < CODEC_BUF + 8 && l.Readable() == 0
    requires |a| == MAX_MESSAGE_SIZE && |b| == MAX_MESSAGE_SIZE
    ensures StorageAsWritten(l, [], [Frame(a) + Frame(b)[..4090], Frame(b)[4090..]]) == None
  {
    hide Rest, Frame;
    var part := Frame(b)[..4090];
    var c, d := Frame(a) + part, Frame(b)[4090..];
    CutFrameWaits(a, b, 4090);
    assert [] + c == c;
    AsWrittenRuns(l, [], [c, d]);
    AfterReadFits(l, [], c);
    assert AfterRead(l, [], c).Compacts(|d|);
    assert [c, d][1..] == [d];
  }
  /** Every read finds room once the buffer is compacted and leaves something unread. */
  predicate NeverEmpty(size: nat, u: bytes, chunks: seq<bytes>)
    decreases |chunks|
  {
    chunks == [] ||
    (&& |u + chunks[0]| <= size && Rest(u + chunks[0]) != []
     && NeverEmpty(size, Rest(u + chunks[0]), chunks[1..]))
  }

  /** A buffer that never runs empty never resets, so the writer only advances: the code as written gets through if
      and only if the storage has room for all bytes that were ever read. */
  lemma {:induction false} AsWrittenNeedsRoomForAll(l: Layout, u: bytes, chunks: seq<bytes>)
    requires l.Valid() && l.Readable() == |u| && NeverEmpty(l.size, u, chunks)
    ensures StorageAsWritten(l, u, chunks).Some? <==> l.writer + |Flatten(chunks)| <= l.size
    decreases |chunks|
  {
    hide Rest;
    if chunks != [] {
      var n := |chunks[0]|;
      AfterReadFits(l, u, chunks[0]);
      l.AsWrittenIsRightUnlessCompacting(n);
      if l.writer + n <= l.size {
        assert AfterRead(l, u, chunks[0]).writer == l.writer + n;
        AsWrittenNeedsRoomForAll(AfterRead(l, u, chunks[0]), Rest(u + chunks[0]), chunks[1..]);
      } else {
        assert l.Compacts(n);
      }
    }
  }

  predicate AllZero(s: bytes) {
    forall i :: 0 <= i < |s| ==> s[i] == 0
  }

  /** Zeros are empty messages, the last of which waits. */
  lemma {:induction false} RestOfZeros(s: bytes)
    requires AllZero(s) && s != []
    ensures AllZero(Rest(s)) && 0 < |Rest(s)| <= HEADER_LEN
    decreases |s|
  {
    if |s| > HEADER_LEN {
      assert HeaderOf(s) == 0 && Tail(s) == s[HEADER_LEN..];
      RestOfZeros(Tail(s));
    }
  }

  lemma ZerosJoin(s: bytes, t: bytes)
    requires AllZero(s) && AllZero(t)
    ensures AllZero(s + t)
  {
  }

  lemma {:induction false} ZerosNeverEmpty(size: nat, u: bytes, chunks: seq<bytes>)
    requires AllZero(u) && |u| <= HEADER_LEN
    requires forall i :: 0 <= i < |chunks| ==> AllZero(chunks[i]) && 0 < |chunks[i]| <= size - HEADER_LEN
    ensures NeverEmpty(size, u, chunks)
    decreases |chunks|
  {
    hide Rest, AllZero;
    if chunks != [] {
      assert AllZero(u + chunks[0]) by { ZerosJoin(u, chunks[0]); }
      RestOfZeros(u + chunks[0]);
      ZerosNeverEmpty(size, Rest(u + chunks[0]), chunks[1..]);
    }
  }

  /** Empty messages defeat the code as written however they are cut: with chunks of at most 8188 bytes a new decoder
      of 8192 bytes gets through if and only if it reads no more than 8192 bytes in its whole life. */
  lemma EmptyMessagesFail(l: Layout, chunks: seq<bytes>)
    requires l.Valid() && l.Readable() == 0
    requires forall i :: 0 <= i < |chunks| ==> AllZero(chunks[i]) && 0 < |chunks[i]| <= l.size - HEADER_LEN
    ensures StorageAsWritten(l, [], chunks).Some? <==> |Flatten(chunks)| <= l.size
  {
    hide StorageAsWritten, NeverEmpty, Flatten;
    ZerosNeverEmpty(l.size, [], chunks);
    AsWrittenNeedsRoomForAll(l, [], chunks);
  }
}
