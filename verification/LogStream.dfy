/** Log formatting of common/log: digits of an `int` written backwards and reversed in place, a fixed buffer that
    takes a piece whole or not at all, and the stream that puts pieces into it. */
module LogStreams {
  import opened Bytes

  const SMALL_BUFFER: nat := 4096
  const MAX_NUMERIC_SIZE: nat := 32

  // ---- Decimal text ----

  /** `zero[lsd]`: the table reads "9876543210123456789" and `zero` points at its middle. */
  const DIGITS: string := "9876543210123456789"

  function Abs(i: int): nat {
    if i < 0 then -i else i
  }

  /** Remainder and quotient of C++: the quotient is cut towards zero. */
  function Quotient(i: int32): int32 {
    if i < 0 then -(Abs(i) / 10) else i / 10
  }

  function Remainder(i: int32): (r: int)
    ensures -10 < r < 10 && i == 10 * Quotient(i) + r
  {
    i - 10 * Quotient(i)
  }

  function DigitChar(d: nat): char
    requires d < 10
  {
    '0' + d as char
  }

  /** The usual decimal numeral of a natural number. */
  function Decimal(n: nat): (s: string)
    ensures |s| >= 1
  {
    if n < 10 then [DigitChar(n)] else Decimal(n / 10) + [DigitChar(n % 10)]
  }

  /** The number that a string of digits stands for. */
  function ReadDecimal(s: string): int {
    if s == [] then 0 else 10 * ReadDecimal(s[..|s| - 1]) + (s[|s| - 1] as int - '0' as int)
  }

  lemma {:induction false} DecimalReadsBack(n: nat)
    ensures ReadDecimal(Decimal(n)) == n
    ensures Decimal(n)[0] == '0' ==> n == 0
    ensures forall i :: 0 <= i < |Decimal(n)| ==> '0' <= Decimal(n)[i] <= '9'
  {
    var s := Decimal(n);
    if n < 10 {
      assert s[..0] == [];
    } else {
      DecimalReadsBack(n / 10);
      assert s[..|s| - 1] == Decimal(n / 10);
    }
  }

  function Pow10(k: nat): nat {
    if k == 0 then 1 else 10 * Pow10(k - 1)
  }

  lemma {:induction false} DecimalIsShort(n: nat, k: nat)
    requires k >= 1 && n < Pow10(k)
    ensures |Decimal(n)| <= k
  {
    if n >= 10 {
      DecimalIsShort(n / 10, k - 1);
    }
  }

  lemma IntFitsTenDigits(v: int32)
    ensures |Decimal(Abs(v))| <= 10
  {
    assert Pow10(5) == 100000;
    assert Pow10(10) == 10000000000;
    DecimalIsShort(Abs(v), 10);
  }

  /** No sign is ever written, so two numbers have the same text exactly when they agree up to sign. */
  lemma SameTextIffSameMagnitude(v: int32, w: int32)
    ensures Decimal(Abs(v)) == Decimal(Abs(w)) <==> Abs(v) == Abs(w)
  {
    DecimalReadsBack(Abs(v));
    DecimalReadsBack(Abs(w));
  }

  lemma DigitTable(d: int)
    requires -10 < d < 10
    ensures DIGITS[9 + d] == DigitChar(Abs(d)) == "0123456789"[Abs(d)]
  {
  }

  function Reversed(s: string): (r: string)
    ensures |r| == |s|
  {
    if s == [] then [] else Reversed(s[1..]) + [s[0]]
  }

  lemma {:induction false} ReversedAt(s: string, k: nat)
    requires k < |s|
    ensures Reversed(s)[k] == s[|s| - 1 - k]
  {
    if |s| > 1 {
      ReversedAt(s[1..], if k < |s| - 1 then k else 0);
    }
  }

  lemma {:induction false} ReversedAppend(s: string, c: char)
    ensures Reversed(s + [c]) == [c] + Reversed(s)
  {
    if s == [] {
      assert s + [c] == [c];
    } else {
      assert (s + [c])[1..] == s[1..] + [c];
      ReversedAppend(s[1..], c);
    }
  }

  // ---- Writing a number ----

  twostate predicate OnlyChanged(a: array<char>, lo: nat, hi: nat)
    requires lo <= hi <= a.Length
    reads a
  {
    forall k :: 0 <= k < lo || hi <= k < a.Length ==> a[k] == old(a[k])
  }

  /** `std::reverse` on `a[lo..hi]`. */
  method ReverseInPlace(a: array<char>, lo: nat, hi: nat)
    requires lo <= hi <= a.Length
    modifies a
    ensures a[lo..hi] == Reversed(old(a[lo..hi]))
    ensures OnlyChanged(a, lo, hi)
  {
    hide Reversed;
    ghost var s := a[lo..hi];
    var i, j := lo, hi - 1;
    while i < j
      invariant lo <= i <= hi && lo - 1 <= j < hi && i - lo == hi - 1 - j && i <= j + 1
      invariant forall k :: lo <= k < i || j < k < hi ==> a[k] == s[hi - 1 - k]
      invariant forall k :: i <= k <= j ==> a[k] == s[k - lo]
      invariant OnlyChanged(a, lo, hi)
    {
      a[i], a[j] := a[j], a[i];
      i, j := i + 1, j - 1;
    }
    forall k | 0 <= k < |s| ensures a[lo..hi][k] == Reversed(s)[k] {
      ReversedAt(s, k);
    }
  }

  lemma NextDigit(i: int32)
    ensures Quotient(i) != 0 ==>
              Abs(Quotient(i)) < Abs(i) && Decimal(Abs(i)) == Decimal(Abs(Quotient(i))) + [DigitChar(Abs(Remainder(i)))]
    ensures Quotient(i) == 0 ==> Decimal(Abs(i)) == [DigitChar(Abs(Remainder(i)))]
  {
  }

  lemma NothingReversed()
    ensures Reversed([]) == []
  {
  }

  /** The loop of `convert`: digits from the right, by truncating division. The smallest `int` has no negative, but
      its digits come out all the same. */
  method WriteDigits(buf: array<char>, start: nat, value: int32) returns (p: nat)
    requires start + 10 <= buf.Length
    modifies buf
    ensures start <= p <= buf.Length && Reversed(buf[start..p]) == Decimal(Abs(value))
    ensures OnlyChanged(buf, start, p)
  {
    hide Decimal, Quotient, Remainder, DigitChar, Reversed;
    IntFitsTenDigits(value);
    NothingReversed();
    var i := value;
    p := start;
    while true
      invariant start <= p < start + 10
      invariant Decimal(Abs(value)) == Decimal(Abs(i)) + Reversed(buf[start..p])
      invariant OnlyChanged(buf, start, p)
      decreases Abs(i)
    {
      NextDigit(i);
      ghost var before := buf[start..p];
      var lsd := Remainder(i);
      DigitTable(lsd);
      ReversedAppend(before, DIGITS[9 + lsd]);
      i := Quotient(i);
      buf[p] := DIGITS[9 + lsd];
      p := p + 1;
      assert buf[start..p] == before + [DIGITS[9 + lsd]];
      if i == 0 {
        break;
      }
    }
  }

  /** `convert`: writes the numeral and a terminator. */
  method Convert(buf: array<char>, start: nat, value: int32) returns (len: nat)
    requires start + MAX_NUMERIC_SIZE <= buf.Length
    modifies buf
    ensures len <= 10 && buf[start..start + len] == Decimal(Abs(value)) && buf[start + len] == '\0'
    ensures OnlyChanged(buf, start, start + len + 1)
  {
    hide Decimal, Reversed;
    IntFitsTenDigits(value);
    var p := WriteDigits(buf, start, value);
    ghost var digits := buf[start..p];
    buf[p] := '\0';
    assert buf[start..p] == digits;
    ReverseInPlace(buf, start, p);
    len := p - start;
  }

  // ---- The buffer and the stream ----

  class FixedBuffer {
    const data: array<char>
    var cur: nat

    ghost predicate Valid()
      reads this
    {
      cur <= data.Length
    }

    ghost function Contents(): string
      reads this, data
      requires Valid()
    {
      data[..cur]
    }

    constructor (size: nat)
      ensures Valid() && fresh(data) && data.Length == size && Contents() == ""
    {
      data := new char[size];
      cur := 0;
    }

    function Length(): (n: nat)
      reads this, data
      requires Valid()
      ensures n == |Contents()|
    {
      cur
    }

    function Avail(): nat
      reads this
      requires Valid()
    {
      data.Length - cur
    }

    /** All or nothing; a piece that would fill the buffer to the last byte is refused too. */
    method Append(buf: string)
      requires Valid()
      modifies this, data
      ensures Valid()
      ensures Contents() == old(Contents()) + if old(Avail()) > |buf| then buf else ""
    {
      if Avail() > |buf| {
        CopyIn(buf);
        Add(|buf|);
      }
    }

    /** Puts characters behind the contents without making them part of the contents. */
    method CopyIn(buf: string)
      requires Valid() && |buf| <= Avail()
      modifies data
      ensures Contents() == old(Contents()) && data[cur..cur + |buf|] == buf
    {
      for i := 0 to |buf|
        invariant data[..cur] == old(data[..cur])
        invariant forall j :: 0 <= j < i ==> data[cur + j] == buf[j]
      {
        data[cur + i] := buf[i];
      }
    }

    /** Moves the cursor over characters that are already in place. */
    method Add(len: nat)
      requires Valid() && len <= Avail()
      modifies this
      ensures Valid() && cur == old(cur) + len
      ensures Contents() == old(Contents()) + data[old(cur)..old(cur) + len]
    {
      cur := cur + len;
    }

    method Reset()
      modifies this
      ensures Valid() && Contents() == ""
    {
      cur := 0;
    }

    method ToString() returns (s: string)
      requires Valid()
      ensures s == Contents()
    {
      s := data[..Length()];
    }
  }

  /** What can be put into a log stream: a C string or the null pointer, an `int`, or a `double`, of which only the
      text is modelled that `snprintf` makes of it. */
  datatype Piece = Text(s: Option<string>) | Number(v: int32) | Rendered(text: string)

  predicate Renderable(p: Piece) {
    p.Rendered? ==> |p.text| < MAX_NUMERIC_SIZE
  }

  predicate AllRenderable(ps: seq<Piece>) {
    ps == [] || (Renderable(ps[0]) && AllRenderable(ps[1..]))
  }

  function Rendering(p: Piece): string {
    match p
    case Text(None) => "(null)"
    case Text(Some(s)) => s
    case Number(v) => Decimal(Abs(v))
    case Rendered(t) => t
  }

  /** The space test: numbers ask for the whole reserve, however short they turn out. */
  predicate HasRoom(length: nat, p: Piece) {
    if p.Text? then SMALL_BUFFER - length > |Rendering(p)| else SMALL_BUFFER - length >= MAX_NUMERIC_SIZE
  }

  function Put(text: string, p: Piece): string {
    if HasRoom(|text|, p) then text + Rendering(p) else text
  }

  class LogStream {
    const buffer: FixedBuffer

    ghost predicate Valid()
      reads this, buffer
    {
      buffer.Valid() && buffer.data.Length == SMALL_BUFFER && buffer.cur < SMALL_BUFFER
    }

    constructor ()
      ensures Valid() && fresh(buffer) && fresh(buffer.data) && buffer.Contents() == ""
    {
      buffer := new FixedBuffer(SMALL_BUFFER);
    }

    /** `str` is what lies in memory from a `const char*` on, or the null pointer. */
    method PutCString(str: Option<string>)
      requires Valid() && (str.Some? ==> '\0' in str.value)
      modifies buffer, buffer.data
      ensures Valid()
      ensures buffer.Contents() ==
                Put(old(buffer.Contents()), Text(if str.Some? then Some(CString(str.value, '\0')) else None))
    {
      if str.Some? {
        buffer.Append(CString(str.value, '\0'));
      } else {
        buffer.Append("(null)");
      }
    }

    /** Goes through `c_str`, so the text ends at the first NUL. */
    method PutString(str: string)
      requires Valid()
      modifies buffer, buffer.data
      ensures Valid()
      ensures buffer.Contents() == Put(old(buffer.Contents()), Text(Some(CString(str + ['\0'], '\0'))))
    {
      PutCString(Some(str + ['\0']));
    }

    method PutInt(v: int32)
      requires Valid()
      modifies buffer, buffer.data
      ensures Valid()
      ensures buffer.Contents() == Put(old(buffer.Contents()), Number(v))
    {
      if buffer.Avail() >= MAX_NUMERIC_SIZE {
        var len := Convert(buffer.data, buffer.cur, v);
        buffer.Add(len);
      }
    }

    /** `rendered` is what `snprintf` with "%.12g" makes of the number; it writes a terminator behind it. */
    method PutDouble(rendered: string)
      requires Valid() && Renderable(Rendered(rendered))
      modifies buffer, buffer.data
      ensures Valid()
      ensures buffer.Contents() == Put(old(buffer.Contents()), Rendered(rendered))
    {
      if buffer.Avail() >= MAX_NUMERIC_SIZE {
        buffer.CopyIn(rendered + ['\0']);
        SliceOfSlice(buffer.data[..], buffer.cur, buffer.cur + |rendered| + 1, 0, |rendered|);
        buffer.Add(|rendered|);
      }
    }
  }

  // ---- Whole runs ----

  function PutAll(text: string, ps: seq<Piece>): string
    decreases |ps|
  {
    if ps == [] then text else PutAll(Put(text, ps[0]), ps[1..])
  }

  /** The pieces that find room, in order. */
  function Accepted(length: nat, ps: seq<Piece>): seq<Piece>
    decreases |ps|
  {
    if ps == [] then []
    else if HasRoom(length, ps[0]) then [ps[0]] + Accepted(length + |Rendering(ps[0])|, ps[1..])
    else Accepted(length, ps[1..])
  }

  /** What arrives of a piece: a string ends at its first NUL. */
  function CutAtNul(p: Piece): Piece {
    if p.Text? && p.s.Some? then Text(Some(CString(p.s.value + ['\0'], '\0'))) else p
  }

  function AllCutAtNul(ps: seq<Piece>): seq<Piece> {
    if ps == [] then [] else [CutAtNul(ps[0])] + AllCutAtNul(ps[1..])
  }

  /** A chain of insertions into one stream. */
  method PutEach(stream: LogStream, ps: seq<Piece>)
    requires stream.Valid() && AllRenderable(ps)
    modifies stream.buffer, stream.buffer.data
    ensures stream.Valid()
    ensures stream.buffer.Contents() == PutAll(old(stream.buffer.Contents()), AllCutAtNul(ps))
    decreases |ps|
  {
    hide Put, CString, FixedBuffer.Contents;
    if ps != [] {
      match ps[0] {
        case Text(None) => stream.PutCString(None);
        case Text(Some(s)) => stream.PutString(s);
        case Number(v) => stream.PutInt(v);
        case Rendered(text) => stream.PutDouble(text);
      }
      assert AllCutAtNul(ps)[0] == CutAtNul(ps[0]) && AllCutAtNul(ps)[1..] == AllCutAtNul(ps[1..]);
      PutEach(stream, ps[1..]);
    }
  }

  /** A usual decimal numeral: digits, and no zero in front of others. */
  predicate IsNumeral(s: string) {
    s != "" && (forall i :: 0 <= i < |s| ==> '0' <= s[i] <= '9') && (s[0] == '0' ==> s == "0")
  }

  lemma DecimalOfZero()
    ensures Decimal(0) == "0"
  {
  }

  /** When a piece is taken and what it adds, by the numbers of the source. */
  lemma TakenByNumbers(text: string, p: Piece)
    ensures p.Text? && p.s.Some? ==> Put(text, p) == if |text| + |p.s.value| < 4096 then text + p.s.value else text
    ensures p.Text? && p.s.None? ==> Put(text, p) == if |text| + 6 < 4096 then text + "(null)" else text
    ensures p.Rendered? ==> Put(text, p) == if |text| <= 4064 then text + p.text else text
    ensures p.Number? && |text| > 4064 ==> Put(text, p) == text
    ensures p.Number? && |text| <= 4064 ==>
              && |text| < |Put(text, p)| <= |text| + 10 && Put(text, p)[..|text|] == text
              && IsNumeral(Put(text, p)[|text|..]) && ReadDecimal(Put(text, p)[|text|..]) == Abs(p.v)
  {
    hide Decimal, ReadDecimal;
    if p.Number? && |text| <= 4064 {
      var d := Decimal(Abs(p.v));
      DecimalReadsBack(Abs(p.v));
      IntFitsTenDigits(p.v);
      assert (text + d)[..|text|] == text && (text + d)[|text|..] == d;
      if d[0] == '0' {
        DecimalOfZero();
      }
    }
  }

  lemma OnePut(text: string, p: Piece)
    ensures PutAll(text, AllCutAtNul([p])) == Put(text, CutAtNul(p))
  {
    hide Put, CutAtNul;
    assert [p][1..] == [] && [CutAtNul(p)][1..] == [];
  }

  /** What a new stream holds after one insertion. */
  method FirstInsertion(p: Piece) returns (text: string)
    requires Renderable(p)
    ensures p.Text? && p.s.Some? && '\0' !in p.s.value ==> text == if |p.s.value| < 4096 then p.s.value else ""
    ensures p.Text? && p.s.None? ==> text == "(null)"
    ensures p.Number? ==> var v: int := p.v; IsNumeral(text) && ReadDecimal(text) == if v < 0 then -v else v
    ensures p.Rendered? ==> text == p.text
  {
    hide Put, CString, FixedBuffer.Contents, IsNumeral, ReadDecimal;
    var stream := new LogStream();
    PutEach(stream, [p]);
    if p.Text? && p.s.Some? && '\0' !in p.s.value {
      CStringWhole(p.s.value, '\0');
    }
    TakenByNumbers("", CutAtNul(p));
    text := stream.buffer.ToString();
    OnePut("", p);
  }

  function Renderings(ps: seq<Piece>): string
    decreases |ps|
  {
    if ps == [] then "" else Rendering(ps[0]) + Renderings(ps[1..])
  }

  lemma PutLeavesRoom(text: string, p: Piece)
    requires |text| < SMALL_BUFFER && Renderable(p)
    ensures |Put(text, p)| < SMALL_BUFFER
    ensures HasRoom(|text|, p) ==> |text| + |Rendering(p)| < SMALL_BUFFER
  {
    hide Decimal;
    if p.Number? {
      IntFitsTenDigits(p.v);
    }
  }

  /** After any run the text is what was there and the accepted pieces, whole and in order, and a byte is left. */
  lemma {:induction false} RunOfPieces(text: string, ps: seq<Piece>)
    requires |text| < SMALL_BUFFER && AllRenderable(ps)
    ensures PutAll(text, ps) == text + Renderings(Accepted(|text|, ps))
    ensures |PutAll(text, ps)| < SMALL_BUFFER
    decreases |ps|
  {
    hide Rendering, HasRoom;
    if ps != [] {
      var t := Put(text, ps[0]);
      PutLeavesRoom(text, ps[0]);
      RunOfPieces(t, ps[1..]);
      if HasRoom(|text|, ps[0]) {
        var rest := Accepted(|t|, ps[1..]);
        assert ([ps[0]] + rest)[1..] == rest;
        assert text + (Rendering(ps[0]) + Renderings(rest)) == t + Renderings(rest);
      }
    }
  }

  /** Every number starts where the whole reserve is free; one without text may start anywhere. */
  predicate NumbersStartEarly(length: nat, ps: seq<Piece>)
    decreases |ps|
  {
    ps == [] ||
    (&& (ps[0].Text? || Rendering(ps[0]) == "" || length + MAX_NUMERIC_SIZE <= SMALL_BUFFER)
     && NumbersStartEarly(length + |Rendering(ps[0])|, ps[1..]))
  }

  lemma {:induction false} PutAllSize(text: string, ps: seq<Piece>)
    ensures |PutAll(text, ps)| <= |text| + |Renderings(ps)|
    decreases |ps|
  {
    hide Rendering, HasRoom;
    if ps != [] {
      PutAllSize(Put(text, ps[0]), ps[1..]);
    }
  }

  /** Nothing is lost if and only if the whole text leaves one byte and every number starts where 32 are left. */
  lemma {:induction false} NothingLost(text: string, ps: seq<Piece>)
    requires |text| < SMALL_BUFFER && AllRenderable(ps)
    ensures PutAll(text, ps) == text + Renderings(ps) <==>
              |text| + |Renderings(ps)| < SMALL_BUFFER && NumbersStartEarly(|text|, ps)
    decreases |ps|
  {
    hide Rendering, Renderable;
    if ps != [] {
      var p := ps[0];
      PutLeavesRoom(text, p);
      if HasRoom(|text|, p) || Rendering(p) == "" {
        var t := text + Rendering(p);
        assert Put(text, p) == t;
        NothingLost(t, ps[1..]);
        assert text + Renderings(ps) == t + Renderings(ps[1..]);
      } else {
        PutAllSize(text, ps[1..]);
        assert |Renderings(ps)| > |Renderings(ps[1..])|;
      }
    }
  }

  predicate OnlyTexts(ps: seq<Piece>) {
    ps == [] || (ps[0].Text? && OnlyTexts(ps[1..]))
  }

  lemma {:induction false} OnlyTextsStartAnywhere(length: nat, ps: seq<Piece>)
    requires OnlyTexts(ps)
    ensures AllRenderable(ps) && NumbersStartEarly(length, ps)
    decreases |ps|
  {
    if ps != [] {
      OnlyTextsStartAnywhere(length + |Rendering(ps[0])|, ps[1..]);
    }
  }

  /** For strings alone: all arrive if and only if together they leave one byte. */
  lemma {:induction false} TextsArriveIffShort(text: string, ps: seq<Piece>)
    requires |text| < SMALL_BUFFER && OnlyTexts(ps)
    ensures PutAll(text, ps) == text + Renderings(ps) <==> |text| + |Renderings(ps)| < SMALL_BUFFER
  {
    OnlyTextsStartAnywhere(|text|, ps);
    NothingLost(text, ps);
  }
}
