/** The envelope that codec_test/protobuf_codec puts around a protobuf message: total length, length of the type
    name, the name with its NUL, the serialized message, and an Adler-32 trailer. */
module Envelopes {
  import opened Bytes
  import opened Adler
  import opened Schema

  /** What the checksum covers. */
  function Body(name: bytes, payload: bytes): bytes
    requires |name| + 1 < TWO_31
  {
    BigEndian(|name| + 1) + (name + [0]) + payload
  }

  function Sealed(body: bytes): bytes {
    body + BigEndian(Adler32(body))
  }

  /** All lengths fit in an `int32`. */
  predicate FitsEnvelope(name: bytes, payload: bytes) {
    |name| + 1 < TWO_31 && HEADER_LEN + |name| + 1 + |payload| + HEADER_LEN < TWO_31
  }

  function Envelope(name: bytes, payload: bytes): bytes
    requires FitsEnvelope(name, payload)
  {
    var s := Sealed(Body(name, payload));
    BigEndian(|s|) + s
  }

  /** `payload` is what `AppendToString` appends; `None` is its failure. The length is patched in last. */
  method Encode(typeName: bytes, payload: Option<bytes>) returns (result: bytes)
    requires |typeName| + 1 < TWO_31
    requires payload.Some? ==> FitsEnvelope(typeName, payload.value)
    ensures result == match payload { case None => [] case Some(p) => Envelope(typeName, p) }
  {
    hide Adler32;
    result := [0, 0, 0, 0];
    var nameLen := |typeName| + 1;
    result := result + BigEndian(nameLen);
    result := result + (typeName + [0])[..nameLen];
    if payload.Some? {
      result := result + payload.value;
      assert result[HEADER_LEN..] == Body(typeName, payload.value);
      AdlerOfNothing();
      var checkSum := UpdateAdler32(1, result[HEADER_LEN..], []);
      assert [] + result[HEADER_LEN..] == result[HEADER_LEN..];
      result := result + BigEndian(checkSum);
      var len := |result| - HEADER_LEN;
      assert result[HEADER_LEN..] == Sealed(Body(typeName, payload.value));
      result := BigEndian(len) + result[HEADER_LEN..];
    } else {
      result := [];
    }
  }

  /** Where a receiver finds everything: the number of bytes behind the first word, the length of the name with its
      NUL, the name, the NUL, the payload, and last the checksum of all between the first word and itself. */
  lemma EnvelopeLayout(name: bytes, payload: bytes)
    requires FitsEnvelope(name, payload)
    ensures var f, n, e := Envelope(name, payload), |name|, |Envelope(name, payload)| - 4;
            && e == 9 + n + |payload|
            && FromBigEndian(f) == e && FromBigEndian(f[4..]) == n + 1
            && f[8..8 + n] == name && f[8 + n] == 0 && f[9 + n..e] == payload
            && FromBigEndian(f[e..]) == Adler32(f[4..e])
  {
    hide Adler32, BigEndian, FromBigEndian;
    var body := Body(name, payload);
    var s := Sealed(body);
    var f, n, e := Envelope(name, payload), |name|, |s|;
    BigEndianRoundTrip(|s|, s);
    BigEndianRoundTrip(n + 1, name + [0] + payload + BigEndian(Adler32(body)));
    BigEndianRoundTrip(Adler32(body), []);
    assert f[4..] == s && f[4..e] == body;
    assert s == BigEndian(n + 1) + (name + [0] + payload + BigEndian(Adler32(body)));
    assert f[e..] == BigEndian(Adler32(body)) + [];
    assert f[8..8 + n] == name && f[9 + n..e] == payload;
  }

  // ---- Unique decodability ----

  lemma BigEndianPrefix(m: uint32, n: uint32, s: bytes, t: bytes)
    requires BigEndian(m) + s == BigEndian(n) + t
    ensures m == n && s == t
  {
    BigEndianRoundTrip(m, s);
    BigEndianRoundTrip(n, t);
    assert s == (BigEndian(m) + s)[4..] && t == (BigEndian(n) + t)[4..];
  }

  lemma BodyInjective(name: bytes, payload: bytes, name': bytes, payload': bytes)
    requires |name| + 1 < TWO_31 && |name'| + 1 < TWO_31
    requires Body(name, payload) == Body(name', payload')
    ensures name == name' && payload == payload'
  {
    hide BigEndian;
    var rest, rest' := (name + [0]) + payload, (name' + [0]) + payload';
    assert Body(name, payload) == BigEndian(|name| + 1) + rest;
    assert Body(name', payload') == BigEndian(|name'| + 1) + rest';
    BigEndianPrefix(|name| + 1, |name'| + 1, rest, rest');
    SamePrefix(name + [0], payload, name' + [0], payload');
    SamePrefix(name, [0], name', [0]);
  }

  /** An envelope at the front of a byte string determines the name, the payload and where it ends. So different
      contents have different envelopes, and no envelope begins another. */
  lemma UniquelyDecodable(name: bytes, payload: bytes, rest: bytes, name': bytes, payload': bytes, rest': bytes)
    requires FitsEnvelope(name, payload) && FitsEnvelope(name', payload')
    requires Envelope(name, payload) + rest == Envelope(name', payload') + rest'
    ensures name == name' && payload == payload' && rest == rest'
  {
    hide Adler32, BigEndian;
    var body, body' := Body(name, payload), Body(name', payload');
    var s, s' := Sealed(body), Sealed(body');
    assert Envelope(name, payload) + rest == BigEndian(|s|) + (s + rest);
    assert Envelope(name', payload') + rest' == BigEndian(|s'|) + (s' + rest');
    BigEndianPrefix(|s|, |s'|, s + rest, s' + rest');
    SamePrefix(s, rest, s', rest');
    SamePrefix(body, BigEndian(Adler32(body)), body', BigEndian(Adler32(body')));
    BodyInjective(name, payload, name', payload');
  }

  datatype Content = Content(name: bytes, payload: bytes)

  predicate AllFit(cs: seq<Content>) {
    cs == [] || (FitsEnvelope(cs[0].name, cs[0].payload) && AllFit(cs[1..]))
  }

  function Stream(cs: seq<Content>): bytes
    requires AllFit(cs)
  {
    if cs == [] then [] else Envelope(cs[0].name, cs[0].payload) + Stream(cs[1..])
  }

  lemma NotEmpty(cs: seq<Content>)
    requires AllFit(cs)
    ensures Stream(cs) == [] <==> cs == []
  {
    hide Sealed;
  }

  /** A stream of envelopes splits in exactly one way. */
  lemma {:induction false} StreamSplitsOneWay(a: seq<Content>, b: seq<Content>)
    requires AllFit(a) && AllFit(b) && Stream(a) == Stream(b)
    ensures a == b
  {
    hide Envelope, FitsEnvelope;
    if a == [] || b == [] {
      NotEmpty(a);
      NotEmpty(b);
    } else {
      UniquelyDecodable(a[0].name, a[0].payload, Stream(a[1..]), b[0].name, b[0].payload, Stream(b[1..]));
      StreamSplitsOneWay(a[1..], b[1..]);
      assert a == [a[0]] + a[1..] && b == [b[0]] + b[1..];
    }
  }

  // ---- What the trailer guarantees ----

  /** The check a receiver makes on what follows the length word. */
  predicate TrailerMatches(s: bytes) {
    |s| >= 4 && s[|s| - 4..] == BigEndian(Adler32(s[..|s| - 4]))
  }

  lemma SealedMatches(body: bytes)
    ensures TrailerMatches(Sealed(body))
  {
    hide Adler32, BigEndian;
    var s := Sealed(body);
    assert s[..|s| - 4] == body && s[|s| - 4..] == BigEndian(Adler32(body));
  }

  /** Two bodies that differ in one byte have different trailers. */
  lemma TrailersDiffer(body: bytes, i: nat, b: byte)
    requires i < |body| && b != body[i]
    ensures BigEndian(Adler32(body[i := b])) != BigEndian(Adler32(body))
  {
    hide Adler32, BigEndian;
    OneByteIsNoticed(body, i, b);
    if BigEndian(Adler32(body[i := b])) == BigEndian(Adler32(body)) {
      BigEndianPrefix(Adler32(body[i := b]), Adler32(body), [], []);
    }
  }

  /** Damage to any one byte, of the body or of the trailer itself, makes the check fail. */
  lemma DamageIsNoticed(s: bytes, i: nat, b: byte)
    requires TrailerMatches(s) && i < |s| && b != s[i]
    ensures !TrailerMatches(s[i := b])
  {
    hide Adler32, BigEndian;
    var n, t := |s| - 4, s[i := b];
    if i < n {
      assert t[..n] == s[..n][i := b] && t[n..] == s[n..];
      TrailersDiffer(s[..n], i, b);
    } else {
      assert t[..n] == s[..n];
      assert t[n..][i - n] != s[n..][i - n];
    }
  }

  /** Two bytes of the body that change places are noticed exactly when they differ and their distance is not a
      multiple of the Adler base. */
  lemma ExchangeInBody(body: bytes, i: nat, j: nat)
    requires i < j < |body|
    ensures TrailerMatches(Exchange(body, i, j) + BigEndian(Adler32(body))) <==>
              body[i] == body[j] || (j - i) % BASE == 0
  {
    hide Adler32, BigEndian;
    var t := Exchange(body, i, j);
    var s := t + BigEndian(Adler32(body));
    assert s[..|s| - 4] == t && s[|s| - 4..] == BigEndian(Adler32(body));
    ExchangeIsNoticed(body, i, j);
    if BigEndian(Adler32(t)) == BigEndian(Adler32(body)) {
      BigEndianPrefix(Adler32(t), Adler32(body), [], []);
    }
  }

  // ---- Messages in envelopes ----

  /** "learnuv.Query", "learnuv.Answer" and "learnuv.Empty". */
  function TypeName(k: Kind): bytes {
    [108, 101, 97, 114, 110, 117, 118, 46] +
    match k
    case QueryKind => [81, 117, 101, 114, 121]
    case AnswerKind => [65, 110, 115, 119, 101, 114]
    case EmptyKind => [69, 109, 112, 116, 121]
  }

  lemma TypeNamesDiffer(k: Kind, k': Kind)
    requires TypeName(k) == TypeName(k')
    ensures k == k'
  {
    assert TypeName(k)[8] == TypeName(k')[8];
  }

  /** An envelope around a serialized message determines the type and every field of the message. */
  lemma EnvelopeOfMessage(k: Kind, m: Value, rest: bytes, k': Kind, m': Value, rest': bytes)
    requires Fits(k, m) && FitsEnvelope(TypeName(k), Serialize(k, m))
    requires Fits(k', m') && FitsEnvelope(TypeName(k'), Serialize(k', m'))
    requires Envelope(TypeName(k), Serialize(k, m)) + rest == Envelope(TypeName(k'), Serialize(k', m')) + rest'
    ensures k == k' && m == m' && rest == rest'
  {
    hide Envelope, Serialize, Fits, FitsEnvelope, TypeName;
    UniquelyDecodable(TypeName(k), Serialize(k, m), rest, TypeName(k'), Serialize(k', m'), rest');
    TypeNamesDiffer(k, k');
    SerializeInjective(k, m, m');
  }
}
