/** Adler-32 as defined in sections 2.2 and 8.2 of RFC 1950, and which changes of a byte string it notices. */
module Adler {
  import opened Bytes

  /** The largest prime below 65536. */
  const BASE: nat := 65521

  /** The two running sums, byte by byte, each reduced as it grows. */
  function S1(s: bytes): (r: nat)
    ensures r < BASE
  {
    if s == [] then 1 else (S1(s[..|s| - 1]) + s[|s| - 1]) % BASE
  }

  function S2(s: bytes): (r: nat)
    ensures r < BASE
  {
    if s == [] then 0 else (S2(s[..|s| - 1]) + S1(s)) % BASE
  }

  function Adler32(s: bytes): uint32 {
    S2(s) * 0x1_0000 + S1(s)
  }

  /** The checksum of nothing: the value that a computation starts from. */
  lemma AdlerOfNothing()
    ensures Adler32([]) == 1
  {
  }

  lemma OneMoreByte(s: bytes, b: byte)
    ensures S1(s + [b]) == (S1(s) + b) % BASE
    ensures S2(s + [b]) == (S2(s) + S1(s + [b])) % BASE
  {
    assert (s + [b])[..|s|] == s;
  }

  /** Continues a checksum over further bytes: if `adler` is the checksum of what came before, the result is the
      checksum of the whole. */
  method UpdateAdler32(adler: uint32, buf: bytes, ghost before: bytes) returns (r: uint32)
    requires adler == Adler32(before)
    ensures r == Adler32(before + buf)
  {
    hide S1, S2;
    var s1, s2 := adler % 0x1_0000, adler / 0x1_0000;
    assert before + buf[..0] == before;
    for n := 0 to |buf|
      invariant s1 == S1(before + buf[..n]) && s2 == S2(before + buf[..n])
    {
      OneMoreByte(before + buf[..n], buf[n]);
      assert before + buf[..n + 1] == before + buf[..n] + [buf[n]];
      s1 := (s1 + buf[n]) % BASE;
      s2 := (s2 + s1) % BASE;
    }
    assert buf[..|buf|] == buf;
    r := s2 * 0x1_0000 + s1;
  }

  /** Equal checksums are equal sums. */
  lemma Split(s: bytes, t: bytes)
    ensures Adler32(s) == Adler32(t) <==> S1(s) == S1(t) && S2(s) == S2(t)
  {
  }

  // ---- Closed forms: the sums without reduction ----

  function Sum(s: bytes): nat {
    if s == [] then 0 else Sum(s[..|s| - 1]) + s[|s| - 1]
  }

  /** The sum of the bytes, each weighted with its distance from the end. */
  function Weighted(s: bytes): nat {
    if s == [] then 0 else Weighted(s[..|s| - 1]) + Sum(s)
  }

  lemma {:induction false} MultipleVanishes(q: int, r: int)
    ensures (BASE * q + r) % BASE == r % BASE
  {
    var z := BASE * q + r;
    assert z == BASE * (z / BASE) + z % BASE && r == BASE * (r / BASE) + r % BASE;
    assert BASE * (z / BASE - q - r / BASE) == r % BASE - z % BASE;
  }

  lemma AddMod(x: nat, y: nat)
    ensures (x % BASE + y) % BASE == (x + y) % BASE
  {
    var q := x / BASE;
    assert x == BASE * q + x % BASE;
    MultipleVanishes(q, x % BASE + y);
  }

  lemma AddMod2(x: nat, y: nat)
    ensures (x + y % BASE) % BASE == (x + y) % BASE
  {
    AddMod(y, x);
  }

  lemma {:induction false} ClosedForms(s: bytes)
    ensures S1(s) == (1 + Sum(s)) % BASE
    ensures S2(s) == (|s| + Weighted(s)) % BASE
  {
    if s != [] {
      var p, b := s[..|s| - 1], s[|s| - 1];
      ClosedForms(p);
      AddMod(1 + Sum(p), b);
      AddMod(|p| + Weighted(p), S1(s));
      AddMod2(|p| + Weighted(p), 1 + Sum(s));
    }
  }

  /** The checksum as section 8.2 of RFC 1950 defines it, without running sums: the sum of the bytes, starting from
      1, in the low half of the word, and the weighted sum in the high half, both modulo 65521. */
  lemma AdlerWord(s: bytes)
    ensures Adler32(s) % 0x1_0000 == (1 + Sum(s)) % 65521
    ensures Adler32(s) / 0x1_0000 == (|s| + Weighted(s)) % 65521
  {
    hide S1, S2, Sum, Weighted;
    ClosedForms(s);
  }

  /** The checksum of "abc". */
  lemma AdlerOfAbc()
    ensures Adler32([0x61, 0x62, 0x63]) == 0x024D_0127
  {
    hide S1, S2;
    AdlerOfNothing();
    OneMoreByte([], 0x61);
    assert [] + [0x61] == [0x61];
    assert S1([0x61]) == 0x62 && S2([0x61]) == 0x62;
    OneMoreByte([0x61], 0x62);
    assert [0x61] + [0x62] == [0x61, 0x62];
    assert S1([0x61, 0x62]) == 0xC4 && S2([0x61, 0x62]) == 0x126;
    OneMoreByte([0x61, 0x62], 0x63);
    assert [0x61, 0x62] + [0x63] == [0x61, 0x62, 0x63];
  }

  lemma SameModulo(x: int, y: int)
    ensures x % BASE == y % BASE <==> (x - y) % BASE == 0
  {
    assert x == BASE * (x / BASE) + x % BASE && y == BASE * (y / BASE) + y % BASE;
    MultipleVanishes(x / BASE - y / BASE, x % BASE - y % BASE);
    assert x - y == BASE * (x / BASE - y / BASE) + (x % BASE - y % BASE);
  }

  // ---- Changing bytes ----

  lemma OneMore(n: int, d: int)
    ensures (n + 1) * d == n * d + d
  {
  }

  lemma {:induction false} SumsAfterUpdate(s: bytes, i: nat, b: byte)
    requires i < |s|
    ensures Sum(s[i := b]) == Sum(s) + b - s[i]
    ensures Weighted(s[i := b]) == Weighted(s) + (|s| - i) * (b - s[i])
  {
    var n, t := |s| - 1, s[i := b];
    if i == n {
      assert t[..n] == s[..n];
    } else {
      SumsAfterUpdate(s[..n], i, b);
      assert t[..n] == s[..n][i := b];
      OneMore(n - i, (b as int) - s[i]);
    }
  }

  lemma SmallStep(x: int, y: int)
    requires x != y && -0x100 < x - y < 0x100
    ensures x % BASE != y % BASE
  {
    SameModulo(x, y);
  }

  /** One changed byte always changes the checksum, however long the string. */
  lemma OneByteIsNoticed(s: bytes, i: nat, b: byte)
    requires i < |s| && b != s[i]
    ensures Adler32(s[i := b]) != Adler32(s)
  {
    hide Adler32, S1, S2, Weighted, Sum;
    var t := s[i := b];
    ClosedForms(s);
    ClosedForms(t);
    SumsAfterUpdate(s, i, b);
    SmallStep(1 + Sum(s), 1 + Sum(t));
    Split(s, t);
  }

  // ---- Exchanging bytes ----

  predicate NoDivisorUpTo(n: nat) {
    n < 2 || (BASE % n != 0 && NoDivisorUpTo(n - 1))
  }

  lemma {:induction false} NoDivisor(n: nat, e: nat)
    requires NoDivisorUpTo(n) && 2 <= e <= n
    ensures BASE % e != 0
  {
    if e < n { NoDivisor(n - 1, e); }
  }

  // The next lemmas compute that 65521 has no divisor below 256, in steps that the verifier can unfold.

  lemma NoDivisorUpTo64()
    ensures NoDivisorUpTo(64)
  {
    assert NoDivisorUpTo(13);
    assert NoDivisorUpTo(26);
    assert NoDivisorUpTo(39);
    assert NoDivisorUpTo(52);
  }

  lemma NoDivisorUpTo128()
    ensures NoDivisorUpTo(128)
  {
    NoDivisorUpTo64();
    assert NoDivisorUpTo(77);
    assert NoDivisorUpTo(90);
    assert NoDivisorUpTo(103);
    assert NoDivisorUpTo(116);
  }

  lemma NoDivisorUpTo192()
    ensures NoDivisorUpTo(192)
  {
    NoDivisorUpTo128();
    assert NoDivisorUpTo(141);
    assert NoDivisorUpTo(154);
    assert NoDivisorUpTo(167);
    assert NoDivisorUpTo(180);
  }

  lemma NoDivisorUpTo255()
    ensures NoDivisorUpTo(255)
  {
    NoDivisorUpTo192();
    assert NoDivisorUpTo(205);
    assert NoDivisorUpTo(218);
    assert NoDivisorUpTo(231);
    assert NoDivisorUpTo(244);
  }

  lemma NoSmallMultiple(f: int, k: int)
    ensures f > 0 && 0 <= f * k < f ==> k == 0
  {
    if f > 0 && k >= 1 {
      assert f * k >= f;
    } else if f > 0 && k <= -1 {
      assert f * k <= -f;
    }
  }

  lemma DividesBoth(b: nat, e: nat, f: nat)
    requires b == e * f && f > 0
    ensures b % f == 0
  {
    var q := b / f;
    assert b == f * q + b % f;
    assert f * (e - q) == b % f;
    NoSmallMultiple(f, e - q);
  }

  /** 65521 is a prime. */
  lemma BaseIsPrime(e: nat)
    requires 2 <= e < 65521
    ensures BASE == 65521 && BASE % e != 0
  {
    hide NoDivisorUpTo;
    NoDivisorUpTo255();
    if e < 0x100 {
      NoDivisor(255, e);
    } else if BASE % e == 0 {
      var f := BASE / e;
      assert BASE == e * f;
      assert 2 <= f < 0x100;
      NoDivisor(255, f);
      DividesBoth(BASE, e, f);
    }
  }

  /** And there is no greater prime in 16 bits. */
  lemma NoPrimeAbove(n: nat)
    requires 65521 < n < 0x1_0000
    ensures exists e :: 2 <= e < n && n % e == 0
  {
    var e := if n % 2 == 0 then 2
             else match n
               case 65523 | 65529 | 65535 => 3
               case 65525 => 5
               case 65527 => 7
               case 65531 => 19
               case _ => 13;
    assert n % e == 0;
  }

  lemma Descend(b: int, d: int, e: int, q: int, r: int, c: int)
    requires b == q * e + r && d * e == b * c
    ensures d * r == b * (d - q * c)
  {
    calc {
      d * r;
      d * (b - q * e);
      d * b - q * (d * e);
      d * b - q * (b * c);
      b * (d - q * c);
    }
  }

  /** As far as differences of bytes go, `BASE` behaves like the prime it is: it divides a product with a small
      factor only if it divides the other factor. By descent to the remainder of `BASE` by `e`. */
  lemma {:induction false} SmallFactorCancels(d: int, e: nat, c: int) returns (k: int)
    requires 1 <= e < 0x100 && d * e == BASE * c
    ensures d == BASE * k
    decreases e
  {
    hide NoDivisorUpTo;
    if e == 1 {
      k := c;
    } else {
      NoDivisorUpTo255();
      NoDivisor(255, e);
      var q, r := BASE / e, BASE % e;
      Descend(BASE, d, e, q, r, c);
      k := SmallFactorCancels(d, r, d - q * c);
    }
  }

  function Exchange(s: bytes, i: nat, j: nat): bytes
    requires i < |s| && j < |s|
  {
    s[i := s[j]][j := s[i]]
  }

  lemma WeightDifference(n: int, i: int, j: int, e: int)
    ensures (n - i) * e + (n - j) * (-e) == (j - i) * e
  {
  }

  lemma Multiple(d: int, q: int, e: int)
    requires d == BASE * q
    ensures d * e % BASE == 0
  {
    assert d * e == BASE * (q * e);
    MultipleVanishes(q * e, 0);
  }

  lemma DifferenceCancels(d: nat, e: int)
    requires -0x100 < e < 0x100
    ensures d * e % BASE == 0 <==> e == 0 || d % BASE == 0
  {
    if e == 0 {
    } else if d % BASE == 0 {
      Multiple(d, d / BASE, e);
    } else if d * e % BASE == 0 {
      var c, k := d * e / BASE, 0;
      assert d * e == BASE * c;
      if e > 0 {
        k := SmallFactorCancels(d, e, c);
      } else {
        assert d * (-e) == -(d * e);
        k := SmallFactorCancels(d, -e, -c);
      }
      MultipleVanishes(k, 0);
    }
  }

  /** Exchanging two bytes goes unnoticed exactly when they are equal or a multiple of `BASE` apart. */
  lemma ExchangeIsNoticed(s: bytes, i: nat, j: nat)
    requires i < j < |s|
    ensures Adler32(Exchange(s, i, j)) == Adler32(s) <==> s[i] == s[j] || (j - i) % BASE == 0
  {
    hide Adler32, S1, S2, Weighted, Sum;
    var t := Exchange(s, i, j);
    var e: int := (s[j] as int) - s[i];
    SumsAfterUpdate(s, i, s[j]);
    SumsAfterUpdate(s[i := s[j]], j, s[i]);
    ClosedForms(s);
    ClosedForms(t);
    Split(s, t);
    WeightDifference(|s|, i, j, e);
    SameModulo(|t| + Weighted(t), |s| + Weighted(s));
    DifferenceCancels(j - i, e);
  }
}
