/** What the signature replacement yields on well-formed certificates. */
module RealityDerProofs {
  import opened Bytes
  import opened RealityDer

  /** A sequence that is one whole TLV. */
  ghost predicate IsTlv(t: Bytes) {
    TlvTotal(t, 0) == Some(|t|)
  }

  /** A sequence that is one whole length field, whatever it says. */
  ghost predicate IsLengthField(l: Bytes) {
    DecodeLength(l, 0).Some? && DecodeLength(l, 0).value.width == |l|
  }

  /** A certificate: the outer length field and the three TLVs that follow it. */
  datatype Cert = Cert(outer: Bytes, tbs: Bytes, alg: Bytes, sig: Bytes) {
    ghost predicate Valid() {
      IsLengthField(outer) && IsTlv(tbs) && IsTlv(alg) && IsTlv(sig) && sig[0] == BIT_STRING
    }

    function Der(): Bytes { [SEQUENCE] + outer + (tbs + (alg + sig)) }
  }

  // ---- Decoding does not depend on what surrounds it ----

  lemma DecodeInside(a: Bytes, t: Bytes, b: Bytes, pos: nat)
    requires DecodeLength(t, pos).Some?
    ensures DecodeLength(a + (t + b), |a| + pos) == DecodeLength(t, pos)
  {
    var d := a + (t + b);
    assert d[|a| + pos] == t[pos];
    if t[pos] >= 0x80 {
      var n := t[pos] % 0x80;
      assert d[|a| + pos + 1..|a| + pos + 1 + n] == t[pos + 1..pos + 1 + n];
    }
  }

  lemma TlvInside(a: Bytes, t: Bytes, b: Bytes)
    requires TlvTotal(t, 0).Some?
    ensures TlvTotal(a + (t + b), |a|) == TlvTotal(t, 0)
  {
    DecodeInside(a, t, b, 1);
  }

  /** The third field of a certificate is found where it is, with the length that it announces. */
  lemma FieldsFound(d: Bytes, a: Bytes, t1: Bytes, t2: Bytes, t3: Bytes, start: nat, pos: nat)
    requires IsTlv(t1) && IsTlv(t2) && TlvTotal(t3, 0).Some? && d == a + (t1 + (t2 + t3))
    requires start == |a| && pos == start + |t1| + |t2|
    ensures FieldPos(d, start, SIGNATURE_FIELD) == Some(pos) && TlvTotal(d, pos) == TlvTotal(t3, 0)
  {
    TlvInside(a, t1, t2 + t3);
    SecondTlv(a, t1, t2, t3);
    ThirdTlv(d, a, t1, t2, t3);
    Chain(d, start, |t1|, |t2|);
  }

  lemma ThirdTlv(d: Bytes, a: Bytes, t1: Bytes, t2: Bytes, t3: Bytes)
    requires TlvTotal(t3, 0).Some? && d == a + (t1 + (t2 + t3))
    ensures TlvTotal(d, |a| + |t1| + |t2|) == TlvTotal(t3, 0)
  {
    assert d == (a + t1 + t2) + (t3 + []) by {
      Assoc(a, t1, t2 + t3);
      Assoc(a + t1, t2, t3);
      assert t3 + [] == t3;
    }
    TlvInside(a + t1 + t2, t3, []);
  }

  lemma SecondTlv(a: Bytes, t1: Bytes, t2: Bytes, b: Bytes)
    requires IsTlv(t2)
    ensures TlvTotal(a + (t1 + (t2 + b)), |a| + |t1|) == Some(|t2|)
  {
    Assoc(a, t1, t2 + b);
    TlvInside(a + t1, t2, b);
  }

  lemma Chain(d: Bytes, p: nat, n1: nat, n2: nat)
    requires TlvTotal(d, p) == Some(n1) && TlvTotal(d, p + n1) == Some(n2) && TlvTotal(d, p + n1 + n2).Some?
    ensures FieldPos(d, p, SIGNATURE_FIELD) == Some(p + n1 + n2)
  {
    NextField(d, p, 1);
    NextField(d, p + n1, 0);
    NextField(d, p + n1 + n2, 0);
  }

  // ---- The new length fields ----

  lemma FromBeOne(a: byte)
    ensures FromBe([a]) == a
  {
    assert [a][..0] == [];
  }

  lemma FromBeTwo(a: byte, b: byte)
    ensures FromBe([a, b]) == a * 256 + b
  {
    assert [a, b][..1] == [a] && [a][..0] == [];
    assert FromBe([a]) == a;
  }

  lemma FromBeThree(a: byte, b: byte, c: byte)
    ensures FromBe([a, b, c]) == (a * 256 + b) * 256 + c
  {
    assert [a, b, c][..2] == [a, b];
    FromBeTwo(a, b);
  }

  /** Three length bytes hold 24 bits of the length at most. */
  lemma LengthReads(n: nat)
    ensures DecodeLength(EncodeLength(n), 0) == Some(Len(if n < 0x10000 then n else n % 0x100_0000, |EncodeLength(n)|))
  {
    var b := EncodeLength(n);
    if n < 0x80 {
    } else if n < 0x100 {
      assert b[1..2] == [n];
      FromBeOne(n);
    } else if n < 0x10000 {
      assert b[1..3] == [b[1], b[2]];
      FromBeTwo(b[1], b[2]);
    } else {
      assert b[1..4] == [b[1], b[2], b[3]];
      FromBeThree(b[1], b[2], b[3]);
      LowTwentyFour(n);
    }
  }

  lemma LowTwentyFour(n: nat)
    ensures (n / 0x10000 % 0x100 * 0x100 + n / 0x100 % 0x100) * 0x100 + n % 0x100 == n % 0x100_0000
  {
    var m, low := n / 0x100, n % 0x100;
    LowSixteen(m);
    TwoShifts(n);
    DivModBack(m, 0x10000);
    DivMod(n, 0x100_0000, m / 0x10000, m % 0x10000 * 0x100 + low);
  }

  lemma TwoShifts(n: nat)
    ensures n / 0x10000 == n / 0x100 / 0x100
  {
  }

  /** The outer length field says 16 bits of the length at most. */
  lemma OuterReads(n: nat)
    ensures DecodeLength(OuterLength(n), 0) == Some(Len(if n < 0x100 then n else n % 0x10000, |OuterLength(n)|))
  {
    var b := OuterLength(n);
    if n < 0x80 {
    } else if n < 0x100 {
      assert b[1..2] == [n];
      FromBeOne(n);
    } else {
      assert b[1..3] == [b[1], b[2]];
      FromBeTwo(b[1], b[2]);
      LowSixteen(n);
    }
  }

  lemma LowSixteen(n: nat)
    ensures n / 0x100 % 0x100 * 0x100 + n % 0x100 == n % 0x10000
  {
  }

  /** The total length that the written TLV announces. */
  function Announced(content: Bytes): nat {
    1 + |EncodeLength(|content|)| + if |content| < 0x10000 then |content| else |content| % 0x100_0000
  }

  lemma EncodedTlv(tag: byte, content: Bytes)
    ensures var t := EncodeTlv(tag, content);
            TlvTotal(t, 0) == Some(Announced(content)) && (Announced(content) == |t| <==> |content| < 0x100_0000)
  {
    LengthReads(|content|);
    DecodeInside([tag], EncodeLength(|content|), content, 0);
    Assoc([tag], EncodeLength(|content|), content);
  }

  // ---- The theorem ----

  /** The certificate after the replacement, with its outer length field rewritten. */
  function Signed(c: Cert, sig: Bytes): Cert {
    var tlv := EncodeTlv(BIT_STRING, [0] + sig);
    Cert(OuterLength(|c.tbs| + |c.alg| + |tlv|), c.tbs, c.alg, tlv)
  }

  lemma OuterHeader(d: Bytes, l: Bytes, body: Bytes)
    requires IsLengthField(l) && d == [SEQUENCE] + l + body
    ensures |d| >= 1 + |l| && d[0] == SEQUENCE
    ensures ContentStart(d, 0) == Some(1 + |l|) && d[..1] == [SEQUENCE] && d[1 + |l|..] == body
    ensures DecodeLength(d, 1) == DecodeLength(l, 0)
  {
    DecodeInside([SEQUENCE], l, body, 0);
    Assoc([SEQUENCE], l, body);
  }

  /** On every well-formed certificate: the first two TLVs stay byte for byte and the third is `00` and the
      signature. */
  lemma ReplacesSignature(c: Cert, sig: Bytes)
    requires c.Valid()
    ensures Replace(c.Der(), sig) == Done(Signed(c, sig).Der())
  {
    var start := 1 + |c.outer|;
    var pos := start + |c.tbs| + |c.alg|;
    var der := c.Der();
    var spliced := [SEQUENCE] + c.outer + (c.tbs + (c.alg + EncodeTlv(BIT_STRING, [0] + sig)));
    PartsFound(c, der, start, pos);
    DerParts(c, der, pos, sig, spliced);
    ReplaceFound(der, sig, start, pos, |der|);
    FixedParts(c, sig, spliced);
  }

  lemma PartsFound(c: Cert, der: Bytes, start: nat, pos: nat)
    requires c.Valid() && der == c.Der() && start == 1 + |c.outer| && pos == start + |c.tbs| + |c.alg|
    ensures |der| > 0 && der[0] == SEQUENCE && ContentStart(der, 0) == Some(start)
    ensures FieldPos(der, start, SIGNATURE_FIELD) == Some(pos) && TlvTotal(der, pos) == Some(|c.sig|)
  {
    OuterHeader(der, c.outer, c.tbs + (c.alg + c.sig));
    FieldsFound(der, [SEQUENCE] + c.outer, c.tbs, c.alg, c.sig, start, pos);
  }

  lemma DerParts(c: Cert, der: Bytes, pos: nat, sig: Bytes, spliced: Bytes)
    requires c.Valid() && der == c.Der() && pos == 1 + |c.outer| + |c.tbs| + |c.alg|
    requires spliced == [SEQUENCE] + c.outer + (c.tbs + (c.alg + EncodeTlv(BIT_STRING, [0] + sig)))
    ensures pos + |c.sig| == |der| && der[pos] == BIT_STRING && der[0] == SEQUENCE
    ensures Spliced(der, pos, |der|, sig) == spliced
  {
    var head, tlv := [SEQUENCE] + c.outer, EncodeTlv(BIT_STRING, [0] + sig);
    Splits(head, c.tbs, c.alg, c.sig);
    LastReplaced(der, head, c.tbs, c.alg, c.sig, tlv);
  }

  lemma LastReplaced(d: Bytes, h: Bytes, a: Bytes, b: Bytes, c: Bytes, t: Bytes)
    requires d == h + (a + (b + c))
    ensures var pos := |h| + |a| + |b|; pos <= |d| && d[..pos] + t + d[|d|..] == h + (a + (b + t))
  {
    Splits(h, a, b, c);
    Assoc3(h, a, b, t);
    assert d[|d|..] == [];
  }

  lemma FixedParts(c: Cert, sig: Bytes, spliced: Bytes)
    requires c.Valid()
    requires spliced == [SEQUENCE] + c.outer + (c.tbs + (c.alg + EncodeTlv(BIT_STRING, [0] + sig)))
    ensures FixOuter(spliced, 1 + |c.outer|) == Signed(c, sig).Der()
  {
    OuterHeader(spliced, c.outer, c.tbs + (c.alg + EncodeTlv(BIT_STRING, [0] + sig)));
  }

  lemma Assoc3(h: Bytes, a: Bytes, b: Bytes, t: Bytes)
    ensures h + (a + b) + t + [] == h + (a + (b + t))
  {
    Assoc(h, a + b, t);
    Assoc(a, b, t);
  }

  lemma Splits(h: Bytes, a: Bytes, b: Bytes, c: Bytes)
    ensures var d := h + (a + (b + c)); var pos := |h| + |a| + |b|;
            d[..pos] == h + (a + b) && d[pos..pos + |c|] == c && d[pos + |c|..] == []
            && (|c| > 0 ==> d[pos] == c[0])
  {
  }

  /** The result is a well-formed certificate again, even when a length field has changed its width, exactly when the
      new content fits in 24 bits of length. */
  lemma SignedIsValidIff(c: Cert, sig: Bytes)
    requires c.Valid()
    ensures Signed(c, sig).Valid() <==> |sig| + 1 < 0x100_0000
  {
    OuterReads(|c.tbs| + |c.alg| + |EncodeTlv(BIT_STRING, [0] + sig)|);
    EncodedTlv(BIT_STRING, [0] + sig);
  }

  /** The outer length announces exactly the bytes that follow it precisely when they are fewer than 2^16. */
  lemma OuterLengthFitsIff(c: Cert, sig: Bytes)
    requires c.Valid()
    ensures var s := Signed(c, sig);
            var n := |c.tbs| + |c.alg| + |s.sig|;
            TlvTotal(s.Der(), 0) == Some(|s.Der()|) <==> n < 0x10000
  {
    var s := Signed(c, sig);
    var n := |c.tbs| + |c.alg| + |s.sig|;
    OuterReads(n);
    OuterTotal(s, s.Der(), n);
  }

  /** The total length that the outer header announces, and the one there is. */
  lemma OuterTotal(c: Cert, der: Bytes, n: nat)
    requires IsLengthField(c.outer) && der == c.Der() && n == |c.tbs| + |c.alg| + |c.sig|
    ensures |der| == 1 + |c.outer| + n
    ensures TlvTotal(der, 0) == Some(1 + |c.outer| + DecodeLength(c.outer, 0).value.len)
  {
    OuterHeader(der, c.outer, c.tbs + (c.alg + c.sig));
  }

  /** The BIT STRING holds `00` and the signature, and its length reads back exactly when it fits in 24 bits. */
  lemma SignatureReadsBackIff(c: Cert, sig: Bytes)
    requires c.Valid()
    ensures var s, width := Signed(c, sig), |EncodeLength(|sig| + 1)|;
            && s.sig[0] == BIT_STRING && s.sig[1 + width..] == [0] + sig
            && (DecodeLength(s.sig, 1) == Some(Len(|sig| + 1, width)) <==> |sig| + 1 < 0x100_0000)
  {
    LengthReads(|sig| + 1);
    TlvParts(BIT_STRING, [0] + sig);
  }

  lemma TlvParts(tag: byte, content: Bytes)
    ensures var t, width := EncodeTlv(tag, content), |EncodeLength(|content|)|;
            && t[0] == tag && t[1 + width..] == content
            && DecodeLength(t, 1) == DecodeLength(EncodeLength(|content|), 0)
  {
    LengthReads(|content|);
    DecodeInside([tag], EncodeLength(|content|), content, 0);
    Assoc([tag], EncodeLength(|content|), content);
  }

  lemma SignedTwice(c: Cert, first: Bytes, second: Bytes)
    ensures Signed(Signed(c, first), second) == Signed(c, second)
  {
  }

  /** A second replacement undoes the first, so that only the last signature counts, exactly when the first one's length
      fits in 24 bits; otherwise the end of the first signature is left behind. */
  lemma LastReplacementWinsIff(c: Cert, first: Bytes, second: Bytes)
    requires c.Valid()
    ensures Replace(Signed(c, first).Der(), second) == Replace(c.Der(), second) <==> |first| + 1 < 0x100_0000
  {
    SignedIsValidIff(c, first);
    ReplacesSignature(c, second);
    if |first| + 1 < 0x100_0000 {
      ReplacesSignature(Signed(c, first), second);
      SignedTwice(c, first, second);
    } else {
      SomeLeftBehind(c, first, second);
    }
  }

  lemma SomeLeftBehind(c: Cert, first: Bytes, second: Bytes)
    requires c.Valid() && |first| + 1 >= 0x100_0000
    ensures Replace(Signed(c, first).Der(), second) != Done(Signed(c, second).Der())
  {
    var s := Signed(c, first);
    var der, start := s.Der(), 1 + |s.outer|;
    var pos := start + |c.tbs| + |c.alg|;
    var end := pos + Announced([0] + first);
    OuterReads(|c.tbs| + |c.alg| + |s.sig|);
    EncodedTlv(BIT_STRING, [0] + first);
    OuterHeader(der, s.outer, s.tbs + (s.alg + s.sig));
    FieldsFound(der, [SEQUENCE] + s.outer, s.tbs, s.alg, s.sig, start, pos);
    SignatureAt(s, der, pos);
    ReplaceFound(der, second, start, pos, end);
    LongerOuter(c, second, Spliced(der, pos, end, second), start);
  }

  lemma SignatureAt(s: Cert, der: Bytes, pos: nat)
    requires der == s.Der() && pos == 1 + |s.outer| + |s.tbs| + |s.alg| && s.sig != []
    ensures |der| == pos + |s.sig| && der[pos] == s.sig[0]
  {
    Splits([SEQUENCE] + s.outer, s.tbs, s.alg, s.sig);
  }

  /** More content makes a longer sequence. */
  lemma LongerOuter(c: Cert, sig: Bytes, spliced: Bytes, start: nat)
    requires 1 <= start && |spliced| > start + |c.tbs| + |c.alg| + |EncodeTlv(BIT_STRING, [0] + sig)|
    ensures FixOuter(spliced, start) != Signed(c, sig).Der()
  {
    assert |FixOuter(spliced, start)| > |Signed(c, sig).Der()|;
  }
}
