/** Replacing the signature inside a DER certificate (src/vless/tls/reality.rs). */
module RealityDer {
  import opened Bytes

  const SEQUENCE: byte := 0x30
  const BIT_STRING: byte := 0x03
  /** Index of the signature value among the fields of a certificate. */
  const SIGNATURE_FIELD: nat := 2

  /** A decoded length field: the length, and the bytes the field takes. */
  datatype Len = Len(len: nat, width: nat)

  function DecodeLength(data: Bytes, pos: nat): (r: Option<Len>)
    ensures r.Some? ==> r.value.width >= 1 && pos + r.value.width <= |data|
  {
    if pos >= |data| then None
    else if data[pos] < 0x80 then Some(Len(data[pos], 1))
    else
      var n := data[pos] % 0x80;
      if n == 0 || n > 4 || pos + 1 + n > |data| then None
      else Some(Len(FromBe(data[pos + 1..pos + 1 + n]), 1 + n))
  }

  /** The total length of the TLV at `pos`; its content may reach beyond the data. */
  function TlvTotal(data: Bytes, pos: nat): Option<nat> {
    if pos + 1 >= |data| then None
    else match DecodeLength(data, pos + 1)
      case None => None
      case Some(l) => Some(1 + l.width + l.len)
  }

  function ContentStart(data: Bytes, pos: nat): Option<nat> {
    match DecodeLength(data, pos + 1)
    case None => None
    case Some(l) => Some(pos + 1 + l.width)
  }

  /** The definite length forms written for the new signature. */
  function EncodeLength(n: nat): (b: Bytes)
    ensures |b| >= 1
  {
    if n < 0x80 then [n]
    else if n < 0x100 then [0x81, n]
    else if n < 0x10000 then [0x82, n / 0x100, n % 0x100]
    else [0x83, n / 0x10000 % 0x100, n / 0x100 % 0x100, n % 0x100]
  }

  function EncodeTlv(tag: byte, content: Bytes): Bytes {
    [tag] + EncodeLength(|content|) + content
  }

  /** The forms written for the outer sequence: never more than two length bytes, and the high one is cast to a byte. */
  function OuterLength(n: nat): (b: Bytes)
    ensures |b| >= 1
  {
    if n < 0x80 then [n]
    else if n < 0x100 then [0x81, n]
    else [0x82, n / 0x100 % 0x100, n % 0x100]
  }

  /** `Bailed` leaves the data as they were; `Panicked` is a slice index out of range. */
  datatype Outcome = Done(der: Bytes) | Bailed | Panicked

  /** Where the `k`-th TLV from `pos` on starts. */
  function FieldPos(der: Bytes, pos: nat, k: nat): (r: Option<nat>)
    ensures r.Some? ==> pos <= r.value < |der| && TlvTotal(der, r.value).Some?
    decreases k
  {
    if pos >= |der| then None
    else match TlvTotal(der, pos)
      case None => None
      case Some(total) => if k == 0 then Some(pos) else FieldPos(der, pos + total, k - 1)
  }

  lemma NextField(der: Bytes, pos: nat, k: nat)
    requires TlvTotal(der, pos).Some?
    ensures FieldPos(der, pos, k + 1) == FieldPos(der, pos + TlvTotal(der, pos).value, k)
    ensures FieldPos(der, pos, 0) == Some(pos)
  {
  }

  function Replace(der: Bytes, sig: Bytes): Outcome {
    if |der| == 0 || der[0] != SEQUENCE then Bailed
    else match ContentStart(der, 0)
      case None => Bailed
      case Some(start) => ReplaceAt(der, start, FieldPos(der, start, SIGNATURE_FIELD), sig)
  }

  /** The same for content that begins at `start` and a third field that was looked for and found at `at`, or not. */
  function ReplaceAt(der: Bytes, start: nat, at: Option<nat>, sig: Bytes): Outcome
    requires start > 0 && (at.Some? ==> start <= at.value < |der| && TlvTotal(der, at.value).Some?)
  {
    match at
    case None => Bailed
    case Some(pos) =>
      var end := pos + TlvTotal(der, pos).value;
      if der[pos] != BIT_STRING then Bailed
      else if end > |der| then Panicked
      else Done(FixOuter(Spliced(der, pos, end, sig), start))
  }

  /** The new BIT STRING in place of `der[pos..end]`. */
  function Spliced(der: Bytes, pos: nat, end: nat, sig: Bytes): (r: Bytes)
    requires pos <= end <= |der|
    ensures |r| >= pos
  {
    der[..pos] + EncodeTlv(BIT_STRING, [0] + sig) + der[end..]
  }

  /** The replacement once the header and the third field have been found. */
  lemma ReplaceFound(der: Bytes, sig: Bytes, start: nat, pos: nat, end: nat)
    requires |der| > 0 && der[0] == SEQUENCE && ContentStart(der, 0) == Some(start)
    requires FieldPos(der, start, SIGNATURE_FIELD) == Some(pos) && der[pos] == BIT_STRING
    requires end == pos + TlvTotal(der, pos).value <= |der|
    ensures Replace(der, sig) == Done(FixOuter(Spliced(der, pos, end, sig), start))
  {
    ReplaceStarts(der, sig, start);
    ReplaceAtFound(der, sig, start, Some(pos), end);
  }

  lemma ReplaceStarts(der: Bytes, sig: Bytes, start: nat)
    requires |der| > 0 && der[0] == SEQUENCE && ContentStart(der, 0) == Some(start)
    ensures Replace(der, sig) == ReplaceAt(der, start, FieldPos(der, start, SIGNATURE_FIELD), sig)
  {
  }

  lemma ReplaceAtFound(der: Bytes, sig: Bytes, start: nat, at: Option<nat>, end: nat)
    requires start > 0 && at.Some? && start <= at.value < |der| && TlvTotal(der, at.value).Some?
    requires der[at.value] == BIT_STRING && end == at.value + TlvTotal(der, at.value).value <= |der|
    ensures ReplaceAt(der, start, at, sig) == Done(FixOuter(Spliced(der, at.value, end, sig), start))
  {
  }

  /** The outer length rewritten for content that starts at `start`. */
  function FixOuter(der: Bytes, start: nat): Bytes
    requires 1 <= start <= |der|
  {
    der[..1] + OuterLength(|der| - start) + der[start..]
  }

  // ---- In place ----

  method DecodeLengthAt(data: Bytes, pos: nat) returns (r: Option<Len>)
    ensures r == DecodeLength(data, pos)
  {
    if pos >= |data| {
      return None;
    }
    var first := data[pos];
    if first < 0x80 {
      return Some(Len(first, 1));
    }
    var n := first % 0x80;
    if n == 0 || n > 4 || pos + 1 + n > |data| {
      return None;
    }
    var len: nat := 0;
    for i := 0 to n
      invariant len == FromBe(data[pos + 1..pos + 1 + i])
    {
      ghost var b := data[pos + 1..pos + 1 + i + 1];
      assert b[..|b| - 1] == data[pos + 1..pos + 1 + i];
      len := len * 256 + data[pos + 1 + i];
    }
    r := Some(Len(len, 1 + n));
  }

  /** A growable byte vector that holds one certificate. */
  class DerVec {
    var der: Bytes

    constructor (der: Bytes)
      ensures this.der == der
    {
      this.der := der;
    }

    /** `splice(from..to, with)` */
    method Splice(from: nat, to: nat, with: Bytes)
      requires from <= to <= |der|
      modifies this
      ensures der == old(der)[..from] + with + old(der)[to..]
    {
      der := der[..from] + with + der[to..];
    }

    method FixOuterSequenceLength() returns (ok: bool)
      requires |der| > 0
      modifies this
      ensures var start := ContentStart(old(der), 0);
              ok == (old(der)[0] == SEQUENCE && start.Some?)
              && der == if ok then FixOuter(old(der), start.value) else old(der)
    {
      if der[0] != SEQUENCE {
        return false;
      }
      var len := DecodeLengthAt(der, 1);
      if len.None? {
        return false;
      }
      var start := 1 + len.value.width;
      var n := |der| - start;
      var field;
      if n < 0x80 {
        field := [n];
      } else if n < 0x100 {
        field := [0x81, n];
      } else {
        field := [0x82, n / 0x100 % 0x100, n % 0x100];
      }
      Splice(1, start, field);
      ok := true;
    }

    /** The new BIT STRING goes in place of `der[pos..end]`, then the outer length is made to fit. */
    method SpliceSignature(ghost start: nat, pos: nat, end: nat, sig: Bytes)
      requires |der| > 0 && der[0] == SEQUENCE && ContentStart(der, 0) == Some(start) && start <= pos <= end <= |der|
      modifies this
      ensures der == FixOuter(Spliced(old(der), pos, end, sig), start)
    {
      var tlv := EncodeTlv(BIT_STRING, [0] + sig);
      PrefixKeepsStart(der, pos, tlv + der[end..]);
      Assoc(der[..pos], tlv, der[end..]);
      Splice(pos, end, tlv);
      var ok := FixOuterSequenceLength();
    }

    /** `Bailed` and `Panicked` outcomes leave the vector alone; `Done` carries its new value. */
    method ReplaceSignature(sig: Bytes) returns (r: Outcome)
      modifies this
      ensures r == Replace(old(der), sig)
      ensures der == if r.Done? then r.der else old(der)
    {
      if |der| == 0 || der[0] != SEQUENCE {
        return Bailed;
      }
      var outer := DecodeLengthAt(der, 1);
      if outer.None? {
        return Bailed;
      }
      r := ReplaceThird(1 + outer.value.width, sig);
    }

    method ReplaceThird(start: nat, sig: Bytes) returns (r: Outcome)
      requires |der| > 0 && der[0] == SEQUENCE && ContentStart(der, 0) == Some(start)
      modifies this
      ensures r == ReplaceAt(old(der), start, FieldPos(old(der), start, SIGNATURE_FIELD), sig)
      ensures der == if r.Done? then r.der else old(der)
    {
      var pos, total := FindField(start, SIGNATURE_FIELD);
      if pos.None? {
        return Bailed;
      }
      r := ReplaceLocated(start, pos, total, sig);
    }

    method ReplaceLocated(start: nat, at: Option<nat>, total: nat, sig: Bytes) returns (r: Outcome)
      requires |der| > 0 && der[0] == SEQUENCE && ContentStart(der, 0) == Some(start)
      requires at.Some? && start <= at.value < |der| && TlvTotal(der, at.value) == Some(total)
      modifies this
      ensures r == ReplaceAt(old(der), start, at, sig)
      ensures der == if r.Done? then r.der else old(der)
    {
      var pos := at.value;
      if der[pos] != BIT_STRING {
        return Bailed;
      }
      if pos + total > |der| {
        return Panicked;
      }
      ReplaceAtFound(der, sig, start, at, pos + total);
      SpliceSignature(start, pos, pos + total, sig);
      r := Done(der);
    }

    /** Walk over the TLVs from `start` on; `total` is the length of the one found. */
    method FindField(start: nat, k: nat) returns (pos: Option<nat>, total: nat)
      ensures pos == FieldPos(der, start, k) && (pos.Some? ==> Some(total) == TlvTotal(der, pos.value))
    {
      total := 0;
      var at := start;
      for fieldIdx := 0 to k + 1
        invariant fieldIdx <= k && start <= at && FieldPos(der, start, k) == FieldPos(der, at, k - fieldIdx)
      {
        if at + 1 >= |der| {
          return None, 0;
        }
        var len := DecodeLengthAt(der, at + 1);
        if len.None? {
          return None, 0;
        }
        total := 1 + len.value.width + len.value.len;
        if fieldIdx == k {
          return Some(at), total;
        }
        NextField(der, at, k - fieldIdx - 1);
        at := at + total;
      }
      pos := None;
    }
  }

  /** Rewriting the data behind the outer header leaves the header's own decoding alone. */
  lemma PrefixKeepsStart(der: Bytes, pos: nat, more: Bytes)
    requires |der| > 0 && ContentStart(der, 0).Some? && ContentStart(der, 0).value <= pos <= |der|
    ensures ContentStart(der[..pos] + more, 0) == ContentStart(der, 0) && (der[..pos] + more)[0] == der[0]
  {
    var l := DecodeLength(der, 1).value;
    SliceOfFront(der, pos, more, 2, 1 + l.width);
  }

  lemma SliceOfFront(d: Bytes, pos: nat, more: Bytes, a: nat, b: nat)
    requires b <= pos <= |d|
    ensures a <= b ==> (d[..pos] + more)[a..b] == d[a..b]
    ensures forall i :: 0 <= i < pos ==> (d[..pos] + more)[i] == d[i]
  {
    if a <= b {
      assert |(d[..pos] + more)[a..b]| == b - a == |d[a..b]|;
      var e := d[..pos] + more;
      assert forall i :: 0 <= i < b - a ==> e[a..b][i] == e[a + i] == d[a + i] == d[a..b][i];
    }
  }
}
