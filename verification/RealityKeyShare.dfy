/** Finding the client's x25519 key in a ClientHello (src/vless/tls/reality.rs). */
module RealityKeyShare {
  import opened Bytes

  /** Record header, handshake header, version, random and session id length come before the session id. */
  const SID_OFFSET := 44
  const KEY_SHARE := 0x0033
  const X25519 := 0x001d
  const X25519_MLKEM768 := 0x11ec
  const MLKEM_SHARE := 1088 + 32

  function Word(d: Bytes, i: nat): u16
    requires i + 1 < |d|
  {
    GetU16(d[i], d[i + 1])
  }

  // ---- What the scanners compute, on what is left to scan ----

  /** The shares in `d`; `best` is the key of the last hybrid share seen so far. */
  function ScanShares(d: Bytes, best: Option<Bytes>): Option<Bytes>
    decreases |d|
  {
    if |d| < 4 then best
    else
      var group, len := Word(d, 0), Word(d, 2);
      if |d| < 4 + len then None
      else if group == X25519 && len == 32 then Some(d[4..36])
      else
        ScanShares(d[4 + len..],
                   if group == X25519_MLKEM768 && len >= MLKEM_SHARE then Some(d[4 + len - 32..4 + len]) else best)
  }

  function ParseKeyShare(data: Bytes): Option<Bytes> {
    if |data| < 2 then None else ScanShares(data[2..Min(2 + Word(data, 0), |data|)], None)
  }

  function ScanExtensions(d: Bytes): Option<Bytes>
    decreases |d|
  {
    if |d| < 4 then None
    else
      var kind, len := Word(d, 0), Word(d, 2);
      if |d| < 4 + len then None
      else if kind == KEY_SHARE then ParseKeyShare(d[4..4 + len])
      else ScanExtensions(d[4 + len..])
  }

  /** The extensions block that follows the cipher suites and compression methods. */
  function Extensions(record: Bytes): Option<Bytes> {
    var suites := SID_OFFSET + 32;
    if |record| < suites + 2 then None
    else
      var methods := suites + 2 + Word(record, suites);
      if |record| < methods + 1 then None
      else
        var exts := methods + 1 + record[methods];
        if |record| < exts + 2 then None
        else
          var end := exts + 2 + Word(record, exts);
          if |record| < end then None else Some(record[exts + 2..end])
  }

  function Extract(record: Bytes): Option<Bytes> {
    match Extensions(record) case None => None case Some(d) => ScanExtensions(d)
  }

  // ---- The loops ----

  lemma Within(d: Bytes, pos: nat, end: nat, a: nat, b: nat)
    requires pos <= end <= |d| && a <= b && pos + b <= end
    ensures d[pos..end][a..b] == d[pos + a..pos + b] && d[pos..end][b..] == d[pos + b..end]
  {
    var s := d[pos..end];
    assert forall i :: 0 <= i < |s| ==> s[i] == d[pos + i];
    assert |s[a..b]| == b - a && forall i :: 0 <= i < b - a ==> s[a..b][i] == s[a + i];
    assert |s[b..]| == end - pos - b && forall i :: 0 <= i < |s[b..]| ==> s[b..][i] == s[b + i];
  }

  lemma WordWithin(d: Bytes, pos: nat, end: nat)
    requires pos + 4 <= end <= |d|
    ensures Word(d[pos..end], 0) == Word(d, pos) && Word(d[pos..end], 2) == Word(d, pos + 2)
  {
  }

  lemma RoundSlices(d: Bytes, pos: nat, end: nat, len: nat)
    requires pos + 4 + len <= end <= |d|
    ensures d[pos..end][4 + len..] == d[pos + 4 + len..end]
    ensures len >= 32 ==> d[pos..end][4 + len - 32..4 + len] == d[pos + 4 + len - 32..pos + 4 + len]
  {
    Within(d, pos, end, 4, 4 + len);
    if len >= 32 {
      Within(d, pos, end, 4 + len - 32, 4 + len);
    }
  }

  function Better(d: Bytes, from: nat, group: u16, len: nat, best: Option<Bytes>): Option<Bytes>
    requires from + len <= |d|
  {
    if group == X25519_MLKEM768 && len >= MLKEM_SHARE then Some(d[from + len - 32..from + len]) else best
  }

  /** One round of the share scanner on the part of `d` between `pos` and `end`. */
  lemma ShareRound(d: Bytes, pos: nat, end: nat, best: Option<Bytes>)
    requires pos + 4 <= end <= |d|
    ensures var group, len, from := Word(d, pos), Word(d, pos + 2), pos + 4;
            ScanShares(d[pos..end], best)
            == if from + len > end then None
               else if group == X25519 && len == 32 then Some(d[from..from + 32])
               else ScanShares(d[from + len..end], Better(d, from, group, len, best))
  {
    var group, len: nat := Word(d, pos), Word(d, pos + 2);
    if pos + 4 + len > end {
      ShareCut(d, pos, end, best);
    } else if group == X25519 && len == 32 {
      ShareFound(d, pos, end, best);
    } else {
      ShareSkipped(d, pos, end, best, group, len);
    }
  }

  lemma ShareCut(d: Bytes, pos: nat, end: nat, best: Option<Bytes>)
    requires pos + 4 <= end <= |d| && pos + 4 + Word(d, pos + 2) as int > end
    ensures ScanShares(d[pos..end], best) == None
  {
    WordWithin(d, pos, end);
  }

  lemma ShareFound(d: Bytes, pos: nat, end: nat, best: Option<Bytes>)
    requires pos + 36 <= end <= |d| && Word(d, pos) == X25519 && Word(d, pos + 2) == 32
    ensures ScanShares(d[pos..end], best) == Some(d[pos + 4..pos + 4 + 32])
  {
    WordWithin(d, pos, end);
    Within(d, pos, end, 4, 36);
  }

  lemma ShareSkipped(d: Bytes, pos: nat, end: nat, best: Option<Bytes>, group: u16, len: nat)
    requires pos + 4 + len <= end <= |d| && Word(d, pos) == group && Word(d, pos + 2) as int == len
    requires !(group == X25519 && len == 32)
    ensures ScanShares(d[pos..end], best) == ScanShares(d[pos + 4 + len..end], Better(d, pos + 4, group, len, best))
  {
    WordWithin(d, pos, end);
    NextShares(d[pos..end], group, len, best);
    RoundSlices(d, pos, end, len);
  }

  lemma NextShares(s: Bytes, group: u16, len: nat, best: Option<Bytes>)
    requires 4 + len <= |s| && Word(s, 0) == group && Word(s, 2) as int == len && !(group == X25519 && len == 32)
    ensures ScanShares(s, best) == ScanShares(s[4 + len..], Better(s, 4, group, len, best))
  {
  }

  /** One round of the extension scanner. */
  lemma ExtensionRound(d: Bytes, pos: nat, end: nat)
    requires pos + 4 <= end <= |d|
    ensures var kind, len, from := Word(d, pos), Word(d, pos + 2), pos + 4;
            ScanExtensions(d[pos..end])
            == if from + len > end then None
               else if kind == KEY_SHARE then ParseKeyShare(d[from..from + len])
               else ScanExtensions(d[from + len..end])
  {
    WordWithin(d, pos, end);
    var len: nat := Word(d, pos + 2);
    if pos + 4 + len <= end {
      Within(d, pos, end, 4, 4 + len);
    }
  }

  /** On any bytes at all the loop ends, and every index it uses is within the data. */
  method ParseX25519KeyShare(data: Bytes) returns (key: Option<Bytes>)
    ensures key == ParseKeyShare(data)
  {
    if |data| < 2 {
      return None;
    }
    key := ScanShareBlock(data, 2, Min(2 + Word(data, 0), |data|));
  }

  /** The loop over the shares. */
  method ScanShareBlock(data: Bytes, start: nat, end: nat) returns (key: Option<Bytes>)
    requires start <= end <= |data|
    ensures key == ScanShares(data[start..end], None)
  {
    var pos, done := start, false;
    key := None;
    ghost var wanted := ScanShares(data[start..end], None);
    while !done && pos + 4 <= end
      invariant pos <= end && wanted == if done then key else ScanShares(data[pos..end], key)
      decreases end - pos, !done
    {
      pos, done, key := NextShare(data, pos, end, key);
    }
  }

  /** One share: the answer is known, or `key` is the best share up to `next`. */
  method NextShare(data: Bytes, pos: nat, end: nat, best: Option<Bytes>)
    returns (next: nat, done: bool, key: Option<Bytes>)
    requires pos + 4 <= end <= |data|
    ensures pos < next <= end
    ensures ScanShares(data[pos..end], best) == if done then key else ScanShares(data[next..end], key)
  {
    ShareRound(data, pos, end, best);
    var group, len := Word(data, pos), Word(data, pos + 2);
    next, done, key := pos + 4, true, None;
    if next + len <= end {
      if group == X25519 && len == 32 {
        key := Some(data[next..next + 32]);
      } else {
        key := BetterShare(data, next, group, len, best);
        next, done := next + len, false;
      }
    }
  }

  /** The last 32 bytes of a hybrid share that is long enough. */
  method BetterShare(data: Bytes, pos: nat, group: u16, len: nat, best: Option<Bytes>) returns (key: Option<Bytes>)
    requires pos + len <= |data|
    ensures key == Better(data, pos, group, len, best)
  {
    key := best;
    if group == X25519_MLKEM768 && len >= MLKEM_SHARE {
      var offset := len - 32;
      assert pos + offset + 32 == pos + len;
      key := Some(data[pos + offset..pos + offset + 32]);
    }
  }

  datatype Span = Span(pos: nat, end: nat)

  /** The checks and skips up to the extensions block. */
  method FindExtensions(record: Bytes) returns (span: Option<Span>)
    ensures span.None? ==> Extensions(record) == None
    ensures span.Some? ==> span.value.pos <= span.value.end <= |record|
                           && Extensions(record) == Some(record[span.value.pos..span.value.end])
  {
    var pos := SID_OFFSET + 32;
    if pos + 2 > |record| {
      return None;
    }
    pos := pos + 2 + Word(record, pos);
    if pos + 1 > |record| {
      return None;
    }
    pos := pos + 1 + record[pos];
    if pos + 2 > |record| {
      return None;
    }
    var end := pos + 2 + Word(record, pos);
    if end > |record| {
      return None;
    }
    span := Some(Span(pos + 2, end));
  }

  method ExtractX25519FromKeyShare(record: Bytes) returns (key: Option<Bytes>)
    ensures key == Extract(record)
  {
    var span := FindExtensions(record);
    if span.None? {
      return None;
    }
    key := ScanBlock(record, span.value.pos, span.value.end);
  }

  /** The loop over the extensions block. */
  method ScanBlock(record: Bytes, start: nat, end: nat) returns (key: Option<Bytes>)
    requires start <= end <= |record|
    ensures key == ScanExtensions(record[start..end])
  {
    var pos, done := start, false;
    key := None;
    ghost var wanted := ScanExtensions(record[start..end]);
    while !done && pos + 4 <= end
      invariant pos <= end && wanted == if done then key else ScanExtensions(record[pos..end])
      invariant !done ==> key == None
      decreases end - pos, !done
    {
      pos, done, key := NextExtension(record, pos, end);
    }
  }

  /** One extension: the answer is known, or it is not a key_share. */
  method NextExtension(record: Bytes, pos: nat, end: nat) returns (next: nat, done: bool, key: Option<Bytes>)
    requires pos + 4 <= end <= |record|
    ensures pos < next <= end && (!done ==> key == None)
    ensures ScanExtensions(record[pos..end]) == if done then key else ScanExtensions(record[next..end])
  {
    ExtensionRound(record, pos, end);
    var kind, len := Word(record, pos), Word(record, pos + 2);
    next, done, key := pos + 4, true, None;
    if next + len <= end {
      if kind == KEY_SHARE {
        key := ParseX25519KeyShare(record[next..next + len]);
      } else {
        next, done := next + len, false;
      }
    }
  }

  // ---- Structured hellos ----

  datatype Share = Share(group: u16, key: Bytes)

  /** An extension: the key shares, or any other kind with an uninterpreted body. */
  datatype Extension = KeyShares(shares: seq<Share>) | Other(kind: u16, body: Bytes)

  /** `head` is everything up to and including the 32-byte session id. */
  datatype Hello = Hello(head: Bytes, suites: Bytes, methods: Bytes, exts: seq<Extension>)

  function WriteShares(shares: seq<Share>): Bytes {
    if |shares| == 0 then []
    else U16(shares[0].group) + U16(|shares[0].key| % 0x10000) + shares[0].key + WriteShares(shares[1..])
  }

  function Kind(e: Extension): u16 { if e.KeyShares? then KEY_SHARE else e.kind }

  function Body(e: Extension): Bytes {
    match e
    case KeyShares(shares) => U16(|WriteShares(shares)| % 0x10000) + WriteShares(shares)
    case Other(_, body) => body
  }

  function WriteExtensions(exts: seq<Extension>): Bytes {
    if |exts| == 0 then []
    else U16(Kind(exts[0])) + U16(|Body(exts[0])| % 0x10000) + Body(exts[0]) + WriteExtensions(exts[1..])
  }

  function WriteHello(h: Hello): Bytes {
    var exts := WriteExtensions(h.exts);
    Joined(h.head, U16(|h.suites| % 0x10000), h.suites, [|h.methods| % 0x100], h.methods, U16(|exts| % 0x10000), exts)
  }

  /** The fields of a ClientHello one after the other. */
  function Joined(head: Bytes, c: Bytes, suites: Bytes, m: Bytes, methods: Bytes, e: Bytes, exts: Bytes): Bytes {
    head + (c + (suites + (m + (methods + (e + exts)))))
  }

  /** Every length fits the field that carries it. */
  ghost predicate ValidHello(h: Hello) {
    && |h.head| == SID_OFFSET + 32 && |h.suites| < 0x10000 && |h.methods| < 0x100
    && |WriteExtensions(h.exts)| < 0x10000 && forall e :: e in h.exts ==> ValidExtension(e)
  }

  ghost predicate ValidExtension(e: Extension) {
    match e
    case KeyShares(shares) => forall s :: s in shares ==> |s.key| < 0x10000
    case Other(kind, _) => kind != KEY_SHARE
  }

  /** The key of the first 32-byte x25519 share. */
  function FirstX25519(shares: seq<Share>): Option<Bytes> {
    if |shares| == 0 then None
    else if shares[0].group == X25519 && |shares[0].key| == 32 then Some(shares[0].key)
    else FirstX25519(shares[1..])
  }

  /** The last 32 bytes of the last hybrid share that is long enough. */
  function LastHybrid(shares: seq<Share>): Option<Bytes> {
    if |shares| == 0 then None
    else
      var s := shares[|shares| - 1];
      if s.group == X25519_MLKEM768 && |s.key| >= MLKEM_SHARE then Some(s.key[|s.key| - 32..])
      else LastHybrid(shares[..|shares| - 1])
  }

  function Chosen(shares: seq<Share>): Option<Bytes> {
    if FirstX25519(shares).Some? then FirstX25519(shares) else LastHybrid(shares)
  }

  /** The key the first key_share extension offers. */
  function Offered(exts: seq<Extension>): Option<Bytes> {
    if |exts| == 0 then None
    else if exts[0].KeyShares? then Chosen(exts[0].shares)
    else Offered(exts[1..])
  }

  lemma Entry(kind: u16, body: Bytes, rest: Bytes)
    requires |body| < 0x10000
    ensures var d := U16(kind) + U16(|body| % 0x10000) + body + rest;
            && |d| >= 4 + |body| && Word(d, 0) == kind && Word(d, 2) == |body|
            && d[4..4 + |body|] == body && d[4 + |body|..] == rest
  {
  }

  lemma LastBytes(d: Bytes, key: Bytes)
    requires |d| >= 4 + |key| && d[4..4 + |key|] == key && |key| >= 32
    ensures d[4 + |key| - 32..4 + |key|] == key[|key| - 32..]
  {
  }

  lemma {:induction false} LastHybridHead(shares: seq<Share>)
    requires |shares| > 0
    ensures LastHybrid(shares)
         == if LastHybrid(shares[1..]).Some? then LastHybrid(shares[1..]) else LastHybrid(shares[..1])
  {
    if |shares| > 1 {
      var init := shares[..|shares| - 1];
      assert init[1..] == shares[1..][..|shares| - 2] && init[..1] == shares[..1];
      LastHybridHead(init);
    } else {
      assert shares[..1] == shares;
    }
  }

  lemma {:induction false} SharesScan(shares: seq<Share>, best: Option<Bytes>)
    requires forall s :: s in shares ==> |s.key| < 0x10000
    ensures ScanShares(WriteShares(shares), best)
         == if Chosen(shares).Some? then Chosen(shares) else best
    decreases |shares|
  {
    if |shares| == 0 {
    } else {
      var s := shares[0];
      assert s in shares;
      ShareStep(s, WriteShares(shares[1..]), best);
      var hybrid := s.group == X25519_MLKEM768 && |s.key| >= MLKEM_SHARE;
      SharesScan(shares[1..], if hybrid then Some(s.key[|s.key| - 32..]) else best);
      HybridSplit(shares);
    }
  }

  lemma HybridSplit(shares: seq<Share>)
    requires |shares| > 0
    ensures var s := shares[0];
            LastHybrid(shares) == if LastHybrid(shares[1..]).Some? then LastHybrid(shares[1..])
                                  else if s.group == X25519_MLKEM768 && |s.key| >= MLKEM_SHARE
                                  then Some(s.key[|s.key| - 32..])
                                  else None
  {
    LastHybridHead(shares);
    assert shares[..1] == [shares[0]] && shares[..1][..0] == [];
  }

  lemma ShareStep(s: Share, rest: Bytes, best: Option<Bytes>)
    requires |s.key| < 0x10000
    ensures ScanShares(U16(s.group) + U16(|s.key| % 0x10000) + s.key + rest, best)
         == if s.group == X25519 && |s.key| == 32 then Some(s.key)
            else ScanShares(rest, if s.group == X25519_MLKEM768 && |s.key| >= MLKEM_SHARE
                                  then Some(s.key[|s.key| - 32..]) else best)
  {
    Entry(s.group, s.key, rest);
    if |s.key| >= 32 {
      LastBytes(U16(s.group) + U16(|s.key| % 0x10000) + s.key + rest, s.key);
    }
  }

  lemma KeyShareBody(shares: seq<Share>, w: Bytes, b: Bytes)
    requires w == WriteShares(shares) && |w| + 2 < 0x10000 && forall s :: s in shares ==> |s.key| < 0x10000
    requires b == U16(|w|) + w
    ensures ParseKeyShare(b) == Chosen(shares)
  {
    ScanOfShares(shares, w);
    KeyShareParses(|w|, w, b);
  }

  lemma ScanOfShares(shares: seq<Share>, w: Bytes)
    requires w == WriteShares(shares) && forall s :: s in shares ==> |s.key| < 0x10000
    ensures ScanShares(w, None) == Chosen(shares)
  {
    SharesScan(shares, None);
  }

  lemma BodyOfShares(shares: seq<Share>, w: Bytes)
    requires w == WriteShares(shares) && |w| < 0x10000
    ensures Body(KeyShares(shares)) == U16(|w| % 0x10000) + w && |w| % 0x10000 == |w|
  {
  }

  lemma KeyShareParses(n: u16, w: Bytes, b: Bytes)
    requires n as int == |w| && b == U16(n) + w
    ensures ParseKeyShare(b) == ScanShares(w, None)
  {
    WordFirst(n, w);
    ParsesAll(b, w);
  }

  lemma WordFirst(n: u16, w: Bytes)
    ensures var b := U16(n) + w; |b| == 2 + |w| && Word(b, 0) == n && b[2..] == w
  {
    var b := U16(n) + w;
    U16ReadsBack(n);
    assert b[0] == U16(n)[0] && b[1] == U16(n)[1];
  }

  lemma ParsesAll(b: Bytes, w: Bytes)
    requires |b| == 2 + |w| && Word(b, 0) == |w| && b[2..] == w
    ensures ParseKeyShare(b) == ScanShares(w, None)
  {
    assert b[2..|b|] == b[2..];
  }

  lemma {:induction false} ExtensionsScan(exts: seq<Extension>)
    requires |WriteExtensions(exts)| < 0x10000 && forall e :: e in exts ==> ValidExtension(e)
    ensures ScanExtensions(WriteExtensions(exts)) == Offered(exts)
    decreases |exts|
  {
    if |exts| == 0 {
    } else {
      var e := exts[0];
      assert e in exts;
      Entry(Kind(e), Body(e), WriteExtensions(exts[1..]));
      if e.KeyShares? {
        BodyOfShares(e.shares, WriteShares(e.shares));
        KeyShareBody(e.shares, WriteShares(e.shares), Body(e));
      } else {
        ExtensionsScan(exts[1..]);
      }
    }
  }

  lemma WordAt(d: Bytes, a: Bytes, n: u16, rest: Bytes)
    requires d == a + (U16(n) + rest)
    ensures |d| == |a| + 2 + |rest| && Word(d, |a|) == n && d[|a| + 2..] == rest
  {
    U16ReadsBack(n);
    assert d[|a|] == U16(n)[0] && d[|a| + 1] == U16(n)[1];
  }

  lemma ByteAt(d: Bytes, a: Bytes, n: byte, rest: Bytes)
    requires d == a + ([n] + rest)
    ensures |d| == |a| + 1 + |rest| && d[|a|] == n && d[|a| + 1..] == rest
  {
  }

  /** A field behind a 16-bit length, and what then comes in front of the rest. */
  lemma Field16(d: Bytes, front: Bytes, body: Bytes, rest: Bytes) returns (upto: Bytes)
    requires |body| < 0x10000 && d == front + (U16(|body|) + (body + rest))
    ensures Word(d, |front|) == |body| && |upto| == |front| + 2 + |body| && d == upto + rest
  {
    WordAt(d, front, |body|, body + rest);
    upto := front + U16(|body|) + body;
    Assoc(front, U16(|body|), body + rest);
    Assoc(front + U16(|body|), body, rest);
  }

  /** The same for an 8-bit length. */
  lemma Field8(d: Bytes, front: Bytes, body: Bytes, rest: Bytes) returns (upto: Bytes)
    requires |body| < 0x100 && d == front + ([|body| as byte] + (body + rest))
    ensures |front| < |d| && d[|front|] == |body| && |upto| == |front| + 1 + |body| && d == upto + rest
  {
    ByteAt(d, front, |body|, body + rest);
    upto := front + [|body| as byte] + body;
    Assoc(front, [|body| as byte], body + rest);
    Assoc(front + [|body| as byte], body, rest);
  }

  /** `Extensions` on a record whose three length fields are known. */
  lemma Located(d: Bytes, suites: nat, methods: nat, exts: nat)
    requires var m := SID_OFFSET + 32 + 2 + suites; var e := m + 1 + methods;
             && e + 2 + exts <= |d| && Word(d, SID_OFFSET + 32) == suites && d[m] == methods && Word(d, e) == exts
    ensures var e := SID_OFFSET + 32 + 2 + suites + 1 + methods;
            Extensions(d) == Some(d[e + 2..e + 2 + exts])
  {
  }

  lemma ExtensionsFound(h: Hello, tail: Bytes)
    requires ValidHello(h)
    ensures Extensions(WriteHello(h) + tail) == Some(WriteExtensions(h.exts))
  {
    var exts := WriteExtensions(h.exts);
    var c, m, e := U16(|h.suites|), [|h.methods| as byte], U16(|exts|);
    HelloShape(h, exts, tail, c, m, e);
    FieldsAt(WriteHello(h) + tail, h, exts, tail, c, m, e);
  }

  lemma FieldsAt(d: Bytes, h: Hello, exts: Bytes, tail: Bytes, c: Bytes, m: Bytes, e: Bytes)
    requires ValidHello(h) && |exts| < 0x10000
    requires c == U16(|h.suites|) && m == [|h.methods| as byte] && e == U16(|exts|)
    requires d == h.head + (c + (h.suites + (m + (h.methods + (e + (exts + tail))))))
    ensures Extensions(d) == Some(exts)
  {
    var t3 := e + (exts + tail);
    var t2 := m + (h.methods + t3);
    var upto := Field16(d, h.head, h.suites, t2);
    upto := Field8(d, upto, h.methods, t3);
    WordAt(d, upto, |exts|, exts + tail);
    Located(d, |h.suites|, |h.methods|, |exts|);
    FrontOf(d, |upto| + 2, exts, tail);
  }

  lemma FrontOf(d: Bytes, i: nat, exts: Bytes, tail: Bytes)
    requires i <= |d| && d[i..] == exts + tail
    ensures i + |exts| <= |d| && d[i..i + |exts|] == exts
  {
    assert d[i..i + |exts|] == d[i..][..|exts|];
  }

  lemma HelloShape(h: Hello, exts: Bytes, tail: Bytes, c: Bytes, m: Bytes, e: Bytes)
    requires ValidHello(h) && exts == WriteExtensions(h.exts)
    requires c == U16(|h.suites|) && m == [|h.methods| as byte] && e == U16(|exts|)
    ensures WriteHello(h) + tail == h.head + (c + (h.suites + (m + (h.methods + (e + (exts + tail))))))
  {
    HelloIs(h, exts, c, m, e);
    Appended(WriteHello(h), h.head, c, h.suites, m, h.methods, e, exts, tail);
  }

  lemma HelloIs(h: Hello, exts: Bytes, c: Bytes, m: Bytes, e: Bytes)
    requires |h.suites| < 0x10000 && |h.methods| < 0x100 && |exts| < 0x10000 && exts == WriteExtensions(h.exts)
    requires c == U16(|h.suites|) && m == [|h.methods| as byte] && e == U16(|exts|)
    ensures WriteHello(h) == Joined(h.head, c, h.suites, m, h.methods, e, exts)
  {
    assert |h.suites| % 0x10000 == |h.suites| && |h.methods| % 0x100 == |h.methods| && |exts| % 0x10000 == |exts|;
  }

  lemma Appended(w: Bytes, a: Bytes, b: Bytes, c: Bytes, d: Bytes, e: Bytes, f: Bytes, g: Bytes, tail: Bytes)
    requires w == Joined(a, b, c, d, e, f, g)
    ensures w + tail == a + (b + (c + (d + (e + (f + (g + tail))))))
  {
    var x1, y1 := f + g, f + (g + tail);
    var x2, y2 := e + x1, e + y1;
    var x3, y3 := d + x2, d + y2;
    var x4, y4 := c + x3, c + y3;
    Push(f, g, tail, g + tail);
    Push(e, x1, tail, y1);
    Push(d, x2, tail, y2);
    Push(c, x3, tail, y3);
    Push(b, x4, tail, y4);
    Push(a, b + x4, tail, b + y4);
  }

  lemma Push(a: Bytes, x: Bytes, tail: Bytes, y: Bytes)
    requires x + tail == y
    ensures (a + x) + tail == a + y
  {
    Assoc(a, x, tail);
  }

  /** On every well-formed ClientHello, whatever follows it: the key that the first key_share extension offers. */
  lemma ExtractsOffered(h: Hello, tail: Bytes)
    requires ValidHello(h)
    ensures Extract(WriteHello(h) + tail) == Offered(h.exts)
  {
    ExtensionsFound(h, tail);
    ExtensionsScan(h.exts);
  }
}
