/** Authenticated encryption, known only by the functional laws the protocols rely on. */
module AeadLaws {
  import opened Bytes

  const TAG_LEN := 16
  const NONCE_LEN := 12

  /** `seal(key, nonce, plaintext)` and `open(key, nonce, ciphertext)`. */
  datatype Aead = Aead(seal: (Bytes, Bytes, Bytes) -> Bytes, open: (Bytes, Bytes, Bytes) -> Option<Bytes>) {
    ghost predicate Lawful() {
      && (forall k, n, p :: |seal(k, n, p)| == |p| + TAG_LEN && open(k, n, seal(k, n, p)) == Some(p))
      && (forall k, n, c :: open(k, n, c).Some? ==> |c| == |open(k, n, c).value| + TAG_LEN)
    }

    /** A ciphertext does not open under another nonce of the same length. */
    ghost predicate NonceBound() {
      forall k, n, m, p :: |n| == |m| == NONCE_LEN && n != m ==> open(k, m, seal(k, n, p)) == None
    }
  }

  /** The laws are consistent: a tag that is the nonce itself meets all of them. */
  lemma LawsAreConsistent() returns (a: Aead)
    ensures a.Lawful() && a.NonceBound()
  {
    var tag := (n: Bytes) => if |n| == NONCE_LEN then n + [0, 0, 0, 0] else seq(TAG_LEN, _ => 0);
    a := Aead((k, n, p) => tag(n) + p,
              (k, n, c: Bytes) => if |c| >= TAG_LEN && c[..TAG_LEN] == tag(n) then Some(c[TAG_LEN..]) else None);
    forall k, n, m, p: Bytes | |n| == |m| == NONCE_LEN && n != m
      ensures a.open(k, m, a.seal(k, n, p)) == None
    {
      assert a.seal(k, n, p)[..TAG_LEN] == tag(n);
      assert tag(n)[..NONCE_LEN] == n && tag(m)[..NONCE_LEN] == m;
    }
    forall k, n, p: Bytes
      ensures |a.seal(k, n, p)| == |p| + TAG_LEN && a.open(k, n, a.seal(k, n, p)) == Some(p)
    {
      assert a.seal(k, n, p)[..TAG_LEN] == tag(n) && a.seal(k, n, p)[TAG_LEN..] == p;
    }
  }
}
