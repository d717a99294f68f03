/**
 The primitives the formats are built on, as values: an AEAD, an HMAC, an HKDF and a hash.
 Nothing is known of them beyond `Lawful`, which `ToySuite` shows to be satisfiable.
 */
module Cipher {
  import opened Bytes

  const TAG_SIZE: nat := 16

  datatype RawSuite = RawSuite(
    seal: (seq<byte>, seq<byte>, seq<byte>, seq<byte>) -> seq<byte>,          // key, nonce, aad, message
    open: (seq<byte>, seq<byte>, seq<byte>, seq<byte>) -> Option<seq<byte>>,  // key, nonce, aad, sealed
    hmac: (seq<byte>, seq<byte>) -> seq<byte>,                                // key, message
    hkdf: (seq<byte>, seq<byte>, seq<byte>) -> seq<byte>,                     // salt, key material, info
    sha256: seq<byte> -> seq<byte>,
    sha384: seq<byte> -> seq<byte>)

  /** Opening undoes sealing, sealing adds a 16-byte tag, and the other outputs have their fixed lengths. */
  ghost predicate Lawful(s: RawSuite) {
    && (forall k, n, a, m :: s.open(k, n, a, s.seal(k, n, a, m)) == Some(m))
    && (forall k, n, a, m :: |s.seal(k, n, a, m)| == |m| + TAG_SIZE)
    && (forall k, m :: |s.hmac(k, m)| == 32)
    && (forall salt, ikm, info :: |s.hkdf(salt, ikm, info)| == 64)
    && (forall m :: |s.sha256(m)| == 32)
    && (forall m :: |s.sha384(m)| == 48)
  }

  /** The deterministic shape of section 2.8 of RFC 8439: only sealed messages open. */
  ghost predicate Resealing(s: RawSuite) {
    forall k, n, a, c, m :: s.open(k, n, a, c) == Some(m) ==> c == s.seal(k, n, a, m)
  }

  function ToySuite(): RawSuite {
    RawSuite(
      (k, n, a, m: seq<byte>) => m + Zeros(TAG_SIZE),
      (k, n, a, c: seq<byte>) =>
        if |c| >= TAG_SIZE && c[|c| - TAG_SIZE..] == Zeros(TAG_SIZE) then Some(c[..|c| - TAG_SIZE]) else None,
      (k, m) => Zeros(32),
      (s, k, i) => Zeros(64),
      m => Zeros(32),
      m => Zeros(48))
  }

  lemma ToySuiteIsLawful()
    ensures Lawful(ToySuite()) && Resealing(ToySuite())
  {
    var s := ToySuite();
    forall k, n, a, m
      ensures s.open(k, n, a, s.seal(k, n, a, m)) == Some(m)
    {
      var c := s.seal(k, n, a, m);
      assert c[|c| - TAG_SIZE..] == Zeros(TAG_SIZE) && c[..|c| - TAG_SIZE] == m;
    }
    forall k, n, a, c, m | s.open(k, n, a, c) == Some(m)
      ensures c == s.seal(k, n, a, m)
    {
      assert c == c[..|c| - TAG_SIZE] + c[|c| - TAG_SIZE..];
    }
  }

  type Suite = s: RawSuite | Lawful(s) ghost witness (ToySuiteIsLawful(); ToySuite())
}
