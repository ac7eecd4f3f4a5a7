/**
  The blind-signature engine (pkg/crypto/bls.go) over any pairing-friendly suite.
  Every operation returns a fresh point; points are elements of the prime-order
  subgroup, which is what deserialisation checks.
 */
module Bls {
  import opened Modular
  import opened Groups

  function BlindMessage<A, B, C>(s: Suite<A, B, C>, msg: A, r: nat): A {
    Mult(s.g1, r, msg)
  }

  function SignBlinded<A, B, C>(s: Suite<A, B, C>, blinded: A, sk: nat): A {
    Mult(s.g1, sk, blinded)
  }

  function UnblindSignature<A, B, C>(s: Suite<A, B, C>, sig: A, r: nat): A
    requires s.r > 1
  {
    Mult(s.g1, Inverse(r, s.r), sig)
  }

  function PubKey<A, B, C>(s: Suite<A, B, C>, sk: nat): B {
    Mult(s.g2, sk, s.g2.gen)
  }

  /**
    Blinding, signing and deriving the public key are repeated addition: nothing at scalar 0, and
    the point once more for each unit.
   */
  lemma ScalarActions<A(!new), B(!new), C(!new)>(s: Suite<A, B, C>, p: A, k: nat)
    requires PairingLaws(s) && s.g1.elem(p)
    ensures BlindMessage(s, p, 0) == s.g1.zero && BlindMessage(s, p, k + 1) == s.g1.add(BlindMessage(s, p, k), p)
    ensures SignBlinded(s, p, 0) == s.g1.zero && SignBlinded(s, p, k + 1) == s.g1.add(SignBlinded(s, p, k), p)
    ensures PubKey(s, 0) == s.g2.zero && PubKey(s, k + 1) == s.g2.add(PubKey(s, k), s.g2.gen)
  {
    MultElem(s.g1, s.r, k, p);
    MultElem(s.g2, s.r, k, s.g2.gen);
  }

  /**
    Unblinding undoes blinding: its result is the one point that blinds to the signature. The zero
    factor, which no client draws, has no such point and gives the identity.
   */
  lemma UnblindExact<A(!new), B(!new), C(!new)>(s: Suite<A, B, C>, sig: A, r: nat, p: A)
    requires PairingLaws(s) && s.g1.elem(sig) && s.g1.elem(p)
    ensures r % s.r != 0 ==> (UnblindSignature(s, sig, r) == p <==> BlindMessage(s, p, r) == sig)
    ensures r % s.r == 0 ==> UnblindSignature(s, sig, r) == s.g1.zero
  {
    if r % s.r != 0 {
      MultInverse(s.g1, s.r, r, sig);
      MultInverse(s.g1, s.r, r, p);
    }
  }

  /** e(sig, G2) == e(msg, pk). */
  predicate VerifyPoint<A, B, C(==)>(s: Suite<A, B, C>, sig: A, msg: A, pk: B) {
    s.pair(sig, s.g2.gen) == s.pair(msg, pk)
  }

  /** A point of the first group other than the identity. */
  ghost predicate Proper<A, B, C>(s: Suite<A, B, C>, p: A) {
    s.g1.elem(p) && p != s.g1.zero
  }

  /** The pairing check accepts exactly the signature sk * msg. */
  lemma VerifyPointExact<A(!new), B(!new), C(!new)>(s: Suite<A, B, C>, sig: A, msg: A, sk: nat)
    requires PairingLaws(s) && s.g1.elem(sig) && s.g1.elem(msg)
    ensures VerifyPoint(s, sig, msg, PubKey(s, sk)) <==> sig == SignBlinded(s, msg, sk)
  {
    PairMultRight(s, sk, msg, s.g2.gen);
    PairMultLeft(s, sk, msg, s.g2.gen);
    MultElem(s.g1, s.r, sk, msg);
    PairInjective(s, sig, Mult(s.g1, sk, msg));
  }

  /** Blind, sign, unblind gives the signature on the message itself. */
  lemma UnblindRecovers<A(!new), B(!new), C(!new)>(s: Suite<A, B, C>, msg: A, sk: nat, r: nat)
    requires PairingLaws(s) && s.g1.elem(msg) && r % s.r != 0
    ensures UnblindSignature(s, SignBlinded(s, BlindMessage(s, msg, r), sk), r) == SignBlinded(s, msg, sk)
    ensures VerifyPoint(s, UnblindSignature(s, SignBlinded(s, BlindMessage(s, msg, r), sk), r), msg, PubKey(s, sk))
  {
    var signed := SignBlinded(s, msg, sk);
    MultElem(s.g1, s.r, sk, msg);
    MultCommute(s.g1, s.r, sk, r, msg);
    MultInverse(s.g1, s.r, r, signed);
    VerifyPointExact(s, signed, msg, sk);
  }

  /**
    Perfect blindness: every issuance view (blinded, sk * blinded) is explained by every
    credential (msg, sk * msg), through exactly one non-zero blinding factor, and unblinding
    the issued signature with that factor yields exactly that credential.
   */
  lemma PerfectBlindness<A(!new), B(!new), C(!new)>(s: Suite<A, B, C>, blinded: A, msg: A, sk: nat)
    returns (r: nat)
    requires PairingLaws(s) && Proper(s, blinded) && Proper(s, msg)
    ensures 0 < r < s.r && BlindMessage(s, msg, r) == blinded
    ensures forall j: nat :: j < s.r && BlindMessage(s, msg, j) == blinded ==> j == r
    ensures UnblindSignature(s, SignBlinded(s, blinded, sk), r) == SignBlinded(s, msg, sk)
  {
    r := Ratio(s.g1, s.r, blinded, msg);
    assert r != 0;
    SmallMod(r, s.r);
    UnblindRecovers(s, msg, sk, r);
  }

  /** Blinding with a non-zero factor never produces the identity, so the view above is always proper. */
  lemma BlindedIsProper<A(!new), B(!new), C(!new)>(s: Suite<A, B, C>, msg: A, r: nat)
    requires PairingLaws(s) && s.g1.elem(msg)
    ensures s.g1.elem(BlindMessage(s, msg, r))
    ensures Proper(s, BlindMessage(s, msg, r)) <==> Proper(s, msg) && r % s.r != 0
  {
    MultElem(s.g1, s.r, r, msg);
    MultNonZero(s.g1, s.r, r, msg);
  }

  /**
    Context separation, with its exact condition: a signature verifies on one witness under two
    keys if and only if it is the signature of one of them and the keys agree modulo the order
    or the witness is the identity.
   */
  lemma TwoKeysExact<A(!new), B(!new), C(!new)>(s: Suite<A, B, C>, sig: A, msg: A, k: nat, k': nat)
    requires PairingLaws(s) && s.g1.elem(sig) && s.g1.elem(msg)
    ensures VerifyPoint(s, sig, msg, PubKey(s, k)) && VerifyPoint(s, sig, msg, PubKey(s, k'))
       <==> sig == SignBlinded(s, msg, k) && (k % s.r == k' % s.r || msg == s.g1.zero)
  {
    VerifyPointExact(s, sig, msg, k);
    VerifyPointExact(s, sig, msg, k');
    if msg == s.g1.zero {
      MultZero(s.g1, s.r, k);
      MultZero(s.g1, s.r, k');
    } else {
      MultCancel(s.g1, s.r, k, k', msg);
    }
  }

  /**
    Signatures cannot be varied: under a key that is non-zero modulo the order, two accepted
    pairs have equal signatures exactly when they have equal witnesses. Counting redemptions
    by signature is therefore counting them by witness.
   */
  lemma SignatureIsTheWitness<A(!new), B(!new), C(!new)>(s: Suite<A, B, C>, sk: nat, sig: A, msg: A, sig': A, msg': A)
    requires PairingLaws(s) && sk % s.r != 0
    requires s.g1.elem(sig) && s.g1.elem(msg) && s.g1.elem(sig') && s.g1.elem(msg')
    requires VerifyPoint(s, sig, msg, PubKey(s, sk)) && VerifyPoint(s, sig', msg', PubKey(s, sk))
    ensures sig == sig' <==> msg == msg'
  {
    VerifyPointExact(s, sig, msg, sk);
    VerifyPointExact(s, sig', msg', sk);
    MultInverse(s.g1, s.r, sk, msg);
    MultInverse(s.g1, s.r, sk, msg');
  }
}
