/**
  The discrete-logarithm-equality proof (pkg/crypto/dleq.go) and its browser
  counterpart (js_client/src/bls_blind.ts).
 */
module Dleq {
  import opened Wrappers
  import opened Modular
  import opened Groups
  import opened Bytes
  import Bls

  datatype Proof<A, B> = Proof(r1: B, r2: A, s: nat, c: nat)

  /**
    What the proof needs beside the groups: the compressed encodings and the challenge hash.
    The Go hash can report failure; the browser's returns a number.
   */
  datatype Coding<!A, !B> = Coding(
    compress1: A -> seq<byte>, compress2: B -> seq<byte>,
    hash: seq<byte> -> Option<nat>, jsHash: seq<byte> -> nat)

  ghost predicate EncodedAt1<A, B>(k: Coding<A, B>, elem: A -> bool, p: A, q: A) {
    |k.compress1(p)| == 48 && (elem(p) && elem(q) && k.compress1(p) == k.compress1(q) ==> p == q)
  }

  ghost predicate EncodedAt2<A, B>(k: Coding<A, B>, elem: B -> bool, p: B, q: B) {
    |k.compress2(p)| == 96 && (elem(p) && elem(q) && k.compress2(p) == k.compress2(q) ==> p == q)
  }

  /** Encodings of fixed width that identify the point. */
  ghost predicate CodingLaws<A(!new), B(!new), C>(k: Coding<A, B>, s: Suite<A, B, C>) {
    && (forall p, q :: EncodedAt1(k, s.g1.elem, p, q))
    && (forall p, q :: EncodedAt2(k, s.g2.elem, p, q))
  }

  // ----- The challenge transcript -----

  function Parts<A, B>(k: Coding<A, B>, r1: B, r2: A, pk: B, blinded: A, sig: A): seq<seq<byte>> {
    [k.compress2(r1), k.compress1(r2), k.compress2(pk), k.compress1(blinded), k.compress1(sig)]
  }

  function Transcript<A, B>(k: Coding<A, B>, r1: B, r2: A, pk: B, blinded: A, sig: A): seq<byte> {
    Concat(Parts(k, r1, r2, pk, blinded, sig))
  }

  /** The server's challenge: five appends to an empty buffer, then the hash. */
  method ComputeChallenge<A, B>(k: Coding<A, B>, r1: B, r2: A, pk: B, blinded: A, sig: A)
    returns (c: Option<nat>)
    ensures c == k.hash(Transcript(k, r1, r2, pk, blinded, sig))
    ensures Transcript(k, r1, r2, pk, blinded, sig)
         == k.compress2(r1) + k.compress1(r2) + k.compress2(pk) + k.compress1(blinded) + k.compress1(sig)
  {
    var parts := Parts(k, r1, r2, pk, blinded, sig);
    var data: seq<byte> := [];
    data := data + parts[0];
    TotalLengthStep(parts, 0);
    data := data + parts[1];
    TotalLengthStep(parts, 1);
    data := data + parts[2];
    TotalLengthStep(parts, 2);
    data := data + parts[3];
    TotalLengthStep(parts, 3);
    data := data + parts[4];
    TotalLengthStep(parts, 4);
    assert parts[..5] == parts;
    c := k.hash(data);
  }

  function TotalLength(parts: seq<seq<byte>>): nat {
    |Concat(parts)|
  }

  lemma TotalLengthStep(parts: seq<seq<byte>>, i: nat)
    requires i < |parts|
    ensures Concat(parts[..i + 1]) == Concat(parts[..i]) + parts[i]
    ensures TotalLength(parts[..i + 1]) <= TotalLength(parts)
  {
    ConcatAppend(parts[..i], parts[i]);
    assert parts[..i] + [parts[i]] == parts[..i + 1];
    ConcatSplit(parts, i + 1);
  }

  lemma {:induction false} ConcatSplit(parts: seq<seq<byte>>, i: nat)
    requires i <= |parts|
    ensures Concat(parts) == Concat(parts[..i]) + Concat(parts[i..])
  {
    if i == 0 {
      assert parts[0..] == parts;
    } else {
      ConcatSplit(parts[1..], i - 1);
      assert parts[..i][1..] == parts[1..][..i - 1];
      assert parts[i..] == parts[1..][i - 1..];
    }
  }

  /** The browser's buffer: allocate the total length, then copy each part at a moving offset. */
  method FillAtOffsets(parts: seq<seq<byte>>) returns (data: array<byte>)
    ensures fresh(data) && data[..] == Concat(parts)
  {
    var total := 0;
    for i := 0 to |parts|
      invariant total == TotalLength(parts[..i])
    {
      TotalLengthStep(parts, i);
      total := total + |parts[i]|;
    }
    assert parts[..|parts|] == parts;
    data := new byte[total](_ => 0);
    var offset := 0;
    for i := 0 to |parts|
      invariant offset == TotalLength(parts[..i]) <= data.Length
      invariant data[..offset] == Concat(parts[..i])
    {
      TotalLengthStep(parts, i);
      var p := parts[i];
      for j := 0 to |p|
        invariant data[..offset + j] == Concat(parts[..i]) + p[..j]
      {
        data[offset + j] := p[j];
        assert data[..offset + j + 1] == data[..offset + j] + [p[j]];
      }
      assert p[..|p|] == p;
      offset := offset + |p|;
    }
    assert data[..] == data[..offset];
  }

  /** The browser's challenge hashes the very bytes the server hashes. */
  method ComputeChallengeJs<A, B>(k: Coding<A, B>, r1: B, r2: A, pk: B, blinded: A, sig: A)
    returns (c: nat)
    ensures c == k.jsHash(Transcript(k, r1, r2, pk, blinded, sig))
  {
    var data := FillAtOffsets(Parts(k, r1, r2, pk, blinded, sig));
    c := k.jsHash(data[..]);
  }

  /** The transcript commits to all five points. */
  lemma TranscriptInjective<A(!new), B(!new), C>(s: Suite<A, B, C>, k: Coding<A, B>,
      r1: B, r2: A, pk: B, b: A, sig: A, r1': B, r2': A, pk': B, b': A, sig': A)
    requires CodingLaws(k, s)
    requires s.g2.elem(r1) && s.g1.elem(r2) && s.g2.elem(pk) && s.g1.elem(b) && s.g1.elem(sig)
    requires s.g2.elem(r1') && s.g1.elem(r2') && s.g2.elem(pk') && s.g1.elem(b') && s.g1.elem(sig')
    requires Transcript(k, r1, r2, pk, b, sig) == Transcript(k, r1', r2', pk', b', sig')
    ensures r1 == r1' && r2 == r2' && pk == pk' && b == b' && sig == sig'
  {
    var p, p' := Parts(k, r1, r2, pk, b, sig), Parts(k, r1', r2', pk', b', sig');
    assert EncodedAt2(k, s.g2.elem, r1, r1') && EncodedAt2(k, s.g2.elem, r1', r1);
    assert EncodedAt2(k, s.g2.elem, pk, pk') && EncodedAt2(k, s.g2.elem, pk', pk);
    assert EncodedAt1(k, s.g1.elem, r2, r2') && EncodedAt1(k, s.g1.elem, r2', r2);
    assert EncodedAt1(k, s.g1.elem, b, b') && EncodedAt1(k, s.g1.elem, b', b);
    assert EncodedAt1(k, s.g1.elem, sig, sig') && EncodedAt1(k, s.g1.elem, sig', sig);
    ConcatInjective(p, p');
    assert p[0] == p'[0] && p[1] == p'[1] && p[2] == p'[2] && p[3] == p'[3] && p[4] == p'[4];
  }

  // ----- Prove and verify -----

  /**
    `t` is the fresh random scalar; `mulOk` and `addOk` are what the library reports for the two
    scalar operations.
   */
  function Prove<A, B, C>(s: Suite<A, B, C>, k: Coding<A, B>, sk: nat, blinded: A, pk: B, t: nat, mulOk: bool, addOk: bool)
    : Option<Proof<A, B>>
    requires s.r > 1
  {
    var r1 := Mult(s.g2, t, s.g2.gen);
    var r2 := Mult(s.g1, t, blinded);
    var cPrime := Mult(s.g1, sk, blinded);
    match k.hash(Transcript(k, r1, r2, pk, blinded, cPrime))
    case None => None
    case Some(c) =>
      if !mulOk || !addOk then None
      else Some(Proof(r1, r2, (t + c * sk % s.r) % s.r, c))
  }

  /** The two group equations of the proof. */
  predicate Responds<A(==), B(==), C>(s: Suite<A, B, C>, pk: B, blinded: A, sig: A, p: Proof<A, B>) {
    && Mult(s.g2, p.s, s.g2.gen) == s.g2.add(p.r1, Mult(s.g2, p.c, pk))
    && Mult(s.g1, p.s, blinded) == s.g1.add(p.r2, Mult(s.g1, p.c, sig))
  }

  predicate Verify<A(==), B(==), C>(s: Suite<A, B, C>, k: Coding<A, B>, p: Proof<A, B>, blinded: A, sig: A, pk: B) {
    && k.hash(Transcript(k, p.r1, p.r2, pk, blinded, sig)) == Some(p.c)
    && Responds(s, pk, blinded, sig, p)
  }

  /** The browser's curve library: `multiply` throws on the zero scalar. */
  function Multiply<T>(g: PrimeGroup<T>, base: T, k: nat): Option<T> {
    if k == 0 then None else Some(Mult(g, k, base))
  }

  /**
    The browser's verifier, on points and scalars that deserialised; whatever throws is caught and
    means "invalid". Where the two hashes agree on the transcript it accepts exactly what the
    server's verifier accepts with both scalars non-zero, and elsewhere the two accept nothing in
    common.
   */
  method VerifyProofJs<A(==), B(==), C>(s: Suite<A, B, C>, k: Coding<A, B>, p: Proof<A, B>, blinded: A, sig: A, pk: B)
    returns (ok: bool)
    ensures var d := Transcript(k, p.r1, p.r2, pk, blinded, sig);
            if k.hash(d) == Some(k.jsHash(d)) then ok <==> Verify(s, k, p, blinded, sig, pk) && p.s != 0 && p.c != 0
            else !(ok && Verify(s, k, p, blinded, sig, pk))
  {
    var cPrime := ComputeChallengeJs(k, p.r1, p.r2, pk, blinded, sig);
    if p.c != cPrime {
      return false;
    }
    var left1 := Multiply(s.g2, s.g2.gen, p.s);
    if left1.None? {
      return false;
    }
    var term1 := Multiply(s.g2, pk, p.c);
    if term1.None? {
      return false;
    }
    var right1 := s.g2.add(p.r1, term1.value);
    if left1.value != right1 {
      return false;
    }
    var left2 := Multiply(s.g1, blinded, p.s);
    if left2.None? {
      return false;
    }
    var term2 := Multiply(s.g1, sig, p.c);
    if term2.None? {
      return false;
    }
    var right2 := s.g1.add(p.r2, term2.value);
    return left2.value == right2;
  }

  lemma MultReducedSum<T(!new)>(g: PrimeGroup<T>, r: int, t: nat, m: nat, k: nat, base: T)
    requires Laws(g, r) && g.elem(base) && k == t + m
    ensures Mult(g, k % r, base) == g.add(Mult(g, t, base), Mult(g, m, base))
  {
    MultMod(g, r, k, base);
    MultAdd(g, r, t, m, base);
  }

  lemma ResponseSum<T(!new)>(g: PrimeGroup<T>, r: int, base: T, t: nat, product: nat)
    requires Laws(g, r) && g.elem(base)
    ensures Mult(g, (t + product % r) % r, base) == g.add(Mult(g, t, base), Mult(g, product, base))
  {
    MultMod(g, r, product, base);
    MultReducedSum(g, r, t, product % r, t + product % r, base);
  }

  /** `q` is the x-fold of `base` and the equation sees it: s base == r + c q when s = t + c x and r = t base. */
  lemma EquationHolds<T(!new)>(g: PrimeGroup<T>, r: int, base: T, x: nat, t: nat, c: nat)
    requires Laws(g, r) && g.elem(base)
    ensures Mult(g, (t + c * x % r) % r, base) == g.add(Mult(g, t, base), Mult(g, c, Mult(g, x, base)))
  {
    var product: nat := c * x;
    MultMul(g, r, c, x, base);
    ResponseSum(g, r, base, t, product);
  }

  /** Completeness: whatever proof the server produces for an honest signature, the client accepts. */
  lemma Completeness<A(!new), B(!new), C(!new)>(s: Suite<A, B, C>, k: Coding<A, B>, sk: nat, blinded: A, t: nat, mulOk: bool, addOk: bool)
    requires PairingLaws(s) && s.g1.elem(blinded)
    ensures var pk := Bls.PubKey(s, sk);
            var proof := Prove(s, k, sk, blinded, pk, t, mulOk, addOk);
            proof.Some? ==> Verify(s, k, proof.value, blinded, Bls.SignBlinded(s, blinded, sk), pk)
  {
    var pk := Bls.PubKey(s, sk);
    var proof := Prove(s, k, sk, blinded, pk, t, mulOk, addOk);
    if proof.Some? {
      EquationHolds(s.g2, s.r, s.g2.gen, sk, t, proof.value.c);
      EquationHolds(s.g1, s.r, blinded, sk, t, proof.value.c);
    }
  }

  /** The response is reduced, as its 32-byte encoding needs. */
  lemma ResponseReduced<A, B, C>(s: Suite<A, B, C>, k: Coding<A, B>, sk: nat, blinded: A, pk: B, t: nat, mulOk: bool, addOk: bool)
    requires s.r > 1
    ensures var p := Prove(s, k, sk, blinded, pk, t, mulOk, addOk); p.Some? ==> p.value.s < s.r
  {}

  // ----- Soundness -----

  /** What the proof claims: one scalar explains both the public key and the signature. */
  ghost predicate Claim<A, B, C>(s: Suite<A, B, C>, pk: B, blinded: A, sig: A) {
    exists x: nat :: Explains(s, pk, blinded, sig, x)
  }

  ghost predicate Explains<A, B, C>(s: Suite<A, B, C>, pk: B, blinded: A, sig: A, x: nat) {
    pk == Bls.PubKey(s, x) && sig == Bls.SignBlinded(s, blinded, x)
  }

  ghost predicate Points<A, B, C>(s: Suite<A, B, C>, pk: B, blinded: A, sig: A) {
    s.g2.elem(pk) && s.g1.elem(blinded) && s.g1.elem(sig)
  }

  /** The difference of two scalars modulo the order, kept natural. */
  function Minus(a: nat, b: nat, r: int): nat
    requires r > 0
  {
    a + (r - b % r)
  }

  /** The scalar two accepting transcripts give away. */
  function Extract(c: nat, z: nat, c': nat, z': nat, r: int): nat
    requires r > 1
  {
    Inverse(Minus(c, c', r), r) * Minus(z, z', r)
  }

  lemma MinusPlus<T(!new)>(g: PrimeGroup<T>, r: int, a: nat, b: nat, p: T)
    requires Laws(g, r) && g.elem(p)
    ensures Mult(g, a, p) == g.add(Mult(g, Minus(a, b, r), p), Mult(g, b, p))
    ensures Minus(a, b, r) % r == 0 <==> a % r == b % r
  {
    var d := Minus(a, b, r);
    var q := Quotient(b, r);
    assert d + b == a + (q + 1) * r by { MulAdd(q, 1, r); }
    ModShift(a, q + 1, r);
    MultMod(g, r, d + b, p);
    MultMod(g, r, a, p);
    MultAdd(g, r, d, b, p);
    assert d == (a - b) + (q + 1) * r by { MulAdd(q, 1, r); }
    ModShift(a - b, q + 1, r);
    ModEqual(a, b, r);
  }

  /** Special soundness in one group: subtract the two equations and divide. */
  lemma ExtractOne<T(!new)>(g: PrimeGroup<T>, r: int, base: T, image: T, com: T, c: nat, z: nat, c': nat, z': nat)
    requires Laws(g, r) && g.elem(base) && g.elem(image) && g.elem(com) && c % r != c' % r
    requires Mult(g, z, base) == g.add(com, Mult(g, c, image))
    requires Mult(g, z', base) == g.add(com, Mult(g, c', image))
    ensures image == Mult(g, Extract(c, z, c', z', r), base)
  {
    var dz, dc := Minus(z, z', r), Minus(c, c', r);
    MinusPlus(g, r, z, z', base);
    MinusPlus(g, r, c, c', image);
    var p, q, w := Mult(g, dz, base), Mult(g, dc, image), Mult(g, c', image);
    MultElem(g, r, dz, base);
    MultElem(g, r, dc, image);
    MultElem(g, r, c', image);
    Closed(g, r, com, w);
    // p + (com + w) == com + (q + w)
    Assoc(g, r, com, q, w);
    Closed(g, r, com, q);
    Assoc(g, r, q, com, w);
    AddCancel(g, r, p, q, g.add(com, w));
    MultInverse(g, r, dc, image);
    MultMul(g, r, Inverse(dc, r), dz, base);
  }

  /** Two accepting answers to one commitment, for different challenges, determine the secret scalar. */
  lemma SpecialSoundness<A(!new), B(!new), C(!new)>(s: Suite<A, B, C>, pk: B, blinded: A, sig: A, p: Proof<A, B>, p': Proof<A, B>)
    requires PairingLaws(s) && Points(s, pk, blinded, sig)
    requires s.g2.elem(p.r1) && s.g1.elem(p.r2) && p.r1 == p'.r1 && p.r2 == p'.r2
    requires Responds(s, pk, blinded, sig, p) && Responds(s, pk, blinded, sig, p')
    requires p.c % s.r != p'.c % s.r
    ensures Explains(s, pk, blinded, sig, Extract(p.c, p.s, p'.c, p'.s, s.r))
  {
    ExtractOne(s.g2, s.r, s.g2.gen, pk, p.r1, p.c, p.s, p'.c, p'.s);
    ExtractOne(s.g1, s.r, blinded, sig, p.r2, p.c, p.s, p'.c, p'.s);
  }

  ghost predicate TwoAnswers<A(!new), B(!new), C>(s: Suite<A, B, C>, pk: B, blinded: A, sig: A, p: Proof<A, B>, p': Proof<A, B>)
    requires s.r > 0
  {
    && s.g2.elem(p.r1) && s.g1.elem(p.r2) && p.r1 == p'.r1 && p.r2 == p'.r2
    && Responds(s, pk, blinded, sig, p) && Responds(s, pk, blinded, sig, p')
    && p.c % s.r != p'.c % s.r
  }

  /**
    The soundness bound: a commitment has answers to two different challenges if and only if the
    claim is true. For a false claim at most one challenge modulo the order can be answered.
   */
  lemma SoundnessExact<A(!new), B(!new), C(!new)>(s: Suite<A, B, C>, pk: B, blinded: A, sig: A)
    requires PairingLaws(s) && Points(s, pk, blinded, sig)
    ensures Claim(s, pk, blinded, sig) <==> exists p, p' :: TwoAnswers(s, pk, blinded, sig, p, p')
  {
    if p, p' :| TwoAnswers(s, pk, blinded, sig, p, p') {
      SpecialSoundness(s, pk, blinded, sig, p, p');
    }
    if x: nat :| Explains(s, pk, blinded, sig, x) {
      var p := Answer(s, pk, blinded, sig, x, 0, 0);
      var p' := Answer(s, pk, blinded, sig, x, 0, 1);
      SmallMod(0, s.r);
      SmallMod(1, s.r);
      assert TwoAnswers(s, pk, blinded, sig, p, p');
    }
  }

  /** A verified proof is the only one for its commitments: the challenge is the transcript's, the response follows. */
  lemma ProofIsUnique<A(!new), B(!new), C(!new)>(s: Suite<A, B, C>, k: Coding<A, B>, p: Proof<A, B>, p': Proof<A, B>, blinded: A, sig: A, pk: B)
    requires PairingLaws(s) && p.r1 == p'.r1 && p.r2 == p'.r2
    requires Verify(s, k, p, blinded, sig, pk) && Verify(s, k, p', blinded, sig, pk)
    ensures p.c == p'.c && p.s % s.r == p'.s % s.r
  {
    MultCancel(s.g2, s.r, p.s, p'.s, s.g2.gen);
  }

  /**
    Cheating needs luck with the hash: if a proof of a false claim verifies, the transcript hashes to
    the one challenge that these commitments can answer at all.
   */
  lemma FalseClaimNeedsLuck<A(!new), B(!new), C(!new)>(s: Suite<A, B, C>, k: Coding<A, B>, p: Proof<A, B>, q: Proof<A, B>, blinded: A, sig: A, pk: B)
    requires PairingLaws(s) && Points(s, pk, blinded, sig) && !Claim(s, pk, blinded, sig)
    requires s.g2.elem(p.r1) && s.g1.elem(p.r2) && q.r1 == p.r1 && q.r2 == p.r2
    requires Verify(s, k, p, blinded, sig, pk) && Responds(s, pk, blinded, sig, q)
    ensures k.hash(Transcript(k, p.r1, p.r2, pk, blinded, sig)).Some?
    ensures k.hash(Transcript(k, p.r1, p.r2, pk, blinded, sig)).value % s.r == q.c % s.r
  {
    if p.c % s.r != q.c % s.r {
      SpecialSoundness(s, pk, blinded, sig, p, q);
    }
  }

  /** With the secret in hand, every commitment t has exactly one answer to every challenge. */
  lemma Answer<A(!new), B(!new), C(!new)>(s: Suite<A, B, C>, pk: B, blinded: A, sig: A, x: nat, t: nat, c: nat)
    returns (p: Proof<A, B>)
    requires PairingLaws(s) && Points(s, pk, blinded, sig) && Explains(s, pk, blinded, sig, x)
    ensures p == Proof(Mult(s.g2, t, s.g2.gen), Mult(s.g1, t, blinded), (t + c * x % s.r) % s.r, c)
    ensures s.g2.elem(p.r1) && s.g1.elem(p.r2)
    ensures Responds(s, pk, blinded, sig, p)
    ensures forall z: nat :: z < s.r && Responds(s, pk, blinded, sig, p.(s := z)) ==> z == p.s
  {
    p := Proof(Mult(s.g2, t, s.g2.gen), Mult(s.g1, t, blinded), (t + c * x % s.r) % s.r, c);
    MultElem(s.g2, s.r, t, s.g2.gen);
    MultElem(s.g1, s.r, t, blinded);
    EquationHolds(s.g2, s.r, s.g2.gen, x, t, c);
    EquationHolds(s.g1, s.r, blinded, x, t, c);
    forall z: nat | z < s.r && Responds(s, pk, blinded, sig, p.(s := z)) ensures z == p.s {
      MultCancel(s.g2, s.r, z, p.s, s.g2.gen);
      ModIs(z, 0, z, s.r);
      ModIs(p.s, 0, p.s, s.r);
    }
  }

  /**
    Honest-verifier zero knowledge: for any challenge c and answer z, the transcript computed
    backwards without the secret, (z G2 - c PK, z B - c S), is the honest transcript of exactly
    one random scalar t.
   */
  lemma Simulated<A(!new), B(!new), C(!new)>(s: Suite<A, B, C>, x: nat, blinded: A, c: nat, z: nat, p: Proof<A, B>)
    returns (t: nat)
    requires PairingLaws(s) && s.g1.elem(blinded) && z < s.r
    requires s.g2.elem(p.r1) && s.g1.elem(p.r2) && p.c == c && p.s == z
    requires Responds(s, Bls.PubKey(s, x), blinded, Bls.SignBlinded(s, blinded, x), p)
    ensures t < s.r && p.r1 == Mult(s.g2, t, s.g2.gen) && p.r2 == Mult(s.g1, t, blinded)
    ensures z == (t + c * x % s.r) % s.r
    ensures forall j: nat :: j < s.r && p.r1 == Mult(s.g2, j, s.g2.gen) ==> j == t
  {
    var m := c * x % s.r;
    t := Minus(z, m, s.r) % s.r;
    SimulatedOne(s.g2, s.r, s.g2.gen, x, c, z, p.r1);
    SimulatedOne(s.g1, s.r, blinded, x, c, z, p.r2);
    forall j: nat | j < s.r && p.r1 == Mult(s.g2, j, s.g2.gen) ensures j == t {
      MultCancel(s.g2, s.r, j, t, s.g2.gen);
      ModIs(j, 0, j, s.r);
      ModIs(t, 0, t, s.r);
    }
    EquationHolds(s.g2, s.r, s.g2.gen, x, t, c);
    MultCancel(s.g2, s.r, z, (t + m) % s.r, s.g2.gen);
    ModIs(z, 0, z, s.r);
    ModIs((t + m) % s.r, 0, (t + m) % s.r, s.r);
  }

  lemma SimulatedOne<T(!new)>(g: PrimeGroup<T>, r: int, base: T, x: nat, c: nat, z: nat, com: T)
    requires Laws(g, r) && g.elem(base) && g.elem(com)
    requires Mult(g, z, base) == g.add(com, Mult(g, c, Mult(g, x, base)))
    ensures com == Mult(g, Minus(z, c * x % r, r) % r, base)
  {
    var m := c * x % r;
    MultMul(g, r, c, x, base);
    MultMod(g, r, c * x, base);
    MinusPlus(g, r, z, m, base);
    MultElem(g, r, Minus(z, m, r), base);
    MultElem(g, r, m, base);
    AddCancel(g, r, com, Mult(g, Minus(z, m, r), base), Mult(g, m, base));
    MultMod(g, r, Minus(z, m, r), base);
  }

  /** A true claim is all the client needs: the unblinded signature passes the redemption check. */
  lemma ClaimUnblinds<A(!new), B(!new), C(!new)>(s: Suite<A, B, C>, pk: B, msg: A, r: nat, sig: A)
    requires PairingLaws(s) && s.g1.elem(msg) && r % s.r != 0
    requires Claim(s, pk, Bls.BlindMessage(s, msg, r), sig)
    ensures Bls.VerifyPoint(s, Bls.UnblindSignature(s, sig, r), msg, pk)
  {
    var x: nat :| Explains(s, pk, Bls.BlindMessage(s, msg, r), sig, x);
    Bls.UnblindRecovers(s, msg, x, r);
  }
}
