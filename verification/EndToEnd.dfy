/**
  The service put together: key derivation, issuance, the client's unblinding, and redemption in
  the concurrent system with the real verification equation and nullifiers.
 */
module EndToEnd {
  import opened Wrappers
  import opened Names
  import opened Bytes
  import opened Groups
  import opened Redemption
  import opened RedemptionRuns
  import opened SoloRuns
  import opened Replay
  import opened Contention
  import Bls
  import Client
  import Config
  import Dleq
  import Nullifiers
  import opened Codec

  /** Everything the server is built from; the hash functions are parameters. */
  datatype Deployment<!A, !B, !C, !D> = Deployment(
    suite: Suite<A, B, C>,
    coding: Dleq.Coding<A, B>,
    encode: A -> string,              // hexadecimal of the compressed point
    decode: string -> Option<A>,      // with the subgroup check
    serialize: A -> seq<byte>,
    digest: seq<byte> -> D,           // SHA-256
    kdf: string -> Option<nat>,       // HKDF of the master seed, hashed to a scalar
    wellFormed: string -> bool,
    supported: seq<string>,
    backend: Backend)

  ghost predicate TextAt<A, B, C, D>(d: Deployment<A, B, C, D>, t: string) {
    d.decode(t).Some? ==> d.suite.g1.elem(d.decode(t).value)
  }

  ghost predicate PointAt<A, B, C, D>(d: Deployment<A, B, C, D>, p: A) {
    d.suite.g1.elem(p) ==> d.decode(d.encode(p)) == Some(p) && d.wellFormed(d.encode(p))
  }

  /** Decoding yields points of the subgroup and inverts encoding on them. */
  ghost predicate Sound<A(!new), B(!new), C(!new), D>(d: Deployment<A, B, C, D>) {
    && PairingLaws(d.suite)
    && (forall t :: TextAt(d, t))
    && (forall p :: PointAt(d, p))
  }

  /** DeriveSigningKey */
  function SigningKey<A, B, C, D>(d: Deployment<A, B, C, D>, epoch: string, class_: string): Option<nat> {
    if epoch == "" || class_ == "" then None else d.kdf(Info(epoch, class_))
  }

  function Nullifier<A, B, C, D>(d: Deployment<A, B, C, D>, epoch: string, class_: string, sig: A): D {
    d.digest(Preimage(epoch, class_, d.serialize(sig)))
  }

  /** The environment the concurrent system runs in. */
  function Service<A, B, C(==), D>(d: Deployment<A, B, C, D>): Env<A, D> {
    Env(d.backend, d.supported, d.wellFormed, d.decode,
      (e: string, c: string) => SigningKey(d, e, c),
      (sig: A, point: A, k: nat) => Bls.VerifyPoint(d.suite, sig, point, Bls.PubKey(d.suite, k)),
      (e: string, c: string, sig: A) => Nullifier(d, e, c, sig))
  }

  // ----- Issuance -----

  datatype Issued<A, B> = Issued(blindSignature: string, publicKey: B, keyEpoch: string, proof: Dleq.Proof<A, B>)

  /** What the surroundings decide during one issuance. */
  datatype Luck = Luck(cancelled: bool, cancelledLater: bool, seedOk: bool, t: nat, mulOk: bool, addOk: bool)

  function Issue<A, B, C, D>(d: Deployment<A, B, C, D>, activeEpoch: string, blindedHex: string, class_: string, luck: Luck)
    : Result<Issued<A, B>, string>
    requires d.suite.r > 1
  {
    if class_ == "" then Err("credential_class cannot be empty")
    else match d.decode(blindedHex)
      case None => Err("invalid blinded_message point")
      case Some(blinded) =>
        if luck.cancelled then Err("request cancelled before deserializing blinded_message")
        else if !luck.seedOk then Err("master seed error")
        else match SigningKey(d, activeEpoch, class_)
          case None => Err("key derivation failed")
          case Some(sk) =>
            if luck.cancelledLater then Err("request cancelled before DLEQ proof generation")
            else
              var pk := Bls.PubKey(d.suite, sk);
              match Dleq.Prove(d.suite, d.coding, sk, blinded, pk, luck.t, luck.mulOk, luck.addOk)
              case None => Err("DLEQ proof generation failed")
              case Some(proof) => Ok(Issued(d.encode(Bls.SignBlinded(d.suite, blinded, sk)), pk, activeEpoch, proof))
  }

  /**
    Whatever the server issues for a blinded point is signed under the key of the epoch it names,
    names the public key, and carries a proof that the client can decode and accepts.
   */
  lemma IssuedVerifies<A(!new), B(!new), C(!new), D>(d: Deployment<A, B, C, D>, activeEpoch: string, blinded: A, class_: string, luck: Luck)
    requires Sound(d) && d.suite.g1.elem(blinded)
    ensures var i := Issue(d, activeEpoch, d.encode(blinded), class_, luck);
            i.Ok? ==>
              && i.value.keyEpoch == activeEpoch && SigningKey(d, i.value.keyEpoch, class_).Some?
              && var sk := SigningKey(d, i.value.keyEpoch, class_).value;
                 && i.value.publicKey == Bls.PubKey(d.suite, sk)
                 && d.decode(i.value.blindSignature) == Some(Bls.SignBlinded(d.suite, blinded, sk))
                 && Dleq.Verify(d.suite, d.coding, i.value.proof, blinded, d.decode(i.value.blindSignature).value, i.value.publicKey)
                 && i.value.proof.s < d.suite.r
                 && (d.suite.r == ORDER ==> ScalarFromBytes(ScalarBytes(i.value.proof.s)) == Ok(i.value.proof.s))
  {
    assert PointAt(d, blinded);
    var i := Issue(d, activeEpoch, d.encode(blinded), class_, luck);
    if i.Ok? {
      var sk := SigningKey(d, activeEpoch, class_).value;
      MultElem(d.suite.g1, d.suite.r, sk, blinded);
      assert PointAt(d, Bls.SignBlinded(d.suite, blinded, sk));
      Dleq.Completeness(d.suite, d.coding, sk, blinded, luck.t, luck.mulOk, luck.addOk);
      Dleq.ResponseReduced(d.suite, d.coding, sk, blinded, i.value.publicKey, luck.t, luck.mulOk, luck.addOk);
      if d.suite.r == ORDER {
        ScalarCodec([], i.value.proof.s);
      }
    }
  }

  /** Issuance succeeds on every text that decodes for every class that has a key, unless cancelled or failed by the library. */
  lemma IssueExact<A(!new), B(!new), C(!new), D>(d: Deployment<A, B, C, D>, activeEpoch: string, blindedHex: string, class_: string, luck: Luck)
    requires d.suite.r > 1
    ensures Issue(d, activeEpoch, blindedHex, class_, luck).Ok? <==>
      (&& d.decode(blindedHex).Some? && class_ != "" && activeEpoch != ""
       && !luck.cancelled && !luck.cancelledLater && luck.seedOk && luck.mulOk && luck.addOk
       && d.kdf(Info(activeEpoch, class_)).Some?
       && var sk, blinded := d.kdf(Info(activeEpoch, class_)).value, d.decode(blindedHex).value;
          d.coding.hash(Dleq.Transcript(d.coding, Mult(d.suite.g2, luck.t, d.suite.g2.gen), Mult(d.suite.g1, luck.t, blinded),
            Bls.PubKey(d.suite, sk), blinded, Bls.SignBlinded(d.suite, blinded, sk))).Some?)
  {}

  // ----- What a stored nullifier proves -----

  /** The request presents the signature of its witness under the key of its own epoch and class. */
  ghost predicate Genuine<A, B, C, D>(d: Deployment<A, B, C, D>, req: Request, n: D) {
    && d.decode(req.sigHex).Some? && d.decode(req.witnessHex).Some? && SigningKey(d, req.epoch, req.class_).Some?
    && d.decode(req.sigHex).value
       == Bls.SignBlinded(d.suite, d.decode(req.witnessHex).value, SigningKey(d, req.epoch, req.class_).value)
    && n == Nullifier(d, req.epoch, req.class_, d.decode(req.sigHex).value)
  }

  /** A request is a valid credential with this nullifier exactly when it presents such a signature. */
  lemma CredentialExact<A(!new), B(!new), C(!new), D>(d: Deployment<A, B, C, D>, req: Request, n: D)
    requires Sound(d)
    ensures Credential(Service(d), req) == Some(n) <==> Genuine(d, req, n)
  {
    assert TextAt(d, req.sigHex) && TextAt(d, req.witnessHex);
    match (d.decode(req.sigHex), d.decode(req.witnessHex), SigningKey(d, req.epoch, req.class_))
    case (Some(sig), Some(point), Some(k)) => Bls.VerifyPointExact(d.suite, sig, point, k);
    case _ =>
  }

  /**
    In every state of every run, with either store, each stored nullifier is that of a signature
    sk(epoch, class) * witness, for a supported epoch, presented by a call of this run.
   */
  lemma StoredSignature<A(!new), B(!new), C(!new), D>(d: Deployment<A, B, C, D>, run: seq<Step>, n: D) returns (tid: nat)
    requires Sound(d) && n in After(Service(d), run).table
    ensures var s := After(Service(d), run);
            tid in s.calls && Genuine(d, s.calls[tid].req, n) && s.calls[tid].req.epoch in d.supported
  {
    tid := StoredIsGenuine(Service(d), run, n);
    CredentialExact(d, After(Service(d), run).calls[tid].req, n);
  }

  // ----- Contexts -----

  /** The keys derived from two info strings differ modulo the order, unless the strings are one. */
  ghost predicate KdfAt<A, B, C, D>(d: Deployment<A, B, C, D>, i: string, j: string)
    requires d.suite.r > 0
  {
    d.kdf(i).Some? && d.kdf(j).Some? && d.kdf(i).value % d.suite.r == d.kdf(j).value % d.suite.r ==> i == j
  }

  /** Two different byte strings with one digest. */
  predicate DigestCollision<A, B, C, D(==)>(d: Deployment<A, B, C, D>, x: seq<byte>, y: seq<byte>) {
    x != y && d.digest(x) == d.digest(y)
  }

  ghost predicate SerializeAt<A, B, C, D>(d: Deployment<A, B, C, D>, p: A, q: A) {
    d.suite.g1.elem(p) && d.suite.g1.elem(q) && d.serialize(p) == d.serialize(q) ==> p == q
  }

  /**
    A signature on a witness other than the identity is a credential in at most one epoch and
    class, if the keys of these two contexts differ.
   */
  lemma OneContext<A(!new), B(!new), C(!new), D>(d: Deployment<A, B, C, D>, req: Request, epoch: string, class_: string, n: D, n': D)
    requires Sound(d) && KdfAt(d, Info(req.epoch, req.class_), Info(epoch, class_))
    requires Clean(req.epoch) && Clean(epoch)
    requires d.decode(req.witnessHex).Some? && d.decode(req.witnessHex).value != d.suite.g1.zero
    requires Credential(Service(d), req) == Some(n)
    requires Credential(Service(d), req.(epoch := epoch, class_ := class_)) == Some(n')
    ensures req.epoch == epoch && req.class_ == class_ && n == n'
  {
    var req' := req.(epoch := epoch, class_ := class_);
    CredentialExact(d, req, n);
    CredentialExact(d, req', n');
    assert TextAt(d, req.witnessHex);
    var k, k' := SigningKey(d, req.epoch, req.class_).value, SigningKey(d, epoch, class_).value;
    MultCancel(d.suite.g1, d.suite.r, k, k', d.decode(req.witnessHex).value);
    InfoInjective(req.epoch, req.class_, epoch, class_);
  }

  /** Two requests have one nullifier exactly when they present one signature in one context, or the digest collides on them. */
  lemma NullifiersSeparate<A(!new), B(!new), C(!new), D>(d: Deployment<A, B, C, D>, e: string, c: string, p: A, e': string, c': string, p': A)
    requires ValidEpoch(e) && ValidClass(c) && ValidEpoch(e') && ValidClass(c')
    requires d.suite.g1.elem(p) && d.suite.g1.elem(p') && SerializeAt(d, p, p')
    ensures Nullifier(d, e, c, p) == Nullifier(d, e', c', p') <==>
      ((e == e' && c == c' && p == p')
       || DigestCollision(d, Preimage(e, c, d.serialize(p)), Preimage(e', c', d.serialize(p'))))
  {
    ValidIsClean(e);
    ValidIsClean(c);
    ValidIsClean(e');
    ValidIsClean(c');
    PreimageInjective(e, c, d.serialize(p), e', c', d.serialize(p'));
  }

  function PreimageOf<A, B, C, D>(d: Deployment<A, B, C, D>, req: Request): seq<byte>
    requires d.decode(req.sigHex).Some?
  {
    Preimage(req.epoch, req.class_, d.serialize(d.decode(req.sigHex).value))
  }

  /**
    With the in-memory store a call of the service is told "duplicate" only if another call won
    with the very same signature for the same class and epoch, or their preimages collide.
   */
  lemma DuplicateMeansPresented<A(!new), B(!new), C(!new), D>(d: Deployment<A, B, C, D>, run: seq<Step>, tid: nat) returns (other: nat)
    requires Sound(d) && d.backend.Memory? && forall p, q :: SerializeAt(d, p, q)
    requires var s := After(Service(d), run); tid in s.calls && ToldDuplicate(s.calls[tid].pc)
    ensures var s := After(Service(d), run);
            && other != tid && other in s.calls && Won(s.calls[other].pc)
            && var r, r' := s.calls[other].req, s.calls[tid].req;
               && d.decode(r.sigHex).Some? && d.decode(r'.sigHex).Some?
               && (SameCredential(Service(d), r, r') || DigestCollision(d, PreimageOf(d, r), PreimageOf(d, r')))
  {
    var env := Service(d);
    other := DuplicateMeansRedeemed(env, run, tid);
    var r, r' := After(env, run).calls[other].req, After(env, run).calls[tid].req;
    assert SameCredential(env, r, r') || Collide(env, r, r');
    Reachable(env, run);
    assert Progress(env, After(env, run).calls[other]) && Progress(env, After(env, run).calls[tid]);
    assert TextAt(d, r.sigHex) && TextAt(d, r'.sigHex);
    var p, p' := d.decode(r.sigHex).value, d.decode(r'.sigHex).value;
    assert SerializeAt(d, p, p');
    NullifiersSeparate(d, r.epoch, r.class_, p, r'.epoch, r'.class_, p');
  }

  // ----- The honest run -----

  /** The credential an honest client ends up with. */
  function Presented<A, B, C, D>(d: Deployment<A, B, C, D>, sig: A, point: A, class_: string, epoch: string): Request {
    Request(d.encode(sig), d.encode(point), class_, epoch)
  }

  /**
    An honest client's part: `op` is its blinding of `point` in state `h0`, `h` its history by the
    time it unblinds. The server's part: class, active epoch and the circumstances of the issuance.
   */
  datatype Session<A> = Session(class_: string, epoch: string, point: A, h0: Client.History, op: Client.Op, h: Client.History, luck: Luck)

  function BlindedOf<A, B, C, D>(d: Deployment<A, B, C, D>, x: Session<A>): A
    requires x.op.BlindOp?
  {
    Bls.BlindMessage(d.suite, x.point, x.op.r)
  }

  function IssuedTo<A, B, C, D>(d: Deployment<A, B, C, D>, x: Session<A>): Result<Issued<A, B>, string>
    requires d.suite.r > 1 && x.op.BlindOp?
  {
    Issue(d, x.epoch, d.encode(BlindedOf(d, x)), x.class_, x.luck)
  }

  /**
    The curve is the one of the scalar codec. The blinding was written and its factor, any scalar
    but zero, not used since; the server issued.
   */
  ghost predicate Honest<A(!new), B(!new), C(!new), D>(d: Deployment<A, B, C, D>, x: Session<A>) {
    && Sound(d) && d.suite.r == ORDER && d.suite.g1.elem(x.point)
    && x.op.BlindOp? && x.op.saved && x.op.r % d.suite.r != 0
    && Client.Scalars(x.h) && Client.Continues(x.h, Client.Then(x.h0, x.op), x.op.id)
    && IssuedTo(d, x).Ok?
  }

  /** The client verifies the proof and unblinds with the factor it kept; `sig` is the outcome. */
  ghost predicate Obtains<A(!new), B(!new), C(!new), D>(d: Deployment<A, B, C, D>, x: Session<A>, sig: A)
    requires Honest(d, x)
  {
    var i, factor := IssuedTo(d, x).value, Client.Factor(Client.After(x.h), x.op.id);
    && d.decode(i.blindSignature).Some?
    && Dleq.Verify(d.suite, d.coding, i.proof, BlindedOf(d, x), d.decode(i.blindSignature).value, i.publicKey)
    && factor.Ok? && sig == Bls.UnblindSignature(d.suite, d.decode(i.blindSignature).value, factor.value)
  }

  function NullifierOf<A, B, C, D>(d: Deployment<A, B, C, D>, x: Session<A>, sig: A): D {
    Nullifier(d, x.epoch, x.class_, sig)
  }

  /** The client presents its credential for the epoch that the server's answer names. */
  function PresentedBy<A, B, C, D>(d: Deployment<A, B, C, D>, x: Session<A>, sig: A): Request
    requires d.suite.r > 1 && x.op.BlindOp? && IssuedTo(d, x).Ok?
  {
    Presented(d, sig, x.point, x.class_, IssuedTo(d, x).value.keyEpoch)
  }

  /**
    Blind, issue, verify the proof, unblind with the factor kept under the request's identifier:
    the outcome is a valid credential for the class and the active epoch, whatever else the client
    did in between.
   */
  lemma HonestCredential<A(!new), B(!new), C(!new), D>(d: Deployment<A, B, C, D>, x: Session<A>) returns (sig: A)
    requires Honest(d, x)
    ensures Obtains(d, x, sig) && d.suite.g1.elem(sig)
    ensures HonestNullifier(d, x) == Some(NullifierOf(d, x, sig))
    ensures Credential(Service(d), PresentedBy(d, x, sig)) == Some(NullifierOf(d, x, sig))
  {
    Bls.BlindedIsProper(d.suite, x.point, x.op.r);
    IssuedVerifies(d, x.epoch, BlindedOf(d, x), x.class_, x.luck);
    Client.BlindThenUnblind(x.h0, x.h, x.op, true);
    var k := SigningKey(d, x.epoch, x.class_).value;
    Bls.UnblindRecovers(d.suite, x.point, k, x.op.r);
    sig := Bls.SignBlinded(d.suite, x.point, k);
    MultElem(d.suite.g1, d.suite.r, k, x.point);
    assert PointAt(d, sig) && PointAt(d, x.point);
    CredentialExact(d, PresentedBy(d, x, sig), NullifierOf(d, x, sig));
  }

  /** The nullifier of the credential on the session's point, under the active epoch. */
  function HonestNullifier<A, B, C, D>(d: Deployment<A, B, C, D>, x: Session<A>): Option<D> {
    match SigningKey(d, x.epoch, x.class_)
    case None => None
    case Some(k) => Some(NullifierOf(d, x, Bls.SignBlinded(d.suite, x.point, k)))
  }

  /** The epoch is among validated ones, the class unrevoked, and the nullifier not in the store. */
  ghost predicate Redeemable<A, B, C, D>(d: Deployment<A, B, C, D>, x: Session<A>, s: State<A, D>) {
    && Config.EpochsReady(x.epoch, d.supported) && ValidClass(x.class_)
    && !RevokedNow(s.rev, x.class_, x.epoch, s.now)
    && (HonestNullifier(d, x).Some? ==> !Nullifiers.Present(s.table, HonestNullifier(d, x).value, s.now))
  }

  /** Call `tid`, invoked after `run`, ends `run'` accepted, at once; its nullifier is stored. */
  ghost predicate AcceptsFirst<P, N>(env: Env<P, N>, run: seq<Step>, run': seq<Step>, tid: nat, req: Request, n: N) {
    var s, s' := After(env, run), After(env, run');
    && run <= run' && tid in s'.calls && s'.calls[tid].pc == Answered(Accepted) && s'.calls[tid].req == req
    && s'.now == s.now && s'.table == s.table[n := ExpiryAt(env, s.now)]
  }

  /**
    The honest run: with validated epochs, blind, issue, verify, unblind and redeem. In any state
    the service can be in, if the class is not revoked and this nullifier is not in the store, the
    redemption that runs undisturbed is accepted. (`OnlyAccepted` covers every interleaving.)
   */
  lemma HonestRun<A(!new), B(!new), C(!new), D>(d: Deployment<A, B, C, D>, x: Session<A>, run: seq<Step>, tid: nat)
    returns (sig: A, run': seq<Step>)
    requires Honest(d, x) && Redeemable(d, x, After(Service(d), run)) && tid !in After(Service(d), run).calls
    ensures Obtains(d, x, sig)
    ensures Valid(Service(d), PresentedBy(d, x, sig)) && Credential(Service(d), PresentedBy(d, x, sig)) == Some(NullifierOf(d, x, sig))
    ensures AcceptsFirst(Service(d), run, run', tid, PresentedBy(d, x, sig), NullifierOf(d, x, sig))
  {
    sig := HonestCredential(d, x);
    var req, s := PresentedBy(d, x, sig), After(Service(d), run);
    assert PointAt(d, sig) && PointAt(d, x.point);
    CheckExact(Service(d), s.rev, s.now, req, NullifierOf(d, x, sig));
    run' := SoloAgrees(Service(d), run, tid, req);
  }

  // ----- Every later redemption -----

  /**
    After an acceptance no call that begins later is accepted for the same credential, on any
    continuation within one expiration; in memory, or without an expiration, never, and no other
    call at all.
   */
  lemma NeverAgain<P, N>(env: Env<P, N>, run: seq<Step>, later: seq<Step>, tid: nat, other: nat)
    requires run <= later && other != tid
    requires tid in After(env, run).calls && IsAnswer(After(env, run).calls[tid].pc, Accepted)
    requires other in After(env, later).calls
    requires Credential(env, After(env, later).calls[other].req) == Credential(env, After(env, run).calls[tid].req)
    requires env.backend.Memory? || env.backend.expiration == 0 || other !in After(env, run).calls
    requires Within(env, AcceptedAt(After(env, run), tid), After(env, later).now)
    ensures !IsAnswer(After(env, later).calls[other].pc, Accepted)
  {
    Reachable(env, run);
    WonEntry(env, After(env, run), tid);
    if other !in After(env, run).calls && Won(After(env, later).calls[other].pc) {
      LaterWin(env, run, later, After(env, run).calls[tid].win.value, other);
      assert false;
    } else if IsAnswer(After(env, later).calls[other].pc, Accepted) {
      assert later[..|run|] == run && later[..|later|] == later;
      StaysWon(env, later, |run|, |later|, tid);
      AcceptancesSpaced(env, later, tid, other);
      assert false;
    }
  }

  /** Call `other`, invoked after the run and left alone, ends `run'` with "duplicate". */
  ghost predicate TellsDuplicate<P, N>(env: Env<P, N>, run: seq<Step>, run': seq<Step>, other: nat, req: Request) {
    && run <= run' && other in After(env, run').calls
    && After(env, run').calls[other].req == req && After(env, run').calls[other].pc == Answered(Duplicate)
  }

  /** An insertion of `n` has not expired. */
  ghost predicate Barred<P, N>(env: Env<P, N>, s: State<P, N>, n: N) {
    exists i :: 0 <= i < |s.wins| && s.wins[i].n == n && Within(env, s.wins[i].time, s.now)
  }

  /**
    The bound is tight: in any state, an undisturbed and unrevoked valid presentation is accepted
    if and only if every insertion of its nullifier is more than one expiration old, and told
    "duplicate" otherwise.
   */
  lemma PresentationExact<P, N>(env: Env<P, N>, run: seq<Step>, tid: nat, req: Request, n: N) returns (run': seq<Step>)
    requires var s := After(env, run);
             && tid !in s.calls && Validated(env, req) && Admissible(env, req) && Credential(env, req) == Some(n)
             && !RevokedNow(s.rev, req.class_, req.epoch, s.now)
    ensures var s, s' := After(env, run), After(env, run');
            && run <= run' && tid in s'.calls && s'.calls[tid].req == req
            && s'.calls[tid].pc == Answered(if Barred(env, s, n) then Duplicate else Accepted)
  {
    var s := After(env, run);
    CheckExact(env, s.rev, s.now, req, n);
    ReplayWindow(env, run, n);
    run' := SoloAgrees(env, run, tid, req);
  }

  lemma PresentIsDuplicate<P, N>(env: Env<P, N>, run: seq<Step>, other: nat, req: Request, n: N) returns (run': seq<Step>)
    requires var s := After(env, run);
             && other !in s.calls && Validated(env, req) && Admissible(env, req) && Credential(env, req) == Some(n)
             && !RevokedNow(s.rev, req.class_, req.epoch, s.now) && Nullifiers.Present(s.table, n, s.now)
    ensures TellsDuplicate(env, run, run', other, req)
  {
    var s := After(env, run);
    CheckExact(env, s.rev, s.now, req, n);
    run' := SoloAgrees(env, run, other, req);
  }

  /** And one that runs undisturbed and unrevoked is told "duplicate", whoever presents the credential. */
  lemma LaterIsDuplicate<P, N>(env: Env<P, N>, run: seq<Step>, later: seq<Step>, tid: nat, other: nat, req: Request) returns (run': seq<Step>)
    requires run <= later
    requires tid in After(env, run).calls && IsAnswer(After(env, run).calls[tid].pc, Accepted)
    requires Within(env, AcceptedAt(After(env, run), tid), After(env, later).now)
    requires Validated(env, req) && Admissible(env, req) && Credential(env, req) == Credential(env, After(env, run).calls[tid].req)
    requires var s := After(env, later); other !in s.calls && !RevokedNow(s.rev, req.class_, req.epoch, s.now)
    ensures TellsDuplicate(env, later, run', other, req)
  {
    var s := After(env, run);
    Reachable(env, run);
    WonEntry(env, s, tid);
    InsertionStays(env, run, later, s.calls[tid].win.value);
    run' := PresentIsDuplicate(env, later, other, req, s.wins[s.calls[tid].win.value].n);
  }

  /** No call that begins after `run` is accepted for `req`'s credential in `later`. */
  ghost predicate NoneAgain<P, N>(env: Env<P, N>, run: seq<Step>, later: seq<Step>, other: nat, req: Request) {
    && run <= later && other !in After(env, run).calls && other in After(env, later).calls
    && Credential(env, After(env, later).calls[other].req) == Credential(env, req)
    ==> !Won(After(env, later).calls[other].pc)
  }

  /** Presented again after `later`, unrevoked and undisturbed, the credential is a duplicate. */
  ghost predicate DuplicateAfter<P, N>(env: Env<P, N>, run: seq<Step>, later: seq<Step>, other: nat, req: Request) {
    && run <= later && other !in After(env, later).calls
    && !RevokedNow(After(env, later).rev, req.class_, req.epoch, After(env, later).now)
    ==> exists run' :: TellsDuplicate(env, later, run', other, req)
  }

  /** In every interleaving, a valid call that begins after `run`, is not revoked and meets no failure can only be told "duplicate". */
  ghost predicate NothingElse<P, N>(env: Env<P, N>, run: seq<Step>, later: seq<Step>, other: nat, m: nat, req: Request) {
    && run <= later && other !in After(env, run).calls && Smooth(env, later, other) && Unrevoked(env, later, m, other)
    && Credential(env, After(env, later).calls[other].req) == Credential(env, req)
    ==> forall a :: IsAnswer(After(env, later).calls[other].pc, a) ==> a == Duplicate
  }

  /** For one expiration from time `at`: all three, on every continuation of `run`. */
  ghost predicate SpentFrom<P, N>(env: Env<P, N>, run: seq<Step>, at: nat, req: Request) {
    && (forall later, other :: Within(env, at, After(env, later).now) ==>
          NoneAgain(env, run, later, other, req) && DuplicateAfter(env, run, later, other, req))
    && (forall later, other, m :: Within(env, at, After(env, later).now) ==> NothingElse(env, run, later, other, m, req))
  }

  lemma OnRecord<P, N>(env: Env<P, N>, run: seq<Step>, n: N, at: nat) returns (i: nat)
    requires n in After(env, run).table && After(env, run).table[n] == ExpiryAt(env, at)
    ensures i < |After(env, run).wins| && After(env, run).wins[i].n == n
    ensures env.backend.Memory? || env.backend.expiration == 0 || After(env, run).wins[i].time == at
  {
    var s := After(env, run);
    Reachable(env, run);
    i := TableEntry(s.wins, n);
    assert Redemption.Genuine(env, s, s.wins[i]);
  }

  /**
    The whole story, with either store: an honest credential is accepted at its first redemption;
    for one expiration from that instant, on every continuation, no call that begins later is
    accepted for it, and one that is unrevoked and meets no failure is told "duplicate".
   */
  lemma OnceOnly<A(!new), B(!new), C(!new), D>(d: Deployment<A, B, C, D>, x: Session<A>, run: seq<Step>, tid: nat)
    returns (sig: A, run': seq<Step>)
    requires Honest(d, x) && Redeemable(d, x, After(Service(d), run)) && tid !in After(Service(d), run).calls
    ensures Obtains(d, x, sig)
    ensures AcceptsFirst(Service(d), run, run', tid, PresentedBy(d, x, sig), NullifierOf(d, x, sig))
    ensures SpentFrom(Service(d), run', After(Service(d), run).now, PresentedBy(d, x, sig))
  {
    sig, run' := HonestRun(d, x, run, tid);
    RecordedOnce(Service(d), run', NullifierOf(d, x, sig), After(Service(d), run).now, PresentedBy(d, x, sig));
  }

  lemma RecordedOnce<P, N>(env: Env<P, N>, run: seq<Step>, n: N, at: nat, req: Request)
    requires n in After(env, run).table && After(env, run).table[n] == ExpiryAt(env, at)
    requires Validated(env, req) && Admissible(env, req) && Credential(env, req) == Some(n)
    ensures SpentFrom(env, run, at, req)
  {
    var i := OnRecord(env, run, n, at);
    forall later, other | Within(env, at, After(env, later).now)
      ensures NoneAgain(env, run, later, other, req) && DuplicateAfter(env, run, later, other, req)
    {
      Afterwards(env, run, later, i, other, req);
    }
    forall later, other, m | Within(env, at, After(env, later).now)
      ensures NothingElse(env, run, later, other, m, req)
    {
      OnlyDuplicateAfterwards(env, run, later, i, other, m, req);
    }
  }

  lemma OnlyDuplicateAfterwards<P, N>(env: Env<P, N>, run: seq<Step>, later: seq<Step>, i: nat, other: nat, m: nat, req: Request)
    requires i < |After(env, run).wins| && Credential(env, req) == Some(After(env, run).wins[i].n)
    requires Within(env, After(env, run).wins[i].time, After(env, later).now)
    ensures NothingElse(env, run, later, other, m, req)
  {
    if run <= later && other !in After(env, run).calls && Smooth(env, later, other) && Unrevoked(env, later, m, other)
      && Credential(env, After(env, later).calls[other].req) == Credential(env, req) {
      forall a | IsAnswer(After(env, later).calls[other].pc, a) ensures a == Duplicate {
        OnlyDuplicate(env, run, later, i, m, other, a);
      }
    }
  }

  lemma Afterwards<P, N>(env: Env<P, N>, run: seq<Step>, later: seq<Step>, i: nat, other: nat, req: Request)
    requires i < |After(env, run).wins| && Credential(env, req) == Some(After(env, run).wins[i].n)
    requires Validated(env, req) && Admissible(env, req)
    requires Within(env, After(env, run).wins[i].time, After(env, later).now)
    ensures NoneAgain(env, run, later, other, req) && DuplicateAfter(env, run, later, other, req)
  {
    if run <= later {
      InsertionStays(env, run, later, i);
      if other !in After(env, later).calls {
        if !RevokedNow(After(env, later).rev, req.class_, req.epoch, After(env, later).now) {
          var run' := PresentIsDuplicate(env, later, other, req, After(env, run).wins[i].n);
        }
      } else if other !in After(env, run).calls && Credential(env, After(env, later).calls[other].req) == Credential(env, req) {
        if Won(After(env, later).calls[other].pc) {
          LaterWin(env, run, later, i, other);
        }
      }
    }
  }
}
