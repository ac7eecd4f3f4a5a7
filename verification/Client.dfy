/**
  The client's half (pkg/client/client.go) and its pending requests with their copy on disk
  (pkg/client/state.go). Random scalars, fresh identifiers and the success of file writes are
  parameters.
 */
module Client {
  import opened Wrappers
  import opened Bytes
  import opened Codec
  import opened Groups
  import Bls

  datatype Pending = Pending(blindingFactor: seq<byte>, message: seq<byte>, point: seq<byte>)
  type Requests = map<string, Pending>

  /** The map in memory and the state file. */
  datatype Files = Files(requests: Requests, disk: Requests)

  function Written(f: Files, saved: bool): Files {
    if saved then f.(disk := f.requests) else f
  }

  function Stored(f: Files, id: string, p: Pending, saved: bool): Files {
    Written(f.(requests := f.requests[id := p]), saved)
  }

  function Deleted(f: Files, id: string, saved: bool): Files {
    Written(f.(requests := f.requests - {id}), saved)
  }

  function Loaded(f: Files): Files {
    f.(requests := f.disk)
  }

  class State {
    var requests: Requests
    var disk: Requests

    function Now(): Files
      reads this
    {
      Files(requests, disk)
    }

    /** A new process reads the state file, if there is one. */
    constructor (disk: Requests)
      ensures Now() == Loaded(Files(map[], disk))
    {
      this.requests := disk;
      this.disk := disk;
    }

    method Save(ok: bool) returns (r: Result<(), string>)
      modifies this
      ensures Now() == Written(old(Now()), ok) && r == if ok then Ok(()) else Err("write failed")
    {
      if !ok {
        return Err("write failed");
      }
      disk := requests;
      return Ok(());
    }

    method Store(scalar: nat, msg: seq<byte>, point: seq<byte>, id: string, ok: bool) returns (r: Result<string, string>)
      modifies this
      ensures Now() == Stored(old(Now()), id, Pending(ScalarBytes(scalar), msg, point), ok)
      ensures r == if ok then Ok(id) else Err("write failed")
    {
      requests := requests[id := Pending(ScalarBytes(scalar), msg, point)];
      var saved := Save(ok);
      if saved.Err? {
        return Err(saved.error);
      }
      return Ok(id);
    }

    method Get(id: string) returns (r: Result<Pending, string>)
      ensures r == if id in requests then Ok(requests[id]) else Err("request not found")
    {
      if id !in requests {
        return Err("request not found");
      }
      return Ok(requests[id]);
    }

    method Delete(id: string, ok: bool)
      modifies this
      ensures Now() == Deleted(old(Now()), id, ok)
    {
      requests := requests - {id};
      var _ := Save(ok);
    }
  }

  /** The blinding factor that unblinding under `id` would use. */
  function Factor(f: Files, id: string): Result<nat, string> {
    if id in f.requests then ScalarFromBytes(f.requests[id].blindingFactor) else Err("request not found")
  }

  datatype BlindResult<A> = BlindResult(blinded: A, point: A, requestID: string)

  /** `point` is the message hashed to the curve, `r` the random scalar; either may fail. */
  method Blind<A, B, C>(s: Suite<A, B, C>, state: State, compress: A -> seq<byte>, msg: seq<byte>,
      point: Result<A, string>, r: Result<nat, string>, id: string, ok: bool)
    returns (result: Result<BlindResult<A>, string>)
    modifies state
    ensures point.Err? || r.Err? ==> result.Err? && state.Now() == old(state.Now())
    ensures point.Ok? && r.Ok? ==>
      && state.Now() == Stored(old(state.Now()), id, Pending(ScalarBytes(r.value), msg, compress(point.value)), ok)
      && (ok ==> result == Ok(BlindResult(Bls.BlindMessage(s, point.value, r.value), point.value, id)))
      && (!ok ==> result.Err?)
  {
    if point.Err? {
      return Err(point.error);
    }
    if r.Err? {
      return Err(r.error);
    }
    var blinded := Bls.BlindMessage(s, point.value, r.value);
    var stored := state.Store(r.value, msg, compress(point.value), id, ok);
    if stored.Err? {
      return Err(stored.error);
    }
    return Ok(BlindResult(blinded, point.value, stored.value));
  }

  method Unblind<A, B, C>(s: Suite<A, B, C>, state: State, id: string, blindSig: A, ok: bool)
    returns (result: Result<A, string>)
    requires s.r > 1
    modifies state
    ensures match Factor(old(state.Now()), id)
            case Err(e) => result == Err(e) && state.Now() == old(state.Now())
            case Ok(r) => result == Ok(Bls.UnblindSignature(s, blindSig, r)) && state.Now() == Deleted(old(state.Now()), id, ok)
  {
    var req := state.Get(id);
    if req.Err? {
      return Err(req.error);
    }
    var r := ScalarFromBytes(req.value.blindingFactor);
    if r.Err? {
      return Err(r.error);
    }
    var unblinded := Bls.UnblindSignature(s, blindSig, r.value);
    state.Delete(id, ok);
    return Ok(unblinded);
  }

  // ----- Whole histories of one client, across restarts -----

  /** `saved` tells whether the write of the state file succeeds, if there is one. */
  datatype Op =
    | BlindOp(id: string, r: nat, msg: seq<byte>, point: seq<byte>, saved: bool)
    | UnblindOp(id: string, saved: bool)
    | Restart

  datatype History = Start | Then(before: History, last: Op)

  function After(h: History): Files {
    match h
    case Start => Files(map[], map[])
    case Then(before, BlindOp(id, r, msg, point, saved)) =>
      Stored(After(before), id, Pending(ScalarBytes(r), msg, point), saved)
    case Then(before, UnblindOp(id, saved)) =>
      if Factor(After(before), id).Ok? then Deleted(After(before), id, saved) else After(before)
    case Then(before, Restart) => Loaded(After(before))
  }

  predicate Scalars(h: History) {
    h.Then? ==> Scalars(h.before) && (h.last.BlindOp? ==> h.last.r < ORDER)
  }

  /** What a blinding keeps: the factor, the message and its point. */
  datatype Kept = Kept(r: nat, msg: seq<byte>, point: seq<byte>)

  /** What was kept under `id` and not used since; a restart goes back to what was on record. */
  function Outstanding(h: History, id: string): Option<Kept>
    decreases h, 0
  {
    match h
    case Start => None
    case Then(before, BlindOp(i, r, msg, point, _)) => if i == id then Some(Kept(r, msg, point)) else Outstanding(before, id)
    case Then(before, UnblindOp(i, _)) => if i == id then None else Outstanding(before, id)
    case Then(before, Restart) => OnRecord(before, id)
  }

  /** The operation writes the state file: every blinding does, and every unblinding that finds its factor. */
  predicate Writes(before: History, op: Op)
    decreases before, 1
  {
    match op
    case BlindOp(_, _, _, _, saved) => saved
    case UnblindOp(id, saved) => saved && Outstanding(before, id).Some?
    case Restart => false
  }

  /** What was outstanding at the last successful write. */
  function OnRecord(h: History, id: string): Option<Kept>
    decreases h, 1
  {
    match h
    case Start => None
    case Then(before, op) => if Writes(before, op) then Outstanding(h, id) else OnRecord(before, id)
  }

  /** The map holds exactly this under `id`, and unblinding finds its factor. */
  ghost predicate Finds(f: Files, id: string, kept: Option<Kept>) {
    match kept
    case Some(k) =>
      Factor(f, id) == Ok(k.r) && id in f.requests && f.requests[id].message == k.msg && f.requests[id].point == k.point
    case None => Factor(f, id) == Err("request not found") && id !in f.requests
  }

  /**
    In every history, whichever writes fail, unblinding under an identifier finds exactly the factor
    outstanding under it, and after a restart exactly the one on record.
   */
  lemma {:induction false} FactorExact(h: History, id: string)
    requires Scalars(h)
    ensures Finds(After(h), id, Outstanding(h, id))
    ensures Finds(Loaded(After(h)), id, OnRecord(h, id))
  {
    if h.Start? {
    } else {
      FactorExact(h.before, id);
      match h.last {
        case BlindOp(_, r, _, _, _) => ScalarCodec([], r);
        case UnblindOp(i, _) => FactorExact(h.before, i);
        case Restart =>
      }
      assert Finds(After(h), id, Outstanding(h, id));
      assert if Writes(h.before, h.last) then Loaded(After(h)) == After(h) else Loaded(After(h)) == Loaded(After(h.before));
    }
  }

  predicate AllSaved(h: History) {
    h.Then? ==> AllSaved(h.before) && (h.last.Restart? || h.last.saved)
  }

  /** As long as every write succeeds the file equals the map, so nothing is forgotten and nothing comes back. */
  lemma {:induction false} FileEqualsMap(h: History, id: string)
    requires AllSaved(h)
    ensures After(h).disk == After(h).requests
    ensures OnRecord(h, id) == Outstanding(h, id)
  {
    if h.Start? {
    } else {
      FileEqualsMap(h.before, id);
      if h.last.UnblindOp? {
        FileEqualsMap(h.before, h.last.id);
      }
    }
  }

  /** `h` continues `h0` with operations on other identifiers and restarts only. */
  predicate Continues(h: History, h0: History, id: string) {
    h == h0 || (h.Then? && Continues(h.before, h0, id) && (h.last.Restart? || h.last.id != id))
  }

  lemma ContinuesOn(h: History, h0: History, id: string, op: Op)
    requires Continues(h, h0, id) && (op.Restart? || op.id != id)
    ensures Continues(h0, h0, id) && Continues(Then(h, op), h0, id)
  {}

  /** Since `h0` the file has been written, or it was written by the last operation of `h0`. */
  predicate Flushed(h: History, h0: History) {
    if h == h0 then h0.Then? && Writes(h0.before, h0.last)
    else h.Then? && (Flushed(h.before, h0) || Writes(h.before, h.last))
  }

  /** Since `h0` the client was restarted before the file was written. */
  predicate Reverted(h: History, h0: History) {
    h != h0 && h.Then? && (Reverted(h.before, h0) || (h.last.Restart? && !Flushed(h.before, h0)))
  }

  lemma {:induction false} SinceThen(h: History, h0: History, id: string)
    requires Continues(h, h0, id)
    ensures Outstanding(h, id) == if Reverted(h, h0) then OnRecord(h0, id) else Outstanding(h0, id)
    ensures OnRecord(h, id) == if Flushed(h, h0) && !Reverted(h, h0) then Outstanding(h0, id) else OnRecord(h0, id)
  {
    if h == h0 {
    } else {
      SinceThen(h.before, h0, id);
    }
  }

  /**
    Blind under an identifier with a successful write, do anything else, unblind: the factor is the
    right one whatever other writes failed, only this request disappears, and a second use is
    refused until a restart.
   */
  lemma BlindThenUnblind(h0: History, h: History, op: Op, saved: bool)
    requires op.BlindOp? && op.saved && Scalars(h) && Continues(h, Then(h0, op), op.id)
    ensures Factor(After(h), op.id) == Ok(op.r)
    ensures var used := After(Then(h, UnblindOp(op.id, saved)));
            && used == Deleted(After(h), op.id, saved)
            && Factor(used, op.id) == Err("request not found")
            && forall id :: id != op.id ==> Factor(used, id) == Factor(After(h), id)
  {
    SinceThen(h, Then(h0, op), op.id);
    FactorExact(h, op.id);
  }

  /**
    When a used factor comes back: its deletion was not written, the client is restarted before any
    other operation writes the file, and the file had it. What comes back is what the file had.
   */
  lemma UsedFactorExact(h0: History, h: History, id: string, saved: bool)
    requires Scalars(h) && Continues(h, Then(h0, UnblindOp(id, saved)), id) && Outstanding(h0, id).Some?
    ensures Factor(After(h), id).Ok? <==>
      !saved && Reverted(h, Then(h0, UnblindOp(id, saved))) && OnRecord(h0, id).Some?
    ensures Factor(After(h), id).Ok? ==> Factor(After(h), id) == Ok(OnRecord(h0, id).value.r)
  {
    var h1 := Then(h0, UnblindOp(id, saved));
    SinceThen(h, h1, id);
    FactorExact(h, id);
    if saved {
      NotReverted(h, h1, id);
    }
  }

  lemma {:induction false} NotReverted(h: History, h0: History, id: string)
    requires Continues(h, h0, id) && h0.Then? && Writes(h0.before, h0.last)
    ensures Flushed(h, h0) && !Reverted(h, h0)
  {
    if h == h0 {
    } else {
      NotReverted(h.before, h0, id);
    }
  }
}
