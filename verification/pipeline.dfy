/**
  The shape shared by every controller: a sequence of awaited calls, any of
  which may throw, and the catch block that ends the request. The outside
  world of one request (the generator's two replies, and which awaited
  call, if any, throws) is an explicit `Oracle` argument.
 */
module Pipeline {
  import opened Wrappers
  import opened Store

  /** How a request ends: the HTTP status sent, or no response at all. */
  datatype Status = Ok | BadRequest | Unauthorized | Forbidden | NotFound | ServerError | NoReply {
    function Code(): Option<int> {
      match this
      case Ok => Some(200)
      case BadRequest => Some(400)
      case Unauthorized => Some(401)
      case Forbidden => Some(403)
      case NotFound => Some(404)
      case ServerError => Some(500)
      case NoReply => None
    }
  }

  /** A read's status and body. */
  datatype Answer<T> = Answer(status: Status, body: Option<T>)

  datatype Outcome = Outcome(status: Status, store: Store)

  /**
    The replies of the text generator for one run and the awaited call that
    throws. `enhanced` is the enhanced prompt as the controllers interpolate
    it into the logged entry, so a `null` reply is the text "null" there;
    `raw` is the code reply after `|| ''`, so a `null` reply is the empty
    string. `failAt == Some(k)` makes the k-th awaited call of the request,
    counted from 0 in source order, throw.
   */
  datatype Oracle = Oracle(enhanced: string, raw: string, failAt: Option<nat>) {
    predicate Throws(k: nat) {
      failAt == Some(k)
    }

    /** Some awaited call before step `k` throws. */
    predicate ThrowsBefore(k: nat) {
      failAt.Some? && failAt.value < k
    }
  }

  /** A request part-way through its `try` block: the store so far, the
      number of the next awaited call, and whether a call has thrown. */
  datatype Run = Run(store: Store, step: nat, thrown: bool) {

    /** Await `op` as call number `step`; after a throw nothing more runs. */
    function Then(op: Op, failAt: Option<nat>): (r: Run)
      ensures thrown ==> r == this
      ensures !thrown && failAt == Some(step) ==> r == this.(thrown := true)
      ensures !thrown && failAt != Some(step) && Apply(store, op).None? ==> r == this.(thrown := true)
      ensures !thrown && failAt != Some(step) && Apply(store, op).Some? ==>
                r == Run(Apply(store, op).value, step + 1, false)
    {
      if thrown then this
      else if failAt == Some(step) then this.(thrown := true)
      else match Apply(store, op)
        case None => this.(thrown := true)
        case Some(st) => Run(st, step + 1, false)
    }
  }

  function Begin(st: Store, step: nat): Run {
    Run(st, step, false)
  }

  /**
    The catch block of the two generation controllers: give the user back
    `Cost` credits, whether or not they were taken. When `user` names no
    user record the update itself throws inside the catch block, the
    request never answers and nothing changes. When a response was already
    sent (`sent`), the client keeps the 200 it received.
   */
  function CatchRefund(st: Store, user: Option<UserId>, sent: bool): (o: Outcome)
    ensures user.Some? && user.value in st.users ==>
              o.store == st.(users := st.users[user.value := st.users[user.value].(credits := st.users[user.value].credits + Cost)])
    ensures user.None? || user.value !in st.users ==> o.store == st
    ensures o.status == (if sent then Ok else if user.Some? && user.value in st.users then ServerError else NoReply)
  {
    if user.None? || user.value !in st.users then Outcome(if sent then Ok else NoReply, st)
    else
      var v := st.users[user.value];
      Outcome(if sent then Ok else ServerError, st.(users := st.users[user.value := v.(credits := v.credits + Cost)]))
  }

  lemma ThenKeepsValid(r: Run, op: Op, failAt: Option<nat>)
    requires Valid(r.store)
    requires !r.thrown ==> Fits(r.store, op)
    ensures Valid(r.Then(op, failAt).store)
  {
    if !r.thrown && failAt != Some(r.step) && Apply(r.store, op).Some? {
      ApplyKeepsValid(r.store, op);
    }
  }

  lemma ThenGrows(r: Run, op: Op, failAt: Option<nat>)
    requires Valid(r.store) && !op.DeleteOwned?
    ensures Grows(r.store, r.Then(op, failAt).store)
    ensures r.store.projects.Keys <= r.Then(op, failAt).store.projects.Keys
  {
    if !r.thrown && failAt != Some(r.step) && Apply(r.store, op).Some? {
      ApplyGrows(r.store, op);
    }
  }

  lemma CatchRefundKeepsValid(st: Store, user: Option<UserId>, sent: bool)
    requires Valid(st)
    ensures Valid(CatchRefund(st, user, sent).store)
    ensures Grows(st, CatchRefund(st, user, sent).store)
    ensures st.projects == CatchRefund(st, user, sent).store.projects
  {
  }

  // ---------------------------------------------------------------------------
  // Batches of calls

  /** A call whose effect needs nothing of the store beyond what `Apply` checks. */
  predicate Plain(op: Op) {
    !op.DeleteOwned? && !(op.SetCurrent? && op.version.Some?)
  }

  /** Runs `ops` in source order from `r`; once one call throws, the rest are skipped. */
  function Exec(r: Run, ops: seq<Op>, failAt: Option<nat>): (r': Run)
    ensures r.thrown ==> r' == r
    ensures !r'.thrown ==> r'.step == r.step + |ops|
    ensures failAt.Some? && r.step <= failAt.value < r.step + |ops| ==> r'.thrown
    decreases |ops|
  {
    if |ops| == 0 then r else Exec(r.Then(ops[0], failAt), ops[1..], failAt)
  }

  /** Running two batches one after the other is running their concatenation. */
  lemma {:induction false} ExecAppend(r: Run, a: seq<Op>, b: seq<Op>, failAt: Option<nat>)
    ensures Exec(r, a + b, failAt) == Exec(Exec(r, a, failAt), b, failAt)
    decreases |a|
  {
    if |a| > 0 {
      assert (a + b)[0] == a[0];
      assert (a + b)[1..] == a[1..] + b;
      ExecAppend(r.Then(a[0], failAt), a[1..], b, failAt);
    } else {
      assert a + b == b;
    }
  }

  /** A batch of plain calls keeps the invariant and only lets the store grow. */
  lemma {:induction false} ExecKeepsValid(r: Run, ops: seq<Op>, failAt: Option<nat>)
    requires Valid(r.store)
    requires forall i :: 0 <= i < |ops| ==> Plain(ops[i])
    ensures var r' := Exec(r, ops, failAt);
      Valid(r'.store) && Grows(r.store, r'.store) && r.store.projects.Keys <= r'.store.projects.Keys
    decreases |ops|
  {
    if |ops| > 0 {
      var r1 := r.Then(ops[0], failAt);
      ThenKeepsValid(r, ops[0], failAt);
      ThenGrows(r, ops[0], failAt);
      ExecKeepsValid(r1, ops[1..], failAt);
      GrowsTransitive(r.store, r1.store, Exec(r1, ops[1..], failAt).store);
    }
  }

  lemma ExecTwo(r: Run, a: Op, b: Op, failAt: Option<nat>)
    ensures Exec(r, [a, b], failAt) == r.Then(a, failAt).Then(b, failAt)
  {
    var r1 := r.Then(a, failAt);
    assert [a, b][1..] == [b] && [b][1..] == [];
    assert Exec(r1, [b], failAt) == Exec(r1.Then(b, failAt), [], failAt);
  }

  lemma ExecThree(r: Run, a: Op, b: Op, c: Op, failAt: Option<nat>)
    ensures Exec(r, [a, b, c], failAt) == r.Then(a, failAt).Then(b, failAt).Then(c, failAt)
  {
    assert [a, b, c][1..] == [b, c];
    ExecTwo(r.Then(a, failAt), b, c, failAt);
  }

  lemma ExecFour(r: Run, a: Op, b: Op, c: Op, d: Op, failAt: Option<nat>)
    ensures Exec(r, [a, b, c, d], failAt) == r.Then(a, failAt).Then(b, failAt).Then(c, failAt).Then(d, failAt)
  {
    assert [a, b, c, d][1..] == [b, c, d];
    ExecThree(r.Then(a, failAt), b, c, d, failAt);
  }
}
