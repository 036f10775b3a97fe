/**
  The tail both generation runs share once the generator has replied
  (projectController.ts makeRevision and userController.ts
  createUserProject): an empty reply logs a failure and refunds; any other
  reply is sanitised, stored as a new version, announced, and made current.
 */
module Generation {
  import opened Wrappers
  import opened Sanitizer
  import opened Store
  import opened Pipeline

  const GenerationFailed: string := "Unable to generate code, please try again"

  /** `failAt` names one of the `n` calls starting at `step`. */
  predicate ThrowsIn(failAt: Option<nat>, step: nat, n: nat) {
    failAt.Some? && step <= failAt.value < step + n
  }

  /** The empty-reply branch: a failure entry, then the refund. */
  function GiveUpOps(user: UserId, pid: Id): seq<Op> {
    [AppendEntry(pid, AssistantRole, GenerationFailed), UpdateUser(user, Cost, 0)]
  }

  function GiveUp(r: Run, user: UserId, pid: Id, failAt: Option<nat>): Run {
    Exec(r, GiveUpOps(user, pid), failAt)
  }

  /**
    The commit branch: a version, an announcement, then the pointer update,
    which names the version the first call creates (id `next`).
   */
  function CommitOps(next: nat, pid: Id, code: string, description: string, done: string): seq<Op> {
    [AppendVersion(pid, code, description), AppendEntry(pid, AssistantRole, done), SetCurrent(pid, code, Some(next))]
  }

  function Commit(r: Run, pid: Id, code: string, description: string, done: string, failAt: Option<nat>): Run {
    Exec(r, CommitOps(r.store.next, pid, code, description, done), failAt)
  }

  /**
    Finishes a run positioned just after the code-generation call.
    `sent` says whether the controller already answered the client.
   */
  function Conclude(r: Run, user: UserId, pid: Id, raw: string, code: string, description: string, done: string,
                    failAt: Option<nat>, sent: bool): Outcome
  {
    if raw == "" then
      var r' := GiveUp(r, user, pid, failAt);
      if r'.thrown then CatchRefund(r'.store, Some(user), sent)
      else Outcome(if sent then Ok else NoReply, r'.store)
    else
      var r' := Commit(r, pid, code, description, done, failAt);
      if r'.thrown then CatchRefund(r'.store, Some(user), sent)
      else Outcome(Ok, r'.store)
  }

  /** The run's project after a successful commit of `code` as version `v`. */
  function Committed(p: Project, v: Id, code: string, description: string, done: string): Project {
    p.(versions := p.versions + [Version(v, code, description)],
       conversation := p.conversation + [Entry(v + 1, AssistantRole, done)],
       currentCode := Some(code),
       currentVersion := Some(v),
       updatedAt := v + 2)
  }

  /**
    Committing touches no user; with no throw it appends exactly one
    version, makes it current, and logs one assistant entry.
   */
  lemma CommitEffect(r: Run, pid: Id, code: string, description: string, done: string, failAt: Option<nat>)
    requires pid in r.store.projects
    ensures var r' := Commit(r, pid, code, description, done, failAt);
      && r'.store.users == r.store.users
      && (r'.thrown <==> r.thrown || ThrowsIn(failAt, r.step, 3))
      && (!r'.thrown ==>
            && r'.store.next == r.store.next + 3
            && r'.store.projects == r.store.projects[pid := Committed(r.store.projects[pid], r.store.next, code, description, done)])
  {
    ExecThree(r, AppendVersion(pid, code, description), AppendEntry(pid, AssistantRole, done),
              SetCurrent(pid, code, Some(r.store.next)), failAt);
  }

  /**
    A commit that throws after writing the version row keeps that row: the
    project gains the version but its live code and pointer stay as they were.
   */
  lemma CommitThrowsAfterVersion(r: Run, pid: Id, code: string, description: string, done: string, failAt: Option<nat>)
    requires pid in r.store.projects && !r.thrown
    requires failAt == Some(r.step + 1) || failAt == Some(r.step + 2)
    ensures var r' := Commit(r, pid, code, description, done, failAt);
      var p := r.store.projects[pid];
      && r'.thrown
      && r'.store.users == r.store.users
      && pid in r'.store.projects
      && r'.store.projects[pid].versions == p.versions + [Version(r.store.next, code, description)]
      && r'.store.projects[pid].currentCode == p.currentCode
      && r'.store.projects[pid].currentVersion == p.currentVersion
  {
    var a := AppendVersion(pid, code, description);
    var b := AppendEntry(pid, AssistantRole, done);
    ExecThree(r, a, b, SetCurrent(pid, code, Some(r.store.next)), failAt);
    var r1 := r.Then(a, failAt);
    assert r1.store.projects[pid].versions == r.store.projects[pid].versions + [Version(r.store.next, code, description)];
    var r2 := r1.Then(b, failAt);
    assert r2.store.projects[pid].versions == r1.store.projects[pid].versions;
  }

  /** Giving up logs one failure entry and then refunds `Cost` credits. */
  lemma GiveUpEffect(r: Run, user: UserId, pid: Id, failAt: Option<nat>)
    requires pid in r.store.projects && user in r.store.users
    ensures var r' := GiveUp(r, user, pid, failAt);
      && (r'.thrown <==> r.thrown || ThrowsIn(failAt, r.step, 2))
      && (r'.thrown ==> r'.store.users == r.store.users)
      && (!r'.thrown ==>
            && r'.store.next == r.store.next + 1
            && r'.store.users == r.store.users[user := r.store.users[user].(credits := r.store.users[user].credits + Cost)]
            && r'.store.projects == r.store.projects[pid := r.store.projects[pid].(
                 conversation := r.store.projects[pid].conversation + [Entry(r.store.next, AssistantRole, GenerationFailed)])])
  {
    ExecTwo(r, AppendEntry(pid, AssistantRole, GenerationFailed), UpdateUser(user, Cost, 0), failAt);
  }

  /**
    Credits across the tail: the user ends `Cost` richer than at the start
    of the tail exactly when the run had thrown already, the reply was
    empty, or a call of the tail threw; the refund of the empty-reply branch
    is its last call, so no run is refunded twice. No other user changes.
   */
  lemma ConcludeCredits(r: Run, user: UserId, pid: Id, raw: string, code: string, description: string, done: string,
                        failAt: Option<nat>, sent: bool)
    requires user in r.store.users && pid in r.store.projects
    ensures var o := Conclude(r, user, pid, raw, code, description, done, failAt, sent);
      && user in o.store.users
      && o.store.users[user].credits == r.store.users[user].credits
           + (if r.thrown || raw == "" || ThrowsIn(failAt, r.step, 3) then Cost else 0)
      && (forall u :: u in r.store.users && u != user ==> u in o.store.users && o.store.users[u] == r.store.users[u])
      && (o.status == ServerError <==> !sent && (r.thrown || ThrowsIn(failAt, r.step, if raw == "" then 2 else 3)))
      && (sent ==> o.status == Ok)
  {
    if raw == "" {
      GiveUpEffect(r, user, pid, failAt);
    } else {
      CommitEffect(r, pid, code, description, done, failAt);
    }
  }

  lemma ConcludeKeepsValid(r: Run, user: UserId, pid: Id, raw: string, code: string, description: string, done: string,
                           failAt: Option<nat>, sent: bool)
    requires Valid(r.store)
    ensures var o := Conclude(r, user, pid, raw, code, description, done, failAt, sent);
      Valid(o.store) && Grows(r.store, o.store) && r.store.projects.Keys <= o.store.projects.Keys
  {
    var r' := if raw == "" then GiveUp(r, user, pid, failAt) else Commit(r, pid, code, description, done, failAt);
    if raw == "" {
      GiveUpKeepsValid(r, user, pid, failAt);
    } else {
      CommitKeepsValid(r, pid, code, description, done, failAt);
    }
    CatchRefundKeepsValid(r'.store, Some(user), sent);
    GrowsTransitive(r.store, r'.store, CatchRefund(r'.store, Some(user), sent).store);
  }

  lemma GiveUpKeepsValid(r: Run, user: UserId, pid: Id, failAt: Option<nat>)
    requires Valid(r.store)
    ensures var r' := GiveUp(r, user, pid, failAt);
      Valid(r'.store) && Grows(r.store, r'.store) && r.store.projects.Keys <= r'.store.projects.Keys
  {
    ExecKeepsValid(r, GiveUpOps(user, pid), failAt);
  }

  lemma CommitKeepsValid(r: Run, pid: Id, code: string, description: string, done: string, failAt: Option<nat>)
    requires Valid(r.store)
    ensures var r' := Commit(r, pid, code, description, done, failAt);
      Valid(r'.store) && Grows(r.store, r'.store) && r.store.projects.Keys <= r'.store.projects.Keys
  {
    var v := r.store.next;
    var r1 := r.Then(AppendVersion(pid, code, description), failAt);
    var r2 := r1.Then(AppendEntry(pid, AssistantRole, done), failAt);
    ExecThree(r, AppendVersion(pid, code, description), AppendEntry(pid, AssistantRole, done), SetCurrent(pid, code, Some(v)), failAt);
    ThenKeepsValid(r, AppendVersion(pid, code, description), failAt);
    ThenGrows(r, AppendVersion(pid, code, description), failAt);
    ThenKeepsValid(r1, AppendEntry(pid, AssistantRole, done), failAt);
    ThenGrows(r1, AppendEntry(pid, AssistantRole, done), failAt);
    GrowsTransitive(r.store, r1.store, r2.store);
    NewVersionFits(r, pid, code, description, done, failAt);
    ThenKeepsValid(r2, SetCurrent(pid, code, Some(v)), failAt);
    ThenGrows(r2, SetCurrent(pid, code, Some(v)), failAt);
    GrowsTransitive(r.store, r2.store, r2.Then(SetCurrent(pid, code, Some(v)), failAt).store);
  }

  /** The pointer update names the version the same run just appended. */
  lemma NewVersionFits(r: Run, pid: Id, code: string, description: string, done: string, failAt: Option<nat>)
    ensures var r2 := r.Then(AppendVersion(pid, code, description), failAt).Then(AppendEntry(pid, AssistantRole, done), failAt);
      !r2.thrown ==> Fits(r2.store, SetCurrent(pid, code, Some(r.store.next)))
  {
    var r1 := r.Then(AppendVersion(pid, code, description), failAt);
    var r2 := r1.Then(AppendEntry(pid, AssistantRole, done), failAt);
    if !r2.thrown {
      var vs := r2.store.projects[pid].versions;
      assert vs == r.store.projects[pid].versions + [Version(r.store.next, code, description)];
      assert vs[|vs| - 1].id == r.store.next && vs[|vs| - 1].code == code;
    }
  }

  /** With a non-empty reply and no throw, the tail answers 200 with the committed store. */
  lemma ConcludeCommits(r: Run, user: UserId, pid: Id, raw: string, code: string, description: string, done: string,
                        failAt: Option<nat>, sent: bool)
    requires pid in r.store.projects && !r.thrown && raw != "" && !ThrowsIn(failAt, r.step, 3)
    ensures Conclude(r, user, pid, raw, code, description, done, failAt, sent)
      == Outcome(Ok, r.store.(projects := r.store.projects[pid := Committed(r.store.projects[pid], r.store.next, code, description, done)],
                              next := r.store.next + 3))
  {
    CommitEffect(r, pid, code, description, done, failAt);
  }

  /** The same, for a run whose project `pid` was just written over `base`. */
  lemma ConcludeCommitsOver(r: Run, user: UserId, pid: Id, raw: string, code: string, description: string, done: string,
                            failAt: Option<nat>, sent: bool, base: map<Id, Project>, p: Project)
    requires r.store.projects == base[pid := p] && !r.thrown && raw != "" && !ThrowsIn(failAt, r.step, 3)
    ensures var o := Conclude(r, user, pid, raw, code, description, done, failAt, sent);
      && o.status == Ok && o.store.users == r.store.users && o.store.next == r.store.next + 3
      && o.store.projects == base[pid := Committed(p, r.store.next, code, description, done)]
  {
    ConcludeCommits(r, user, pid, raw, code, description, done, failAt, sent);
    assert base[pid := p][pid := Committed(p, r.store.next, code, description, done)]
        == base[pid := Committed(p, r.store.next, code, description, done)];
  }

  /** With an empty reply and no throw, the tail logs the failure and refunds the debit. */
  lemma ConcludeGivesUp(r: Run, user: UserId, pid: Id, code: string, description: string, done: string,
                        failAt: Option<nat>, sent: bool)
    requires pid in r.store.projects && user in r.store.users && !r.thrown && !ThrowsIn(failAt, r.step, 2)
    ensures Conclude(r, user, pid, "", code, description, done, failAt, sent)
      == Outcome(if sent then Ok else NoReply,
                 r.store.(users := r.store.users[user := r.store.users[user].(credits := r.store.users[user].credits + Cost)],
                          projects := r.store.projects[pid := r.store.projects[pid].(
                            conversation := r.store.projects[pid].conversation + [Entry(r.store.next, AssistantRole, GenerationFailed)])],
                          next := r.store.next + 1))
  {
    GiveUpEffect(r, user, pid, failAt);
  }
}
