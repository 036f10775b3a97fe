/**
  server/controllers/projectController.ts: revision, rollback, delete,
  save, and the read endpoints, each a transition of the store.
 */
module ProjectController {
  import opened Wrappers
  import opened Text
  import opened Sanitizer
  import opened Store
  import opened Pipeline
  import opened Generation
  import opened Listing

  const EnhancedPrefix: string := "I have enhanced your request to make it more specific for the web developer: "
  const MakingChanges: string := "Making the following changes to the website ..."
  const ChangesMade: string := "I have made the changes to the site, you can now preview it"
  const RevisionDescription: string := "Changes made based on user request"
  const RolledBack: string := "Rolled back to selected version "

  // The awaited calls of makeRevision, numbered in source order.
  const FindUserStep: nat := 0
  const FindProjectStep: nat := 1
  const LogRequestStep: nat := 2
  const DebitStep: nat := 3
  /** The step of the first call of the shared tail. */
  const TailStep: nat := 8

  /** makeRevision gets past all its checks and starts writing. */
  predicate RevisionAdmitted(st: Store, user: Option<UserId>, pid: Id, message: Option<string>, gen: Oracle) {
    && !gen.Throws(FindUserStep)
    && user.Some? && user.value in st.users
    && st.users[user.value].credits >= Cost
    && message.Some? && !AllSpace(message.value)
    && !gen.Throws(FindProjectStep)
    && Owns(st, user.value, pid)
  }

  /** makeRevision: `user` is the authenticated id, `message` the request body's message. */
  function MakeRevision(st: Store, user: Option<UserId>, pid: Id, message: Option<string>, gen: Oracle): Outcome {
    if gen.Throws(FindUserStep) then CatchRefund(st, user, false)
    else if user.None? || user.value !in st.users then Outcome(Unauthorized, st)
    else if st.users[user.value].credits < Cost then Outcome(Forbidden, st)
    else if message.None? || AllSpace(message.value) then Outcome(BadRequest, st)
    else if gen.Throws(FindProjectStep) then CatchRefund(st, user, false)
    else if !Owns(st, user.value, pid) then Outcome(NotFound, st)
    else Revise(st, user.value, pid, message.value, gen, Sanitize(gen.raw))
  }

  /** An admitted revision: the prelude, then the shared tail committing `code`. */
  function Revise(st: Store, u: UserId, pid: Id, message: string, gen: Oracle, code: string): Outcome {
    Conclude(RevisionPrelude(st, u, pid, message, gen), u, pid, gen.raw, code, RevisionDescription, ChangesMade, gen.failAt, false)
  }

  /** The calls of makeRevision from logging the request to the code-generation call. */
  function RevisionOps(u: UserId, pid: Id, message: string, enhanced: string): (ops: seq<Op>)
    ensures |ops| == TailStep - LogRequestStep
    ensures forall i :: 0 <= i < |ops| ==> Plain(ops[i])
  {
    [AppendEntry(pid, UserRole, message),
     UpdateUser(u, -Cost, 0),
     Generate,
     AppendEntry(pid, AssistantRole, EnhancedPrefix + enhanced),
     AppendEntry(pid, AssistantRole, MakingChanges),
     Generate]
  }

  function RevisionPrelude(st: Store, u: UserId, pid: Id, message: string, gen: Oracle): Run {
    Exec(Begin(st, LogRequestStep), RevisionOps(u, pid, message, gen.enhanced), gen.failAt)
  }

  /** The three entries the prelude logs, from clock value `n` on. */
  function PreludeEntries(n: nat, message: string, enhanced: string): seq<Entry> {
    [Entry(n, UserRole, message), Entry(n + 1, AssistantRole, EnhancedPrefix + enhanced),
     Entry(n + 2, AssistantRole, MakingChanges)]
  }

  /** The user's record after the prelude's debit, if the debit call was reached and completed. */
  function AfterDebit(users: map<UserId, User>, u: UserId, gen: Oracle): map<UserId, User>
    requires u in users
  {
    if ThrowsIn(gen.failAt, LogRequestStep, 2) then users
    else users[u := User(users[u].credits - Cost, users[u].totalCreation)]
  }

  /** The prelude is its six calls in source order. */
  lemma PreludeUnrolls(st: Store, u: UserId, pid: Id, message: string, gen: Oracle)
    ensures var ops := RevisionOps(u, pid, message, gen.enhanced);
      RevisionPrelude(st, u, pid, message, gen)
        == Begin(st, LogRequestStep).Then(ops[0], gen.failAt).Then(ops[1], gen.failAt).Then(ops[2], gen.failAt)
             .Then(ops[3], gen.failAt).Then(ops[4], gen.failAt).Then(ops[5], gen.failAt)
  {
    var ops := RevisionOps(u, pid, message, gen.enhanced);
    var r0 := Begin(st, LogRequestStep);
    var r1 := r0.Then(ops[0], gen.failAt);
    var r2 := r1.Then(ops[1], gen.failAt);
    var r3 := r2.Then(ops[2], gen.failAt);
    var r4 := r3.Then(ops[3], gen.failAt);
    var r5 := r4.Then(ops[4], gen.failAt);
    assert Exec(r0, ops, gen.failAt) == Exec(r1, ops[1..], gen.failAt);
    assert Exec(r1, ops[1..], gen.failAt) == Exec(r2, ops[2..], gen.failAt);
    assert Exec(r2, ops[2..], gen.failAt) == Exec(r3, ops[3..], gen.failAt);
    assert Exec(r3, ops[3..], gen.failAt) == Exec(r4, ops[4..], gen.failAt);
    assert Exec(r4, ops[4..], gen.failAt) == Exec(r5, ops[5..], gen.failAt);
    assert Exec(r5, ops[5..], gen.failAt) == Exec(r5.Then(ops[5], gen.failAt), ops[6..], gen.failAt);
  }

  /** Which calls of the prelude threw, and what it did to the users. */
  lemma PreludeUsers(st: Store, u: UserId, pid: Id, message: string, gen: Oracle)
    requires pid in st.projects && u in st.users
    ensures var r := RevisionPrelude(st, u, pid, message, gen);
      && (r.thrown <==> ThrowsIn(gen.failAt, LogRequestStep, 6))
      && (!r.thrown ==> r.step == TailStep)
      && pid in r.store.projects
      && r.store.users == AfterDebit(st.users, u, gen)
  {
    PreludeUnrolls(st, u, pid, message, gen);
  }

  /** What the prelude did to the projects. */
  lemma PreludeProjects(st: Store, u: UserId, pid: Id, message: string, gen: Oracle)
    requires pid in st.projects && u in st.users
    ensures var r := RevisionPrelude(st, u, pid, message, gen);
      && (gen.Throws(DebitStep) ==>
            r.store.projects == st.projects[pid := st.projects[pid].(
              conversation := st.projects[pid].conversation + [Entry(st.next, UserRole, message)])])
      && (!ThrowsIn(gen.failAt, LogRequestStep, 6) ==>
            && r.store.next == st.next + 3
            && r.store.projects == st.projects[pid := st.projects[pid].(
                 conversation := st.projects[pid].conversation + PreludeEntries(st.next, message, gen.enhanced))])
  {
    PreludeUnrolls(st, u, pid, message, gen);
    var p, n := st.projects[pid], st.next;
    var e := PreludeEntries(n, message, gen.enhanced);
    var ops := RevisionOps(u, pid, message, gen.enhanced);
    var r1 := Begin(st, LogRequestStep).Then(ops[0], gen.failAt);
    var r3 := r1.Then(ops[1], gen.failAt).Then(ops[2], gen.failAt);
    var r4 := r3.Then(ops[3], gen.failAt);
    if !ThrowsIn(gen.failAt, LogRequestStep, 6) {
      assert r1.store.projects == st.projects[pid := p.(conversation := p.conversation + [e[0]])];
      assert r3.store.projects == r1.store.projects;
      assert r4.store.projects == st.projects[pid := p.(conversation := p.conversation + [e[0]] + [e[1]])];
      assert p.conversation + [e[0]] + [e[1]] + [e[2]] == p.conversation + e;
    }
  }

  lemma PreludeEffect(st: Store, u: UserId, pid: Id, message: string, gen: Oracle)
    requires pid in st.projects && u in st.users
    ensures var r := RevisionPrelude(st, u, pid, message, gen);
      && (r.thrown <==> ThrowsIn(gen.failAt, LogRequestStep, 6))
      && (!r.thrown ==> r.step == TailStep)
      && pid in r.store.projects
      && r.store.users == AfterDebit(st.users, u, gen)
      && (gen.Throws(DebitStep) ==>
            r.store.projects == st.projects[pid := st.projects[pid].(
              conversation := st.projects[pid].conversation + [Entry(st.next, UserRole, message)])])
      && (!r.thrown ==>
            && r.store.next == st.next + 3
            && r.store.projects == st.projects[pid := st.projects[pid].(
                 conversation := st.projects[pid].conversation + PreludeEntries(st.next, message, gen.enhanced))])
  {
    PreludeUsers(st, u, pid, message, gen);
    PreludeProjects(st, u, pid, message, gen);
  }



  /** An admitted revision runs the prelude and then the shared tail. */
  lemma MakeRevisionAdmitted(st: Store, user: Option<UserId>, pid: Id, message: Option<string>, gen: Oracle)
    requires RevisionAdmitted(st, user, pid, message, gen)
    ensures MakeRevision(st, user, pid, message, gen)
      == Revise(st, user.value, pid, message.value, gen, Sanitize(gen.raw))
  {
  }

  /**
    The checks of makeRevision run in source order (identity, credits,
    message, ownership), each status arises exactly under its condition, and
    none of the rejections changes anything.
   */
  lemma MakeRevisionRejects(st: Store, user: Option<UserId>, pid: Id, message: Option<string>, gen: Oracle)
    ensures var o := MakeRevision(st, user, pid, message, gen);
      && (o.status == Unauthorized <==> !gen.Throws(FindUserStep) && (user.None? || user.value !in st.users))
      && (o.status == Forbidden <==>
            !gen.Throws(FindUserStep) && user.Some? && user.value in st.users && st.users[user.value].credits < Cost)
      && (o.status == BadRequest <==>
            && !gen.Throws(FindUserStep) && user.Some? && user.value in st.users && st.users[user.value].credits >= Cost
            && (message.None? || AllSpace(message.value)))
      && (o.status == NotFound <==>
            && !gen.Throws(FindUserStep) && user.Some? && user.value in st.users && st.users[user.value].credits >= Cost
            && message.Some? && !AllSpace(message.value) && !gen.Throws(FindProjectStep) && !Owns(st, user.value, pid))
      && (o.status in {Unauthorized, Forbidden, BadRequest, NotFound} ==> o.store == st)
  {
    if RevisionAdmitted(st, user, pid, message, gen) {
      var r := RevisionPrelude(st, user.value, pid, message.value, gen);
      PreludeEffect(st, user.value, pid, message.value, gen);
      ConcludeCredits(r, user.value, pid, gen.raw, Sanitize(gen.raw), RevisionDescription, ChangesMade, gen.failAt, false);
    }
  }

  /**
    The project after a committed revision from clock value `n`: the three
    prelude entries and the completion entry are logged, one version holding
    `code` is appended and made current, and the live code is `code`.
   */
  function Revised(p: Project, n: nat, message: string, enhanced: string, code: string): Project {
    p.(conversation := p.conversation + PreludeEntries(n, message, enhanced) + [Entry(n + 4, AssistantRole, ChangesMade)],
       versions := p.versions + [Version(n + 3, code, RevisionDescription)],
       currentCode := Some(code),
       currentVersion := Some(n + 3),
       updatedAt := n + 5)
  }

  /**
    A revision that replies with code and meets no throw answers 200,
    changes no project but `pid`, leaves it as `Revised` describes, and
    charges the user `Cost`.
   */
  lemma MakeRevisionCommits(st: Store, u: UserId, pid: Id, message: string, gen: Oracle)
    requires RevisionAdmitted(st, Some(u), pid, Some(message), gen)
    requires gen.raw != "" && !ThrowsIn(gen.failAt, LogRequestStep, 9)
    ensures var o := MakeRevision(st, Some(u), pid, Some(message), gen);
      && o.status == Ok
      && o.store.users == st.users[u := st.users[u].(credits := st.users[u].credits - Cost)]
      && o.store.projects == st.projects[pid := Revised(st.projects[pid], st.next, message, gen.enhanced, Sanitize(gen.raw))]
      && o.store.next == st.next + 6
  {
    CommitAfterPrelude(st, u, pid, message, gen, Sanitize(gen.raw));
  }

  lemma CommitAfterPrelude(st: Store, u: UserId, pid: Id, message: string, gen: Oracle, code: string)
    requires pid in st.projects && u in st.users
    requires gen.raw != "" && !ThrowsIn(gen.failAt, LogRequestStep, 9)
    ensures var o := Revise(st, u, pid, message, gen, code);
      && o.status == Ok
      && o.store.users == st.users[u := st.users[u].(credits := st.users[u].credits - Cost)]
      && o.store.projects == st.projects[pid := Revised(st.projects[pid], st.next, message, gen.enhanced, code)]
      && o.store.next == st.next + 6
  {
    var r := RevisionPrelude(st, u, pid, message, gen);
    PreludeEffect(st, u, pid, message, gen);
    var p := st.projects[pid];
    var p' := p.(conversation := p.conversation + PreludeEntries(st.next, message, gen.enhanced));
    ConcludeCommitsOver(r, u, pid, gen.raw, code, RevisionDescription, ChangesMade, gen.failAt, false, st.projects, p');
    assert Committed(p', st.next + 3, code, RevisionDescription, ChangesMade)
        == Revised(p, st.next, message, gen.enhanced, code);
  }

  /**
    An empty code reply with no throw: the request gets no response, one
    failure entry is logged after the three prelude entries, the credits
    return to their value before the call, and the live code, the pointer
    and the versions are untouched.
   */
  lemma MakeRevisionEmptyReply(st: Store, user: Option<UserId>, pid: Id, message: Option<string>, gen: Oracle)
    requires RevisionAdmitted(st, user, pid, message, gen)
    requires gen.raw == "" && !ThrowsIn(gen.failAt, LogRequestStep, 8)
    ensures var o := MakeRevision(st, user, pid, message, gen);
      var p := st.projects[pid];
      && o.status == NoReply
      && o.store.users == st.users
      && pid in o.store.projects
      && o.store.projects[pid].versions == p.versions
      && o.store.projects[pid].currentCode == p.currentCode
      && o.store.projects[pid].currentVersion == p.currentVersion
      && o.store.projects[pid].conversation
           == p.conversation + PreludeEntries(st.next, message.value, gen.enhanced) + [Entry(st.next + 3, AssistantRole, GenerationFailed)]
  {
    var u := user.value;
    var r := RevisionPrelude(st, u, pid, message.value, gen);
    MakeRevisionAdmitted(st, user, pid, message, gen);
    PreludeEffect(st, u, pid, message.value, gen);
    ConcludeGivesUp(r, u, pid, Sanitize(gen.raw), RevisionDescription, ChangesMade, gen.failAt, false);
    assert st.users[u := st.users[u].(credits := st.users[u].credits - Cost + Cost)] == st.users;
  }

  /**
    Emptiness is tested on the raw reply, not on the sanitised code: a reply
    that is nothing but a code fence is committed as a version whose code is
    the empty string.
   */
  lemma MakeRevisionCommitsFenceOnlyReply(st: Store, user: Option<UserId>, pid: Id, message: Option<string>, gen: Oracle)
    requires RevisionAdmitted(st, user, pid, message, gen)
    requires gen.raw == Fence && gen.failAt.None?
    ensures var o := MakeRevision(st, user, pid, message, gen);
      && o.status == Ok
      && pid in o.store.projects
      && o.store.projects[pid].currentCode == Some("")
      && o.store.projects[pid].versions == st.projects[pid].versions + [Version(st.next + 3, "", RevisionDescription)]
  {
    SanitizeBareFence();
    MakeRevisionCommits(st, user.value, pid, message.value, gen);
  }

  /**
    Credits per outcome of makeRevision, for a user with a record: a commit
    costs `Cost`; a rejection or an empty reply costs nothing; a throw is
    answered with 500 and the catch block adds `Cost` unconditionally, so a
    throw before the debit call has completed (steps 0 to 3) leaves the user
    `Cost` richer, and a later throw nets to zero.
   */
  lemma MakeRevisionCredits(st: Store, u: UserId, pid: Id, message: Option<string>, gen: Oracle)
    requires u in st.users
    ensures var o := MakeRevision(st, Some(u), pid, message, gen);
      && u in o.store.users
      && (o.status == ServerError ==> gen.failAt.Some?)
      && o.store.users[u].credits - st.users[u].credits ==
           (match o.status
            case Ok => -Cost
            case ServerError => if gen.failAt.Some? && gen.failAt.value <= DebitStep then Cost else 0
            case _ => 0)
      && (forall v :: v in st.users && v != u ==> v in o.store.users && o.store.users[v] == st.users[v])
  {
    if RevisionAdmitted(st, Some(u), pid, message, gen) {
      var r := RevisionPrelude(st, u, pid, message.value, gen);
      PreludeEffect(st, u, pid, message.value, gen);
      ConcludeCredits(r, u, pid, gen.raw, Sanitize(gen.raw), RevisionDescription, ChangesMade, gen.failAt, false);
    }
  }

  /**
    The request is logged before the debit: when the debit call itself
    throws, the user's message is already in the conversation, and the
    catch block's refund leaves the user `Cost` richer than before.
   */
  lemma MakeRevisionLogsBeforeDebit(st: Store, user: Option<UserId>, pid: Id, message: Option<string>, gen: Oracle)
    requires RevisionAdmitted(st, user, pid, message, gen)
    requires gen.Throws(DebitStep)
    ensures var o := MakeRevision(st, user, pid, message, gen);
      && o.status == ServerError
      && o.store.users[user.value].credits == st.users[user.value].credits + Cost
      && pid in o.store.projects
      && o.store.projects[pid].conversation == st.projects[pid].conversation + [Entry(st.next, UserRole, message.value)]
  {
    var r := RevisionPrelude(st, user.value, pid, message.value, gen);
    PreludeEffect(st, user.value, pid, message.value, gen);
  }

  /**
    A revision whose commit throws after the version row is written
    (at the assistant entry or at the pointer update) answers 500, keeps the
    new version but leaves the live code and pointer as they were, and the
    refund in the catch block undoes the debit.
   */
  lemma MakeRevisionThrowAfterVersion(st: Store, u: UserId, pid: Id, message: string, gen: Oracle)
    requires RevisionAdmitted(st, Some(u), pid, Some(message), gen)
    requires gen.raw != "" && (gen.failAt == Some(TailStep + 1) || gen.failAt == Some(TailStep + 2))
    ensures var o := MakeRevision(st, Some(u), pid, Some(message), gen);
      var p := st.projects[pid];
      && o.status == ServerError
      && o.store.users == st.users
      && pid in o.store.projects
      && o.store.projects[pid].versions == p.versions + [Version(st.next + 3, Sanitize(gen.raw), RevisionDescription)]
      && o.store.projects[pid].currentCode == p.currentCode
      && o.store.projects[pid].currentVersion == p.currentVersion
  {
    ThrowAfterPrelude(st, u, pid, message, gen, Sanitize(gen.raw));
  }

  lemma ThrowAfterPrelude(st: Store, u: UserId, pid: Id, message: string, gen: Oracle, code: string)
    requires pid in st.projects && u in st.users
    requires gen.raw != "" && (gen.failAt == Some(TailStep + 1) || gen.failAt == Some(TailStep + 2))
    ensures var o := Revise(st, u, pid, message, gen, code);
      var p := st.projects[pid];
      && o.status == ServerError
      && o.store.users == st.users
      && pid in o.store.projects
      && o.store.projects[pid].versions == p.versions + [Version(st.next + 3, code, RevisionDescription)]
      && o.store.projects[pid].currentCode == p.currentCode
      && o.store.projects[pid].currentVersion == p.currentVersion
  {
    var r := RevisionPrelude(st, u, pid, message, gen);
    PreludeEffect(st, u, pid, message, gen);
    CommitThrowsAfterVersion(r, pid, code, RevisionDescription, ChangesMade, gen.failAt);
    var v := st.users[u];
    assert st.users[u := User(v.credits - Cost, v.totalCreation)][u := User(v.credits - Cost + Cost, v.totalCreation)] == st.users;
  }

  lemma MakeRevisionKeepsValid(st: Store, user: Option<UserId>, pid: Id, message: Option<string>, gen: Oracle)
    requires Valid(st)
    ensures var o := MakeRevision(st, user, pid, message, gen);
      Valid(o.store) && Grows(st, o.store) && st.projects.Keys <= o.store.projects.Keys
  {
    if RevisionAdmitted(st, user, pid, message, gen) {
      var r := RevisionPrelude(st, user.value, pid, message.value, gen);
      ExecKeepsValid(Begin(st, LogRequestStep), RevisionOps(user.value, pid, message.value, gen.enhanced), gen.failAt);
      MakeRevisionAdmitted(st, user, pid, message, gen);
      ConcludeKeepsValid(r, user.value, pid, gen.raw, Sanitize(gen.raw), RevisionDescription, ChangesMade, gen.failAt, false);
      GrowsTransitive(st, r.store, MakeRevision(st, user, pid, message, gen).store);
    } else {
      CatchRefundKeepsValid(st, user, false);
    }
  }


  // ---------------------------------------------------------------------------
  // rollback

  /** rollback: point the project back at one of its versions. */
  function Rollback(st: Store, user: Option<UserId>, pid: Id, vid: Id, failAt: Option<nat>): Outcome {
    if user.None? then Outcome(Unauthorized, st)
    else if failAt == Some(0) then Outcome(ServerError, st)
    else if !Owns(st, user.value, pid) then Outcome(NotFound, st)
    else match FindVersion(st.projects[pid].versions, vid)
      case None => Outcome(NotFound, st)
      case Some(v) =>
        var r := Begin(st, 1)
          .Then(SetCurrent(pid, v.code, Some(v.id)), failAt)
          .Then(AppendEntry(pid, AssistantRole, RolledBack), failAt);
        Outcome(if r.thrown then ServerError else Ok, r.store)
  }

  /** `vid` is the id of one of `pid`'s versions. */
  ghost predicate HasVersion(st: Store, pid: Id, vid: Id) {
    pid in st.projects && exists i :: 0 <= i < |st.projects[pid].versions| && st.projects[pid].versions[i].id == vid
  }

  /**
    rollback answers 404 exactly when the project is not the caller's or the
    version is not one of the project's, and then changes nothing.
   */
  lemma RollbackRejects(st: Store, u: UserId, pid: Id, vid: Id, failAt: Option<nat>)
    requires failAt != Some(0)
    ensures var o := Rollback(st, Some(u), pid, vid, failAt);
      && (o.status == NotFound <==> !Owns(st, u, pid) || !HasVersion(st, pid, vid))
      && (o.status == NotFound ==> o.store == st)
  {
    if Owns(st, u, pid) {
      var f := FindVersion(st.projects[pid].versions, vid);
      if f.Some? {
        var i :| 0 <= i < |st.projects[pid].versions| && st.projects[pid].versions[i] == f.value;
      }
    }
  }

  /**
    A successful rollback to version `v` makes `v`'s code the live code and
    `v` the current version, appends exactly one assistant entry, keeps the
    versions and every user's credits, and leaves other projects alone.
   */
  lemma RollbackMovesPointer(st: Store, u: UserId, pid: Id, vid: Id, failAt: Option<nat>)
    requires Valid(st)
    ensures var o := Rollback(st, Some(u), pid, vid, failAt);
      o.status == Ok ==>
        var p := st.projects[pid];
        && HasVersion(st, pid, vid)
        && pid in o.store.projects
        && o.store.projects[pid].currentVersion == Some(vid)
        && (forall i :: 0 <= i < |p.versions| && p.versions[i].id == vid ==> o.store.projects[pid].currentCode == Some(p.versions[i].code))
        && o.store.projects[pid].versions == p.versions
        && o.store.projects[pid].conversation == p.conversation + [Entry(st.next + 1, AssistantRole, RolledBack)]
        && o.store.users == st.users
        && (forall q :: q in st.projects && q != pid ==> q in o.store.projects && o.store.projects[q] == st.projects[q])
  {
    var o := Rollback(st, Some(u), pid, vid, failAt);
    if o.status == Ok {
      var p := st.projects[pid];
      var v := FindVersion(p.versions, vid).value;
      RollbackEffect(st, pid, v, failAt);
      assert ProjectValid(p, st.next);
      SameIdSameCode(p.versions, st.next, v);
    }
  }

  /** The two calls of a rollback to `v` that both complete. */
  lemma RollbackEffect(st: Store, pid: Id, v: Version, failAt: Option<nat>)
    requires pid in st.projects
    ensures var r := Begin(st, 1).Then(SetCurrent(pid, v.code, Some(v.id)), failAt)
                                 .Then(AppendEntry(pid, AssistantRole, RolledBack), failAt);
      var p := st.projects[pid];
      !r.thrown ==>
        r.store == st.(projects := st.projects[pid := p.(currentCode := Some(v.code), currentVersion := Some(v.id), updatedAt := st.next,
                                                         conversation := p.conversation + [Entry(st.next + 1, AssistantRole, RolledBack)])],
                       next := st.next + 2)
  {
    var p := st.projects[pid];
    var p1 := p.(currentCode := Some(v.code), currentVersion := Some(v.id), updatedAt := st.next);
    assert st.projects[pid := p1][pid := p1.(conversation := p.conversation + [Entry(st.next + 1, AssistantRole, RolledBack)])]
        == st.projects[pid := p1.(conversation := p.conversation + [Entry(st.next + 1, AssistantRole, RolledBack)])];
  }

  /** Version ids are unique, so every version with `v`'s id holds `v`'s code. */
  lemma SameIdSameCode(vs: seq<Version>, next: nat, v: Version)
    requires IncreasingVersions(vs, next) && v in vs
    ensures forall i :: 0 <= i < |vs| && vs[i].id == v.id ==> vs[i].code == v.code
  {
    var k :| 0 <= k < |vs| && vs[k] == v;
    forall i | 0 <= i < |vs| && vs[i].id == v.id
      ensures vs[i].code == v.code
    {
      assert i == k;
    }
  }

  lemma RollbackKeepsValid(st: Store, user: Option<UserId>, pid: Id, vid: Id, failAt: Option<nat>)
    requires Valid(st)
    ensures var o := Rollback(st, user, pid, vid, failAt);
      Valid(o.store) && Grows(st, o.store) && st.projects.Keys <= o.store.projects.Keys
  {
    if user.Some? && failAt != Some(0) && Owns(st, user.value, pid) {
      var f := FindVersion(st.projects[pid].versions, vid);
      if f.Some? {
        var v := f.value;
        var r0 := Begin(st, 1);
        var r1 := r0.Then(SetCurrent(pid, v.code, Some(v.id)), failAt);
        var i :| 0 <= i < |st.projects[pid].versions| && st.projects[pid].versions[i] == v;
        ThenKeepsValid(r0, SetCurrent(pid, v.code, Some(v.id)), failAt);
        ThenGrows(r0, SetCurrent(pid, v.code, Some(v.id)), failAt);
        ThenKeepsValid(r1, AppendEntry(pid, AssistantRole, RolledBack), failAt);
        ThenGrows(r1, AppendEntry(pid, AssistantRole, RolledBack), failAt);
        GrowsTransitive(st, r1.store, r1.Then(AppendEntry(pid, AssistantRole, RolledBack), failAt).store);
      }
    }
  }

  // ---------------------------------------------------------------------------
  // deleteProject

  /** deleteProject: the `{id, userId}` delete throws when it finds nothing. */
  function DeleteProject(st: Store, user: Option<UserId>, pid: Id, failAt: Option<nat>): Outcome {
    if user.None? then Outcome(Unauthorized, st)
    else
      var r := Begin(st, 0).Then(DeleteOwned(pid, user.value), failAt);
      Outcome(if r.thrown then ServerError else Ok, r.store)
  }

  /**
    Deleting succeeds exactly for the caller's own project and removes just
    that project with its conversation and versions; a project of another
    user, or a missing one, is answered with 500 and nothing changes.
   */
  lemma DeleteProjectOwnerOnly(st: Store, u: UserId, pid: Id, failAt: Option<nat>)
    ensures var o := DeleteProject(st, Some(u), pid, failAt);
      && (o.status == Ok <==> Owns(st, u, pid) && failAt != Some(0))
      && (o.status == Ok ==> o.store == st.(projects := st.projects - {pid}))
      && (o.status != Ok ==> o.status == ServerError && o.store == st)
  {
  }

  lemma DeleteProjectKeepsValid(st: Store, user: Option<UserId>, pid: Id, failAt: Option<nat>)
    requires Valid(st)
    ensures Valid(DeleteProject(st, user, pid, failAt).store)
    ensures Grows(st, DeleteProject(st, user, pid, failAt).store)
  {
    if user.Some? && failAt != Some(0) && Owns(st, user.value, pid) {
      ApplyGrows(st, DeleteOwned(pid, user.value));
    }
  }

  // ---------------------------------------------------------------------------
  // saveProjectCode

  /** saveProjectCode: `code` is the request body's code. */
  function SaveProjectCode(st: Store, user: Option<UserId>, pid: Id, code: Option<string>, failAt: Option<nat>): Outcome {
    if user.None? then Outcome(Unauthorized, st)
    else if code.None? || code.value == "" then Outcome(BadRequest, st)
    else if failAt == Some(0) then Outcome(ServerError, st)
    else if !Owns(st, user.value, pid) then Outcome(NotFound, st)
    else
      var r := Begin(st, 1).Then(SetCurrent(pid, code.value, None), failAt);
      Outcome(if r.thrown then ServerError else Ok, r.store)
  }

  /**
    Saving answers 401 without identity, 400 without code, 404 for a project
    that is not the caller's (each changing nothing); a successful save
    makes the code live and unlinks it from every version, without creating
    a version or a conversation entry.
   */
  lemma SaveProjectCodeUnlinks(st: Store, user: Option<UserId>, pid: Id, code: Option<string>, failAt: Option<nat>)
    ensures var o := SaveProjectCode(st, user, pid, code, failAt);
      && (o.status == Unauthorized <==> user.None?)
      && (o.status == BadRequest <==> user.Some? && (code.None? || code.value == ""))
      && (o.status == NotFound <==> user.Some? && code.Some? && code.value != "" && failAt != Some(0) && !Owns(st, user.value, pid))
      && (o.status != Ok ==> o.store == st)
      && (o.status == Ok ==>
            var p := st.projects[pid];
            && pid in o.store.projects
            && o.store.projects[pid] == p.(currentCode := Some(code.value), currentVersion := None, updatedAt := st.next)
            && o.store.users == st.users
            && (forall q :: q in st.projects && q != pid ==> q in o.store.projects && o.store.projects[q] == st.projects[q]))
  {
  }

  lemma SaveProjectCodeKeepsValid(st: Store, user: Option<UserId>, pid: Id, code: Option<string>, failAt: Option<nat>)
    requires Valid(st)
    ensures var o := SaveProjectCode(st, user, pid, code, failAt);
      Valid(o.store) && Grows(st, o.store) && st.projects.Keys <= o.store.projects.Keys
  {
    var o := SaveProjectCode(st, user, pid, code, failAt);
    if user.Some? && code.Some? && code.value != "" && failAt != Some(0) && Owns(st, user.value, pid) {
      var r := Begin(st, 1).Then(SetCurrent(pid, code.value, None), failAt);
      ThenKeepsValid(Begin(st, 1), SetCurrent(pid, code.value, None), failAt);
      ThenGrows(Begin(st, 1), SetCurrent(pid, code.value, None), failAt);
      assert o.store == r.store;
    } else {
      assert o.store == st;
    }
  }


  // ---------------------------------------------------------------------------
  // Reads

  /** getProjectPreview: the caller's project with its versions. */
  function ProjectPreview(st: Store, user: Option<UserId>, pid: Id): (a: Answer<Project>)
    ensures a.status == Ok <==> user.Some? && Owns(st, user.value, pid)
    ensures a.status == Ok ==> a.body == Some(st.projects[pid])
    ensures a.status != Ok ==> a.body.None? && a.status == (if user.None? then Unauthorized else NotFound)
  {
    if user.None? then Answer(Unauthorized, None)
    else if !Owns(st, user.value, pid) then Answer(NotFound, None)
    else Answer(Ok, Some(st.projects[pid]))
  }

  /** The condition under which getProjectCodeById serves a project's code. */
  predicate Servable(st: Store, pid: Id) {
    pid in st.projects && st.projects[pid].isPublished
    && st.projects[pid].currentCode.Some? && st.projects[pid].currentCode.value != ""
  }

  /** getProjectCodeById: the live code of a published project, to anyone. */
  function ProjectCodeById(st: Store, pid: Id): (a: Answer<string>)
    ensures a.status == Ok || a.status == NotFound
    ensures a.status == Ok <==> Servable(st, pid)
    ensures a.status == Ok ==> a.body == st.projects[pid].currentCode
    ensures a.status == NotFound ==> a.body.None?
  {
    if pid !in st.projects then Answer(NotFound, None)
    else
      var p := st.projects[pid];
      if !p.isPublished || p.currentCode.None? || p.currentCode.value == "" then Answer(NotFound, None)
      else Answer(Ok, p.currentCode)
  }

  /** getPublishedProjects: the ids of all published projects, newest first. */
  method PublishedProjects(st: Store) returns (ids: seq<Id>)
    ensures forall i :: 0 <= i < |ids| ==> ids[i] in st.projects && st.projects[ids[i]].isPublished
    ensures forall pid :: pid in st.projects && st.projects[pid].isPublished ==> pid in ids
    ensures Distinct(ids)
    ensures Descending(ids, st.projects, CreatedAt)
  {
    ids := NewestFirst(st.projects, (p: Project) => p.isPublished, CreatedAt);
  }
}
