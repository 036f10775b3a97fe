/**
  server/controllers/userController.ts: credits, project creation with its
  first generation, the caller's projects, and publishing.
 */
module UserController {
  import opened Wrappers
  import opened Text
  import opened Sanitizer
  import opened Store
  import opened Pipeline
  import opened Generation
  import opened Listing

  /** Prompts longer than this are cut to this many characters for the project's name. */
  const NameLimit: nat := 50
  const Ellipsis: string := "..."
  const EnhancedPromptNote: string := "I have enhanced your prompt to make it more detailed and comprehensive for better website creation. Here is the enhanced prompt:\n\n"
  const GeneratingNow: string := "Generating your website now... This may take a few minutes. You will be notified once it's ready."
  const InitialDescription: string := "Initial version"
  const WebsiteCreated: string := "I have created your website based on the enhanced prompt. This is the initial version of your website. You can view and edit the code in the project dashboard. If you want to make changes, just let me know!"

  // The awaited calls of createUserProject, numbered in source order.
  const FindUserStep: nat := 0
  const CreateStep: nat := 1
  const DebitStep: nat := 2
  const LogPromptStep: nat := 3
  const EnhanceStep: nat := 4
  /** The step of the first call of the shared tail. */
  const TailStep: nat := 8

  // ---------------------------------------------------------------------------
  // getUserCredits

  /** getUserCredits: `credits` is absent when the account has no record. */
  function UserCredits(st: Store, user: Option<UserId>): (a: Answer<int>)
    ensures a.status == (if user.None? then Unauthorized else Ok)
    ensures a.body.Some? <==> user.Some? && user.value in st.users
    ensures a.body.Some? ==> a.body.value == st.users[user.value].credits
  {
    if user.None? then Answer(Unauthorized, None)
    else if user.value !in st.users then Answer(Ok, None)
    else Answer(Ok, Some(st.users[user.value].credits))
  }

  // ---------------------------------------------------------------------------
  // createUserProject

  /** The project's name: the prompt, cut to `NameLimit` characters plus an ellipsis when longer. */
  function ProjectName(prompt: string): (name: string)
    ensures |name| <= NameLimit + |Ellipsis|
    ensures |prompt| <= NameLimit ==> name == prompt
    ensures |prompt| > NameLimit ==>
      |name| == NameLimit + |Ellipsis| && name[..NameLimit] == prompt[..NameLimit] && name[NameLimit..] == Ellipsis
  {
    if |prompt| > NameLimit then prompt[..NameLimit] + Ellipsis else prompt
  }

  /** The record `websiteProject.create` makes for `u` at clock value `n`. */
  function Fresh(n: nat, u: UserId, prompt: string): Project {
    Project(u, ProjectName(prompt), prompt, None, None, false, n, n, [], [])
  }

  /** The calls up to the response: create the project, debit, log the prompt. */
  function SetupOps(u: UserId, pid: Id, prompt: string): seq<Op> {
    [CreateProject(u, ProjectName(prompt), prompt), UpdateUser(u, -Cost, 1), AppendEntry(pid, UserRole, prompt)]
  }

  /** The calls after the response up to the code-generation call. */
  function PrepareOps(pid: Id, enhanced: string): seq<Op> {
    [Generate, AppendEntry(pid, AssistantRole, EnhancedPromptNote + enhanced), AppendEntry(pid, AssistantRole, GeneratingNow), Generate]
  }

  function Setup(st: Store, u: UserId, prompt: string, gen: Oracle): Run {
    Exec(Begin(st, CreateStep), SetupOps(u, st.next, prompt), gen.failAt)
  }

  function Prepare(r: Run, pid: Id, gen: Oracle): Run {
    Exec(r, PrepareOps(pid, gen.enhanced), gen.failAt)
  }

  /** createUserProject gets past its checks and reaches the create call. */
  predicate CreateAdmitted(st: Store, user: Option<UserId>, prompt: Option<string>, gen: Oracle) {
    && user.Some?
    && !gen.Throws(FindUserStep)
    && !(user.value in st.users && st.users[user.value].credits < Cost)
    && prompt.Some?
  }

  /**
    createUserProject: `prompt` is the request body's initial_prompt. The
    new project's id is the clock value `st.next`. The client is answered
    once the prompt is logged; what follows cannot change the status.
   */
  function CreateUserProject(st: Store, user: Option<UserId>, prompt: Option<string>, gen: Oracle): Outcome {
    if user.None? then Outcome(Unauthorized, st)
    else if gen.Throws(FindUserStep) then CatchRefund(st, user, false)
    else if user.value in st.users && st.users[user.value].credits < Cost then Outcome(Forbidden, st)
    else if prompt.None? then CatchRefund(st, user, false)
    else
      var r := Setup(st, user.value, prompt.value, gen);
      if r.thrown then CatchRefund(r.store, user, false)
      else Conclude(Prepare(r, st.next, gen), user.value, st.next, gen.raw, Sanitize(gen.raw), InitialDescription, WebsiteCreated, gen.failAt, true)
  }

  /** The user's record after the debit and the creation count. */
  function Charged(x: User): User {
    User(x.credits - Cost, x.totalCreation + 1)
  }

  lemma SetupEffect(st: Store, u: UserId, prompt: string, gen: Oracle)
    requires u in st.users
    ensures var r := Setup(st, u, prompt, gen);
      var n := st.next;
      && (r.thrown <==> ThrowsIn(gen.failAt, CreateStep, 3))
      && (gen.failAt == Some(CreateStep) ==> r.store == st)
      && r.store.users == (if ThrowsIn(gen.failAt, CreateStep, 2) then st.users else st.users[u := Charged(st.users[u])])
      && (!r.thrown ==>
            && r.step == EnhanceStep
            && r.store.next == n + 2
            && r.store.projects == st.projects[n := Fresh(n, u, prompt).(conversation := [Entry(n + 1, UserRole, prompt)])])
  {
    var n := st.next;
    var r0 := Begin(st, CreateStep);
    var r1 := r0.Then(CreateProject(u, ProjectName(prompt), prompt), gen.failAt);
    var r2 := r1.Then(UpdateUser(u, -Cost, 1), gen.failAt);
    ExecThree(r0, CreateProject(u, ProjectName(prompt), prompt), UpdateUser(u, -Cost, 1),
              AppendEntry(n, UserRole, prompt), gen.failAt);
    if !ThrowsIn(gen.failAt, CreateStep, 3) {
      assert r2.store.projects == st.projects[n := Fresh(n, u, prompt)];
      assert [] + [Entry(n + 1, UserRole, prompt)] == [Entry(n + 1, UserRole, prompt)];
      assert st.projects[n := Fresh(n, u, prompt)][n := Fresh(n, u, prompt).(conversation := [Entry(n + 1, UserRole, prompt)])]
          == st.projects[n := Fresh(n, u, prompt).(conversation := [Entry(n + 1, UserRole, prompt)])];
    }
  }

  lemma PrepareEffect(r: Run, pid: Id, gen: Oracle)
    requires !r.thrown && pid in r.store.projects
    ensures var r' := Prepare(r, pid, gen);
      var p := r.store.projects[pid];
      && (r'.thrown <==> ThrowsIn(gen.failAt, r.step, 4))
      && r'.store.users == r.store.users
      && pid in r'.store.projects
      && (!r'.thrown ==>
            && r'.step == r.step + 4
            && r'.store.next == r.store.next + 2
            && r'.store.projects == r.store.projects[pid := p.(conversation := p.conversation
                 + [Entry(r.store.next, AssistantRole, EnhancedPromptNote + gen.enhanced),
                    Entry(r.store.next + 1, AssistantRole, GeneratingNow)])])
  {
    ExecFour(r, Generate, AppendEntry(pid, AssistantRole, EnhancedPromptNote + gen.enhanced),
             AppendEntry(pid, AssistantRole, GeneratingNow), Generate, gen.failAt);
    var p := r.store.projects[pid];
    var e1 := Entry(r.store.next, AssistantRole, EnhancedPromptNote + gen.enhanced);
    var e2 := Entry(r.store.next + 1, AssistantRole, GeneratingNow);
    var r2 := r.Then(Generate, gen.failAt).Then(AppendEntry(pid, AssistantRole, EnhancedPromptNote + gen.enhanced), gen.failAt);
    if !ThrowsIn(gen.failAt, r.step, 4) {
      assert r2.store.projects == r.store.projects[pid := p.(conversation := p.conversation + [e1])];
      assert p.conversation + [e1] + [e2] == p.conversation + [e1, e2];
    }
  }

  /** An admitted creation whose setup completed is concluded by the shared tail. */
  lemma CreateUserProjectAdmitted(st: Store, user: Option<UserId>, prompt: Option<string>, gen: Oracle)
    requires CreateAdmitted(st, user, prompt, gen)
    ensures var r := Setup(st, user.value, prompt.value, gen);
      CreateUserProject(st, user, prompt, gen)
        == if r.thrown then CatchRefund(r.store, user, false)
           else Conclude(Prepare(r, st.next, gen), user.value, st.next, gen.raw, Sanitize(gen.raw), InitialDescription, WebsiteCreated, gen.failAt, true)
  {
  }

  /** The conversation a creation logs up to the code-generation call, from clock value `n`. */
  function Opening(n: nat, prompt: string, enhanced: string): seq<Entry> {
    [Entry(n + 1, UserRole, prompt), Entry(n + 2, AssistantRole, EnhancedPromptNote + enhanced),
     Entry(n + 3, AssistantRole, GeneratingNow)]
  }

  /**
    The checks of createUserProject: 401 without identity and 403 for an
    account with a record and fewer than `Cost` credits, both changing
    nothing. An account without a record skips the credit check.
   */
  lemma CreateUserProjectRejects(st: Store, user: Option<UserId>, prompt: Option<string>, gen: Oracle)
    ensures var o := CreateUserProject(st, user, prompt, gen);
      && (o.status == Unauthorized <==> user.None?)
      && (o.status == Forbidden <==>
            user.Some? && !gen.Throws(FindUserStep) && user.value in st.users && st.users[user.value].credits < Cost)
      && (o.status in {Unauthorized, Forbidden} ==> o.store == st)
  {
    if CreateAdmitted(st, user, prompt, gen) {
      var r := Setup(st, user.value, prompt.value, gen);
      CreateUserProjectAdmitted(st, user, prompt, gen);
      if !r.thrown && user.value in st.users {
        SetupEffect(st, user.value, prompt.value, gen);
        PrepareEffect(r, st.next, gen);
        ConcludeCredits(Prepare(r, st.next, gen), user.value, st.next, gen.raw, Sanitize(gen.raw), InitialDescription, WebsiteCreated, gen.failAt, true);
      }
    }
  }

  /**
    Every call that touches storage needs the account's record: for an
    authenticated id without one, the request gets no response and nothing
    changes (the create call fails on the missing owner and the refund in
    the catch block fails on the missing record).
   */
  lemma CreateUserProjectNeedsAccount(st: Store, u: UserId, prompt: Option<string>, gen: Oracle)
    requires u !in st.users
    ensures CreateUserProject(st, Some(u), prompt, gen) == Outcome(NoReply, st)
  {
    if prompt.Some? && !gen.Throws(FindUserStep) {
      ExecThree(Begin(st, CreateStep), CreateProject(u, ProjectName(prompt.value), prompt.value), UpdateUser(u, -Cost, 1),
                AppendEntry(st.next, UserRole, prompt.value), gen.failAt);
    }
  }

  lemma CreateTail(st: Store, u: UserId, prompt: string, gen: Oracle, r: Run)
    requires u in st.users && st.users[u].credits >= Cost
    requires r == Setup(st, u, prompt, gen) && !r.thrown
    ensures var r' := Prepare(r, st.next, gen);
      var n := st.next;
      && n in r'.store.projects
      && r'.store.users == st.users[u := Charged(st.users[u])]
      && (r'.thrown <==> ThrowsIn(gen.failAt, EnhanceStep, 4))
      && (!r'.thrown ==>
            && r'.step == TailStep
            && r'.store.next == n + 4
            && r'.store.projects == st.projects[n := Fresh(n, u, prompt).(conversation := Opening(n, prompt, gen.enhanced))])
  {
    SetupEffect(st, u, prompt, gen);
    PrepareEffect(r, st.next, gen);
    var n := st.next;
    assert [Entry(n + 1, UserRole, prompt)] + [Entry(n + 2, AssistantRole, EnhancedPromptNote + gen.enhanced),
      Entry(n + 3, AssistantRole, GeneratingNow)] == Opening(n, prompt, gen.enhanced);
  }

  /** The project a successful creation leaves behind, from clock value `n`. */
  function Created(n: nat, u: UserId, prompt: string, enhanced: string, code: string): Project {
    Project(u, ProjectName(prompt), prompt, Some(code), Some(n + 4), false, n, n + 6,
            Opening(n, prompt, enhanced) + [Entry(n + 5, AssistantRole, WebsiteCreated)],
            [Version(n + 4, code, InitialDescription)])
  }

  /**
    A creation that meets no throw and gets code answers 200 and leaves
    exactly one new project, at id `st.next`, owned by the caller: its first
    version holds the sanitised reply and is current, its conversation is
    the prompt, the two assistant notes and the completion message, and the
    caller has paid `Cost` and counts one more creation.
   */
  lemma CreateUserProjectCreates(st: Store, u: UserId, prompt: string, gen: Oracle)
    requires u in st.users && st.users[u].credits >= Cost
    requires !gen.Throws(FindUserStep) && gen.raw != "" && !ThrowsIn(gen.failAt, CreateStep, 10)
    ensures var o := CreateUserProject(st, Some(u), Some(prompt), gen);
      && o.status == Ok
      && o.store.users == st.users[u := Charged(st.users[u])]
      && o.store.projects == st.projects[st.next := Created(st.next, u, prompt, gen.enhanced, Sanitize(gen.raw))]
  {
    var r := Setup(st, u, prompt, gen);
    CreateUserProjectAdmitted(st, Some(u), Some(prompt), gen);
    SetupEffect(st, u, prompt, gen);
    CreateTail(st, u, prompt, gen, r);
    CommitAfterSetup(st, u, prompt, gen, Prepare(r, st.next, gen), Sanitize(gen.raw));
  }

  lemma CommitAfterSetup(st: Store, u: UserId, prompt: string, gen: Oracle, r: Run, code: string)
    requires u in st.users
    requires !r.thrown && r.step == TailStep && r.store.next == st.next + 4
    requires gen.raw != "" && !ThrowsIn(gen.failAt, TailStep, 3)
    requires r.store.users == st.users[u := Charged(st.users[u])]
    requires r.store.projects == st.projects[st.next := Fresh(st.next, u, prompt).(conversation := Opening(st.next, prompt, gen.enhanced))]
    ensures var o := Conclude(r, u, st.next, gen.raw, code, InitialDescription, WebsiteCreated, gen.failAt, true);
      && o.status == Ok
      && o.store.users == st.users[u := Charged(st.users[u])]
      && o.store.projects == st.projects[st.next := Created(st.next, u, prompt, gen.enhanced, code)]
  {
    var n := st.next;
    ConcludeCommitsOver(r, u, n, gen.raw, code, InitialDescription, WebsiteCreated, gen.failAt, true, st.projects,
                        Fresh(n, u, prompt).(conversation := Opening(n, prompt, gen.enhanced)));
    CommittedIsCreated(n, u, prompt, gen.enhanced, code);
  }

  lemma CommittedIsCreated(n: nat, u: UserId, prompt: string, enhanced: string, code: string)
    ensures Committed(Fresh(n, u, prompt).(conversation := Opening(n, prompt, enhanced)), n + 4, code, InitialDescription, WebsiteCreated)
         == Created(n, u, prompt, enhanced, code)
  {
    assert [] + [Version(n + 4, code, InitialDescription)] == [Version(n + 4, code, InitialDescription)];
  }

  /**
    An empty code reply after the response: the status stays 200, the
    project exists with no version and no code, its conversation ends with
    the failure entry, and the refund cancels the debit (the creation count
    keeps its increment).
   */
  lemma CreateUserProjectEmptyReply(st: Store, u: UserId, prompt: string, gen: Oracle)
    requires u in st.users && st.users[u].credits >= Cost
    requires !gen.Throws(FindUserStep) && gen.raw == "" && !ThrowsIn(gen.failAt, CreateStep, 9)
    ensures var o := CreateUserProject(st, Some(u), Some(prompt), gen);
      var n := st.next;
      && o.status == Ok
      && o.store.users == st.users[u := st.users[u].(totalCreation := st.users[u].totalCreation + 1)]
      && o.store.projects == st.projects[n := Fresh(n, u, prompt).(
           conversation := Opening(n, prompt, gen.enhanced) + [Entry(n + 4, AssistantRole, GenerationFailed)])]
  {
    var r := Setup(st, u, prompt, gen);
    CreateUserProjectAdmitted(st, Some(u), Some(prompt), gen);
    SetupEffect(st, u, prompt, gen);
    CreateTail(st, u, prompt, gen, r);
    GiveUpAfterSetup(st, u, prompt, gen, Prepare(r, st.next, gen), Sanitize(gen.raw));
  }

  lemma GiveUpAfterSetup(st: Store, u: UserId, prompt: string, gen: Oracle, r: Run, code: string)
    requires u in st.users
    requires !r.thrown && r.step == TailStep && r.store.next == st.next + 4
    requires gen.raw == "" && !ThrowsIn(gen.failAt, TailStep, 2)
    requires r.store.users == st.users[u := Charged(st.users[u])]
    requires r.store.projects == st.projects[st.next := Fresh(st.next, u, prompt).(conversation := Opening(st.next, prompt, gen.enhanced))]
    ensures var o := Conclude(r, u, st.next, gen.raw, code, InitialDescription, WebsiteCreated, gen.failAt, true);
      var n := st.next;
      && o.status == Ok
      && o.store.users == st.users[u := st.users[u].(totalCreation := st.users[u].totalCreation + 1)]
      && o.store.projects == st.projects[n := Fresh(n, u, prompt).(
           conversation := Opening(n, prompt, gen.enhanced) + [Entry(n + 4, AssistantRole, GenerationFailed)])]
  {
    ConcludeGivesUp(r, u, st.next, code, InitialDescription, WebsiteCreated, gen.failAt, true);
  }

  /**
    Credits and status per run of createUserProject, for an account with a
    record. The catch block adds `Cost` whatever happened before it, so a
    throw before the debit call completes (the lookup, a missing prompt,
    the create call, the debit call) leaves the user `Cost` richer; a later
    throw or an empty reply nets to zero; a commit costs `Cost`. The status
    is 200 exactly when the prompt was logged, since the answer is sent
    right after, and no other user changes.
   */
  lemma CreateUserProjectCredits(st: Store, u: UserId, prompt: Option<string>, gen: Oracle)
    requires u in st.users
    ensures var o := CreateUserProject(st, Some(u), prompt, gen);
      var x := st.users[u];
      && u in o.store.users
      && o.store.users[u].credits - x.credits ==
           (if gen.Throws(FindUserStep) then Cost
            else if x.credits < Cost then 0
            else if prompt.None? || ThrowsIn(gen.failAt, CreateStep, 2) then Cost
            else if gen.raw == "" || ThrowsIn(gen.failAt, LogPromptStep, 8) then 0
            else -Cost)
      && (o.status == Ok <==>
            !gen.Throws(FindUserStep) && x.credits >= Cost && prompt.Some? && !ThrowsIn(gen.failAt, CreateStep, 3))
      && (o.status == Forbidden <==> !gen.Throws(FindUserStep) && x.credits < Cost)
      && o.status in {Ok, Forbidden, ServerError}
      && (forall v :: v in st.users && v != u ==> v in o.store.users && o.store.users[v] == st.users[v])
  {
    if CreateAdmitted(st, Some(u), prompt, gen) {
      var r := Setup(st, u, prompt.value, gen);
      CreateUserProjectAdmitted(st, Some(u), prompt, gen);
      SetupEffect(st, u, prompt.value, gen);
      if !r.thrown {
        CreateTail(st, u, prompt.value, gen, r);
        ConcludeCredits(Prepare(r, st.next, gen), u, st.next, gen.raw, Sanitize(gen.raw), InitialDescription, WebsiteCreated, gen.failAt, true);
      }
    }
  }

  /**
    A throw at the debit, after the project was created: the answer is 500,
    the new project stays in the store, and the catch block refunds `Cost`
    credits that were never taken.
   */
  lemma CreateUserProjectThrowAtDebit(st: Store, u: UserId, prompt: string, gen: Oracle)
    requires u in st.users && st.users[u].credits >= Cost
    requires gen.failAt == Some(DebitStep)
    ensures var o := CreateUserProject(st, Some(u), Some(prompt), gen);
      && o.status == ServerError
      && o.store.users == st.users[u := st.users[u].(credits := st.users[u].credits + Cost)]
      && o.store.projects == st.projects[st.next := Fresh(st.next, u, prompt)]
      && o.store.next == st.next + 1
  {
    CreateUserProjectAdmitted(st, Some(u), Some(prompt), gen);
    var n := st.next;
    var ops := SetupOps(u, n, prompt);
    var r0 := Begin(st, CreateStep);
    ExecThree(r0, ops[0], ops[1], ops[2], gen.failAt);
    var r1 := r0.Then(ops[0], gen.failAt);
    assert r1.store == st.(projects := st.projects[n := Fresh(n, u, prompt)], next := n + 1);
  }

  /**
    A creation whose commit throws after the version row is written: the
    client already has its 200, the new project holds that version but no
    live code and no pointer, and the refund cancels the debit while the
    creation count keeps its increment.
   */
  lemma CreateUserProjectThrowAfterVersion(st: Store, u: UserId, prompt: string, gen: Oracle)
    requires u in st.users && st.users[u].credits >= Cost
    requires gen.raw != "" && (gen.failAt == Some(TailStep + 1) || gen.failAt == Some(TailStep + 2))
    ensures var o := CreateUserProject(st, Some(u), Some(prompt), gen);
      var n := st.next;
      && o.status == Ok
      && o.store.users == st.users[u := st.users[u].(totalCreation := st.users[u].totalCreation + 1)]
      && n in o.store.projects
      && o.store.projects[n].versions == [Version(n + 4, Sanitize(gen.raw), InitialDescription)]
      && o.store.projects[n].currentCode.None?
      && o.store.projects[n].currentVersion.None?
  {
    var r := Setup(st, u, prompt, gen);
    CreateUserProjectAdmitted(st, Some(u), Some(prompt), gen);
    SetupEffect(st, u, prompt, gen);
    CreateTail(st, u, prompt, gen, r);
    ThrowAfterSetup(st, u, prompt, gen, Prepare(r, st.next, gen), Sanitize(gen.raw));
  }

  lemma ThrowAfterSetup(st: Store, u: UserId, prompt: string, gen: Oracle, r: Run, code: string)
    requires u in st.users
    requires !r.thrown && r.step == TailStep && st.next in r.store.projects
    requires gen.raw != "" && (gen.failAt == Some(TailStep + 1) || gen.failAt == Some(TailStep + 2))
    requires r.store.users == st.users[u := Charged(st.users[u])]
    requires r.store.projects[st.next].versions == []
    requires r.store.projects[st.next].currentCode.None? && r.store.projects[st.next].currentVersion.None?
    requires r.store.next == st.next + 4
    ensures var o := Conclude(r, u, st.next, gen.raw, code, InitialDescription, WebsiteCreated, gen.failAt, true);
      var n := st.next;
      && o.status == Ok
      && o.store.users == st.users[u := st.users[u].(totalCreation := st.users[u].totalCreation + 1)]
      && n in o.store.projects
      && o.store.projects[n].versions == [Version(n + 4, code, InitialDescription)]
      && o.store.projects[n].currentCode.None?
      && o.store.projects[n].currentVersion.None?
  {
    CommitThrowsAfterVersion(r, st.next, code, InitialDescription, WebsiteCreated, gen.failAt);
    var x := st.users[u];
    assert st.users[u := Charged(x)][u := Charged(x).(credits := Charged(x).credits + Cost)]
        == st.users[u := x.(totalCreation := x.totalCreation + 1)];
  }

  lemma CreateUserProjectKeepsValid(st: Store, user: Option<UserId>, prompt: Option<string>, gen: Oracle)
    requires Valid(st)
    ensures var o := CreateUserProject(st, user, prompt, gen);
      Valid(o.store) && Grows(st, o.store) && st.projects.Keys <= o.store.projects.Keys
  {
    if CreateAdmitted(st, user, prompt, gen) {
      CreateUserProjectAdmitted(st, user, prompt, gen);
      CreationKeepsValid(st, user.value, prompt.value, gen, Sanitize(gen.raw));
    } else {
      CatchRefundKeepsValid(st, user, false);
    }
  }

  /** The calls from the create call on keep the invariant, whatever code the tail commits. */
  lemma CreationKeepsValid(st: Store, u: UserId, prompt: string, gen: Oracle, code: string)
    requires Valid(st)
    ensures var r := Setup(st, u, prompt, gen);
      var o := if r.thrown then CatchRefund(r.store, Some(u), false)
               else Conclude(Prepare(r, st.next, gen), u, st.next, gen.raw, code, InitialDescription, WebsiteCreated, gen.failAt, true);
      Valid(o.store) && Grows(st, o.store) && st.projects.Keys <= o.store.projects.Keys
  {
    var r := Setup(st, u, prompt, gen);
    ExecKeepsValid(Begin(st, CreateStep), SetupOps(u, st.next, prompt), gen.failAt);
    if r.thrown {
      CatchRefundKeepsValid(r.store, Some(u), false);
      GrowsTransitive(st, r.store, CatchRefund(r.store, Some(u), false).store);
    } else {
      var r' := Prepare(r, st.next, gen);
      ExecKeepsValid(r, PrepareOps(st.next, gen.enhanced), gen.failAt);
      GrowsTransitive(st, r.store, r'.store);
      ConcludeKeepsValid(r', u, st.next, gen.raw, code, InitialDescription, WebsiteCreated, gen.failAt, true);
      var o := Conclude(r', u, st.next, gen.raw, code, InitialDescription, WebsiteCreated, gen.failAt, true);
      GrowsTransitive(st, r'.store, o.store);
    }
  }

  // ---------------------------------------------------------------------------
  // getUserProject and getUserProjects

  /**
    getUserProject: the lookup filters on owner as well as id, so another
    user's project is answered with 200 and a null project, like a
    missing one.
   */
  function UserProject(st: Store, user: Option<UserId>, pid: Id): (a: Answer<Project>)
    ensures a.status == (if user.None? then Unauthorized else Ok)
    ensures a.body.Some? <==> user.Some? && Owns(st, user.value, pid)
    ensures a.body.Some? ==> a.body.value == st.projects[pid]
  {
    if user.None? then Answer(Unauthorized, None)
    else if !Owns(st, user.value, pid) then Answer(Ok, None)
    else Answer(Ok, Some(st.projects[pid]))
  }

  /** getUserProjects: the ids of the caller's projects, most recently updated first. */
  method UserProjects(st: Store, user: Option<UserId>) returns (status: Status, ids: seq<Id>)
    ensures status == (if user.None? then Unauthorized else Ok)
    ensures user.None? ==> ids == []
    ensures user.Some? ==>
      && (forall i :: 0 <= i < |ids| ==> Owns(st, user.value, ids[i]))
      && (forall pid :: Owns(st, user.value, pid) ==> pid in ids)
      && Distinct(ids)
      && Descending(ids, st.projects, UpdatedAt)
  {
    if user.None? {
      return Unauthorized, [];
    }
    var u := user.value;
    ids := NewestFirst(st.projects, (p: Project) => p.owner == u, UpdatedAt);
    status := Ok;
  }

  // ---------------------------------------------------------------------------
  // toggleProjectPublish

  /** toggleProjectPublish: the lookup is call 0, the update call 1. */
  function TogglePublish(st: Store, user: Option<UserId>, pid: Id, failAt: Option<nat>): Outcome {
    if user.None? then Outcome(Unauthorized, st)
    else if failAt == Some(0) then Outcome(ServerError, st)
    else if !Owns(st, user.value, pid) then Outcome(NotFound, st)
    else
      var r := Begin(st, 1).Then(SetPublished(pid, !st.projects[pid].isPublished), failAt);
      Outcome(if r.thrown then ServerError else Ok, r.store)
  }

  /**
    Toggling answers 404 exactly for a project that is not the caller's; on
    success it flips the flag and stamps the update time, and changes
    nothing else.
   */
  lemma TogglePublishFlips(st: Store, u: UserId, pid: Id, failAt: Option<nat>)
    requires failAt != Some(0)
    ensures var o := TogglePublish(st, Some(u), pid, failAt);
      && (o.status == NotFound <==> !Owns(st, u, pid))
      && (o.status != Ok ==> o.store == st)
      && (o.status == Ok ==>
            var p := st.projects[pid];
            && o.store.users == st.users
            && o.store.next == st.next + 1
            && o.store.projects == st.projects[pid := p.(isPublished := !p.isPublished, updatedAt := st.next)])
  {
  }

  /** Two successful toggles restore the flag; only the update time differs. */
  lemma TogglePublishTwice(st: Store, u: UserId, pid: Id, f1: Option<nat>, f2: Option<nat>)
    requires TogglePublish(st, Some(u), pid, f1).status == Ok
    requires TogglePublish(TogglePublish(st, Some(u), pid, f1).store, Some(u), pid, f2).status == Ok
    ensures var o := TogglePublish(TogglePublish(st, Some(u), pid, f1).store, Some(u), pid, f2);
      o.store == st.(projects := st.projects[pid := st.projects[pid].(updatedAt := st.next + 1)], next := st.next + 2)
  {
    var o1 := TogglePublish(st, Some(u), pid, f1);
    TogglePublishFlips(st, u, pid, f1);
    TogglePublishFlips(o1.store, u, pid, f2);
  }

  lemma TogglePublishKeepsValid(st: Store, user: Option<UserId>, pid: Id, failAt: Option<nat>)
    requires Valid(st)
    ensures var o := TogglePublish(st, user, pid, failAt);
      Valid(o.store) && Grows(st, o.store) && st.projects.Keys <= o.store.projects.Keys
  {
    if user.Some? && failAt != Some(0) && Owns(st, user.value, pid) {
      var op := SetPublished(pid, !st.projects[pid].isPublished);
      ThenKeepsValid(Begin(st, 1), op, failAt);
      ThenGrows(Begin(st, 1), op, failAt);
    }
  }
}
