/**
  What the read endpoints answer after each write: the writes of
  projectController.ts and userController.ts seen through getProjectPreview,
  getUserProject, getProjectCodeById and getUserCredits.
 */
module ReadsAfterWrites {
  import opened Wrappers
  import opened Sanitizer
  import opened Store
  import opened Pipeline
  import opened Generation
  import PC = ProjectController
  import UC = UserController

  /**
    After a successful save, the owner's two project reads show the saved
    code, and the public code endpoint serves it exactly when the project
    was already published.
   */
  lemma SaveThenRead(st: Store, u: UserId, pid: Id, code: string, failAt: Option<nat>)
    requires PC.SaveProjectCode(st, Some(u), pid, Some(code), failAt).status == Ok
    ensures var s := PC.SaveProjectCode(st, Some(u), pid, Some(code), failAt).store;
      && PC.ProjectPreview(s, Some(u), pid).status == Ok
      && PC.ProjectPreview(s, Some(u), pid).body.value.currentCode == Some(code)
      && UC.UserProject(s, Some(u), pid).body.Some?
      && UC.UserProject(s, Some(u), pid).body.value.currentCode == Some(code)
      && (PC.ProjectCodeById(s, pid).status == Ok <==> st.projects[pid].isPublished)
      && (PC.ProjectCodeById(s, pid).status == Ok ==> PC.ProjectCodeById(s, pid).body == Some(code))
  {
    PC.SaveProjectCodeUnlinks(st, Some(u), pid, Some(code), failAt);
  }

  /** After a successful delete, every read of the project answers as for a missing one. */
  lemma DeleteThenRead(st: Store, u: UserId, pid: Id, failAt: Option<nat>)
    requires PC.DeleteProject(st, Some(u), pid, failAt).status == Ok
    ensures var s := PC.DeleteProject(st, Some(u), pid, failAt).store;
      && PC.ProjectPreview(s, Some(u), pid).status == NotFound
      && UC.UserProject(s, Some(u), pid) == Answer(Ok, None)
      && PC.ProjectCodeById(s, pid).status == NotFound
  {
    PC.DeleteProjectOwnerOnly(st, u, pid, failAt);
  }

  /**
    After a successful toggle, the public code endpoint serves the project
    exactly when it was unpublished before and has non-empty live code.
   */
  lemma ToggleThenServe(st: Store, u: UserId, pid: Id, failAt: Option<nat>)
    requires UC.TogglePublish(st, Some(u), pid, failAt).status == Ok
    ensures var s := UC.TogglePublish(st, Some(u), pid, failAt).store;
      var p := st.projects[pid];
      && (PC.ProjectCodeById(s, pid).status == Ok <==> !p.isPublished && p.currentCode.Some? && p.currentCode.value != "")
      && (PC.ProjectCodeById(s, pid).status == Ok ==> PC.ProjectCodeById(s, pid).body == p.currentCode)
  {
    if failAt != Some(0) {
      UC.TogglePublishFlips(st, u, pid, failAt);
    }
  }

  /**
    After a creation that commits, the credits endpoint reports `Cost` fewer
    credits, and the new project reads back with the sanitised reply as its
    live code and its only version.
   */
  lemma CreateThenRead(st: Store, u: UserId, prompt: string, gen: Oracle)
    requires u in st.users && st.users[u].credits >= Cost
    requires !gen.Throws(UC.FindUserStep) && gen.raw != "" && !ThrowsIn(gen.failAt, UC.CreateStep, 10)
    ensures var s := UC.CreateUserProject(st, Some(u), Some(prompt), gen).store;
      && UC.UserCredits(s, Some(u)).body == Some(st.users[u].credits - Cost)
      && UC.UserProject(s, Some(u), st.next).body.Some?
      && UC.UserProject(s, Some(u), st.next).body.value.currentCode == Some(Sanitize(gen.raw))
      && |UC.UserProject(s, Some(u), st.next).body.value.versions| == 1
  {
    UC.CreateUserProjectCreates(st, u, prompt, gen);
    CreatedReads(UC.CreateUserProject(st, Some(u), Some(prompt), gen).store, st, u, prompt, gen);
  }

  lemma CreatedReads(s: Store, st: Store, u: UserId, prompt: string, gen: Oracle)
    requires u in st.users
    requires s.users == st.users[u := UC.Charged(st.users[u])]
    requires s.projects == st.projects[st.next := UC.Created(st.next, u, prompt, gen.enhanced, Sanitize(gen.raw))]
    ensures UC.UserCredits(s, Some(u)).body == Some(st.users[u].credits - Cost)
    ensures UC.UserProject(s, Some(u), st.next).body == Some(UC.Created(st.next, u, prompt, gen.enhanced, Sanitize(gen.raw)))
  {
  }

  /**
    After a revision that commits, the owner's preview shows the sanitised
    reply as the live code, held by the newest version, which is current.
   */
  lemma ReviseThenRead(st: Store, u: UserId, pid: Id, message: string, gen: Oracle)
    requires PC.RevisionAdmitted(st, Some(u), pid, Some(message), gen)
    requires gen.raw != "" && !ThrowsIn(gen.failAt, PC.LogRequestStep, 9)
    ensures var s := PC.MakeRevision(st, Some(u), pid, Some(message), gen).store;
      var a := PC.ProjectPreview(s, Some(u), pid);
      && a.status == Ok
      && a.body.value.currentCode == Some(Sanitize(gen.raw))
      && |a.body.value.versions| == |st.projects[pid].versions| + 1
      && a.body.value.versions[|a.body.value.versions| - 1].code == Sanitize(gen.raw)
      && a.body.value.currentVersion == Some(a.body.value.versions[|a.body.value.versions| - 1].id)
  {
    PC.MakeRevisionCommits(st, u, pid, message, gen);
  }
}
