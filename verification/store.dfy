/**
  The persisted records of the server (users, projects, conversation
  entries, versions) as one immutable value, and the single storage
  writes the controllers perform on it.

  Ids of projects, entries and versions are drawn from `next`, a logical
  clock that every write advances; a record's id is also its creation
  timestamp, so "ordered by timestamp" is "ordered by id".
 */
module Store {
  import opened Wrappers

  /** A user id, as resolved by the authentication collaborator. */
  type UserId = string

  /** A project, version or conversation-entry id. */
  type Id = nat

  /** The credits one generation or one revision costs. */
  const Cost: int := 5

  datatype Role = UserRole | AssistantRole

  datatype Entry = Entry(id: Id, role: Role, content: string)

  datatype Version = Version(id: Id, code: string, description: string)

  datatype User = User(credits: int, totalCreation: int)

  /**
    A website project. `currentVersion` is `current_version_index`: None
    stands for the empty string the source stores when the live code is not
    linked to any version.
   */
  datatype Project = Project(
    owner: UserId,
    name: string,
    initialPrompt: string,
    currentCode: Option<string>,
    currentVersion: Option<Id>,
    isPublished: bool,
    createdAt: nat,
    updatedAt: nat,
    conversation: seq<Entry>,
    versions: seq<Version>)

  datatype Store = Store(users: map<UserId, User>, projects: map<Id, Project>, next: nat)

  /** `project` exists and belongs to `user`: the `{id, userId}` lookups. */
  predicate Owns(st: Store, user: UserId, project: Id) {
    project in st.projects && st.projects[project].owner == user
  }

  /** One awaited call of a controller: a storage write or a generator call. */
  datatype Op =
    | Generate
    | CreateProject(owner: UserId, name: string, prompt: string)
    | UpdateUser(user: UserId, credits: int, creations: int)
    | AppendEntry(project: Id, role: Role, content: string)
    | AppendVersion(project: Id, code: string, description: string)
    | SetCurrent(project: Id, code: string, version: Option<Id>)
    | SetPublished(project: Id, published: bool)
    | DeleteOwned(project: Id, owner: UserId)

  /**
    The effect of one call, or None when the storage layer rejects it:
    updating a missing user or project, creating a record whose parent does
    not exist, or deleting a project the `{id, userId}` filter does not find.
   */
  function Apply(st: Store, op: Op): (r: Option<Store>)
    ensures r.Some? ==> r.value.users.Keys == st.users.Keys
    ensures r.Some? ==> st.next <= r.value.next
  {
    match op
    case Generate => Some(st)
    case CreateProject(owner, name, prompt) =>
      if owner !in st.users then None
      else
        var p := Project(owner, name, prompt, None, None, false, st.next, st.next, [], []);
        Some(st.(projects := st.projects[st.next := p], next := st.next + 1))
    case UpdateUser(user, credits, creations) =>
      if user !in st.users then None
      else
        var u := st.users[user];
        Some(st.(users := st.users[user := User(u.credits + credits, u.totalCreation + creations)]))
    case AppendEntry(pid, role, content) =>
      if pid !in st.projects then None
      else
        var p := st.projects[pid];
        var p' := p.(conversation := p.conversation + [Entry(st.next, role, content)]);
        Some(st.(projects := st.projects[pid := p'], next := st.next + 1))
    case AppendVersion(pid, code, description) =>
      if pid !in st.projects then None
      else
        var p := st.projects[pid];
        var p' := p.(versions := p.versions + [Version(st.next, code, description)]);
        Some(st.(projects := st.projects[pid := p'], next := st.next + 1))
    case SetCurrent(pid, code, version) =>
      if pid !in st.projects then None
      else
        var p := st.projects[pid];
        var p' := p.(currentCode := Some(code), currentVersion := version, updatedAt := st.next);
        Some(st.(projects := st.projects[pid := p'], next := st.next + 1))
    case SetPublished(pid, published) =>
      if pid !in st.projects then None
      else
        var p := st.projects[pid];
        var p' := p.(isPublished := published, updatedAt := st.next);
        Some(st.(projects := st.projects[pid := p'], next := st.next + 1))
    case DeleteOwned(pid, owner) =>
      if !Owns(st, owner, pid) then None
      else Some(st.(projects := st.projects - {pid}))
  }

  /** The version with id `v` in `p`, if any (`versions.find(v => v.id === id)`). */
  function FindVersion(versions: seq<Version>, v: Id): (r: Option<Version>)
    ensures r.Some? ==> r.value in versions && r.value.id == v
    ensures r.None? ==> forall i :: 0 <= i < |versions| ==> versions[i].id != v
  {
    if |versions| == 0 then None
    else if versions[0].id == v then Some(versions[0])
    else FindVersion(versions[1..], v)
  }

  // ---------------------------------------------------------------------------
  // The invariant every controller keeps

  ghost predicate IncreasingEntries(s: seq<Entry>, next: nat) {
    && (forall i, j :: 0 <= i < j < |s| ==> s[i].id < s[j].id)
    && (forall i :: 0 <= i < |s| ==> s[i].id < next)
  }

  ghost predicate IncreasingVersions(s: seq<Version>, next: nat) {
    && (forall i, j :: 0 <= i < j < |s| ==> s[i].id < s[j].id)
    && (forall i :: 0 <= i < |s| ==> s[i].id < next)
  }

  /** The pointer is unlinked, or names a version of the project whose code is the live code. */
  ghost predicate PointerConsistent(p: Project) {
    p.currentVersion.Some? ==>
      exists i :: 0 <= i < |p.versions| && p.versions[i].id == p.currentVersion.value
                  && p.currentCode == Some(p.versions[i].code)
  }

  ghost predicate ProjectValid(p: Project, next: nat) {
    && IncreasingEntries(p.conversation, next)
    && IncreasingVersions(p.versions, next)
    && PointerConsistent(p)
  }

  /**
    Conversation entries and versions are in strictly increasing timestamp
    order, no record carries a future timestamp, and every linked pointer
    agrees with the version it names.
   */
  ghost predicate Valid(st: Store) {
    forall pid :: pid in st.projects ==> pid < st.next && ProjectValid(st.projects[pid], st.next)
  }

  /** `op` does not link a project to code other than that of the version it names. */
  ghost predicate Fits(st: Store, op: Op) {
    op.SetCurrent? && op.version.Some? && op.project in st.projects ==>
      exists i :: 0 <= i < |st.projects[op.project].versions|
                  && st.projects[op.project].versions[i].id == op.version.value
                  && st.projects[op.project].versions[i].code == op.code
  }

  lemma ApplyKeepsValid(st: Store, op: Op)
    requires Valid(st) && Fits(st, op) && Apply(st, op).Some?
    ensures Valid(Apply(st, op).value)
  {
    var st' := Apply(st, op).value;
    forall pid | pid in st'.projects
      ensures pid < st'.next && ProjectValid(st'.projects[pid], st'.next)
    {
      if pid in st.projects {
        ProjectStaysValid(st, op, pid);
      }
    }
  }

  /** A project that was there before the call is still valid after it. */
  lemma ProjectStaysValid(st: Store, op: Op, pid: Id)
    requires Valid(st) && Fits(st, op) && Apply(st, op).Some?
    requires pid in st.projects && pid in Apply(st, op).value.projects
    ensures pid < Apply(st, op).value.next
    ensures ProjectValid(Apply(st, op).value.projects[pid], Apply(st, op).value.next)
  {
    var st' := Apply(st, op).value;
    var p := st.projects[pid];
    assert ProjectValid(p, st.next);
    match op
    case AppendEntry(q, role, content) =>
      if q == pid { EntryKeepsValid(p, st.next, role, content); }
    case AppendVersion(q, code, description) =>
      if q == pid { VersionKeepsValid(p, st.next, code, description); }
    case SetCurrent(q, code, version) =>
      if q == pid && version.Some? {
        var i :| 0 <= i < |p.versions| && p.versions[i].id == version.value && p.versions[i].code == code;
        assert st'.projects[pid].versions[i] == p.versions[i];
      }
    case SetPublished(q, published) =>
      if q == pid { PointerKept(p, st'.projects[pid]); }
    case _ =>
  }

  lemma EntryKeepsValid(p: Project, next: nat, role: Role, content: string)
    requires ProjectValid(p, next)
    ensures ProjectValid(p.(conversation := p.conversation + [Entry(next, role, content)]), next + 1)
  {
    PointerKept(p, p.(conversation := p.conversation + [Entry(next, role, content)]));
  }

  lemma VersionKeepsValid(p: Project, next: nat, code: string, description: string)
    requires ProjectValid(p, next)
    ensures ProjectValid(p.(versions := p.versions + [Version(next, code, description)]), next + 1)
  {
    PointerKept(p, p.(versions := p.versions + [Version(next, code, description)]));
  }

  /** Growing the version list leaves a consistent pointer consistent. */
  lemma PointerKept(p: Project, p': Project)
    requires PointerConsistent(p) && p.versions <= p'.versions
    requires p'.currentVersion == p.currentVersion && p'.currentCode == p.currentCode
    ensures PointerConsistent(p')
  {
    if p'.currentVersion.Some? {
      var i :| 0 <= i < |p.versions| && p.versions[i].id == p.currentVersion.value
               && p.currentCode == Some(p.versions[i].code);
      assert p'.versions[i] == p.versions[i];
    }
  }

  // ---------------------------------------------------------------------------
  // Append-only history

  /**
    From `st` to `st'` no user disappears, the clock does not go back, and
    every project present in both keeps its owner, its conversation and its
    versions as prefixes of the new ones.
   */
  ghost predicate Grows(st: Store, st': Store) {
    && st.users.Keys == st'.users.Keys
    && st.next <= st'.next
    && forall pid :: pid in st.projects && pid in st'.projects ==>
         && st'.projects[pid].owner == st.projects[pid].owner
         && st.projects[pid].conversation <= st'.projects[pid].conversation
         && st.projects[pid].versions <= st'.projects[pid].versions
  }

  lemma ApplyGrows(st: Store, op: Op)
    requires Valid(st) && Apply(st, op).Some?
    ensures Grows(st, Apply(st, op).value)
    ensures !op.DeleteOwned? ==> st.projects.Keys <= Apply(st, op).value.projects.Keys
  {
    var st' := Apply(st, op).value;
    forall pid | pid in st.projects && pid in st'.projects
      ensures st'.projects[pid].owner == st.projects[pid].owner
      ensures st.projects[pid].conversation <= st'.projects[pid].conversation
      ensures st.projects[pid].versions <= st'.projects[pid].versions
    {
      var p := st.projects[pid];
      match op
      case AppendEntry(q, role, content) =>
        if q == pid {
          assert st'.projects[pid].conversation == p.conversation + [Entry(st.next, role, content)];
        }
      case AppendVersion(q, code, d) =>
        if q == pid {
          assert st'.projects[pid].versions == p.versions + [Version(st.next, code, d)];
        }
      case _ =>
    }
  }

  lemma GrowsTransitive(a: Store, b: Store, c: Store)
    requires Grows(a, b) && Grows(b, c)
    requires a.projects.Keys <= b.projects.Keys
    ensures Grows(a, c)
  {
  }
}
