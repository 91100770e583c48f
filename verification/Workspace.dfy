/**
 Workspace capabilities: the table of prepared workspaces and the protocol that
 publishes, quarantines and removes their directories. Every step on the host
 may fail, and the candidate may replace any entry that is not quarantined.
 */
module Workspace {
  import opened Results
  import opened Identity
  import opened Command

  type Path = seq<string>

  datatype WorkspaceErrorCause = AlreadyExists | NotFound | Conflict | IsolationFailure | StorageFailure

  // --------------------------------------------------------------------- paths

  /** `root / name`. */
  function Below(root: Path, name: string): Path {
    root + PathParts(name)
  }

  function Parent(path: Path): Path {
    if path == [] then [] else path[..|path| - 1]
  }

  /** `_overlaps`: either path is the other or lies below it. */
  predicate Overlaps(left: Path, right: Path) {
    left == right || right <= left || left <= right
  }

  /** `_is_protected`. */
  predicate IsProtected(path: Path, protectedRoots: seq<Path>) {
    exists p <- protectedRoots :: Overlaps(path, p)
  }

  predicate AtOrBelow(path: Path, root: Path) {
    root <= path
  }

  /** Two paths overlap exactly when one path lies at or below both of them. */
  lemma OverlapsExact(left: Path, right: Path)
    ensures Overlaps(left, right) <==> exists p :: AtOrBelow(p, left) && AtOrBelow(p, right)
  {
    if Overlaps(left, right) {
      var p := if left <= right then right else left;
      assert AtOrBelow(p, left) && AtOrBelow(p, right);
    }
    if p :| AtOrBelow(p, left) && AtOrBelow(p, right) {
      if |left| <= |right| {
        assert left == p[..|left|] && right[..|left|] == p[..|left|];
      } else {
        assert right == p[..|right|] && left[..|right|] == p[..|right|];
      }
    }
  }

  /** At a protected root, below one, or above one. */
  lemma ProtectedExact(path: Path, protectedRoots: seq<Path>)
    ensures IsProtected(path, protectedRoots) <==> exists p <- protectedRoots :: p <= path || path <= p
  {
    if p :| p in protectedRoots && Overlaps(path, p) {
      OverlapsExact(path, p);
      var q :| AtOrBelow(q, path) && AtOrBelow(q, p);
      assert p <= path || path <= p;
    }
    if p :| p in protectedRoots && (p <= path || path <= p) {
      OverlapsExact(path, p);
      assert Overlaps(path, p) by {
        var q := if p <= path then path else p;
        assert AtOrBelow(q, path) && AtOrBelow(q, p);
      }
    }
  }

  const RELEASE_PREFIX := ".release-"

  function Home(root: Path, id: WorkspaceId): Path {
    root + [id]
  }

  function Quarantine(root: Path, id: WorkspaceId): Path {
    root + [RELEASE_PREFIX + id]
  }

  lemma CleanNameIsOneSegment(name: string)
    requires IsCleanSegment(name)
    ensures PathParts(name) == [name]
  {
    CleanPartsAreAccepted([name]);
  }

  /** A capability handle names exactly one entry of the root, and so does its quarantine. */
  lemma HandlesAreSegments(root: Path, id: WorkspaceId)
    ensures Below(root, id) == Home(root, id) && Parent(Home(root, id)) == root
    ensures Below(root, RELEASE_PREFIX + id) == Quarantine(root, id)
  {
    assert IsSafeIdChar(id, 0);
    forall i | 0 <= i < |id| ensures id[i] != '/' && id[i] != '\\' && id[i] != 0 as char {
      assert IsSafeIdChar(id, i);
    }
    CleanNameIsOneSegment(id);
    CleanNameIsOneSegment(RELEASE_PREFIX + id);
  }

  /** Homes and quarantines of all handles are pairwise different paths. */
  lemma PathsAreApart(root: Path, id: WorkspaceId, other: WorkspaceId)
    ensures Home(root, id) != Quarantine(root, other)
    ensures id != other ==> Home(root, id) != Home(root, other) && Quarantine(root, id) != Quarantine(root, other)
  {
    assert IsSafeIdChar(id, 0);
    assert Home(root, id)[|root|] == id;
    assert Home(root, other)[|root|] == other;
    assert Quarantine(root, id)[|root|] == RELEASE_PREFIX + id;
    assert Quarantine(root, other)[|root|] == RELEASE_PREFIX + other;
    assert (RELEASE_PREFIX + id)[|RELEASE_PREFIX|..] == id;
    assert (RELEASE_PREFIX + other)[|RELEASE_PREFIX|..] == other;
  }

  lemma OverlapIsInherited(root: Path, name: string, p: Path)
    ensures Overlaps(root + [name], p) ==> Overlaps(root, p)
  {
    var path := root + [name];
    assert root <= path;
    if p <= path {
      assert p == path[..|p|];
      assert |p| <= |root| ==> path[..|p|] == root[..|p|];
      assert |p| == |path| ==> path[..|p|] == path;
    }
  }

  /** What lies directly below an unprotected root is unprotected. */
  lemma BelowIsUnprotected(root: Path, name: string, protectedRoots: seq<Path>)
    requires !IsProtected(root, protectedRoots)
    ensures !IsProtected(root + [name], protectedRoots)
  {
    forall p | p in protectedRoots ensures !Overlaps(root + [name], p) {
      OverlapIsInherited(root, name, p);
    }
  }

  // ----------------------------------------------------------- host directory

  type Digest = nat

  /** What validation can see of a directory tree. */
  datatype Content = Content(files: set<string>, config: Option<Digest>, linksStayInside: bool)

  datatype Entry =
    | Directory(content: Content)
    | File
    | Link(resolves: bool)

  /** The entries of the host file system, at their paths. */
  type Entries = map<Path, Entry>

  /** `Path.exists`, which follows links. */
  predicate Exists(entries: Entries, path: Path) {
    path in entries && (entries[path].Link? ==> entries[path].resolves)
  }

  predicate IsSymlink(entries: Entries, path: Path) {
    path in entries && entries[path].Link?
  }

  datatype HostStep =
    | ResolveRoot | Materialize | InspectLinks | ReadConfig | VerifyBaseline
    | Rename | Unlink | RemoveTree | RenameBack

  datatype GitErrorCause =
    | InvalidConfiguration | InvalidPath | DestinationExists | Timeout | OutputLimitExceeded | CommandFailed
    | BaselineMismatch

  /** A step fails in storage, by its own finding about isolation, or in the controlled Git. */
  datatype Failure = Isolation | Storage | Git(cause: GitErrorCause)

  /** What a failed step is reported as; `_translate_git_error` for Git. */
  function CauseOf(failure: Failure): WorkspaceErrorCause {
    match failure
    case Isolation => IsolationFailure
    case Storage => StorageFailure
    case Git(cause) =>
      if cause in {InvalidConfiguration, InvalidPath, DestinationExists, BaselineMismatch} then IsolationFailure
      else StorageFailure
  }

  /**
   What the host does during one call: the steps that fail if they are reached,
   what a clone produces, what a failing clone leaves behind, and what a failing
   recursive removal leaves of the tree.
   */
  datatype Host = Host(
    faults: map<HostStep, Failure>,
    baseline: Content,
    debris: Option<Entry>,
    remains: Option<Entry>)

  function Put(entries: Entries, path: Path, entry: Option<Entry>): Entries {
    if entry.Some? then entries[path := entry.value] else entries - {path}
  }

  /** A later entry at a path replaces an earlier one, and putting back what is there changes nothing. */
  lemma PutAgain(entries: Entries, path: Path, first: Option<Entry>, second: Option<Entry>)
    ensures Put(Put(entries, path, first), path, second) == Put(entries, path, second)
    ensures Put(entries, path, At(entries, path)) == entries
  {
  }

  lemma PutElsewhere(entries: Entries, path: Path, entry: Option<Entry>, other: Path, at: Option<Entry>)
    requires path != other
    ensures Put(Put(entries, path, entry), other, at) == Put(Put(entries, other, at), path, entry)
    ensures At(Put(entries, path, entry), other) == At(entries, other)
    ensures At(Put(entries, path, entry), path) == entry
  {
  }

  function At(entries: Entries, path: Path): Option<Entry> {
    if path in entries then Some(entries[path]) else None
  }

  // ------------------------------------------------------------------- tables

  datatype Record = Record(identity: WorkspaceIdentity, path: Path, configDigest: Digest)

  datatype Table = Table(
    records: map<WorkspaceId, Record>,
    runIndex: map<RunId, WorkspaceId>,
    entries: Entries)

  datatype Roots = Roots(root: Path, protectedRoots: seq<Path>)

  function Forgotten(t: Table, identity: WorkspaceIdentity): Table {
    t.(records := t.records - {identity.workspaceId}, runIndex := t.runIndex - {identity.runId})
  }

  function Published(roots: Roots, t: Table, workspace: WorkspaceIdentity, content: Content, digest: Digest): Table {
    var home := Home(roots.root, workspace.workspaceId);
    Table(t.records[workspace.workspaceId := Record(workspace, home, digest)],
          t.runIndex[workspace.runId := workspace.workspaceId],
          t.entries[home := Directory(content)])
  }

  // ------------------------------------------------ what each operation means

  /** What is left of an entry that is unlinked or removed recursively. */
  function Left(entry: Entry, host: Host): Option<Entry> {
    if entry.Directory? then (if RemoveTree in host.faults then host.remains else None)
    else if Unlink in host.faults then Some(entry)
    else None
  }

  predicate RemovalFails(entry: Entry, host: Host) {
    if entry.Directory? then RemoveTree in host.faults else Unlink in host.faults
  }

  /** The first reason for which a freshly cloned tree is not published. */
  function Rejection(host: Host): Option<WorkspaceErrorCause> {
    if Materialize in host.faults then Some(CauseOf(host.faults[Materialize]))
    else if InspectLinks in host.faults then Some(CauseOf(host.faults[InspectLinks]))
    else if !host.baseline.linksStayInside || host.baseline.config.None? then Some(IsolationFailure)
    else if ReadConfig in host.faults then Some(CauseOf(host.faults[ReadConfig]))
    else if VerifyBaseline in host.faults then Some(CauseOf(host.faults[VerifyBaseline]))
    else None
  }

  type Prepared = Result<WorkspaceIdentity, WorkspaceErrorCause>
  type Released = Result<(), WorkspaceErrorCause>
  type Loaded = Result<Option<WorkspaceIdentity>, WorkspaceErrorCause>

  /**
   A handle that is recorded or whose entry is occupied is never reused; a rejected clone is
   discarded as far as possible.
   */
  function PrepareStep(roots: Roots, t: Table, identity: RunIdentity, id: WorkspaceId, host: Host): (Table, Prepared) {
    var home := Home(roots.root, id);
    if ResolveRoot in host.faults then (t, Err(CauseOf(host.faults[ResolveRoot])))
    else if identity.runId in t.runIndex || id in t.records || home in t.entries then (t, Err(AlreadyExists))
    else
      match Rejection(host)
      case None =>
        var workspace := WorkspaceIdentity(id, identity.runId, identity.baselineSha);
        (Published(roots, t, workspace, host.baseline, host.baseline.config.value), Ok(workspace))
      case Some(cause) =>
        var debris := if Materialize in host.faults then host.debris else Some(Directory(host.baseline));
        var left := if debris.Some? then Left(debris.value, host) else None;
        (t.(entries := Put(t.entries, home, left)), Err(cause))
  }

  /** Whether a recorded workspace still looks as it did when it was published. */
  function Inspection(entries: Entries, record: Record, host: Host): Option<WorkspaceErrorCause> {
    if ResolveRoot in host.faults then Some(CauseOf(host.faults[ResolveRoot]))
    else match At(entries, record.path)
      case Some(Directory(content)) =>
        if InspectLinks in host.faults then Some(CauseOf(host.faults[InspectLinks]))
        else if !content.linksStayInside || content.config.None? then Some(IsolationFailure)
        else if ReadConfig in host.faults then Some(CauseOf(host.faults[ReadConfig]))
        else if content.config.value != record.configDigest then Some(IsolationFailure)
        else if VerifyBaseline in host.faults then Some(CauseOf(host.faults[VerifyBaseline]))
        else None
      case _ => Some(IsolationFailure)
  }

  function LoadStep(t: Table, id: WorkspaceId, host: Host): Loaded {
    if id !in t.records then Ok(None)
    else match Inspection(t.entries, t.records[id], host)
      case Some(cause) => Err(cause)
      case None => Ok(Some(t.records[id].identity))
  }

  /** Where the pieces are after a release has been attempted, and what it answers, by what was at the two paths. */
  datatype Detached = Detached(home: Option<Entry>, quarantine: Option<Entry>, forgotten: bool, answer: Released)

  function Detach(home: Option<Entry>, quarantine: Option<Entry>, host: Host): Detached {
    match (home, quarantine)
    case (None, None) => Detached(None, None, true, Ok(()))
    case (None, Some(entry)) =>
      if RemovalFails(entry, host) then Detached(None, Left(entry, host), false, Err(StorageFailure))
      else Detached(None, None, true, Ok(()))
    case (Some(_), Some(_)) => Detached(home, quarantine, false, Err(StorageFailure))
    case (Some(entry), None) =>
      if Rename in host.faults then Detached(home, None, false, Err(StorageFailure))
      else if !RemovalFails(entry, host) then
        Detached(None, None, true, if entry.Directory? then Ok(()) else Err(IsolationFailure))
      else if CanRollBack(Left(entry, host), host) then Detached(Left(entry, host), None, false, Err(StorageFailure))
      else Detached(None, Left(entry, host), false, Err(StorageFailure))
  }

  /** A failed removal is undone unless nothing visible is left or the second rename fails too. */
  predicate CanRollBack(left: Option<Entry>, host: Host) {
    left.Some? && (left.value.Link? ==> left.value.resolves) && RenameBack !in host.faults
  }

  function ReleaseStep(roots: Roots, t: Table, workspace: WorkspaceIdentity, host: Host): (Table, Released) {
    var id := workspace.workspaceId;
    if id !in t.records then (t, Ok(()))
    else if t.records[id].identity != workspace then (t, Err(Conflict))
    else if ResolveRoot in host.faults then (t, Err(CauseOf(host.faults[ResolveRoot])))
    else
      var home, quarantine := Home(roots.root, id), Quarantine(roots.root, id);
      var d := Detach(At(t.entries, home), At(t.entries, quarantine), host);
      var moved := t.(entries := Put(Put(t.entries, home, d.home), quarantine, d.quarantine));
      (if d.forgotten then Forgotten(moved, workspace) else moved, d.answer)
  }

  // ----------------------------------------------------------------- invariant

  ghost predicate Disjoint(roots: Roots) {
    !IsProtected(roots.root, roots.protectedRoots)
  }

  /** Records and run index are mutual inverses, and each record has the path of its handle. */
  ghost predicate Inverse(roots: Roots, t: Table) {
    && (forall id <- t.records ::
          && t.records[id].identity.workspaceId == id
          && t.records[id].path == Home(roots.root, id)
          && t.records[id].identity.runId in t.runIndex
          && t.runIndex[t.records[id].identity.runId] == id)
    && (forall run <- t.runIndex ::
          && t.runIndex[run] in t.records
          && t.records[t.runIndex[run]].identity.runId == run)
  }

  /** Nothing is left in quarantine once a handle is forgotten. */
  ghost predicate QuarantinesAreOwned(roots: Roots, t: Table) {
    forall id: WorkspaceId :: Quarantine(roots.root, id) in t.entries ==> id in t.records
  }

  ghost predicate Sound(roots: Roots, t: Table) {
    Disjoint(roots) && Inverse(roots, t)
  }

  ghost predicate Valid(roots: Roots, t: Table) {
    Sound(roots, t) && QuarantinesAreOwned(roots, t)
  }

  lemma PublishingKeepsInverse(roots: Roots, t: Table, workspace: WorkspaceIdentity, content: Content, digest: Digest)
    requires Inverse(roots, t)
    requires workspace.workspaceId !in t.records && workspace.runId !in t.runIndex
    ensures Inverse(roots, Published(roots, t, workspace, content, digest))
  {
  }

  lemma PreparedRecords(roots: Roots, t: Table, identity: RunIdentity, id: WorkspaceId, host: Host)
    requires Inverse(roots, t)
    ensures Inverse(roots, PrepareStep(roots, t, identity, id, host).0)
  {
    var (after, answer) := PrepareStep(roots, t, identity, id, host);
    if answer.Ok? {
      PublishingKeepsInverse(roots, t, answer.value, host.baseline, host.baseline.config.value);
    } else {
      assert after.records == t.records && after.runIndex == t.runIndex;
    }
  }

  lemma PreparedQuarantines(roots: Roots, t: Table, identity: RunIdentity, id: WorkspaceId, host: Host)
    requires QuarantinesAreOwned(roots, t)
    requires forall other: WorkspaceId :: Home(roots.root, id) != Quarantine(roots.root, other)
    ensures QuarantinesAreOwned(roots, PrepareStep(roots, t, identity, id, host).0)
  {
  }

  lemma PrepareKeepsValid(roots: Roots, t: Table, identity: RunIdentity, id: WorkspaceId, host: Host)
    requires Sound(roots, t)
    ensures Sound(roots, PrepareStep(roots, t, identity, id, host).0)
    ensures Valid(roots, t) ==> Valid(roots, PrepareStep(roots, t, identity, id, host).0)
  {
    PreparedRecords(roots, t, identity, id, host);
    if Valid(roots, t) {
      forall other: WorkspaceId ensures Home(roots.root, id) != Quarantine(roots.root, other) {
        PathsAreApart(roots.root, id, other);
      }
      PreparedQuarantines(roots, t, identity, id, host);
    }
  }

  lemma ReleasedRecords(roots: Roots, t: Table, workspace: WorkspaceIdentity, host: Host)
    requires Inverse(roots, t)
    ensures Inverse(roots, ReleaseStep(roots, t, workspace, host).0)
  {
  }

  lemma ReleasedQuarantines(roots: Roots, t: Table, workspace: WorkspaceIdentity, host: Host)
    requires QuarantinesAreOwned(roots, t)
    ensures QuarantinesAreOwned(roots, ReleaseStep(roots, t, workspace, host).0)
  {
    var id := workspace.workspaceId;
    forall other: WorkspaceId
      ensures Home(roots.root, id) != Quarantine(roots.root, other)
      ensures id != other ==> Quarantine(roots.root, id) != Quarantine(roots.root, other)
    {
      PathsAreApart(roots.root, id, other);
    }
  }

  lemma ReleaseKeepsValid(roots: Roots, t: Table, workspace: WorkspaceIdentity, host: Host)
    requires Sound(roots, t)
    ensures Sound(roots, ReleaseStep(roots, t, workspace, host).0)
    ensures Valid(roots, t) ==> Valid(roots, ReleaseStep(roots, t, workspace, host).0)
  {
    ReleasedRecords(roots, t, workspace, host);
    if Valid(roots, t) {
      ReleasedQuarantines(roots, t, workspace, host);
    }
  }

  // ------------------------------------------------------------------ adapter

  class LocalGitWorkspace {
    const roots: Roots
    var records: map<WorkspaceId, Record>
    var runIndex: map<RunId, WorkspaceId>
    /** The host file system, which the adapter reaches only through the helpers below. */
    var entries: Entries

    ghost function Contents(): Table
      reads this
    {
      Table(records, runIndex, entries)
    }

    constructor (roots: Roots, entries: Entries)
      requires Disjoint(roots)
      ensures Contents() == Table(map[], map[], entries) && this.roots == roots
      ensures Sound(roots, Contents())
    {
      this.roots, this.entries := roots, entries;
      records, runIndex := map[], map[];
    }

    method PathFor(id: WorkspaceId) returns (path: Result<Path, WorkspaceErrorCause>)
      ensures path == Ok(Home(roots.root, id))
    {
      HandlesAreSegments(roots.root, id);
      var below := Below(roots.root, id);
      if Parent(below) != roots.root {
        return Err(IsolationFailure);
      }
      return Ok(below);
    }

    /** `path.unlink()`. */
    method UnlinkEntry(path: Path, host: Host) returns (failed: bool)
      requires path in entries && !entries[path].Directory?
      modifies this`entries
      ensures failed == RemovalFails(old(entries[path]), host)
      ensures entries == Put(old(entries), path, Left(old(entries[path]), host))
    {
      if Unlink in host.faults {
        assert entries == entries[path := entries[path]];
        return true;
      }
      entries := entries - {path};
      return false;
    }

    /** `shutil.rmtree(path)`. */
    method RemoveDirectory(path: Path, host: Host) returns (failed: bool)
      requires path in entries && entries[path].Directory?
      modifies this`entries
      ensures failed == RemovalFails(old(entries[path]), host)
      ensures entries == Put(old(entries), path, Left(old(entries[path]), host))
    {
      entries := if RemoveTree in host.faults then Put(entries, path, host.remains) else entries - {path};
      return RemoveTree in host.faults;
    }

    method DiscardUnpublished(path: Path, host: Host)
      modifies this`entries
      ensures Parent(path) == roots.root && !IsProtected(path, roots.protectedRoots) && path in old(entries) ==>
                entries == Put(old(entries), path, Left(old(entries)[path], host))
      ensures Parent(path) != roots.root || IsProtected(path, roots.protectedRoots) || path !in old(entries) ==>
                entries == old(entries)
    {
      if Parent(path) != roots.root || IsProtected(path, roots.protectedRoots) {
        return;
      }
      if IsSymlink(entries, path) || (Exists(entries, path) && !entries[path].Directory?) {
        var _ := UnlinkEntry(path, host);
      } else if Exists(entries, path) {
        var _ := RemoveDirectory(path, host);
      }
    }

    method Forget(record: Record)
      modifies this`records, this`runIndex
      ensures Contents() == Forgotten(old(Contents()), record.identity)
    {
      records := records - {record.identity.workspaceId};
      runIndex := runIndex - {record.identity.runId};
    }

    method Prepare(identity: RunIdentity, id: WorkspaceId, host: Host) returns (r: Prepared)
      requires Sound(roots, Contents())
      modifies this
      ensures (Contents(), r) == PrepareStep(roots, old(Contents()), identity, id, host)
      ensures Sound(roots, Contents()) && (old(Valid(roots, Contents())) ==> Valid(roots, Contents()))
    {
      PrepareKeepsValid(roots, Contents(), identity, id, host);
      if ResolveRoot in host.faults {
        return Err(CauseOf(host.faults[ResolveRoot]));
      }
      if identity.runId in runIndex {
        return Err(AlreadyExists);
      }
      var path := PathFor(id);
      if path.Err? {
        return Err(IsolationFailure);
      }
      var destination := path.value;
      if id in records || Exists(entries, destination) || IsSymlink(entries, destination) {
        return Err(AlreadyExists);
      }
      BelowIsUnprotected(roots.root, id, roots.protectedRoots);
      var workspace := WorkspaceIdentity(id, identity.runId, identity.baselineSha);
      if Materialize in host.faults {
        PutAgain(entries, destination, host.debris, if host.debris.Some? then Left(host.debris.value, host) else None);
        entries := Put(entries, destination, host.debris);
        DiscardUnpublished(destination, host);
        return Err(CauseOf(host.faults[Materialize]));
      }
      entries := entries[destination := Directory(host.baseline)];
      PutAgain(old(entries), destination, At(entries, destination), Left(entries[destination], host));
      var digest := InspectClone(destination, host);
      if digest.Err? {
        DiscardUnpublished(destination, host);
        return Err(digest.error);
      }
      records := records[id := Record(workspace, destination, digest.value)];
      runIndex := runIndex[identity.runId := id];
      return Ok(workspace);
    }

    /** What `prepare` asks of a fresh clone before it is published. */
    method InspectClone(path: Path, host: Host) returns (digest: Result<Digest, WorkspaceErrorCause>)
      requires path in entries && entries[path] == Directory(host.baseline) && Materialize !in host.faults
      ensures digest ==
                match Rejection(host)
                case Some(cause) => Err(cause)
                case None => Ok(host.baseline.config.value)
    {
      var links := InspectSymlinks(path, host);
      if links.Some? {
        return Err(links.value);
      }
      digest := ConfigDigest(path, host);
      if digest.Ok? && VerifyBaseline in host.faults {
        return Err(CauseOf(host.faults[VerifyBaseline]));
      }
    }

    method InspectSymlinks(path: Path, host: Host) returns (failure: Option<WorkspaceErrorCause>)
      requires path in entries && entries[path].Directory?
      ensures failure ==
                if InspectLinks in host.faults then Some(CauseOf(host.faults[InspectLinks]))
                else if !entries[path].content.linksStayInside then Some(IsolationFailure)
                else None
    {
      if InspectLinks in host.faults {
        return Some(CauseOf(host.faults[InspectLinks]));
      }
      return if entries[path].content.linksStayInside then None else Some(IsolationFailure);
    }

    method ConfigDigest(path: Path, host: Host) returns (digest: Result<Digest, WorkspaceErrorCause>)
      requires path in entries && entries[path].Directory?
      ensures digest ==
                if entries[path].content.config.None? then Err(IsolationFailure)
                else if ReadConfig in host.faults then Err(CauseOf(host.faults[ReadConfig]))
                else Ok(entries[path].content.config.value)
    {
      match entries[path].content.config {
        case None => return Err(IsolationFailure);
        case Some(digest) =>
          if ReadConfig in host.faults {
            return Err(CauseOf(host.faults[ReadConfig]));
          }
          return Ok(digest);
      }
    }

    method Load(id: WorkspaceId, host: Host) returns (r: Loaded)
      requires Sound(roots, Contents())
      ensures r == LoadStep(Contents(), id, host)
    {
      if id !in records {
        return Ok(None);
      }
      var record := records[id];
      if ResolveRoot in host.faults {
        return Err(CauseOf(host.faults[ResolveRoot]));
      }
      var path := PathFor(record.identity.workspaceId);
      BelowIsUnprotected(roots.root, id, roots.protectedRoots);
      if path.Err? || record.path != path.value {
        return Err(IsolationFailure);
      }
      if IsSymlink(entries, record.path) || record.path !in entries || !entries[record.path].Directory?
         || IsProtected(record.path, roots.protectedRoots)
      {
        return Err(IsolationFailure);
      }
      var links := InspectSymlinks(record.path, host);
      if links.Some? {
        return Err(links.value);
      }
      var digest := ConfigDigest(record.path, host);
      if digest.Err? {
        return Err(digest.error);
      }
      if digest.value != record.configDigest {
        return Err(IsolationFailure);
      }
      if VerifyBaseline in host.faults {
        return Err(CauseOf(host.faults[VerifyBaseline]));
      }
      return Ok(Some(record.identity));
    }

    method Release(workspace: WorkspaceIdentity, host: Host) returns (r: Released)
      requires Sound(roots, Contents())
      modifies this
      ensures (Contents(), r) == ReleaseStep(roots, old(Contents()), workspace, host)
      ensures Sound(roots, Contents()) && (old(Valid(roots, Contents())) ==> Valid(roots, Contents()))
    {
      ReleaseKeepsValid(roots, Contents(), workspace, host);
      if workspace.workspaceId !in records {
        return Ok(());
      }
      var record := records[workspace.workspaceId];
      if record.identity != workspace {
        return Err(Conflict);
      }
      if ResolveRoot in host.faults {
        return Err(CauseOf(host.faults[ResolveRoot]));
      }
      var expected := PathFor(workspace.workspaceId);
      BelowIsUnprotected(roots.root, workspace.workspaceId, roots.protectedRoots);
      if expected.Err? || record.path != expected.value || IsProtected(record.path, roots.protectedRoots) {
        return Err(IsolationFailure);
      }
      HandlesAreSegments(roots.root, workspace.workspaceId);
      PathsAreApart(roots.root, workspace.workspaceId, workspace.workspaceId);
      var quarantine := Below(roots.root, RELEASE_PREFIX + workspace.workspaceId);
      PutAgain(entries, record.path, None, None);
      PutAgain(entries, quarantine, None, None);
      if !Exists(entries, record.path) && !IsSymlink(entries, record.path) {
        r := RecoverQuarantine(record, quarantine, host);
      } else if Exists(entries, quarantine) || IsSymlink(entries, quarantine) {
        r := Err(StorageFailure);
      } else {
        r := DetachAndRemove(record, quarantine, host);
      }
    }

    /** The branch of `release` for a workspace whose directory is already gone. */
    method RecoverQuarantine(record: Record, quarantine: Path, host: Host) returns (r: Released)
      modifies this
      ensures var d := Detach(None, At(old(entries), quarantine), host);
              && r == d.answer
              && entries == Put(old(entries), quarantine, d.quarantine)
              && (records, runIndex) == RecordsAfter(d, old(Contents()), record.identity)
    {
      if Exists(entries, quarantine) || IsSymlink(entries, quarantine) {
        var failed := RemoveEntry(quarantine, host);
        if failed {
          return Err(StorageFailure);
        }
      }
      Forget(record);
      return Ok(());
    }

    /** `source.rename(target)`. */
    method RenameEntry(source: Path, target: Path)
      requires source in entries && target !in entries && source != target
      modifies this`entries
      ensures entries == Put(Put(old(entries), source, None), target, Some(old(entries)[source]))
    {
      entries := (entries - {source})[target := entries[source]];
    }

    /** Unlinks what is not a directory, and removes a directory with all it holds. */
    method RemoveEntry(path: Path, host: Host) returns (failed: bool)
      requires path in entries
      modifies this`entries
      ensures failed == RemovalFails(old(entries[path]), host)
      ensures entries == Put(old(entries), path, Left(old(entries[path]), host))
    {
      if IsSymlink(entries, path) || !entries[path].Directory? {
        failed := UnlinkEntry(path, host);
      } else {
        failed := RemoveDirectory(path, host);
      }
    }

    /** The branch of `release` that renames, inspects and removes an existing entry, and rolls back when that fails. */
    method DetachAndRemove(record: Record, quarantine: Path, host: Host) returns (r: Released)
      requires record.path in entries && quarantine !in entries && record.path != quarantine
      modifies this
      ensures var d := Detach(Some(old(entries)[record.path]), None, host);
              && r == d.answer
              && entries == Put(Put(old(entries), record.path, d.home), quarantine, d.quarantine)
              && (records, runIndex) == RecordsAfter(d, old(Contents()), record.identity)
    {
      if Rename in host.faults {
        return Err(StorageFailure);
      }
      ghost var was := entries;
      ghost var gone := Put(was, record.path, None);
      var entry := entries[record.path];
      RenameEntry(record.path, quarantine);
      var replaced := IsSymlink(entries, quarantine) || !entries[quarantine].Directory?;
      var failed := RemoveEntry(quarantine, host);
      PutAgain(gone, quarantine, Some(entry), Left(entry, host));
      assert entries == Put(gone, quarantine, Left(entry, host));
      if failed {
        if Exists(entries, quarantine) && !Exists(entries, record.path) && RenameBack !in host.faults {
          PutElsewhere(was, record.path, Left(entry, host), quarantine, None);
          RenameEntry(quarantine, record.path);
          PutAgain(gone, quarantine, Left(entry, host), None);
          assert entries == Put(Put(was, record.path, Left(entry, host)), quarantine, None);
        }
        return Err(StorageFailure);
      }
      Forget(record);
      return if replaced then Err(IsolationFailure) else Ok(());
    }
  }

  datatype ConfigurationError = NotARealDirectory | RootOverlapsProtectedRoot

  /** What the host says about a configured path: its resolution, if it exists, and whether that is a directory. */
  datatype ConfiguredPath = ConfiguredPath(isAbsolute: bool, isSymlink: bool, resolved: Option<Path>, isDirectory: bool)

  /** `_resolve_directory`. */
  function ResolveDirectory(p: ConfiguredPath): Result<Path, ConfigurationError> {
    if !p.isAbsolute || p.isSymlink then Err(NotARealDirectory)
    else match p.resolved
      case None => Err(NotARealDirectory)
      case Some(path) => if p.isDirectory then Ok(path) else Err(NotARealDirectory)
  }

  predicate IsRealDirectory(p: ConfiguredPath) {
    p.isAbsolute && !p.isSymlink && p.resolved.Some? && p.isDirectory
  }

  predicate AreRealDirectories(ps: seq<ConfiguredPath>) {
    forall i | 0 <= i < |ps| :: IsRealDirectory(ps[i])
  }

  function Resolutions(ps: seq<ConfiguredPath>): (paths: seq<Path>)
    requires AreRealDirectories(ps)
  {
    seq(|ps|, i requires 0 <= i < |ps| => ps[i].resolved.value)
  }

  /** Resolves the configured directories, up to the first that is not a real directory. */
  method ResolveAll(ps: seq<ConfiguredPath>) returns (r: Result<seq<Path>, ConfigurationError>)
    ensures r.Ok? <==> AreRealDirectories(ps)
    ensures r.Ok? ==> r.value == Resolutions(ps)
    ensures r.Err? ==> r.error == NotARealDirectory
  {
    var paths: seq<Path> := [];
    var i := 0;
    while i < |ps|
      invariant 0 <= i <= |ps| && |paths| == i
      invariant forall k | 0 <= k < i :: IsRealDirectory(ps[k]) && paths[k] == ps[k].resolved.value
    {
      var resolved := ResolveDirectory(ps[i]);
      if resolved.Err? {
        return Err(resolved.error);
      }
      paths := paths + [resolved.value];
      i := i + 1;
    }
    return Ok(paths);
  }

  /**
   The checks of `__init__`: every configured path must be a real directory, the
   source repository is protected too, and the root must overlap nothing protected.
   */
  method Open(source: ConfiguredPath, root: ConfiguredPath, protectedRoots: seq<ConfiguredPath>, entries: Entries)
    returns (r: Result<LocalGitWorkspace, ConfigurationError>)
    ensures if IsRealDirectory(source) && IsRealDirectory(root) && AreRealDirectories(protectedRoots) then
              var all := [source.resolved.value] + Resolutions(protectedRoots);
              && (r.Ok? <==> forall p <- all :: !(p <= root.resolved.value) && !(root.resolved.value <= p))
              && (r.Err? ==> r.error == RootOverlapsProtectedRoot)
              && (r.Ok? ==> fresh(r.value) && r.value.roots == Roots(root.resolved.value, all))
              && (r.Ok? ==> r.value.Contents() == Table(map[], map[], entries))
              && (r.Ok? ==> Sound(r.value.roots, r.value.Contents()))
            else
              r == Err(NotARealDirectory)
  {
    var resolvedSource := ResolveDirectory(source);
    if resolvedSource.Err? {
      return Err(resolvedSource.error);
    }
    var resolvedRoot := ResolveDirectory(root);
    if resolvedRoot.Err? {
      return Err(resolvedRoot.error);
    }
    var resolved := ResolveAll(protectedRoots);
    if resolved.Err? {
      return Err(resolved.error);
    }
    var all := [resolvedSource.value] + resolved.value;
    var i := 0;
    while i < |all|
      invariant 0 <= i <= |all|
      invariant forall k | 0 <= k < i :: !Overlaps(resolvedRoot.value, all[k])
    {
      OverlapsExact(resolvedRoot.value, all[i]);
      if Overlaps(resolvedRoot.value, all[i]) {
        var p :| AtOrBelow(p, resolvedRoot.value) && AtOrBelow(p, all[i]);
        assert all[i] in all;
        return Err(RootOverlapsProtectedRoot);
      }
      i := i + 1;
    }
    ProtectedExact(resolvedRoot.value, all);
    var adapter := new LocalGitWorkspace(Roots(resolvedRoot.value, all), entries);
    return Ok(adapter);
  }

  ghost function RecordsAfter(d: Detached, t: Table, identity: WorkspaceIdentity)
    : (map<WorkspaceId, Record>, map<RunId, WorkspaceId>)
  {
    var after := if d.forgotten then Forgotten(t, identity) else t;
    (after.records, after.runIndex)
  }
}
