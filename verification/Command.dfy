/** Values of controlled command execution, and the exact language of working directories. */
module Command {
  import opened Results
  import opened Order
  import opened Timestamp
  import opened Identity
  import opened Utf8

  // ------------------------------------------------------------- path strings

  /** `str.split("/")`. */
  function Split(s: string): (parts: seq<string>)
    ensures parts != []
  {
    if s == "" then [""]
    else if s[0] == '/' then [""] + Split(s[1..])
    else
      var rest := Split(s[1..]);
      [[s[0]] + rest[0]] + rest[1..]
  }

  /** `"/".join(parts)`. */
  function Join(parts: seq<string>): string {
    if parts == [] then "" else if |parts| == 1 then parts[0] else parts[0] + "/" + Join(parts[1..])
  }

  /** The segments that `PurePosixPath` keeps. */
  function KeepSegments(parts: seq<string>): seq<string> {
    if parts == [] then []
    else if parts[0] == "" || parts[0] == "." then KeepSegments(parts[1..])
    else [parts[0]] + KeepSegments(parts[1..])
  }

  function PathParts(s: string): seq<string> {
    KeepSegments(Split(s))
  }

  predicate IsAbsolute(s: string) {
    s != "" && s[0] == '/'
  }

  /** `PurePosixPath(s).as_posix()` of a relative path. */
  function AsPosix(s: string): string
    requires !IsAbsolute(s)
  {
    if PathParts(s) == [] then "." else Join(PathParts(s))
  }

  /** The check of `WorkingDirectory.__post_init__`. */
  predicate AcceptsDirectory(s: string) {
    || s == "."
    || (&& s != ""
        && (0 as char) !in s
        && '\\' !in s
        && !IsAbsolute(s)
        && AsPosix(s) == s
        && "." !in PathParts(s) && ".." !in PathParts(s))
  }

  /** One path segment that names an entry below its parent. */
  predicate IsCleanSegment(p: string) {
    p != "" && p != "." && p != ".." && '/' !in p && '\\' !in p && (0 as char) !in p
  }

  ghost predicate AreClean(parts: seq<string>) {
    parts != [] && forall i | 0 <= i < |parts| :: IsCleanSegment(parts[i])
  }

  lemma {:induction false} JoinSplit(s: string)
    ensures Join(Split(s)) == s
  {
    if s != "" {
      JoinSplit(s[1..]);
      var rest := Split(s[1..]);
      assert s == [s[0]] + s[1..];
      if s[0] == '/' {
        assert ([""] + rest)[1..] == rest;
      } else {
        assert ([[s[0]] + rest[0]] + rest[1..])[1..] == rest[1..];
        if |rest| > 1 {
          assert [s[0]] + (rest[0] + "/" + Join(rest[1..])) == [s[0]] + rest[0] + "/" + Join(rest[1..]);
        }
      }
    }
  }

  lemma {:induction false} SplitSegment(p: string, rest: string)
    requires '/' !in p && (rest == "" || rest[0] == '/')
    ensures Split(p + rest) == if rest == "" then [p] else [p] + Split(rest[1..])
  {
    if p == "" {
      assert p + rest == rest;
    } else {
      assert (p + rest)[1..] == p[1..] + rest;
      SplitSegment(p[1..], rest);
      assert p == [p[0]] + p[1..];
    }
  }

  lemma {:induction false} SplitJoin(parts: seq<string>)
    requires parts != [] && forall i | 0 <= i < |parts| :: '/' !in parts[i]
    ensures Split(Join(parts)) == parts
  {
    if |parts| == 1 {
      SplitSegment(parts[0], "");
      assert parts[0] + "" == parts[0];
    } else {
      SplitJoin(parts[1..]);
      SplitSegment(parts[0], "/" + Join(parts[1..]));
      assert ("/" + Join(parts[1..]))[1..] == Join(parts[1..]);
      assert parts[0] + ("/" + Join(parts[1..])) == Join(parts);
    }
  }

  lemma {:induction false} SegmentsHaveNoSlash(s: string)
    ensures forall p | p in Split(s) :: '/' !in p && forall c | c in p :: c in s
  {
    if s != "" {
      var rest := Split(s[1..]);
      SegmentsHaveNoSlash(s[1..]);
      assert s == [s[0]] + s[1..];
      forall p | p in Split(s) ensures '/' !in p && forall c | c in p :: c in s {
        if s[0] != '/' && p == [s[0]] + rest[0] {
          assert rest[0] in rest;
        } else if p != "" {
          assert p in rest;
        }
      }
    }
  }

  lemma {:induction false} KeptSegments(parts: seq<string>)
    ensures forall p | p in KeepSegments(parts) :: p in parts && p != "" && p != "."
    ensures (forall p | p in parts :: p != "" && p != ".") ==> KeepSegments(parts) == parts
  {
    if parts != [] {
      KeptSegments(parts[1..]);
      assert parts == [parts[0]] + parts[1..];
      assert parts[0] in parts && forall p | p in parts[1..] :: p in parts;
    }
  }

  lemma {:induction false} JoinCharacters(parts: seq<string>, c: char)
    requires c != '/' && forall i | 0 <= i < |parts| :: c !in parts[i]
    ensures c !in Join(parts)
  {
    if |parts| > 1 {
      JoinCharacters(parts[1..], c);
    }
  }

  lemma AcceptedPartsAreClean(s: string)
    requires AcceptsDirectory(s) && s != "."
    ensures AreClean(PathParts(s)) && s == Join(PathParts(s))
  {
    KeptSegments(Split(s));
    SegmentsHaveNoSlash(s);
    forall i | 0 <= i < |PathParts(s)| ensures IsCleanSegment(PathParts(s)[i]) {
      assert PathParts(s)[i] in PathParts(s);
    }
  }

  lemma CleanPartsAreAccepted(parts: seq<string>)
    requires AreClean(parts)
    ensures AcceptsDirectory(Join(parts)) && Join(parts) != "." && PathParts(Join(parts)) == parts
  {
    SplitJoin(parts);
    assert forall p | p in parts :: IsCleanSegment(p);
    KeptSegments(parts);
    JoinCharacters(parts, 0 as char);
    JoinCharacters(parts, '\\');
    assert Join(parts)[0] == parts[0][0] && parts[0][0] in parts[0];
    assert |parts| > 1 ==> '/' == Join(parts)[|parts[0]|];
  }

  /** A working directory is "." or the join of clean segments, and nothing else. */
  lemma WorkingDirectoryExact(s: string)
    ensures AcceptsDirectory(s) <==> s == "." || exists parts :: AreClean(parts) && s == Join(parts)
  {
    if AcceptsDirectory(s) && s != "." {
      AcceptedPartsAreClean(s);
    }
    if parts :| AreClean(parts) && s == Join(parts) {
      CleanPartsAreAccepted(parts);
    }
  }

  /** Lexical resolution: "." stays, ".." climbs, any other segment descends. */
  function Resolve(path: seq<string>): seq<string> {
    if path == [] then []
    else
      var parent := Resolve(path[..|path| - 1]);
      var last := path[|path| - 1];
      if last == "." || last == "" then parent
      else if last == ".." then (if parent == [] then [] else parent[..|parent| - 1])
      else parent + [last]
  }

  /** Climbing undoes one descent, stops at the top, and staying changes nothing. */
  lemma ResolveClimbs(path: seq<string>, name: string)
    ensures IsCleanSegment(name) ==> Resolve(path + [name, ".."]) == Resolve(path)
    ensures Resolve(path) == [] ==> Resolve(path + [".."]) == []
    ensures Resolve(path + ["."]) == Resolve(path)
  {
    assert (path + [name, ".."])[..|path| + 1] == path + [name];
    assert (path + [name])[..|path|] == path;
    assert (path + [".."])[..|path|] == path && (path + ["."])[..|path|] == path;
  }

  /** The segments by which the local executor descends from a workspace root. */
  function DescentParts(s: string): seq<string> {
    if s == "." then [] else PathParts(s)
  }

  lemma {:induction false} CleanDescent(root: seq<string>, parts: seq<string>)
    requires forall i | 0 <= i < |parts| :: IsCleanSegment(parts[i])
    ensures Resolve(root + parts) == Resolve(root) + parts
  {
    if parts == [] {
      assert root + parts == root;
    } else {
      var n := |parts| - 1;
      CleanDescent(root, parts[..n]);
      assert (root + parts)[..|root + parts| - 1] == root + parts[..n];
      assert parts == parts[..n] + [parts[n]];
    }
  }

  /** Splitting an accepted directory recovers its segments, and appending them to any root stays under that root. */
  lemma WorkingDirectoryStaysBelow(root: seq<string>, s: string)
    requires AcceptsDirectory(s)
    ensures Resolve(root + DescentParts(s)) == Resolve(root) + DescentParts(s)
    ensures Resolve(root) <= Resolve(root + DescentParts(s))
    ensures s == if DescentParts(s) == [] then "." else Join(DescentParts(s))
  {
    if s != "." {
      AcceptedPartsAreClean(s);
    }
    CleanDescent(root, DescentParts(s));
  }

  // ------------------------------------------------------------------ requests

  type WorkingDirectory = s: string | AcceptsDirectory(s) witness "."

  predicate IsActionName(s: string) {
    1 <= |s| <= 128 && forall i | 0 <= i < |s| :: IsActionChar(s, i)
  }

  predicate IsActionChar(s: string, i: nat)
    requires i < |s|
  {
    IsAlphanumeric(s[i]) || (i > 0 && (IsNameTail(s[i]) || s[i] == ':'))
  }

  predicate IsVariableName(s: string) {
    s != "" && forall i | 0 <= i < |s| :: IsVariableChar(s, i)
  }

  predicate IsVariableChar(s: string, i: nat)
    requires i < |s|
  {
    IsLower(s[i]) || 'A' <= s[i] <= 'Z' || s[i] == '_' || (i > 0 && '0' <= s[i] <= '9')
  }

  predicate HasNoNul(s: string) { (0 as char) !in s }

  type CommandAction = s: string | IsActionName(s) witness "a"
  type ExecutableId = s: string | IsComponentName(s) witness "a"
  type Argument = s: string | HasNoNul(s) witness ""
  type VariableName = s: string | IsVariableName(s) witness "A"

  datatype EnvironmentVariable = EnvironmentVariable(name: VariableName, value: Argument)

  datatype NetworkPolicy = DenyAll

  type pos = n: int | 0 < n witness 1

  datatype CommandLimits = CommandLimits(
    timeoutMs: pos, terminationGraceMs: pos, stdoutMaxBytes: pos, stderrMaxBytes: pos)

  type WorkspaceId = s: string | IsSafeId(s) witness "w"

  datatype WorkspaceIdentity = WorkspaceIdentity(workspaceId: WorkspaceId, runId: RunId, baselineSha: BaselineSha)

  datatype CommandRequest = CommandRequest(
    runIdentity: RunIdentity,
    workspace: WorkspaceIdentity,
    action: CommandAction,
    executable: ExecutableId,
    arguments: seq<Argument>,
    workingDirectory: WorkingDirectory,
    environment: seq<EnvironmentVariable>,
    networkPolicy: NetworkPolicy,
    limits: CommandLimits)

  function Names(environment: seq<EnvironmentVariable>): (names: seq<string>)
    ensures |names| == |environment|
  {
    seq(|environment|, i requires 0 <= i < |environment| => environment[i].name)
  }

  predicate WorkspaceMatches(r: CommandRequest) {
    r.workspace.runId == r.runIdentity.runId && r.workspace.baselineSha == r.runIdentity.baselineSha
  }

  /** `CommandRequest.__post_init__`, as it is written: the names equal their sorting and none is repeated. */
  ghost predicate AcceptsRequest(r: CommandRequest) {
    WorkspaceMatches(r) && UniqueAndSorted(KeysOf(Names(r.environment), Text))
  }

  /**
   A request binds its workspace to its run, and its environment gives each variable one value,
   in ascending order.
   */
  ghost predicate IsRequest(r: CommandRequest) {
    && r.runIdentity.runId == r.workspace.runId
    && r.runIdentity.baselineSha == r.workspace.baselineSha
    && forall i, j | 0 <= i < j < |r.environment| :: Less(Text(r.environment[i].name), Text(r.environment[j].name))
  }

  lemma RequestCheckExact(r: CommandRequest)
    ensures AcceptsRequest(r) <==> IsRequest(r)
  {
    var names := Names(r.environment);
    SortedByKeyExact(names, Text);
    if IsRequest(r) {
      assert StrictlySorted(names, Text);
    }
    if StrictlySorted(names, Text) {
      forall i, j | 0 <= i < j < |r.environment|
        ensures Less(Text(r.environment[i].name), Text(r.environment[j].name))
      {
        assert Less(Text(names[i]), Text(names[j]));
      }
    }
  }

  /** So no accepted request sets a variable twice. */
  lemma VariablesAreDistinct(r: CommandRequest, i: nat, j: nat)
    requires AcceptsRequest(r) && i < j < |r.environment|
    ensures r.environment[i].name != r.environment[j].name
  {
    RequestCheckExact(r);
    LessIrreflexive(Text(r.environment[i].name));
  }

  // ------------------------------------------------------------------- results

  datatype ExecutionTermination = Exited | TimedOut | Cancelled | OutputLimit

  datatype ExecutionResult = ExecutionResult(
    request: CommandRequest,
    termination: ExecutionTermination,
    exitCode: Option<int>,
    stdout: Bytes,
    stderr: Bytes,
    startedAt: Instant,
    finishedAt: Instant)

  /** `ExecutionResult.__post_init__`. */
  predicate IsResult(r: ExecutionResult) {
    && (r.termination.Exited? <==> r.exitCode.Some?)
    && |r.stdout| <= r.request.limits.stdoutMaxBytes
    && |r.stderr| <= r.request.limits.stderrMaxBytes
    && !Before(r.finishedAt, r.startedAt)
  }
}
