/**
 Capability sets (core/src/capabilities.rs) and the contexts that hold, revoke and delegate
 them (runtime/src/runtime/capability_ctx.rs).
 */
module Capabilities {
  import opened Prelude

  /** A file path as its components. */
  type Path = seq<string>

  datatype FsMode = FsMode(read: bool, write: bool, create: bool, delete: bool)

  datatype Capability =
    | Filesystem(allowedRoots: seq<Path>, mode: FsMode)
    | Network(allowedHosts: seq<string>, allowOutbound: bool, allowInbound: bool)
    | Subprocess(allowedExecutables: seq<string>)
    | EnvRead(allowedKeys: seq<string>)
    | AgentSpawn
    | Unrestricted

  datatype Permission =
    | ReadPath(path: Path)
    | WritePath(path: Path)
    | Connect(host: string)
    | Execute(exe: string)
    | ReadEnv(key: string)
    | Spawn

  datatype CapabilitySet = CapabilitySet(caps: set<Capability>, generation: nat) {

    /** Whether some granted capability satisfies the permission. */
    predicate Check(p: Permission) {
      Unrestricted in caps || exists c :: c in caps && Covers(c, p)
    }

    function Granted(c: Capability): CapabilitySet {
      this.(caps := caps + {c})
    }

    /** Revoking what is not held changes nothing, not even the generation. */
    function Revoked(c: Capability): CapabilitySet {
      if c in caps then CapabilitySet(caps - {c}, generation + 1) else this
    }

    function AllRevoked(): CapabilitySet {
      CapabilitySet({}, generation + 1)
    }
  }

  const NO_CAPABILITIES := CapabilitySet({}, 0)

  predicate StartsWith(path: Path, root: Path) {
    root <= path
  }

  predicate EndsWith(s: string, suffix: string) {
    |suffix| <= |s| && s[|s| - |suffix|..] == suffix
  }

  predicate HostMatches(pattern: string, host: string) {
    if pattern == "*" then true
    else if "*." <= pattern then
      var suffix := pattern[2..];
      host == suffix || EndsWith(host, "." + suffix)
    else pattern == host
  }

  predicate Covers(c: Capability, p: Permission) {
    match p
    case ReadPath(path) =>
      c.Filesystem? && c.mode.read && exists root :: root in c.allowedRoots && StartsWith(path, root)
    case WritePath(path) =>
      c.Filesystem? && c.mode.write && exists root :: root in c.allowedRoots && StartsWith(path, root)
    case Connect(host) =>
      c.Network? && c.allowOutbound && exists h :: h in c.allowedHosts && HostMatches(h, host)
    case Execute(exe) =>
      c.Subprocess? && (exe in c.allowedExecutables || "*" in c.allowedExecutables)
    case ReadEnv(key) =>
      c.EnvRead? && (c.allowedKeys == [] || key in c.allowedKeys)
    case Spawn => c.AgentSpawn?
  }

  /** `*.d` matches `d` itself and the names that end in a dot followed by `d`, and nothing else. */
  lemma WildcardMatchesSubdomains(domain: string, host: string)
    ensures HostMatches("*." + domain, host) <==>
      host == domain || exists sub: string :: host == sub + "." + domain
  {
    var suffix := "." + domain;
    assert ("*." + domain)[2..] == domain;
    if EndsWith(host, suffix) {
      var sub := host[..|host| - |suffix|];
      assert host == sub + "." + domain;
    }
    if sub: string :| host == sub + "." + domain {
      assert host[|host| - |suffix|..] == suffix;
    }
  }

  lemma CheckIsMonotone(s: CapabilitySet, t: CapabilitySet, p: Permission)
    requires s.caps <= t.caps
    ensures s.Check(p) ==> t.Check(p)
  {
    if !(Unrestricted in s.caps) && s.Check(p) {
      var c :| c in s.caps && Covers(c, p);
      assert c in t.caps;
    }
  }

  /** What a pattern matches: everything, a domain with its subdomains, or one name. */
  lemma HostMatchesIff(pattern: string, host: string)
    ensures pattern == "*" ==> HostMatches(pattern, host)
    ensures pattern != "*" && !("*." <= pattern) ==> (HostMatches(pattern, host) <==> host == pattern)
  {
  }

  /** What it takes to have each permission, when not unrestricted. */
  lemma CheckIff(s: CapabilitySet, path: Path, name: string)
    requires Unrestricted !in s.caps
    ensures s.Check(ReadPath(path)) <==> exists roots, mode, root ::
      Filesystem(roots, mode) in s.caps && mode.read && root in roots && root <= path
    ensures s.Check(WritePath(path)) <==> exists roots, mode, root ::
      Filesystem(roots, mode) in s.caps && mode.write && root in roots && root <= path
    ensures s.Check(Connect(name)) <==> exists hosts, inbound, pattern ::
      Network(hosts, true, inbound) in s.caps && pattern in hosts && HostMatches(pattern, name)
    ensures s.Check(Execute(name)) <==> exists names ::
      Subprocess(names) in s.caps && (name in names || "*" in names)
    ensures s.Check(ReadEnv(name)) <==> exists keys ::
      EnvRead(keys) in s.caps && (name in keys || keys == [])
    ensures s.Check(Spawn) <==> AgentSpawn in s.caps
  {
    FileCheckIff(s, path);
    NameCheckIff(s, name);
  }

  lemma FileCheckIff(s: CapabilitySet, path: Path)
    requires Unrestricted !in s.caps
    ensures s.Check(ReadPath(path)) <==> exists roots, mode, root ::
      Filesystem(roots, mode) in s.caps && mode.read && root in roots && root <= path
    ensures s.Check(WritePath(path)) <==> exists roots, mode, root ::
      Filesystem(roots, mode) in s.caps && mode.write && root in roots && root <= path
  {
    forall roots, mode, root | Filesystem(roots, mode) in s.caps && root in roots && root <= path
      ensures mode.read ==> s.Check(ReadPath(path))
      ensures mode.write ==> s.Check(WritePath(path))
    {
      assert StartsWith(path, root);
      assert mode.read ==> Covers(Filesystem(roots, mode), ReadPath(path));
      assert mode.write ==> Covers(Filesystem(roots, mode), WritePath(path));
    }
    if s.Check(ReadPath(path)) {
      var c :| c in s.caps && Covers(c, ReadPath(path));
      var root :| root in c.allowedRoots && StartsWith(path, root);
      assert Filesystem(c.allowedRoots, c.mode) in s.caps;
    }
    if s.Check(WritePath(path)) {
      var c :| c in s.caps && Covers(c, WritePath(path));
      var root :| root in c.allowedRoots && StartsWith(path, root);
      assert Filesystem(c.allowedRoots, c.mode) in s.caps;
    }
  }

  lemma NameCheckIff(s: CapabilitySet, name: string)
    requires Unrestricted !in s.caps
    ensures s.Check(Connect(name)) <==> exists hosts, inbound, pattern ::
      Network(hosts, true, inbound) in s.caps && pattern in hosts && HostMatches(pattern, name)
    ensures s.Check(Execute(name)) <==> exists names ::
      Subprocess(names) in s.caps && (name in names || "*" in names)
    ensures s.Check(ReadEnv(name)) <==> exists keys ::
      EnvRead(keys) in s.caps && (name in keys || keys == [])
    ensures s.Check(Spawn) <==> AgentSpawn in s.caps
  {
    forall hosts, inbound, pattern | Network(hosts, true, inbound) in s.caps && pattern in hosts && HostMatches(pattern, name)
      ensures s.Check(Connect(name))
    {
      assert Covers(Network(hosts, true, inbound), Connect(name));
    }
    forall names | Subprocess(names) in s.caps && (name in names || "*" in names) ensures s.Check(Execute(name)) {
      assert Covers(Subprocess(names), Execute(name));
    }
    forall keys | EnvRead(keys) in s.caps && (name in keys || keys == []) ensures s.Check(ReadEnv(name)) {
      assert Covers(EnvRead(keys), ReadEnv(name));
    }
    assert AgentSpawn in s.caps ==> Covers(AgentSpawn, Spawn);
    if s.Check(Connect(name)) {
      var c :| c in s.caps && Covers(c, Connect(name));
      assert Network(c.allowedHosts, true, c.allowInbound) in s.caps;
    }
    if s.Check(Execute(name)) {
      var c :| c in s.caps && Covers(c, Execute(name));
      assert Subprocess(c.allowedExecutables) in s.caps;
    }
    if s.Check(ReadEnv(name)) {
      var c :| c in s.caps && Covers(c, ReadEnv(name));
      assert EnvRead(c.allowedKeys) in s.caps;
    }
  }

  // ---------- Delegation ----------

  /** What a child gets: everything it asks for if the parent may spawn, else the common part. */
  function DerivedSet(parent: CapabilitySet, requested: CapabilitySet): CapabilitySet {
    CapabilitySet(set c | c in requested.caps && (c in parent.caps || parent.Check(Spawn)), 0)
  }

  datatype AuditEntry = AuditEntry(permission: Permission, granted: bool, timestampUs: nat)

  datatype DenyReason = PermissionDenied(permission: Permission)

  /** A context shared by the threads of one agent; each method runs under its lock. */
  class CapabilityContext {
    var caps: CapabilitySet
    var auditLog: seq<AuditEntry>
    var auditEnabled: bool

    constructor (initial: CapabilitySet)
      ensures caps == initial && auditLog == [] && auditEnabled
    {
      caps := initial;
      auditLog := [];
      auditEnabled := true;
    }

    /** Every check is logged while auditing is on, whatever its outcome. */
    method Require(p: Permission, nowUs: nat) returns (r: Result<(), DenyReason>)
      modifies this`auditLog
      ensures r == if caps.Check(p) then Success(()) else Failure(PermissionDenied(p))
      ensures auditLog == old(auditLog) +
        if auditEnabled then [AuditEntry(p, caps.Check(p), nowUs)] else []
    {
      var granted := caps.Check(p);
      if auditEnabled {
        auditLog := auditLog + [AuditEntry(p, granted, nowUs)];
      }
      if granted {
        r := Success(());
      } else {
        r := Failure(PermissionDenied(p));
      }
    }

    method Grant(c: Capability)
      modifies this`caps
      ensures caps == old(caps).Granted(c)
      ensures caps.caps == old(caps).caps + {c} && caps.generation == old(caps).generation
    {
      caps := caps.(caps := caps.caps + {c});
    }

    method Revoke(c: Capability) returns (removed: bool)
      modifies this`caps
      ensures removed == (c in old(caps).caps)
      ensures caps == old(caps).Revoked(c)
      ensures caps.caps == old(caps).caps - {c}
      ensures caps.generation == old(caps).generation + if removed then 1 else 0
    {
      removed := c in caps.caps;
      caps := caps.(caps := caps.caps - {c});
      if removed {
        caps := caps.(generation := caps.generation + 1);
      }
      assert !removed ==> caps.caps == old(caps).caps;
    }

    method RevokeAll()
      modifies this`caps
      ensures caps == old(caps).AllRevoked()
      ensures caps.caps == {} && caps.generation == old(caps).generation + 1
    {
      caps := CapabilitySet({}, caps.generation + 1);
    }

    method DeriveChild(requested: CapabilitySet) returns (child: CapabilityContext)
      ensures fresh(child) && child.caps == DerivedSet(caps, requested)
      ensures child.caps.caps == if caps.Check(Spawn) then requested.caps else requested.caps * caps.caps
      ensures child.auditLog == [] && child.auditEnabled
    {
      var filtered := set c | c in requested.caps && (c in caps.caps || caps.Check(Spawn));
      var restricted := NO_CAPABILITIES;
      var left := filtered;
      while left != {}
        invariant left <= filtered
        invariant restricted == CapabilitySet(filtered - left, 0)
      {
        var c :| c in left;
        restricted := restricted.Granted(c);
        left := left - {c};
      }
      child := new CapabilityContext(restricted);
    }
  }

  // ---------- Whole runs over a family of contexts ----------

  datatype Step =
    | DeriveFrom(ctx: nat, requested: CapabilitySet)
    | RevokeIn(ctx: nat, cap: Capability)
    | RevokeAllIn(ctx: nat)

  /** The contexts after a step; a step on a context that does not exist does nothing. */
  function Apply(contexts: seq<CapabilitySet>, step: Step): seq<CapabilitySet> {
    if step.ctx >= |contexts| then contexts
    else
      match step
      case DeriveFrom(i, requested) => contexts + [DerivedSet(contexts[i], requested)]
      case RevokeIn(i, c) => contexts[i := contexts[i].Revoked(c)]
      case RevokeAllIn(i) => contexts[i := contexts[i].AllRevoked()]
  }

  /** Contexts are numbered in order of creation; the root is number 0. */
  function After(root: CapabilitySet, steps: seq<Step>): seq<CapabilitySet> {
    if |steps| == 0 then [root] else Apply(After(root, steps[..|steps| - 1]), steps[|steps| - 1])
  }

  /** Some run of derivations and revocations from `root` reaches a context that has `p`. */
  ghost predicate Obtainable(root: CapabilitySet, p: Permission) {
    exists steps, i :: 0 <= i < |After(root, steps)| && After(root, steps)[i].Check(p)
  }

  /** A child gets all it asks for from a parent that may spawn, and else what it asks for that the parent has. */
  lemma DerivedIff(parent: CapabilitySet, requested: CapabilitySet, c: Capability)
    ensures c in DerivedSet(parent, requested).caps <==>
      c in requested.caps && (c in parent.caps || Unrestricted in parent.caps || AgentSpawn in parent.caps)
  {
    assert Covers(AgentSpawn, Spawn);
  }

  /** A step changes one context, or adds one; revoking takes away the capability named and no other. */
  lemma StepsAreLocal(contexts: seq<CapabilitySet>, step: Step, i: nat)
    requires step.ctx < |contexts| && i < |contexts|
    ensures i < |Apply(contexts, step)| && (step.DeriveFrom? || i != step.ctx ==> Apply(contexts, step)[i] == contexts[i])
    ensures step.RevokeIn? && i == step.ctx ==> Apply(contexts, step)[i].caps == contexts[i].caps - {step.cap}
    ensures step.RevokeAllIn? && i == step.ctx ==> Apply(contexts, step)[i].caps == {}
    ensures |Apply(contexts, step)| == |contexts| + if step.DeriveFrom? then 1 else 0
  {
  }

  lemma DerivedWithin(parent: CapabilitySet, requested: CapabilitySet)
    requires !parent.Check(Spawn)
    ensures DerivedSet(parent, requested).caps <= parent.caps
  {
  }

  /** Without the right to spawn, no descendant at any depth ever holds what the root did not. */
  lemma {:induction false} DescendantsStayWithin(root: CapabilitySet, steps: seq<Step>)
    requires !root.Check(Spawn)
    ensures forall i :: 0 <= i < |After(root, steps)| ==> After(root, steps)[i].caps <= root.caps
  {
    if |steps| > 0 {
      var before, step := After(root, steps[..|steps| - 1]), steps[|steps| - 1];
      DescendantsStayWithin(root, steps[..|steps| - 1]);
      if step.DeriveFrom? && step.ctx < |before| {
        CheckIsMonotone(before[step.ctx], root, Spawn);
        DerivedWithin(before[step.ctx], step.requested);
      }
    }
  }

  /** The documentation says a child never exceeds its parent: this parent's child does. */
  lemma SpawnRightOverridesTheFilter()
    ensures
      var parent := CapabilitySet({AgentSpawn}, 0);
      var etc := Filesystem([["/", "etc"]], FsMode(true, false, false, false));
      var child := DerivedSet(parent, CapabilitySet({etc}, 0));
      child.Check(ReadPath(["/", "etc", "passwd"])) && !parent.Check(ReadPath(["/", "etc", "passwd"]))
  {
    var etc := Filesystem([["/", "etc"]], FsMode(true, false, false, false));
    assert Covers(AgentSpawn, Spawn);
    assert ["/", "etc"] in etc.allowedRoots && StartsWith(["/", "etc", "passwd"], ["/", "etc"]);
    assert Covers(etc, ReadPath(["/", "etc", "passwd"]));
    assert etc in DerivedSet(CapabilitySet({AgentSpawn}, 0), CapabilitySet({etc}, 0)).caps;
  }

  /** A permission the root lacks is within a descendant's reach exactly when the root may spawn. */
  lemma ObtainableIff(root: CapabilitySet, p: Permission)
    ensures Obtainable(root, p) <==> root.Check(p) || AgentSpawn in root.caps
  {
    if root.Check(p) {
      assert After(root, [])[0].Check(p);
    }
    if AgentSpawn in root.caps {
      assert Covers(AgentSpawn, Spawn);
      var steps := [DeriveFrom(0, CapabilitySet({Unrestricted}, 0))];
      assert steps[..0] == [] && After(root, []) == [root];
      assert After(root, steps) == Apply([root], steps[0]);
      assert Unrestricted in After(root, steps)[1].caps;
      assert After(root, steps)[1].Check(p);
    }
    if Obtainable(root, p) && AgentSpawn !in root.caps && Unrestricted !in root.caps {
      var steps, i :| 0 <= i < |After(root, steps)| && After(root, steps)[i].Check(p);
      DescendantsStayWithin(root, steps);
      CheckIsMonotone(After(root, steps)[i], root, p);
    }
  }
}
