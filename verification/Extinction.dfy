/**
 Descendant extinction: resolve what a launch owns, freeze and kill it, and confirm that nothing is
 left while its processes keep forking and exiting (internal/containment/descendants.go).
 */
module Extinction {
  import opened Results

  // ---- the kernel's side

  /**
   Live processes, the cgroup of each process that has one, removed cgroup directories, the members of
   the PID namespace with their init, and process groups.
   */
  datatype World = World(procs: set<int>, cgroup: map<int, string>, removed: set<string>, ns: set<int>, init: int,
                         group: map<int, int>)

  function Members(w: World, cg: string): set<int> {
    set p | p in w.cgroup && w.cgroup[p] == cg
  }

  predicate Consistent(w: World) {
    && w.cgroup.Keys <= w.procs && w.ns <= w.procs && w.group.Keys <= w.procs
    && (w.init !in w.ns ==> w.ns == {})
    && (forall cg | cg in w.removed :: Members(w, cg) == {})
  }

  /** What processes, and the manager that reclaims empty cgroups, may do at any moment. */
  datatype Action =
    | Fork(parent: int, child: int)
    | Exit(pid: int)
    | Unrelated(child: int)
    | Reclaim(cg: string)
    | Regroup(pid: int, leader: int)

  /** A child inherits cgroup and namespace; a namespace dies with its init; only empty cgroups are reclaimed. */
  function Step(w: World, a: Action): World {
    match a
    case Fork(parent, child) =>
      if parent !in w.procs || child in w.procs then w
      else w.(procs := w.procs + {child},
              cgroup := if parent in w.cgroup then w.cgroup[child := w.cgroup[parent]] else w.cgroup,
              ns := if parent in w.ns then w.ns + {child} else w.ns,
              group := if parent in w.group then w.group[child := w.group[parent]] else w.group)
    case Exit(pid) =>
      var dead := if pid == w.init && pid in w.ns then w.ns else {pid};
      w.(procs := w.procs - dead, cgroup := w.cgroup - dead, ns := w.ns - dead, group := w.group - dead)
    case Unrelated(child) =>
      if child in w.procs then w else w.(procs := w.procs + {child})
    case Reclaim(cg) =>
      if Members(w, cg) == {} then w.(removed := w.removed + {cg}) else w
    case Regroup(pid, leader) =>
      if pid in w.procs then w.(group := w.group[pid := leader]) else w
  }

  function Run(w: World, acts: seq<Action>): World
    decreases |acts|
  {
    if acts == [] then w else Run(Step(w, acts[0]), acts[1..])
  }

  ghost predicate Evolves(w: World, w': World) {
    exists acts :: w' == Run(w, acts)
  }

  /** Every member of a cgroup after a step had a member there before: itself or its parent. */
  lemma MemberOrigin(w: World, a: Action, cg: string, p: int) returns (q: int)
    requires p in Members(Step(w, a), cg)
    ensures q in Members(w, cg)
  {
    q := if p in Members(w, cg) then p else a.parent;
  }

  lemma StepConsistent(w: World, a: Action)
    requires Consistent(w)
    ensures Consistent(Step(w, a)) && Step(w, a).init == w.init
    ensures forall cg :: Members(w, cg) == {} ==> Members(Step(w, a), cg) == {}
    ensures w.ns == {} ==> Step(w, a).ns == {}
  {
    forall cg, p | p in Members(Step(w, a), cg) ensures Members(w, cg) != {} {
      var q := MemberOrigin(w, a, cg, p);
    }
  }

  /** An empty cgroup, and a dead namespace, stay that way whatever happens next. */
  lemma {:induction false} EmptyForever(w: World, acts: seq<Action>)
    requires Consistent(w)
    ensures Consistent(Run(w, acts)) && Run(w, acts).init == w.init
    ensures forall cg :: Members(w, cg) == {} ==> Members(Run(w, acts), cg) == {}
    ensures w.ns == {} ==> Run(w, acts).ns == {}
    decreases |acts|
  {
    if acts != [] {
      StepConsistent(w, acts[0]);
      EmptyForever(Step(w, acts[0]), acts[1..]);
    }
  }

  lemma EvolvesKeepsEmpty(w: World, w': World)
    requires Consistent(w) && Evolves(w, w')
    ensures Consistent(w') && w'.init == w.init
    ensures forall cg :: Members(w, cg) == {} ==> Members(w', cg) == {}
    ensures w.ns == {} ==> w'.ns == {}
  {
    var acts :| w' == Run(w, acts);
    EmptyForever(w, acts);
  }

  // ---- what the end of one process says about a namespace

  /** The outer process can end while the namespace init lives on. */
  lemma OuterExits(outer: int, init: int) returns (w: World)
    requires outer != init
    ensures Consistent(w) && w.init == init && outer in w.procs && init in w.ns
    ensures outer !in Step(w, Exit(outer)).procs && init in Step(w, Exit(outer)).ns
    ensures init != 0 ==> NamespaceLaunch(w, outer)
  {
    w := World({outer, init}, map[], {}, {init}, init, map[]);
  }

  /**
   The process whose end stands for the end of the namespace: the init, or the outer process if
   none was identified.
   */
  function AwaitedPid(pid: int, nsInitPid: int): int {
    if nsInitPid != 0 then nsInitPid else pid
  }

  /** A namespace after its launch: the outer process stays outside, its child is the init. */
  predicate NamespaceLaunch(w: World, pid: int) {
    Consistent(w) && pid in w.procs && pid !in w.ns && pid != w.init && w.init in w.ns && w.init != 0
  }

  /**
   The code's guard decides: when the identified child is the init, the end of the awaited process
   proves the namespace dead in every run from the launch on, if and only if a child was identified.
   */
  lemma GoneMeansDead(w: World, pid: int, nsInitPid: int)
    requires NamespaceLaunch(w, pid) && (nsInitPid != 0 ==> nsInitPid == w.init)
    ensures (forall acts :: AwaitedPid(pid, nsInitPid) !in Run(w, acts).procs ==> Run(w, acts).ns == {}) <==>
            nsInitPid != 0
  {
    if nsInitPid != 0 {
      forall acts | nsInitPid !in Run(w, acts).procs ensures Run(w, acts).ns == {} { EmptyForever(w, acts); }
    } else {
      var acts := [Exit(pid)];
      assert Run(w, acts) == Run(Step(w, acts[0]), acts[1..]) == Step(w, Exit(pid));
      assert pid !in Run(w, acts).procs && w.init in Run(w, acts).ns;
    }
  }

  // ---- system calls, each preceded by arbitrary progress of everyone else

  datatype Control = Freeze(cg: string) | Counted(cg: string, n: int) | KillAll(cg: string) | Signal(pid: int)
  /** A system call that failed for a reason other than the object being gone. */
  datatype Fault =
    | FailedWrite(c: Control) | FailedRead(cg: string) | FailedCount(cg: string)
    | FailedProbe(pid: int) | FailedList

  datatype WriteResult = Written | WriteGone | WriteFailed
  datatype ProcsResult = Listed(pids: set<int>) | ProcsGone | ProcsFailed
  datatype ProbeResult = Alive | NoSuchProcess | NotPermitted | Indeterminate

  /** One entry of /proc as the descriptor scan sees it. */
  datatype FdTable = Open(links: seq<Option<string>>) | Vanished | Unreadable
  datatype ProcEntry = ProcEntry(pid: Option<int>, fds: FdTable, cwd: Option<string>)

  /** One listing of /proc, and the world at that moment. */
  datatype Listing = Listing(world: World, entries: Option<seq<ProcEntry>>)

  class Kernel {
    var w: World
    var clock: int
    /** Processes the kernel has reported as nonexistent, at an instant when they were. */
    ghost var reported: set<int>
    /** The control writes, counts and signals, in order. */
    ghost var sent: seq<Control>
    /** The calls that failed, in order. */
    ghost var faults: seq<Fault>
    /** What was read about a launch, in order: cgroup paths and direct children. */
    ghost var pathReads: seq<Option<string>>
    ghost var childReads: seq<Option<seq<int>>>
    /** The listings of /proc, each with the world it showed. */
    ghost var listings: seq<Listing>

    ghost predicate Valid()
      reads this
    {
      Consistent(w)
    }

    /** Any finite number of actions, in any order, while time passes. */
    method Interleave()
      requires Valid()
      modifies this`w, this`clock
      ensures Valid() && Evolves(old(w), w) && clock >= old(clock)
    {
      var passed: nat :| true;
      var acts: seq<Action> :| true;
      EmptyForever(w, acts);
      w := Run(w, acts);
      clock := clock + passed;
    }

    method Sleep()
      requires Valid()
      modifies this`w, this`clock
      ensures Valid() && Evolves(old(w), w) && clock >= old(clock) + 20
    {
      Interleave();
      clock := clock + 20;
    }

    /** Writes a control file of a cgroup; nothing is assumed about when its effect arrives. */
    method WriteControl(cg: string, ghost c: Control) returns (r: WriteResult)
      requires Valid()
      modifies this`w, this`clock, this`sent, this`faults
      ensures Valid() && Evolves(old(w), w) && clock >= old(clock) && sent == old(sent) + [c]
      ensures faults == old(faults) + if r.WriteFailed? then [FailedWrite(c)] else []
    {
      Interleave();
      sent := sent + [c];
      var fails: bool :| true;
      r := if fails then WriteFailed else if cg in w.removed then WriteGone else Written;
      if fails { faults := faults + [FailedWrite(c)]; }
    }

    method SendSignal(pid: int)
      requires Valid()
      modifies this`w, this`clock, this`sent
      ensures Valid() && Evolves(old(w), w) && clock >= old(clock) && sent == old(sent) + [Signal(pid)]
    {
      Interleave();
      sent := sent + [Signal(pid)];
    }

    method ReadProcs(cg: string, ghost fault: Fault) returns (r: ProcsResult)
      requires Valid()
      modifies this`w, this`clock, this`faults
      ensures Valid() && Evolves(old(w), w) && clock >= old(clock)
      ensures r.Listed? ==> r.pids == Members(w, cg)
      ensures r.ProcsGone? ==> Members(w, cg) == {}
      ensures faults == old(faults) + if r.ProcsFailed? then [fault] else []
    {
      Interleave();
      var fails: bool :| true;
      r := if fails then ProcsFailed else if cg in w.removed then ProcsGone else Listed(Members(w, cg));
      if fails { faults := faults + [fault]; }
    }

    /** `countCgroupProcs`: the number of members at this moment, or -1 for a failed read. */
    method CountProcs(cg: string) returns (n: int)
      requires Valid()
      modifies this`w, this`clock, this`sent, this`faults
      ensures Valid() && Evolves(old(w), w) && clock >= old(clock)
      ensures n == -1 || n == |Members(w, cg)|
      ensures sent == old(sent) + [Counted(cg, n)]
      ensures faults == old(faults) + if n == -1 then [FailedCount(cg)] else []
    {
      var r := ReadProcs(cg, FailedCount(cg));
      match r {
        case Listed(pids) => n := |pids|;
        case ProcsGone => n := 0;
        case ProcsFailed => n := -1;
      }
      sent := sent + [Counted(cg, n)];
    }

    method Probe(pid: int) returns (r: ProbeResult)
      requires Valid()
      modifies this`w, this`clock, this`reported, this`faults
      ensures Valid() && Evolves(old(w), w) && clock >= old(clock)
      ensures r.NoSuchProcess? ==> pid !in w.procs && reported == old(reported) + {pid}
      ensures !r.NoSuchProcess? ==> reported == old(reported)
      ensures r.Alive? || r.NotPermitted? ==> pid in w.procs
      ensures faults == old(faults) + if r.Indeterminate? then [FailedProbe(pid)] else []
    {
      Interleave();
      var other: ProbeResult :| true;
      if pid !in w.procs && !other.Indeterminate? {
        reported := reported + {pid};
        return NoSuchProcess;
      }
      r := if other.NoSuchProcess? then Alive else other;
      if r.Indeterminate? { faults := faults + [FailedProbe(pid)]; }
    }

    /** The cgroup path of a process, as /proc reports it during launch. */
    method CgroupPath(pid: int) returns (path: Option<string>)
      requires Valid()
      modifies this`w, this`clock, this`pathReads
      ensures Valid() && Evolves(old(w), w) && clock >= old(clock)
      ensures (path.Some? ==> path.value != "") && pathReads == old(pathReads) + [path]
    {
      Interleave();
      var observed: Option<string> :| true;
      path := if observed == Some("") then None else observed;
      pathReads := pathReads + [path];
    }

    method DirectChildren(pid: int) returns (children: Option<seq<int>>)
      requires Valid()
      modifies this`w, this`clock, this`childReads
      ensures Valid() && Evolves(old(w), w) && clock >= old(clock)
      ensures children.Some? ==> forall c | c in children.value :: c > 0
      ensures childReads == old(childReads) + [children]
    {
      Interleave();
      var observed: Option<seq<int>> :| true;
      children := observed;
      if children.Some? && exists c :: c in children.value && c <= 0 {
        children := None;
      }
      childReads := childReads + [children];
    }

    method ListProc() returns (entries: Option<seq<ProcEntry>>)
      requires Valid()
      modifies this`w, this`clock, this`faults, this`listings
      ensures Valid() && Evolves(old(w), w) && clock >= old(clock)
      ensures faults == old(faults) + if entries.None? then [FailedList] else []
      ensures listings == old(listings) + [Listing(w, entries)]
    {
      Interleave();
      entries :| true;
      listings := listings + [Listing(w, entries)];
      if entries.None? { faults := faults + [FailedList]; }
    }
  }

  // ---- polling

  datatype Failure =
    | NeverResolved | FreezeFailed | KillFailed | ReadFailed | StillPopulated
    | StillAlive | NotSignalable | ProbeFailed | InitUnknown | ScanFailed | HandleHeld

  const DEFAULT_DEADLINE: int := 5000

  /**
   Polls cgroup.procs until it is empty or gone. A nil error means no member; a timeout means members
   after the deadline; any other error means a failed read.
   */
  method WaitCgroupEmpty(k: Kernel, cg: string, deadline: int) returns (err: Option<Failure>)
    requires k.Valid()
    modifies k`w, k`clock, k`faults
    ensures k.Valid() && k.clock >= old(k.clock)
    ensures err.None? ==> Members(k.w, cg) == {}
    ensures err.Some? ==> err.value == StillPopulated || err.value == ReadFailed
    ensures err == Some(StillPopulated) ==> Members(k.w, cg) != {} && k.clock > old(k.clock) + deadline
    ensures k.faults == old(k.faults) + if err == Some(ReadFailed) then [FailedRead(cg)] else []
  {
    var end := k.clock + deadline;
    while true
      invariant k.Valid() && k.clock >= old(k.clock) && k.faults == old(k.faults)
      decreases end - k.clock
    {
      var r := k.ReadProcs(cg, FailedRead(cg));
      match r {
        case ProcsGone => return None;
        case ProcsFailed => return Some(ReadFailed);
        case Listed(pids) =>
          if pids == {} {
            return None;
          }
      }
      if k.clock > end {
        return Some(StillPopulated);
      }
      k.Sleep();
    }
  }

  /**
   Polls a process until the kernel says it does not exist. A timeout means that it existed after the
   deadline, a refused signal that it exists, any other error a failed probe.
   */
  method WaitPidGone(k: Kernel, pid: int, deadline: int) returns (err: Option<Failure>)
    requires k.Valid()
    modifies k`w, k`clock, k`reported, k`faults
    ensures k.Valid() && k.clock >= old(k.clock) && k.w.init == old(k.w.init)
    ensures err.None? && pid != 0 ==> pid in k.reported
    ensures err.None? && pid != 0 && pid == k.w.init ==> k.w.ns == {}
    ensures err.Some? ==> err.value == StillAlive || err.value == NotSignalable || err.value == ProbeFailed
    ensures err == Some(StillAlive) ==> pid in k.w.procs && k.clock > old(k.clock) + deadline
    ensures err == Some(NotSignalable) ==> pid in k.w.procs
    ensures k.faults == old(k.faults) + if err == Some(ProbeFailed) then [FailedProbe(pid)] else []
  {
    if pid == 0 {
      return None;
    }
    var end := k.clock + deadline;
    while true
      invariant k.Valid() && k.clock >= old(k.clock) && k.w.init == old(k.w.init) && k.faults == old(k.faults)
      decreases end - k.clock
    {
      ghost var before := k.w;
      var r := k.Probe(pid);
      EvolvesKeepsEmpty(before, k.w);
      match r {
        case NoSuchProcess => return None;
        case NotPermitted => return Some(NotSignalable);
        case Indeterminate => return Some(ProbeFailed);
        case Alive =>
      }
      if k.clock > end {
        return Some(StillAlive);
      }
      before := k.w;
      k.Sleep();
      EvolvesKeepsEmpty(before, k.w);
    }
  }

  // ---- the descriptor scan

  predicate Under(path: string, workspace: string) {
    path == workspace || workspace + "/" <= path
  }

  predicate Holds(e: ProcEntry, workspace: string) {
    || (e.fds.Open? &&
        exists i :: 0 <= i < |e.fds.links| && e.fds.links[i].Some? && Under(e.fds.links[i].value, workspace))
    || (e.fds.Open? && e.cwd.Some? && Under(e.cwd.value, workspace))
  }

  /** The entry belongs to the scope and is not this process itself. */
  predicate Attributed(e: ProcEntry, self: int, relevant: int -> bool) {
    e.pid.Some? && e.pid.value != self && relevant(e.pid.value)
  }

  /** The path is the workspace or lies behind it and a slash. */
  lemma UnderMeans(path: string, workspace: string)
    ensures Under(path, workspace) <==> path == workspace || exists rest :: path == workspace + "/" + rest
  {
    if workspace + "/" <= path {
      assert path == workspace + "/" + path[|workspace|+1..];
    }
  }

  /** A process holds the workspace by an open descriptor, or by its working directory. */
  lemma HoldsMeans(e: ProcEntry, workspace: string)
    ensures Holds(e, workspace) <==>
            && e.fds.Open?
            && (|| (exists i :: (0 <= i < |e.fds.links| && e.fds.links[i].Some? &&
                                 Under(e.fds.links[i].value, workspace)))
                || (e.cwd.Some? && Under(e.cwd.value, workspace)))
  {
  }

  /** The first `i` entries give no reason to stop. */
  ghost predicate CleanUpTo(entries: seq<ProcEntry>, i: nat, workspace: string, self: int, relevant: int -> bool) {
    i <= |entries| && forall n | 0 <= n < i && Attributed(entries[n], self, relevant) ::
      !entries[n].fds.Unreadable? && !Holds(entries[n], workspace)
  }

  /** The first attributed process that is unreadable or holds the workspace decides. */
  method ScanWorkspaceFD(workspace: string, entries: seq<ProcEntry>, self: int, relevant: int -> bool)
    returns (clean: Result<bool, Failure>)
    ensures clean == Ok(true) <==> CleanUpTo(entries, |entries|, workspace, self, relevant)
    ensures clean.Err? ==> clean.error == ScanFailed
    ensures clean.Err? ==>
            exists i :: 0 <= i < |entries| && CleanUpTo(entries, i, workspace, self, relevant) &&
                        Attributed(entries[i], self, relevant) && entries[i].fds.Unreadable?
    ensures clean == Ok(false) ==>
            exists i :: 0 <= i < |entries| && CleanUpTo(entries, i, workspace, self, relevant) &&
                        Attributed(entries[i], self, relevant) && Holds(entries[i], workspace)
  {
    for i := 0 to |entries|
      invariant CleanUpTo(entries, i, workspace, self, relevant)
    {
      var e := entries[i];
      if Attributed(e, self, relevant) {
        match e.fds {
          case Vanished =>
          case Unreadable => return Err(ScanFailed);
          case Open(links) =>
            for n := 0 to |links|
              invariant forall m | 0 <= m < n :: !(links[m].Some? && Under(links[m].value, workspace))
            {
              if links[n].Some? && Under(links[n].value, workspace) {
                assert Holds(e, workspace);
                return Ok(false);
              }
            }
            if e.cwd.Some? && Under(e.cwd.value, workspace) {
              assert Holds(e, workspace);
              return Ok(false);
            }
        }
      }
    }
    return Ok(true);
  }

  // ---- the descendant set

  const MAX_NODES: int := 4096

  /** One read of each process's direct children; None is a failed read. */
  type Children = int -> Option<seq<int>>

  predicate Child(children: Children, parent: int, c: int) {
    children(parent).Some? && c in children(parent).value
  }

  predicate Lineage(children: Children, p: seq<int>) {
    |p| >= 1 && forall i | 0 <= i < |p| - 1 :: Child(children, p[i], p[i+1])
  }

  ghost predicate Descends(children: Children, root: int, x: int) {
    exists p: seq<int> :: Lineage(children, p) && p[0] == root && p[|p|-1] == x
  }

  lemma DescendsStep(children: Children, root: int, x: int, c: int)
    requires Descends(children, root, x) && Child(children, x, c)
    ensures Descends(children, root, c)
  {
    var p :| Lineage(children, p) && p[0] == root && p[|p|-1] == x;
    var q := p + [c];
    assert Lineage(children, q) && q[0] == root && q[|q|-1] == c;
  }

  /** A set that contains the root and all children of its members contains every descendant. */
  lemma {:induction false} ClosedContains(children: Children, seen: set<int>, p: seq<int>)
    requires Lineage(children, p) && p[0] in seen
    requires forall x, c | x in seen && Child(children, x, c) :: c in seen
    ensures p[|p|-1] in seen
    decreases |p|
  {
    if |p| > 1 {
      var q := p[..|p|-1];
      ClosedContains(children, seen, q);
      assert Child(children, p[|p|-2], p[|p|-2+1]);
    }
  }

  /** Breadth-first, and bounded so that a fork bomb cannot stall the proof of extinction. */
  method DescendantSet(root: int, children: Children) returns (seen: set<int>)
    ensures root == 0 ==> seen == {}
    ensures forall x | x in seen :: Descends(children, root, x)
    ensures root != 0 && |seen| < 4096 ==> forall x :: x in seen <==> Descends(children, root, x)
  {
    if root == 0 {
      return {};
    }
    seen := {root};
    var queue := [root];
    assert Lineage(children, [root]);
    while |queue| > 0 && |seen| < MAX_NODES
      invariant root in seen && (forall x | x in queue :: x in seen)
      invariant forall x | x in seen :: Descends(children, root, x)
      invariant forall x, c | x in seen && x !in queue && Child(children, x, c) :: c in seen
      decreases MAX_NODES - |seen|, |queue|
    {
      var next := queue[0];
      queue := queue[1..];
      var read := children(next);
      if read.Some? {
        seen, queue := Enqueue(root, children, next, read.value, seen, queue);
      }
    }
    if |seen| < MAX_NODES {
      forall x | Descends(children, root, x) ensures x in seen {
        var p :| Lineage(children, p) && p[0] == root && p[|p|-1] == x;
        ClosedContains(children, seen, p);
      }
    }
  }

  method Enqueue(ghost root: int, ghost children: Children, ghost parent: int, kids: seq<int>, seen0: set<int>,
                 queue0: seq<int>)
    returns (seen: set<int>, queue: seq<int>)
    requires children(parent) == Some(kids) && parent in seen0
    requires forall x | x in queue0 :: x in seen0
    requires forall x | x in seen0 :: Descends(children, root, x)
    ensures seen0 <= seen && (forall c | c in kids :: c in seen)
    ensures forall x | x in seen :: Descends(children, root, x)
    ensures forall x :: x in queue <==> x in queue0 || (x in seen && x !in seen0)
    ensures |seen| > |seen0| || (seen == seen0 && queue == queue0)
  {
    seen, queue := seen0, queue0;
    for i := 0 to |kids|
      invariant seen0 <= seen && (forall n | 0 <= n < i :: kids[n] in seen)
      invariant forall x | x in seen :: Descends(children, root, x)
      invariant forall x :: x in queue <==> x in queue0 || (x in seen && x !in seen0)
      invariant |seen| > |seen0| || (seen == seen0 && queue == queue0)
    {
      var c := kids[i];
      if c !in seen {
        DescendsStep(children, root, parent, c);
        seen := seen + {c};
        queue := queue + [c];
      }
    }
  }

  /** When fewer than 4096 processes descend from the root, the answer is exactly those. */
  lemma SmallTreeExact(root: int, children: Children, seen: set<int>, tree: set<int>)
    requires forall x | x in seen :: Descends(children, root, x)
    requires |seen| < 4096 ==> forall x :: x in seen <==> Descends(children, root, x)
    requires (forall x :: x in tree <==> Descends(children, root, x)) && |tree| < 4096
    ensures seen == tree
  {
    forall x | x in seen ensures x in tree { assert Descends(children, root, x); }
    assert tree == seen + (tree - seen);
    assert |seen| < MAX_NODES;
    forall x | x in tree ensures x in seen { assert Descends(children, root, x); }
  }

  // ---- the scope

  datatype Kind = SystemdUserScope | CgroupDirect | PidNamespace | Degraded

  datatype Proof = Proof(frozen: bool, killed: bool, clean: bool, degraded: bool, peak: int)

  predicate Contains(s: string, sub: string) {
    exists i :: 0 <= i <= |s| && sub <= s[i..]
  }

  /** Why a launch could not be tied to its cgroup or namespace. */
  type ResolveFailure = f: Failure | f.NeverResolved? || f.InitUnknown? witness NeverResolved

  /** How a scope recognizes its own processes. */
  datatype Attribution = ByCgroup(cg: string) | ByDescent(pids: set<int>) | ByGroup(leader: int)

  predicate AttributedTo(w: World, rule: Attribution, p: int) {
    match rule
    case ByCgroup(cg) => cg != "" && p in w.cgroup && w.cgroup[p] == cg
    case ByDescent(pids) => p in pids
    case ByGroup(leader) => leader != 0 && p in w.group && w.group[p] == leader
  }

  class Scope {
    const k: Kernel
    const kind: Kind
    const unitName: string
    var pid: int
    var nsInitPid: int
    var cgroupPath: string
    var resolveErr: Option<ResolveFailure>

    /** NewScope: a direct cgroup owns its directory from the start. */
    constructor (k: Kernel, kind: Kind, unitName: string, directory: string)
      requires kind.CgroupDirect? ==> directory != ""
      ensures this.k == k && this.kind == kind && this.unitName == unitName
      ensures pid == 0 && nsInitPid == 0 && resolveErr == None
      ensures cgroupPath == if kind.CgroupDirect? then directory else ""
    {
      this.k, this.kind, this.unitName := k, kind, unitName;
      pid, nsInitPid, resolveErr := 0, 0, None;
      cgroupPath := if kind.CgroupDirect? then directory else "";
    }

    predicate UsesCgroup() {
      kind.SystemdUserScope? || kind.CgroupDirect?
    }

    /** A process was launched: the scope names something to act on, or knows that it does not. */
    predicate Launched()
      reads this
    {
      && pid != 0
      && (UsesCgroup() ==> cgroupPath != "" || resolveErr.Some?)
      && (kind.SystemdUserScope? && cgroupPath != "" ==> Contains(cgroupPath, unitName))
    }

    method Started(pid: int)
      requires k.Valid() && pid > 0 && this.pid == 0 && nsInitPid == 0 && (kind.CgroupDirect? <==> cgroupPath != "")
      modifies this, k`w, k`clock, k`pathReads, k`childReads
      ensures k.Valid() && Launched() && this.pid == pid
      ensures nsInitPid != 0 ==> kind.PidNamespace?
      ensures kind.CgroupDirect? ==> cgroupPath == old(cgroupPath)
    {
      this.pid := pid;
      match kind {
        case SystemdUserScope => ResolveCgroupFromPID(pid);
        case PidNamespace => ResolveNSInitPID(pid);
        case _ =>
      }
    }

    /** The read confirms the generated unit. */
    predicate Confirming(read: Option<string>) {
      read.Some? && Contains(read.value, unitName)
    }

    /** Adopts the first confirming read; gives up only two seconds later, when there was none. */
    method ResolveCgroupFromPID(pid: int)
      requires k.Valid()
      modifies this`cgroupPath, this`resolveErr, k`w, k`clock, k`pathReads
      ensures k.Valid() && |k.pathReads| > |old(k.pathReads)|
      ensures forall i | |old(k.pathReads)| <= i < |k.pathReads| - 1 :: !Confirming(k.pathReads[i])
      ensures var last := k.pathReads[|k.pathReads|-1];
              if Confirming(last) then cgroupPath == last.value && cgroupPath != "" && resolveErr == old(resolveErr)
              else cgroupPath == old(cgroupPath) && resolveErr == Some(NeverResolved) && k.clock > old(k.clock) + 2000
    {
      var deadline := k.clock + 2000;
      ghost var first := |k.pathReads|;
      while true
        invariant k.Valid() && cgroupPath == old(cgroupPath) && resolveErr == old(resolveErr)
        invariant first <= |k.pathReads| && k.clock >= old(k.clock)
        invariant forall i | first <= i < |k.pathReads| :: !Confirming(k.pathReads[i])
        decreases deadline - k.clock
      {
        var path := k.CgroupPath(pid);
        if path.Some? && Contains(path.value, unitName) {
          cgroupPath := path.value;
          return;
        }
        if k.clock > deadline {
          resolveErr := Some(NeverResolved);
          return;
        }
        k.Sleep();
      }
    }

    /** Adopts the first child of the first read that shows one; gives up only two seconds later. */
    method ResolveNSInitPID(outer: int)
      requires k.Valid()
      modifies this`nsInitPid, this`resolveErr, k`w, k`clock, k`childReads
      ensures k.Valid() && |k.childReads| > |old(k.childReads)|
      ensures forall i | |old(k.childReads)| <= i < |k.childReads| - 1 ::
              k.childReads[i].None? || k.childReads[i].value == []
      ensures var last := k.childReads[|k.childReads|-1];
              if last.Some? && last.value != []
              then nsInitPid == last.value[0] && nsInitPid > 0 && resolveErr == old(resolveErr)
              else nsInitPid == old(nsInitPid) && resolveErr == Some(InitUnknown) && k.clock > old(k.clock) + 2000
    {
      var deadline := k.clock + 2000;
      ghost var first := |k.childReads|;
      while true
        invariant k.Valid() && nsInitPid == old(nsInitPid) && resolveErr == old(resolveErr)
        invariant first <= |k.childReads| && k.clock >= old(k.clock)
        invariant forall i | first <= i < |k.childReads| :: k.childReads[i].None? || k.childReads[i].value == []
        decreases deadline - k.clock
      {
        var children := k.DirectChildren(outer);
        if children.Some? && |children.value| > 0 {
          assert children.value[0] in children.value;
          nsInitPid := children.value[0];
          return;
        }
        if k.clock > deadline {
          resolveErr := Some(InitUnknown);
          return;
        }
        k.Sleep();
      }
    }

    /** Freeze, count, kill, and wait for the cgroup to empty. */
    method ExtinguishCgroup(deadline: int) returns (proof: Proof, err: Option<Failure>)
      requires k.Valid()
      modifies k`w, k`clock, k`sent, k`faults
      ensures k.Valid() && k.clock >= old(k.clock)
      ensures cgroupPath == "" && resolveErr.Some? ==> err == resolveErr
      ensures cgroupPath != "" ==> (proof.frozen <==> err != Some(FreezeFailed))
      ensures cgroupPath != "" ==> (proof.killed <==> err != Some(FreezeFailed) && err != Some(KillFailed))
      ensures err == Some(StillPopulated) ==> k.clock > old(k.clock) + deadline
      ensures !proof.clean && (err.Some? ==> CgroupFailure(err.value, old(k.faults)))
      ensures err.None? ==> proof.frozen && proof.killed && !proof.degraded
      ensures err.None? && cgroupPath != "" ==> Members(k.w, cgroupPath) == {}
      ensures err.None? && cgroupPath != "" ==>
                k.sent == old(k.sent) + [Freeze(cgroupPath), Counted(cgroupPath, proof.peak), KillAll(cgroupPath)]
    {
      proof := Proof(false, false, false, false, -1);
      if cgroupPath == "" {
        if resolveErr.Some? {
          return proof, resolveErr;
        }
        return proof.(frozen := true, killed := true, peak := 0), None;
      }
      var freeze := k.WriteControl(cgroupPath, Freeze(cgroupPath));
      if freeze.WriteFailed? {
        return proof, Some(FreezeFailed);
      }
      proof := proof.(frozen := true);
      var count := k.CountProcs(cgroupPath);
      proof := proof.(peak := count);
      var kill := k.WriteControl(cgroupPath, KillAll(cgroupPath));
      if kill.WriteFailed? {
        return proof, Some(KillFailed);
      }
      proof := proof.(killed := true);
      err := WaitCgroupEmpty(k, cgroupPath, deadline);
    }

    function Awaited(): int
      reads this
    {
      AwaitedPid(pid, nsInitPid)
    }

    /** The last recorded fault is a new one. */
    ghost predicate Faulted(before: seq<Fault>, f: Fault)
      reads k
    {
      |k.faults| > |before| && k.faults[|k.faults|-1] == f
    }

    /** What each error of the cgroup branch means. */
    ghost predicate CgroupFailure(e: Failure, before: seq<Fault>)
      reads this, k
    {
      if cgroupPath == "" then resolveErr == Some(e)
      else match e
        case FreezeFailed => Faulted(before, FailedWrite(Freeze(cgroupPath)))
        case KillFailed => Faulted(before, FailedWrite(KillAll(cgroupPath)))
        case ReadFailed => Faulted(before, FailedRead(cgroupPath))
        case StillPopulated => Members(k.w, cgroupPath) != {}
        case _ => false
    }

    /** What each error of the namespace branch means. */
    ghost predicate NamespaceFailure(e: Failure, before: seq<Fault>)
      reads this, k
    {
      if nsInitPid == 0 then pid != 0 && (resolveErr == Some(e) || e == InitUnknown)
      else match e
        case StillAlive => nsInitPid in k.w.procs
        case NotSignalable => nsInitPid in k.w.procs
        case ProbeFailed => Faulted(before, FailedProbe(nsInitPid))
        case _ => false
    }

    /** Kill the namespace init and wait for it, or accept that an unidentified launch is gone. */
    method ExtinguishNamespace(deadline: int) returns (proof: Proof, err: Option<Failure>)
      requires k.Valid()
      modifies k`w, k`clock, k`reported, k`sent, k`faults
      ensures k.Valid() && k.clock >= old(k.clock)
      ensures nsInitPid != 0 ==> proof.killed && (proof.frozen <==> err.None?)
      ensures err == Some(StillAlive) ==> k.clock > old(k.clock) + deadline
      ensures !proof.clean && (err.Some? ==> NamespaceFailure(err.value, old(k.faults)))
      ensures err.None? ==> proof.frozen && proof.killed && !proof.degraded
      ensures k.sent == old(k.sent) + if nsInitPid != 0 then [Signal(nsInitPid)] else []
      ensures err.None? && Awaited() != 0 ==> Awaited() in k.reported
      ensures err.None? && Awaited() != 0 && Awaited() == k.w.init ==> k.w.ns == {}
    {
      proof := Proof(false, false, false, false, -1);
      if pid != 0 && nsInitPid == 0 {
        var gone := WaitPidGone(k, pid, 0);
        if gone.None? {
          return proof.(killed := true, frozen := true), None;
        }
        if resolveErr.Some? {
          return proof, resolveErr;
        }
        return proof, Some(InitUnknown);
      }
      if nsInitPid != 0 {
        k.SendSignal(nsInitPid);
        proof := proof.(killed := true);
        err := WaitPidGone(k, nsInitPid, deadline);
        if err.Some? {
          return;
        }
      } else {
        proof := proof.(killed := true);
      }
      proof := proof.(frozen := true);
      err := None;
    }

    /** The processes are gone, but the descriptor scan failed or found a handle. */
    predicate ScanFailure(e: Failure) {
      e.ScanFailed? || e.HandleHeld?
    }

    /** What holds once the owned processes were stopped without an error. */
    ghost predicate Stopped(proof: Proof)
      reads this, k
    {
      && (proof.degraded <==> kind.Degraded?)
      && (UsesCgroup() && cgroupPath != "" ==> Members(k.w, cgroupPath) == {} && proof.frozen && proof.killed)
      && (kind.PidNamespace? ==> proof.frozen && proof.killed)
      && (kind.PidNamespace? && Awaited() != 0 ==> Awaited() in k.reported && (Awaited() == k.w.init ==> k.w.ns == {}))
      && (kind.Degraded? ==> !proof.frozen && !proof.killed)
    }

    /** Why the owned processes were not stopped. */
    ghost predicate Unfinished(e: Failure, before: seq<Fault>)
      reads this, k
    {
      if UsesCgroup() then CgroupFailure(e, before) else kind.PidNamespace? && NamespaceFailure(e, before)
    }

    /** What was done to a scope without an error: freeze, count and kill in this order, or one signal. */
    ghost predicate Sent(before: seq<Control>, proof: Proof)
      reads this, k
    {
      && (UsesCgroup() && cgroupPath != "" ==>
            k.sent == before + [Freeze(cgroupPath), Counted(cgroupPath, proof.peak), KillAll(cgroupPath)])
      && (kind.PidNamespace? ==> k.sent == before + if nsInitPid != 0 then [Signal(nsInitPid)] else [])
      && (kind.Degraded? ==> k.sent == before + if pid != 0 then [Signal(-pid)] else [])
    }

    /** The processes the scan is about: cgroup members, descendants of the awaited process, or its process group. */
    ghost predicate AttributesBy(rule: Attribution, children: Children)
      reads this
    {
      && (UsesCgroup() ==> rule == ByCgroup(cgroupPath))
      && (kind.Degraded? ==> rule == ByGroup(pid))
      && (kind.PidNamespace? ==>
            && rule.ByDescent? && (Awaited() == 0 ==> rule.pids == {})
            && (forall x | x in rule.pids :: Descends(children, Awaited(), x))
            && (Awaited() != 0 && |rule.pids| < 4096 ==> forall x :: x in rule.pids <==>
                Descends(children, Awaited(), x)))
    }

    /** The switch over the scope's kind. */
    method Terminate(deadline: int)
      returns (proof: Proof, err: Option<Failure>, rule: Attribution, ghost children: Children)
      requires k.Valid()
      modifies k`w, k`clock, k`reported, k`sent, k`faults
      ensures k.Valid() && !proof.clean && k.clock >= old(k.clock)
      ensures err.None? ==> Stopped(proof) && Sent(old(k.sent), proof) && AttributesBy(rule, children)
      ensures err.Some? ==> !ScanFailure(err.value) && Unfinished(err.value, old(k.faults))
      ensures err == Some(StillPopulated) || err == Some(StillAlive) ==> k.clock > old(k.clock) + deadline
      ensures UsesCgroup() && cgroupPath == "" && resolveErr.Some? ==> err.Some?
    {
      children := _ => None;
      match kind {
        case SystemdUserScope | CgroupDirect =>
          rule := ByCgroup(cgroupPath);
          proof, err := ExtinguishCgroup(deadline);
        case PidNamespace =>
          var observed: Children :| true;
          children := observed;
          var descendants := DescendantSet(if nsInitPid == 0 then pid else nsInitPid, observed);
          rule := ByDescent(descendants);
          proof, err := ExtinguishNamespace(deadline);
        case Degraded =>
          rule := ByGroup(pid);
          if pid != 0 {
            k.SendSignal(-pid);
          }
          proof, err := Proof(false, false, false, true, -1), None;
      }
    }

    /** The descriptor scan after the processes were stopped. */
    method ScanScope(workspace: string, self: int, rule: Attribution, stopped: Proof)
      returns (proof: Proof, err: Option<Failure>, ghost entries: Option<seq<ProcEntry>>)
      requires k.Valid() && Stopped(stopped) && !stopped.clean
      modifies k`w, k`clock, k`faults, k`listings
      ensures k.Valid() && Stopped(proof) && proof == stopped.(clean := err.None?) && k.clock >= old(k.clock)
      ensures workspace == "" ==> err.None? && k.listings == old(k.listings)
      ensures workspace != "" ==> k.listings == old(k.listings) + [Listing(k.w, entries)]
      ensures workspace != "" ==> ScanOutcome(err, entries, k.w, rule, workspace, self)
      ensures entries.None? && workspace != "" ==> Faulted(old(k.faults), FailedList)
    {
      proof, entries := stopped, None;
      if workspace == "" {
        proof := proof.(clean := true);
        return proof, None, None;
      }
      ghost var before := k.w;
      var listed := k.ListProc();
      entries := listed;
      EvolvesKeepsEmpty(before, k.w);
      if listed.None? {
        return proof, Some(ScanFailed), None;
      }
      var w := k.w;
      var clean := ScanWorkspaceFD(workspace, listed.value, self, p => AttributedTo(w, rule, p));
      match clean {
        case Err(e) => err := Some(e);
        case Ok(ok) =>
          proof := proof.(clean := ok);
          err := if ok then None else Some(HandleHeld);
      }
    }

    method Extinguish(deadline0: int, workspace: string, self: int)
      returns (proof: Proof, err: Option<Failure>, ghost rule: Attribution, ghost children: Children,
               ghost entries: Option<seq<ProcEntry>>)
      requires k.Valid()
      modifies k
      ensures k.Valid()
      ensures proof.clean <==> err.None?
      ensures err.None? || ScanFailure(err.value) ==>
              Stopped(proof) && Sent(old(k.sent), proof) && AttributesBy(rule, children)
      ensures (err.None? || ScanFailure(err.value)) && Launched() && UsesCgroup() ==> cgroupPath != ""
      ensures err.None? && UsesCgroup() && cgroupPath != "" ==>
              Members(k.w, cgroupPath) == {} && proof.frozen && proof.killed
      ensures err.None? && kind.PidNamespace? && Awaited() != 0 ==>
              Awaited() in k.reported && proof.frozen && proof.killed
      ensures (err.None? || ScanFailure(err.value)) && workspace != "" ==>
                (err.None? <==>
                 entries.Some? && forall e | e in entries.value && e.pid.Some? && e.pid.value != self &&
                                             AttributedTo(k.w, rule, e.pid.value) ::
                                    !e.fds.Unreadable? && !Holds(e, workspace))
      ensures (err.None? || ScanFailure(err.value)) && workspace != "" ==>
                && k.listings == old(k.listings) + [Listing(k.w, entries)]
                && ScanOutcome(err, entries, k.w, rule, workspace, self)
      ensures err.Some? && ScanFailure(err.value) ==> workspace != ""
      ensures err.Some? && !ScanFailure(err.value) ==> Unfinished(err.value, old(k.faults))
      ensures err == Some(StillPopulated) || err == Some(StillAlive) ==>
                k.clock > old(k.clock) + if deadline0 <= 0 then 5000 else deadline0
      ensures UsesCgroup() && cgroupPath == "" && resolveErr.Some? ==> err.Some?
    {
      var deadline := if deadline0 <= 0 then DEFAULT_DEADLINE else deadline0;
      k.reported := {};
      entries := None;
      var attribution;
      proof, err, attribution, children := Terminate(deadline);
      rule := attribution;
      if err.Some? {
        return;
      }
      proof, err, entries := ScanScope(workspace, self, attribution, proof);
    }
  }

  /**
   What a scan of a listed /proc has to report: nothing wrong exactly when the listing succeeded and every
   attributed process other than this one is readable and holds nothing in the workspace.
   */
  ghost predicate ScanOutcome(err: Option<Failure>, entries: Option<seq<ProcEntry>>, w: World, rule: Attribution,
                              workspace: string, self: int)
  {
    && (err.None? <==> entries.Some? && forall e | e in entries.value && Concerns(e, w, rule, self) ::
                         !e.fds.Unreadable? && !Holds(e, workspace))
    && (err.Some? ==> err.value == ScanFailed || err.value == HandleHeld)
    && (err == Some(HandleHeld) ==>
        entries.Some? && exists e :: e in entries.value && Concerns(e, w, rule, self) && Holds(e, workspace))
    && (err == Some(ScanFailed) ==>
          entries.None? || exists e :: e in entries.value && Concerns(e, w, rule, self) && e.fds.Unreadable?)
  }

  /** The entry is another process that the scope owns. */
  predicate Concerns(e: ProcEntry, w: World, rule: Attribution, self: int) {
    e.pid.Some? && e.pid.value != self && AttributedTo(w, rule, e.pid.value)
  }
}
