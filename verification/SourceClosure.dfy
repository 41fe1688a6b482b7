/**
  The Quartus source-graph worklists of scripts/quartus_connectivity_source_closure.py.  A file is
  represented by what the script's line parsers read from it; a file that cannot be read or parsed
  in a role has None there.  Paths are strings in code-point order.
*/
module SourceGraph {
  import opened Outcomes

  type Path = string

  datatype Kind = Qip | Sdc | PreFlowScript | Verilog | SystemVerilog | Vhdl | OtherInput

  predicate IsHdl(k: Kind) { k in {Verilog, SystemVerilog, Vhdl} }

  /** Two language kinds one file may carry at the same time. */
  predicate Compatible(a: Kind, b: Kind) { a == b || {a, b} == {Verilog, SystemVerilog} }

  datatype Assignment = Assignment(kind: Kind, target: Path)

  datatype SourceFile = SourceFile(assignments: Option<seq<Assignment>>, constraints: Option<seq<Path>>)

  /**
    `projectFiles`, `roots` and `generator` are the script's PROJECT_FILES, its two starting
    assignment files and BUILD_ID_GENERATOR.  `hdlInputsValid` receives all discovered paths and
    the Verilog and VHDL inputs among them.
  */
  datatype Project = Project(
    files: map<Path, SourceFile>,
    tracked: set<Path>,
    projectFiles: set<Path>,
    roots: seq<Path>,
    generator: Path,
    hdlInputsValid: (set<Path>, set<Path>, set<Path>) -> bool)

  /** The project of the repository. */
  function SwanSong(files: map<Path, SourceFile>, tracked: set<Path>,
                    hdlInputsValid: (set<Path>, set<Path>, set<Path>) -> bool): Project
  {
    Project(files, tracked,
            {"src/fpga/ap_core.qpf", "src/fpga/ap_core.qsf", "src/fpga/ap_core_assignment_defaults.qdf"},
            ["src/fpga/ap_core.qsf", "src/fpga/ap_core_assignment_defaults.qdf"],
            "src/fpga/apf/build_id_gen.tcl", hdlInputsValid)
  }

  predicate ParsesAsAssignments(src: Project, f: Path) { f in src.files && src.files[f].assignments.Some? }

  predicate ParsesAsConstraints(src: Project, f: Path) { f in src.files && src.files[f].constraints.Some? }

  function Assigns(src: Project, f: Path): seq<Assignment> {
    if ParsesAsAssignments(src, f) then src.files[f].assignments.value else []
  }

  function Reads(src: Project, f: Path): seq<Path> {
    if ParsesAsConstraints(src, f) then src.files[f].constraints.value else []
  }

  // ------------------------------------------------------------------------------------------
  // Reference: reachability along explicit paths
  // ------------------------------------------------------------------------------------------

  ghost predicate QipPath(src: Project, p: seq<Path>) {
    p != [] && p[0] in src.roots &&
    forall i :: 0 < i < |p| ==> Assignment(Qip, p[i]) in Assigns(src, p[i - 1])
  }

  /** f is an assignment file of the project: a root, or reached over QIP assignments. */
  ghost predicate Loaded(src: Project, f: Path) {
    exists p :: QipPath(src, p) && p[|p| - 1] == f
  }

  ghost predicate LoadedAssignment(src: Project, a: Assignment) {
    exists f :: Loaded(src, f) && a in Assigns(src, f)
  }

  ghost predicate SdcPath(src: Project, p: seq<Path>) {
    p != [] && LoadedAssignment(src, Assignment(Sdc, p[0])) &&
    forall i :: 0 < i < |p| ==> p[i] in Reads(src, p[i - 1])
  }

  /** f is a constraint file: assigned as one, or reached over read_sdc. */
  ghost predicate Constraint(src: Project, f: Path) {
    exists p :: SdcPath(src, p) && p[|p| - 1] == f
  }

  /** x is read by a constraint file. */
  ghost predicate ReadByConstraint(src: Project, x: Path) {
    exists f :: Constraint(src, f) && x in Reads(src, f)
  }

  /** The source closure. */
  ghost predicate InClosure(src: Project, x: Path) {
    || x in src.projectFiles
    || (exists k :: LoadedAssignment(src, Assignment(k, x)))
    || ReadByConstraint(src, x)
  }

  lemma LoadedRoot(src: Project, f: Path)
    requires f in src.roots
    ensures Loaded(src, f)
  {
    assert QipPath(src, [f]);
  }

  lemma LoadedStep(src: Project, f: Path, g: Path)
    requires Loaded(src, f) && Assignment(Qip, g) in Assigns(src, f)
    ensures Loaded(src, g)
  {
    var p :| QipPath(src, p) && p[|p| - 1] == f;
    assert QipPath(src, p + [g]);
  }

  lemma ConstraintRoot(src: Project, f: Path)
    requires LoadedAssignment(src, Assignment(Sdc, f))
    ensures Constraint(src, f)
  {
    assert SdcPath(src, [f]);
  }

  lemma ConstraintStep(src: Project, f: Path, g: Path)
    requires Constraint(src, f) && g in Reads(src, f)
    ensures Constraint(src, g)
  {
    var p :| SdcPath(src, p) && p[|p| - 1] == f;
    assert SdcPath(src, p + [g]);
  }

  /** A set that holds the roots and is closed under QIP assignments. */
  ghost predicate QipClosed(src: Project, s: set<Path>) {
    (forall f :: f in src.roots ==> f in s) &&
    forall f, g :: f in s && Assignment(Qip, g) in Assigns(src, f) ==> g in s
  }

  ghost predicate SdcClosed(src: Project, s: set<Path>) {
    (forall f :: LoadedAssignment(src, Assignment(Sdc, f)) ==> f in s) &&
    forall f, g :: f in s && g in Reads(src, f) ==> g in s
  }

  lemma {:induction false} QipPathWithin(src: Project, s: set<Path>, p: seq<Path>)
    requires QipClosed(src, s) && QipPath(src, p)
    ensures p[|p| - 1] in s
  {
    if |p| > 1 {
      QipPathWithin(src, s, p[..|p| - 1]);
      assert Assignment(Qip, p[|p| - 1]) in Assigns(src, p[|p| - 2]);
    }
  }

  lemma {:induction false} SdcPathWithin(src: Project, s: set<Path>, p: seq<Path>)
    requires SdcClosed(src, s) && SdcPath(src, p)
    ensures p[|p| - 1] in s
  {
    if |p| > 1 { SdcPathWithin(src, s, p[..|p| - 1]); }
  }

  /** The loaded files are the least closed set. */
  lemma LoadedIsLeast(src: Project, s: set<Path>)
    requires QipClosed(src, s)
    ensures forall f :: Loaded(src, f) ==> f in s
  {
    forall f | Loaded(src, f) ensures f in s {
      var p :| QipPath(src, p) && p[|p| - 1] == f;
      QipPathWithin(src, s, p);
    }
  }

  lemma ConstraintsAreLeast(src: Project, s: set<Path>)
    requires SdcClosed(src, s)
    ensures forall f :: Constraint(src, f) ==> f in s
  {
    forall f | Constraint(src, f) ensures f in s {
      var p :| SdcPath(src, p) && p[|p| - 1] == f;
      SdcPathWithin(src, s, p);
    }
  }

  // ------------------------------------------------------------------------------------------
  // When discovery succeeds
  // ------------------------------------------------------------------------------------------

  predicate Conflicting(a: Assignment, b: Assignment) {
    IsHdl(a.kind) && IsHdl(b.kind) && a.target == b.target && !Compatible(a.kind, b.kind)
  }

  /** Two assignments conflict exactly when they read one file as VHDL and as one of the Verilog languages. */
  lemma ConflictingMeans(a: Assignment, b: Assignment)
    ensures Conflicting(a, b) <==>
      a.target == b.target && ((a.kind == Vhdl && b.kind in {Verilog, SystemVerilog})
                               || (b.kind == Vhdl && a.kind in {Verilog, SystemVerilog}))
  {
    assert Vhdl in {a.kind, b.kind} ==> {a.kind, b.kind} != {Verilog, SystemVerilog};
    if {a.kind, b.kind} <= {Verilog, SystemVerilog} && a.kind != b.kind {
      assert {a.kind, b.kind} == {Verilog, SystemVerilog};
    }
  }

  predicate BadGenerator(src: Project, a: Assignment) { a.kind == PreFlowScript && a.target != src.generator }

  ghost predicate AssignmentsSound(src: Project) {
    && (forall f :: Loaded(src, f) ==> ParsesAsAssignments(src, f))
    && (forall a :: LoadedAssignment(src, a) ==> !BadGenerator(src, a))
    && (forall a, b :: LoadedAssignment(src, a) && LoadedAssignment(src, b) ==> !Conflicting(a, b))
  }

  ghost predicate ConstraintsSound(src: Project) {
    forall f :: Constraint(src, f) ==> ParsesAsConstraints(src, f)
  }

  ghost predicate IsClosure(src: Project, paths: set<Path>) {
    forall x :: x in paths <==> InClosure(src, x)
  }

  ghost predicate AreVerilogInputs(src: Project, s: set<Path>) {
    forall x :: x in s <==>
      LoadedAssignment(src, Assignment(Verilog, x)) || LoadedAssignment(src, Assignment(SystemVerilog, x))
  }

  ghost predicate AreVhdlInputs(src: Project, s: set<Path>) {
    forall x :: x in s <==> LoadedAssignment(src, Assignment(Vhdl, x))
  }

  ghost predicate HdlSound(src: Project) {
    forall paths, verilog, vhdl ::
      IsClosure(src, paths) && AreVerilogInputs(src, verilog) && AreVhdlInputs(src, vhdl) ==>
      src.hdlInputsValid(paths, verilog, vhdl)
  }

  ghost predicate FilesSound(src: Project) {
    forall x :: InClosure(src, x) ==> x in src.files && x in src.tracked
  }

  /** The project passes every check of the script. */
  ghost predicate Sound(src: Project) {
    AssignmentsSound(src) && ConstraintsSound(src) && HdlSound(src) && FilesSound(src)
  }
}

module SourceClosure {
  import opened Outcomes
  import opened SourceGraph
  import LexOrder

  datatype ClosureError =
    | UnreadableAssignmentFile
    | UnreviewedGenerator
    | ConflictingLanguages
    | UnreadableConstraintFile
    | InvalidHdlInputs
    | UntrackedOrMissingInput

  /** The variables the assignment loop updates. */
  datatype Scan = Scan(discovered: set<Path>, kinds: map<Path, Kind>, queue: seq<Path>, sdcQueue: seq<Path>)

  ghost predicate IsTarget(seen: set<Assignment>, x: Path) {
    exists k :: Assignment(k, x) in seen
  }

  /** The scan holds exactly what the assignments seen so far contribute. */
  ghost predicate Records(src: Project, scan: Scan, seen: set<Assignment>) {
    && (forall x :: x in scan.discovered <==> x in src.projectFiles || IsTarget(seen, x))
    && (forall x :: x in scan.sdcQueue <==> Assignment(Sdc, x) in seen)
    && (forall a :: a in seen && IsHdl(a.kind) ==> a.target in scan.kinds && Compatible(scan.kinds[a.target], a.kind))
    && (forall t :: t in scan.kinds ==> IsHdl(scan.kinds[t]) && Assignment(scan.kinds[t], t) in seen)
    && (forall a :: a in seen ==> !BadGenerator(src, a))
  }

  function QipTargets(list: seq<Assignment>): seq<Path> {
    if list == [] then []
    else
      var init, last := list[..|list| - 1], list[|list| - 1];
      QipTargets(init) + (if last.kind == Qip then [last.target] else [])
  }

  lemma {:induction false} QipTargetsMembers(list: seq<Assignment>, x: Path)
    ensures x in QipTargets(list) <==> Assignment(Qip, x) in list
  {
    if list != [] {
      assert list == list[..|list| - 1] + [list[|list| - 1]];
      QipTargetsMembers(list[..|list| - 1], x);
    }
  }

  ghost predicate HasProblem(src: Project, assignments: set<Assignment>) {
    (exists a :: a in assignments && BadGenerator(src, a)) ||
    (exists a, b :: a in assignments && b in assignments && Conflicting(a, b))
  }

  /** One assignment of the inner loop. */
  method Absorb(src: Project, scan: Scan, a: Assignment, ghost seen: set<Assignment>)
    returns (r: Result<Scan, ClosureError>)
    requires Records(src, scan, seen)
    ensures r.Ok? ==> Records(src, r.value, seen + {a})
    ensures r.Ok? ==> r.value.queue == scan.queue + (if a.kind == Qip then [a.target] else [])
    ensures r.Err? ==> HasProblem(src, seen + {a})
  {
    if a.kind == PreFlowScript && a.target != src.generator {
      assert BadGenerator(src, a);
      return Err(UnreviewedGenerator);
    }
    var next := scan.(discovered := scan.discovered + {a.target});
    if IsHdl(a.kind) {
      var previous := if a.target in scan.kinds then scan.kinds[a.target] else a.kind;
      next := next.(kinds := scan.kinds[a.target := previous]);
      if previous != a.kind && {previous, a.kind} != {Verilog, SystemVerilog} {
        assert Conflicting(Assignment(previous, a.target), a);
        return Err(ConflictingLanguages);
      }
    }
    if a.kind == Qip {
      next := next.(queue := next.queue + [a.target]);
    } else if a.kind == Sdc {
      next := next.(sdcQueue := next.sdcQueue + [a.target]);
    }
    return Ok(next);
  }

  ghost function Members<T>(list: seq<T>): set<T> { set a | a in list }

  /** The inner loop over one file's assignments. */
  method AbsorbAll(src: Project, scan: Scan, list: seq<Assignment>, ghost seen: set<Assignment>)
    returns (r: Result<Scan, ClosureError>)
    requires Records(src, scan, seen)
    ensures r.Ok? ==> Records(src, r.value, seen + Members(list)) && r.value.queue == scan.queue + QipTargets(list)
    ensures r.Err? ==> HasProblem(src, seen + Members(list))
  {
    var current := scan;
    ghost var all := seen + Members(list);
    for i := 0 to |list|
      invariant Records(src, current, seen + Members(list[..i]))
      invariant current.queue == scan.queue + QipTargets(list[..i])
    {
      ghost var before := seen + Members(list[..i]);
      assert list[..i + 1] == list[..i] + [list[i]];
      assert list[..i + 1][..i] == list[..i];
      assert before + {list[i]} == seen + Members(list[..i + 1]);
      var step := Absorb(src, current, list[i], before);
      if step.Err? {
        assert before + {list[i]} <= all;
        return Err(step.error);
      }
      current := step.value;
    }
    assert list[..|list|] == list;
    return Ok(current);
  }

  /** a stands in one of the parsed files. */
  ghost predicate AssignedIn(src: Project, parsed: set<Path>, a: Assignment) {
    exists f :: f in parsed && a in Assigns(src, f)
  }

  ghost predicate SeenFrom(src: Project, parsed: set<Path>, seen: set<Assignment>) {
    forall a :: a in seen <==> AssignedIn(src, parsed, a)
  }

  lemma AssignedInStep(src: Project, parsed: set<Path>, f: Path, a: Assignment)
    ensures AssignedIn(src, parsed + {f}, a) <==> AssignedIn(src, parsed, a) || a in Assigns(src, f)
  {
    if AssignedIn(src, parsed, a) {
      var g :| g in parsed && a in Assigns(src, g);
      assert g in parsed + {f};
    }
    if a in Assigns(src, f) { assert f in parsed + {f}; }
  }

  /** Everything queued or parsed is loaded, and nothing reached so far is forgotten. */
  ghost predicate Frontier(src: Project, parsed: set<Path>, queue: seq<Path>, seen: set<Assignment>) {
    && (forall f :: f in parsed ==> Loaded(src, f) && ParsesAsAssignments(src, f))
    && (forall f :: f in queue ==> Loaded(src, f))
    && (forall f :: f in src.roots ==> f in parsed || f in queue)
    && (forall g :: Assignment(Qip, g) in seen ==> g in parsed || g in queue)
  }

  lemma FrontierStep(src: Project, parsed: set<Path>, queue: seq<Path>, seen: set<Assignment>,
                     f: Path, list: seq<Assignment>)
    requires queue != [] && queue[0] == f && ParsesAsAssignments(src, f) && list == Assigns(src, f)
    requires Frontier(src, parsed, queue, seen)
    ensures Frontier(src, parsed + {f}, queue[1..] + QipTargets(list), seen + Members(list))
  {
    forall g ensures g in QipTargets(list) <==> Assignment(Qip, g) in list { QipTargetsMembers(list, g); }
    forall g | Assignment(Qip, g) in list ensures Loaded(src, g) { LoadedStep(src, f, g); }
    assert queue == [f] + queue[1..];
  }

  lemma SeenStep(src: Project, parsed: set<Path>, seen: set<Assignment>, f: Path)
    requires SeenFrom(src, parsed, seen)
    ensures SeenFrom(src, parsed + {f}, seen + Members(Assigns(src, f)))
  {
    forall a ensures a in seen + Members(Assigns(src, f)) <==> AssignedIn(src, parsed + {f}, a) {
      AssignedInStep(src, parsed, f, a);
    }
  }

  lemma FrontierDrop(src: Project, parsed: set<Path>, queue: seq<Path>, seen: set<Assignment>)
    requires queue != [] && queue[0] in parsed && Frontier(src, parsed, queue, seen)
    ensures Frontier(src, parsed, queue[1..], seen)
  {
    assert queue == [queue[0]] + queue[1..];
  }

  lemma ProblemIsLoaded(src: Project, parsed: set<Path>, seen: set<Assignment>)
    requires SeenFrom(src, parsed, seen) && (forall f :: f in parsed ==> Loaded(src, f)) && HasProblem(src, seen)
    ensures !AssignmentsSound(src)
  {
    forall a | a in seen ensures LoadedAssignment(src, a) {}
  }

  /** What the first worklist establishes. */
  ghost predicate AllAssignments(src: Project, scan: Scan, seen: set<Assignment>) {
    Records(src, scan, seen) && forall a :: a in seen <==> LoadedAssignment(src, a)
  }

  lemma ParsedIsClosed(src: Project, parsed: set<Path>, seen: set<Assignment>)
    requires Frontier(src, parsed, [], seen) && SeenFrom(src, parsed, seen)
    ensures forall f :: f in parsed <==> Loaded(src, f)
    ensures forall a :: a in seen <==> LoadedAssignment(src, a)
  {
    forall f, g | f in parsed && Assignment(Qip, g) in Assigns(src, f) ensures g in parsed {
      assert AssignedIn(src, parsed, Assignment(Qip, g));
    }
    LoadedIsLeast(src, parsed);
    forall a ensures AssignedIn(src, parsed, a) <==> LoadedAssignment(src, a) {}
  }

  lemma SeenIsSound(src: Project, scan: Scan, seen: set<Assignment>)
    requires AllAssignments(src, scan, seen) && (forall f :: Loaded(src, f) ==> ParsesAsAssignments(src, f))
    ensures AssignmentsSound(src)
  {
    forall a, b | LoadedAssignment(src, a) && LoadedAssignment(src, b) ensures !Conflicting(a, b) {
      assert a in seen && b in seen;
    }
  }

  lemma Shrinks(files: set<Path>, parsed: set<Path>, f: Path)
    requires f in files && f !in parsed
    ensures |files - (parsed + {f})| < |files - parsed|
  {
    assert files - parsed == (files - (parsed + {f})) + {f};
  }

  lemma FrontierStart(src: Project)
    ensures Frontier(src, {}, src.roots, {}) && SeenFrom(src, {}, {})
    ensures Records(src, Scan(src.projectFiles, map[], src.roots, []), {})
  {
    forall f | f in src.roots ensures Loaded(src, f) { LoadedRoot(src, f); }
  }

  /** The QSF/QDF/QIP worklist; it terminates because every parsed file is one of the finitely many. */
  method ScanAssignments(src: Project) returns (r: Result<Scan, ClosureError>, ghost seen: set<Assignment>)
    ensures r.Ok? <==> AssignmentsSound(src)
    ensures r.Ok? ==> AllAssignments(src, r.value, seen)
  {
    var scan := Scan(src.projectFiles, map[], src.roots, []);
    var parsed: set<Path> := {};
    seen := {};
    FrontierStart(src);
    while scan.queue != []
      invariant parsed <= src.files.Keys
      invariant Frontier(src, parsed, scan.queue, seen) && SeenFrom(src, parsed, seen) && Records(src, scan, seen)
      decreases |src.files.Keys - parsed|, |scan.queue|
    {
      var relative := scan.queue[0];
      var rest := scan.(queue := scan.queue[1..]);
      if relative in parsed {
        FrontierDrop(src, parsed, scan.queue, seen);
        scan := rest;
      } else {
        if relative !in src.files || src.files[relative].assignments.None? {
          assert Loaded(src, relative);
          return Err(UnreadableAssignmentFile), seen;
        }
        var list := src.files[relative].assignments.value;
        FrontierStep(src, parsed, scan.queue, seen, relative, list);
        SeenStep(src, parsed, seen, relative);
        var absorbed := AbsorbAll(src, rest, list, seen);
        Shrinks(src.files.Keys, parsed, relative);
        seen := seen + Members(list);
        parsed := parsed + {relative};
        if absorbed.Err? {
          ProblemIsLoaded(src, parsed, seen);
          return Err(absorbed.error), seen;
        }
        scan := absorbed.value;
      }
    }
    ParsedIsClosed(src, parsed, seen);
    SeenIsSound(src, scan, seen);
    return Ok(scan), seen;
  }

  // ------------------------------------------------------------------------------------------
  // The read_sdc worklist
  // ------------------------------------------------------------------------------------------

  /** x is read by one of the parsed constraint files. */
  ghost predicate ReadIn(src: Project, parsed: set<Path>, x: Path) {
    exists f :: f in parsed && x in Reads(src, f)
  }

  lemma ReadInStep(src: Project, parsed: set<Path>, f: Path, x: Path)
    ensures ReadIn(src, parsed + {f}, x) <==> ReadIn(src, parsed, x) || x in Reads(src, f)
  {
    if ReadIn(src, parsed, x) {
      var g :| g in parsed && x in Reads(src, g);
      assert g in parsed + {f};
    }
    if x in Reads(src, f) { assert f in parsed + {f}; }
  }

  ghost predicate Covered(parsed: set<Path>, queue: seq<Path>, f: Path) { f in parsed || f in queue }

  ghost predicate SdcFrontier(src: Project, roots: seq<Path>, parsed: set<Path>, queue: seq<Path>) {
    && (forall f :: f in parsed ==> Constraint(src, f) && ParsesAsConstraints(src, f))
    && (forall f :: f in queue ==> Constraint(src, f))
    && (forall f :: f in roots ==> Covered(parsed, queue, f))
    && (forall g :: ReadIn(src, parsed, g) ==> Covered(parsed, queue, g))
  }

  ghost predicate SdcDiscovered(src: Project, discovered: set<Path>, base: set<Path>, parsed: set<Path>) {
    forall x :: x in discovered <==> x in base || ReadIn(src, parsed, x)
  }

  lemma CoveredStep(parsed: set<Path>, queue: seq<Path>, list: seq<Path>, f: Path)
    requires queue != [] && Covered(parsed, queue, f)
    ensures Covered(parsed + {queue[0]}, queue[1..] + list, f)
  {
    assert queue == [queue[0]] + queue[1..];
  }

  lemma SdcStep(src: Project, roots: seq<Path>, parsed: set<Path>, queue: seq<Path>, list: seq<Path>)
    requires queue != [] && ParsesAsConstraints(src, queue[0]) && list == Reads(src, queue[0])
    requires SdcFrontier(src, roots, parsed, queue)
    ensures SdcFrontier(src, roots, parsed + {queue[0]}, queue[1..] + list)
  {
    var f := queue[0];
    forall g | g in list ensures Constraint(src, g) { ConstraintStep(src, f, g); }
    forall g | g in roots ensures Covered(parsed + {f}, queue[1..] + list, g) { CoveredStep(parsed, queue, list, g); }
    forall g | ReadIn(src, parsed + {f}, g) ensures Covered(parsed + {f}, queue[1..] + list, g) {
      ReadInStep(src, parsed, f, g);
      if ReadIn(src, parsed, g) { CoveredStep(parsed, queue, list, g); }
    }
  }

  lemma DiscoveredStep(src: Project, discovered: set<Path>, base: set<Path>, parsed: set<Path>, f: Path)
    requires SdcDiscovered(src, discovered, base, parsed)
    ensures SdcDiscovered(src, discovered + Members(Reads(src, f)), base, parsed + {f})
  {
    forall x ensures x in discovered + Members(Reads(src, f)) <==> x in base || ReadIn(src, parsed + {f}, x) {
      ReadInStep(src, parsed, f, x);
    }
  }

  lemma SdcDrop(src: Project, roots: seq<Path>, parsed: set<Path>, queue: seq<Path>)
    requires queue != [] && queue[0] in parsed && SdcFrontier(src, roots, parsed, queue)
    ensures SdcFrontier(src, roots, parsed, queue[1..])
  {
    assert parsed + {queue[0]} == parsed && queue[1..] + [] == queue[1..];
    forall f | Covered(parsed, queue, f) ensures Covered(parsed, queue[1..], f) { CoveredStep(parsed, queue, [], f); }
  }

  lemma SdcParsedIsClosed(src: Project, roots: seq<Path>, parsed: set<Path>)
    requires forall f :: f in roots <==> LoadedAssignment(src, Assignment(Sdc, f))
    requires SdcFrontier(src, roots, parsed, [])
    ensures forall f :: f in parsed <==> Constraint(src, f)
  {
    forall f, g | f in parsed && g in Reads(src, f) ensures g in parsed { assert ReadIn(src, parsed, g); }
    forall f | LoadedAssignment(src, Assignment(Sdc, f)) ensures f in parsed { assert Covered(parsed, [], f); }
    ConstraintsAreLeast(src, parsed);
  }

  lemma SdcExhausted(src: Project, discovered: set<Path>, base: set<Path>, parsed: set<Path>)
    requires SdcDiscovered(src, discovered, base, parsed) && forall f :: f in parsed <==> Constraint(src, f)
    ensures forall x :: x in discovered <==> x in base || ReadByConstraint(src, x)
  {
    forall x ensures ReadIn(src, parsed, x) <==> ReadByConstraint(src, x) {}
  }

  lemma SdcStart(src: Project, base: set<Path>, roots: seq<Path>)
    requires forall f :: f in roots <==> LoadedAssignment(src, Assignment(Sdc, f))
    ensures SdcFrontier(src, roots, {}, roots) && SdcDiscovered(src, base, base, {})
  {
    forall f | f in roots ensures Constraint(src, f) { ConstraintRoot(src, f); }
  }

  method ScanConstraints(src: Project, base: set<Path>, roots: seq<Path>)
    returns (r: Result<set<Path>, ClosureError>)
    requires forall f :: f in roots <==> LoadedAssignment(src, Assignment(Sdc, f))
    ensures r.Ok? <==> ConstraintsSound(src)
    ensures r.Ok? ==> forall x :: x in r.value <==> x in base || ReadByConstraint(src, x)
  {
    var discovered, queue := base, roots;
    var parsed: set<Path> := {};
    SdcStart(src, base, roots);
    while queue != []
      invariant parsed <= src.files.Keys
      invariant SdcFrontier(src, roots, parsed, queue) && SdcDiscovered(src, discovered, base, parsed)
      decreases |src.files.Keys - parsed|, |queue|
    {
      var relative := queue[0];
      if relative in parsed {
        SdcDrop(src, roots, parsed, queue);
        queue := queue[1..];
      } else {
        if relative !in src.files || src.files[relative].constraints.None? {
          assert Constraint(src, relative);
          return Err(UnreadableConstraintFile);
        }
        var list := src.files[relative].constraints.value;
        SdcStep(src, roots, parsed, queue, list);
        DiscoveredStep(src, discovered, base, parsed, relative);
        Shrinks(src.files.Keys, parsed, relative);
        parsed := parsed + {relative};
        discovered := discovered + (set x | x in list);
        queue := queue[1..] + list;
      }
    }
    SdcParsedIsClosed(src, roots, parsed);
    SdcExhausted(src, discovered, base, parsed);
    return Ok(discovered);
  }

  // ------------------------------------------------------------------------------------------
  // Discovery
  // ------------------------------------------------------------------------------------------

  lemma ClosureFound(src: Project, scan: Scan, seen: set<Assignment>, discovered: set<Path>)
    requires AllAssignments(src, scan, seen)
    requires forall x :: x in discovered <==> x in scan.discovered || ReadByConstraint(src, x)
    ensures IsClosure(src, discovered)
  {
    forall x ensures IsTarget(seen, x) <==> exists k :: LoadedAssignment(src, Assignment(k, x)) {}
  }

  lemma LanguagesFound(src: Project, scan: Scan, seen: set<Assignment>, verilog: set<Path>, vhdl: set<Path>)
    requires AllAssignments(src, scan, seen)
    requires forall t :: t in verilog <==> t in scan.kinds && scan.kinds[t] != Vhdl
    requires forall t :: t in vhdl <==> t in scan.kinds && scan.kinds[t] == Vhdl
    ensures AreVerilogInputs(src, verilog) && AreVhdlInputs(src, vhdl)
  {
    forall t
      ensures t in verilog <==>
        LoadedAssignment(src, Assignment(Verilog, t)) || LoadedAssignment(src, Assignment(SystemVerilog, t))
      ensures t in vhdl <==> LoadedAssignment(src, Assignment(Vhdl, t))
    {
      LanguageOf(src, scan, seen, t);
    }
  }

  lemma LanguageOf(src: Project, scan: Scan, seen: set<Assignment>, t: Path)
    requires AllAssignments(src, scan, seen)
    ensures t in scan.kinds && scan.kinds[t] != Vhdl <==>
            LoadedAssignment(src, Assignment(Verilog, t)) || LoadedAssignment(src, Assignment(SystemVerilog, t))
    ensures t in scan.kinds && scan.kinds[t] == Vhdl <==> LoadedAssignment(src, Assignment(Vhdl, t))
  {
    forall k | k in {Verilog, SystemVerilog, Vhdl} && Assignment(k, t) in seen
      ensures t in scan.kinds && Compatible(scan.kinds[t], k)
    {
      KindRecorded(src, scan, seen, Assignment(k, t));
    }
    if t in scan.kinds { assert Assignment(scan.kinds[t], t) in seen; }
  }

  lemma KindRecorded(src: Project, scan: Scan, seen: set<Assignment>, a: Assignment)
    requires Records(src, scan, seen) && a in seen && IsHdl(a.kind)
    ensures a.target in scan.kinds && Compatible(scan.kinds[a.target], a.kind)
  {}

  lemma HdlDecided(src: Project, paths: set<Path>, verilog: set<Path>, vhdl: set<Path>)
    requires IsClosure(src, paths) && AreVerilogInputs(src, verilog) && AreVhdlInputs(src, vhdl)
    ensures HdlSound(src) <==> src.hdlInputsValid(paths, verilog, vhdl)
  {
    forall p, v, h | IsClosure(src, p) && AreVerilogInputs(src, v) && AreVhdlInputs(src, h)
      ensures p == paths && v == verilog && h == vhdl
    {}
  }

  /** _discover_source_graph: it succeeds exactly on sound projects and then returns the closure, sorted. */
  method DiscoverSourceGraph(src: Project) returns (r: Result<seq<Path>, ClosureError>)
    ensures r.Ok? <==> Sound(src)
    ensures r.Ok? ==> LexOrder.Ascending(r.value) && forall x :: x in r.value <==> InClosure(src, x)
  {
    var scanned, seen := ScanAssignments(src);
    if scanned.Err? { return Err(scanned.error); }
    var scan := scanned.value;
    var constrained := ScanConstraints(src, scan.discovered, scan.sdcQueue);
    if constrained.Err? { return Err(constrained.error); }
    var discovered := constrained.value;
    ClosureFound(src, scan, seen, discovered);
    var verilog := set t | t in scan.kinds && scan.kinds[t] != Vhdl;
    var vhdl := set t | t in scan.kinds && scan.kinds[t] == Vhdl;
    LanguagesFound(src, scan, seen, verilog, vhdl);
    HdlDecided(src, discovered, verilog, vhdl);
    if !src.hdlInputsValid(discovered, verilog, vhdl) { return Err(InvalidHdlInputs); }
    if exists x :: x in discovered && (x !in src.files || x !in src.tracked) {
      return Err(UntrackedOrMissingInput);
    }
    var paths := LexOrder.Sorted(discovered);
    return Ok(paths);
  }

  /** discover_source_paths: in the repository's own project every path found is a tracked file. */
  method DiscoverSourcePaths(files: map<Path, SourceFile>, tracked: set<Path>,
                             hdlInputsValid: (set<Path>, set<Path>, set<Path>) -> bool)
    returns (r: Result<seq<Path>, ClosureError>)
    ensures r.Ok? <==> Sound(SwanSong(files, tracked, hdlInputsValid))
    ensures r.Ok? ==> "src/fpga/ap_core.qsf" in r.value && forall x :: x in r.value ==> x in files && x in tracked
    ensures r.Ok? && "src/fpga/apf/build_id_gen.tcl" !in r.value ==>
      forall a :: LoadedAssignment(SwanSong(files, tracked, hdlInputsValid), a) ==> a.kind != PreFlowScript
  {
    var src := SwanSong(files, tracked, hdlInputsValid);
    r := DiscoverSourceGraph(src);
    assert "src/fpga/ap_core.qsf" in src.projectFiles;
  }
}
