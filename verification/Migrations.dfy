/** The migration runner (crates/contracts/src/registry.rs) and the executor it drives
    (crates/contracts/src/migration.rs). */
module Migrations {
  import opened Common

  datatype Migration = Migration(name: string, sql: string)

  datatype Module = Module(name: string, migrations: seq<Migration>)

  datatype Report = Report(applied: seq<string>, skipped: seq<string>)

  datatype Outcome = Finished(report: Report) | DuplicateModule(name: string) | ApplyFailed(id: string)

  function Id(moduleName: string, migrationName: string): string {
    moduleName + "::" + migrationName
  }

  function ModuleIds(m: Module): seq<string> {
    seq(|m.migrations|, i requires 0 <= i < |m.migrations| => Id(m.name, m.migrations[i].name))
  }

  /** Every migration's id: modules in registration order, migrations in declared order. */
  function Plan(modules: seq<Module>): seq<string> {
    if modules == [] then [] else Plan(modules[..|modules|-1]) + ModuleIds(modules[|modules|-1])
  }

  function Names(modules: seq<Module>): set<string> {
    set m | m in modules :: m.name
  }

  /** The first name that an earlier module already has. */
  function FirstDuplicate(modules: seq<Module>): Option<string> {
    if modules == [] then None
    else
      var front, last := modules[..|modules|-1], modules[|modules|-1];
      var dup := FirstDuplicate(front);
      if dup.Some? then dup else if last.name in Names(front) then Some(last.name) else None
  }

  /** Where a run stands: the executor's record, the report so far, and the id that failed, if any. */
  datatype Progress = Progress(applied: seq<string>, report: Report, failed: Option<string>)

  function ApplyNext(r: Progress, id: string, broken: set<string>): Progress {
    if r.failed.Some? then r
    else if id in r.applied then r.(report := r.report.(skipped := r.report.skipped + [id]))
    else if id in broken then r.(failed := Some(id))
    else r.(applied := r.applied + [id], report := r.report.(applied := r.report.applied + [id]))
  }

  /** Running a plan against an executor on which the ids in `broken` fail to apply. */
  function RunPlan(applied: seq<string>, plan: seq<string>, broken: set<string>): Progress {
    if plan == [] then Progress(applied, Report([], []), None)
    else ApplyNext(RunPlan(applied, plan[..|plan|-1], broken), plan[|plan|-1], broken)
  }

  class Executor {
    var applied: seq<string>
    /** Ids whose SQL the database refuses. */
    var broken: set<string>

    constructor (broken: set<string>)
      ensures applied == [] && this.broken == broken
    {
      applied, this.broken := [], broken;
    }

    method IsApplied(id: string) returns (found: bool)
      ensures found <==> id in applied
    {
      for i := 0 to |applied|
        invariant id !in applied[..i]
      {
        if applied[i] == id {
          return true;
        }
      }
      return false;
    }

    method Apply(id: string, sql: string) returns (ok: bool)
      modifies this`applied
      ensures ok <==> id !in broken
      ensures applied == if ok then old(applied) + [id] else old(applied)
    {
      ok := id !in broken;
      if ok {
        applied := applied + [id];
      }
    }
  }

  class ModuleRegistry {
    const modules: seq<Module>

    constructor (modules: seq<Module>)
      ensures this.modules == modules
    {
      this.modules := modules;
    }

    method EnsureUniqueNames() returns (duplicate: Option<string>)
      ensures duplicate == FirstDuplicate(modules)
    {
      var seen := {};
      for i := 0 to |modules|
        invariant seen == Names(modules[..i]) && FirstDuplicate(modules[..i]) == None
      {
        PrefixGrows(modules, i);
        if modules[i].name in seen {
          DuplicateStays(modules, i + 1);
          return Some(modules[i].name);
        }
        seen := seen + {modules[i].name};
      }
      assert modules[..|modules|] == modules;
      return None;
    }

    /** The runner's inner loop: one module's migrations, after the plan `done`. */
    method RunModule(executor: Executor, m: Module, report: Report, ghost before: seq<string>, ghost done: seq<string>)
      returns (report': Report, failed: Option<string>)
      requires RunPlan(before, done, executor.broken) == Progress(executor.applied, report, None)
      modifies executor`applied
      ensures RunPlan(before, done + ModuleIds(m), executor.broken) == Progress(executor.applied, report', failed)
    {
      ghost var ids := ModuleIds(m);
      report' := report;
      assert done + ids[..0] == done;
      for j := 0 to |m.migrations|
        invariant RunPlan(before, done + ids[..j], executor.broken) == Progress(executor.applied, report', None)
      {
        var id := Id(m.name, m.migrations[j].name);
        NextId(before, done, ids, j, executor.broken);
        var found := executor.IsApplied(id);
        if found {
          report' := report'.(skipped := report'.skipped + [id]);
        } else {
          var ok := executor.Apply(id, m.migrations[j].sql);
          if !ok {
            return report', Some(id);
          }
          report' := report'.(applied := report'.applied + [id]);
        }
      }
      assert ids[..|ids|] == ids;
      failed := None;
    }

    method RunMigrations(executor: Executor) returns (outcome: Outcome)
      modifies executor`applied
      ensures FirstDuplicate(modules).Some? ==>
                executor.applied == old(executor.applied) && outcome == DuplicateModule(FirstDuplicate(modules).value)
      ensures FirstDuplicate(modules).None? ==>
                var r := RunPlan(old(executor.applied), Plan(modules), executor.broken);
                && executor.applied == r.applied
                && outcome == if r.failed.Some? then ApplyFailed(r.failed.value) else Finished(r.report)
    {
      var duplicate := EnsureUniqueNames();
      if duplicate.Some? {
        return DuplicateModule(duplicate.value);
      }
      ghost var before := executor.applied;
      var report := Report([], []);
      for i := 0 to |modules|
        invariant RunPlan(before, Plan(modules[..i]), executor.broken) == Progress(executor.applied, report, None)
      {
        PrefixGrows(modules, i);
        var failed;
        report, failed := RunModule(executor, modules[i], report, before, Plan(modules[..i]));
        if failed.Some? {
          PlanPrefix(modules, i + 1);
          FailureStays(before, Plan(modules[..i+1]), Plan(modules), executor.broken);
          return ApplyFailed(failed.value);
        }
      }
      assert modules[..|modules|] == modules;
      return Finished(report);
    }
  }

  lemma PrefixGrows(modules: seq<Module>, i: nat)
    requires i < |modules|
    ensures Names(modules[..i+1]) == Names(modules[..i]) + {modules[i].name}
    ensures Plan(modules[..i+1]) == Plan(modules[..i]) + ModuleIds(modules[i])
    ensures FirstDuplicate(modules[..i]) == None ==>
              FirstDuplicate(modules[..i+1]) == if modules[i].name in Names(modules[..i]) then Some(modules[i].name)
                  else None
  {
    var longer := modules[..i+1];
    assert longer[..|longer|-1] == modules[..i] && longer == modules[..i] + [modules[i]];
  }

  /** One more id of the plan `done + ids`; a failure there is the outcome of the whole plan. */
  lemma NextId(before: seq<string>, done: seq<string>, ids: seq<string>, j: nat, broken: set<string>)
    requires j < |ids|
    ensures RunPlan(before, done + ids[..j+1], broken) ==
            ApplyNext(RunPlan(before, done + ids[..j], broken), ids[j], broken)
    ensures RunPlan(before, done + ids[..j+1], broken).failed.Some? ==>
              RunPlan(before, done + ids, broken) == RunPlan(before, done + ids[..j+1], broken)
  {
    assert done + ids[..j+1] == done + ids[..j] + [ids[j]];
    RunAppend(before, done + ids[..j], ids[j], broken);
    assert done + ids[..j+1] <= done + ids;
    if RunPlan(before, done + ids[..j+1], broken).failed.Some? {
      FailureStays(before, done + ids[..j+1], done + ids, broken);
    }
  }

  lemma RunAppend(applied: seq<string>, plan: seq<string>, id: string, broken: set<string>)
    ensures RunPlan(applied, plan + [id], broken) == ApplyNext(RunPlan(applied, plan, broken), id, broken)
  {
    assert (plan + [id])[..|plan|] == plan;
  }

  lemma {:induction false} DuplicateStays(modules: seq<Module>, i: nat)
    requires i <= |modules| && FirstDuplicate(modules[..i]).Some?
    ensures FirstDuplicate(modules) == FirstDuplicate(modules[..i])
    decreases |modules|
  {
    if i < |modules| {
      var front := modules[..|modules|-1];
      assert front[..i] == modules[..i];
      DuplicateStays(front, i);
    } else {
      assert modules[..i] == modules;
    }
  }

  lemma {:induction false} PlanPrefix(modules: seq<Module>, i: nat)
    requires i <= |modules|
    ensures Plan(modules[..i]) <= Plan(modules)
    decreases |modules|
  {
    if i < |modules| {
      var front := modules[..|modules|-1];
      assert front[..i] == modules[..i];
      PlanPrefix(front, i);
    } else {
      assert modules[..i] == modules;
    }
  }

  lemma {:induction false} FailureStays(applied: seq<string>, plan: seq<string>, longer: seq<string>,
      broken: set<string>)
    requires plan <= longer && RunPlan(applied, plan, broken).failed.Some?
    ensures RunPlan(applied, longer, broken) == RunPlan(applied, plan, broken)
    decreases |longer|
  {
    if |plan| < |longer| {
      FailureStays(applied, plan, longer[..|longer|-1], broken);
    } else {
      assert plan == longer;
    }
  }

  /** A registry is refused exactly when two modules share a name, and the name reported is shared. */
  lemma {:induction false} FirstDuplicateIff(modules: seq<Module>)
    ensures FirstDuplicate(modules) == None <==>
            forall i, j :: 0 <= i < j < |modules| ==> modules[i].name != modules[j].name
    ensures FirstDuplicate(modules).Some? ==>
              exists i, j :: 0 <= i < j < |modules| &&
                  modules[i].name == modules[j].name == FirstDuplicate(modules).value
  {
    if modules != [] {
      var front, last := modules[..|modules|-1], modules[|modules|-1];
      FirstDuplicateIff(front);
      if last.name in Names(front) {
        var i :| 0 <= i < |front| && front[i].name == last.name;
        assert modules[i].name == modules[|front|].name;
      } else {
        forall i | 0 <= i < |front| ensures modules[i].name != last.name {
          assert front[i] in front;
        }
      }
    }
  }

  /** How many migrations the modules before the i-th declare. */
  function Before(modules: seq<Module>, i: nat): nat
    requires i <= |modules|
  {
    if i == 0 then 0 else Before(modules, i - 1) + |modules[i-1].migrations|
  }

  lemma {:induction false} BeforeIgnoresLater(modules: seq<Module>, i: nat)
    requires i < |modules|
    ensures Before(modules[..|modules|-1], i) == Before(modules, i)
  {
    if i > 0 {
      BeforeIgnoresLater(modules, i - 1);
    }
  }

  lemma {:induction false} PlanLength(modules: seq<Module>)
    ensures |Plan(modules)| == Before(modules, |modules|)
  {
    if modules != [] {
      PlanLength(modules[..|modules|-1]);
      BeforeIgnoresLater(modules, |modules| - 1);
    }
  }

  /** The plan's order: modules as registered, each module's migrations as declared, each under its
      module's name. */
  lemma {:induction false} PlanAt(modules: seq<Module>, i: nat, j: nat)
    requires i < |modules| && j < |modules[i].migrations|
    ensures Before(modules, i) + j < |Plan(modules)|
    ensures Plan(modules)[Before(modules, i) + j] == modules[i].name + "::" + modules[i].migrations[j].name
    decreases |modules|
  {
    var front := modules[..|modules|-1];
    PlanLength(front);
    BeforeIgnoresLater(modules, i);
    if i < |front| {
      PlanAt(front, i, j);
    } else {
      BeforeIgnoresLater(modules, |front|);
    }
  }

  // -------- what a run does --------

  /** The first occurrences in the plan of the ids not applied yet. */
  function Pending(plan: seq<string>, applied: seq<string>): seq<string> {
    if plan == [] then []
    else
      var front, last := plan[..|plan|-1], plan[|plan|-1];
      if last in applied || last in front then Pending(front, applied) else Pending(front, applied) + [last]
  }

  lemma {:induction false} PendingMembers(plan: seq<string>, applied: seq<string>, id: string)
    ensures id in Pending(plan, applied) <==> id in plan && id !in applied
  {
    if plan != [] {
      var front, last := plan[..|plan|-1], plan[|plan|-1];
      PendingMembers(front, applied, id);
      assert plan == front + [last];
    }
  }

  /** Of two pending ids the one that comes first in the plan is applied first. */
  lemma {:induction false} PendingKeepsOrder(plan: seq<string>, applied: seq<string>, i: nat, j: nat)
    returns (x: nat, y: nat)
    requires i < j < |plan| && plan[i] !in plan[..i] && plan[j] !in plan[..j]
    requires plan[i] !in applied && plan[j] !in applied
    ensures x < y < |Pending(plan, applied)|
    ensures Pending(plan, applied)[x] == plan[i] && Pending(plan, applied)[y] == plan[j]
    decreases |plan|
  {
    var front := plan[..|plan|-1];
    assert front[..i] == plan[..i];
    if j < |front| {
      assert front[..j] == plan[..j];
      x, y := PendingKeepsOrder(front, applied, i, j);
    } else {
      assert plan[..j] == front;
      PendingMembers(front, applied, plan[i]);
      x :| 0 <= x < |Pending(front, applied)| && Pending(front, applied)[x] == plan[i];
      y := |Pending(front, applied)|;
    }
  }

  /** A run that does not fail applies exactly the pending ids, in plan order, each once, and skips
      the rest of the plan. */
  lemma RunAppliesPending(applied: seq<string>, plan: seq<string>, broken: set<string>)
    ensures var r := RunPlan(applied, plan, broken);
            r.failed == None ==>
              && r.applied == applied + Pending(plan, applied)
              && r.report.applied == Pending(plan, applied)
              && |r.report.applied| + |r.report.skipped| == |plan|
              && multiset(r.report.applied + r.report.skipped) == multiset(plan)
    ensures (RunPlan(applied, plan, broken).failed == None) <==> forall id <- Pending(plan, applied) :: id !in broken
  {
    if RunPlan(applied, plan, broken).failed == None {
      RunApplies(applied, plan, broken);
      RunReportsAll(applied, plan, broken);
      RunReportsLength(applied, plan, broken);
    }
    RunFailsIff(applied, plan, broken);
  }

  lemma {:induction false} RunApplies(applied: seq<string>, plan: seq<string>, broken: set<string>)
    requires RunPlan(applied, plan, broken).failed == None
    ensures var r := RunPlan(applied, plan, broken);
            r.applied == applied + Pending(plan, applied) && r.report.applied == Pending(plan, applied)
  {
    if plan != [] {
      var front, last := plan[..|plan|-1], plan[|plan|-1];
      RunApplies(applied, front, broken);
      PendingMembers(front, applied, last);
    }
  }

  lemma RunReportsAll(applied: seq<string>, plan: seq<string>, broken: set<string>)
    requires RunPlan(applied, plan, broken).failed == None
    ensures var report := RunPlan(applied, plan, broken).report;
            multiset(report.applied + report.skipped) == multiset(plan)
  {
    var report := RunPlan(applied, plan, broken).report;
    forall id: string ensures multiset(report.applied + report.skipped)[id] == multiset(plan)[id] {
      RunReportsEach(applied, plan, broken, id);
    }
  }

  lemma {:induction false} RunReportsEach(applied: seq<string>, plan: seq<string>, broken: set<string>, id: string)
    requires RunPlan(applied, plan, broken).failed == None
    ensures var report := RunPlan(applied, plan, broken).report;
            multiset(report.applied)[id] + multiset(report.skipped)[id] == multiset(plan)[id]
  {
    if plan != [] {
      var front, last := plan[..|plan|-1], plan[|plan|-1];
      RunReportsEach(applied, front, broken, id);
      assert plan == front + [last];
    }
  }

  lemma {:induction false} RunReportsLength(applied: seq<string>, plan: seq<string>, broken: set<string>)
    requires RunPlan(applied, plan, broken).failed == None
    ensures var report := RunPlan(applied, plan, broken).report;
            |report.applied| + |report.skipped| == |plan|
  {
    if plan != [] {
      RunReportsLength(applied, plan[..|plan|-1], broken);
    }
  }

  lemma {:induction false} RunFailsIff(applied: seq<string>, plan: seq<string>, broken: set<string>)
    ensures (RunPlan(applied, plan, broken).failed == None) <==> forall id <- Pending(plan, applied) :: id !in broken
  {
    if plan != [] {
      var front, last := plan[..|plan|-1], plan[|plan|-1];
      RunFailsIff(applied, front, broken);
      if RunPlan(applied, front, broken).failed == None {
        RunApplies(applied, front, broken);
        PendingMembers(front, applied, last);
      }
    }
  }

  /** A run fails exactly when some pending id is broken; it stops at the first such id, and leaves
      the ids before it applied and nothing else. */
  lemma {:induction false} FailedRunStops(applied: seq<string>, plan: seq<string>, broken: set<string>) returns (k: nat)
    requires RunPlan(applied, plan, broken).failed.Some?
    ensures k < |plan|
    ensures var r := RunPlan(applied, plan, broken);
            && r.failed == Some(plan[k]) && plan[k] in broken && plan[k] !in r.applied
            && r.applied == applied + Pending(plan[..k], applied)
    ensures forall id <- Pending(plan[..k], applied) :: id !in broken
  {
    var front := plan[..|plan|-1];
    if RunPlan(applied, front, broken).failed.Some? {
      k := FailedRunStops(applied, front, broken);
      assert front[..k] == plan[..k];
    } else {
      k := |plan| - 1;
      RunAppliesPending(applied, front, broken);
    }
  }

  /** Applying a prefix first leaves exactly the rest pending, in the same order. */
  lemma {:induction false} PendingResumes(plan: seq<string>, applied: seq<string>, k: nat)
    requires k <= |plan|
    ensures Pending(plan[..k], applied) + Pending(plan, applied + Pending(plan[..k], applied)) == Pending(plan, applied)
    decreases |plan|
  {
    var first := Pending(plan[..k], applied);
    if k == |plan| {
      assert plan[..k] == plan;
      NothingPending(plan, applied + first, applied);
    } else {
      var front, last := plan[..|plan|-1], plan[|plan|-1];
      assert front[..k] == plan[..k];
      PendingResumes(front, applied, k);
      PendingMembers(plan[..k], applied, last);
      assert last in plan[..k] ==> last in front;
    }
  }

  lemma {:induction false} NothingPending(plan: seq<string>, applied: seq<string>, before: seq<string>)
    requires forall id <- Pending(plan, before) :: id in applied
    requires forall id <- before :: id in applied
    ensures Pending(plan, applied) == []
  {
    if plan != [] {
      var front, last := plan[..|plan|-1], plan[|plan|-1];
      forall id <- Pending(front, before) ensures id in applied {
        assert id in Pending(plan, before);
      }
      NothingPending(front, applied, before);
      PendingMembers(plan, before, last);
    }
  }

  /** Runs one after another, each with its own broken ids. */
  function RunAll(applied: seq<string>, plan: seq<string>, attempts: seq<set<string>>): seq<string>
    decreases |attempts|
  {
    if attempts == [] then applied
    else RunAll(RunPlan(applied, plan, attempts[0]).applied, plan, attempts[1..])
  }

  /** A run stops after a prefix of the plan and leaves exactly the rest pending, in the same order. */
  lemma {:induction false} RunLeavesTheRest(applied: seq<string>, plan: seq<string>, broken: set<string>)
    ensures var now := RunPlan(applied, plan, broken).applied;
            now + Pending(plan, now) == applied + Pending(plan, applied)
  {
    var k := RunStopsAt(applied, plan, broken);
    var first := Pending(plan[..k], applied);
    var rest := Pending(plan, applied + first);
    PendingResumes(plan, applied, k);
    assert applied + first + rest == applied + (first + rest);
  }

  lemma RunStopsAt(applied: seq<string>, plan: seq<string>, broken: set<string>) returns (k: nat)
    ensures k <= |plan| && RunPlan(applied, plan, broken).applied == applied + Pending(plan[..k], applied)
  {
    if RunPlan(applied, plan, broken).failed.Some? {
      k := FailedRunStops(applied, plan, broken);
    } else {
      k := |plan|;
      assert plan[..k] == plan;
      RunApplies(applied, plan, broken);
    }
  }

  /** Resumption: after any number of runs, failed wherever, a run that succeeds leaves the same
      applied sequence as one uninterrupted run. */
  lemma {:induction false} ResumingReachesTheSame(applied: seq<string>, plan: seq<string>, attempts: seq<set<string>>)
    ensures RunPlan(RunAll(applied, plan, attempts), plan, {}).applied == RunPlan(applied, plan, {}).applied
    decreases |attempts|
  {
    if attempts != [] {
      var now := RunPlan(applied, plan, attempts[0]).applied;
      ResumingReachesTheSame(now, plan, attempts[1..]);
      RunLeavesTheRest(applied, plan, attempts[0]);
      RunAppliesPending(applied, plan, {});
      RunAppliesPending(now, plan, {});
    }
  }

  /** Idempotence: after a successful run another one applies nothing, whatever is broken by then. */
  lemma SecondRunAppliesNothing(applied: seq<string>, plan: seq<string>, broken: set<string>, later: set<string>)
    requires RunPlan(applied, plan, broken).failed == None
    ensures var r := RunPlan(RunPlan(applied, plan, broken).applied, plan, later);
            r.failed == None && r.report.applied == [] && r.applied == RunPlan(applied, plan, broken).applied
  {
    var after := RunPlan(applied, plan, broken).applied;
    RunAppliesPending(applied, plan, broken);
    NothingPending(plan, after, applied);
    RunAppliesPending(after, plan, later);
  }

  // -------- isolation --------

  /** Neither name, followed by the separator, begins the other followed by it. */
  predicate Isolated(a: string, b: string) {
    !(a + "::" <= b + "::") && !(b + "::" <= a + "::")
  }

  /** Two module names can never produce one id exactly when they are isolated. */
  lemma NamespacesCollideIff(a: string, b: string)
    ensures Isolated(a, b) <==> forall x: string, y: string :: Id(a, x) != Id(b, y)
  {
    var p, q := a + "::", b + "::";
    forall x: string, y: string | Id(a, x) == Id(b, y) ensures p <= q || q <= p {
      assert Id(a, x) == p + x && Id(b, y) == q + y;
      PrefixesOfOne(p, x, q, y);
    }
    if p <= q {
      var x := q[|p|..];
      assert q == p + x && q == q + [];
      assert Id(a, x) == Id(b, "");
    } else if q <= p {
      var y := p[|q|..];
      assert p == q + y && p == p + [];
      assert Id(a, "") == Id(b, y);
    }
  }

  lemma PrefixesOfOne(p: string, x: string, q: string, y: string)
    requires p + x == q + y
    ensures p <= q || q <= p
  {
    if |p| <= |q| {
      assert p == (p + x)[..|p|] == (q + y)[..|p|] == q[..|p|];
    } else {
      assert q == (q + y)[..|q|] == (p + x)[..|q|] == p[..|q|];
    }
  }

  lemma LongerNameHasColon(a: string, x: string, b: string, y: string)
    requires Id(a, x) == Id(b, y) && |a| < |b|
    ensures ':' in b
  {
    assert Id(a, x)[|a|] == ':';
    assert Id(b, y)[|a|] == b[|a|];
  }

  /** Without colons in the names, an id determines its module and its migration. */
  lemma ColonFreeIdsAreInjective(a: string, b: string, x: string, y: string)
    requires ':' !in a && ':' !in b
    requires Id(a, x) == Id(b, y)
    ensures a == b && x == y
  {
    if |a| < |b| {
      LongerNameHasColon(a, x, b, y);
    } else if |b| < |a| {
      LongerNameHasColon(b, y, a, x);
    } else {
      assert a == Id(a, x)[..|a|] == Id(b, y)[..|b|] == b;
      assert x == Id(a, x)[|a|+2..] == Id(b, y)[|b|+2..] == y;
    }
  }

  lemma ColonFreeNamesAreIsolated(a: string, b: string)
    requires ':' !in a && ':' !in b && a != b
    ensures Isolated(a, b)
  {
    forall x: string, y: string ensures Id(a, x) != Id(b, y) {
      if Id(a, x) == Id(b, y) {
        ColonFreeIdsAreInjective(a, b, x, y);
      }
    }
    NamespacesCollideIff(a, b);
  }

  function Restrict(ids: seq<string>, mine: set<string>): seq<string> {
    if ids == [] then []
    else
      var front, last := Restrict(ids[..|ids|-1], mine), ids[|ids|-1];
      if last in mine then front + [last] else front
  }

  lemma {:induction false} RestrictConcat(a: seq<string>, b: seq<string>, mine: set<string>)
    ensures Restrict(a + b, mine) == Restrict(a, mine) + Restrict(b, mine)
    decreases |b|
  {
    if b == [] {
      assert a + b == a;
    } else {
      assert (a + b)[..|a + b|-1] == a + b[..|b|-1];
      RestrictConcat(a, b[..|b|-1], mine);
    }
  }

  lemma {:induction false} RestrictMembers(ids: seq<string>, mine: set<string>, id: string)
    ensures id in Restrict(ids, mine) <==> id in ids && id in mine
  {
    if ids != [] {
      RestrictMembers(ids[..|ids|-1], mine, id);
      assert ids == ids[..|ids|-1] + [ids[|ids|-1]];
    }
  }

  lemma {:induction false} RestrictPending(plan: seq<string>, applied: seq<string>, mine: set<string>)
    ensures Restrict(Pending(plan, applied), mine) == Pending(Restrict(plan, mine), Restrict(applied, mine))
  {
    if plan != [] {
      var front, last := plan[..|plan|-1], plan[|plan|-1];
      RestrictPending(front, applied, mine);
      RestrictMembers(applied, mine, last);
      RestrictMembers(front, mine, last);
      var pending := Pending(front, applied);
      assert (pending + [last])[..|pending|] == pending;
      var mineFront := Restrict(front, mine);
      assert (mineFront + [last])[..|mineFront|] == mineFront;
    }
  }

  lemma {:induction false} RestrictAll(ids: seq<string>, mine: set<string>)
    requires forall id <- ids :: id in mine
    ensures Restrict(ids, mine) == ids
  {
    if ids != [] {
      var front := ids[..|ids|-1];
      assert forall id <- front :: id in ids;
      RestrictAll(front, mine);
      assert ids == front + [ids[|ids|-1]];
    }
  }

  lemma {:induction false} RestrictNone(ids: seq<string>, mine: set<string>)
    requires forall id <- ids :: id !in mine
    ensures Restrict(ids, mine) == []
  {
    if ids != [] {
      var front := ids[..|ids|-1];
      assert forall id <- front :: id in ids;
      RestrictNone(front, mine);
    }
  }

  function IdSet(m: Module): set<string> {
    set id | id in ModuleIds(m)
  }

  /** The plan restricted to one module's ids is that module's own plan. */
  lemma {:induction false} PlanRestricts(modules: seq<Module>, i: nat)
    requires i < |modules|
    requires forall j :: 0 <= j < |modules| && j != i ==> Isolated(modules[j].name, modules[i].name)
    ensures Restrict(Plan(modules), IdSet(modules[i])) == ModuleIds(modules[i])
    decreases |modules|
  {
    var front, last, mine := modules[..|modules|-1], modules[|modules|-1], IdSet(modules[i]);
    RestrictConcat(Plan(front), ModuleIds(last), mine);
    if i == |modules| - 1 {
      OthersRestrictToNothing(front, modules[i]);
      RestrictAll(ModuleIds(last), mine);
    } else {
      PlanRestricts(front, i);
      ModulesAreDisjoint(last, modules[i]);
      RestrictNone(ModuleIds(last), mine);
    }
  }

  lemma ModulesAreDisjoint(a: Module, b: Module)
    requires Isolated(a.name, b.name)
    ensures forall id <- ModuleIds(a) :: id !in IdSet(b)
  {
    forall id <- ModuleIds(a) ensures id !in IdSet(b) {
      if id in IdSet(b) {
        var i :| 0 <= i < |a.migrations| && id == Id(a.name, a.migrations[i].name);
        var j :| 0 <= j < |b.migrations| && id == Id(b.name, b.migrations[j].name);
        NamespacesCollideIff(a.name, b.name);
      }
    }
  }

  lemma {:induction false} OthersRestrictToNothing(modules: seq<Module>, m: Module)
    requires forall other <- modules :: Isolated(other.name, m.name)
    ensures Restrict(Plan(modules), IdSet(m)) == []
  {
    if modules != [] {
      var front, last := modules[..|modules|-1], modules[|modules|-1];
      OthersRestrictToNothing(front, m);
      ModulesAreDisjoint(last, m);
      RestrictConcat(Plan(front), ModuleIds(last), IdSet(m));
      RestrictNone(ModuleIds(last), IdSet(m));
    }
  }

  /** Isolation: unless another module's namespace collides with it, what a successful run leaves of one module's
      migrations is what running that module alone leaves. */
  lemma ModulesRunInIsolation(modules: seq<Module>, i: nat, applied: seq<string>)
    requires i < |modules|
    requires forall j :: 0 <= j < |modules| && j != i ==> Isolated(modules[j].name, modules[i].name)
    ensures var mine := IdSet(modules[i]);
            Restrict(RunPlan(applied, Plan(modules), {}).applied, mine)
            == RunPlan(Restrict(applied, mine), Plan([modules[i]]), {}).applied
  {
    var mine, plan := IdSet(modules[i]), Plan(modules);
    HealthyRun(applied, plan);
    RestrictConcat(applied, Pending(plan, applied), mine);
    RestrictPending(plan, applied, mine);
    PlanRestricts(modules, i);
    PlanOfOne(modules[i]);
    HealthyRun(Restrict(applied, mine), ModuleIds(modules[i]));
  }

  lemma HealthyRun(applied: seq<string>, plan: seq<string>)
    ensures RunPlan(applied, plan, {}).applied == applied + Pending(plan, applied)
  {
    RunAppliesPending(applied, plan, {});
  }

  lemma PlanOfOne(m: Module)
    ensures Plan([m]) == ModuleIds(m)
  {
    assert [m][..0] == [];
  }
}
