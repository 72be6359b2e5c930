/** The schema migration chain: a first-match walk over version steps, with a guard against cycles. */
module Migrations {
  import opened Machine

  type Version = string

  /** A step migrates one table at a time; None is the step's own failure. */
  datatype Step<!T> = Step(from: Version, to: Version, migrate: T -> Option<T>)

  datatype MigrationError =
    | NoMigrationPath(version: Version)
    | StepFailed(from: Version, to: Version)
    | CycleDetected

  type Outcome<T> = Result<seq<T>, MigrationError>

  // ---------------------------------------------------------------- the walk over versions

  /** The index of the first step that starts at a version. */
  function FirstMatch<T>(steps: seq<Step<T>>, v: Version): (r: Option<nat>)
    ensures r.Some? ==> r.value < |steps| && steps[r.value].from == v
    ensures r.None? ==> forall s :: s in steps ==> s.from != v
  {
    if steps == [] then None
    else if steps[0].from == v then Some(0)
    else
      match FirstMatch(steps[1..], v)
      case Some(i) => Some(i + 1)
      case None => None
  }

  /** Of several steps from one version the one registered first is taken. */
  lemma {:induction false} FirstMatchIsFirst<T>(steps: seq<Step<T>>, v: Version, i: nat)
    ensures FirstMatch(steps, v) == Some(i) <==>
      i < |steps| && steps[i].from == v && forall j :: 0 <= j < i ==> steps[j].from != v
  {
    if steps != [] && steps[0].from != v {
      if i > 0 {
        FirstMatchIsFirst(steps[1..], v, i - 1);
      }
      hide FirstMatch;
      assert forall j :: 0 < j < |steps| ==> steps[j] == steps[1..][j - 1];
    }
  }

  /** The version after n steps of the walk, if the walk gets that far without meeting the target or a dead end
      earlier. */
  function WalkTo<T>(steps: seq<Step<T>>, start: Version, target: Version, n: nat): Option<Version> {
    if n == 0 then Some(start) else NextVersion(steps, target, WalkTo(steps, start, target, n - 1))
  }

  /** Where the walk goes on from a version: nowhere from the target or a dead end. */
  function NextVersion<T>(steps: seq<Step<T>>, target: Version, v: Option<Version>): Option<Version> {
    if v.None? || v.value == target then None
    else
      match FirstMatch(steps, v.value)
      case None => None
      case Some(i) => Some(steps[i].to)
  }

  /** The index of the step taken from the n-th version of the walk. */
  function StepIndex<T>(steps: seq<Step<T>>, start: Version, target: Version, n: nat): (i: nat)
    requires WalkTo(steps, start, target, n + 1).Some?
    ensures i < |steps| && WalkTo(steps, start, target, n).Some? &&
      steps[i].from == WalkTo(steps, start, target, n).value
    ensures WalkTo(steps, start, target, n + 1) == Some(steps[i].to)
    ensures FirstMatch(steps, WalkTo(steps, start, target, n).value) == Some(i)
  {
    FirstMatch(steps, WalkTo(steps, start, target, n).value).value
  }

  lemma {:induction false} WalkPrefix<T>(steps: seq<Step<T>>, start: Version, target: Version, m: nat, n: nat)
    requires m <= n && WalkTo(steps, start, target, n).Some?
    ensures WalkTo(steps, start, target, m).Some?
    ensures m < n ==> WalkTo(steps, start, target, m).value != target
    decreases n
  {
    if m < n {
      WalkPrefix(steps, start, target, m, n - 1);
    }
  }

  lemma WalkPrefixes<T>(steps: seq<Step<T>>, start: Version, target: Version, n: nat)
    requires WalkTo(steps, start, target, n).Some?
    ensures forall m: nat :: m <= n ==> WalkTo(steps, start, target, m).Some?
  {
    forall m: nat | m <= n ensures WalkTo(steps, start, target, m).Some? {
      WalkPrefix(steps, start, target, m, n);
    }
  }

  /** From equal versions the walk goes on equally. */
  lemma {:induction false} WalkDeterministic<T>(steps: seq<Step<T>>, start: Version, target: Version, i: nat, j: nat,
                                                k: nat)
    requires WalkTo(steps, start, target, i).Some? && WalkTo(steps, start, target, i) == WalkTo(steps, start, target, j)
    ensures WalkTo(steps, start, target, i + k) == WalkTo(steps, start, target, j + k)
    decreases k
  {
    if k > 0 {
      WalkDeterministic(steps, start, target, i, j, k - 1);
      assert WalkTo(steps, start, target, i + k) ==
        NextVersion(steps, target, WalkTo(steps, start, target, i + (k - 1)));
      assert WalkTo(steps, start, target, j + k) ==
        NextVersion(steps, target, WalkTo(steps, start, target, j + (k - 1)));
      hide NextVersion;
    }
  }

  ghost predicate Reaches<T>(steps: seq<Step<T>>, start: Version, target: Version, n: nat) {
    WalkTo(steps, start, target, n) == Some(target)
  }

  ghost predicate DeadEnd<T>(steps: seq<Step<T>>, start: Version, target: Version, n: nat, v: Version) {
    WalkTo(steps, start, target, n) == Some(v) && v != target && FirstMatch(steps, v).None?
  }

  /** The walk comes back to a version it has already left. */
  ghost predicate Revisits<T>(steps: seq<Step<T>>, start: Version, target: Version, i: nat, j: nat) {
    i < j && WalkTo(steps, start, target, i).Some? && WalkTo(steps, start, target, i) == WalkTo(steps, start, target, j)
  }

  /** A walk that revisits a version goes on for ever, so it neither reaches the target nor meets a dead end. */
  lemma {:induction false} RevisitsForEver<T>(steps: seq<Step<T>>, start: Version, target: Version, i: nat, j: nat,
                                              n: nat)
    requires Revisits(steps, start, target, i, j)
    ensures WalkTo(steps, start, target, n + 1).Some?
    decreases n
  {
    if n + 1 <= j {
      WalkPrefix(steps, start, target, n + 1, j);
    } else {
      RevisitsForEver(steps, start, target, i, j, n - (j - i));
      WalkDeterministic(steps, start, target, i, j, n + 1 - j);
    }
  }

  /** Pigeonhole: n naturals below m, pairwise different, need n <= m. */
  lemma {:induction false} Pigeonhole(xs: seq<nat>, m: nat)
    requires forall i :: 0 <= i < |xs| ==> xs[i] < m
    requires forall i, j :: 0 <= i < j < |xs| ==> xs[i] != xs[j]
    ensures |xs| <= m
    decreases m
  {
    if xs == [] {
      return;
    }
    assert 0 <= xs[0] < m;
    if k :| 0 <= k < |xs| && xs[k] == m - 1 {
      var rest := xs[..k] + xs[k + 1..];
      assert forall i :: 0 <= i < |rest| ==> rest[i] == xs[if i < k then i else i + 1];
      Pigeonhole(rest, m - 1);
    } else {
      Pigeonhole(xs, m - 1);
    }
  }

  /** A walk of more steps than there are to take revisits a version. */
  lemma LongWalkRevisits<T>(steps: seq<Step<T>>, start: Version, target: Version, n: nat)
    requires n > |steps| && WalkTo(steps, start, target, n).Some?
    ensures exists i, j :: Revisits(steps, start, target, i, j)
  {
    WalkPrefixes(steps, start, target, n);
    var xs: seq<nat> := seq(n, (k: nat) requires k < n => StepIndex(steps, start, target, k));
    if forall i, j :: 0 <= i < j < n ==> xs[i] != xs[j] {
      Pigeonhole(xs, |steps|);
    } else {
      var i, j :| 0 <= i < j < n && xs[i] == xs[j];
      assert Revisits(steps, start, target, i, j);
    }
  }

  /** Reaching the target takes at most as many steps as are registered. */
  lemma ReachingIsShort<T>(steps: seq<Step<T>>, start: Version, target: Version, n: nat)
    requires Reaches(steps, start, target, n)
    ensures n <= |steps|
  {
    if n > |steps| {
      LongWalkRevisits(steps, start, target, n);
      var i, j :| Revisits(steps, start, target, i, j);
      RevisitsForEver(steps, start, target, i, j, n);
    }
  }

  /** A walk ends in one way only. */
  lemma EndsAreExclusive<T>(steps: seq<Step<T>>, start: Version, target: Version, n: nat, m: nat, v: Version)
    ensures !(Reaches(steps, start, target, n) && DeadEnd(steps, start, target, m, v))
  {
    if Reaches(steps, start, target, n) && DeadEnd(steps, start, target, m, v) {
      if n < m { WalkPrefix(steps, start, target, n, m); }
      if m < n { WalkPrefix(steps, start, target, m + 1, n); }
    }
  }

  // ---------------------------------------------------------------- migrating the tables

  /** One step on every table in order; the first failing table fails the step. */
  function MigrateAll<T>(step: Step<T>, tables: seq<T>): (r: Option<seq<T>>)
    ensures r.Some? ==> |r.value| == |tables|
  {
    if tables == [] then Some([])
    else
      match (MigrateAll(step, tables[..|tables| - 1]), step.migrate(tables[|tables| - 1]))
      case (Some(before), Some(last)) => Some(before + [last])
      case _ => None
  }

  /** A step migrates every table on its own: it succeeds with some tables exactly if they are, place by place, what it
      makes of the old ones. */
  lemma {:induction false} MigrateAllIff<T>(step: Step<T>, tables: seq<T>, out: seq<T>)
    ensures MigrateAll(step, tables) == Some(out) <==>
      |out| == |tables| && forall i :: 0 <= i < |tables| ==> step.migrate(tables[i]) == Some(out[i])
    ensures MigrateAll(step, tables).None? <==> exists i :: 0 <= i < |tables| && step.migrate(tables[i]).None?
  {
    if tables != [] {
      var n := |tables| - 1;
      if |out| == |tables| {
        MigrateAllIff(step, tables[..n], out[..n]);
        assert out == out[..n] + [out[n]];
      }
      MigrateAllIff(step, tables[..n], []);
      if MigrateAll(step, tables[..n]).Some? {
        MigrateAllIff(step, tables[..n], MigrateAll(step, tables[..n]).value);
      }
    }
  }

  /** One table through the first n steps of the walk: the composition of what they do to it. */
  function Composed<T>(steps: seq<Step<T>>, start: Version, target: Version, n: nat, t: T): Option<T>
    requires WalkTo(steps, start, target, n).Some?
  {
    if n == 0 then Some(t)
    else
      match Composed(steps, start, target, n - 1, t)
      case None => None
      case Some(before) => steps[StepIndex(steps, start, target, n - 1)].migrate(before)
  }

  /** The tables after the first n steps of the walk. */
  function TablesAfter<T>(steps: seq<Step<T>>, start: Version, target: Version, tables: seq<T>, n: nat): Option<seq<T>>
    requires WalkTo(steps, start, target, n).Some?
  {
    if n == 0 then Some(tables)
    else
      var i := StepIndex(steps, start, target, n - 1);
      match TablesAfter(steps, start, target, tables, n - 1)
      case None => None
      case Some(before) => MigrateAll(steps[i], before)
  }

  /** The walk takes each table through the composition of its steps, and fails exactly if it fails on some table. */
  lemma {:induction false} TablesAfterIff<T>(steps: seq<Step<T>>, start: Version, target: Version, tables: seq<T>,
                                             n: nat, out: seq<T>)
    requires WalkTo(steps, start, target, n).Some?
    ensures TablesAfter(steps, start, target, tables, n) == Some(out) <==>
      |out| == |tables| &&
      forall i :: 0 <= i < |tables| ==> Composed(steps, start, target, n, tables[i]) == Some(out[i])
    ensures TablesAfter(steps, start, target, tables, n).None? <==>
      exists i :: 0 <= i < |tables| && Composed(steps, start, target, n, tables[i]).None?
    decreases n
  {
    if n > 0 {
      var step := steps[StepIndex(steps, start, target, n - 1)];
      var before := TablesAfter(steps, start, target, tables, n - 1);
      TablesAfterIff(steps, start, target, tables, n - 1, if before.Some? then before.value else []);
      OneMoreStep(steps, start, target, tables, n);
      hide Composed, TablesAfter, WalkTo, MigrateAll;
      if before.Some? {
        MigrateAllIff(step, before.value, out);
      }
    } else if |out| == |tables| {
      assert out == tables <==> forall i :: 0 <= i < |tables| ==> tables[i] == out[i];
    }
  }

  lemma OneMoreStep<T>(steps: seq<Step<T>>, start: Version, target: Version, tables: seq<T>, n: nat)
    requires n > 0 && WalkTo(steps, start, target, n).Some?
    ensures WalkTo(steps, start, target, n - 1).Some?
    ensures var step := steps[StepIndex(steps, start, target, n - 1)];
      var before := TablesAfter(steps, start, target, tables, n - 1);
      && TablesAfter(steps, start, target, tables, n) ==
           (if before.Some? then MigrateAll(step, before.value) else None)
      && forall i :: 0 <= i < |tables| ==>
           var t := Composed(steps, start, target, n - 1, tables[i]);
           Composed(steps, start, target, n, tables[i]) == if t.Some? then step.migrate(t.value) else None
  {
    hide MigrateAll;
  }

  /** The tables the walk reaches the target with. */
  ghost predicate Migrated<T>(steps: seq<Step<T>>, start: Version, target: Version, tables: seq<T>, n: nat,
                              migrated: seq<T>) {
    Reaches(steps, start, target, n) && TablesAfter(steps, start, target, tables, n) == Some(migrated)
  }

  /** The n-th step of the walk is the first to fail on the tables. */
  ghost predicate FailsAt<T>(steps: seq<Step<T>>, start: Version, target: Version, tables: seq<T>, n: nat,
                             from: Version, to: Version) {
    && WalkTo(steps, start, target, n) == Some(from)
    && WalkTo(steps, start, target, n + 1) == Some(to)
    && TablesAfter(steps, start, target, tables, n).Some?
    && TablesAfter(steps, start, target, tables, n + 1).None?
  }

  /** What an outcome says about the walk. */
  ghost predicate Answers<T>(steps: seq<Step<T>>, start: Version, target: Version, tables: seq<T>, r: Outcome<T>) {
    match r
    case Ok(migrated) => exists n: nat :: n <= |steps| && Migrated(steps, start, target, tables, n, migrated)
    case Err(NoMigrationPath(v)) => exists n: nat :: DeadEnd(steps, start, target, n, v)
    case Err(StepFailed(from, to)) => exists n: nat :: FailsAt(steps, start, target, tables, n, from, to)
    case Err(CycleDetected) => exists i, j :: Revisits(steps, start, target, i, j)
  }

  /** Once a step has failed, no later tables exist. */
  lemma {:induction false} FailurePersists<T>(steps: seq<Step<T>>, start: Version, target: Version, tables: seq<T>,
                                              m: nat, n: nat)
    requires m <= n && WalkTo(steps, start, target, m).Some? && WalkTo(steps, start, target, n).Some?
    requires TablesAfter(steps, start, target, tables, m).None?
    ensures TablesAfter(steps, start, target, tables, n).None?
    decreases n
  {
    if m < n {
      WalkPrefix(steps, start, target, n - 1, n);
      FailurePersists(steps, start, target, tables, m, n - 1);
    }
  }

  /** Whatever the steps do, migration succeeds exactly when the walk reaches the target with every step succeeding, and
      then with exactly the tables those steps produce. */
  lemma ApplySucceedsIff<T>(steps: seq<Step<T>>, start: Version, target: Version, tables: seq<T>, r: Outcome<T>,
                            migrated: seq<T>)
    requires Answers(steps, start, target, tables, r)
    ensures r == Ok(migrated) <==> exists n: nat :: Migrated(steps, start, target, tables, n, migrated)
  {
    hide FirstMatch, MigrateAll, TablesAfter;
    if n: nat :| Migrated(steps, start, target, tables, n, migrated) {
      match r
      case Ok(other) =>
        var m: nat :| m <= |steps| && Migrated(steps, start, target, tables, m, other);
        ReachedOnce(steps, start, target, m, n);
      case Err(NoMigrationPath(v)) =>
        var m: nat :| DeadEnd(steps, start, target, m, v);
        EndsAreExclusive(steps, start, target, n, m, v);
      case Err(StepFailed(from, to)) =>
        var m: nat :| FailsAt(steps, start, target, tables, m, from, to);
        if m < n {
          FailurePersists(steps, start, target, tables, m + 1, n);
        } else {
          WalkPrefix(steps, start, target, n, m + 1);
        }
      case Err(CycleDetected) =>
        var i, j :| Revisits(steps, start, target, i, j);
        RevisitsForEver(steps, start, target, i, j, n);
    }
  }

  lemma ReachedOnce<T>(steps: seq<Step<T>>, start: Version, target: Version, m: nat, n: nat)
    requires Reaches(steps, start, target, m) && Reaches(steps, start, target, n)
    ensures m == n
  {
    if m < n { WalkPrefix(steps, start, target, m, n); }
    if n < m { WalkPrefix(steps, start, target, n, m); }
  }

  ghost predicate Total<T(!new)>(steps: seq<Step<T>>) {
    forall i, t :: 0 <= i < |steps| ==> steps[i].migrate(t).Some?
  }

  lemma {:induction false} TotalStepsMigrateAll<T(!new)>(steps: seq<Step<T>>, i: nat, tables: seq<T>)
    requires Total(steps) && i < |steps|
    ensures MigrateAll(steps[i], tables).Some?
    decreases |tables|
  {
    if tables != [] {
      TotalStepsMigrateAll(steps, i, tables[..|tables| - 1]);
      assert steps[i].migrate(tables[|tables| - 1]).Some?;
    }
  }

  lemma {:induction false} TotalStepsKeepTables<T(!new)>(steps: seq<Step<T>>, start: Version, target: Version,
                                                         tables: seq<T>, n: nat)
    requires Total(steps) && WalkTo(steps, start, target, n).Some?
    ensures TablesAfter(steps, start, target, tables, n).Some?
    decreases n
  {
    if n > 0 {
      TotalStepsKeepTables(steps, start, target, tables, n - 1);
      var before := TablesAfter(steps, start, target, tables, n - 1).value;
      TotalStepsMigrateAll(steps, StepIndex(steps, start, target, n - 1), before);
    }
  }

  /** The walk's n steps reach the target, and their composition takes each table to the one at its place. */
  ghost predicate MigratesEach<T>(steps: seq<Step<T>>, start: Version, target: Version, tables: seq<T>, n: nat,
                                  migrated: seq<T>) {
    && Reaches(steps, start, target, n)
    && |migrated| == |tables|
    && forall i :: 0 <= i < |tables| ==> Composed(steps, start, target, n, tables[i]) == Some(migrated[i])
  }

  /** So migration succeeds with some tables exactly if the walk reaches the target and its composed steps take every
      table to the one at its place. */
  lemma ApplyMigratesEach<T>(steps: seq<Step<T>>, start: Version, target: Version, tables: seq<T>, r: Outcome<T>,
                             migrated: seq<T>)
    requires Answers(steps, start, target, tables, r)
    ensures r == Ok(migrated) <==> exists n: nat :: MigratesEach(steps, start, target, tables, n, migrated)
  {
    ApplySucceedsIff(steps, start, target, tables, r, migrated);
    forall n: nat
      ensures Migrated(steps, start, target, tables, n, migrated) <==>
        MigratesEach(steps, start, target, tables, n, migrated)
    {
      if Reaches(steps, start, target, n) {
        TablesAfterIff(steps, start, target, tables, n, migrated);
      }
    }
    hide TablesAfter, Composed, WalkTo;
  }

  /** A step is reported as failing exactly if it is the first of the walk to fail on some table. */
  lemma FailsAtIff<T>(steps: seq<Step<T>>, start: Version, target: Version, tables: seq<T>, n: nat, from: Version,
                      to: Version)
    ensures FailsAt(steps, start, target, tables, n, from, to) <==>
      && WalkTo(steps, start, target, n) == Some(from) && WalkTo(steps, start, target, n + 1) == Some(to)
      && (forall i :: 0 <= i < |tables| ==> Composed(steps, start, target, n, tables[i]).Some?)
      && exists i :: 0 <= i < |tables| && Composed(steps, start, target, n + 1, tables[i]).None?
  {
    if WalkTo(steps, start, target, n).Some? && WalkTo(steps, start, target, n + 1).Some? {
      TablesAfterIff(steps, start, target, tables, n, []);
      TablesAfterIff(steps, start, target, tables, n + 1, []);
    }
    hide TablesAfter, Composed, WalkTo;
  }

  /** With steps that never fail, the three outcomes are exactly the three ways a walk can go. */
  lemma ApplyDecidesTheWalk<T(!new)>(steps: seq<Step<T>>, start: Version, target: Version, tables: seq<T>,
                                     r: Outcome<T>)
    requires Total(steps)
    requires Answers(steps, start, target, tables, r)
    ensures r.Ok? <==> exists n: nat :: Reaches(steps, start, target, n)
    ensures (r.Err? && r.error.NoMigrationPath?) <==> exists n: nat, v :: DeadEnd(steps, start, target, n, v)
    ensures (r.Err? && r.error.CycleDetected?) <==> exists i, j :: Revisits(steps, start, target, i, j)
  {
    if n: nat :| Reaches(steps, start, target, n) {
      TotalStepsKeepTables(steps, start, target, tables, n);
      var migrated := TablesAfter(steps, start, target, tables, n).value;
      assert Migrated(steps, start, target, tables, n, migrated);
      ApplySucceedsIff(steps, start, target, tables, r, migrated);
    }
    if r.Ok? {
      var n: nat :| Migrated(steps, start, target, tables, n, r.value);
      assert Reaches(steps, start, target, n);
    }
    if r.Err? && r.error.StepFailed? {
      var n: nat :| FailsAt(steps, start, target, tables, n, r.error.from, r.error.to);
      TotalStepsKeepTables(steps, start, target, tables, n + 1);
    }
    WaysAreExclusive(steps, start, target);
  }

  /** A walk reaches the target, meets a dead end, or revisits a version: never two of these. */
  lemma WaysAreExclusive<T>(steps: seq<Step<T>>, start: Version, target: Version)
    ensures forall n: nat, m: nat, v :: Reaches(steps, start, target, n) ==> !DeadEnd(steps, start, target, m, v)
    ensures forall n: nat, i, j :: Reaches(steps, start, target, n) ==> !Revisits(steps, start, target, i, j)
    ensures forall n: nat, v, i, j :: DeadEnd(steps, start, target, n, v) ==> !Revisits(steps, start, target, i, j)
  {
    forall n: nat, m: nat, v | Reaches(steps, start, target, n) ensures !DeadEnd(steps, start, target, m, v) {
      EndsAreExclusive(steps, start, target, n, m, v);
    }
    forall n: nat, i, j | Reaches(steps, start, target, n) ensures !Revisits(steps, start, target, i, j) {
      if Revisits(steps, start, target, i, j) {
        RevisitsForEver(steps, start, target, i, j, n);
      }
    }
    forall n: nat, v, i, j | DeadEnd(steps, start, target, n, v) ensures !Revisits(steps, start, target, i, j) {
      if Revisits(steps, start, target, i, j) {
        RevisitsForEver(steps, start, target, i, j, n);
      }
    }
  }

  class MigrationPipeline<T> {
    var steps: seq<Step<T>>
    const targetVersion: Version

    constructor (target: Version)
      ensures steps == [] && targetVersion == target
    {
      steps := [];
      targetVersion := target;
    }

    method Register(step: Step<T>)
      modifies this
      ensures steps == old(steps) + [step]
    {
      steps := steps + [step];
    }

    /** Walk from a manifest's version to the target, migrating its tables at every step. */
    method Apply(version: Version, tables: seq<T>) returns (r: Outcome<T>)
      ensures Answers(steps, version, targetVersion, tables, r)
    {
      var currentVersion := version;
      var current := tables;
      var applied: nat := 0;
      while currentVersion != targetVersion
        invariant applied <= |steps| + 1
        invariant WalkTo(steps, version, targetVersion, applied) == Some(currentVersion)
        invariant TablesAfter(steps, version, targetVersion, tables, applied) == Some(current)
        decreases |steps| + 1 - applied
      {
        var next := FirstMatch(steps, currentVersion);
        if next.None? {
          assert DeadEnd(steps, version, targetVersion, applied, currentVersion);
          return Err(NoMigrationPath(currentVersion));
        }
        var step := steps[next.value];
        var migrated := MigrateTables(step, current);
        assert WalkTo(steps, version, targetVersion, applied + 1) == Some(step.to);
        if migrated.None? {
          assert FailsAt(steps, version, targetVersion, tables, applied, step.from, step.to);
          return Err(StepFailed(step.from, step.to));
        }
        current := migrated.value;
        currentVersion := step.to;
        applied := applied + 1;
        if applied > |steps| + 1 {
          LongWalkRevisits(steps, version, targetVersion, applied);
          return Err(CycleDetected);
        }
      }
      ReachingIsShort(steps, version, targetVersion, applied);
      assert Migrated(steps, version, targetVersion, tables, applied, current);
      r := Ok(current);
    }

    method MigrateTables(step: Step<T>, tables: seq<T>) returns (r: Option<seq<T>>)
      ensures r == MigrateAll(step, tables)
    {
      var out: seq<T> := [];
      for i := 0 to |tables|
        invariant MigrateAll(step, tables[..i]) == Some(out)
      {
        assert tables[..i + 1][..i] == tables[..i];
        var t := step.migrate(tables[i]);
        if t.None? {
          FailedTableFailsStep(step, tables, i + 1);
          return None;
        }
        out := out + [t.value];
      }
      assert tables[..|tables|] == tables;
      r := Some(out);
    }
  }

  lemma {:induction false} FailedTableFailsStep<T>(step: Step<T>, tables: seq<T>, m: nat)
    requires m <= |tables| && MigrateAll(step, tables[..m]).None?
    ensures MigrateAll(step, tables).None?
    decreases |tables|
  {
    if m < |tables| {
      assert tables[..|tables| - 1][..m] == tables[..m];
      FailedTableFailsStep(step, tables[..|tables| - 1], m);
    } else {
      assert tables[..m] == tables;
    }
  }
}
