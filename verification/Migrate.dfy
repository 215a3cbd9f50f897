/** The migration runner: one transaction per pending migration, driven by the set of applied versions. */
module Migrate {
  import opened Wrappers
  import SqlSplitter

  datatype Migration = Migration(version: int, name: string, up: string)
  {
    function Statements(): seq<string> {
      SqlSplitter.Split(up)
    }
  }

  /** How the database answers one statement: a change, an error the runner tolerates, or a fatal one. */
  datatype Reply<D> = Changed(db: D) | Tolerated | Fatal

  type Engine<!D> = (D, string) -> Reply<D>

  /** The durable state: the schema and the versions in the bookkeeping table. */
  datatype Store<D> = Store(db: D, applied: set<int>)

  datatype MigrateError = StatementFailed(version: int, index: nat) | RecordFailed(version: int)

  // ----- One transaction -----

  /** The statements in order on a working copy; a fatal one gives its index. */
  function Execute<D>(exec: Engine<D>, db: D, stmts: seq<string>, index: nat): Result<D, nat> {
    if stmts == [] then Ok(db)
    else match exec(db, stmts[0])
      case Changed(next) => Execute(exec, next, stmts[1..], index + 1)
      case Tolerated => Execute(exec, db, stmts[1..], index + 1)
      case Fatal => Err(index)
  }

  function Apply<D>(exec: Engine<D>, s: Store<D>, m: Migration): Result<Store<D>, MigrateError> {
    match Execute(exec, s.db, m.Statements(), 0)
    case Err(index) => Err(StatementFailed(m.version, index))
    case Ok(db) => if m.version in s.applied then Err(RecordFailed(m.version)) else Ok(Store(db, s.applied + {m.version}))
  }

  // ----- The whole run -----

  datatype Outcome<D> = Outcome(store: Store<D>, error: Option<MigrateError>)

  function MigrateAll<D>(exec: Engine<D>, s: Store<D>, migs: seq<Migration>): Outcome<D>
    decreases |migs|
  {
    if migs == [] then Outcome(s, None)
    else if migs[0].version in s.applied then MigrateAll(exec, s, migs[1..])
    else match Apply(exec, s, migs[0])
      case Err(e) => Outcome(s, Some(e))
      case Ok(next) => MigrateAll(exec, next, migs[1..])
  }

  /** MAX(version) of the bookkeeping table, 0 when it is empty. */
  ghost predicate IsSchemaVersion(v: int, applied: set<int>) {
    if applied == {} then v == 0 else v in applied && forall x | x in applied :: x <= v
  }

  function Versions(migs: seq<Migration>): set<int> {
    set i | 0 <= i < |migs| :: migs[i].version
  }

  /** The newest version this binary knows; migrations are numbered from 1. */
  method CurrentSchemaVersion(migs: seq<Migration>) returns (max: int)
    ensures max == 0 || max in Versions(migs)
    ensures max >= 0 && forall x | x in Versions(migs) :: x <= max
  {
    max := 0;
    for i := 0 to |migs|
      invariant max == 0 || max in Versions(migs)
      invariant max >= 0 && forall j | 0 <= j < i :: migs[j].version <= max
    {
      if migs[i].version > max {
        max := migs[i].version;
      }
    }
  }

  class Database<D> {
    var db: D
    var applied: set<int>

    constructor (db: D, applied: set<int>)
      ensures this.db == db && this.applied == applied
    {
      this.db, this.applied := db, applied;
    }

    function Durable(): Store<D>
      reads this
    {
      Store(db, applied)
    }

    method ApplyOne(exec: Engine<D>, m: Migration) returns (err: Option<MigrateError>)
      modifies this
      ensures match old(Apply(exec, Durable(), m))
              case Ok(next) => err == None && Durable() == next
              case Err(e) => err == Some(e) && Durable() == old(Durable())
    {
      var tx := db;
      var stmts := SqlSplitter.SplitSQL(m.up);
      for i := 0 to |stmts|
        invariant Durable() == old(Durable())
        invariant Execute(exec, tx, stmts[i..], i) == Execute(exec, db, stmts, 0)
      {
        assert stmts[i..][0] == stmts[i] && stmts[i..][1..] == stmts[i + 1..];
        match exec(tx, stmts[i]) {
          case Changed(next) => tx := next;
          case Tolerated =>
          case Fatal => return Some(StatementFailed(m.version, i));
        }
      }
      if m.version in applied {
        return Some(RecordFailed(m.version));
      }
      db, applied := tx, applied + {m.version};
      return None;
    }

    method Migrate(exec: Engine<D>, migs: seq<Migration>) returns (err: Option<MigrateError>)
      modifies this
      ensures Outcome(Durable(), err) == old(MigrateAll(exec, Durable(), migs))
    {
      var known := applied;
      for i := 0 to |migs|
        invariant known == applied
        invariant MigrateAll(exec, Durable(), migs[i..]) == old(MigrateAll(exec, Durable(), migs))
      {
        assert migs[i..][0] == migs[i] && migs[i..][1..] == migs[i + 1..];
        if migs[i].version !in known {
          var e := ApplyOne(exec, migs[i]);
          if e.Some? {
            return e;
          }
          known := known + {migs[i].version};
        }
      }
      return None;
    }
  }

  // ----- What one run leaves behind -----

  lemma {:induction false} VersionsCons(migs: seq<Migration>)
    requires migs != []
    ensures Versions(migs) == {migs[0].version} + Versions(migs[1..])
  {
    forall x | x in Versions(migs) ensures x in {migs[0].version} + Versions(migs[1..]) {
      var i :| 0 <= i < |migs| && migs[i].version == x;
      if i > 0 {
        assert migs[1..][i - 1].version == x;
      }
    }
    forall x | x in Versions(migs[1..]) ensures x in Versions(migs) {
      var i :| 0 <= i < |migs[1..]| && migs[1..][i].version == x;
      assert migs[i + 1].version == x;
    }
  }

  /** Either everything is applied, or exactly the migrations before the failing one are. */
  lemma {:induction false} RunShape<D>(exec: Engine<D>, s: Store<D>, migs: seq<Migration>) returns (i: nat)
    ensures i <= |migs|
    ensures var r := MigrateAll(exec, s, migs);
            r.store.applied == s.applied + Versions(migs[..i]) &&
            (r.error.None? <==> i == |migs|) &&
            (i < |migs| ==> migs[i].version !in r.store.applied && Apply(exec, r.store, migs[i]) == Err(r.error.value))
    decreases |migs|
  {
    if migs == [] {
      i := 0;
    } else if migs[0].version in s.applied {
      i := RunShape(exec, s, migs[1..]);
      VersionsPrefix(migs, i);
      i := i + 1;
    } else {
      match Apply(exec, s, migs[0])
      case Err(e) =>
        i := 0;
        assert Versions(migs[..0]) == {};
      case Ok(next) =>
        i := RunShape(exec, next, migs[1..]);
        VersionsPrefix(migs, i);
        i := i + 1;
    }
  }

  lemma {:induction false} VersionsPrefix(migs: seq<Migration>, i: nat)
    requires migs != [] && i < |migs|
    ensures Versions(migs[..i + 1]) == {migs[0].version} + Versions(migs[1..][..i])
  {
    assert migs[..i + 1][0] == migs[0] && migs[..i + 1][1..] == migs[1..][..i];
    VersionsCons(migs[..i + 1]);
  }

  /** Migrations that are already applied are skipped. */
  lemma {:induction false} SkipApplied<D>(exec: Engine<D>, s: Store<D>, migs: seq<Migration>, i: nat)
    requires i <= |migs| && forall j | 0 <= j < i :: migs[j].version in s.applied
    ensures MigrateAll(exec, s, migs) == MigrateAll(exec, s, migs[i..])
    decreases |migs|
  {
    if i > 0 {
      SkipApplied(exec, s, migs[1..], i - 1);
      assert migs[1..][i - 1..] == migs[i..];
    } else {
      assert migs[0..] == migs;
    }
  }

  lemma {:induction false} AppliedPrefix(migs: seq<Migration>, i: nat, applied: set<int>)
    requires i <= |migs| && Versions(migs[..i]) <= applied
    ensures forall j | 0 <= j < i :: migs[j].version in applied
  {
    forall j | 0 <= j < i ensures migs[j].version in applied {
      assert migs[..i][j] == migs[j];
    }
  }

  /** Running again changes nothing and reports the same: a no-op after success, the same failure otherwise. */
  lemma {:induction false} RerunIsStable<D>(exec: Engine<D>, s: Store<D>, migs: seq<Migration>)
    ensures var r := MigrateAll(exec, s, migs); MigrateAll(exec, r.store, migs) == r
  {
    var r := MigrateAll(exec, s, migs);
    var i := RunShape(exec, s, migs);
    AppliedPrefix(migs, i, r.store.applied);
    SkipApplied(exec, r.store, migs, i);
  }

  /** Upgrading in two releases equals upgrading at once. */
  lemma {:induction false} StagedUpgrade<D>(exec: Engine<D>, s: Store<D>, a: seq<Migration>, b: seq<Migration>)
    ensures var r := MigrateAll(exec, s, a);
            MigrateAll(exec, s, a + b) == if r.error.Some? then r else MigrateAll(exec, r.store, b)
    decreases |a|
  {
    if a == [] {
      assert a + b == b;
    } else {
      assert (a + b)[0] == a[0] && (a + b)[1..] == a[1..] + b;
      if a[0].version in s.applied {
        StagedUpgrade(exec, s, a[1..], b);
      } else {
        match Apply(exec, s, a[0])
        case Err(_) =>
        case Ok(next) => StagedUpgrade(exec, next, a[1..], b);
      }
    }
  }

  /** After a successful run on a database this binary knows, applied and available versions agree. */
  lemma {:induction false} VersionAfterSuccess<D>(exec: Engine<D>, s: Store<D>, migs: seq<Migration>, v: int, current: int)
    requires MigrateAll(exec, s, migs).error.None? && s.applied <= Versions(migs)
    requires forall x | x in Versions(migs) :: 0 < x <= current
    requires current == 0 || current in Versions(migs)
    requires IsSchemaVersion(v, MigrateAll(exec, s, migs).store.applied)
    ensures v == current
  {
    var i := RunShape(exec, s, migs);
    assert migs[..i] == migs;
  }

  // ----- Which statements run -----

  /** One statement's answer is taken over, or leaves all as it was when it is tolerated. */
  ghost predicate Follows<D>(exec: Engine<D>, db: D, stmt: string, next: D) {
    exec(db, stmt) == Changed(next) || (exec(db, stmt).Tolerated? && next == db)
  }

  /** The databases a list of statements passes through. */
  ghost predicate Replays<D>(exec: Engine<D>, stmts: seq<string>, states: seq<D>) {
    |states| == |stmts| + 1 && forall i | 0 <= i < |stmts| :: Follows(exec, states[i], stmts[i], states[i + 1])
  }

  lemma {:induction false} ReplaysConcat<D>(exec: Engine<D>, a: seq<string>, s: seq<D>, b: seq<string>, t: seq<D>)
    requires Replays(exec, a, s) && Replays(exec, b, t) && s[|a|] == t[0]
    ensures Replays(exec, a + b, s + t[1..])
  {
    var stmts, states := a + b, s + t[1..];
    forall i | 0 <= i < |stmts| ensures Follows(exec, states[i], stmts[i], states[i + 1]) {
      if i < |a| {
        assert Follows(exec, s[i], a[i], s[i + 1]);
      } else {
        var k := i - |a|;
        assert Follows(exec, t[k], b[k], t[k + 1]);
        assert states[i] == t[k] && states[i + 1] == t[k + 1];
      }
    }
  }

  lemma {:induction false} ExecuteReplays<D>(exec: Engine<D>, db: D, stmts: seq<string>, index: nat) returns (states: seq<D>)
    ensures 0 < |states| <= |stmts| + 1 && states[0] == db
    ensures var n := |states| - 1;
            Replays(exec, stmts[..n], states) &&
            match Execute(exec, db, stmts, index)
            case Ok(last) => n == |stmts| && last == states[n]
            case Err(at) => n < |stmts| && at == index + n && exec(states[n], stmts[n]).Fatal?
  {
    states := [db];
    if stmts != [] && !exec(db, stmts[0]).Fatal? {
      var next := if exec(db, stmts[0]).Changed? then exec(db, stmts[0]).db else db;
      var rest := ExecuteReplays(exec, next, stmts[1..], index + 1);
      ReplaysConcat(exec, [stmts[0]], [db, next], stmts[1..][..|rest| - 1], rest);
      assert [stmts[0]] + stmts[1..][..|rest| - 1] == stmts[..|rest|];
      states := [db, next] + rest[1..];
    }
  }

  /** One migration runs every statement of its body in order, or stops at the first fatal one and changes nothing. */
  lemma {:induction false} ApplyReplays<D>(exec: Engine<D>, s: Store<D>, m: Migration) returns (states: seq<D>)
    ensures 0 < |states| <= |SqlSplitter.Split(m.up)| + 1 && states[0] == s.db
    ensures var stmts, n := SqlSplitter.Split(m.up), |states| - 1;
            Replays(exec, stmts[..n], states) &&
            match Apply(exec, s, m)
            case Ok(next) => n == |stmts| && m.version !in s.applied && next == Store(states[n], s.applied + {m.version})
            case Err(StatementFailed(v, at)) => v == m.version && at == n < |stmts| && exec(states[n], stmts[n]).Fatal?
            case Err(RecordFailed(v)) => v == m.version && n == |stmts| && m.version in s.applied
  {
    states := ExecuteReplays(exec, s.db, SqlSplitter.Split(m.up), 0);
  }

  /** The migrations a run has to apply. */
  function Pending(applied: set<int>, migs: seq<Migration>): seq<Migration>
    decreases |migs|
  {
    if migs == [] then []
    else if migs[0].version in applied then Pending(applied, migs[1..])
    else [migs[0]] + Pending(applied + {migs[0].version}, migs[1..])
  }

  /** Every statement of every migration body, in order. */
  function Script(migs: seq<Migration>): seq<string> {
    if migs == [] then [] else SqlSplitter.Split(migs[0].up) + Script(migs[1..])
  }

  /** A run without an error takes the database through exactly the statements of the pending migrations. */
  lemma {:induction false} RunReplays<D>(exec: Engine<D>, s: Store<D>, migs: seq<Migration>) returns (states: seq<D>)
    requires MigrateAll(exec, s, migs).error.None?
    ensures Replays(exec, Script(Pending(s.applied, migs)), states)
    ensures states[0] == s.db && states[|states| - 1] == MigrateAll(exec, s, migs).store.db
    decreases |migs|
  {
    if migs == [] {
      states := [s.db];
    } else if migs[0].version in s.applied {
      states := RunReplays(exec, s, migs[1..]);
    } else {
      var first := ApplyReplays(exec, s, migs[0]);
      var rest := RunReplays(exec, Apply(exec, s, migs[0]).value, migs[1..]);
      var stmts, more := SqlSplitter.Split(migs[0].up), Pending(s.applied + {migs[0].version}, migs[1..]);
      assert stmts[..|first| - 1] == stmts;
      assert ([migs[0]] + more)[1..] == more;
      ReplaysConcat(exec, stmts, first, Script(more), rest);
      states := first + rest[1..];
    }
  }

  /** A database that only notes down what it is asked to run. */
  function Note(db: seq<string>, stmt: string): Reply<seq<string>> {
    Changed(db + [stmt])
  }

  lemma {:induction false} NotesAdd(stmts: seq<string>, states: seq<seq<string>>, n: nat)
    requires Replays(Note, stmts, states) && n <= |stmts|
    ensures states[n] == states[0] + stmts[..n]
  {
    if n == 0 {
      assert states[0] + stmts[..0] == states[0];
    } else {
      NotesAdd(stmts, states, n - 1);
      assert Follows(Note, states[n - 1], stmts[n - 1], states[n - 1 + 1]);
      assert stmts[..n] == stmts[..n - 1] + [stmts[n - 1]];
    }
  }

  lemma {:induction false} NotesNeverFail(s: Store<seq<string>>, migs: seq<Migration>)
    ensures MigrateAll(Note, s, migs).error.None?
    decreases |migs|
  {
    if migs != [] {
      if migs[0].version in s.applied {
        NotesNeverFail(s, migs[1..]);
      } else {
        var states := ApplyReplays(Note, s, migs[0]);
        NotesNeverFail(Apply(Note, s, migs[0]).value, migs[1..]);
      }
    }
  }

  /** What such a database holds afterwards: the statements of the pending migrations, none left out and none twice. */
  lemma {:induction false} RunNotesScript(s: Store<seq<string>>, migs: seq<Migration>)
    ensures MigrateAll(Note, s, migs).store.db == s.db + Script(Pending(s.applied, migs))
  {
    NotesNeverFail(s, migs);
    var script := Script(Pending(s.applied, migs));
    var states := RunReplays(Note, s, migs);
    NotesAdd(script, states, |script|);
    assert script[..|script|] == script;
  }

  // ----- Crashes -----

  /** What a running process holds in memory; a crash loses it and keeps the store. */
  datatype Process<D> =
    | Down
    | Scanning(next: nat, known: set<int>)
    | InTx(next: nat, known: set<int>, work: D, stmt: nat)
    | Finished(error: Option<MigrateError>)

  datatype Machine<D> = Machine(store: Store<D>, process: Process<D>)

  datatype Event = Boot | Advance | Crash

  function Resume<D>(exec: Engine<D>, migs: seq<Migration>, m: Machine<D>): Machine<D> {
    match m.process
    case Down => m
    case Finished(_) => m
    case Scanning(i, known) =>
      if i >= |migs| then m.(process := Finished(None))
      else if migs[i].version in known then m.(process := Scanning(i + 1, known))
      else m.(process := InTx(i, known, m.store.db, 0))
    case InTx(i, known, work, j) =>
      if i >= |migs| then m
      else
        var stmts := migs[i].Statements();
        if j < |stmts| then
          match exec(work, stmts[j])
          case Changed(next) => m.(process := InTx(i, known, next, j + 1))
          case Tolerated => m.(process := InTx(i, known, work, j + 1))
          case Fatal => m.(process := Finished(Some(StatementFailed(migs[i].version, j))))
        else if migs[i].version in m.store.applied then
          m.(process := Finished(Some(RecordFailed(migs[i].version))))
        else
          Machine(Store(work, m.store.applied + {migs[i].version}), Scanning(i + 1, known + {migs[i].version}))
  }

  /** Boot reads the bookkeeping table; Crash may strike at any moment, inside a transaction too. */
  function Next<D>(exec: Engine<D>, migs: seq<Migration>, m: Machine<D>, ev: Event): Machine<D> {
    match ev
    case Crash => m.(process := Down)
    case Boot => if m.process.Down? then m.(process := Scanning(0, m.store.applied)) else m
    case Advance => Resume(exec, migs, m)
  }

  function After<D>(exec: Engine<D>, migs: seq<Migration>, m: Machine<D>, events: seq<Event>): Machine<D>
    decreases |events|
  {
    if events == [] then m else After(exec, migs, Next(exec, migs, m, events[0]), events[1..])
  }

  /** Whatever has happened so far, the outcome still to come is the uninterrupted one. */
  ghost predicate OnTrack<D>(exec: Engine<D>, migs: seq<Migration>, m: Machine<D>, goal: Outcome<D>) {
    && MigrateAll(exec, m.store, migs) == goal
    && match m.process
       case Down => true
       case Finished(error) => Outcome(m.store, error) == goal
       case Scanning(i, known) => Scanned(exec, migs, m.store, i, known, goal)
       case InTx(i, known, work, j) =>
         Scanned(exec, migs, m.store, i, known, goal) && i < |migs| && migs[i].version !in known &&
         var stmts := migs[i].Statements();
         j <= |stmts| && Execute(exec, work, stmts[j..], j) == Execute(exec, m.store.db, stmts, 0)
  }

  ghost predicate Scanned<D>(exec: Engine<D>, migs: seq<Migration>, s: Store<D>, i: nat, known: set<int>, goal: Outcome<D>) {
    && i <= |migs| && known == s.applied
    && (forall j | 0 <= j < i :: migs[j].version in s.applied)
    && MigrateAll(exec, s, migs[i..]) == goal
  }

  lemma {:induction false} CommitOnTrack<D>(exec: Engine<D>, migs: seq<Migration>, s: Store<D>, i: nat, db: D, goal: Outcome<D>)
    requires Scanned(exec, migs, s, i, s.applied, goal) && i < |migs| && migs[i].version !in s.applied
    requires Execute(exec, s.db, migs[i].Statements(), 0) == Ok(db)
    ensures var t := Store(db, s.applied + {migs[i].version});
            Scanned(exec, migs, t, i + 1, t.applied, goal) && MigrateAll(exec, t, migs) == goal
  {
    var t := Store(db, s.applied + {migs[i].version});
    assert migs[i..][0] == migs[i] && migs[i..][1..] == migs[i + 1..];
    assert Apply(exec, s, migs[i]) == Ok(t);
    SkipApplied(exec, t, migs, i + 1);
  }

  lemma {:induction false} ScanOnTrack<D>(exec: Engine<D>, migs: seq<Migration>, m: Machine<D>, goal: Outcome<D>)
    requires OnTrack(exec, migs, m, goal) && m.process.Scanning?
    ensures OnTrack(exec, migs, Resume(exec, migs, m), goal)
  {
    var i := m.process.next;
    if i < |migs| {
      assert migs[i..][0] == migs[i] && migs[i..][1..] == migs[i + 1..];
      assert migs[i].Statements()[0..] == migs[i].Statements();
    }
  }

  lemma {:induction false} StatementOnTrack<D>(exec: Engine<D>, migs: seq<Migration>, m: Machine<D>, goal: Outcome<D>)
    requires OnTrack(exec, migs, m, goal) && m.process.InTx? && m.process.stmt < |migs[m.process.next].Statements()|
    ensures OnTrack(exec, migs, Resume(exec, migs, m), goal)
  {
    var i, j := m.process.next, m.process.stmt;
    var stmts := migs[i].Statements();
    assert migs[i..][0] == migs[i];
    assert stmts[j..][0] == stmts[j] && stmts[j..][1..] == stmts[j + 1..];
  }

  /** Every event keeps the run on track. */
  lemma {:induction false} StepOnTrack<D>(exec: Engine<D>, migs: seq<Migration>, m: Machine<D>, ev: Event, goal: Outcome<D>)
    requires OnTrack(exec, migs, m, goal)
    ensures OnTrack(exec, migs, Next(exec, migs, m, ev), goal)
  {
    if ev.Boot? {
      assert migs[0..] == migs;
    } else if ev.Advance? {
      match m.process
      case Down =>
      case Finished(_) =>
      case Scanning(i, known) => ScanOnTrack(exec, migs, m, goal);
      case InTx(i, known, work, j) =>
        if j < |migs[i].Statements()| {
          StatementOnTrack(exec, migs, m, goal);
        } else {
          CommitOnTrack(exec, migs, m.store, i, work, goal);
        }
    }
  }

  lemma {:induction false} RunOnTrack<D>(exec: Engine<D>, migs: seq<Migration>, m: Machine<D>, events: seq<Event>,
                                         goal: Outcome<D>)
    requires OnTrack(exec, migs, m, goal)
    ensures OnTrack(exec, migs, After(exec, migs, m, events), goal)
    decreases |events|
  {
    if events != [] {
      StepOnTrack(exec, migs, m, events[0], goal);
      RunOnTrack(exec, migs, Next(exec, migs, m, events[0]), events[1..], goal);
    }
  }

  /** Any number of crashes and restarts, anywhere: a run that finishes ends as one uninterrupted run does. */
  lemma {:induction false} CrashRecovery<D>(exec: Engine<D>, migs: seq<Migration>, s: Store<D>, events: seq<Event>)
    ensures var m := After(exec, migs, Machine(s, Down), events);
            MigrateAll(exec, m.store, migs) == MigrateAll(exec, s, migs) &&
            (m.process.Finished? ==> Outcome(m.store, m.process.error) == MigrateAll(exec, s, migs))
  {
    RunOnTrack(exec, migs, Machine(s, Down), events, MigrateAll(exec, s, migs));
  }
}
