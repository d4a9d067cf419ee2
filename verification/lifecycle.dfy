/** Creating and dropping tables from the admin console: the single-table
    transitions of the database layer, the fixed sequences the console runs,
    and the drop menu. */
module Lifecycle {
  import opened Schema
  import Console

  /** One call into the database layer. */
  datatype Step = Create(table: Table) | Drop(table: Table)

  /** What a run of steps printed (one success flag per step) and which tables
      exist afterwards. */
  datatype Outcome = Outcome(reports: seq<bool>, tables: set<Table>)

  /** The choices of the drop menu. */
  const TableOptions: string := "UICL*"

  /** `createTable`: the table exists afterwards, no other table changes, and
      the result says whether it was newly created. */
  function CreateTable(db: set<Table>, t: Table): (r: (bool, set<Table>))
    ensures t in r.1 && r.1 - {t} == db - {t}
    ensures r.0 <==> t !in db
  {
    (t !in db, db + {t})
  }

  /** `dropTable`: the table is gone afterwards, no other table changes, and
      the result says whether there was a table to drop. */
  function DropTable(db: set<Table>, t: Table): (r: (bool, set<Table>))
    ensures t !in r.1 && r.1 + {t} == db + {t}
    ensures r.0 <==> t in db
  {
    (t in db, db - {t})
  }

  function Apply(db: set<Table>, s: Step): (bool, set<Table>)
  {
    match s
    case Create(t) => CreateTable(db, t)
    case Drop(t) => DropTable(db, t)
  }

  /** Performs the steps in order, collecting what each one reported. */
  function Run(db: set<Table>, steps: seq<Step>): (r: Outcome)
    ensures |r.reports| == |steps|
    decreases |steps|
  {
    if |steps| == 0 then Outcome([], db)
    else
      var (ok, next) := Apply(db, steps[0]);
      var rest := Run(next, steps[1..]);
      Outcome([ok] + rest.reports, rest.tables)
  }

  /** A step that cannot break a foreign key: a create only once the
      referenced tables exist, a drop only once no referencing table does. */
  predicate SafeStep(db: set<Table>, s: Step)
  {
    match s
    case Create(t) => References(t) <= db
    case Drop(t) => forall u :: u in db ==> t !in References(u)
  }

  /** Every step of the run is safe in the state it is applied to. */
  predicate SafeRun(db: set<Table>, steps: seq<Step>)
    decreases |steps|
  {
    |steps| == 0 || (SafeStep(db, steps[0]) && SafeRun(Apply(db, steps[0]).1, steps[1..]))
  }

  function Creates(plan: seq<Table>): (steps: seq<Step>)
    ensures |steps| == |plan|
    ensures forall i :: 0 <= i < |plan| ==> steps[i] == Create(plan[i])
  {
    seq(|plan|, i requires 0 <= i < |plan| => Create(plan[i]))
  }

  function Drops(plan: seq<Table>): (steps: seq<Step>)
    ensures |steps| == |plan|
    ensures forall i :: 0 <= i < |plan| ==> steps[i] == Drop(plan[i])
  {
    seq(|plan|, i requires 0 <= i < |plan| => Drop(plan[i]))
  }

  /** The drop sequence the console runs for a menu choice; any other
      character drops nothing. */
  function DropPlan(option: char): seq<Table>
  {
    if option == 'U' || option == '*' then [Likes, Comments, Ideas, Users]
    else if option == 'I' then [Likes, Comments, Ideas]
    else if option == 'C' then [Comments]
    else if option == 'L' then [Likes]
    else []
  }

  /** The table a drop-menu choice is named after ('*' means all tables, which
      is the cascade of users). */
  function RootOf(option: char): (r: Table)
    requires option in TableOptions
    ensures option == 'C' ==> r == Comments
    ensures option == 'L' ==> r == Likes
  {
    if option == 'U' || option == '*' then Users
    else if option == 'I' then Ideas
    else if option == 'C' then Comments
    else Likes
  }

  /** `createAllTable`. */
  function CreateAllTables(db: set<Table>): Outcome
  {
    Run(db, Creates(CreationOrder))
  }

  /** `dropTable` of the console, after the menu choice has been read. */
  function DropTables(db: set<Table>, option: char): Outcome
  {
    Run(db, Drops(DropPlan(option)))
  }

  // ---------------------------------------------------------------------------
  // Single transitions

  /** Creating a table twice: the second call reports that it already existed
      and changes nothing. */
  lemma CreateTableIdempotent(db: set<Table>, t: Table)
    ensures var (_, once) := CreateTable(db, t);
            CreateTable(once, t) == (false, once)
  {
  }

  /** Dropping a table twice: the second call reports that there was nothing
      to drop and changes nothing. */
  lemma DropTableIdempotent(db: set<Table>, t: Table)
    ensures var (_, once) := DropTable(db, t);
            DropTable(once, t) == (false, once)
  {
  }

  /** A safe step keeps the referential-integrity invariant. */
  lemma SafeStepKeepsClosed(db: set<Table>, s: Step)
    requires Closed(db) && SafeStep(db, s)
    ensures Closed(Apply(db, s).1)
  {
  }

  // ---------------------------------------------------------------------------
  // Runs

  /** A run of safe steps keeps the referential-integrity invariant. */
  lemma {:induction false} SafeRunKeepsClosed(db: set<Table>, steps: seq<Step>)
    requires Closed(db) && SafeRun(db, steps)
    ensures Closed(Run(db, steps).tables)
    decreases |steps|
  {
    if |steps| > 0 {
      SafeStepKeepsClosed(db, steps[0]);
      SafeRunKeepsClosed(Apply(db, steps[0]).1, steps[1..]);
    }
  }

  /** Creating the tables of a plan adds exactly those tables; each step
      reports true exactly when its table was neither there at the start nor
      created earlier in the plan. */
  lemma {:induction false} RunCreates(db: set<Table>, plan: seq<Table>)
    ensures Run(db, Creates(plan)).tables == db + Elems(plan)
    ensures forall i :: 0 <= i < |plan| ==>
              (Run(db, Creates(plan)).reports[i] <==> plan[i] !in db && plan[i] !in plan[..i])
    decreases |plan|
  {
    if |plan| > 0 {
      var next := db + {plan[0]};
      assert Creates(plan)[1..] == Creates(plan[1..]);
      RunCreates(next, plan[1..]);
      assert Elems(plan) == {plan[0]} + Elems(plan[1..]);
      var r := Run(db, Creates(plan));
      forall i | 0 < i < |plan|
        ensures r.reports[i] <==> plan[i] !in db && plan[i] !in plan[..i]
      {
        assert plan[1..][i - 1] == plan[i];
        assert plan[..i] == [plan[0]] + plan[1..][..i - 1];
      }
    }
  }

  /** Dropping the tables of a plan removes exactly those tables; each step
      reports true exactly when its table was there at the start and not
      dropped earlier in the plan. */
  lemma {:induction false} RunDrops(db: set<Table>, plan: seq<Table>)
    ensures Run(db, Drops(plan)).tables == db - Elems(plan)
    ensures forall i :: 0 <= i < |plan| ==>
              (Run(db, Drops(plan)).reports[i] <==> plan[i] in db && plan[i] !in plan[..i])
    decreases |plan|
  {
    if |plan| > 0 {
      var next := db - {plan[0]};
      assert Drops(plan)[1..] == Drops(plan[1..]);
      RunDrops(next, plan[1..]);
      assert Elems(plan) == {plan[0]} + Elems(plan[1..]);
      var r := Run(db, Drops(plan));
      forall i | 0 < i < |plan|
        ensures r.reports[i] <==> plan[i] in db && plan[i] !in plan[..i]
      {
        assert plan[1..][i - 1] == plan[i];
        assert plan[..i] == [plan[0]] + plan[1..][..i - 1];
      }
    }
  }

  /** A create-ordered plan is safe to run. */
  lemma {:induction false} CreateOrderedIsSafe(db: set<Table>, plan: seq<Table>)
    requires CreateOrdered(db, plan)
    ensures SafeRun(db, Creates(plan))
    decreases |plan|
  {
    if |plan| > 0 {
      var next := db + {plan[0]};
      assert plan[..0] == [];
      assert References(plan[0]) <= db;
      forall i, u | 0 <= i < |plan[1..]| && u in References(plan[1..][i])
        ensures u in next || u in plan[1..][..i]
      {
        assert plan[1..][i] == plan[i + 1];
        assert plan[..i + 1] == [plan[0]] + plan[1..][..i];
      }
      assert Creates(plan)[1..] == Creates(plan[1..]);
      CreateOrderedIsSafe(next, plan[1..]);
    }
  }

  /** A drop-ordered plan is safe to run. */
  lemma {:induction false} DropOrderedIsSafe(db: set<Table>, plan: seq<Table>)
    requires DropOrdered(db, plan)
    ensures SafeRun(db, Drops(plan))
    decreases |plan|
  {
    if |plan| > 0 {
      var next := db - {plan[0]};
      assert plan[..0] == [];
      assert forall u :: u in db && plan[0] in References(u) ==> u in plan[..0];
      forall i, u | 0 <= i < |plan[1..]| && u in next && plan[1..][i] in References(u)
        ensures u in plan[1..][..i]
      {
        assert plan[1..][i] == plan[i + 1];
        assert u in plan[..i + 1];
        assert plan[..i + 1] == [plan[0]] + plan[1..][..i];
      }
      assert Drops(plan)[1..] == Drops(plan[1..]);
      DropOrderedIsSafe(next, plan[1..]);
    }
  }

  // ---------------------------------------------------------------------------
  // The console's fixed sequences

  /** `createAllTable` never creates a table before the tables it references,
      keeps the invariant, leaves all four tables in place, and reports a
      creation exactly for the tables that were missing. */
  lemma CreateAllTablesSound(db: set<Table>)
    ensures SafeRun(db, Creates(CreationOrder))
    ensures Closed(db) ==> Closed(CreateAllTables(db).tables)
    ensures CreateAllTables(db).tables == AllTables
    ensures forall i :: 0 <= i < |CreationOrder| ==>
              (CreateAllTables(db).reports[i] <==> CreationOrder[i] !in db)
  {
    CreationOrderIsOrdered(db);
    CreateOrderedIsSafe(db, CreationOrder);
    if Closed(db) {
      SafeRunKeepsClosed(db, Creates(CreationOrder));
    }
    RunCreates(db, CreationOrder);
    assert Elems(CreationOrder) == AllTables;
    forall t ensures t in db ==> t in AllTables { AllTablesComplete(t); }
  }

  /** Each drop-menu choice runs the cascade of the table it names; any other
      character drops nothing. */
  lemma DropPlanIsCascade(option: char)
    ensures option in TableOptions ==> DropPlan(option) == CascadePlan(RootOf(option))
    ensures option !in TableOptions ==> DropPlan(option) == []
  {
    if option in TableOptions {
      CascadePlanValue(RootOf(option));
    }
  }

  /** Every drop-menu choice is safe from every state, keeps the invariant,
      removes exactly the chosen table and the tables referencing it, and
      reports a drop exactly for the tables that were present. */
  lemma DropTablesSound(db: set<Table>, option: char)
    requires option in TableOptions
    ensures SafeRun(db, Drops(DropPlan(option)))
    ensures Closed(db) ==> Closed(DropTables(db, option).tables)
    ensures DropTables(db, option).tables == db - Dependents(RootOf(option))
    ensures forall i :: 0 <= i < |DropPlan(option)| ==>
              (DropTables(db, option).reports[i] <==> DropPlan(option)[i] in db)
  {
    var plan := DropPlan(option);
    DropPlanIsCascade(option);
    CascadePlanSound(db, RootOf(option));
    DropOrderedIsSafe(db, plan);
    if Closed(db) {
      SafeRunKeepsClosed(db, Drops(plan));
    }
    RunDrops(db, plan);
    forall i | 0 <= i < |plan|
      ensures plan[i] !in plan[..i]
    {
      forall k | 0 <= k < i
        ensures plan[..i][k] != plan[i]
      {
        assert Position(plan[k]) > Position(plan[i]);
      }
    }
  }

  /** 'U' and '*' drop likes, comments, ideas and users, leaving none of the
      four tables. */
  lemma DropUsersOrAllEmptiesSchema(db: set<Table>, option: char)
    requires option == 'U' || option == '*'
    ensures DropPlan(option) == [Likes, Comments, Ideas, Users]
    ensures DropTables(db, option).tables == {}
  {
    DropTablesSound(db, option);
    DependentsValues();
    forall t ensures t in db ==> t in AllTables { AllTablesComplete(t); }
  }

  /** 'I' drops likes, comments and ideas and leaves users as it was. */
  lemma DropIdeasKeepsUsers(db: set<Table>)
    ensures DropPlan('I') == [Likes, Comments, Ideas]
    ensures DropTables(db, 'I').tables == db * {Users}
  {
    DropTablesSound(db, 'I');
    DependentsValues();
    forall t ensures t in db ==> t in AllTables { AllTablesComplete(t); }
  }

  /** 'C' drops only comments and 'L' drops only likes. */
  lemma DropLeafTablesOnly(db: set<Table>)
    ensures DropTables(db, 'C').tables == db - {Comments}
    ensures DropTables(db, 'L').tables == db - {Likes}
  {
    DropTablesSound(db, 'C');
    DropTablesSound(db, 'L');
    DependentsValues();
  }

  /** Every character `prompt` can return for the drop menu drops at least
      the table it names, and drops it last. */
  lemma MenuChoiceDropsNamedTableLast(line: Console.Line)
    requires Console.Accepts(line, TableOptions)
    ensures var plan := DropPlan(line.s[0]);
            |plan| > 0 && plan[|plan| - 1] == RootOf(line.s[0])
  {
  }

  /** A character outside the menu leaves the database unchanged. */
  lemma DropOtherOptionChangesNothing(db: set<Table>, option: char)
    requires option !in TableOptions
    ensures DropTables(db, option) == Outcome([], db)
  {
  }
}
