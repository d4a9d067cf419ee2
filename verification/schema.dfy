/** The four tables of the idea-sharing schema and the foreign-key references
    between them. A database is abstracted to the set of tables that exist. */
module Schema {

  datatype Table = Users | Ideas | Comments | Likes

  const AllTables: set<Table> := {Users, Ideas, Comments, Likes}

  /** The fixed order in which the console creates tables and inserts seed rows. */
  const CreationOrder: seq<Table> := [Users, Ideas, Comments, Likes]

  /** Where `t` stands in the creation order. */
  function Position(t: Table): (p: nat)
    ensures p < |CreationOrder| && CreationOrder[p] == t
  {
    match t
    case Users => 0
    case Ideas => 1
    case Comments => 2
    case Likes => 3
  }

  /** The tables `t` references by a foreign key. Likes is treated as
      referencing ideas although no such key is declared, which is the
      conservative reading the drop menu follows. Every reference points to a
      table that comes earlier in the creation order, so the reference graph
      is acyclic and the creation order is a topological order of it. */
  function References(t: Table): (r: set<Table>)
    ensures t !in r
    ensures forall u :: u in r ==> Position(u) < Position(t)
  {
    match t
    case Users => {}
    case Ideas => {Users}
    case Comments => {Ideas, Users}
    case Likes => {Ideas, Users}
  }

  /** The referential-integrity invariant: every existing table's referenced
      tables exist too. */
  predicate Closed(db: set<Table>)
  {
    forall t :: t in db ==> References(t) <= db
  }

  /** `u` references `t`, directly or through a chain of references. */
  predicate DependsOn(u: Table, t: Table)
    decreases Position(u)
  {
    t in References(u) || exists v :: v in References(u) && DependsOn(v, t)
  }

  /** `t` together with every table that depends on it: what must go when `t`
      is dropped. */
  function Dependents(t: Table): set<Table>
  {
    set u | u in AllTables && (u == t || DependsOn(u, t))
  }

  /** The elements of `s` that lie in `keep`, in reverse order. */
  function ReverseKeep(s: seq<Table>, keep: set<Table>): (r: seq<Table>)
    ensures forall x :: x in r <==> x in s && x in keep
    ensures |r| <= |s|
  {
    if |s| == 0 then []
    else if s[0] in keep then ReverseKeep(s[1..], keep) + [s[0]]
    else ReverseKeep(s[1..], keep)
  }

  /** The cascade for `t`: its dependents in reverse creation order, so every
      referencing table goes before the table it references. */
  function CascadePlan(t: Table): seq<Table>
  {
    ReverseKeep(CreationOrder, Dependents(t))
  }

  /** The tables occurring in a plan. */
  function Elems(plan: seq<Table>): set<Table>
  {
    set x | x in plan
  }

  /** A drop plan that never removes a table while a table of `db` that
      references it is still present. */
  predicate DropOrdered(db: set<Table>, plan: seq<Table>)
  {
    forall i, u :: 0 <= i < |plan| && u in db && plan[i] in References(u) ==> u in plan[..i]
  }

  /** A create plan that never creates a table before the tables it
      references exist, starting from `db`. */
  predicate CreateOrdered(db: set<Table>, plan: seq<Table>)
  {
    forall i, u :: 0 <= i < |plan| && u in References(plan[i]) ==> u in db || u in plan[..i]
  }

  lemma AllTablesComplete(t: Table)
    ensures t in AllTables
  {
  }

  /** The declared references are already transitively closed, so dependency
      through a chain is the same as a direct reference. */
  lemma {:induction false} DependsOnIsDirect(u: Table, t: Table)
    ensures DependsOn(u, t) <==> t in References(u)
    decreases Position(u)
  {
    forall v | v in References(u) && DependsOn(v, t)
      ensures t in References(u)
    {
      DependsOnIsDirect(v, t);
    }
  }

  /** Dependents are exactly `t` and the tables that reference it. */
  lemma DependentsDirect(t: Table)
    ensures forall u :: u in Dependents(t) <==> u == t || t in References(u)
  {
    forall u
      ensures u in Dependents(t) <==> u == t || t in References(u)
    {
      AllTablesComplete(u);
      DependsOnIsDirect(u, t);
    }
  }

  /** The dependents of each table, written out. */
  lemma DependentsValues()
    ensures Dependents(Users) == AllTables
    ensures Dependents(Ideas) == {Ideas, Comments, Likes}
    ensures Dependents(Comments) == {Comments}
    ensures Dependents(Likes) == {Likes}
  {
    DependentsDirect(Users);
    DependentsDirect(Ideas);
    DependentsDirect(Comments);
    DependentsDirect(Likes);
  }

  /** The cascade for a set of dependents, computed one table at a time. */
  lemma CascadeOf(keep: set<Table>)
    ensures ReverseKeep(CreationOrder, keep)
         == (if Likes in keep then [Likes] else [])
          + (if Comments in keep then [Comments] else [])
          + (if Ideas in keep then [Ideas] else [])
          + (if Users in keep then [Users] else [])
  {
    assert [Likes][1..] == [];
    assert ReverseKeep([Likes], keep) == (if Likes in keep then [Likes] else []);
    assert [Comments, Likes][1..] == [Likes];
    assert ReverseKeep([Comments, Likes], keep)
        == ReverseKeep([Likes], keep) + (if Comments in keep then [Comments] else []);
    assert [Ideas, Comments, Likes][1..] == [Comments, Likes];
    assert ReverseKeep([Ideas, Comments, Likes], keep)
        == ReverseKeep([Comments, Likes], keep) + (if Ideas in keep then [Ideas] else []);
    assert CreationOrder[1..] == [Ideas, Comments, Likes];
    assert ReverseKeep(CreationOrder, keep)
        == ReverseKeep([Ideas, Comments, Likes], keep) + (if Users in keep then [Users] else []);
  }

  /** The cascade of each table, written out. */
  lemma CascadePlanValue(t: Table)
    ensures CascadePlan(t) == match t
      case Users => [Likes, Comments, Ideas, Users]
      case Ideas => [Likes, Comments, Ideas]
      case Comments => [Comments]
      case Likes => [Likes]
  {
    var d := Dependents(t);
    DependentsValues();
    CascadeOf(d);
    match t
    case Users =>
      assert Likes in d && Comments in d && Ideas in d && Users in d;
    case Ideas =>
      assert Likes in d && Comments in d && Ideas in d && Users !in d;
    case Comments =>
      assert Likes !in d && Comments in d && Ideas !in d && Users !in d;
    case Likes =>
      assert Likes in d && Comments !in d && Ideas !in d && Users !in d;
  }

  /** A plan listing tables in strictly decreasing creation position, and
      holding every table of `db` that references one of its members, is drop
      ordered. */
  lemma DecreasingPlanIsDropOrdered(db: set<Table>, plan: seq<Table>)
    requires forall i, j :: 0 <= i < j < |plan| ==> Position(plan[i]) > Position(plan[j])
    requires forall x, u :: x in plan && u in db && x in References(u) ==> u in plan
    ensures DropOrdered(db, plan)
  {
    forall i, u | 0 <= i < |plan| && u in db && plan[i] in References(u)
      ensures u in plan[..i]
    {
      assert plan[i] in plan;
      var k :| 0 <= k < |plan| && plan[k] == u;
      assert Position(u) > Position(plan[i]);
      assert k < i;
    }
  }

  /** The cascade of every table drops exactly its dependents, each once, and
      in an order that respects every reference. */
  lemma CascadePlanSound(db: set<Table>, t: Table)
    ensures Elems(CascadePlan(t)) == Dependents(t)
    ensures forall i, j :: 0 <= i < j < |CascadePlan(t)| ==> Position(CascadePlan(t)[i]) > Position(CascadePlan(t)[j])
    ensures DropOrdered(db, CascadePlan(t))
  {
    CascadePlanValue(t);
    DependentsDirect(t);
    DecreasingPlanIsDropOrdered(db, CascadePlan(t));
  }

  /** The creation order is create-ordered from any starting state. */
  lemma CreationOrderIsOrdered(db: set<Table>)
    ensures CreateOrdered(db, CreationOrder)
  {
    forall i, u | 0 <= i < |CreationOrder| && u in References(CreationOrder[i])
      ensures u in CreationOrder[..i]
    {
      assert CreationOrder[Position(u)] == u;
    }
  }
}
