/** The order in which the console loads sample rows: all users, then all
    ideas, then all comments, then all likes. Rows are kept abstract (type
    parameters); only the database call each one turns into matters here. */
module Seed {
  import opened Schema

  /** One insert call of the database layer. */
  datatype Insert<U, I, C, L> =
    | InsertUser(user: U)
    | InsertIdea(idea: I)
    | InsertComment(comment: C)
    | InsertLike(like: L)
  {
    /** The table the row goes into. */
    function Target(): Table
    {
      match this
      case InsertUser(_) => Users
      case InsertIdea(_) => Ideas
      case InsertComment(_) => Comments
      case InsertLike(_) => Likes
    }
  }

  /** Inserts grouped by table in creation order. */
  predicate InCreationOrder<U, I, C, L>(log: seq<Insert<U, I, C, L>>)
  {
    forall i, j :: 0 <= i < j < |log| ==> Position(log[i].Target()) <= Position(log[j].Target())
  }

  /** No row is inserted before a row of a table it references could be. */
  predicate ReferencesResolved<U, I, C, L>(log: seq<Insert<U, I, C, L>>)
  {
    forall i, j :: 0 <= i < j < |log| ==> log[j].Target() !in References(log[i].Target())
  }

  /** The inserts of `log` that go into table `t`, in log order. */
  function Into<U, I, C, L>(log: seq<Insert<U, I, C, L>>, t: Table): seq<Insert<U, I, C, L>>
  {
    if |log| == 0 then []
    else (if log[0].Target() == t then [log[0]] else []) + Into(log[1..], t)
  }

  // One insert per row of each list, in list order.

  function UserInserts<U, I, C, L>(users: seq<U>): seq<Insert<U, I, C, L>>
  {
    seq(|users|, k requires 0 <= k < |users| => InsertUser(users[k]))
  }

  function IdeaInserts<U, I, C, L>(ideas: seq<I>): seq<Insert<U, I, C, L>>
  {
    seq(|ideas|, k requires 0 <= k < |ideas| => InsertIdea(ideas[k]))
  }

  function CommentInserts<U, I, C, L>(comments: seq<C>): seq<Insert<U, I, C, L>>
  {
    seq(|comments|, k requires 0 <= k < |comments| => InsertComment(comments[k]))
  }

  function LikeInserts<U, I, C, L>(likes: seq<L>): seq<Insert<U, I, C, L>>
  {
    seq(|likes|, k requires 0 <= k < |likes| => InsertLike(likes[k]))
  }

  /** `addSampleData` after the sample file has been parsed: the insert calls
      it makes, in order, one loop per table. */
  method AddSampleData<U, I, C, L>(users: seq<U>, ideas: seq<I>, comments: seq<C>, likes: seq<L>)
    returns (log: seq<Insert<U, I, C, L>>)
    ensures log == UserInserts(users) + IdeaInserts(ideas) + CommentInserts(comments) + LikeInserts(likes)
    ensures InCreationOrder(log) && ReferencesResolved(log)
    ensures Into(log, Users) == UserInserts(users) && Into(log, Ideas) == IdeaInserts(ideas)
    ensures Into(log, Comments) == CommentInserts(comments) && Into(log, Likes) == LikeInserts(likes)
  {
    log := [];
    for k := 0 to |users|
      invariant log == UserInserts(users[..k])
    {
      log := log + [InsertUser(users[k])];
    }
    assert users[..|users|] == users;
    var done := log;
    for k := 0 to |ideas|
      invariant log == done + IdeaInserts(ideas[..k])
    {
      log := log + [InsertIdea(ideas[k])];
    }
    assert ideas[..|ideas|] == ideas;
    done := log;
    for k := 0 to |comments|
      invariant log == done + CommentInserts(comments[..k])
    {
      log := log + [InsertComment(comments[k])];
    }
    assert comments[..|comments|] == comments;
    done := log;
    for k := 0 to |likes|
      invariant log == done + LikeInserts(likes[..k])
    {
      log := log + [InsertLike(likes[k])];
    }
    assert likes[..|likes|] == likes;
    SampleLoadOrdered(users, ideas, comments, likes);
    SampleLoadPartition(users, ideas, comments, likes);
  }

  /** The sample load inserts every user before any idea, every idea before
      any comment and every comment before any like, so no row is inserted
      before the rows it may reference. */
  lemma SampleLoadOrdered<U, I, C, L>(users: seq<U>, ideas: seq<I>, comments: seq<C>, likes: seq<L>)
    ensures var log := UserInserts(users) + IdeaInserts(ideas) + CommentInserts(comments) + LikeInserts(likes);
            InCreationOrder(log) && ReferencesResolved(log)
  {
    var a: seq<Insert<U, I, C, L>> := UserInserts(users);
    var b: seq<Insert<U, I, C, L>> := IdeaInserts(ideas);
    var c: seq<Insert<U, I, C, L>> := CommentInserts(comments);
    var d: seq<Insert<U, I, C, L>> := LikeInserts(likes);
    var log := a + b + c + d;
    forall i | 0 <= i < |log|
      ensures Position(log[i].Target()) == Band(i, |a|, |b|, |c|)
    {
      if i < |a| {
        assert log[i] == a[i];
      } else if i < |a| + |b| {
        assert log[i] == b[i - |a|];
      } else if i < |a| + |b| + |c| {
        assert log[i] == c[i - |a| - |b|];
      } else {
        assert log[i] == d[i - |a| - |b| - |c|];
      }
    }
    InCreationOrderResolves(log);
  }

  /** Which of four consecutive blocks of sizes `na`, `nb`, `nc` and the rest
      index `i` falls in. */
  function Band(i: int, na: nat, nb: nat, nc: nat): (k: nat)
    ensures k <= 3
    ensures i < na ==> k == 0
    ensures na + nb + nc <= i ==> k == 3
  {
    if i < na then 0 else if i < na + nb then 1 else if i < na + nb + nc then 2 else 3
  }

  /** Grouping by creation order resolves every reference at insert time. */
  lemma InCreationOrderResolves<U, I, C, L>(log: seq<Insert<U, I, C, L>>)
    requires InCreationOrder(log)
    ensures ReferencesResolved(log)
  {
    forall i, j | 0 <= i < j < |log|
      ensures log[j].Target() !in References(log[i].Target())
    {
      assert Position(log[i].Target()) <= Position(log[j].Target());
    }
  }

  /** Selecting by table distributes over concatenation. */
  lemma {:induction false} IntoAppend<U, I, C, L>(a: seq<Insert<U, I, C, L>>, b: seq<Insert<U, I, C, L>>, t: Table)
    ensures Into(a + b, t) == Into(a, t) + Into(b, t)
    decreases |a|
  {
    if |a| == 0 {
      assert a + b == b;
    } else {
      assert (a + b)[1..] == a[1..] + b;
      IntoAppend(a[1..], b, t);
    }
  }

  /** A block whose inserts all go into one table: selecting that table keeps
      it whole, selecting another keeps nothing. */
  lemma {:induction false} IntoUniform<U, I, C, L>(block: seq<Insert<U, I, C, L>>, target: Table, t: Table)
    requires forall k :: 0 <= k < |block| ==> block[k].Target() == target
    ensures Into(block, t) == if t == target then block else []
    decreases |block|
  {
    if |block| > 0 {
      IntoUniform(block[1..], target, t);
      if t == target {
        assert block == [block[0]] + block[1..];
      }
    }
  }

  /** Splitting the sample load by table gives back exactly the four parsed
      lists, each in its original order. */
  lemma SampleLoadPartition<U, I, C, L>(users: seq<U>, ideas: seq<I>, comments: seq<C>, likes: seq<L>)
    ensures var log := UserInserts(users) + IdeaInserts(ideas) + CommentInserts(comments) + LikeInserts(likes);
            && Into(log, Users) == UserInserts(users)
            && Into(log, Ideas) == IdeaInserts(ideas)
            && Into(log, Comments) == CommentInserts(comments)
            && Into(log, Likes) == LikeInserts(likes)
  {
    var a: seq<Insert<U, I, C, L>> := UserInserts(users);
    var b: seq<Insert<U, I, C, L>> := IdeaInserts(ideas);
    var c: seq<Insert<U, I, C, L>> := CommentInserts(comments);
    var d: seq<Insert<U, I, C, L>> := LikeInserts(likes);
    forall t: Table
      ensures Into(a + b + c + d, t)
           == (if t == Users then a else []) + (if t == Ideas then b else [])
            + (if t == Comments then c else []) + (if t == Likes then d else [])
    {
      IntoAppend(a + b + c, d, t);
      IntoAppend(a + b, c, t);
      IntoAppend(a, b, t);
      IntoUniform(a, Users, t);
      IntoUniform(b, Ideas, t);
      IntoUniform(c, Comments, t);
      IntoUniform(d, Likes, t);
    }
  }
}
