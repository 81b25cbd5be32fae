/**
 * The `follow` table and the queries over it. The table is a sequence of rows
 * because the schema has no uniqueness constraint: only the handlers' own
 * existence checks keep an edge from being stored twice.
 */
module SocialGraph {

  /** A row `(user_id, follows_id)`: `follower` follows `followed`. */
  datatype Edge = Edge(follower: nat, followed: nat)

  /** No row of the table occurs twice. */
  predicate NoDup<T(==)>(rows: seq<T>)
  {
    forall i, j :: 0 <= i < j < |rows| ==> rows[i] != rows[j]
  }

  /** In a table without duplicates every row occurs at most once. */
  lemma {:induction false} NoDupCount<T>(rows: seq<T>, x: T)
    requires NoDup(rows)
    ensures multiset(rows)[x] <= 1
  {
    if rows != [] {
      assert rows == [rows[0]] + rows[1..];
      assert NoDup(rows[1..]) by {
        forall i, j | 0 <= i < j < |rows[1..]| ensures rows[1..][i] != rows[1..][j] {
          assert rows[1..][i] == rows[i + 1] && rows[1..][j] == rows[j + 1];
        }
      }
      NoDupCount(rows[1..], x);
      if rows[0] == x {
        assert x !in rows[1..] by {
          forall k | 0 <= k < |rows[1..]| ensures rows[1..][k] != x {
            assert rows[1..][k] == rows[k + 1];
          }
        }
      }
    }
  }

  /**
   * The table after the `follow` handler: an INSERT of `e` only when no row
   * `e` exists yet.
   */
  function FollowRows(rows: seq<Edge>, e: Edge): (r: seq<Edge>)
    ensures e in r
    ensures |rows| <= |r| && r[..|rows|] == rows
    ensures multiset(r)[e] == if e in rows then multiset(rows)[e] else 1
    ensures forall x :: x != e ==> multiset(r)[x] == multiset(rows)[x]
    ensures NoDup(rows) ==> NoDup(r)
  {
    if e in rows then rows
    else
      assert (rows + [e])[..|rows|] == rows;
      rows + [e]
  }

  /** Following twice leaves the same table as following once. */
  lemma FollowIdempotent(rows: seq<Edge>, e: Edge)
    ensures FollowRows(FollowRows(rows, e), e) == FollowRows(rows, e)
  {
  }

  /**
   * The table after the `unfollow` handler: `DELETE FROM follow WHERE
   * user_id = ? AND follows_id = ?` removes every row equal to `e`.
   */
  function RemoveEdge(rows: seq<Edge>, e: Edge): (r: seq<Edge>)
    ensures e !in r
    ensures forall x :: x != e ==> multiset(r)[x] == multiset(rows)[x]
    ensures forall x :: x in r ==> x in rows
    ensures e !in rows ==> r == rows
    ensures |r| <= |rows|
    decreases |rows|
  {
    if rows == [] then []
    else
      assert rows == [rows[0]] + rows[1..];
      var rest := RemoveEdge(rows[1..], e);
      if rows[0] == e then rest else [rows[0]] + rest
  }

  /** Deleting distributes over the concatenation of two parts of the table. */
  lemma {:induction false} RemoveEdgeAppend(a: seq<Edge>, b: seq<Edge>, e: Edge)
    ensures RemoveEdge(a + b, e) == RemoveEdge(a, e) + RemoveEdge(b, e)
    decreases |a|
  {
    if a == [] {
      assert a + b == b;
    } else {
      assert (a + b)[1..] == a[1..] + b;
      assert (a + b)[0] == a[0];
      RemoveEdgeAppend(a[1..], b, e);
    }
  }

  /** Deleting a table without duplicates keeps it without duplicates. */
  lemma {:induction false} RemoveEdgeNoDup(rows: seq<Edge>, e: Edge)
    requires NoDup(rows)
    ensures NoDup(RemoveEdge(rows, e))
  {
    var r := RemoveEdge(rows, e);
    forall x ensures multiset(r)[x] <= 1 {
      NoDupCount(rows, x);
    }
    CountsNoDup(r);
  }

  /** A table in which every row occurs at most once has no duplicates. */
  lemma CountsNoDup<T>(rows: seq<T>)
    requires forall x :: multiset(rows)[x] <= 1
    ensures NoDup(rows)
  {
    forall i, j | 0 <= i < j < |rows| ensures rows[i] != rows[j] {
      assert rows == rows[..j] + [rows[j]] + rows[j + 1..];
      assert rows[..j][i] == rows[i];
      assert multiset(rows)[rows[i]] >= multiset(rows[..j])[rows[i]] + multiset([rows[j]])[rows[i]];
    }
  }

  /** Unfollowing twice leaves the same table as unfollowing once. */
  lemma UnfollowIdempotent(rows: seq<Edge>, e: Edge)
    ensures RemoveEdge(RemoveEdge(rows, e), e) == RemoveEdge(rows, e)
  {
  }

  /** Follow then unfollow, from a table without the edge, restores the table. */
  lemma {:induction false} FollowUnfollowRoundTrip(rows: seq<Edge>, e: Edge)
    requires e !in rows
    ensures RemoveEdge(FollowRows(rows, e), e) == rows
  {
    RemoveEdgeAppend(rows, [e], e);
    assert RemoveEdge([e], e) == [];
  }

  /** Unfollow then follow, from a table holding the edge once, restores its rows. */
  lemma UnfollowFollowRoundTrip(rows: seq<Edge>, e: Edge)
    requires NoDup(rows) && e in rows
    ensures multiset(FollowRows(RemoveEdge(rows, e), e)) == multiset(rows)
  {
    NoDupCount(rows, e);
    ReinsertSingleRow(rows, e);
  }

  /** Deleting and re-inserting a row that occurs once gives the same rows. */
  lemma ReinsertSingleRow(rows: seq<Edge>, e: Edge)
    requires multiset(rows)[e] == 1
    ensures multiset(FollowRows(RemoveEdge(rows, e), e)) == multiset(rows)
  {
    var m := RemoveEdge(rows, e);
    RemoveSingleRow(rows, e);
    assert FollowRows(m, e) == m + [e];
    assert multiset(m + [e]) == multiset(m) + multiset{e};
  }

  /** Deleting a row that occurs once takes exactly that one row out. */
  lemma {:induction false} RemoveSingleRow(rows: seq<Edge>, e: Edge)
    requires multiset(rows)[e] == 1
    ensures multiset(RemoveEdge(rows, e)) + multiset{e} == multiset(rows)
    decreases |rows|
  {
    assert rows == [rows[0]] + rows[1..];
    var t := rows[1..];
    if rows[0] == e {
      assert multiset(t)[e] == 0;
      assert RemoveEdge(rows, e) == RemoveEdge(t, e) == t;
    } else {
      RemoveSingleRow(t, e);
      assert RemoveEdge(rows, e) == [rows[0]] + RemoveEdge(t, e);
    }
  }

  /** Which side of an edge a join query anchors on. */
  datatype Direction = Following | Followers

  /** The row that relates the anchored user `id` to `other` in direction `d`. */
  function EdgeOf(id: nat, other: nat, d: Direction): Edge
  {
    if d == Following then Edge(id, other) else Edge(other, id)
  }

  /** One result row of a join: a user id and that user's record. */
  datatype Member<U> = Member(id: nat, user: U)

  /**
   * The join queries of `following` and `followers`: for every row anchored
   * on `id`, in table order, the user at the other end, when that user
   * exists (inner join).
   */
  function Join<U>(rows: seq<Edge>, users: map<nat, U>, id: nat, d: Direction): (r: seq<Member<U>>)
    ensures forall m :: m in r ==> m.id in users && m.user == users[m.id] && EdgeOf(id, m.id, d) in rows
    ensures |r| <= |rows|
    decreases |rows|
  {
    if rows == [] then []
    else
      var e := rows[0];
      var rest := Join(rows[1..], users, id, d);
      var near := if d == Following then e.follower else e.followed;
      var far := if d == Following then e.followed else e.follower;
      assert e == EdgeOf(id, far, d) || near != id;
      if near == id && far in users then [Member(far, users[far])] + rest else rest
  }

  /** Each existing user appears in the join once per row that links them to `id`. */
  lemma {:induction false} JoinCount<U>(rows: seq<Edge>, users: map<nat, U>, id: nat, d: Direction, other: nat)
    requires other in users
    ensures multiset(Join(rows, users, id, d))[Member(other, users[other])] == multiset(rows)[EdgeOf(id, other, d)]
    decreases |rows|
  {
    if rows != [] {
      assert rows == [rows[0]] + rows[1..];
      JoinCount(rows[1..], users, id, d, other);
    }
  }

  /** After `a` follows an existing user `b`, `b` appears once in `a`'s following list. */
  lemma FollowShowsInFollowing<U>(rows: seq<Edge>, users: map<nat, U>, a: nat, b: nat)
    requires NoDup(rows) && b in users
    ensures multiset(Join(FollowRows(rows, Edge(a, b)), users, a, Following))[Member(b, users[b])] == 1
  {
    var r := FollowRows(rows, Edge(a, b));
    JoinCount(r, users, a, Following, b);
    NoDupCount(r, Edge(a, b));
  }

  /** After an existing user `a` follows `b`, `a` appears once in `b`'s followers list. */
  lemma FollowShowsInFollowers<U>(rows: seq<Edge>, users: map<nat, U>, a: nat, b: nat)
    requires NoDup(rows) && a in users
    ensures multiset(Join(FollowRows(rows, Edge(a, b)), users, b, Followers))[Member(a, users[a])] == 1
  {
    var r := FollowRows(rows, Edge(a, b));
    JoinCount(r, users, b, Followers, a);
    NoDupCount(r, Edge(a, b));
  }

  /** After unfollowing, the user is gone from the following list and the followers list. */
  lemma UnfollowHidesInBoth<U>(rows: seq<Edge>, users: map<nat, U>, a: nat, b: nat)
    ensures forall m :: m in Join(RemoveEdge(rows, Edge(a, b)), users, a, Following) ==> m.id != b
    ensures forall m :: m in Join(RemoveEdge(rows, Edge(a, b)), users, b, Followers) ==> m.id != a
  {
  }
}
