/**
 * A stand-in for the persistence layer behind `PostRepository`, which in the Java program is
 * an interface whose implementation Spring Data JPA generates. The table is a map from id to
 * row, `order` is the fixed sequence in which `findAll` lists the rows (the order they were
 * inserted in), and `nextId` is the identity column's counter. The table's unique constraint
 * on the title column is part of the invariant: a save that would break it fails.
 */
module Repository {
  import opened Wrappers
  import opened Entity

  /** The database refused a save because another row already has this title. */
  datatype SaveError = DuplicateTitle(title: string)

  predicate Distinct(s: seq<int>) {
    forall i, j | 0 <= i < j < |s| :: s[i] != s[j]
  }

  /** Some row of `rows` has the title `title`. */
  predicate TitleTaken(rows: map<int, Post>, title: string) {
    exists k | k in rows :: rows[k].title == title
  }

  /** No two rows share a title. */
  predicate UniqueTitles(rows: map<int, Post>) {
    forall j, k | j in rows && k in rows && rows[j].title == rows[k].title :: j == k
  }

  /** `s` with `x` taken out, the other elements in their order. */
  function Without(s: seq<int>, x: int): (r: seq<int>)
    ensures forall y :: y in r <==> y in s && y != x
    ensures x !in s ==> r == s
    ensures Distinct(s) ==> Distinct(r)
    ensures Distinct(s) && x in s ==> |r| == |s| - 1
  {
    if s == [] then []
    else if s[0] == x then Without(s[1..], x)
    else
      var rest := Without(s[1..], x);
      assert Distinct(s) ==> Distinct(s[1..]) && s[0] !in s[1..] by {
        if Distinct(s) {
          forall i | 0 <= i < |s[1..]| ensures s[1..][i] != s[0] {
            assert s[1..][i] == s[i + 1];
          }
        }
      }
      [s[0]] + rest
  }

  /** The rows the keys `ks` name, in the order of `ks`. */
  function RowsOf(ks: seq<int>, rows: map<int, Post>): (posts: seq<Post>)
    requires forall i | 0 <= i < |ks| :: ks[i] in rows
    ensures |posts| == |ks|
    ensures forall i | 0 <= i < |ks| :: posts[i] == rows[ks[i]]
  {
    if ks == [] then [] else [rows[ks[0]]] + RowsOf(ks[1..], rows)
  }

  /** The set of elements of `ks`. */
  function Elements(ks: seq<int>): set<int> {
    set k | k in ks
  }

  /** A list without duplicates has as many distinct elements as it is long. */
  lemma {:induction false} DistinctCount(ks: seq<int>)
    requires Distinct(ks)
    ensures |Elements(ks)| == |ks|
  {
    if ks != [] {
      var tail := ks[1..];
      assert Distinct(tail) by {
        forall i, j | 0 <= i < j < |tail| ensures tail[i] != tail[j] {
          assert tail[i] == ks[i + 1] && tail[j] == ks[j + 1];
        }
      }
      DistinctCount(tail);
      assert ks[0] !in Elements(tail) by {
        forall i | 0 <= i < |tail| ensures tail[i] != ks[0] {
          assert tail[i] == ks[i + 1];
        }
      }
      assert Elements(ks) == Elements(tail) + {ks[0]};
    }
  }

  /** Listing rows by a duplicate-free list of exactly their keys lists every row once. */
  lemma ListedRows(ks: seq<int>, rows: map<int, Post>)
    requires Distinct(ks)
    requires forall k :: k in ks <==> k in rows
    ensures forall i | 0 <= i < |ks| :: ks[i] in rows
    ensures |RowsOf(ks, rows)| == |rows|
    ensures forall k | k in rows :: rows[k] in RowsOf(ks, rows)
  {
    forall i | 0 <= i < |ks| ensures ks[i] in rows {
      assert ks[i] in ks;
    }
    DistinctCount(ks);
    forall k ensures k in rows.Keys <==> k in Elements(ks) {
    }
    assert rows.Keys == Elements(ks);
    var posts := RowsOf(ks, rows);
    forall k | k in rows ensures rows[k] in posts {
      var i :| 0 <= i < |ks| && ks[i] == k;
      assert posts[i] == rows[k];
    }
  }

  /**
   * The unique constraint on the title column: storing `post` under `id` in a table without
   * duplicate titles keeps it so exactly when no other row has the post's title.
   */
  lemma StoreKeepsTitlesUnique(rows: map<int, Post>, id: int, post: Post)
    requires UniqueTitles(rows)
    ensures UniqueTitles(rows[id := post]) <==> !TitleTaken(rows - {id}, post.title)
  {
    var others := rows - {id};
    if TitleTaken(others, post.title) {
      var k :| k in others && others[k].title == post.title;
      assert rows[id := post][k].title == rows[id := post][id].title && k != id;
    } else {
      forall k | k in rows && k != id ensures rows[k].title != post.title {
        assert k in others;
      }
    }
  }

  class PostRepository {
    var rows: map<int, Post>
    var order: seq<int>
    var nextId: int

    /**
     * Every row is stored under its own id, which lies below the counter; `order` lists each
     * stored id exactly once; no two rows share a title.
     */
    ghost predicate Valid()
      reads this
    {
      && 1 <= nextId
      && (forall k | k in rows :: 1 <= k < nextId && rows[k].id == Some(k))
      && Distinct(order)
      && (forall k :: k in order <==> k in rows)
      && UniqueTitles(rows)
    }

    /** An empty table whose identity column starts at 1. */
    constructor ()
      ensures Valid()
      ensures rows == map[] && order == [] && nextId == 1
    {
      rows, order, nextId := map[], [], 1;
    }

    /** `findById`: the row stored under `id`, if any. */
    function FindById(id: int): (r: Option<Post>)
      reads this
      requires Valid()
      ensures r.Some? <==> id in rows
      ensures r.Some? ==> r.value == rows[id] && r.value.id == Some(id)
    {
      if id in rows then Some(rows[id]) else None
    }

    /** `findAll`: every row exactly once, in the table's fixed order. */
    function FindAll(): (posts: seq<Post>)
      reads this
      requires Valid()
      ensures |posts| == |rows|
      ensures forall i | 0 <= i < |posts| ::
        posts[i].id.Some? && posts[i].id.value in rows && rows[posts[i].id.value] == posts[i]
      ensures forall k | k in rows :: rows[k] in posts
      ensures forall i, j | 0 <= i < j < |posts| :: posts[i] != posts[j]
    {
      ListedRows(order, rows);
      RowsOf(order, rows)
    }

    /**
     * `save`: an entity without an id is inserted under a fresh id from the counter; an entity
     * with the id of a stored row overwrites that row. Either fails, changing nothing, when
     * another row already has the entity's title.
     */
    method Save(post: Post) returns (r: Result<Post, SaveError>)
      requires Valid()
      requires post.id.Some? ==> post.id.value in rows
      modifies this
      ensures Valid()
      ensures post.id.None? && TitleTaken(old(rows), post.title) ==>
        r == Failure(DuplicateTitle(post.title)) && unchanged(this)
      ensures post.id.None? && !TitleTaken(old(rows), post.title) ==>
        && r == Success(post.(id := Some(old(nextId))))
        && 1 <= old(nextId) && old(nextId) !in old(rows)
        && rows == old(rows)[old(nextId) := r.value]
        && order == old(order) + [old(nextId)]
        && nextId == old(nextId) + 1
      ensures post.id.Some? && TitleTaken(old(rows) - {post.id.value}, post.title) ==>
        r == Failure(DuplicateTitle(post.title)) && unchanged(this)
      ensures post.id.Some? && !TitleTaken(old(rows) - {post.id.value}, post.title) ==>
        && r == Success(post)
        && rows == old(rows)[post.id.value := post]
        && order == old(order) && nextId == old(nextId)
    {
      if post.id.None? {
        if TitleTaken(rows, post.title) {
          return Failure(DuplicateTitle(post.title));
        }
        var saved := post.(id := Some(nextId));
        StoreKeepsTitlesUnique(rows, nextId, saved);
        assert rows - {nextId} == rows;
        rows := rows[nextId := saved];
        order := order + [nextId];
        nextId := nextId + 1;
        r := Success(saved);
      } else {
        var id := post.id.value;
        if TitleTaken(rows - {id}, post.title) {
          return Failure(DuplicateTitle(post.title));
        }
        StoreKeepsTitlesUnique(rows, id, post);
        rows := rows[id := post];
        r := Success(post);
      }
    }

    /**
     * `delete`: removes the row stored under the entity's id; an entity that was never saved
     * or whose row is already gone is ignored.
     */
    method Delete(post: Post)
      requires Valid()
      modifies this
      ensures Valid()
      ensures post.id.Some? && post.id.value in old(rows) ==>
        && rows == old(rows) - {post.id.value}
        && order == Without(old(order), post.id.value)
        && nextId == old(nextId)
      ensures !(post.id.Some? && post.id.value in old(rows)) ==> unchanged(this)
    {
      if post.id.Some? && post.id.value in rows {
        var id := post.id.value;
        rows := rows - {id};
        order := Without(order, id);
      }
    }
  }
}
