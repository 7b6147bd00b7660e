/**
 * The `posts` table as the route handlers read and change it: the rows
 * themselves, the `WHERE` clauses the handlers use, what `fetchone()`,
 * `UPDATE`, `DELETE` and `ORDER BY created_at DESC` do with them, and a
 * table object whose methods are the handlers `new_post`, `edit_post` and
 * `delete_post`.
 *
 * The table keeps its rows in insertion order. A slug is an ordinary column:
 * nothing makes it unique, so several rows may share one.
 */
module Posts {
  import opened Wrappers
  import opened Slug

  /** One row: `id`, `title`, `content`, `slug`, `author_id`, `created_at`. */
  datatype Post = Post(id: nat, title: string, content: string, slug: string, authorId: nat, createdAt: nat)

  /** The `WHERE` clauses the handlers use. */
  datatype Where =
    | SlugIs(slug: string)                           // `WHERE slug = %s`
    | SlugAndAuthorAre(slug: string, authorId: nat)  // `WHERE slug = %s AND author_id = %s`
    | IdIs(id: nat)                                  // `WHERE id = %s`

  predicate Matches(p: Post, w: Where) {
    match w
    case SlugIs(s) => p.slug == s
    case SlugAndAuthorAre(s, a) => p.slug == s && p.authorId == a
    case IdIs(i) => p.id == i
  }

  // ---------------------------------------------------------------------
  // Queries

  /** Position of the first row that matches `w`, or `|posts|` when none does. */
  function FirstMatch(posts: seq<Post>, w: Where): (k: nat)
    ensures k <= |posts|
    ensures forall j :: 0 <= j < k ==> !Matches(posts[j], w)
    ensures k < |posts| ==> Matches(posts[k], w)
  {
    if posts == [] then 0
    else if Matches(posts[0], w) then 0
    else 1 + FirstMatch(posts[1..], w)
  }

  /**
   * `SELECT * FROM posts WHERE …` followed by `fetchone()`: a matching
   * row, or nothing when no row matches. The query has no `ORDER BY`, so
   * the database may return any matching row; the model returns the first
   * in table order.
   */
  function FetchOne(posts: seq<Post>, w: Where): (r: Option<Post>)
    ensures r.None? <==> forall i :: 0 <= i < |posts| ==> !Matches(posts[i], w)
    ensures r.Some? ==> exists k :: (0 <= k < |posts| && posts[k] == r.value && Matches(posts[k], w)
      && forall j :: 0 <= j < k ==> !Matches(posts[j], w))
  {
    var k := FirstMatch(posts, w);
    if k < |posts| then Some(posts[k]) else None
  }

  /** The `post` handler: the row found under a slug (the first, if several share it). */
  function PostBySlug(posts: seq<Post>, slug: string): (r: Option<Post>)
    ensures r.Some? ==> r.value in posts && r.value.slug == slug
    ensures r.None? <==> forall i :: 0 <= i < |posts| ==> posts[i].slug != slug
  {
    FetchOne(posts, SlugIs(slug))
  }

  /** Rows sorted so that no row is older than one after it. */
  predicate NewestFirst(s: seq<Post>) {
    forall i, j :: 0 <= i < j < |s| ==> s[i].createdAt >= s[j].createdAt
  }

  /** Puts `p` in front of the first row of `s` that is not newer than it. */
  function InsertByDate(p: Post, s: seq<Post>): seq<Post> {
    if s == [] || s[0].createdAt <= p.createdAt then [p] + s
    else [s[0]] + InsertByDate(p, s[1..])
  }

  /** Inserting keeps every row (and adds `p`). */
  lemma {:induction false} InsertByDateRows(p: Post, s: seq<Post>)
    ensures multiset(InsertByDate(p, s)) == multiset(s) + multiset{p}
  {
    if s != [] && s[0].createdAt > p.createdAt {
      InsertByDateRows(p, s[1..]);
      assert s == [s[0]] + s[1..];
    }
  }

  /** Inserting a row no newer than `c` into rows no newer than `c` gives rows no newer than `c`. */
  lemma {:induction false} InsertByDateBound(p: Post, s: seq<Post>, c: nat)
    requires p.createdAt <= c
    requires forall i :: 0 <= i < |s| ==> s[i].createdAt <= c
    ensures forall i :: 0 <= i < |InsertByDate(p, s)| ==> InsertByDate(p, s)[i].createdAt <= c
  {
    if s != [] && s[0].createdAt > p.createdAt {
      InsertByDateBound(p, s[1..], c);
    }
  }

  /** Inserting into rows that are newest first keeps them newest first. */
  lemma {:induction false} InsertByDateSorted(p: Post, s: seq<Post>)
    requires NewestFirst(s)
    ensures NewestFirst(InsertByDate(p, s))
  {
    if s != [] && s[0].createdAt > p.createdAt {
      var t := s[1..];
      InsertByDateSorted(p, t);
      InsertByDateBound(p, t, s[0].createdAt);
      var r := InsertByDate(p, t);
      assert InsertByDate(p, s) == [s[0]] + r;
      assert forall j :: 1 <= j < |[s[0]] + r| ==> ([s[0]] + r)[j] == r[j - 1];
    }
  }

  /**
   * The `index` handler: `SELECT * FROM posts ORDER BY created_at DESC`.
   * Every row comes back exactly once, newest first. The database leaves
   * the order of rows with the same timestamp open; this definition picks one.
   */
  function Index(posts: seq<Post>): (r: seq<Post>)
    ensures NewestFirst(r)
    ensures multiset(r) == multiset(posts)
  {
    if posts == [] then []
    else
      var rest := Index(posts[1..]);
      InsertByDateSorted(posts[0], rest);
      InsertByDateRows(posts[0], rest);
      assert posts == [posts[0]] + posts[1..];
      InsertByDate(posts[0], rest)
  }

  // ---------------------------------------------------------------------
  // Statements

  /** `UPDATE posts SET title = …, content = …, slug = … WHERE …`. */
  function UpdateWhere(posts: seq<Post>, w: Where, title: string, content: string, slug: string): (r: seq<Post>)
    ensures |r| == |posts|
    ensures forall i :: 0 <= i < |posts| && Matches(posts[i], w) ==>
      r[i] == posts[i].(title := title, content := content, slug := slug)
    ensures forall i :: 0 <= i < |posts| && !Matches(posts[i], w) ==> r[i] == posts[i]
  {
    if posts == [] then []
    else
      var p := posts[0];
      var q := if Matches(p, w) then p.(title := title, content := content, slug := slug) else p;
      [q] + UpdateWhere(posts[1..], w, title, content, slug)
  }

  /** `DELETE FROM posts WHERE …`: the rows that do not match, in their order. */
  function DeleteWhere(posts: seq<Post>, w: Where): (r: seq<Post>)
    ensures |r| <= |posts|
    ensures forall p :: p in r <==> p in posts && !Matches(p, w)
  {
    if posts == [] then []
    else if Matches(posts[0], w) then DeleteWhere(posts[1..], w)
    else [posts[0]] + DeleteWhere(posts[1..], w)
  }

  // ---------------------------------------------------------------------
  // The table

  /** Ids grow along the table: they are unique and in insertion order. */
  predicate IdsIncreasing(posts: seq<Post>) {
    forall i, j :: 0 <= i < j < |posts| ==> posts[i].id < posts[j].id
  }

  /** Every id lies below the next one `AUTO_INCREMENT` hands out, and ids start at 1. */
  predicate IdsBelow(posts: seq<Post>, next: nat) {
    forall i :: 0 <= i < |posts| ==> 1 <= posts[i].id < next
  }

  class PostTable {
    var posts: seq<Post>
    /** The next value of the `AUTO_INCREMENT` counter of `id`. */
    var nextId: nat

    ghost predicate Valid()
      reads this
    {
      nextId >= 1 && IdsIncreasing(posts) && IdsBelow(posts, nextId)
    }

    /** An empty table whose counter starts at 1. */
    constructor ()
      ensures Valid()
      ensures posts == [] && nextId == 1
    {
      posts := [];
      nextId := 1;
    }

    /**
     * `new_post`: `INSERT INTO posts (title, content, slug, author_id)`,
     * with the slug derived from the title, the author the user who is
     * logged in, the id taken from the counter and `created_at` the
     * current time `now`.
     */
    method NewPost(title: string, content: string, authorId: nat, now: nat) returns (id: nat)
      requires Valid()
      modifies this
      ensures Valid()
      ensures id == old(nextId) && nextId == old(nextId) + 1
      ensures posts == old(posts) + [Post(id, title, content, GenerateSlug(title), authorId, now)]
    {
      id := nextId;
      posts := posts + [Post(id, title, content, GenerateSlug(title), authorId, now)];
      nextId := nextId + 1;
    }

    /**
     * `edit_post`: fetch the first row with this slug and author; if there
     * is none, change nothing and report it. Otherwise update the row with
     * that row's id: new title, new content and the slug of the new title.
     */
    method EditPost(slug: string, user: nat, title: string, content: string) returns (found: bool)
      requires Valid()
      modifies this
      ensures Valid() && nextId == old(nextId)
      ensures found <==> FetchOne(old(posts), SlugAndAuthorAre(slug, user)).Some?
      ensures !found ==> posts == old(posts)
      ensures found ==> exists k :: (0 <= k < |old(posts)| && old(posts)[k].slug == slug && old(posts)[k].authorId == user
        && posts == old(posts)[k := old(posts)[k].(title := title, content := content, slug := GenerateSlug(title))])
    {
      var row := FetchOne(posts, SlugAndAuthorAre(slug, user));
      if row.None? {
        return false;
      }
      var newSlug := GenerateSlug(title);
      UpdateOnlyThatRow(posts, SlugAndAuthorAre(slug, user), title, content, newSlug);
      UpdateKeepsIds(posts, IdIs(row.value.id), title, content, newSlug, nextId);
      posts := UpdateWhere(posts, IdIs(row.value.id), title, content, newSlug);
      found := true;
    }

    /** `delete_post`: `DELETE FROM posts WHERE slug = … AND author_id = …`. */
    method DeletePost(slug: string, user: nat)
      requires Valid()
      modifies this
      ensures Valid() && nextId == old(nextId)
      ensures posts == DeleteWhere(old(posts), SlugAndAuthorAre(slug, user))
    {
      DeleteKeepsIds(posts, SlugAndAuthorAre(slug, user), nextId);
      posts := DeleteWhere(posts, SlugAndAuthorAre(slug, user));
    }
  }

  // ---------------------------------------------------------------------
  // Properties of the statements

  /**
   * `UPDATE … WHERE id = …` with the id of the row `fetchone()` returned
   * changes that row and no other, since ids are unique.
   */
  lemma UpdateOnlyThatRow(posts: seq<Post>, w: Where, title: string, content: string, slug: string)
    requires IdsIncreasing(posts)
    requires FetchOne(posts, w).Some?
    ensures exists k :: (0 <= k < |posts| && Matches(posts[k], w)
      && UpdateWhere(posts, IdIs(FetchOne(posts, w).value.id), title, content, slug)
         == posts[k := posts[k].(title := title, content := content, slug := slug)])
  {
    var k := FirstMatch(posts, w);
    var r := UpdateWhere(posts, IdIs(posts[k].id), title, content, slug);
    assert forall i :: 0 <= i < |posts| && i != k ==> posts[i].id != posts[k].id;
    assert r == posts[k := posts[k].(title := title, content := content, slug := slug)];
  }

  /** `UPDATE` does not touch `id`, so ids stay increasing and below the counter. */
  lemma UpdateKeepsIds(posts: seq<Post>, w: Where, title: string, content: string, slug: string, next: nat)
    requires IdsIncreasing(posts) && IdsBelow(posts, next)
    ensures IdsIncreasing(UpdateWhere(posts, w, title, content, slug))
    ensures IdsBelow(UpdateWhere(posts, w, title, content, slug), next)
  {
    var r := UpdateWhere(posts, w, title, content, slug);
    assert forall i :: 0 <= i < |posts| ==> r[i].id == posts[i].id;
  }

  /** The rows `DELETE` leaves have ids above `c` when all rows had. */
  lemma {:induction false} DeleteIdsAbove(posts: seq<Post>, w: Where, c: int)
    requires forall i :: 0 <= i < |posts| ==> posts[i].id > c
    ensures forall i :: 0 <= i < |DeleteWhere(posts, w)| ==> DeleteWhere(posts, w)[i].id > c
  {
    if posts != [] {
      DeleteIdsAbove(posts[1..], w, c);
    }
  }

  /** The rows `DELETE` leaves have ids below `next` when all rows had. */
  lemma {:induction false} DeleteIdsBelow(posts: seq<Post>, w: Where, next: nat)
    requires IdsBelow(posts, next)
    ensures IdsBelow(DeleteWhere(posts, w), next)
  {
    if posts != [] {
      DeleteIdsBelow(posts[1..], w, next);
    }
  }

  /** `DELETE` keeps the remaining rows in order, so ids stay increasing and below the counter. */
  lemma {:induction false} DeleteKeepsIds(posts: seq<Post>, w: Where, next: nat)
    requires IdsIncreasing(posts) && IdsBelow(posts, next)
    ensures IdsIncreasing(DeleteWhere(posts, w)) && IdsBelow(DeleteWhere(posts, w), next)
  {
    DeleteIdsBelow(posts, w, next);
    if posts != [] {
      var t := posts[1..];
      DeleteKeepsIds(t, w, next);
      if !Matches(posts[0], w) {
        DeleteIdsAbove(t, w, posts[0].id);
        var r := DeleteWhere(t, w);
        assert DeleteWhere(posts, w) == [posts[0]] + r;
        assert forall j :: 1 <= j < |[posts[0]] + r| ==> ([posts[0]] + r)[j] == r[j - 1];
      }
    }
  }

  /** When no row has this slug and author, delete leaves the table as it was: a wrong author deletes nothing. */
  lemma {:induction false} DeleteNothingMatches(posts: seq<Post>, w: Where)
    requires forall i :: 0 <= i < |posts| ==> !Matches(posts[i], w)
    ensures DeleteWhere(posts, w) == posts
  {
    if posts != [] {
      DeleteNothingMatches(posts[1..], w);
    }
  }

  /** After the delete, no row with that slug and author is left for `edit_post` to find. */
  lemma DeleteThenFetch(posts: seq<Post>, w: Where)
    ensures FetchOne(DeleteWhere(posts, w), w).None?
  {
    var r := DeleteWhere(posts, w);
    forall i | 0 <= i < |r| ensures !Matches(r[i], w) {
      assert r[i] in r;
    }
  }

  /**
   * Inserting a row never changes what an existing lookup of the model
   * finds: when an older row already has the slug, the model keeps
   * showing that older row.
   */
  lemma {:induction false} FetchAfterInsert(posts: seq<Post>, p: Post, w: Where)
    ensures FetchOne(posts + [p], w) ==
      if FetchOne(posts, w).Some? then FetchOne(posts, w)
      else if Matches(p, w) then Some(p)
      else None
  {
    var s := posts + [p];
    assert forall i :: 0 <= i < |posts| ==> s[i] == posts[i];
    assert s[|posts|] == p;
    var k := FirstMatch(posts, w);
    var k' := FirstMatch(s, w);
    if k < |posts| {
      assert k' <= k;
      assert k' == k;
    } else {
      assert k' >= |posts|;
    }
  }
}
