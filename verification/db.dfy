/** The post table of src/db.rs, held in memory: `create_post` inserts a row,
    `read_posts` lists the published rows newest first, `publish_post` sets
    the published flag of one row. */
module Db {
  import opened Wrappers

  /** A calendar date (chrono's `NaiveDate`), ordered lexicographically. */
  datatype Date = Date(year: int, month: int, day: int)

  /** `a` is on or before `b`. */
  predicate NotAfter(a: Date, b: Date) {
    a.year < b.year ||
    (a.year == b.year && (a.month < b.month || (a.month == b.month && a.day <= b.day)))
  }

  /** A row of the `blogposts` table (`models::BlogPost`). */
  datatype BlogPost = BlogPost(
    id: int,
    title: string,
    created: Date,
    published: bool,
    url: string,
    summary: string,
    body: string,
    tags: seq<string>)

  /** The insertable record (`models::NewBlogPost`), with the `published`
      flag that both authoring tools set. */
  datatype NewBlogPost = NewBlogPost(
    title: string,
    created: Date,
    published: bool,
    url: string,
    summary: string,
    body: string,
    tags: seq<string>)

  /** The row the database stores for `post` under the id it assigns. */
  function Stored(post: NewBlogPost, id: int): (row: BlogPost)
    ensures row.id == id && row.published == post.published
  {
    BlogPost(id, post.title, post.created, post.published, post.url, post.summary, post.body, post.tags)
  }

  predicate HasId(rows: seq<BlogPost>, id: int) {
    exists i :: 0 <= i < |rows| && rows[i].id == id
  }

  ghost predicate UniqueIds(rows: seq<BlogPost>) {
    forall i, j :: 0 <= i < j < |rows| ==> rows[i].id != rows[j].id
  }

  /* ---------- read_posts ---------- */

  /** `filter(published.eq(true))`: the published rows, in table order. */
  function Published(rows: seq<BlogPost>): (r: seq<BlogPost>)
    ensures forall x :: multiset(r)[x] == if x.published then multiset(rows)[x] else 0
  {
    if rows == [] then []
    else
      assert rows == [rows[0]] + rows[1..];
      (if rows[0].published then [rows[0]] else []) + Published(rows[1..])
  }

  /** Newest first: entries are non-increasing by `created`. */
  predicate NewestFirst(posts: seq<BlogPost>) {
    forall i, j :: 0 <= i < j < |posts| ==> NotAfter(posts[j].created, posts[i].created)
  }

  /** Insert `p` into a newest-first sequence, keeping it newest first. */
  function InsertByCreated(p: BlogPost, posts: seq<BlogPost>): (r: seq<BlogPost>)
    requires NewestFirst(posts)
    ensures NewestFirst(r)
    ensures multiset(r) == multiset(posts) + multiset{p}
  {
    if posts == [] || NotAfter(posts[0].created, p.created) then
      PrependNewest(p, posts);
      [p] + posts
    else
      var rest := InsertByCreated(p, posts[1..]);
      NewerThanAll(posts, p, rest);
      [posts[0]] + rest
  }

  /** A post on or after the head of a newest-first sequence can go first. */
  lemma PrependNewest(p: BlogPost, posts: seq<BlogPost>)
    requires NewestFirst(posts)
    requires posts == [] || NotAfter(posts[0].created, p.created)
    ensures NewestFirst([p] + posts)
  {
    assert forall j :: 0 < j < |[p] + posts| ==> ([p] + posts)[j] == posts[j - 1];
  }

  /** The head of a newest-first sequence is on or after everything in the
      insertion of an older post into its tail. */
  lemma NewerThanAll(posts: seq<BlogPost>, p: BlogPost, rest: seq<BlogPost>)
    requires posts != [] && NewestFirst(posts) && !NotAfter(posts[0].created, p.created)
    requires NewestFirst(rest) && multiset(rest) == multiset(posts[1..]) + multiset{p}
    ensures NewestFirst([posts[0]] + rest)
    ensures multiset([posts[0]] + rest) == multiset(posts) + multiset{p}
  {
    assert posts == [posts[0]] + posts[1..];
    var r := [posts[0]] + rest;
    forall j | 0 < j < |r| ensures NotAfter(r[j].created, posts[0].created) {
      assert r[j] == rest[j - 1];
      assert rest[j - 1] in multiset(rest);
      if rest[j - 1] != p {
        assert rest[j - 1] in multiset(posts[1..]);
        var k :| 0 <= k < |posts[1..]| && posts[1..][k] == rest[j - 1];
        assert posts[k + 1] == rest[j - 1];
      }
    }
  }

  /** `order(created.desc())`. Postgres promises no order among rows of the
      same date; this is one admissible order, and nothing below depends on
      which one: the listing is only ever used through `IsListing`. */
  function SortNewestFirst(posts: seq<BlogPost>): (r: seq<BlogPost>)
    ensures NewestFirst(r)
    ensures multiset(r) == multiset(posts)
  {
    if posts == [] then []
    else
      assert posts == [posts[0]] + posts[1..];
      InsertByCreated(posts[0], SortNewestFirst(posts[1..]))
  }

  /** What `read_posts` may return for a table that loads: exactly the
      published rows, each as often as in the table, newest first. */
  ghost predicate IsListing(rows: seq<BlogPost>, posts: seq<BlogPost>) {
    && (forall x :: multiset(posts)[x] == if x.published then multiset(rows)[x] else 0)
    && NewestFirst(posts)
  }

  /** Rows with distinct ids are distinct: each occurs once. */
  lemma {:induction false} UniqueIdsOnce(rows: seq<BlogPost>, x: BlogPost)
    requires UniqueIds(rows)
    ensures multiset(rows)[x] <= 1
  {
    if rows != [] {
      assert rows == [rows[0]] + rows[1..];
      UniqueIdsOnce(rows[1..], x);
      if rows[0] == x {
        assert x !in rows[1..] by {
          forall k | 0 <= k < |rows[1..]| ensures rows[1..][k] != x {
            assert rows[1..][k] == rows[k + 1];
          }
        }
      }
    }
  }

  /** Every entry of a listing is published, and every published row of a
      table with unique ids appears in it exactly once. */
  lemma ListingExactlyOnce(rows: seq<BlogPost>, posts: seq<BlogPost>, x: BlogPost)
    requires UniqueIds(rows) && IsListing(rows, posts)
    ensures x in posts ==> x.published && x in rows
    ensures x in rows && x.published ==> multiset(posts)[x] == 1
  {
    UniqueIdsOnce(rows, x);
  }

  /* ---------- publish_post ---------- */

  /** `update(blogposts.filter(id.eq(target))).set(published.eq(true))`. */
  function PublishRows(rows: seq<BlogPost>, targetId: int): (r: seq<BlogPost>)
    ensures |r| == |rows|
  {
    seq(|rows|, i requires 0 <= i < |rows| =>
      if rows[i].id == targetId then rows[i].(published := true) else rows[i])
  }

  /** Publishing changes only the published flag of the target row. */
  lemma PublishChangesOnlyTarget(rows: seq<BlogPost>, targetId: int, i: nat)
    requires i < |rows|
    ensures rows[i].id != targetId ==> PublishRows(rows, targetId)[i] == rows[i]
    ensures rows[i].id == targetId ==>
      PublishRows(rows, targetId)[i].published &&
      PublishRows(rows, targetId)[i].(published := rows[i].published) == rows[i]
  {
  }

  /** Publishing is idempotent, and a no-op on an already published row or an
      unknown id. */
  lemma PublishIdempotent(rows: seq<BlogPost>, targetId: int)
    ensures PublishRows(PublishRows(rows, targetId), targetId) == PublishRows(rows, targetId)
    ensures (forall i :: 0 <= i < |rows| && rows[i].id == targetId ==> rows[i].published) ==>
      PublishRows(rows, targetId) == rows
  {
    var once := PublishRows(rows, targetId);
    assert forall i :: 0 <= i < |rows| ==> PublishRows(once, targetId)[i] == once[i];
  }

  /** Publishing keeps every id, so it keeps them distinct. */
  lemma PublishKeepsIds(rows: seq<BlogPost>, targetId: int)
    ensures forall i :: 0 <= i < |rows| ==> PublishRows(rows, targetId)[i].id == rows[i].id
    ensures UniqueIds(rows) ==> UniqueIds(PublishRows(rows, targetId))
  {
  }

  /** Index of the row with id `targetId`, if any. */
  function IndexOfId(rows: seq<BlogPost>, targetId: int): (k: Option<nat>)
    ensures k.Some? ==> k.value < |rows| && rows[k.value].id == targetId
    ensures k.None? <==> !HasId(rows, targetId)
  {
    if rows == [] then None
    else if rows[0].id == targetId then Some(0)
    else
      match IndexOfId(rows[1..], targetId)
      case None => None
      case Some(k) => Some(k + 1)
  }

  /** After publishing a row of a table with unique ids, every listing shows
      the published row exactly once. */
  lemma PublishedRowListedOnce(rows: seq<BlogPost>, k: nat, posts: seq<BlogPost>)
    requires UniqueIds(rows) && k < |rows|
    requires IsListing(PublishRows(rows, rows[k].id), posts)
    ensures multiset(posts)[rows[k].(published := true)] == 1
  {
    var after := PublishRows(rows, rows[k].id);
    PublishKeepsIds(rows, rows[k].id);
    assert after[k] == rows[k].(published := true);
    ListingExactlyOnce(after, posts, after[k]);
  }

  /** The in-memory table: the rows in insertion order and the next value of
      the id sequence. */
  class PostTable {
    var rows: seq<BlogPost>
    var nextId: int

    ghost predicate Valid()
      reads this
    {
      UniqueIds(rows) && forall i :: 0 <= i < |rows| ==> rows[i].id < nextId
    }

    /** An empty table; the id sequence starts at 1. */
    constructor ()
      ensures Valid() && rows == []
    {
      rows := [];
      nextId := 1;
    }

    /** `create_post`: insert the record under a fresh id and return the
        stored row. */
    method CreatePost(post: NewBlogPost) returns (row: BlogPost)
      requires Valid()
      modifies this
      ensures Valid()
      ensures row == Stored(post, row.id)
      ensures !HasId(old(rows), row.id)
      ensures rows == old(rows) + [row]
      ensures row.id == old(nextId) && nextId == old(nextId) + 1
    {
      row := Stored(post, nextId);
      rows := rows + [row];
      nextId := nextId + 1;
    }

    /** `read_posts`: the published rows, newest first; a table that fails to
        load (`loaded` false) gives the empty list. Reading changes nothing. */
    function ReadPosts(loaded: bool): (posts: seq<BlogPost>)
      reads this
      ensures !loaded ==> posts == []
      ensures loaded ==> IsListing(rows, posts)
    {
      if loaded then SortNewestFirst(Published(rows)) else []
    }

    /** `publish_post`: set `published` on the row with `targetId` and return
        that row; `None` where the source's `expect` panics (no such row). */
    method PublishPost(targetId: int) returns (r: Option<BlogPost>)
      requires Valid()
      modifies this
      ensures Valid() && nextId == old(nextId)
      ensures rows == PublishRows(old(rows), targetId)
      ensures r.None? <==> !HasId(old(rows), targetId)
      ensures r.Some? ==>
        exists k :: 0 <= k < |old(rows)| && old(rows)[k].id == targetId &&
          r.value == old(rows)[k].(published := true) == rows[k]
    {
      var k := IndexOfId(rows, targetId);
      PublishKeepsIds(rows, targetId);
      rows := PublishRows(rows, targetId);
      match k {
        case None => r := None;
        case Some(i) => r := Some(rows[i]);
      }
    }
  }

  /** End to end: a post created unpublished is absent from every listing;
      once published it appears in every listing exactly once. */
  lemma CreateThenPublish(rows: seq<BlogPost>, post: NewBlogPost, id: int,
                          before: seq<BlogPost>, after: seq<BlogPost>)
    requires UniqueIds(rows) && !HasId(rows, id) && !post.published
    requires IsListing(rows + [Stored(post, id)], before)
    requires IsListing(PublishRows(rows + [Stored(post, id)], id), after)
    ensures Stored(post, id) !in before
    ensures multiset(after)[Stored(post, id).(published := true)] == 1
  {
    var table := rows + [Stored(post, id)];
    assert UniqueIds(table);
    assert table[|rows|] == Stored(post, id);
    PublishedRowListedOnce(table, |rows|, after);
  }
}
