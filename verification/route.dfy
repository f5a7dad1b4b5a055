/** The two blog handlers of src/route.rs: the list page and the post page.
    Templates are identified by name; the markdown renderer is a parameter. */
module Route {
  import opened Wrappers
  import opened Db

  /** What a handler hands to its template. */
  datatype PageData = Message(text: string) | Posts(posts: seq<BlogPost>) | Post(post: BlogPost)

  datatype Page = Page(template: string, data: PageData)

  const NO_POSTS_MESSAGE := "No blog posts found. Check back soon!"

  /** `handle_blog_list_page` on the result of `read_posts`. */
  function BlogListPage(posts: seq<BlogPost>): (page: Page)
    ensures page.template == "blog_list_noposts" <==> posts == []
    ensures posts == [] ==> page.data == Message(NO_POSTS_MESSAGE)
    ensures posts != [] ==> page == Page("blog_list", Posts(posts))
  {
    if posts == [] then Page("blog_list_noposts", Message(NO_POSTS_MESSAGE))
    else Page("blog_list", Posts(posts))
  }

  /** On a table that loads, the list page shows "no posts" exactly when
      the table has no published row. */
  lemma ListPageNoPostsIff(rows: seq<BlogPost>, posts: seq<BlogPost>)
    requires IsListing(rows, posts)
    ensures BlogListPage(posts).template == "blog_list_noposts" <==>
      forall i :: 0 <= i < |rows| ==> !rows[i].published
  {
    if posts != [] {
      assert multiset(posts)[posts[0]] > 0;
      assert posts[0] in rows;
    }
    if exists i :: 0 <= i < |rows| && rows[i].published {
      var i :| 0 <= i < |rows| && rows[i].published;
      assert multiset(rows)[rows[i]] > 0;
      assert multiset(posts)[rows[i]] > 0;
    }
  }

  /** The route segment `post`; a missing segment reads as "/". */
  function PostPath(segment: Option<string>): (path: string)
    ensures segment.Some? ==> path == segment.value
    ensures segment.None? ==> path == "/"
  {
    segment.GetOr("/")
  }

  /** The `url -> post` HashMap collected from the listing, with each post
      given by its position: a later post overwrites an earlier one with the
      same url. */
  function UrlIndex(posts: seq<BlogPost>): (index: map<string, nat>)
    ensures forall i :: 0 <= i < |posts| ==> posts[i].url in index
    ensures forall u :: u in index ==> IsSelected(posts, u, index[u])
  {
    if posts == [] then map[]
    else
      var init := posts[..|posts| - 1];
      assert forall i :: 0 <= i < |init| ==> init[i] == posts[i];
      UrlIndex(init)[posts[|posts| - 1].url := |posts| - 1]
  }

  /** Post `k` is the one a lookup of `u` finds: the last post with url `u`. */
  predicate IsSelected(posts: seq<BlogPost>, u: string, k: nat) {
    k < |posts| && posts[k].url == u &&
    forall j :: k < j < |posts| ==> posts[j].url != u
  }

  /** `handle_blog_post_page` on the result of `read_posts`: index the posts by
      url, look up the route segment (a missing one reads as "/"; an unknown
      one makes the source's `unwrap` panic, hence the precondition), replace
      that post's body by its rendering and show it. */
  method BlogPostPage(posts: seq<BlogPost>, segment: Option<string>, render: string -> string)
    returns (page: Page)
    requires exists i :: 0 <= i < |posts| && posts[i].url == PostPath(segment)
    ensures page.template == "blog_post"
    ensures exists k: nat ::
      IsSelected(posts, PostPath(segment), k) &&
      page.data == Post(posts[k].(body := render(posts[k].body)))
  {
    var index: map<string, nat> := map[];
    var i := 0;
    while i < |posts|
      invariant i <= |posts|
      invariant index == UrlIndex(posts[..i])
    {
      assert posts[..i + 1][..i] == posts[..i];
      index := index[posts[i].url := i];
      i := i + 1;
    }
    assert posts[..i] == posts;
    var path := PostPath(segment);
    var k := index[path];
    var shown := posts;
    shown := shown[k := shown[k].(body := render(shown[k].body))];
    page := Page("blog_post", Post(shown[k]));
  }

  /** On a listing, the post page shows a published row of the table, with
      every field but the body as stored. */
  lemma SelectedIsPublishedRow(rows: seq<BlogPost>, posts: seq<BlogPost>, u: string, k: nat)
    requires IsListing(rows, posts) && IsSelected(posts, u, k)
    ensures posts[k].published && posts[k] in rows && posts[k].url == u
  {
    assert multiset(posts)[posts[k]] > 0;
  }
}
