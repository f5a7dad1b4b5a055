/** The interactive authoring tool of src/bin/create_post.rs, without its
    stdin and file reads: its answers arrive as the lines the user typed. */
module CreatePostTool {
  import opened Strings
  import Db

  /** `prompt_input`: the line read, minus its last character (the newline).
      An empty read makes the source's slice bound underflow. */
  function PromptInput(line: string): (field: string)
    requires |line| > 0
    ensures field + [line[|line| - 1]] == line
  {
    line[..|line| - 1]
  }

  /** A line typed and ended with Enter comes back as typed. */
  lemma PromptInputStripsNewline(typed: string)
    ensures PromptInput(typed + "\n") == typed
  {
    var line := typed + "\n";
    assert line[..|line| - 1] == typed;
  }

  /** The url rule of this tool: the file stem with every '_' replaced by
      '-', lower-cased. */
  function UrlFromStem(stem: string): (url: string)
    ensures '_' !in url && NoUpper(url)
    ensures |url| == |stem|
  {
    ToLower(ReplaceChar(stem, '_', '-'))
  }

  /** Deriving the url from a url gives the same url. */
  lemma UrlFromStemIdempotent(stem: string)
    ensures UrlFromStem(UrlFromStem(stem)) == UrlFromStem(stem)
  {
    var url := UrlFromStem(stem);
    assert ReplaceChar(url, '_', '-') == url;
  }

  /** The tags answer split on whitespace. */
  function SplitTags(answer: string): (tags: seq<string>)
    ensures forall k :: 0 <= k < |tags| ==> tags[k] != [] && NoWhitespace(tags[k])
  {
    Tokens(answer)
  }

  /** The tags, joined, are the answer with its whitespace taken out: no
      character is lost or reordered. */
  lemma SplitTagsKeepsText(answer: string)
    ensures Concat(SplitTags(answer)) == RemoveWhitespace(answer)
    ensures SplitTags(answer) == [] <==> AllWhitespace(answer)
  {
    TokensConcat(answer);
    TokensEmpty(answer);
  }

  /** Tags break at every whitespace character of the answer, and a bare
      word is a single tag: with `SplitTagsKeepsText` this fixes the tags. */
  lemma SplitTagsBreaks(a: string, c: char, b: string)
    requires IsWhitespace(c)
    ensures SplitTags(a + [c] + b) == SplitTags(a) + SplitTags(b)
    ensures a != [] && NoWhitespace(a) ==> SplitTags(a) == [a]
  {
    TokensAtWhitespace(a, c, b);
    if a != [] && NoWhitespace(a) {
      TokensOfWord(a);
    }
  }

  /** The record `main` builds from the title, summary and tags lines, the
      markdown file's stem and contents, and today's date. */
  function NewPost(titleLine: string, summaryLine: string, tagsLine: string,
                   stem: string, body: string, today: Db.Date): (r: Db.NewBlogPost)
    requires |titleLine| > 0 && |summaryLine| > 0 && |tagsLine| > 0
    ensures !r.published
    ensures r.title + [titleLine[|titleLine| - 1]] == titleLine
    ensures r.summary + [summaryLine[|summaryLine| - 1]] == summaryLine
    ensures r.url == UrlFromStem(stem) && r.body == body && r.created == today
    ensures r.tags == SplitTags(PromptInput(tagsLine))
  {
    Db.NewBlogPost(
      PromptInput(titleLine),
      today,
      false,
      UrlFromStem(stem),
      PromptInput(summaryLine),
      body,
      SplitTags(PromptInput(tagsLine)))
  }

  /** A post created by this tool is in no listing until it is published. */
  lemma NewPostHidden(rows: seq<Db.BlogPost>, post: Db.NewBlogPost, id: int, posts: seq<Db.BlogPost>)
    requires !post.published
    requires Db.IsListing(rows + [Db.Stored(post, id)], posts)
    ensures Db.Stored(post, id) !in posts
  {
    assert multiset(posts)[Db.Stored(post, id)] == 0;
  }
}
