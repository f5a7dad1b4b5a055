# Blog content store — a Dafny model

This project models the content core of a personal blog backend written in
Rust:

- the front-matter reader that splits a post file into a `key: value`
  metadata block and a body (`src/blog.rs`);
- the `blogposts` table with its three operations `create_post`,
  `read_posts` and `publish_post` (`src/db.rs`);
- the selection logic of the blog list page and the blog post page
  (`src/route.rs`);
- the record and url-slug construction of the authoring CLI
  (`src/cli.rs`) and of the interactive create tool
  (`src/bin/create_post.rs`).

Modules, one per source file, plus two shared ones:

| file | module | models |
|---|---|---|
| `wrappers.dfy` | `Wrappers` | `Option` |
| `strings.dfy` | `Strings` | Rust's ASCII whitespace, `trim`, `to_lowercase`, `replace`, `split_whitespace` |
| `blog.dfy` | `Blog` | `BlogPost::from_file` as a loop over the lines of the file's contents, against the specification function `Parse` |
| `db.dfy` | `Db` | the table as a class `PostTable` holding `rows` and `nextId` |
| `route.dfy` | `Route` | `handle_blog_list_page`, `handle_blog_post_page` |
| `cli.dfy` | `Cli` | `apply`, `get_optional`, `get_optionals`, the record built by `create` |
| `create_post.dfy` | `CreatePostTool` | `prompt_input`, the url-from-stem rule, tag splitting, the record built by `main` |

Modelling choices:

- Strings are `seq<char>` with ASCII semantics. Whitespace is `' '` and
  `'\t'..'\r'`, which is what Rust's `char::is_whitespace` gives on ASCII.
  Lower-casing maps `'A'..'Z'` to `'a'..'z'`, so it keeps the length.
- A post file's contents are the input of `Blog.FromFile`. The loop reads
  one line at a time, as `read_line` does: each line keeps its `'\n'`, and
  the last line may have none.
- A row's `created` date is a `(year, month, day)` triple ordered
  lexicographically.
- `read_posts` is specified by `Db.IsListing`: the published rows, each as
  often as in the table, newest first. No order is assumed among posts of
  the same date, because Postgres does not promise one. `Db.SortNewestFirst`
  is one admissible order, and no lemma depends on which one. A table that
  fails to load gives the empty list (`loaded` false).
- The markdown renderer is a parameter `render: string -> string` of the
  post page.
- The new-post record carries a `published` flag. `src/cli.rs:37` and
  `src/bin/create_post.rs:29` set one. The `NewBlogPost` shown at
  `src/db.rs:68-75` has none, and there the column default applies.
- clap's `ArgMatches` is a map from argument name to supplied values. The
  "was not supplied" warnings of `get_optional` and `get_optionals` are
  returned as a `warned` flag.
- Where the source panics through `unwrap` or `expect`, the model does one
  of two things:
  - a `requires`: an unknown post slug, an empty `prompt_input` read, a
    missing TITLE or FILE;
  - an `Option` result: `publish_post` on an id with no row.

### Behaviour of the code worth knowing

- A colon-free line that is a single word is metadata: the whole line,
  newline included, lower-cased is its key and its value is empty
  (`Blog.ColonFreeLine`), so a file whose first line is one colon-free
  word does not start its body there.
- On duplicate urls, the post page shows the post that comes LATER in the
  listing, because the HashMap collection overwrites earlier keys.
- Posts of equal date come in no guaranteed order.
- `create_post` neither checks that the url is unique nor rejects an empty
  title or body.

## Model

| member | source | states |
|---|---|---|
| `Blog.FromFile` | src/blog.rs:27-54 | the loop's result is exactly `Parse(contents)`: the map collected from the leading metadata lines, and as body the first failing line and everything after it, verbatim |
| `Blog.Lines` | src/blog.rs:37 | the pieces `read_line` returns are non-empty, hold a newline only as their last character, and every piece but the last ends with one |
| `Blog.LinesConcat` | src/blog.rs:37-52 | reading line by line consumes the input exactly: the lines joined are the input |
| `Blog.ColonIndex` | src/blog.rs:39-40 | `splitn(2, ':')` splits at the first colon, or keeps the whole line when there is none |
| `Blog.IsMetadataLine` | src/blog.rs:41 | the metadata test: the pre-colon text is non-empty and has exactly one whitespace-separated token; `MetadataLineIff` gives its trimmed-bare-word reading |
| `Blog.Key` | src/blog.rs:39-43 | the stored key: the text before the first colon, or the whole line, lower-cased and not trimmed; `ParseMetadataKeys` ties the map keys to it |
| `Blog.Value` | src/blog.rs:42 | the stored value: the text after the first colon, or "", trimmed; `ParseValuesTrimmed` states that every stored value is trimmed |
| `Blog.MetadataLineIff` | src/blog.rs:39-41 | a line is metadata iff its pre-colon text, trimmed, is a non-empty run without whitespace (exactly one token) |
| `Blog.BlankLineNotMetadata` | src/blog.rs:41-45 | a blank or whitespace-only line has zero tokens and is never metadata |
| `Blog.ColonFreeLine` | src/blog.rs:39-43 | a colon-free single-token line is metadata with the whole line, newline included, lower-cased as key and "" as value |
| `Blog.HeaderLength` | src/blog.rs:37-49 | the header is the longest prefix of metadata lines: all lines before it pass the test and the next line fails it |
| `Blog.Collect` | src/blog.rs:43 | the map built by `insert` of each pair in order; `CollectKeys` and `CollectLastWins` characterise it |
| `Blog.Parse` | src/blog.rs:27-54 | the reference definition `FromFile` is proved equal to: the header lines go into the map and the remaining lines are the body; the `Parse` lemmas below state its properties |
| `Blog.CollectKeys` | src/blog.rs:43 | the map built by `insert` in order holds exactly the inserted keys |
| `Blog.CollectLastWins` | src/blog.rs:43 | a key inserted several times keeps the value of its last insertion |
| `Blog.ParseSplitsAtFirstNonMetadataLine` | src/blog.rs:41-52 | header lines all pass the test; the first failing line starts the body verbatim, followed by the remaining lines unchanged; with no failing line the body is empty |
| `Blog.ParseReconstructs` | src/blog.rs:37-52 | the consumed metadata lines followed by the body equal the input |
| `Blog.BlankLineEndsHeader` | src/blog.rs:41-45 | the header ends at or before the first blank line |
| `Blog.ParseAllMetadata` | src/blog.rs:37-52 | if every line is metadata the body is empty; empty input gives no metadata and an empty body |
| `Blog.ParseMetadataKeys` | src/blog.rs:42-43 | the parsed map holds exactly the lower-cased, untrimmed pre-colon texts of the header lines |
| `Blog.ParseMetadataLastWins` | src/blog.rs:43 | a repeated key maps to the value of its last header line |
| `Blog.ParseValuesTrimmed` | src/blog.rs:42 | every stored value is trimmed: no whitespace or newline at either end |
| `Strings.Tokens` | src/bin/create_post.rs:14 | `split_whitespace` yields non-empty tokens without whitespace; with `TokensEmpty`, `TokensOfWord` and `TokensAtWhitespace` this fixes the tokens |
| `Strings.TokensConcat` | src/bin/create_post.rs:14 | the tokens joined are the input with its whitespace removed, in order |
| `Strings.TokensEmpty` | src/blog.rs:41 | there are no tokens iff the input is all whitespace |
| `Strings.SingleToken` | src/blog.rs:41 | exactly one token iff the trimmed input is a non-empty run without whitespace, and that token is the trimmed input |
| `Strings.TokensOfWord` | src/bin/create_post.rs:14 | a non-empty string without whitespace is one token, itself |
| `Strings.TokensAtWhitespace` | src/bin/create_post.rs:14 | tokens break at every whitespace character: the text before it and the text after it are split separately |
| `Strings.Trim` | src/blog.rs:42 | `trim` leaves no whitespace at either end |
| `Strings.TrimIdempotent` | src/cli.rs:24 | trimming twice is trimming once |
| `Strings.ToLower` | src/cli.rs:30 | `to_lowercase` keeps the length, lower-cases each letter and leaves no upper-case letter |
| `Strings.ReplaceChar` | src/cli.rs:30 | `replace` of one character keeps the length, puts the replacement exactly where the pattern was, and leaves the pattern nowhere |
| `Db.PostTable.CreatePost` | src/db.rs:8-15 | appends and returns a row equal to the record under an id no existing row has; the table stays valid |
| `Db.Published` | src/db.rs:22 | the filter keeps exactly the published rows, each as often as in the table |
| `Db.SortNewestFirst` | src/db.rs:23 | the order is non-increasing by `created` and a permutation of its input |
| `Db.IsListing` | src/db.rs:22-24 | what `read_posts` may return: every row counted as often as the table holds it when published and not at all otherwise, newest first, with no tie-break |
| `Db.PostTable.ReadPosts` | src/db.rs:17-29 | a listing of exactly the published rows, newest first; the empty list when loading fails; reads only |
| `Db.UniqueIdsOnce` | src/db.rs:56-65 | rows with distinct ids occur once each |
| `Db.ListingExactlyOnce` | src/db.rs:22-24 | a listing holds only published rows of the table, and every published row exactly once |
| `Db.PostTable.PublishPost` | src/db.rs:31-39 | sets `published` on the row with the target id and returns it; other fields and rows unchanged; `None` when no row has the id |
| `Db.PublishRows` | src/db.rs:35-36 | the table after the update: as many rows as before, the rows with the target id marked published; `PublishChangesOnlyTarget` states that nothing else changes |
| `Db.PublishChangesOnlyTarget` | src/db.rs:35-36 | publishing changes only the target row's published flag |
| `Db.PublishIdempotent` | src/db.rs:35-37 | publishing twice equals publishing once; publishing an already published row or an unknown id changes nothing |
| `Db.PublishKeepsIds` | src/db.rs:35-36 | publishing keeps every id, so ids stay distinct |
| `Db.IndexOfId` | src/db.rs:35 | finds the row with the id exactly when there is one |
| `Db.PublishedRowListedOnce` | src/db.rs:17-39 | after publishing a row, every listing shows it exactly once |
| `Db.CreateThenPublish` | src/db.rs:8-39 | a post created unpublished is in no listing; after it is published it is in every listing exactly once |
| `Route.BlogListPage` | src/route.rs:18-26 | "blog_list_noposts" iff the list is empty, otherwise "blog_list" with all posts in order |
| `Route.ListPageNoPostsIff` | src/route.rs:19-25 | on a listing, "no posts" is shown iff the table has no published row |
| `Route.PostPath` | src/route.rs:36 | a missing `post` segment reads as "/" |
| `Route.UrlIndex` | src/route.rs:33 | every url of the list is a key, and it maps to the last post with that url |
| `Route.BlogPostPage` | src/route.rs:28-41 | shows the last post whose url is the segment, with only its body replaced by the rendered body |
| `Route.SelectedIsPublishedRow` | src/route.rs:32-38 | the post shown is a published row of the table |
| `Cli.Apply` | src/cli.rs:12-18 | "create" and "update" with matches run that subcommand; any other or missing subcommand does nothing |
| `Cli.GetOptional` | src/cli.rs:51-58 | the supplied value, or "" when absent; the warning is printed iff the value is empty |
| `Cli.GetOptionals` | src/cli.rs:60-67 | the supplied values in order and no warning; the empty list with a warning when absent |
| `Cli.Slug` | src/cli.rs:24-30 | the slug has no space, no upper-case letter and the length of the trimmed title |
| `Cli.SlugChars` | src/cli.rs:30 | each space becomes '-', each other character is lower-cased, whitespace other than spaces stays |
| `Cli.SlugIdempotent` | src/cli.rs:24-30 | the slug of a slug is the same slug |
| `Cli.SlugOfTrimmed` | src/cli.rs:24-30 | trimming the title first does not change the slug |
| `Cli.CreateRecord` | src/cli.rs:20-42 | title trimmed; url is the slug of the title; published iff the flag is present; created, body, summary and tags passed through |
| `CreatePostTool.PromptInput` | src/bin/create_post.rs:41-47 | drops exactly the last character of a non-empty line |
| `CreatePostTool.PromptInputStripsNewline` | src/bin/create_post.rs:46 | a line typed and ended with a newline comes back as typed |
| `CreatePostTool.UrlFromStem` | src/bin/create_post.rs:24 | the url has no '_', no upper-case letter and the stem's length |
| `CreatePostTool.UrlFromStemIdempotent` | src/bin/create_post.rs:24 | the rule applied to its own result changes nothing |
| `CreatePostTool.SplitTags` | src/bin/create_post.rs:14 | tags are non-empty and contain no whitespace; `SplitTagsKeepsText` and `SplitTagsBreaks` fix them completely |
| `CreatePostTool.SplitTagsKeepsText` | src/bin/create_post.rs:14 | the tags joined are the answer without its whitespace; no tags iff the answer is blank |
| `CreatePostTool.SplitTagsBreaks` | src/bin/create_post.rs:14 | the tags break at every whitespace character of the answer, and a bare word is a single tag |
| `CreatePostTool.NewPost` | src/bin/create_post.rs:11-34 | unpublished; title and summary are the answers without their last character; url from the stem; tags split from the answer |
| `CreatePostTool.NewPostHidden` | src/bin/create_post.rs:29 | a post created by this tool is in no listing |

## Left out

- Markdown rendering (`get_body_as_html`, `markdown_to_html`) calls the hoedown C library. It is the parameter `render` of `Route.BlogPostPage`.
- File and directory I/O: opening a post file, `read_posts_from_disk`, `string_from_file`, and the stdin reads of the binaries. The model takes the file contents or the typed line as input. Read errors, including invalid UTF-8, are not modelled.
- `Path::file_stem` is not modelled; the stem is an input.
- The clock (`Local::today()`) is an input date.
- Database plumbing is not modelled: `establish_connection`, `infer_schema!`, diesel query building, connection failures of `create_post` and `publish_post`, and the `published` column default.
- `Db.PostTable.CreatePost`: ids are unbounded integers; exhausting the 32-bit id sequence is not modelled.
- `update` and `update_body`: the database `update_body` that `src/cli.rs:75-81` calls is not defined in `src/db.rs` as shown, so only the dispatch to `update` (`Cli.Apply`) is modelled. `parse::<i32>` is a library parse.
- `create` and `main` store their record through `create_post`; the console messages they print are not modelled.
- `CliError` and its Display/description plumbing.
- Logging of the `read_posts` failure (`warn!`, `error!`).
- Unicode: Rust's whitespace and case mapping beyond ASCII, and byte slicing at non-ASCII boundaries in `prompt_input`.
- Web and server glue: routing tables, Iron chains, Handlebars template rendering, the landing and about pages, the not-found middleware, and the port setting.
- The build script, crate root, CLI definition (clap configuration), the publish binary's stdin handling, and the browser script.
