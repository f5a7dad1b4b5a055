/** The flat-file post reader of src/blog.rs: a post file starts with a block
    of `key: value` lines (the front matter) and the rest is the body. */
module Blog {
  import opened Strings

  type Metadata = map<string, string>

  datatype BlogPost = BlogPost(body: string, metadata: Metadata)

  /* ---------- Lines, as `BufRead::read_line` delivers them ---------- */

  /** A line: non-empty, with a newline at most as its last character. */
  predicate IsLine(line: string) {
    line != [] && forall i :: 0 <= i < |line| - 1 ==> line[i] != '\n'
  }

  /** Length of the first line of `s`, its newline included when there is one. */
  function LineLength(s: string): (n: nat)
    requires s != []
    ensures 0 < n <= |s|
    ensures IsLine(s[..n])
    ensures n < |s| ==> s[n - 1] == '\n'
  {
    if s[0] == '\n' || |s| == 1 then 1 else 1 + LineLength(s[1..])
  }

  /** The successive results of `read_line` on `s`: every line but the last
      ends with its newline, and no line is empty. */
  function Lines(s: string): (ls: seq<string>)
    ensures forall k :: 0 <= k < |ls| ==> IsLine(ls[k])
    ensures forall k :: 0 <= k < |ls| - 1 ==> ls[k] != [] && ls[k][|ls[k]| - 1] == '\n'
    decreases |s|
  {
    if s == [] then []
    else
      var n := LineLength(s);
      [s[..n]] + Lines(s[n..])
  }

  /** Reading line by line consumes the input exactly. */
  lemma {:induction false} LinesConcat(s: string)
    ensures Concat(Lines(s)) == s
    decreases |s|
  {
    if s != [] {
      var n := LineLength(s);
      LinesConcat(s[n..]);
      LinesCons(s);
      SplitJoin(s, n);
    }
  }

  lemma SplitJoin(s: string, n: nat)
    requires n <= |s|
    ensures s[..n] + s[n..] == s
  {
  }

  /** The first line, then the lines of the rest. */
  lemma LinesCons(s: string)
    requires s != []
    ensures Lines(s) != []
    ensures Lines(s)[0] == s[..LineLength(s)]
    ensures Lines(s)[1..] == Lines(s[LineLength(s)..])
    ensures Concat(Lines(s)) == s[..LineLength(s)] + Concat(Lines(s[LineLength(s)..]))
  {
    var ls := Lines(s);
    assert ls[1..] == Lines(s[LineLength(s)..]);
  }

  lemma ConcatAppend(a: seq<string>, b: seq<string>)
    ensures Concat(a + b) == Concat(a) + Concat(b)
  {
    if a == [] {
      assert a + b == b;
    } else {
      assert (a + b)[0] == a[0] && (a + b)[1..] == a[1..] + b;
      ConcatAppend(a[1..], b);
    }
  }

  /* ---------- One line of front matter ---------- */

  /** Index of the first `:` in `line`, or `|line|` when there is none. */
  function ColonIndex(line: string): (k: nat)
    ensures k <= |line|
    ensures ':' !in line[..k]
    ensures k < |line| ==> line[k] == ':'
    ensures k == |line| <==> ':' !in line
  {
    if line == [] || line[0] == ':' then 0 else 1 + ColonIndex(line[1..])
  }

  /** The first part of `splitn(2, ':')`: the text before the first colon,
      or the whole line. */
  function KeyText(line: string): string {
    line[..ColonIndex(line)]
  }

  /** The second part of `splitn(2, ':')`, or "" when there is no colon. */
  function ValueText(line: string): string {
    var k := ColonIndex(line);
    if k < |line| then line[k + 1..] else ""
  }

  /** The metadata test of src/blog.rs: the text before the first colon is
      non-empty and splits into exactly one whitespace-separated token. */
  predicate IsMetadataLine(line: string) {
    |KeyText(line)| > 0 && |Tokens(KeyText(line))| == 1
  }

  /** The stored key: the pre-colon text lower-cased, NOT trimmed. */
  function Key(line: string): string {
    ToLower(KeyText(line))
  }

  /** The stored value: the post-colon text trimmed, newline included. */
  function Value(line: string): string {
    Trim(ValueText(line))
  }

  /** A line is metadata exactly when its pre-colon text, trimmed, is a
      non-empty bare word. */
  lemma MetadataLineIff(line: string)
    ensures IsMetadataLine(line) <==>
      (Trim(KeyText(line)) != [] && NoWhitespace(Trim(KeyText(line))))
  {
    SingleToken(KeyText(line));
  }

  /** A blank or whitespace-only line (zero tokens) is never metadata. */
  lemma BlankLineNotMetadata(line: string)
    requires AllWhitespace(line)
    ensures !IsMetadataLine(line)
  {
    assert ':' !in line;
    assert KeyText(line) == line;
    TokensEmpty(line);
  }

  /** A colon-free one-word line is metadata with the whole line, newline
      included, lower-cased as its key and the empty string as its value. */
  lemma ColonFreeLine(line: string)
    requires ':' !in line && IsMetadataLine(line)
    ensures Key(line) == ToLower(line) && Value(line) == ""
  {
    assert KeyText(line) == line;
  }

  /* ---------- The front-matter block ---------- */

  /** Number of leading metadata lines: the header ends at the first line
      that fails the test. */
  function HeaderLength(ls: seq<string>): (n: nat)
    ensures n <= |ls|
    ensures forall k :: 0 <= k < n ==> IsMetadataLine(ls[k])
    ensures n < |ls| ==> !IsMetadataLine(ls[n])
  {
    if ls == [] || !IsMetadataLine(ls[0]) then 0 else 1 + HeaderLength(ls[1..])
  }

  /** The header length is the index of the first non-metadata line. */
  lemma {:induction false} HeaderLengthIs(ls: seq<string>, n: nat)
    requires n <= |ls|
    requires AllMetadata(ls[..n])
    requires n < |ls| ==> !IsMetadataLine(ls[n])
    ensures HeaderLength(ls) == n
    decreases n
  {
    if n > 0 {
      assert ls[..n][0] == ls[0];
      assert ls[1..][..n - 1] == ls[..n][1..];
      HeaderLengthIs(ls[1..], n - 1);
    }
  }

  /** The `(key, value)` pair each line contributes. */
  function Entry(line: string): (string, string) {
    (Key(line), Value(line))
  }

  function Entries(ls: seq<string>): seq<(string, string)> {
    MapSeq(ls, Entry)
  }

  /** `f` applied to every element, in order. */
  function MapSeq<T, U>(xs: seq<T>, f: T -> U): (ys: seq<U>)
    ensures |ys| == |xs|
    ensures forall i :: 0 <= i < |xs| ==> ys[i] == f(xs[i])
  {
    seq(|xs|, i requires 0 <= i < |xs| => f(xs[i]))
  }

  lemma MapSeqSnoc<T, U>(xs: seq<T>, f: T -> U, n: nat)
    requires n < |xs|
    ensures MapSeq(xs[..n + 1], f) == MapSeq(xs[..n], f) + [f(xs[n])]
  {
    assert forall i :: 0 <= i < n ==> xs[..n + 1][i] == xs[..n][i];
  }

  /** The map built by `HashMap::insert` of every pair in order. */
  function Collect<K, V>(es: seq<(K, V)>): map<K, V> {
    if es == [] then map[]
    else Collect(es[..|es| - 1])[es[|es| - 1].0 := es[|es| - 1].1]
  }

  /** Every inserted key is in the collected map. */
  lemma {:induction false} CollectHasKey<K, V>(es: seq<(K, V)>, i: nat)
    requires i < |es|
    ensures es[i].0 in Collect(es)
    decreases |es|
  {
    if i < |es| - 1 {
      var init := es[..|es| - 1];
      assert init[i] == es[i];
      CollectHasKey(init, i);
    }
  }

  /** Every key of the collected map, with its value, comes from some pair. */
  lemma {:induction false} CollectKeySource<K, V>(es: seq<(K, V)>, key: K) returns (i: nat)
    requires key in Collect(es)
    ensures i < |es| && es[i].0 == key && Collect(es)[key] == es[i].1
    decreases |es|
  {
    var last := |es| - 1;
    if es[last].0 == key {
      i := last;
    } else {
      var init := es[..last];
      i := CollectKeySource(init, key);
      assert init[i] == es[i];
    }
  }

  /** The collected map's keys are exactly the inserted keys. */
  lemma CollectKeys<K, V>(es: seq<(K, V)>, key: K)
    ensures key in Collect(es) <==> exists i :: 0 <= i < |es| && es[i].0 == key
  {
    if key in Collect(es) {
      var i := CollectKeySource(es, key);
    }
    if exists i :: 0 <= i < |es| && es[i].0 == key {
      var i :| 0 <= i < |es| && es[i].0 == key;
      CollectHasKey(es, i);
    }
  }

  /** When a key repeats, the value of its last insertion wins. */
  lemma {:induction false} CollectLastWins<K, V>(es: seq<(K, V)>, i: nat)
    requires i < |es|
    requires forall j :: i < j < |es| ==> es[j].0 != es[i].0
    ensures es[i].0 in Collect(es) && Collect(es)[es[i].0] == es[i].1
    decreases |es|
  {
    if i < |es| - 1 {
      var init := es[..|es| - 1];
      assert init[i] == es[i];
      CollectLastWins(init, i);
    }
  }

  /** The specification of `BlogPost::from_file` on the file's contents: the
      header lines fill the map, the remaining lines are the body verbatim. */
  function Parse(contents: string): BlogPost {
    var ls := Lines(contents);
    var n := HeaderLength(ls);
    BlogPost(Concat(ls[n..]), Collect(Entries(ls[..n])))
  }

  /** The lines of `contents` that the parse consumes as metadata. */
  function HeaderLines(contents: string): seq<string> {
    var ls := Lines(contents);
    ls[..HeaderLength(ls)]
  }

  /* ---------- The reading loop ---------- */

  /** `BlogPost::from_file`, given the file's contents: read a line; while it
      passes the metadata test insert its key and value and read on; the
      first failing line, together with the rest of the input, is the body. */
  method FromFile(contents: string) returns (post: BlogPost)
    ensures post == Parse(contents)
  {
    ghost var ls := Lines(contents);
    ghost var n := 0;
    var metadata: Metadata := map[];
    var i := 0;
    while i < |contents|
      invariant i <= |contents| && n <= |ls|
      invariant Lines(contents[i..]) == ls[n..]
      invariant AllMetadata(ls[..n])
      invariant metadata == Collect(Entries(ls[..n]))
      decreases |contents| - i
    {
      var j := i + LineLength(contents[i..]);
      var line := contents[i..j];
      NextLine(contents, i, j);
      HeaderStep(ls, n, line, Lines(contents[j..]));
      if !IsMetadataLine(line) {
        HeaderLengthIs(ls, n);
        break;
      }
      ExtendHeader(ls, n);
      metadata := metadata[Key(line) := Value(line)];
      i, n := j, n + 1;
    }
    if i == |contents| {
      HeaderLengthIs(ls, n);
    }
    LinesConcat(contents[i..]);
    post := BlogPost(contents[i..], metadata);
  }

  predicate AllMetadata(ls: seq<string>) {
    forall k :: 0 <= k < |ls| ==> IsMetadataLine(ls[k])
  }

  lemma ExtendHeader(ls: seq<string>, n: nat)
    requires n < |ls| && AllMetadata(ls[..n]) && IsMetadataLine(ls[n])
    ensures AllMetadata(ls[..n + 1])
  {
    assert forall k :: 0 <= k < n ==> ls[..n][k] == ls[k];
  }

  /** One step of the header: line `n` is `line`, and inserting it extends
      the collected map. */
  lemma HeaderStep(ls: seq<string>, n: nat, line: string, tail: seq<string>)
    requires n <= |ls| && ls[n..] == [line] + tail
    ensures n < |ls| && ls[n] == line && ls[n + 1..] == tail
    ensures Collect(Entries(ls[..n + 1])) == Collect(Entries(ls[..n]))[Key(line) := Value(line)]
  {
    assert ls[n..][0] == ls[n];
    assert ls[n + 1..] == ls[n..][1..];
    MapSeqSnoc(ls, Entry, n);
    CollectSnoc(Entries(ls[..n]), (Key(line), Value(line)));
  }

  lemma CollectSnoc<K, V>(es: seq<(K, V)>, e: (K, V))
    ensures Collect(es + [e]) == Collect(es)[e.0 := e.1]
  {
    assert (es + [e])[..|es|] == es;
  }

  /** One step of the reading loop: the next line runs from `i` to `j`. */
  lemma NextLine(contents: string, i: nat, j: nat)
    requires i < |contents| && j == i + LineLength(contents[i..])
    ensures j <= |contents|
    ensures Lines(contents[i..]) == [contents[i..j]] + Lines(contents[j..])
  {
    assert contents[i..][..j - i] == contents[i..j];
    assert contents[i..][j - i..] == contents[j..];
  }

  /* ---------- Properties of the parse ---------- */

  /** Every header line passes the metadata test; the first body line, when
      there is one, fails it and starts the body verbatim, newline included,
      followed by the rest of the input unchanged. */
  lemma ParseSplitsAtFirstNonMetadataLine(contents: string)
    ensures var ls := Lines(contents); var n := HeaderLength(ls);
      && (forall k :: 0 <= k < n ==> IsMetadataLine(ls[k]))
      && (n < |ls| ==> !IsMetadataLine(ls[n])
                       && Parse(contents).body == ls[n] + Concat(ls[n + 1..]))
      && (n == |ls| ==> Parse(contents).body == "")
  {
    var ls := Lines(contents);
    var n := HeaderLength(ls);
    if n < |ls| {
      assert ls[n..][1..] == ls[n + 1..];
    }
  }

  /** Reconstruction: the consumed metadata lines followed by the body give
      back the input. */
  lemma ParseReconstructs(contents: string)
    ensures var ls := Lines(contents);
      Concat(ls[..HeaderLength(ls)]) + Parse(contents).body == contents
  {
    var ls := Lines(contents);
    var n := HeaderLength(ls);
    assert ls == ls[..n] + ls[n..];
    ConcatAppend(ls[..n], ls[n..]);
    LinesConcat(contents);
  }

  /** A blank line always ends the metadata block. */
  lemma BlankLineEndsHeader(contents: string, k: nat)
    requires k < |Lines(contents)| && AllWhitespace(Lines(contents)[k])
    ensures HeaderLength(Lines(contents)) <= k
  {
    BlankLineNotMetadata(Lines(contents)[k]);
  }

  /** If every line is metadata the body is empty; the empty file gives no
      metadata and an empty body. */
  lemma ParseAllMetadata(contents: string)
    requires forall k :: 0 <= k < |Lines(contents)| ==> IsMetadataLine(Lines(contents)[k])
    ensures Parse(contents).body == ""
    ensures contents == "" ==> Parse(contents) == BlogPost("", map[])
  {
    var ls := Lines(contents);
    assert ls[..|ls|] == ls;
    HeaderLengthIs(ls, |ls|);
    assert ls[|ls|..] == [];
  }

  /** The parsed map holds exactly the keys of the header lines. */
  lemma ParseMetadataKeys(contents: string, key: string)
    ensures var h := HeaderLines(contents);
      key in Parse(contents).metadata <==> exists i :: 0 <= i < |h| && Key(h[i]) == key
  {
    var h := HeaderLines(contents);
    var es := Entries(h);
    CollectKeys(es, key);
    if exists i :: 0 <= i < |h| && Key(h[i]) == key {
      var i :| 0 <= i < |h| && Key(h[i]) == key;
      assert es[i].0 == key;
    }
  }

  /** A key that repeats in the header takes the value of its last line. */
  lemma ParseMetadataLastWins(contents: string, i: nat)
    requires i < |HeaderLines(contents)|
    requires var h := HeaderLines(contents);
      forall j :: i < j < |h| ==> Key(h[j]) != Key(h[i])
    ensures var h := HeaderLines(contents);
      Key(h[i]) in Parse(contents).metadata && Parse(contents).metadata[Key(h[i])] == Value(h[i])
  {
    var h := HeaderLines(contents);
    var es := Entries(h);
    assert forall j :: i < j < |es| ==> es[j].0 != es[i].0 by {
      forall j | i < j < |es| ensures es[j].0 != es[i].0 {
        assert es[j].0 == Key(h[j]);
      }
    }
    CollectLastWins(es, i);
  }

  /** Every stored value is trimmed: it neither starts nor ends with
      whitespace, so in particular it carries no newline at its end. */
  lemma ParseValuesTrimmed(contents: string, key: string)
    requires key in Parse(contents).metadata
    ensures var v := Parse(contents).metadata[key];
      v == [] || (!IsWhitespace(v[0]) && !IsWhitespace(v[|v| - 1]))
  {
    var h := HeaderLines(contents);
    var i := CollectKeySource(Entries(h), key);
    assert Parse(contents).metadata[key] == Trim(ValueText(h[i]));
  }
}
