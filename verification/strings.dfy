/** Character classes and string operations shared by the front-matter
    parser, the two slug rules and the tag splitter. Whitespace and case
    follow Rust's `char::is_whitespace` and `to_lowercase` on ASCII. */
module Strings {

  /** Rust's whitespace on ASCII: the space and the controls from tab to
      carriage return. */
  predicate IsWhitespace(c: char) {
    c == ' ' || ('\t' <= c <= '\r')
  }

  predicate IsUpper(c: char) {
    'A' <= c <= 'Z'
  }

  predicate NoWhitespace(s: string) {
    forall i :: 0 <= i < |s| ==> !IsWhitespace(s[i])
  }

  predicate AllWhitespace(s: string) {
    forall i :: 0 <= i < |s| ==> IsWhitespace(s[i])
  }

  predicate NoUpper(s: string) {
    forall i :: 0 <= i < |s| ==> !IsUpper(s[i])
  }

  /** ASCII lower-casing of one character. */
  function LowerChar(c: char): (d: char)
    ensures !IsUpper(d)
    ensures IsWhitespace(d) <==> IsWhitespace(c)
    ensures !IsUpper(c) ==> d == c
    ensures IsUpper(c) ==> 'a' <= d <= 'z'
  {
    if IsUpper(c) then (c as int - 'A' as int + 'a' as int) as char else c
  }

  /** `str::to_lowercase`, character by character. */
  function ToLower(s: string): (r: string)
    ensures |r| == |s|
    ensures forall i :: 0 <= i < |s| ==> r[i] == LowerChar(s[i])
    ensures NoUpper(r)
  {
    seq(|s|, i requires 0 <= i < |s| => LowerChar(s[i]))
  }

  /** `str::replace` with one-character pattern and replacement. */
  function ReplaceChar(s: string, from: char, to: char): (r: string)
    ensures |r| == |s|
    ensures forall i :: 0 <= i < |s| ==> r[i] == (if s[i] == from then to else s[i])
    ensures from != to ==> from !in r
  {
    seq(|s|, i requires 0 <= i < |s| => if s[i] == from then to else s[i])
  }

  /** Replacing a character that does not occur changes nothing. */
  lemma ReplaceAbsent(s: string, from: char, to: char)
    requires from !in s
    ensures ReplaceChar(s, from, to) == s
  {
    assert forall i :: 0 <= i < |s| ==> s[i] != from;
  }

  /** Lower-casing a string without upper-case letters changes nothing. */
  lemma LowerUnchanged(s: string)
    requires NoUpper(s)
    ensures ToLower(s) == s
  {
  }

  /** `str::trim_start`: the suffix left after dropping leading whitespace. */
  function TrimStart(s: string): (r: string)
    ensures |r| <= |s| && r == s[|s| - |r|..]
    ensures AllWhitespace(s[..|s| - |r|])
    ensures r == [] || !IsWhitespace(r[0])
  {
    if s != [] && IsWhitespace(s[0]) then
      var r := TrimStart(s[1..]);
      assert forall i :: 0 < i < |s| - |r| ==> s[i] == s[1..][i - 1];
      r
    else s
  }

  /** `str::trim_end`: the prefix left after dropping trailing whitespace. */
  function TrimEnd(s: string): (r: string)
    ensures |r| <= |s| && r == s[..|r|]
    ensures AllWhitespace(s[|r|..])
    ensures r == [] || !IsWhitespace(r[|r| - 1])
  {
    if s != [] && IsWhitespace(s[|s| - 1]) then
      var r := TrimEnd(s[..|s| - 1]);
      assert forall i :: |r| <= i < |s| - 1 ==> s[i] == s[..|s| - 1][i];
      r
    else s
  }

  /** `str::trim`. */
  function Trim(s: string): (r: string)
    ensures |r| <= |s|
    ensures r == [] || (!IsWhitespace(r[0]) && !IsWhitespace(r[|r| - 1]))
  {
    TrimEnd(TrimStart(s))
  }

  /** A string with no whitespace at either end is its own trim. */
  lemma TrimUnchanged(s: string)
    requires s == [] || (!IsWhitespace(s[0]) && !IsWhitespace(s[|s| - 1]))
    ensures Trim(s) == s
  {
    assert TrimStart(s) == s;
  }

  /** Trimming twice is trimming once. */
  lemma TrimIdempotent(s: string)
    ensures Trim(Trim(s)) == Trim(s)
  {
    TrimUnchanged(Trim(s));
  }

  lemma {:induction false} TrimEndOfWordThenSpace(w: string, r: string)
    requires w != [] && !IsWhitespace(w[|w| - 1]) && AllWhitespace(r)
    ensures TrimEnd(w + r) == w
    decreases |r|
  {
    if r == [] {
      assert w + r == w;
    } else {
      assert (w + r)[..|w + r| - 1] == w + r[..|r| - 1];
      TrimEndOfWordThenSpace(w, r[..|r| - 1]);
    }
  }

  lemma {:induction false} TrimEndKeeps(s: string, m: nat)
    requires m < |s| && !IsWhitespace(s[m])
    ensures |TrimEnd(s)| > m
    decreases |s|
  {
    if IsWhitespace(s[|s| - 1]) {
      TrimEndKeeps(s[..|s| - 1], m);
    }
  }

  /** Length of the leading run of non-whitespace characters. */
  function WordLength(s: string): (n: nat)
    ensures n <= |s|
    ensures NoWhitespace(s[..n])
    ensures n < |s| ==> IsWhitespace(s[n])
  {
    if s == [] || IsWhitespace(s[0]) then 0 else 1 + WordLength(s[1..])
  }

  /** `str::split_whitespace`: the maximal runs of non-whitespace, in order. */
  function Tokens(s: string): (ts: seq<string>)
    ensures forall k :: 0 <= k < |ts| ==> ts[k] != [] && NoWhitespace(ts[k])
    decreases |s|
  {
    if s == [] then []
    else if IsWhitespace(s[0]) then Tokens(s[1..])
    else
      var n := WordLength(s);
      [s[..n]] + Tokens(s[n..])
  }

  /** The leading word's length is pinned by where the first whitespace is. */
  lemma {:induction false} WordLengthIs(s: string, n: nat)
    requires n <= |s| && NoWhitespace(s[..n])
    requires n < |s| ==> IsWhitespace(s[n])
    ensures WordLength(s) == n
    decreases n
  {
    if n > 0 {
      assert s[..n][0] == s[0];
      assert s[1..][..n - 1] == s[..n][1..];
      WordLengthIs(s[1..], n - 1);
    }
  }

  /** A non-empty string without whitespace is a single token, itself. */
  lemma TokensOfWord(w: string)
    requires w != [] && NoWhitespace(w)
    ensures Tokens(w) == [w]
  {
    assert w[..|w|] == w;
    WordLengthIs(w, |w|);
    assert w[|w|..] == [];
  }

  /** Tokens break at every whitespace character: what lies before it and
      what lies after it are split separately. */
  lemma {:induction false} TokensAtWhitespace(a: string, c: char, b: string)
    requires IsWhitespace(c)
    ensures Tokens(a + [c] + b) == Tokens(a) + Tokens(b)
    decreases |a|
  {
    var s := a + [c] + b;
    if a == [] {
      assert s[1..] == b;
    } else if IsWhitespace(a[0]) {
      assert s[1..] == a[1..] + [c] + b;
      TokensAtWhitespace(a[1..], c, b);
    } else {
      var m := WordLength(a);
      assert s[..m] == a[..m];
      assert s[m] == if m < |a| then a[m] else c;
      WordLengthIs(s, m);
      assert s[m..] == a[m..] + [c] + b;
      TokensAtWhitespace(a[m..], c, b);
      assert Tokens(s) == [a[..m]] + Tokens(a[m..] + [c] + b);
    }
  }

  function Concat(ss: seq<string>): string {
    if ss == [] then "" else ss[0] + Concat(ss[1..])
  }

  /** The characters of `s` that are not whitespace, in order. */
  function RemoveWhitespace(s: string): (r: string)
    ensures |r| <= |s|
  {
    if s == [] then ""
    else (if IsWhitespace(s[0]) then "" else [s[0]]) + RemoveWhitespace(s[1..])
  }

  lemma {:induction false} RemoveWhitespaceOfWord(s: string, n: nat)
    requires n <= |s| && NoWhitespace(s[..n])
    ensures RemoveWhitespace(s) == s[..n] + RemoveWhitespace(s[n..])
    decreases n
  {
    if n > 0 {
      assert s[1..][..n - 1] == s[1..n];
      RemoveWhitespaceOfWord(s[1..], n - 1);
      assert s[1..][n - 1..] == s[n..];
      assert s[..n] == [s[0]] + s[1..n];
    }
  }

  /** Splitting on whitespace loses nothing but the whitespace: the tokens,
      joined, are the input with its whitespace removed. */
  lemma {:induction false} TokensConcat(s: string)
    ensures Concat(Tokens(s)) == RemoveWhitespace(s)
    decreases |s|
  {
    if s == [] {
    } else if IsWhitespace(s[0]) {
      TokensConcat(s[1..]);
    } else {
      var n := WordLength(s);
      TokensConcat(s[n..]);
      RemoveWhitespaceOfWord(s, n);
      var ts := [s[..n]] + Tokens(s[n..]);
      assert ts[0] == s[..n] && ts[1..] == Tokens(s[n..]);
    }
  }

  /** No token at all exactly when the input is all whitespace. */
  lemma {:induction false} TokensEmpty(s: string)
    ensures Tokens(s) == [] <==> AllWhitespace(s)
    decreases |s|
  {
    if s != [] && IsWhitespace(s[0]) {
      TokensEmpty(s[1..]);
      assert AllWhitespace(s) <==> AllWhitespace(s[1..]) by {
        if AllWhitespace(s[1..]) {
          forall i | 0 <= i < |s| ensures IsWhitespace(s[i]) {
            if i > 0 { assert s[i] == s[1..][i - 1]; }
          }
        }
      }
    }
  }

  /** A string splits into exactly one token iff, trimmed, it is a non-empty
      run without whitespace; that token is then the trimmed string. */
  lemma {:induction false} SingleToken(s: string)
    ensures |Tokens(s)| == 1 <==> (Trim(s) != [] && NoWhitespace(Trim(s)))
    ensures |Tokens(s)| == 1 ==> Tokens(s)[0] == Trim(s)
    decreases |s|
  {
    if s == [] {
    } else if IsWhitespace(s[0]) {
      SingleToken(s[1..]);
      assert TrimStart(s) == TrimStart(s[1..]);
    } else {
      var n := WordLength(s);
      TokensEmpty(s[n..]);
      if AllWhitespace(s[n..]) {
        OneWord(s);
      } else {
        TwoWords(s);
      }
    }
  }

  /** A word followed by whitespace only is one token, and is its trim. */
  lemma OneWord(s: string)
    requires s != [] && !IsWhitespace(s[0])
    requires AllWhitespace(s[WordLength(s)..])
    ensures |Tokens(s)| == 1 && Tokens(s)[0] == Trim(s)
    ensures Trim(s) != [] && NoWhitespace(Trim(s))
  {
    var n := WordLength(s);
    TokensEmpty(s[n..]);
    assert TrimStart(s) == s;
    assert s == s[..n] + s[n..];
    TrimEndOfWordThenSpace(s[..n], s[n..]);
  }

  /** A word followed by whitespace and more is several tokens, and its trim
      keeps the whitespace between them. */
  lemma TwoWords(s: string)
    requires s != [] && !IsWhitespace(s[0])
    requires !AllWhitespace(s[WordLength(s)..])
    ensures |Tokens(s)| >= 2
    ensures Trim(s) != [] && !NoWhitespace(Trim(s))
  {
    var n := WordLength(s);
    var rest := s[n..];
    TokensEmpty(rest);
    assert TrimStart(s) == s;
    var m :| 0 <= m < |rest| && !IsWhitespace(rest[m]);
    assert s[n + m] == rest[m];
    TrimEndKeeps(s, n + m);
    assert IsWhitespace(s[n]) && Trim(s)[n] == s[n];
  }
}
