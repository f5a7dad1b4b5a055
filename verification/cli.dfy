/** The authoring CLI of src/cli.rs: subcommand dispatch, optional arguments
    and the construction of a new post record with its url slug. */
module Cli {
  import opened Wrappers
  import opened Strings
  import Db

  /** clap's matches for one subcommand: every supplied argument with its
      values in order (a flag has none). */
  type ArgMatches = map<string, seq<string>>

  /** `ArgMatches::value_of`: the first value of the argument, if supplied. */
  function ValueOf(m: ArgMatches, name: string): Option<string> {
    if name in m && m[name] != [] then Some(m[name][0]) else None
  }

  /** `ArgMatches::values_of`: all values of the argument, if supplied. */
  function ValuesOf(m: ArgMatches, name: string): Option<seq<string>> {
    if name in m && m[name] != [] then Some(m[name]) else None
  }

  /** `ArgMatches::is_present`. */
  predicate IsPresent(m: ArgMatches, name: string) {
    name in m
  }

  /** The subcommand `apply` runs; `Done` is the immediate `Ok(())`. */
  datatype Command = RunCreate(matches: ArgMatches) | RunUpdate(matches: ArgMatches) | Done

  /** `apply`: dispatch on the subcommand name; an unknown name, or a name
      without matches, does nothing and succeeds. */
  function Apply(name: string, sub: Option<ArgMatches>): (c: Command)
    ensures c.Done? <==> !(sub.Some? && (name == "create" || name == "update"))
    ensures c.RunCreate? <==> sub.Some? && name == "create"
    ensures !c.Done? ==> c.matches == sub.value
  {
    match sub
    case Some(m) =>
      if name == "create" then RunCreate(m)
      else if name == "update" then RunUpdate(m)
      else Done
    case None => Done
  }

  /** A looked-up argument, and whether the "was not supplied" warning was
      printed for it. */
  datatype Lookup<T> = Lookup(value: T, warned: bool)

  /** `get_optional`: the supplied value, or "" with a warning. The warning is
      printed whenever the value is empty, supplied or not. */
  function GetOptional(attribute: string, m: ArgMatches): (r: Lookup<string>)
    ensures ValueOf(m, attribute).None? ==> r.value == ""
    ensures ValueOf(m, attribute).Some? ==> r.value == ValueOf(m, attribute).value
    ensures r.warned <==> r.value == ""
  {
    var value := ValueOf(m, attribute).GetOr("");
    Lookup(value, value == "")
  }

  /** `get_optionals`: the supplied values in order, or the empty list with a
      warning when the argument is absent. */
  function GetOptionals(attribute: string, m: ArgMatches): (r: Lookup<seq<string>>)
    ensures r.warned <==> ValuesOf(m, attribute).None?
    ensures r.warned ==> r.value == []
    ensures !r.warned ==> r.value == m[attribute] && r.value != []
  {
    match ValuesOf(m, attribute)
    case Some(args) => Lookup(args, false)
    case None => Lookup([], true)
  }

  /** The url rule of `create`: the trimmed title with every space replaced
      by '-', lower-cased. */
  function Slug(title: string): (url: string)
    ensures ' ' !in url && NoUpper(url)
    ensures |url| == |Trim(title)|
  {
    ToLower(ReplaceChar(Trim(title), ' ', '-'))
  }

  /** The slug keeps the trimmed title's non-space, non-letter characters and
      lower-cases its letters; in particular its ends are not whitespace. */
  lemma SlugChars(title: string, i: nat)
    requires i < |Trim(title)|
    ensures Trim(title)[i] == ' ' ==> Slug(title)[i] == '-'
    ensures Trim(title)[i] != ' ' ==> Slug(title)[i] == LowerChar(Trim(title)[i])
    ensures IsWhitespace(Slug(title)[i]) <==> IsWhitespace(Trim(title)[i]) && Trim(title)[i] != ' '
  {
  }

  /** Deriving a slug from a slug gives the same slug. */
  lemma SlugIdempotent(title: string)
    ensures Slug(Slug(title)) == Slug(title)
  {
    var url := Slug(title);
    SlugEnds(title);
    TrimUnchanged(url);
    ReplaceAbsent(url, ' ', '-');
    LowerUnchanged(url);
  }

  /** A slug neither starts nor ends with whitespace. */
  lemma SlugEnds(title: string)
    ensures var url := Slug(title);
      url == [] || (!IsWhitespace(url[0]) && !IsWhitespace(url[|url| - 1]))
  {
    var url := Slug(title);
    if url != [] {
      SlugChars(title, 0);
      SlugChars(title, |url| - 1);
    }
  }

  /** Trimming the title first does not change its slug. */
  lemma SlugOfTrimmed(title: string)
    ensures Slug(Trim(title)) == Slug(title)
  {
    TrimIdempotent(title);
  }

  /** `create`'s record, given the matches, today's date and the body file's
      contents. TITLE and FILE are required by clap and unwrapped. */
  function CreateRecord(m: ArgMatches, today: Db.Date, body: string): (r: Db.NewBlogPost)
    requires ValueOf(m, "TITLE").Some? && ValueOf(m, "FILE").Some?
    ensures r.title == Trim(ValueOf(m, "TITLE").value)
    ensures r.url == Slug(r.title) && ' ' !in r.url && NoUpper(r.url) && |r.url| == |r.title|
    ensures r.published <==> IsPresent(m, "publish")
    ensures r.created == today && r.body == body
    ensures r.summary == GetOptional("summary", m).value
    ensures r.tags == GetOptionals("tag", m).value
  {
    var title := Trim(ValueOf(m, "TITLE").value);
    SlugOfTrimmed(ValueOf(m, "TITLE").value);
    TrimIdempotent(ValueOf(m, "TITLE").value);
    Db.NewBlogPost(
      title,
      today,
      IsPresent(m, "publish"),
      ToLower(ReplaceChar(title, ' ', '-')),
      GetOptional("summary", m).value,
      body,
      GetOptionals("tag", m).value)
  }
}
