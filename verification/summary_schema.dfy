/**
 * The `Summary` document of models/Summary.js: its paths, the casting the
 * schema applies (`trim` on the three text paths, the `[]` default of
 * `tags`), its `required` validators and the `timestamps` pair.
 */
module SummarySchema {
  import opened Wrappers
  import opened JsString

  /** A store identifier, in its 24-character string form. */
  type Id = string

  predicate IsHexDigit(c: char) {
    ('0' <= c <= '9') || ('a' <= c <= 'f') || ('A' <= c <= 'F')
  }

  /** The digits an ObjectId prints: `0`-`9` and lower-case `a`-`f`. */
  predicate IsLowerHexDigit(c: char) {
    ('0' <= c <= '9') || ('a' <= c <= 'f')
  }

  /**
   * The ObjectId format check: exactly 24 hexadecimal digits, in either case.
   * These are exactly the 24-character strings each of whose characters reads
   * as a digit the store prints.
   */
  predicate ValidId(s: string)
    ensures ValidId(s) <==> |s| == 24 && forall i :: 0 <= i < |s| ==> IsLowerHexDigit(LowerHexDigit(s[i]))
  {
    |s| == 24 && forall i :: 0 <= i < |s| ==> IsHexDigit(s[i])
  }

  /** An identifier in the form the store prints it: 24 lower-case hexadecimal digits. */
  predicate IsCanonicalId(s: string) {
    |s| == 24 && forall i :: 0 <= i < |s| ==> IsLowerHexDigit(s[i])
  }

  /** Reads an upper-case hexadecimal letter as its lower-case digit. */
  function LowerHexDigit(c: char): (d: char)
    ensures 'A' <= c <= 'F' ==> 'a' <= d <= 'f' && d as int - 'a' as int == c as int - 'A' as int
    ensures !('A' <= c <= 'F') ==> d == c
  {
    if 'A' <= c <= 'F' then (c as int - 'A' as int + 'a' as int) as char else c
  }

  /**
   * The identifier a well-formed string is cast to before a lookup, in its
   * printed form: `A`-`F` read as `a`-`f`, every other character kept. Two
   * spellings name the same document exactly when their canonical forms agree.
   */
  function Canonical(s: string): (k: string)
    ensures |k| == |s|
    ensures forall i :: 0 <= i < |s| && !('A' <= s[i] <= 'F') ==> k[i] == s[i]
    ensures forall i :: 0 <= i < |s| && 'A' <= s[i] <= 'F' ==> k[i] as int == s[i] as int + 32
    ensures ValidId(s) ==> IsCanonicalId(k)
  {
    if s == [] then [] else [LowerHexDigit(s[0])] + Canonical(s[1..])
  }

  /** A printed identifier is already canonical, so every identifier is its own spelling. */
  lemma CanonicalOfCanonical(s: string)
    requires IsCanonicalId(s)
    ensures Canonical(s) == s
  {
  }

  /** Casting twice is casting once. */
  lemma CanonicalIdempotent(s: string)
    ensures Canonical(Canonical(s)) == Canonical(s)
  {
  }

  /** A stored summary document. `user` is its owner; `summary` is the summary text. */
  datatype Summary = Summary(
    id: Id,
    user: Id,
    title: string,
    author: string,
    summary: string,
    tags: seq<string>,
    createdAt: nat,
    updatedAt: nat)

  /** A `String` path declared `required: true, trim: true` holds a non-empty trimmed value. */
  predicate RequiredText(s: string) {
    s != [] && IsTrimmed(s)
  }

  /** Every document the schema lets through: text paths present and trimmed; tags are any strings. */
  predicate WellFormed(d: Summary) {
    RequiredText(d.title) && RequiredText(d.author) && RequiredText(d.summary)
  }

  /** The paths a document is built from, each possibly unset. */
  datatype Draft = Draft(
    user: Option<Id>,
    title: Option<string>,
    author: Option<string>,
    summary: Option<string>,
    tags: Option<seq<string>>)

  /** The `trim: true` setter, applied when a text path is assigned. */
  function CastText(v: Option<string>): (r: Option<string>)
    ensures r.Some? <==> v.Some?
    ensures r.Some? ==> r.value == Trim(v.value)
    ensures r.Some? ==> IsTrimmed(r.value)
    ensures r.Some? ==> (r.value == [] <==> AllWhitespace(v.value))
  {
    match v
    case None => None
    case Some(s) => Some(Trim(s))
  }

  /** The `required` validator of a text path, run on the cast value: unset and empty both fail. */
  predicate TextPresent(v: Option<string>) {
    CastText(v).Some? && CastText(v).value != []
  }

  /** The schema's required paths, named in validation errors. */
  datatype Path = UserPath | TitlePath | AuthorPath | SummaryPath

  /** The paths whose `required` validator fails, in schema order. */
  function MissingPaths(d: Draft): (r: seq<Path>)
    ensures r == [] <==> d.user.Some? && TextPresent(d.title) && TextPresent(d.author) && TextPresent(d.summary)
    ensures UserPath in r <==> d.user.None?
    ensures TitlePath in r <==> !TextPresent(d.title)
    ensures AuthorPath in r <==> !TextPresent(d.author)
    ensures SummaryPath in r <==> !TextPresent(d.summary)
  {
    var user, title, author, summary :=
      d.user.Some?, TextPresent(d.title), TextPresent(d.author), TextPresent(d.summary);
    (if user then [] else [UserPath])
    + (if title then [] else [TitlePath])
    + (if author then [] else [AuthorPath])
    + (if summary then [] else [SummaryPath])
  }

  /**
   * Building and validating a document: the text paths are trimmed, `tags`
   * defaults to `[]`, and the store's identifier and timestamps are attached.
   * A document is produced exactly when the owner is set and each text path
   * is non-blank; otherwise the failing paths are reported.
   */
  function Validate(d: Draft, id: Id, createdAt: nat, updatedAt: nat): (r: Result<Summary, seq<Path>>)
    ensures r.Success? <==>
      && d.user.Some?
      && d.title.Some? && !AllWhitespace(d.title.value)
      && d.author.Some? && !AllWhitespace(d.author.value)
      && d.summary.Some? && !AllWhitespace(d.summary.value)
    ensures r.Success? ==>
      && WellFormed(r.value)
      && r.value.id == id
      && r.value.user == d.user.value
      && r.value.title == Trim(d.title.value)
      && r.value.author == Trim(d.author.value)
      && r.value.summary == Trim(d.summary.value)
      && r.value.tags == d.tags.GetOr([])
      && r.value.createdAt == createdAt && r.value.updatedAt == updatedAt
    ensures r.Failure? ==> r.error == MissingPaths(d)
  {
    var missing := MissingPaths(d);
    if missing != [] then Failure(missing)
    else
      Success(Summary(
        id, d.user.value,
        CastText(d.title).value, CastText(d.author).value, CastText(d.summary).value,
        d.tags.GetOr([]), createdAt, updatedAt))
  }
}
