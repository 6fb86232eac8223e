/**
 * The `tags` expressions of the create and update handlers. A string is read
 * as a comma-separated list: split on `,`, each piece trimmed, empty pieces
 * dropped. An array is taken as it is. Anything else gives no tags.
 */
module TagNormalization {
  import opened JsString

  /** The `tags` value of a request body, by its JavaScript type. */
  datatype TagsField =
    | Absent                     // `undefined`
    | Text(text: string)         // `typeof tags === "string"`
    | List(items: seq<string>)   // `Array.isArray(tags)`
    | OtherValue                 // a number, boolean, object or `null`

  /** `.map((tag) => tag.trim())` */
  function TrimEach(pieces: seq<string>): (r: seq<string>)
    ensures |r| == |pieces|
    ensures forall k :: 0 <= k < |r| ==> r[k] == Trim(pieces[k])
  {
    if pieces == [] then [] else [Trim(pieces[0])] + TrimEach(pieces[1..])
  }

  /** `.filter(Boolean)`: only the empty string is falsy among strings. */
  function DropEmpty(pieces: seq<string>): (r: seq<string>)
    ensures |r| <= |pieces|
    ensures [] !in r
  {
    if pieces == [] then []
    else (if pieces[0] == [] then [] else [pieces[0]]) + DropEmpty(pieces[1..])
  }

  /** `tags.split(",").map((tag) => tag.trim()).filter(Boolean)` */
  function NormalizeText(text: string): (r: seq<string>)
    ensures forall t :: t in r ==> t != [] && IsTrimmed(t) && ',' !in t
  {
    var pieces := TrimEach(Split(text, ','));
    TrimmedPiecesClean(Split(text, ','));
    DropEmptyKeeps(pieces);
    DropEmpty(pieces)
  }

  /** The create handler's expression: string first, then array, else `[]`. */
  function CreateTags(tags: TagsField): (r: seq<string>)
    ensures tags.Text? ==> r == NormalizeText(tags.text)
    ensures tags.List? ==> r == tags.items
    ensures tags.Absent? || tags.OtherValue? ==> r == []
  {
    if tags.Text? then NormalizeText(tags.text)
    else if tags.List? then tags.items
    else []
  }

  /** The update handler's expression: array first, then string, else `[]`. */
  function UpdateTags(tags: TagsField): (r: seq<string>)
    ensures tags.List? ==> r == tags.items
    ensures tags.Text? ==> r == NormalizeText(tags.text)
    ensures tags.Absent? || tags.OtherValue? ==> r == []
  {
    if tags.List? then tags.items
    else if tags.Text? then NormalizeText(tags.text)
    else []
  }

  /** The two handlers' differently ordered ternaries agree on every input. */
  lemma CreateAndUpdateAgree(tags: TagsField)
    ensures CreateTags(tags) == UpdateTags(tags)
  {
  }

  // ----- what the filter and trim keep -----

  /** The filter keeps exactly the non-empty pieces, in order. */
  lemma {:induction false} DropEmptyKeeps(pieces: seq<string>)
    ensures forall t :: t in DropEmpty(pieces) <==> t in pieces && t != []
  {
    if pieces != [] {
      DropEmptyKeeps(pieces[1..]);
      assert pieces == [pieces[0]] + pieces[1..];
    }
  }

  lemma {:induction false} TrimEachConcat(a: seq<string>, b: seq<string>)
    ensures TrimEach(a + b) == TrimEach(a) + TrimEach(b)
  {
  }

  lemma {:induction false} DropEmptyConcat(a: seq<string>, b: seq<string>)
    ensures DropEmpty(a + b) == DropEmpty(a) + DropEmpty(b)
  {
    if a != [] {
      assert (a + b)[1..] == a[1..] + b;
      DropEmptyConcat(a[1..], b);
    } else {
      assert a + b == b;
    }
  }

  /** Trimmed comma-free pieces are trimmed and comma-free. */
  lemma TrimmedPiecesClean(pieces: seq<string>)
    requires forall k :: 0 <= k < |pieces| ==> ',' !in pieces[k]
    ensures forall t :: t in TrimEach(pieces) ==> IsTrimmed(t) && ',' !in t
  {
    forall k | 0 <= k < |pieces| ensures ',' !in Trim(pieces[k]) {
      TrimNoNewChars(pieces[k], ',');
    }
  }

  // ----- the normalisation as a homomorphism on comma-joined text -----

  /** Text on both sides of a comma normalises independently, in order. */
  lemma NormalizeAroundComma(a: string, b: string)
    ensures NormalizeText(a + [','] + b) == NormalizeText(a) + NormalizeText(b)
  {
    SplitAround(a, b, ',');
    var pa, pb := Split(a, ','), Split(b, ',');
    TrimEachConcat(pa, pb);
    DropEmptyConcat(TrimEach(pa), TrimEach(pb));
  }

  /** Text without a comma is a single tag, or none when it is blank. */
  lemma NormalizeSinglePiece(text: string)
    requires ',' !in text
    ensures NormalizeText(text) == if AllWhitespace(text) then [] else [Trim(text)]
  {
    SplitNoSeparator(text, ',');
    assert TrimEach([text]) == [Trim(text)];
    assert DropEmpty([Trim(text)]) == (if Trim(text) == [] then [] else [Trim(text)]) + DropEmpty([]);
  }

  /** Clean tags joined with commas normalise back to themselves. */
  lemma {:induction false} NormalizeJoin(tags: seq<string>)
    requires forall k :: 0 <= k < |tags| ==> tags[k] != [] && IsTrimmed(tags[k]) && ',' !in tags[k]
    ensures NormalizeText(Join(tags, ',')) == tags
  {
    if |tags| == 0 {
      NormalizeSinglePiece([]);
    } else if |tags| == 1 {
      NormalizeSinglePiece(tags[0]);
      TrimTrimmed(tags[0]);
    } else {
      NormalizeJoin(tags[1..]);
      NormalizeAroundComma(tags[0], Join(tags[1..], ','));
      NormalizeSinglePiece(tags[0]);
      TrimTrimmed(tags[0]);
      assert [tags[0]] + tags[1..] == tags;
    }
  }

  /**
   * The worked example `"a, b ,c"` becomes `["a", "b", "c"]`, stated for any
   * three tag characters so that the proof does not compute on a literal.
   */
  lemma NormalizeExample(a: char, b: char, c: char)
    requires a != ',' && !IsWhitespace(a)
    requires b != ',' && !IsWhitespace(b)
    requires c != ',' && !IsWhitespace(c)
    ensures NormalizeText([a, ',', ' ', b, ' ', ',', c]) == [[a], [b], [c]]
  {
    var tail := [' ', b, ' '] + [','] + [c];
    var text := [a] + [','] + tail;
    NormalizeAroundComma([a], tail);
    PlainTag(a);
    NormalizeExampleTail(b, c);
    ExampleText(a, b, c);
  }

  /**
   * A proof step of `NormalizeExample`, kept apart so that the solver does
   * not unroll the display while proving the normalisation itself.
   */
  lemma ExampleText(a: char, b: char, c: char)
    ensures [a] + [','] + ([' ', b, ' '] + [','] + [c]) == [a, ',', ' ', b, ' ', ',', c]
  {
  }

  lemma NormalizeExampleTail(b: char, c: char)
    requires b != ',' && !IsWhitespace(b)
    requires c != ',' && !IsWhitespace(c)
    ensures NormalizeText([' ', b, ' '] + [','] + [c]) == [[b], [c]]
  {
    NormalizeAroundComma([' ', b, ' '], [c]);
    PaddedTag(b);
    PlainTag(c);
  }

  /** A one-character tag with a space on each side normalises to the character alone. */
  lemma PaddedTag(b: char)
    requires b != ',' && !IsWhitespace(b)
    ensures NormalizeText([' ', b, ' ']) == [[b]]
  {
    var padded := [' ', b, ' '];
    assert ',' !in padded;
    assert !AllWhitespace(padded) by { assert !IsWhitespace(padded[1]); }
    NormalizeSinglePiece(padded);
    assert padded == [' '] + [b] + [' '];
    TrimOfPadded(padded, [' '], [b], [' ']);
  }

  /** A one-character tag that is neither a comma nor whitespace normalises to itself. */
  lemma PlainTag(c: char)
    requires c != ',' && !IsWhitespace(c)
    ensures NormalizeText([c]) == [[c]]
  {
    NormalizeSinglePiece([c]);
    TrimTrimmed([c]);
  }
}
