# Book summary API — a Dafny model of its route handlers

The service keeps user-written book summaries and exposes five operations:
list (newest first, with an optional `_limit` cap), get by id, create,
update and delete. Only the owner of a summary may update or delete it.
This project models the decision logic of those handlers and of the
`Summary` schema, and proves what they promise:

- which check runs first;
- which status code each failure gets (400, 403, 404), and 200/201 on success;
- that a failure writes nothing;
- that a success changes exactly the record it names.

The model is split into five files:

- `wrappers.dfy` — `Option` and `Result`.
- `js_string.dfy` — the JavaScript string built-ins the handlers use:
  `trim` (over ECMAScript's whitespace set) and `split` on one character,
  with the `join` that undoes it.
- `summary_schema.dfy` — `models/Summary.js`: the `Summary` document, the
  `trim` setter on its text paths, its `required` validators, the `[]`
  default of `tags`, and `Validate`, which builds a document or names the
  paths that fail.
- `tag_normalization.dfy` — the `tags` expressions of the create and
  update handlers. A string is split on `,`, each piece is trimmed and
  empty pieces are dropped. An array is kept verbatim. Any other value
  gives `[]`.
- `summary_routes.dfy` — the handlers as methods of a `SummaryStore`
  class. The class holds the collection as a `map` from id to document and
  has a counter that stands for the clock behind `createdAt`/`updatedAt`.
  Each handler returns a `Response` that carries the status code and
  either the payload or the error message. The module
  `SummaryWalkthrough` is a client of these methods: one caller creates a
  summary, another caller is refused its deletion, the owner deletes it,
  and a later get answers 404.

The caller's identity is a plain `Id`: the handlers read it as
`req.user.id` when creating and as `req.user._id` when checking ownership,
and both name the same user. The identifier format check
(`ObjectId.isValid`) is `ValidId`: exactly 24 hexadecimal digits, in either
case. `findById` casts a well-formed identifier to an ObjectId, so the
handlers look a document up under `Canonical(id)`, the lower-case form the
store prints. Any spelling of a stored identifier therefore finds it.

Points where the code behaves differently from what one might assume:

- An array `tags` value is stored as it is, without trimming or dropping
  empty entries. So `["x", "", "  y  "]` is stored unchanged, not as
  `["x", "y"]`, and "every tag is trimmed and non-empty" holds only for
  tags given as a string (`TagNormalization.NormalizeText`).
- Update checks ownership before it validates the fields. A caller who
  does not own the summary and sends blank fields gets 403, not 400.
- The 400 message reads "Title, author, and summary are required".
- The 404 message of update and delete for a well-formed but unknown id is
  "Summary not found". In every other 404 it is "Summary Not Found". The
  status is the same in both cases.

## Model

| member | source | states |
|---|---|---|
| `JsString.Trim` | routes/summaryRoutes.js:73 | the trimmed string has no whitespace at either end, and it is empty exactly when the input is all whitespace |
| `JsString.TrimInfix` | routes/summaryRoutes.js:73 | the input is some whitespace, then the trimmed string, then some whitespace |
| `JsString.TrimOfPadded` | routes/summaryRoutes.js:73 | any split of a string into whitespace, a trimmed middle and whitespace determines `trim`: the middle is its result |
| `JsString.TrimTrimmed` | models/Summary.js:10-14 | trimming a string that is already trimmed leaves it unchanged, so the schema's `trim` setter is idempotent |
| `JsString.TrimNoNewChars` | routes/summaryRoutes.js:73 | trimming never introduces a character, so a trimmed piece of comma-split text holds no comma |
| `JsString.Split` | routes/summaryRoutes.js:72 | `split(",")` yields at least one piece (`""` gives `[""]`), and no piece holds the separator |
| `JsString.JoinSplit` | routes/summaryRoutes.js:72 | joining the pieces of a split with the separator gives back the original string |
| `JsString.SplitJoin` | routes/summaryRoutes.js:72 | splitting a join of separator-free pieces gives back exactly those pieces |
| `JsString.SplitNoSeparator` | routes/summaryRoutes.js:72 | a string without the separator splits into itself alone |
| `JsString.SplitAround` | routes/summaryRoutes.js:72 | splitting `a + "," + b` gives the pieces of `a` followed by the pieces of `b` |
| `TagNormalization.TrimEach` | routes/summaryRoutes.js:73 | `.map(tag => tag.trim())` keeps the length and trims each piece in place |
| `TagNormalization.DropEmpty` | routes/summaryRoutes.js:74 | `.filter(Boolean)` never lengthens the list and leaves no empty string in it |
| `TagNormalization.DropEmptyKeeps` | routes/summaryRoutes.js:74 | `.filter(Boolean)` keeps exactly the non-empty pieces |
| `TagNormalization.DropEmptyConcat` | routes/summaryRoutes.js:74 | filtering a concatenation is the concatenation of the filtered parts, so order is kept |
| `TagNormalization.NormalizeText` | routes/summaryRoutes.js:70-74 | every tag made from a string is non-empty, trimmed and comma-free |
| `TagNormalization.NormalizeAroundComma` | routes/summaryRoutes.js:70-74 | the text on either side of a comma normalises independently, and the results appear in that order |
| `TagNormalization.NormalizeSinglePiece` | routes/summaryRoutes.js:70-74 | comma-free text gives its trimmed self as the only tag, or no tag when it is blank |
| `TagNormalization.NormalizeJoin` | routes/summaryRoutes.js:70-74 | clean tags joined with commas normalise back to the same tags (round trip) |
| `TagNormalization.NormalizeExample` | routes/summaryRoutes.js:70-74 | text shaped like `"a, b ,c"` normalises to `["a", "b", "c"]` |
| `TagNormalization.CreateTags` | routes/summaryRoutes.js:69-77 | create: a string is normalised, an array is kept verbatim, and anything else, absent included, gives `[]` |
| `TagNormalization.UpdateTags` | routes/summaryRoutes.js:158-165 | update: an array is kept verbatim, a string is normalised, and anything else gives `[]` |
| `TagNormalization.CreateAndUpdateAgree` | routes/summaryRoutes.js:158-165 | the two handlers' differently ordered ternaries give the same tags for every input |
| `SummarySchema.ValidId` | routes/summaryRoutes.js:35 | `ObjectId.isValid` on the 24-digit hex form holds exactly for 24-character strings each of whose characters, read case-insensitively, is a digit the store prints (`0`-`9`, `a`-`f`) |
| `SummarySchema.Canonical` | routes/summaryRoutes.js:40 | `findById` casts a well-formed identifier to an ObjectId: the cast keeps the length, reads `A`-`F` as `a`-`f`, keeps every other character, and turns a well-formed identifier into the 24 lower-case digits the store prints |
| `SummarySchema.CanonicalOfCanonical` | routes/summaryRoutes.js:40 | an identifier already in printed form is its own cast, so the store finds a document under the identifier it printed |
| `SummarySchema.CanonicalIdempotent` | routes/summaryRoutes.js:40 | casting an identifier twice is the same as casting it once |
| `SummarySchema.CastText` | models/Summary.js:10-24 | the `trim: true` setter keeps an unset path unset; a set path becomes its `trim()`, which is trimmed and is empty exactly when the input was all whitespace |
| `SummarySchema.MissingPaths` | models/Summary.js:5-24 | a required path is reported exactly when it is unset or, for a text path, blank after the trim setter; nothing is reported exactly when all four are satisfied |
| `SummarySchema.Validate` | models/Summary.js:3-33 | a document is built exactly when the owner is set and title, author and summary are non-blank. It is well formed, has the given id and timestamps, stores the trimmed texts, and its tags default to `[]` and are not trimmed. Otherwise the failing paths are reported |
| `SummaryRoutes.BodyFields` | routes/summaryRoutes.js:58 | a missing request body is read as `{}`, a body whose fields are all absent |
| `SummaryRoutes.Filled` | routes/summaryRoutes.js:60 | `x?.trim()` is truthy exactly when the field is present and not all whitespace |
| `SummaryRoutes.HasRequiredFields` | routes/summaryRoutes.js:60-63 | a write request passes the field check exactly when title, author and summary are all present and not all whitespace; otherwise the handler answers 400 (line 150 in update) |
| `SummaryRoutes.RequiredFieldsMatchSchema` | routes/summaryRoutes.js:60-63 | the handlers' `!x?.trim()` check passes exactly when the schema validates the document built from the body, so a save after the check cannot fail validation |
| `SummaryRoutes.Capped` | routes/summaryRoutes.js:13-18 | no cap, or a cap of 0, returns every document; a positive cap returns at most that many |
| `SummaryRoutes.InsertAddsOne` | routes/summaryRoutes.js:14 | inserting into the sorted listing adds exactly the new document (as multisets) |
| `SummaryRoutes.InsertKeepsOrder` | routes/summaryRoutes.js:14 | inserting into a newest-first sequence keeps it newest first |
| `SummaryRoutes.InsertKeepsDistinct` | routes/summaryRoutes.js:14 | inserting a document whose id is not yet in the listing keeps every id in it distinct |
| `SummaryRoutes.InsertMembers` | routes/summaryRoutes.js:14 | after an insertion the sequence is one longer and holds its old elements plus the new one |
| `SummaryRoutes.SortStep` | routes/summaryRoutes.js:14 | each step of the sort keeps the partial listing newest first, free of repeated ids, as long as the set of documents taken so far, and made of exactly those documents |
| `SummaryRoutes.PrefixOfNewestFirst` | routes/summaryRoutes.js:17 | a cut listing is still newest first and free of repeated ids, and a document cut off is no newer than any document kept |
| `SummaryRoutes.SummaryStore.FindNewestFirst` | routes/summaryRoutes.js:14 | `find().sort({ createdAt: -1 })` returns every stored document exactly once (no id repeats), newest first |
| `SummaryRoutes.SummaryStore.List` | routes/summaryRoutes.js:11-26 | GET /: the result is newest first, holds only stored documents and no document twice, so it is the first documents of the sorted listing. Its length is the capped count; without a biting cap it holds every document; a document left out is no newer than any returned one |
| `SummaryRoutes.SummaryStore.Get` | routes/summaryRoutes.js:31-51 | a malformed id, and a well-formed id whose cast is not stored, both give 404 "Summary Not Found"; a well-formed id whose cast is stored, in any letter case, gives 200 with that document |
| `SummaryRoutes.SummaryStore.Create` | routes/summaryRoutes.js:56-87 | a missing or blank title, author or summary gives 400 and stores nothing. Otherwise it answers 201 and adds exactly one document under the new id, which is in the printed lower-case form. The owner is the caller, whatever `user` the body sends; the texts are trimmed, the tags are normalised, and both timestamps are now; the store invariant is kept |
| `SummaryRoutes.SummaryStore.Update` | routes/summaryRoutes.js:126-174 | the checks run in this order: 404 for a malformed id, 404 for an id whose cast is not stored, 403 for a caller who is not the owner, then 400 for blank fields. No failure writes. On success only title, author, summary and tags change; id, owner and `createdAt` are kept and `updatedAt` moves forward; no other record changes. The document is found under the id's cast, so any letter case of it works |
| `SummaryRoutes.SummaryStore.Delete` | routes/summaryRoutes.js:92-121 | the same 404 and 403 checks as update, on the id's cast, with no write on failure. On success it answers 200 "Summary deleted successfully" and removes exactly the document under the cast |

## Left out

- Express routing, the `req`/`res` objects and JSON serialisation. The
  model returns the status code and the payload or error message only.
- The authentication middleware (`middleware/authMiddleware.js` is not
  part of this model). The create, update and delete methods take the
  resolved caller id as a parameter, so an unauthenticated request never
  reaches them.
- The MongoDB driver and `async`/`await`. The collection is a `map` in a
  class. The id a new document receives is a parameter of `Create`; it is
  24 lower-case hexadecimal digits and not yet in use, as generated ids are.
- `ObjectId.isValid` accepts more than 24-digit hex strings (12-character
  strings and numbers, depending on the library version). `ValidId` models
  only the hex form, in either letter case. `Canonical` is the cast of that
  form only.
- The `_limit` parse. `SummaryStore.List` takes what `parseInt` produced,
  as `Option<nat>`: `None` when it is `NaN`. Leading-prefix parsing, the
  radix and the sign are not modelled, and negative caps are outside the
  model. A cap of 0 is treated as no cap, which is MongoDB's meaning of
  `limit(0)`.
- The order among documents with equal `createdAt`. The counter clock
  gives every document its own creation time, and the contracts of `List`
  say nothing about ties.
- `console.log` and the generic `next(err)` path for unexpected failures.
  This includes a `title`, `author` or `summary` that is neither a string
  nor `null`/`undefined` (`false`, `0`, an object): its `trim()` call
  throws. The model types these fields as `Option<string>`.
- Mongoose's casting of array `tags` elements to strings. Tag arrays are
  `seq<string>` in the model.
- SummaryRoutes.SummaryStore.Update: refreshes `updatedAt` on every
  successful update. Mongoose skips the timestamp when a save changes
  nothing; the model does not.
- Concurrent requests. Each operation runs to completion, so two updates
  to the same document never interleave.
- The whitespace set of `trim` is ECMAScript's WhiteSpace and
  LineTerminator characters as listed in `JsString.IsWhitespace`; the
  Unicode version that decides the space separators is fixed there.
