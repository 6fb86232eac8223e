/**
 * The handlers of routes/summaryRoutes.js over an in-memory record store:
 * list (newest first, optionally capped), get, create, update and delete,
 * with the identifier check, the existence check, the ownership check and
 * the required-field check each mapped to its status code.
 */
module SummaryRoutes {
  import opened Wrappers
  import opened JsString
  import opened SummarySchema
  import opened TagNormalization

  const STATUS_OK: nat := 200
  const STATUS_CREATED: nat := 201
  const STATUS_BAD_REQUEST: nat := 400
  const STATUS_FORBIDDEN: nat := 403
  const STATUS_NOT_FOUND: nat := 404

  /** The identifier check fails, or the get handler finds nothing. */
  const NOT_FOUND_MESSAGE := "Summary Not Found"
  /** The update and delete handlers find nothing under a well-formed identifier. */
  const MISSING_MESSAGE := "Summary not found"
  const REQUIRED_MESSAGE := "Title, author, and summary are required"
  const UPDATE_FORBIDDEN_MESSAGE := "Not authorized to update this summary"
  const DELETE_FORBIDDEN_MESSAGE := "Not authorized to delete this summary"
  const DELETED_MESSAGE := "Summary deleted successfully"

  /** What a handler sends: a status with a payload, or a status with the error's message. */
  datatype Response<T> = Ok(status: nat, value: T) | Error(status: nat, message: string)

  /**
   * The fields of a create or update request body. Text fields are strings
   * or absent; `user` stands for any field the handlers do not read.
   */
  datatype RequestBody = RequestBody(
    title: Option<string>,
    author: Option<string>,
    summary: Option<string>,
    tags: TagsField,
    user: Option<Id>)

  /** `req.body || {}`: a missing body reads as one with every field absent. */
  function BodyFields(body: Option<RequestBody>): (b: RequestBody)
    ensures body.Some? ==> b == body.value
    ensures body.None? ==> b.title.None? && b.author.None? && b.summary.None? && b.tags.Absent?
  {
    body.GetOr(RequestBody(None, None, None, Absent, None))
  }

  /** `x?.trim()` is truthy: the field is present and not blank. */
  predicate Filled(v: Option<string>)
    ensures Filled(v) <==> v.Some? && !AllWhitespace(v.value)
  {
    v.Some? && Trim(v.value) != []
  }

  /** The check both write handlers make before touching a document. */
  predicate HasRequiredFields(b: RequestBody)
    ensures HasRequiredFields(b) <==>
      && b.title.Some? && !AllWhitespace(b.title.value)
      && b.author.Some? && !AllWhitespace(b.author.value)
      && b.summary.Some? && !AllWhitespace(b.summary.value)
  {
    Filled(b.title) && Filled(b.author) && Filled(b.summary)
  }

  /**
   * The handlers' field check is exactly the schema's: a body passes it if
   * and only if the document built from it validates, so a save after the
   * check never fails validation.
   */
  lemma RequiredFieldsMatchSchema(b: RequestBody, owner: Id, tags: seq<string>, id: Id, createdAt: nat, updatedAt: nat)
    ensures HasRequiredFields(b) <==>
      Validate(Draft(Some(owner), b.title, b.author, b.summary, Some(tags)), id, createdAt, updatedAt).Success?
  {
  }

  // ----- newest-first ordering -----

  /** Ordered by `createdAt`, most recent first. */
  predicate NewestFirst(s: seq<Summary>) {
    forall i, j :: 0 <= i < j < |s| ==> s[i].createdAt >= s[j].createdAt
  }

  /** No document appears twice. */
  predicate DistinctIds(s: seq<Summary>) {
    forall i, j :: 0 <= i < j < |s| ==> s[i].id != s[j].id
  }

  /** Places `x` before the first element that is not newer than it. */
  function InsertNewestFirst(s: seq<Summary>, x: Summary): seq<Summary> {
    if s == [] || x.createdAt >= s[0].createdAt then [x] + s
    else [s[0]] + InsertNewestFirst(s[1..], x)
  }

  /** Insertion adds exactly `x`, whatever the order. */
  lemma {:induction false} InsertAddsOne(s: seq<Summary>, x: Summary)
    ensures multiset(InsertNewestFirst(s, x)) == multiset(s) + multiset{x}
  {
    if s != [] && x.createdAt < s[0].createdAt {
      InsertAddsOne(s[1..], x);
      assert s == [s[0]] + s[1..];
    }
  }

  /** After insertion the sequence is one longer and holds what it held, plus `x`. */
  lemma InsertMembers(s: seq<Summary>, x: Summary)
    ensures |InsertNewestFirst(s, x)| == |s| + 1
    ensures forall y :: y in InsertNewestFirst(s, x) <==> y in s || y == x
  {
  }

  /** Insertion into a newest-first sequence keeps it newest first. */
  lemma {:induction false} InsertKeepsOrder(s: seq<Summary>, x: Summary)
    requires NewestFirst(s)
    ensures NewestFirst(InsertNewestFirst(s, x))
  {
    if s != [] && x.createdAt < s[0].createdAt {
      InsertKeepsOrder(s[1..], x);
      InsertAddsOne(s[1..], x);
      var rest := InsertNewestFirst(s[1..], x);
      forall k | 0 <= k < |rest| ensures rest[k].createdAt <= s[0].createdAt {
        assert rest[k] in multiset(rest);
        assert rest[k] in s[1..] || rest[k] == x;
      }
    }
  }

  /** Inserting a document whose identifier is not yet present keeps the identifiers distinct. */
  lemma {:induction false} InsertKeepsDistinct(s: seq<Summary>, x: Summary)
    requires DistinctIds(s)
    requires forall y :: y in s ==> y.id != x.id
    ensures DistinctIds(InsertNewestFirst(s, x))
  {
    if s != [] && x.createdAt < s[0].createdAt {
      InsertKeepsDistinct(s[1..], x);
      InsertAddsOne(s[1..], x);
      var rest := InsertNewestFirst(s[1..], x);
      forall k | 0 <= k < |rest| ensures rest[k].id != s[0].id {
        assert rest[k] in multiset(rest);
        assert rest[k] in s[1..] || rest[k] == x;
      }
    }
  }

  /**
   * One step of sorting the documents of `m`: inserting the document under a
   * new identifier keeps `sorted` newest first and in step with `done`.
   */
  lemma SortStep(m: map<Id, Summary>, sorted: seq<Summary>, done: set<Id>, id: Id)
    requires forall k :: k in m ==> m[k].id == k
    requires id in m && id !in done
    requires NewestFirst(sorted) && DistinctIds(sorted) && |sorted| == |done|
    requires forall s :: s in sorted ==> s.id in done && s.id in m && m[s.id] == s
    requires forall k :: k in done ==> k in m && m[k] in sorted
    ensures var next := InsertNewestFirst(sorted, m[id]);
      && NewestFirst(next)
      && DistinctIds(next)
      && |next| == |done + {id}|
      && (forall s :: s in next ==> s.id in done + {id} && m[s.id] == s)
      && (forall k :: k in done + {id} ==> m[k] in next)
  {
    InsertKeepsOrder(sorted, m[id]);
    InsertKeepsDistinct(sorted, m[id]);
    InsertMembers(sorted, m[id]);
  }

  /** A prefix of a newest-first sequence is newest first and holds its newest elements. */
  lemma PrefixOfNewestFirst(s: seq<Summary>, n: nat)
    requires NewestFirst(s) && DistinctIds(s) && n <= |s|
    ensures NewestFirst(s[..n]) && DistinctIds(s[..n])
    ensures forall x, i :: x in s && x !in s[..n] && 0 <= i < n ==> x.createdAt <= s[..n][i].createdAt
  {
  }

  /** How many documents a listing returns: `limit(0)` and a missing cap both mean all of them. */
  function Capped(count: nat, limit: Option<nat>): (n: nat)
    ensures n <= count
    ensures limit.None? || limit == Some(0) ==> n == count
    ensures limit.Some? && 0 < limit.value ==> n == if limit.value < count then limit.value else count
  {
    match limit
    case None => count
    case Some(k) => if k == 0 || count <= k then count else k
  }

  // ----- the store -----

  /**
   * The summaries collection: documents by identifier, and a counter that
   * stands for the clock the `timestamps` option reads.
   */
  class SummaryStore {
    var records: map<Id, Summary>
    var clock: nat

    /**
     * Every stored document sits under its own identifier, in printed form, passed
     * the schema, and was created no later than it was last updated, before now.
     */
    ghost predicate Valid()
      reads this
    {
      && Keyed()
      && forall id :: id in records ==>
        && IsCanonicalId(id)
        && WellFormed(records[id])
        && records[id].createdAt <= records[id].updatedAt < clock
    }

    /** Every document is stored under its own identifier. */
    ghost predicate Keyed()
      reads this
    {
      forall id :: id in records ==> records[id].id == id
    }

    constructor ()
      ensures Valid()
      ensures records == map[] && clock == 0
    {
      records := map[];
      clock := 0;
    }

    /**
     * `Summary.find().sort({ createdAt: -1 })`: every stored document exactly
     * once, most recently created first.
     */
    method FindNewestFirst() returns (all: seq<Summary>)
      requires Keyed()
      ensures NewestFirst(all) && DistinctIds(all)
      ensures |all| == |records|
      ensures forall s :: s in all ==> s.id in records && records[s.id] == s
      ensures forall id :: id in records ==> records[id] in all
    {
      var m := records;
      all := [];
      var remaining := m.Keys;
      ghost var done: set<Id> := {};
      while remaining != {}
        invariant done <= m.Keys && remaining == m.Keys - done
        invariant NewestFirst(all) && DistinctIds(all)
        invariant |all| == |done|
        invariant forall s :: s in all ==> s.id in done && m[s.id] == s
        invariant forall id :: id in done ==> m[id] in all
        decreases remaining
      {
        var id :| id in remaining;
        SortStep(m, all, done, id);
        all := InsertNewestFirst(all, m[id]);
        remaining := remaining - {id};
        done := done + {id};
      }
      assert done == m.Keys;
    }

    /**
     * GET /: the documents newest first, cut to the cap when one is given.
     * Every returned document is stored, and none twice; when the cap does not bite every
     * stored document is returned; a document left out is no newer than any
     * returned one.
     */
    method List(limit: Option<nat>) returns (result: seq<Summary>)
      requires Keyed()
      ensures NewestFirst(result)
      ensures forall i, j :: 0 <= i < j < |result| ==> result[i].id != result[j].id
      ensures |result| == Capped(|records|, limit)
      ensures forall s :: s in result ==> s.id in records && records[s.id] == s
      ensures Capped(|records|, limit) == |records| ==> forall id :: id in records ==> records[id] in result
      ensures forall id, i :: id in records && records[id] !in result && 0 <= i < |result| ==>
        records[id].createdAt <= result[i].createdAt
    {
      var all := FindNewestFirst();
      var n := Capped(|all|, limit);
      result := all[..n];
      PrefixOfNewestFirst(all, n);
      assert n == |all| ==> result == all;
    }

    /**
     * GET /:id — a malformed identifier and an unknown one both give 404. A
     * well-formed identifier is looked up in its canonical form, so any
     * spelling of a stored identifier finds it.
     */
    method Get(id: Id) returns (r: Response<Summary>)
      ensures !ValidId(id) || Canonical(id) !in records ==> r == Error(STATUS_NOT_FOUND, NOT_FOUND_MESSAGE)
      ensures ValidId(id) && Canonical(id) in records ==> r == Ok(STATUS_OK, records[Canonical(id)])
    {
      if !ValidId(id) {
        return Error(STATUS_NOT_FOUND, NOT_FOUND_MESSAGE);
      }
      var key := Canonical(id);
      if key !in records {
        return Error(STATUS_NOT_FOUND, NOT_FOUND_MESSAGE);
      }
      r := Ok(STATUS_OK, records[key]);
    }

    /**
     * POST /: a body missing a title, author or summary gets 400 and nothing
     * is stored; otherwise exactly one document is added under the store's
     * new identifier, owned by the caller whatever the body says, with its
     * text trimmed, its tags normalised and both timestamps set to now.
     */
    method Create(caller: Id, body: Option<RequestBody>, newId: Id) returns (r: Response<Summary>)
      requires Valid()
      requires IsCanonicalId(newId) && newId !in records
      modifies this
      ensures Valid()
      ensures !HasRequiredFields(BodyFields(body)) ==>
        && r == Error(STATUS_BAD_REQUEST, REQUIRED_MESSAGE)
        && records == old(records) && clock == old(clock)
      ensures HasRequiredFields(BodyFields(body)) ==>
        var b := BodyFields(body);
        && r == Ok(STATUS_CREATED, Summary(newId, caller, Trim(b.title.value), Trim(b.author.value),
                                           Trim(b.summary.value), CreateTags(b.tags), old(clock), old(clock)))
        && records == old(records)[newId := r.value]
        && clock == old(clock) + 1
    {
      var b := BodyFields(body);
      if !HasRequiredFields(b) {
        return Error(STATUS_BAD_REQUEST, REQUIRED_MESSAGE);
      }
      var draft := Draft(Some(caller), b.title, b.author, b.summary, Some(CreateTags(b.tags)));
      var doc := Validate(draft, newId, clock, clock);
      RequiredFieldsMatchSchema(b, caller, CreateTags(b.tags), newId, clock, clock);
      records := records[newId := doc.value];
      clock := clock + 1;
      r := Ok(STATUS_CREATED, doc.value);
    }

    /**
     * PUT /:id — 404 for a malformed or unknown identifier, then 403 when the
     * caller does not own the document, and only then 400 for a missing
     * field; no failure writes. On success only the title, author, summary
     * and tags of that document change, and its update time becomes now.
     */
    method Update(caller: Id, id: Id, body: Option<RequestBody>) returns (r: Response<Summary>)
      requires Valid()
      modifies this
      ensures Valid()
      ensures !ValidId(id) ==>
        r == Error(STATUS_NOT_FOUND, NOT_FOUND_MESSAGE) && records == old(records) && clock == old(clock)
      ensures ValidId(id) && Canonical(id) !in old(records) ==>
        r == Error(STATUS_NOT_FOUND, MISSING_MESSAGE) && records == old(records) && clock == old(clock)
      ensures ValidId(id) && Canonical(id) in old(records) && old(records)[Canonical(id)].user != caller ==>
        r == Error(STATUS_FORBIDDEN, UPDATE_FORBIDDEN_MESSAGE) && records == old(records) && clock == old(clock)
      ensures ValidId(id) && Canonical(id) in old(records) && old(records)[Canonical(id)].user == caller
              && !HasRequiredFields(BodyFields(body)) ==>
        r == Error(STATUS_BAD_REQUEST, REQUIRED_MESSAGE) && records == old(records) && clock == old(clock)
      ensures ValidId(id) && Canonical(id) in old(records) && old(records)[Canonical(id)].user == caller
              && HasRequiredFields(BodyFields(body)) ==>
        var b, before := BodyFields(body), old(records)[Canonical(id)];
        && r == Ok(STATUS_OK, before.(title := Trim(b.title.value), author := Trim(b.author.value),
                                      summary := Trim(b.summary.value), tags := UpdateTags(b.tags),
                                      updatedAt := old(clock)))
        && r.value.updatedAt > before.updatedAt
        && records == old(records)[Canonical(id) := r.value]
        && clock == old(clock) + 1
    {
      if !ValidId(id) {
        return Error(STATUS_NOT_FOUND, NOT_FOUND_MESSAGE);
      }
      var key := Canonical(id);
      if key !in records {
        return Error(STATUS_NOT_FOUND, MISSING_MESSAGE);
      }
      var before := records[key];
      if before.user != caller {
        return Error(STATUS_FORBIDDEN, UPDATE_FORBIDDEN_MESSAGE);
      }
      var b := BodyFields(body);
      if !HasRequiredFields(b) {
        return Error(STATUS_BAD_REQUEST, REQUIRED_MESSAGE);
      }
      var draft := Draft(Some(before.user), b.title, b.author, b.summary, Some(UpdateTags(b.tags)));
      var doc := Validate(draft, key, before.createdAt, clock);
      RequiredFieldsMatchSchema(b, before.user, UpdateTags(b.tags), key, before.createdAt, clock);
      records := records[key := doc.value];
      clock := clock + 1;
      r := Ok(STATUS_OK, doc.value);
    }

    /**
     * DELETE /:id — the same 404 and 403 checks as update, with no write on
     * failure; on success exactly that document is removed.
     */
    method Delete(caller: Id, id: Id) returns (r: Response<string>)
      requires Valid()
      modifies this
      ensures Valid()
      ensures clock == old(clock)
      ensures !ValidId(id) ==>
        r == Error(STATUS_NOT_FOUND, NOT_FOUND_MESSAGE) && records == old(records)
      ensures ValidId(id) && Canonical(id) !in old(records) ==>
        r == Error(STATUS_NOT_FOUND, MISSING_MESSAGE) && records == old(records)
      ensures ValidId(id) && Canonical(id) in old(records) && old(records)[Canonical(id)].user != caller ==>
        r == Error(STATUS_FORBIDDEN, DELETE_FORBIDDEN_MESSAGE) && records == old(records)
      ensures ValidId(id) && Canonical(id) in old(records) && old(records)[Canonical(id)].user == caller ==>
        r == Ok(STATUS_OK, DELETED_MESSAGE) && records == old(records) - {Canonical(id)}
    {
      if !ValidId(id) {
        return Error(STATUS_NOT_FOUND, NOT_FOUND_MESSAGE);
      }
      var key := Canonical(id);
      if key !in records {
        return Error(STATUS_NOT_FOUND, MISSING_MESSAGE);
      }
      if records[key].user != caller {
        return Error(STATUS_FORBIDDEN, DELETE_FORBIDDEN_MESSAGE);
      }
      records := records - {key};
      r := Ok(STATUS_OK, DELETED_MESSAGE);
    }
  }
}

/**
 * A client of the handlers: one caller creates a summary, another fails to
 * delete it, any spelling of its identifier fetches it, the owner deletes it,
 * and it can no longer be fetched.
 */
module SummaryWalkthrough {
  import opened Wrappers
  import opened JsString
  import opened SummarySchema
  import opened TagNormalization
  import opened SummaryRoutes

  method OwnerOnlyDelete(u: Id, v: Id, id: Id, spelling: Id, title: string, author: string, text: string)
    requires u != v && IsCanonicalId(id)
    requires ValidId(spelling) && Canonical(spelling) == id
    requires !AllWhitespace(title) && !AllWhitespace(author) && !AllWhitespace(text)
  {
    var store := new SummaryStore();
    var body := RequestBody(Some(title), Some(author), Some(text), List(["scifi", "classic"]), Some(v));
    var created := store.Create(u, Some(body), id);
    assert created.Ok? && created.status == STATUS_CREATED;
    assert created.value.user == u && created.value.tags == ["scifi", "classic"];

    CanonicalOfCanonical(id);
    var denied := store.Delete(v, id);
    assert denied == Error(STATUS_FORBIDDEN, DELETE_FORBIDDEN_MESSAGE);
    var fetched := store.Get(spelling);
    assert fetched == Ok(STATUS_OK, created.value);

    var deleted := store.Delete(u, id);
    assert deleted == Ok(STATUS_OK, DELETED_MESSAGE);
    var gone := store.Get(id);
    assert gone == Error(STATUS_NOT_FOUND, NOT_FOUND_MESSAGE);
  }
}
