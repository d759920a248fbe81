/** The user rating store of addrating.py. The `user_ratings` collection is a
    map from (user_id, book_id) to the rest of the document; the clock reading
    and any exception the database driver raises are parameters. Each handler
    returns what it hands to `jsonify`: a status, a message or the rating
    fields, and the HTTP status code. */
module AddRating {
  import opened Wrappers

  const COLLECTION: string := "user_ratings"

  /** The fields the collection check asks of the first document. */
  const REQUIRED_FIELDS: set<string> := {"user_id", "book_id", "rating"}

  /** A reading of `datetime.now()`. */
  type Time = int

  /** The Python value passed as `rating`. A `bool` is an `int` to `isinstance`,
      with True and False standing for 1 and 0. */
  datatype PyValue = PyInt(n: int) | PyBool(b: bool) | PyOther

  /** The filter `{"user_id": user_id, "book_id": book_id}`. */
  datatype RatingKey = RatingKey(userId: string, bookId: string)

  /** The other fields of a document. A document this module did not write may
      lack any of them. */
  datatype RatingDoc = RatingDoc(rating: Option<PyValue>, createdDate: Option<Time>, modifiedDate: Option<Time>)

  datatype Body = Message(text: string) | RatingBody(rating: PyValue, createdDate: Time, modifiedDate: Option<Time>)

  datatype Reply = Reply(status: string, body: Body, code: int)

  /** `isinstance(rating, int) and 1 <= rating <= 5`. */
  predicate IsValidRating(v: PyValue)
    ensures IsValidRating(v) <==> (v.PyInt? && 1 <= v.n <= 5) || v == PyBool(true)
  {
    match v
    case PyInt(n) => 1 <= n <= 5
    case PyBool(b) => var n := if b then 1 else 0; 1 <= n <= 5
    case PyOther => false
  }

  /** The upsert: `$set` rating and modified_date, `$setOnInsert` created_date. */
  function Upsert(docs: map<RatingKey, RatingDoc>, key: RatingKey, rating: PyValue, now: Time): (m: map<RatingKey, RatingDoc>)
    ensures m.Keys == docs.Keys + {key}
    ensures m[key].rating == Some(rating) && m[key].modifiedDate == Some(now)
    ensures key in docs ==> m[key].createdDate == docs[key].createdDate
    ensures key !in docs ==> m[key].createdDate == Some(now)
    ensures forall k :: k in docs && k != key ==> m[k] == docs[k]
  {
    var created := if key in docs then docs[key].createdDate else Some(now);
    docs[key := RatingDoc(Some(rating), created, Some(now))]
  }

  /** Rating the same book twice replaces the first rating: one document,
      holding the second rating and the first call's creation date. */
  lemma UpsertTwice(docs: map<RatingKey, RatingDoc>, key: RatingKey, first: PyValue, t1: Time, second: PyValue, t2: Time)
    ensures var m := Upsert(Upsert(docs, key, first, t1), key, second, t2);
            && m.Keys == docs.Keys + {key}
            && m[key] == RatingDoc(Some(second), Upsert(docs, key, first, t1)[key].createdDate, Some(t2))
            && forall k :: k in docs && k != key ==> m[k] == docs[k]
  {
  }

  /** The key's own status line: "Rating updated successfully" when the key
      was present, otherwise "Rating added successfully". */
  function UpsertMessage(docs: map<RatingKey, RatingDoc>, key: RatingKey): (m: string)
    ensures m == "Rating updated successfully" <==> key in docs
    ensures m == "Rating added successfully" <==> key !in docs
  {
    if key in docs then "Rating updated successfully" else "Rating added successfully"
  }

  /** `get_user_rating`: the stored rating of a key, or 404 when there is none. A
      document without `rating` or `created_date` makes the lookup raise a
      KeyError, reported as a database error. */
  function GetUserRating(docs: map<RatingKey, RatingDoc>, userId: string, bookId: string, failure: Option<string>): (r: Reply)
    ensures r.code == 404 <==> failure.None? && RatingKey(userId, bookId) !in docs
    ensures r.code == 404 ==> r == Reply("success", Message("No rating found for this book"), 404)
    ensures r.code == 200 <==>
              && failure.None? && RatingKey(userId, bookId) in docs
              && docs[RatingKey(userId, bookId)].rating.Some?
              && docs[RatingKey(userId, bookId)].createdDate.Some?
    ensures r.code == 200 ==>
              var doc := docs[RatingKey(userId, bookId)];
              r == Reply("success", RatingBody(doc.rating.value, doc.createdDate.value, doc.modifiedDate), 200)
    ensures r.code != 200 && r.code != 404 ==> r.code == 500 && r.status == "error"
  {
    var key := RatingKey(userId, bookId);
    if failure.Some? then Reply("error", Message("Database error: " + failure.value), 500)
    else if key !in docs then Reply("success", Message("No rating found for this book"), 404)
    else
      var doc := docs[key];
      match (doc.rating, doc.createdDate)
      case (None, _) => Reply("error", Message("Database error: 'rating'"), 500)
      case (Some(_), None) => Reply("error", Message("Database error: 'created_date'"), 500)
      case (Some(v), Some(c)) => Reply("success", RatingBody(v, c, doc.modifiedDate), 200)
  }

  /** After a rating is stored, looking it up returns it with the time of the
      call as modification date, unless the document already existed without a
      creation date (the upsert never adds one to an existing document). */
  lemma GetAfterUpsert(docs: map<RatingKey, RatingDoc>, userId: string, bookId: string, rating: PyValue, now: Time)
    ensures var key := RatingKey(userId, bookId);
            var got := GetUserRating(Upsert(docs, key, rating, now), userId, bookId, None);
            if key in docs && docs[key].createdDate.None?
            then got == Reply("error", Message("Database error: 'created_date'"), 500)
            else got == Reply("success",
                              RatingBody(rating, if key in docs then docs[key].createdDate.value else now, Some(now)),
                              200)
  {
  }

  /** Storing one key's rating leaves the lookups of every other key as they were. */
  lemma GetOtherKeyAfterUpsert(docs: map<RatingKey, RatingDoc>, key: RatingKey, rating: PyValue, now: Time,
                               userId: string, bookId: string, failure: Option<string>)
    requires RatingKey(userId, bookId) != key
    ensures GetUserRating(Upsert(docs, key, rating, now), userId, bookId, failure)
         == GetUserRating(docs, userId, bookId, failure)
  {
  }

  /** What `list_collection_names()` and `find_one()` return: the names of
      the collections and the field names of the first document, if any. */
  datatype DbSnapshot = DbSnapshot(collectionNames: set<string>, firstDocument: Option<set<string>>)

  /** `validate_user_ratings_collection`. With no first document the field
      test raises a TypeError, which the handler reports as a validation error. */
  function ValidateUserRatingsCollection(db: DbSnapshot, failure: Option<string>): (r: Reply)
    ensures r.code == 200 || r.code == 500
    ensures r.status == "success" <==> r.code == 200
    ensures r.code == 200 <==>
              failure.None? && COLLECTION in db.collectionNames
              && db.firstDocument.Some? && REQUIRED_FIELDS <= db.firstDocument.value
  {
    if failure.Some? then
      Reply("error", Message("Validation error: " + failure.value), 500)
    else if COLLECTION !in db.collectionNames then
      Reply("error", Message("The user_ratings collection does not exist."), 500)
    else match db.firstDocument
      case None =>
        Reply("error", Message("Validation error: argument of type 'NoneType' is not iterable"), 500)
      case Some(fields) =>
        if !(REQUIRED_FIELDS <= fields) then
          Reply("error", Message("The user_ratings collection is missing required fields."), 500)
        else
          Reply("success", Message("The user_ratings collection is valid."), 200)
  }

  /** The field names of a stored document. */
  function FieldNames(doc: RatingDoc): set<string>
  {
    {"_id", "user_id", "book_id"}
    + (if doc.rating.Some? then {"rating"} else {})
    + (if doc.createdDate.Some? then {"created_date"} else {})
    + (if doc.modifiedDate.Some? then {"modified_date"} else {})
  }

  /** A document written by the upsert passes the collection check when it is
      the first one (the upsert also creates the collection). */
  lemma UpsertedDocumentValidates(docs: map<RatingKey, RatingDoc>, key: RatingKey, rating: PyValue, now: Time,
                                  names: set<string>)
    requires COLLECTION in names
    ensures ValidateUserRatingsCollection(DbSnapshot(names, Some(FieldNames(Upsert(docs, key, rating, now)[key]))), None).code
         == 200
  {
  }

  /** An exception raised while `add_or_update_rating` talks to the database:
      its text, and whether the server had already applied the upsert (a
      connection lost after the command was sent, or reading `matched_count`
      of a write that was not acknowledged). */
  datatype DriverError = DriverError(text: string, writeApplied: bool)

  /** The `ratings_collection` handle. */
  class RatingStore {
    var docs: map<RatingKey, RatingDoc>

    constructor (docs: map<RatingKey, RatingDoc>)
      ensures this.docs == docs
    {
      this.docs := docs;
    }

    /** `add_or_update_rating`; `now` is the clock reading and `failure` the
        exception raised inside the `try`, if one is raised. */
    method AddOrUpdateRating(userId: string, bookId: string, rating: PyValue, now: Time, failure: Option<DriverError>)
      returns (r: Reply)
      modifies this
      ensures !IsValidRating(rating) ==>
                r == Reply("error", Message("Rating must be an integer between 1 and 5"), 400) && docs == old(docs)
      ensures IsValidRating(rating) && failure.Some? ==>
                && r == Reply("error", Message("Database error: " + failure.value.text), 500)
                && docs == if failure.value.writeApplied
                           then Upsert(old(docs), RatingKey(userId, bookId), rating, now)
                           else old(docs)
      ensures IsValidRating(rating) && failure.None? ==>
                && docs == Upsert(old(docs), RatingKey(userId, bookId), rating, now)
                && r == Reply("success", Message(UpsertMessage(old(docs), RatingKey(userId, bookId))), 200)
    {
      if !IsValidRating(rating) {
        return Reply("error", Message("Rating must be an integer between 1 and 5"), 400);
      }
      var key := RatingKey(userId, bookId);
      if failure.Some? {
        if failure.value.writeApplied {
          docs := Upsert(docs, key, rating, now);
        }
        return Reply("error", Message("Database error: " + failure.value.text), 500);
      }
      var matched := key in docs;
      docs := Upsert(docs, key, rating, now);
      var message := if matched then "Rating updated successfully" else "Rating added successfully";
      r := Reply("success", Message(message), 200);
    }
  }
}
