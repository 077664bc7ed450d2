/**
 * The web app's `/api/summaries` route: POST validates a saved summary and fills in its
 * defaults before storing it; GET lists the stored summaries, newest first.
 */
module SummariesApi {
  import opened Common

  /** A JSON value as the route receives it (numbers are integers here). */
  datatype Json =
    | JNull
    | JBool(b: bool)
    | JNum(n: int)
    | JStr(s: string)
    | JArr(items: seq<Json>)
    | JObj(fields: map<string, Json>)

  /** JavaScript truthiness of a property that may be absent (`undefined`): `null`, `false`,
      `0` and `""` are falsy as well; every array and object, even an empty one, is truthy. */
  function Truthy(v: Option<Json>): (b: bool)
    ensures !b <==> v in {None, Some(JNull), Some(JBool(false)), Some(JNum(0)), Some(JStr(""))}
  {
    match v
    case None => false
    case Some(JNull) => false
    case Some(JBool(b)) => b
    case Some(JNum(n)) => n != 0
    case Some(JStr(s)) => s != ""
    case Some(JArr(_)) => true
    case Some(JObj(_)) => true
  }

  /** `body.key` on a value other than `null`: only objects have properties. */
  function Field(body: Json, key: string): (v: Option<Json>)
    ensures v.Some? <==> body.JObj? && key in body.fields
    ensures v.Some? ==> v.value == body.fields[key]
  {
    if body.JObj? && key in body.fields then Some(body.fields[key]) else None
  }

  /** `a || b` for a property that may be absent. */
  function Or(v: Option<Json>, fallback: Json): (r: Json)
    ensures Truthy(v) ==> r == v.value
    ensures !Truthy(v) ==> r == fallback
  {
    if Truthy(v) then v.value else fallback
  }

  /** The document handed to the store. */
  datatype Record = Record(url: Json, title: Json, summary: Json, kind: Json, tags: Json)

  /** What the route answers: the HTTP status, `success`, and the error text or the created
      record. */
  datatype Response = Response(status: nat, success: bool, error: Option<string>, data: Option<Record>)

  const MissingFields := "Missing required fields"
  const CreateFailed := "Failed to create summary"
  const FetchFailed := "Failed to fetch summaries"

  /** The record built from a body: `url`, `title` and `summary` as given, `type || 'brief'`
      and `tags || []`. */
  function NewRecord(body: Json): (rec: Record)
    requires body.JObj?
    ensures Field(body, "url").Some? ==> Some(rec.url) == Field(body, "url")
    ensures Field(body, "title").Some? ==> Some(rec.title) == Field(body, "title")
    ensures Field(body, "summary").Some? ==> Some(rec.summary) == Field(body, "summary")
    ensures Truthy(Field(body, "type")) ==> Some(rec.kind) == Field(body, "type")
    ensures !Truthy(Field(body, "type")) ==> rec.kind == JStr("brief")
    ensures Truthy(Field(body, "tags")) ==> Some(rec.tags) == Field(body, "tags")
    ensures !Truthy(Field(body, "tags")) ==> rec.tags == JArr([])
  {
    var url := Field(body, "url");
    var title := Field(body, "title");
    var summary := Field(body, "summary");
    Record(if url.Some? then url.value else JNull,
           if title.Some? then title.value else JNull,
           if summary.Some? then summary.value else JNull,
           Or(Field(body, "type"), JStr("brief")),
           Or(Field(body, "tags"), JArr([])))
  }

  /** `POST`: `connected` says whether the database connection came up, `body` is the parsed
      request body (`None` when it is not JSON), and `stores` says whether the store accepts
      a record. A failed connection, an unreadable or `null` body, or a rejected record gives
      500; a falsy `url`, `title` or `summary` gives 400; otherwise the stored record and 201. */
  function Post(connected: bool, body: Option<Json>, stores: Record -> bool): (r: Response)
    ensures r.status in {201, 400, 500}
    ensures r.success <==> r.status == 201
    ensures r.status == 500 ==> r.error == Some(CreateFailed) && r.data == None
    ensures r.status == 400 <==>
              connected && body.Some? && body.value != JNull
              && !(Truthy(Field(body.value, "url")) && Truthy(Field(body.value, "title"))
                   && Truthy(Field(body.value, "summary")))
    ensures r.status == 400 ==> r.error == Some(MissingFields) && r.data == None
    ensures r.status == 201 <==>
              connected && body.Some? && body.value.JObj?
              && Truthy(Field(body.value, "url")) && Truthy(Field(body.value, "title"))
              && Truthy(Field(body.value, "summary")) && stores(NewRecord(body.value))
    ensures r.status == 201 ==> r.error == None && r.data == Some(NewRecord(body.value))
  {
    if !connected || body.None? || body.value == JNull then
      Response(500, false, Some(CreateFailed), None)
    else
      var b := body.value;
      if !Truthy(Field(b, "url")) || !Truthy(Field(b, "title")) || !Truthy(Field(b, "summary")) then
        Response(400, false, Some(MissingFields), None)
      else if stores(NewRecord(b)) then
        Response(201, true, None, Some(NewRecord(b)))
      else
        Response(500, false, Some(CreateFailed), None)
  }

  /** A created record carries the body's `url`, `title` and `summary` unchanged; `type`
      defaults to "brief" and `tags` to `[]` exactly when they are absent or falsy. */
  lemma CreatedRecord(connected: bool, body: Option<Json>, stores: Record -> bool)
    requires Post(connected, body, stores).status == 201
    ensures var rec := Post(connected, body, stores).data.value;
            var b := body.value;
            Some(rec.url) == Field(b, "url") && Some(rec.title) == Field(b, "title")
            && Some(rec.summary) == Field(b, "summary")
            && (Truthy(Field(b, "type")) ==> Some(rec.kind) == Field(b, "type"))
            && (!Truthy(Field(b, "type")) ==> rec.kind == JStr("brief"))
            && (Truthy(Field(b, "tags")) ==> Some(rec.tags) == Field(b, "tags"))
            && (!Truthy(Field(b, "tags")) ==> rec.tags == JArr([]))
  {
  }

  /** An empty string counts as missing, exactly like an absent field. */
  lemma EmptyCountsAsMissing(fields: map<string, Json>, key: string, stores: Record -> bool)
    requires key in {"url", "title", "summary"}
    ensures Post(true, Some(JObj(fields[key := JStr("")])), stores).status == 400
    ensures Post(true, Some(JObj(fields - {key})), stores).status == 400
  {
    assert Field(JObj(fields[key := JStr("")]), key) == Some(JStr(""));
    assert Field(JObj(fields - {key}), key) == None;
  }

  // ---------------------------------------------------------------------------------------
  // Listing
  // ---------------------------------------------------------------------------------------

  /** A stored summary with its creation time. */
  datatype Stored = Stored(record: Record, createdAt: int)

  predicate NewestFirst(xs: seq<Stored>) {
    forall i, j :: 0 <= i < j < |xs| ==> xs[i].createdAt >= xs[j].createdAt
  }

  /** Puts `x` into a list that is newest first, after every strictly newer entry. */
  function Insert(x: Stored, xs: seq<Stored>): (r: seq<Stored>)
    requires NewestFirst(xs)
    ensures NewestFirst(r) && multiset(r) == multiset(xs) + multiset{x}
    decreases |xs|
  {
    if xs == [] || xs[0].createdAt <= x.createdAt then
      ConsNewest(x, xs);
      [x] + xs
    else
      var rest := Insert(x, xs[1..]);
      assert xs == [xs[0]] + xs[1..];
      NoNewerThan(xs[0], xs[1..], x, rest);
      ConsNewest(xs[0], rest);
      [xs[0]] + rest
  }

  lemma ConsNewest(y: Stored, xs: seq<Stored>)
    requires NewestFirst(xs) && forall i :: 0 <= i < |xs| ==> xs[i].createdAt <= y.createdAt
    ensures NewestFirst([y] + xs)
  {
    forall i, j | 0 <= i < j < |xs| + 1 ensures ([y] + xs)[i].createdAt >= ([y] + xs)[j].createdAt {
      assert ([y] + xs)[j] == xs[j - 1];
      if i > 0 { assert ([y] + xs)[i] == xs[i - 1]; }
    }
  }

  /** Nothing in a list holding the entries of `xs` and `x` is newer than `y` when none of
      those is. */
  lemma NoNewerThan(y: Stored, xs: seq<Stored>, x: Stored, r: seq<Stored>)
    requires multiset(r) == multiset(xs) + multiset{x}
    requires x.createdAt <= y.createdAt && forall i :: 0 <= i < |xs| ==> xs[i].createdAt <= y.createdAt
    ensures forall i :: 0 <= i < |r| ==> r[i].createdAt <= y.createdAt
  {
    forall i | 0 <= i < |r| ensures r[i].createdAt <= y.createdAt {
      assert r[i] in multiset(r);
      if r[i] != x {
        assert r[i] in multiset(xs);
        var j :| 0 <= j < |xs| && xs[j] == r[i];
      }
    }
  }

  /** `sort({ createdAt: -1 })`: the same summaries, newest first. */
  function SortNewestFirst(xs: seq<Stored>): (r: seq<Stored>)
    ensures NewestFirst(r) && multiset(r) == multiset(xs)
    decreases |xs|
  {
    if xs == [] then []
    else
      assert xs == [xs[0]] + xs[1..];
      Insert(xs[0], SortNewestFirst(xs[1..]))
  }

  /** What GET answers: the status, `success`, the error text, and the list. */
  datatype ListResponse = ListResponse(status: nat, success: bool, error: Option<string>, data: seq<Stored>)

  /** `GET`: all stored summaries newest first, or 500 when the database is unreachable. */
  function Get(connected: bool, db: seq<Stored>): (r: ListResponse)
    ensures r.success <==> connected
    ensures connected ==> r.status == 200 && r.error == None
                          && NewestFirst(r.data) && multiset(r.data) == multiset(db)
    ensures !connected ==> r.status == 500 && r.error == Some(FetchFailed) && r.data == []
  {
    if connected then ListResponse(200, true, None, SortNewestFirst(db))
    else ListResponse(500, false, Some(FetchFailed), [])
  }
}
