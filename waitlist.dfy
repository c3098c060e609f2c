/**
  The `POST /api/waitlist` handler (server.js:32-87) over an abstract waitlist
  table. The hosted table is a `Table` object whose rows the handler reads and
  extends; whether each of its three remote calls fails is a parameter, and so
  is the timestamp the handler would read from the clock.
 */
module Waitlist {
  import opened Wrappers
  import opened Text
  import opened EmailFormat

  /** A row of the `waitlist` table. */
  datatype Entry = Entry(id: nat, name: string, email: string, createdAt: string)

  /** The request body; an absent field is `None`. */
  datatype Request = Request(name: Option<string>, email: Option<string>)

  /** Which of the store's remote calls fail during one request. */
  datatype StoreFaults = StoreFaults(lookupFails: bool, insertFails: bool, countFails: bool)

  datatype Body =
    | Failure(error: string)
    | Joined(message: string, id: nat, name: string, position: nat)

  datatype Response = Response(status: nat, body: Body)

  const MissingFields := Response(400, Failure("Name and email are required"))
  const InvalidEmail := Response(400, Failure("Invalid email format"))
  const AlreadyRegistered := Response(409, Failure("Email already registered"))
  const SaveFailed := Response(500, Failure("Failed to save to database"))

  function Created(id: nat, name: string, position: nat): Response
  {
    Response(201, Joined("Successfully joined waitlist", id, name, position))
  }

  /** JavaScript truthiness of a string field: absent and "" are falsy. */
  predicate Present(field: Option<string>)
  {
    field.Some? && field.value != []
  }

  /** The rows whose email column equals `key`, in table order. */
  function Matching(rows: seq<Entry>, key: string): (r: seq<Entry>)
    ensures |r| <= |rows|
    ensures forall e :: e in r <==> e in rows && e.email == key
    ensures r == [] <==> forall e :: e in rows ==> e.email != key
  {
    if rows == [] then []
    else (if rows[0].email == key then [rows[0]] else []) + Matching(rows[1..], key)
  }

  /** At most one row per email: what the duplicate check aims to keep. */
  ghost predicate NoDuplicateEmails(rows: seq<Entry>)
  {
    forall i, j :: 0 <= i < j < |rows| ==> rows[i].email != rows[j].email
  }

  /** An email as the handler stores it: accepted by the format check and lower-case. */
  ghost predicate Normalised(email: string)
  {
    Matches(Email, email) && ToLower(email) == email
  }

  ghost predicate AllNormalised(rows: seq<Entry>)
  {
    forall e :: e in rows ==> Normalised(e.email)
  }

  /** The abstract `waitlist` table. */
  class Table {
    var rows: seq<Entry>
    var nextId: nat

    /** Every id was handed out by this table, in increasing order. */
    ghost predicate Valid()
      reads this
    {
      (forall i :: 0 <= i < |rows| ==> rows[i].id < nextId) &&
      (forall i, j :: 0 <= i < j < |rows| ==> rows[i].id < rows[j].id)
    }

    constructor ()
      ensures Valid() && rows == [] && nextId == 0
    {
      rows := [];
      nextId := 0;
    }

    /** `select('id').eq('email', key).single()`: the id of the one row with that
        email; no data when the call fails or when zero or several rows match. */
    method FindByEmail(key: string, outage: bool) returns (found: Option<nat>)
      ensures found.Some? <==> !outage && |Matching(rows, key)| == 1
      ensures found.Some? ==> exists e :: e in rows && e.email == key && e.id == found.value
    {
      var matching := Matching(rows, key);
      if !outage && |matching| == 1 {
        assert matching[0] in matching;
        found := Some(matching[0].id);
      } else {
        found := None;
      }
    }

    /** `insert([...]).select().single()`: the new row with a fresh id, or an error. */
    method Insert(name: string, email: string, createdAt: string, outage: bool) returns (r: Result<Entry>)
      requires Valid()
      modifies this
      ensures Valid()
      ensures outage ==> r.Err? && rows == old(rows) && nextId == old(nextId)
      ensures !outage ==> r == Ok(Entry(old(nextId), name, email, createdAt))
      ensures !outage ==> rows == old(rows) + [r.value] && nextId == old(nextId) + 1
      ensures forall e :: e in old(rows) ==> r.Ok? ==> e.id < r.value.id
    {
      if outage {
        r := Err("insert rejected by the store");
      } else {
        var entry := Entry(nextId, name, email, createdAt);
        rows := rows + [entry];
        nextId := nextId + 1;
        r := Ok(entry);
      }
    }

    /** `select('*', { count: 'exact', head: true })`: the number of rows, or no count. */
    method CountAll(outage: bool) returns (count: Option<nat>)
      ensures outage ==> count == None
      ensures !outage ==> count == Some(|rows|)
    {
      count := if outage then None else Some(|rows|);
    }
  }

  /** The presence check, then the format check: the 400 response, or `None`
      when the request may go on to the store. */
  function Validate(name: Option<string>, email: Option<string>): (r: Option<Response>)
    ensures !Present(name) || !Present(email) ==> r == Some(MissingFields)
    ensures Present(name) && Present(email) ==> (r == Some(InvalidEmail) <==> !WellFormedEmail(email.value))
    ensures r == None <==> Present(name) && Present(email) && WellFormedEmail(email.value)
  {
    if !Present(name) || !Present(email) then Some(MissingFields)
    else
      EmailRegexCharacterised(email.value);
      if Matches(Email, email.value) then None else Some(InvalidEmail)
  }

  /** `count || 1`: the count when there is one and it is not zero, else 1. */
  function Position(count: Option<nat>): (p: nat)
    ensures p >= 1
    ensures count.Some? && count.value > 0 ==> p == count.value
    ensures count.None? || count.value == 0 ==> p == 1
  {
    if count.Some? && count.value != 0 then count.value else 1
  }

  ghost predicate Accepted(req: Request)
  {
    Present(req.name) && Present(req.email) && WellFormedEmail(req.email.value)
  }

  /** The duplicate lookup returns a row. */
  ghost predicate LookupHits(rows: seq<Entry>, req: Request, faults: StoreFaults)
    requires Present(req.email)
  {
    !faults.lookupFails && |Matching(rows, ToLower(req.email.value))| == 1
  }

  /** With no duplicate emails, a key matches at most one row. */
  lemma {:induction false} AtMostOneMatch(rows: seq<Entry>, key: string)
    requires NoDuplicateEmails(rows)
    ensures |Matching(rows, key)| <= 1
  {
    if rows != [] {
      assert NoDuplicateEmails(rows[1..]) by {
        forall i, j | 0 <= i < j < |rows[1..]| ensures rows[1..][i].email != rows[1..][j].email {
          assert rows[1..][i] == rows[i + 1] && rows[1..][j] == rows[j + 1];
        }
      }
      AtMostOneMatch(rows[1..], key);
      if rows[0].email == key {
        forall e | e in rows[1..] ensures e.email != key {
          var j :| 0 <= j < |rows[1..]| && rows[1..][j] == e;
          assert rows[j + 1] == e;
        }
      }
    }
  }

  /** Row `i` is the one and only row whose email is `key`. */
  ghost predicate OnlyMatchAt(rows: seq<Entry>, key: string, i: int)
  {
    0 <= i < |rows| && rows[i].email == key &&
    forall j :: 0 <= j < |rows| && j != i ==> rows[j].email != key
  }

  /** The filter selects exactly one row exactly when one row, counted by
      position, has the key: what `single()` returns data for. */
  lemma {:induction false} SingleMatch(rows: seq<Entry>, key: string)
    ensures |Matching(rows, key)| == 1 <==> exists i :: OnlyMatchAt(rows, key, i)
  {
    if rows != [] {
      var tail := rows[1..];
      SingleMatch(tail, key);
      if rows[0].email == key {
        if |Matching(rows, key)| == 1 {
          assert Matching(tail, key) == [];
          forall j | 0 < j < |rows| ensures rows[j].email != key {
            assert rows[j] == tail[j - 1];
            assert rows[j] in tail;
          }
          assert OnlyMatchAt(rows, key, 0);
        }
        if exists i :: OnlyMatchAt(rows, key, i) {
          forall e | e in tail ensures e.email != key {
            var j :| 0 <= j < |tail| && tail[j] == e;
            assert rows[j + 1] == e;
          }
        }
      } else {
        assert |Matching(rows, key)| == |Matching(tail, key)|;
        if exists i :: OnlyMatchAt(tail, key, i) {
          var i :| OnlyMatchAt(tail, key, i);
          forall j | 0 <= j < |rows| && j != i + 1 ensures rows[j].email != key {
            if j > 0 { assert rows[j] == tail[j - 1]; }
          }
          assert OnlyMatchAt(rows, key, i + 1);
        }
        if exists i :: OnlyMatchAt(rows, key, i) {
          var i :| OnlyMatchAt(rows, key, i);
          forall j | 0 <= j < |tail| && j != i - 1 ensures tail[j].email != key {
            assert tail[j] == rows[j + 1];
          }
          assert OnlyMatchAt(tail, key, i - 1);
        }
      }
    }
  }

  /** Deduplication is by the lower-cased email: when the table holds a row for
      it and has no duplicates, the lookup's `single()` finds exactly that row. */
  lemma RegisteredEmailFound(rows: seq<Entry>, email: string)
    requires NoDuplicateEmails(rows)
    requires exists e :: e in rows && e.email == ToLower(email)
    ensures |Matching(rows, ToLower(email))| == 1
  {
  }

  /** Adding a row whose email no row has keeps emails unique. */
  lemma AppendFresh(rows: seq<Entry>, entry: Entry)
    requires NoDuplicateEmails(rows)
    requires |Matching(rows, entry.email)| == 0
    ensures NoDuplicateEmails(rows + [entry])
  {
  }

  /** Appending the row the handler builds keeps every stored email
      normalised, and keeps emails unique when the lookup worked. */
  lemma AppendKeepsInvariants(rows: seq<Entry>, entry: Entry, lookupFails: bool)
    requires Normalised(entry.email)
    requires !lookupFails ==> |Matching(rows, entry.email)| != 1
    ensures AllNormalised(rows) ==> AllNormalised(rows + [entry])
    ensures NoDuplicateEmails(rows) && !lookupFails ==> NoDuplicateEmails(rows + [entry])
  {
    if NoDuplicateEmails(rows) && !lookupFails {
      AtMostOneMatch(rows, entry.email);
      AppendFresh(rows, entry);
    }
  }

  /** What the handler stores for an accepted email is its lower-cased form,
      which is itself normalised. */
  lemma StoredEmail(email: string)
    requires WellFormedEmail(email)
    ensures Trim(ToLower(email)) == ToLower(email)
    ensures Normalised(ToLower(email))
  {
    EmailRegexCharacterised(email);
    AcceptedEmailIsTrimmed(email);
    LoweredEmailMatches(email);
    ToLowerIdempotent(email);
  }

  /** The handler. It answers 400, 409, 500 or 201 and changes the table only
      on 201, by appending exactly one row. */
  method Register(db: Table, req: Request, now: string, faults: StoreFaults) returns (resp: Response)
    requires db.Valid()
    modifies db
    ensures db.Valid()
    ensures !Present(req.name) || !Present(req.email) ==>
      resp == MissingFields && db.rows == old(db.rows)
    ensures Present(req.name) && Present(req.email) && !WellFormedEmail(req.email.value) ==>
      resp == InvalidEmail && db.rows == old(db.rows)
    ensures Accepted(req) && LookupHits(old(db.rows), req, faults) ==>
      resp == AlreadyRegistered && db.rows == old(db.rows)
    ensures Accepted(req) && !LookupHits(old(db.rows), req, faults) && faults.insertFails ==>
      resp == SaveFailed && db.rows == old(db.rows)
    ensures Accepted(req) && !LookupHits(old(db.rows), req, faults) && !faults.insertFails ==>
      var entry := Entry(old(db.nextId), Trim(req.name.value), ToLower(req.email.value), now);
      db.rows == old(db.rows) + [entry] &&
      resp == Created(entry.id, entry.name, if faults.countFails then 1 else |db.rows|)
    ensures resp.status == 201 || db.rows == old(db.rows)
    ensures db.nextId == if resp.status == 201 then old(db.nextId) + 1 else old(db.nextId)
    ensures resp.status == 201 ==> resp.body.Joined? && resp.body.position >= 1
    ensures NoDuplicateEmails(old(db.rows)) && !faults.lookupFails ==> NoDuplicateEmails(db.rows)
    ensures AllNormalised(old(db.rows)) ==> AllNormalised(db.rows)
  {
    var rejection := Validate(req.name, req.email);
    if rejection.Some? {
      return rejection.value;
    }
    var name, email := req.name.value, req.email.value;
    StoredEmail(email);

    var existing := db.FindByEmail(ToLower(email), faults.lookupFails);
    if existing.Some? {
      return AlreadyRegistered;
    }

    ghost var before := db.rows;
    var inserted := db.Insert(Trim(name), Trim(ToLower(email)), now, faults.insertFails);
    if inserted.Err? {
      return SaveFailed;
    }

    AppendKeepsInvariants(before, inserted.value, faults.lookupFails);

    var count := db.CountAll(faults.countFails);
    resp := Created(inserted.value.id, inserted.value.name, Position(count));
  }
}
