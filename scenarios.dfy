/**
  Clients of the handler: short request sequences against a fresh table,
  with what the handler's contract lets a caller conclude about each.
 */
module Scenarios {
  import opened Wrappers
  import opened Text
  import opened EmailFormat
  import opened Waitlist

  /** The first sign-up on an empty table is stored normalised and gets
      position 1, whether or not the count call works. */
  method FirstSignup(name: string, email: string, now: string, faults: StoreFaults)
    returns (resp: Response, rows: seq<Entry>)
    requires name != [] && WellFormedEmail(email) && !faults.insertFails
    ensures resp == Created(0, Trim(name), 1)
    ensures rows == [Entry(0, Trim(name), ToLower(email), now)]
  {
    var db := new Table();
    resp := Register(db, Request(Some(name), Some(email)), now, faults);
    rows := db.rows;
  }

  /** Signing up again with the same email, in any letter case, is refused
      with 409 and adds nothing, as long as the lookup call works. */
  method RepeatSignup(name: string, email: string, again: string, now: string, first: StoreFaults, second: StoreFaults)
    returns (resp: Response, rows: seq<Entry>)
    requires name != [] && WellFormedEmail(email) && WellFormedEmail(again)
    requires ToLower(again) == ToLower(email)
    requires !first.insertFails && !second.lookupFails
    ensures resp == AlreadyRegistered
    ensures |rows| == 1 && rows[0].email == ToLower(email)
  {
    var db := new Table();
    var _ := Register(db, Request(Some(name), Some(email)), now, first);
    assert Matching(db.rows, ToLower(again)) == db.rows;
    resp := Register(db, Request(Some(name), Some(again)), now, second);
    rows := db.rows;
  }

  /** Deduplication for every table and request: when the table holds no
      duplicate emails and already has a row for the lower-cased email, an
      accepted request is refused with 409 and nothing is inserted. */
  method RegisteredIsRefused(db: Table, req: Request, now: string, faults: StoreFaults)
    returns (resp: Response)
    requires db.Valid() && Accepted(req) && !faults.lookupFails
    requires NoDuplicateEmails(db.rows)
    requires exists e :: e in db.rows && e.email == ToLower(req.email.value)
    modifies db
    ensures resp == AlreadyRegistered
    ensures db.rows == old(db.rows) && db.nextId == old(db.nextId)
  {
    RegisteredEmailFound(db.rows, req.email.value);
    resp := Register(db, req, now, faults);
  }

  /** A lookup call that fails reads as "not registered": the same email is
      stored a second time. */
  method LookupOutageDuplicates(name: string, email: string, now: string)
    returns (resp: Response, rows: seq<Entry>)
    requires name != [] && WellFormedEmail(email)
    ensures resp == Created(1, Trim(name), 2)
    ensures |rows| == 2 && rows[0].email == rows[1].email
    ensures !NoDuplicateEmails(rows)
  {
    var db := new Table();
    var _ := Register(db, Request(Some(name), Some(email)), now, StoreFaults(false, false, false));
    resp := Register(db, Request(Some(name), Some(email)), now, StoreFaults(true, false, false));
    rows := db.rows;
  }

  /** A name of only whitespace passes the presence check and is stored empty. */
  method BlankName(email: string, now: string)
    returns (resp: Response, rows: seq<Entry>)
    requires WellFormedEmail(email)
    ensures resp == Created(0, "", 1)
    ensures rows == [Entry(0, "", ToLower(email), now)]
  {
    TrimAllSpace(" ");
    var db := new Table();
    resp := Register(db, Request(Some(" "), Some(email)), now, StoreFaults(false, false, false));
    rows := db.rows;
  }

  /** An email with a trailing space is refused by the format check: it is
      never trimmed into an accepted one. */
  lemma PaddedEmailRejected()
    ensures Validate(Some("Ada Lovelace"), Some("ADA@Example.COM ")) == Some(InvalidEmail)
  {
    var email := "ADA@Example.COM ";
    assert IsSpace(email[|email| - 1]);
  }

  lemma AdaEmailAccepted()
    ensures WellFormedEmail("ADA@Example.COM")
  {
    ShapeIsWellFormed("ADA", "Example", "COM");
    assert "ADA" + ['@'] + "Example" + ['.'] + "COM" == "ADA@Example.COM";
  }

  lemma AdaEmailLowered()
    ensures ToLower("ADA@Example.COM") == "ada@example.com"
  {
  }

  /** The same address without the padding is stored lower-cased. */
  method AdaJoins(now: string) returns (resp: Response, rows: seq<Entry>)
    ensures resp == Created(0, "Ada Lovelace", 1)
    ensures rows == [Entry(0, "Ada Lovelace", "ada@example.com", now)]
  {
    AdaEmailAccepted();
    AdaEmailLowered();
    TrimUnpadded("Ada Lovelace");
    resp, rows := FirstSignup("Ada Lovelace", "ADA@Example.COM", now, StoreFaults(false, false, false));
  }
}
