/**
 * The enrollment service: a duplicate-email check followed by one insert
 * into the `enrollments` table, and a lookup by id. The hosted store is
 * replaced by an in-memory table held by the service object; store and
 * transport failures are passed in as parameters.
 */
module Enrollments {
  import opened Wrappers
  import opened Schema

  /**
   * A value the service throws: an `Error` instance, or any other value
   * (for instance a plain error object reported by the store).
   */
  datatype Thrown = Error(message: string) | NotAnError(message: string)

  const DuplicateEmailMessage: string := "An enrollment with this email already exists"

  /** The argument of `createAmbassadorEnrollment`; its `type` is always 'ambassador'. */
  datatype AmbassadorRequest = AmbassadorRequest(
    firstName: string,
    lastName: string,
    email: string,
    phone: Option<string>,
    church: Option<string>,
    commitments: seq<string>)

  /** The object handed to `insert`: it carries neither `status` nor `commitments`. */
  datatype InsertPayload = InsertPayload(
    kind: EnrollmentType,
    firstName: string,
    lastName: string,
    email: string,
    phone: Option<string>,
    church: Option<string>,
    commitmentsAccepted: bool)

  /** The values the store gives the columns an insert leaves out. */
  datatype StoreDefaults = StoreDefaults(status: Status, commitments: seq<string>)

  /** No label appears twice in the list. */
  predicate NoDuplicates(cs: seq<string>)
  {
    forall i, j :: 0 <= i < j < |cs| ==> cs[i] != cs[j]
  }

  lemma {:induction false} DistinctCount(cs: seq<string>)
    requires NoDuplicates(cs)
    ensures |set x | x in cs| == |cs|
    decreases |cs|
  {
    if cs != [] {
      var init := cs[..|cs| - 1];
      assert NoDuplicates(init);
      DistinctCount(init);
      assert (set x | x in cs) == (set x | x in init) + {cs[|cs| - 1]};
      assert cs[|cs| - 1] !in init;
    }
  }

  /**
   * `commitments_accepted`: a count of the submitted labels, not a check of
   * which they are. On a list without repeats it holds exactly when the list
   * names four distinct labels, whatever those labels are.
   */
  function CommitmentsAccepted(commitments: seq<string>): (accepted: bool)
    ensures NoDuplicates(commitments) ==> (accepted <==> |set x | x in commitments| == 4)
  {
    if NoDuplicates(commitments) then
      DistinctCount(commitments); |commitments| == 4
    else
      |commitments| == 4
  }

  function PayloadOf(req: AmbassadorRequest): InsertPayload
  {
    InsertPayload(Ambassador, req.firstName, req.lastName, req.email, req.phone, req.church,
                  CommitmentsAccepted(req.commitments))
  }

  /** The row the store materialises from a payload, with its own id, timestamp and defaults. */
  function Stored(p: InsertPayload, id: nat, createdAt: string, defaults: StoreDefaults): Row
  {
    Row(id, createdAt, p.kind, p.firstName, p.lastName, p.email, p.phone, p.church,
        defaults.status, p.commitmentsAccepted, defaults.commitments)
  }

  /** The row a successful `createAmbassadorEnrollment` stores and returns. */
  function NewRow(req: AmbassadorRequest, id: nat, createdAt: string, defaults: StoreDefaults): (row: Row)
    ensures row.id == id && row.createdAt == createdAt && row.kind == Ambassador
    ensures row.firstName == req.firstName && row.lastName == req.lastName && row.email == req.email
    ensures row.phone == req.phone && row.church == req.church
    ensures row.commitmentsAccepted <==> |req.commitments| == 4
    ensures row.status == defaults.status && row.commitments == defaults.commitments
  {
    Stored(PayloadOf(req), id, createdAt, defaults)
  }

  /** An `.eq(column, value)` condition of a query. */
  datatype Filter = EmailEq(email: string) | IdEq(id: nat)

  predicate Matches(row: Row, f: Filter)
  {
    match f
    case EmailEq(email) => row.email == email
    case IdEq(id) => row.id == id
  }

  /** The rows a query with condition `f` selects, in table order. */
  function Select(rows: seq<Row>, f: Filter): (r: seq<Row>)
    ensures |r| <= |rows|
    ensures forall row :: row in r <==> row in rows && Matches(row, f)
  {
    if rows == [] then []
    else
      var last := rows[|rows| - 1];
      Select(rows[..|rows| - 1], f) + (if Matches(last, f) then [last] else [])
  }

  /**
   * The `data` of `select('id').eq('email', email).single()`: the id of the
   * one matching row, or nothing when the store fails, no row matches or
   * several rows match (`single` reports an error in the last two cases, and
   * the service discards that error).
   */
  function ExistingId(rows: seq<Row>, email: string, fault: Option<Thrown>): (r: Option<nat>)
    ensures r.Some? ==> fault.None? && exists row :: row in rows && row.email == email && row.id == r.value
  {
    if fault.Some? then None
    else
      var matches := Select(rows, EmailEq(email));
      if |matches| == 1 then (assert matches[0] in matches; Some(matches[0].id)) else None
  }

  /** No two rows share an email: what the duplicate check aims at. */
  predicate UniqueEmails(rows: seq<Row>)
  {
    forall i, j :: 0 <= i < j < |rows| ==> rows[i].email != rows[j].email
  }

  /** Store-assigned ids number the rows in insertion order. */
  predicate IdsAreIndexes(rows: seq<Row>)
  {
    forall i :: 0 <= i < |rows| ==> rows[i].id == i
  }

  lemma {:induction false} NoMatches(rows: seq<Row>, email: string)
    requires forall row :: row in rows ==> row.email != email
    ensures Select(rows, EmailEq(email)) == []
    decreases |rows|
  {
    if rows != [] {
      var init := rows[..|rows| - 1];
      assert forall row :: row in init ==> row in rows;
      NoMatches(init, email);
    }
  }

  lemma {:induction false} UniqueAtMostOne(rows: seq<Row>, email: string)
    requires UniqueEmails(rows)
    ensures |Select(rows, EmailEq(email))| <= 1
    decreases |rows|
  {
    if rows != [] {
      var init := rows[..|rows| - 1];
      assert UniqueEmails(init);
      UniqueAtMostOne(init, email);
      if rows[|rows| - 1].email == email {
        forall row | row in init ensures row.email != email {
          var i :| 0 <= i < |init| && init[i] == row;
          assert rows[i] == row;
        }
        NoMatches(init, email);
      }
    }
  }

  /** Over a table with unique emails, the check refuses exactly the emails already stored. */
  lemma DuplicateCheckExact(rows: seq<Row>, email: string)
    requires UniqueEmails(rows)
    ensures ExistingId(rows, email, None).Some? <==> exists row :: row in rows && row.email == email
  {
    UniqueAtMostOne(rows, email);
    if row :| row in rows && row.email == email {
      assert row in Select(rows, EmailEq(email));
    }
  }

  /** Appending the row of a request that passed the check keeps emails unique. */
  lemma CreateKeepsEmailsUnique(rows: seq<Row>, req: AmbassadorRequest, id: nat, createdAt: string, defaults: StoreDefaults)
    requires UniqueEmails(rows)
    requires ExistingId(rows, req.email, None).None?
    ensures UniqueEmails(rows + [NewRow(req, id, createdAt, defaults)])
  {
    DuplicateCheckExact(rows, req.email);
    var rows' := rows + [NewRow(req, id, createdAt, defaults)];
    forall i, j | 0 <= i < j < |rows'| ensures rows'[i].email != rows'[j].email {
      if j == |rows| {
        assert rows'[i] == rows[i] && rows[i] in rows;
      }
    }
  }

  /** A failed lookup reads as "no such email", so a stored email can be inserted again. */
  lemma FailedLookupAdmitsDuplicate(rows: seq<Row>, req: AmbassadorRequest, fault: Thrown, createdAt: string, defaults: StoreDefaults)
    requires exists row :: row in rows && row.email == req.email
    ensures ExistingId(rows, req.email, Some(fault)).None?
    ensures !UniqueEmails(rows + [NewRow(req, |rows|, createdAt, defaults)])
  {
    var row :| row in rows && row.email == req.email;
    var i :| 0 <= i < |rows| && rows[i] == row;
    var rows' := rows + [NewRow(req, |rows|, createdAt, defaults)];
    assert rows'[i].email == rows'[|rows|].email;
  }

  lemma {:induction false} SelectConcat(a: seq<Row>, b: seq<Row>, f: Filter)
    ensures Select(a + b, f) == Select(a, f) + Select(b, f)
    decreases |b|
  {
    if b == [] {
      assert a + b == a;
    } else {
      var init := b[..|b| - 1];
      assert (a + b)[..|a + b| - 1] == a + init;
      assert (a + b)[|a + b| - 1] == b[|b| - 1];
      SelectConcat(a, init, f);
    }
  }

  /**
   * Once two rows share an email (the unguarded race between two
   * submissions), `single` no longer finds one row and the check lets that
   * email through again.
   */
  lemma SharedEmailNotRefused(rows: seq<Row>, i: nat, j: nat)
    requires i < j < |rows| && rows[i].email == rows[j].email
    ensures ExistingId(rows, rows[i].email, None).None?
  {
    var email := rows[i].email;
    var front, back := rows[..j], rows[j..];
    assert rows == front + back;
    SelectConcat(front, back, EmailEq(email));
    assert front[i] in front && back[0] in back;
    assert front[i] in Select(front, EmailEq(email)) && back[0] in Select(back, EmailEq(email));
  }

  lemma {:induction false} SelectIdOfIndexedRows(rows: seq<Row>, id: nat)
    requires IdsAreIndexes(rows)
    ensures Select(rows, IdEq(id)) == if id < |rows| then [rows[id]] else []
    decreases |rows|
  {
    if rows != [] {
      var init := rows[..|rows| - 1];
      assert IdsAreIndexes(init);
      SelectIdOfIndexedRows(init, id);
    }
  }

  /**
   * The `EnrollmentService` together with the one table it talks to. The
   * table's rows, the next id the store will assign and the number of inserts
   * performed are fields; the store's column defaults and the error `single`
   * reports when it does not find exactly one row are fixed at construction.
   */
  class EnrollmentService {
    var rows: seq<Row>
    var nextId: nat
    var writes: nat
    const defaults: StoreDefaults
    const singleRowError: Thrown

    ghost predicate Valid()
      reads this
    {
      nextId == |rows| && IdsAreIndexes(rows)
    }

    constructor (defaults: StoreDefaults, singleRowError: Thrown)
      ensures Valid()
      ensures rows == [] && writes == 0
      ensures this.defaults == defaults && this.singleRowError == singleRowError
    {
      rows := [];
      nextId := 0;
      writes := 0;
      this.defaults := defaults;
      this.singleRowError := singleRowError;
    }

    /**
     * The store's `insert(...).select().single()`: on a reported failure
     * nothing is written; otherwise one row is appended and returned.
     */
    method Insert(p: InsertPayload, fault: Option<Thrown>, createdAt: string) returns (r: Result<Row, Thrown>)
      requires Valid()
      modifies this
      ensures Valid()
      ensures fault.Some? ==> r == Failure(fault.value) && rows == old(rows) && writes == old(writes)
      ensures fault.None? ==> r == Success(Stored(p, old(nextId), createdAt, defaults))
      ensures fault.None? ==> rows == old(rows) + [r.value] && writes == old(writes) + 1
    {
      if fault.Some? {
        return Failure(fault.value);
      }
      var row := Stored(p, nextId, createdAt, defaults);
      rows := rows + [row];
      nextId := nextId + 1;
      writes := writes + 1;
      r := Success(row);
    }

    /**
     * `createAmbassadorEnrollment`: refuse a request whose email the lookup
     * finds, otherwise insert one row and return it, re-throwing whatever
     * the insert reports.
     */
    method CreateAmbassadorEnrollment(req: AmbassadorRequest, lookupFault: Option<Thrown>,
                                      insertFault: Option<Thrown>, createdAt: string)
      returns (r: Result<Row, Thrown>)
      requires Valid()
      modifies this
      ensures Valid()
      ensures ExistingId(old(rows), req.email, lookupFault).Some? ==>
        r == Failure(Error(DuplicateEmailMessage)) && rows == old(rows) && writes == old(writes)
      ensures ExistingId(old(rows), req.email, lookupFault).None? && insertFault.Some? ==>
        r == Failure(insertFault.value) && rows == old(rows) && writes == old(writes)
      ensures ExistingId(old(rows), req.email, lookupFault).None? && insertFault.None? ==>
        r == Success(NewRow(req, |old(rows)|, createdAt, defaults)) &&
        rows == old(rows) + [r.value] && writes == old(writes) + 1
      ensures r.Success? ==> GetEnrollmentById(r.value.id, None) == Success(r.value)
      ensures lookupFault.None? && UniqueEmails(old(rows)) ==> UniqueEmails(rows)
    {
      var existing := ExistingId(rows, req.email, lookupFault);
      if existing.Some? {
        return Failure(Error(DuplicateEmailMessage));
      }
      if lookupFault.None? && UniqueEmails(rows) {
        CreateKeepsEmailsUnique(rows, req, nextId, createdAt, defaults);
      }
      r := Insert(PayloadOf(req), insertFault, createdAt);
      if r.Success? {
        SelectIdOfIndexedRows(rows, r.value.id);
      }
    }

    /** `getEnrollmentById`: the row with that id, or the error the store reports. */
    function GetEnrollmentById(id: nat, fault: Option<Thrown>): (r: Result<Row, Thrown>)
      reads this
      requires Valid()
      ensures fault.Some? ==> r == Failure(fault.value)
      ensures fault.None? && id < |rows| ==> r == Success(rows[id])
      ensures fault.None? && id >= |rows| ==> r == Failure(singleRowError)
      ensures r.Success? ==> r.value in rows && r.value.id == id
    {
      SelectIdOfIndexedRows(rows, id);
      if fault.Some? then Failure(fault.value)
      else
        var matches := Select(rows, IdEq(id));
        if |matches| == 1 then Success(matches[0]) else Failure(singleRowError)
    }
  }
}
