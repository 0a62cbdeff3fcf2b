/**
 * The `users` table behind UserRepository: single and batch inserts that honour the
 * unique `email` and `email_hash` columns, lookup by email, and pages ordered by id.
 */
module Repository {
  import opened Outcomes
  import opened Users

  /** The stored rows, in id order, and the identity the next insert receives. */
  datatype Table = Table(rows: seq<UserEntity>, nextId: int)

  /** Every row has an id below `nextId`, and ids grow along the sequence. */
  ghost predicate IdsAscending(t: Table) {
    && (forall i :: 0 <= i < |t.rows| ==> t.rows[i].id.Some? && t.rows[i].id.value < t.nextId)
    && (forall i, j :: 0 <= i < j < |t.rows| ==>
          t.rows[i].id.Some? && t.rows[j].id.Some? && t.rows[i].id.value < t.rows[j].id.value)
  }

  /** The table invariant: unique email, unique email hash, ids in ascending order. */
  ghost predicate TableValid(t: Table) {
    Distinct(t.rows) && IdsAscending(t)
  }

  /** The rows of a batch with consecutive ids from `first` on. */
  function Stamp(batch: seq<UserEntity>, first: int): seq<UserEntity> {
    seq(|batch|, i requires 0 <= i < |batch| => batch[i].(id := Some(first + i)))
  }

  /** `save(u)`: the row gets the next id, unless it clashes on a unique column. */
  function Insert(t: Table, u: UserEntity): (Table, Result<UserEntity>) {
    if ClashesWithAny(t.rows, u) then (t, Err(DuplicateKey))
    else
      var saved := u.(id := Some(t.nextId));
      (Table(t.rows + [saved], t.nextId + 1), Ok(saved))
  }

  /** `saveAll(batch)`, one transaction: every row of the batch is stored, or none is. */
  function InsertAll(t: Table, batch: seq<UserEntity>): (Table, bool) {
    if Distinct(t.rows + batch) then (Table(t.rows + Stamp(batch, t.nextId), t.nextId + |batch|), true)
    else (t, false)
  }

  /** `findByUserEmail`: the row with this email, if any. */
  function FindByEmail(rows: seq<UserEntity>, email: string): (r: Option<UserEntity>)
    ensures r.Some? ==> r.value in rows && r.value.email == email
    ensures r.None? <==> forall i :: 0 <= i < |rows| ==> rows[i].email != email
  {
    if rows == [] then None
    else if rows[0].email == email then Some(rows[0])
    else
      var r := FindByEmail(rows[1..], email);
      assert forall i :: 1 <= i < |rows| ==> rows[i] == rows[1..][i - 1];
      r
  }

  /** `findAll(PageRequest.of(page, size, ASC id))`: the rows from page * size on, at most size of them. */
  function Page(rows: seq<UserEntity>, page: nat, size: nat): seq<UserEntity> {
    var lo := if page * size < |rows| then page * size else |rows|;
    var hi := if lo + size < |rows| then lo + size else |rows|;
    rows[lo..hi]
  }

  /** Stamping a batch changes only ids, so it clashes exactly when the batch does. */
  lemma StampKeepsColumns(rows: seq<UserEntity>, batch: seq<UserEntity>, first: int)
    ensures Distinct(rows + Stamp(batch, first)) <==> Distinct(rows + batch)
  {
    var a, b := rows + Stamp(batch, first), rows + batch;
    assert |a| == |b|;
    assert forall i :: 0 <= i < |a| ==> a[i].email == b[i].email && a[i].emailHash == b[i].emailHash;
  }

  /** A single insert keeps the table invariant; it succeeds exactly when nothing clashes. */
  lemma InsertKeepsValid(t: Table, u: UserEntity)
    requires TableValid(t)
    ensures TableValid(Insert(t, u).0)
    ensures Insert(t, u).1.Ok? <==> !ClashesWithAny(t.rows, u)
    ensures Insert(t, u).1.Err? ==> Insert(t, u) == (t, Err(DuplicateKey))
  {
    if !ClashesWithAny(t.rows, u) {
      DistinctAppendOne(t.rows, u);
      var saved := u.(id := Some(t.nextId));
      DistinctAppendOne(t.rows, saved);
      assert !ClashesWithAny(t.rows, saved) by {
        forall i | 0 <= i < |t.rows| ensures !Clashes(t.rows[i], saved) {
          assert !Clashes(t.rows[i], u);
        }
      }
    }
  }

  /** A batch insert keeps the table invariant, and leaves the table alone when it fails. */
  lemma InsertAllKeepsValid(t: Table, batch: seq<UserEntity>)
    requires TableValid(t)
    ensures TableValid(InsertAll(t, batch).0)
    ensures !InsertAll(t, batch).1 ==> InsertAll(t, batch).0 == t
    ensures InsertAll(t, batch).1 ==> InsertAll(t, batch).0.rows[..|t.rows|] == t.rows
  {
    var (t', ok) := InsertAll(t, batch);
    if ok {
      StampKeepsColumns(t.rows, batch, t.nextId);
      var r := t'.rows;
      assert r == t.rows + Stamp(batch, t.nextId);
      assert r[..|t.rows|] == t.rows;
      forall i | 0 <= i < |r| ensures r[i].id.Some? && r[i].id.value < t'.nextId {
        if i >= |t.rows| {
          assert r[i].id == Some(t.nextId + (i - |t.rows|));
        }
      }
      forall i, j | 0 <= i < j < |r|
        ensures r[i].id.Some? && r[j].id.Some? && r[i].id.value < r[j].id.value
      {
        if j >= |t.rows| {
          assert r[j].id == Some(t.nextId + (j - |t.rows|));
          if i >= |t.rows| {
            assert r[i].id == Some(t.nextId + (i - |t.rows|));
          } else {
            assert r[i] == t.rows[i];
          }
        } else {
          assert r[i] == t.rows[i] && r[j] == t.rows[j];
        }
      }
    }
  }

  /** A single save is the one-row batch insert. */
  lemma InsertIsOneRowBatch(t: Table, u: UserEntity)
    requires TableValid(t)
    ensures Insert(t, u).0 == InsertAll(t, [u]).0
    ensures Insert(t, u).1.Ok? <==> InsertAll(t, [u]).1
  {
    DistinctAppendOne(t.rows, u);
    assert Stamp([u], t.nextId) == [u.(id := Some(t.nextId))];
  }

  /** After a successful save, looking the email up finds the saved row. */
  lemma InsertThenFind(t: Table, u: UserEntity)
    requires TableValid(t) && Insert(t, u).1.Ok?
    ensures FindByEmail(Insert(t, u).0.rows, u.email) == Some(Insert(t, u).1.value)
  {
    var (t', r) := Insert(t, u);
    InsertKeepsValid(t, u);
    var found := FindByEmail(t'.rows, u.email);
    assert t'.rows[|t.rows|] == r.value;
    assert found.Some?;
    var i :| 0 <= i < |t'.rows| && t'.rows[i] == found.value;
    if i < |t.rows| {
      assert false;
    }
  }

  /** The Postgres `users` table, as seen through UserRepository. */
  class UserRepository {
    var table: Table

    ghost predicate Valid()
      reads this
    {
      TableValid(table)
    }

    /** An empty table; the identity sequence starts at 1. */
    constructor ()
      ensures Valid() && table == Table([], 1)
    {
      table := Table([], 1);
    }

    /** `save`: insert one row or throw DataIntegrityViolationException. */
    method Save(u: UserEntity) returns (r: Result<UserEntity>)
      requires Valid()
      modifies this
      ensures Valid()
      ensures (table, r) == Insert(old(table), u)
    {
      InsertKeepsValid(table, u);
      var t;
      t, r := Insert(table, u).0, Insert(table, u).1;
      table := t;
    }

    /** `saveAll`: insert a batch in one transaction; `ok` is false when it was rolled back. */
    method SaveAll(batch: seq<UserEntity>) returns (ok: bool)
      requires Valid()
      modifies this
      ensures Valid()
      ensures (table, ok) == InsertAll(old(table), batch)
    {
      InsertAllKeepsValid(table, batch);
      var t;
      t, ok := InsertAll(table, batch).0, InsertAll(table, batch).1;
      table := t;
    }

    /** `findByUserEmail`. */
    method FindByUserEmail(email: string) returns (r: Option<UserEntity>)
      ensures r.Some? ==> r.value in table.rows && r.value.email == email
      ensures r.None? <==> forall i :: 0 <= i < |table.rows| ==> table.rows[i].email != email
      ensures r == FindByEmail(table.rows, email)
    {
      r := FindByEmail(table.rows, email);
    }

    /** `findAll(PageRequest.of(page, size, Sort.by(ASC, "id")))`. */
    method FindAll(page: nat, size: nat) returns (rows: seq<UserEntity>)
      requires Valid()
      ensures rows == Page(table.rows, page, size)
      ensures |rows| <= size
      ensures forall i, j :: 0 <= i < j < |rows| ==>
        rows[i].id.Some? && rows[j].id.Some? && rows[i].id.value < rows[j].id.value
    {
      rows := Page(table.rows, page, size);
    }
  }
}
