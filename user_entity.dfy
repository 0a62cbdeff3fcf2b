/** The `users` row (UserEntity) and the uniqueness rules the table enforces on it. */
module Users {
  import opened Outcomes

  /**
   * A user row: the store-assigned identity (absent until saved), the email and its
   * offset. The creation timestamp is not modelled.
   */
  datatype UserEntity = UserEntity(id: Option<int>, email: string, emailHash: int)

  /** `new UserEntity(email, emailHash)`: a row not yet saved, so without an id. */
  function NewUser(email: string, emailHash: int): (u: UserEntity)
    ensures u.id.None? && u.email == email && u.emailHash == emailHash
  {
    UserEntity(None, email, emailHash)
  }

  /** Two rows that the unique `email` or `email_hash` column forbids side by side. */
  predicate Clashes(a: UserEntity, b: UserEntity) {
    a.email == b.email || a.emailHash == b.emailHash
  }

  /** Inserting `u` next to `rows` violates a unique column. */
  predicate ClashesWithAny(rows: seq<UserEntity>, u: UserEntity) {
    exists i :: 0 <= i < |rows| && Clashes(rows[i], u)
  }

  /** No two rows share an email or an email hash. */
  predicate Distinct(rows: seq<UserEntity>) {
    forall i, j :: 0 <= i < j < |rows| ==> !Clashes(rows[i], rows[j])
  }

  /** A single insert is the one-row case of the uniqueness rule. */
  lemma DistinctAppendOne(rows: seq<UserEntity>, u: UserEntity)
    requires Distinct(rows)
    ensures Distinct(rows + [u]) <==> !ClashesWithAny(rows, u)
  {
    var r := rows + [u];
    if !ClashesWithAny(rows, u) {
      forall i, j | 0 <= i < j < |r| ensures !Clashes(r[i], r[j]) {
        if j == |rows| {
          assert r[i] == rows[i] && r[j] == u;
        } else {
          assert r[i] == rows[i] && r[j] == rows[j];
        }
      }
    } else {
      var i :| 0 <= i < |rows| && Clashes(rows[i], u);
      assert r[i] == rows[i] && r[|rows|] == u;
    }
  }

  /** The set of offsets stored in `rows`. */
  function Hashes(rows: seq<UserEntity>): set<int> {
    set i | 0 <= i < |rows| :: rows[i].emailHash
  }

  /** Offsets of a concatenation. */
  lemma HashesAppend(a: seq<UserEntity>, b: seq<UserEntity>)
    ensures Hashes(a + b) == Hashes(a) + Hashes(b)
  {
    var ab := a + b;
    forall h | h in Hashes(ab) ensures h in Hashes(a) + Hashes(b) {
      var i :| 0 <= i < |ab| && ab[i].emailHash == h;
      if i >= |a| {
        assert b[i - |a|].emailHash == h;
      }
    }
    forall h | h in Hashes(a) + Hashes(b) ensures h in Hashes(ab) {
      if h in Hashes(b) {
        var i :| 0 <= i < |b| && b[i].emailHash == h;
        assert ab[|a| + i].emailHash == h;
      } else {
        var i :| 0 <= i < |a| && a[i].emailHash == h;
        assert ab[i].emailHash == h;
      }
    }
  }
}
