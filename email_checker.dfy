/**
 * EmailCheckerService: the Redis bitmap of registered offsets, the check-then-register
 * protocol with its compensating bit clear, and the two bulk jobs (batched generation into
 * the store, paged reload of the bitmap from the store), run sequentially.
 */
module EmailChecker {
  import opened Outcomes
  import opened Users
  import opened Repository
  import opened Batching
  import opened OffsetEncoder

  /** Rows per `saveAll` in dumpUsersToPostgres. */
  const BATCH_SIZE: nat := 5000
  /** Number of users dumpUsersToPostgres generates, and the number its report states. */
  const NUM_USERS_TO_GENERATE: nat := 100_000_000
  /** Rows per page in loadUsersToRedis. */
  const PAGE_SIZE: nat := 1_000_000

  /** A SHA-256 digest: 32 bytes. */
  type Sha256Digest = d: seq<Byte> | |d| == 32 witness seq(32, _ => 0)

  /** SHA-256 of an email's UTF-8 bytes; `None` when the algorithm is unavailable. */
  type DigestFn = string -> Option<Sha256Digest>

  /** hashEmailToOffset(email). */
  function Offset(digest: DigestFn, email: string): int {
    DigestOffset(digest(email))
  }

  /** Redis GETBIT and SETBIT accept offsets from 0 to 2^32 - 1 and fail on any other. */
  predicate ValidBitOffset(offset: int) {
    0 <= offset < TWO_32
  }

  /** The only offset Redis refuses is the one `Math.abs` leaves negative. */
  lemma OffsetRefusedOnlyAtIntMin(digest: DigestFn, email: string)
    ensures !ValidBitOffset(Offset(digest, email)) <==> Offset(digest, email) == INT_MIN
  {
    match digest(email)
    case None =>
    case Some(d) => OffsetRange(d);
  }

  /** isEmailRegistered against the bitmap `bits` (the offsets whose bit is 1). */
  function Check(digest: DigestFn, bits: set<int>, email: string): Result<bool> {
    if email == "" then Ok(false)
    else
      var h := Offset(digest, email);
      if !ValidBitOffset(h) then Err(RedisOffsetOutOfRange) else Ok(h in bits)
  }

  /**
   * The empty email is refused without looking at the bitmap; any other email, blank ones
   * included, is answered by its bit alone.
   */
  lemma CheckReadsOnlyItsBit(digest: DigestFn, bits: set<int>, other: set<int>, email: string)
    ensures email == "" ==> Check(digest, bits, email) == Ok(false)
    ensures email != "" && ValidBitOffset(Offset(digest, email)) ==>
      (Check(digest, bits, email) == Ok(true) <==> Offset(digest, email) in bits)
    ensures (Offset(digest, email) in bits <==> Offset(digest, email) in other) ==>
      Check(digest, bits, email) == Check(digest, other, email)
  {
  }

  /** The bitmap and the users table together. */
  datatype Index = Index(bits: set<int>, table: Table)

  /** Every set bit belongs to a stored row. */
  ghost predicate IndexSound(s: Index) {
    s.bits <= Hashes(s.table.rows)
  }

  /** Every stored row has its bit set. */
  ghost predicate IndexComplete(s: Index) {
    Hashes(s.table.rows) <= s.bits
  }

  /** Every stored row carries the offset of its own email. */
  ghost predicate WellHashed(digest: DigestFn, rows: seq<UserEntity>) {
    forall i :: 0 <= i < |rows| ==> rows[i].emailHash == Offset(digest, rows[i].email)
  }

  /**
   * registerEmail: refuse the empty or already-registered email; otherwise set the bit,
   * save the row, and clear the bit again when the save hits a unique column.
   */
  function Register(digest: DigestFn, s: Index, email: string): (Index, Result<bool>) {
    if email == "" then (s, Ok(false))
    else
      match Check(digest, s.bits, email)
      case Err(e) => (s, Err(e))
      case Ok(true) => (s, Ok(false))
      case Ok(false) =>
        var h := Offset(digest, email);
        var (t, saved) := Insert(s.table, NewUser(email, h));
        if saved.Ok? then (Index(s.bits + {h}, t), Ok(true))
        else (Index((s.bits + {h}) - {h}, t), Ok(false))
  }

  /**
   * What registration does: it succeeds exactly when the email is non-empty, its bit is
   * clear and the row clashes with nothing; then it sets that one bit and appends that one
   * row. Every other outcome, the compensated conflict included, leaves bitmap and table
   * as they were; an error comes only from an offset Redis refuses.
   */
  lemma RegisterOutcome(digest: DigestFn, s: Index, email: string)
    requires TableValid(s.table)
    ensures var (s', r) := Register(digest, s, email);
      var h := Offset(digest, email);
      && (r == Ok(true) <==>
            email != "" && Check(digest, s.bits, email) == Ok(false)
            && !ClashesWithAny(s.table.rows, NewUser(email, h)))
      && (r == Ok(true) ==>
            h !in s.bits && s'.bits == s.bits + {h}
            && s'.table.rows == s.table.rows + [UserEntity(Some(s.table.nextId), email, h)])
      && (r != Ok(true) ==> s' == s)
      && (r.Err? <==> email != "" && !ValidBitOffset(h))
  {
    if email != "" && Check(digest, s.bits, email) == Ok(false) {
      var h := Offset(digest, email);
      InsertKeepsValid(s.table, NewUser(email, h));
      assert (s.bits + {h}) - {h} == s.bits;
    }
  }

  /** Register, then check: the email is reported as registered. */
  lemma RegisterThenCheck(digest: DigestFn, s: Index, email: string)
    requires Register(digest, s, email).1 == Ok(true)
    ensures Check(digest, Register(digest, s, email).0.bits, email) == Ok(true)
  {
  }

  /**
   * Once an email is registered, registering it again, or any email with the same
   * offset, returns false and changes nothing: the bit is not flipped back.
   */
  lemma RegisterAgainChangesNothing(digest: DigestFn, s: Index, email: string, other: string)
    requires Register(digest, s, email).1 == Ok(true)
    requires Offset(digest, other) == Offset(digest, email)
    ensures var s' := Register(digest, s, email).0;
      Register(digest, s', other) == (s', Ok(false))
  {
  }

  /** Registration keeps the table invariant and the rows' offsets their emails' own. */
  lemma RegisterKeepsTable(digest: DigestFn, s: Index, email: string)
    requires TableValid(s.table) && WellHashed(digest, s.table.rows)
    ensures TableValid(Register(digest, s, email).0.table)
    ensures WellHashed(digest, Register(digest, s, email).0.table.rows)
  {
    RegisterOutcome(digest, s, email);
    if email != "" && Check(digest, s.bits, email) == Ok(false) {
      InsertKeepsValid(s.table, NewUser(email, Offset(digest, email)));
    }
  }

  /** Registration keeps the bitmap in step with the table, both ways. */
  lemma RegisterKeepsIndex(digest: DigestFn, s: Index, email: string)
    requires TableValid(s.table)
    ensures IndexSound(s) ==> IndexSound(Register(digest, s, email).0)
    ensures IndexComplete(s) ==> IndexComplete(Register(digest, s, email).0)
  {
    RegisterOutcome(digest, s, email);
    var (s', r) := Register(digest, s, email);
    if r == Ok(true) {
      var h := Offset(digest, email);
      var added := [UserEntity(Some(s.table.nextId), email, h)];
      HashesAppend(s.table.rows, added);
      assert added[0].emailHash == h;
      assert Hashes(added) == {h};
    }
  }

  /**
   * With a complete bitmap over well-hashed rows, a clear bit means no row clashes, so
   * registration of a non-empty email with a clear bit always succeeds: the compensating
   * clear is reached only when the bitmap lags behind the table.
   */
  lemma NoConflictUnderCompleteIndex(digest: DigestFn, s: Index, email: string)
    requires TableValid(s.table) && WellHashed(digest, s.table.rows) && IndexComplete(s)
    requires email != "" && Check(digest, s.bits, email) == Ok(false)
    ensures Register(digest, s, email).1 == Ok(true)
  {
    var h := Offset(digest, email);
    var u := NewUser(email, h);
    forall i | 0 <= i < |s.table.rows|
      ensures !Clashes(s.table.rows[i], u)
    {
      assert s.table.rows[i].emailHash in Hashes(s.table.rows);
    }
    RegisterOutcome(digest, s, email);
  }

  /** The rows dumpUsersToPostgres builds from the generated emails, in generation order. */
  function Generated(digest: DigestFn, emails: seq<string>): (g: seq<UserEntity>)
    ensures |g| == |emails|
    ensures forall i :: 0 <= i < |emails| ==> g[i] == NewUser(emails[i], Offset(digest, emails[i]))
  {
    if emails == [] then []
    else [NewUser(emails[0], Offset(digest, emails[0]))] + Generated(digest, emails[1..])
  }

  /** The table after `saveAll` of each batch in turn; a failed batch is skipped. */
  function InsertBatches(t: Table, batches: seq<seq<UserEntity>>): Table
    decreases |batches|
  {
    if batches == [] then t
    else InsertAll(InsertBatches(t, batches[..|batches| - 1]), batches[|batches| - 1]).0
  }

  /**
   * Running the batches keeps the table invariant and never removes or changes a row
   * already stored, whichever batches fail.
   */
  lemma {:induction false} InsertBatchesKeepsValid(t: Table, batches: seq<seq<UserEntity>>)
    requires TableValid(t)
    ensures TableValid(InsertBatches(t, batches))
    ensures |t.rows| <= |InsertBatches(t, batches).rows|
    ensures InsertBatches(t, batches).rows[..|t.rows|] == t.rows
    decreases |batches|
  {
    if batches != [] {
      var before := InsertBatches(t, batches[..|batches| - 1]);
      InsertBatchesKeepsValid(t, batches[..|batches| - 1]);
      InsertAllKeepsValid(before, batches[|batches| - 1]);
      var after := InsertBatches(t, batches);
      assert after.rows[..|before.rows|] == before.rows;
      assert after.rows[..|t.rows|] == after.rows[..|before.rows|][..|t.rows|];
    }
  }

  /** One more batch saved after the others. */
  lemma InsertBatchesSnoc(t: Table, batches: seq<seq<UserEntity>>, batch: seq<UserEntity>, before: Table, after: Table)
    requires before == InsertBatches(t, batches) && after == InsertAll(before, batch).0
    ensures after == InsertBatches(t, batches + [batch])
  {
    assert (batches + [batch])[..|batches|] == batches;
  }

  /**
   * The generation loop's invariant after `i` rows: the batches handed to `saveAll` are
   * full and, followed by the pending batch, spell out the first `i` generated rows.
   */
  ghost predicate Batched(g: seq<UserEntity>, i: nat, batch: seq<UserEntity>, submitted: seq<seq<UserEntity>>) {
    && |batch| <= i <= |g|
    && |batch| < BATCH_SIZE
    && Flatten(submitted) == g[..i - |batch|]
    && batch == g[i - |batch|..i]
    && forall j :: 0 <= j < |submitted| ==> |submitted[j]| == BATCH_SIZE
  }

  /** Adding row `i` to the pending batch, and handing the batch over once it is full. */
  lemma BatchedAdd(g: seq<UserEntity>, i: nat, batch: seq<UserEntity>, submitted: seq<seq<UserEntity>>)
    requires Batched(g, i, batch, submitted) && i < |g|
    ensures var b := batch + [g[i]];
      if |b| == BATCH_SIZE then Batched(g, i + 1, [], submitted + [b])
      else Batched(g, i + 1, b, submitted)
  {
    var b := batch + [g[i]];
    SliceExtend(g, i - |batch|, i);
    if |b| == BATCH_SIZE {
      FlattenAppend(submitted, b);
      assert g[..i - |batch|] + b == g[..i + 1];
    }
  }

  /** After the last row, the batches handed over, the remainder last, are the chunks of the rows. */
  lemma BatchedDone(g: seq<UserEntity>, batch: seq<UserEntity>, submitted: seq<seq<UserEntity>>)
    requires Batched(g, |g|, batch, submitted)
    ensures (if batch == [] then submitted else submitted + [batch]) == Chunks(g, BATCH_SIZE)
  {
    var all := if batch == [] then submitted else submitted + [batch];
    FlattenAppend(submitted, batch);
    assert g[..|g| - |batch|] + batch == g;
    assert Flatten(all) == g;
    ChunksUnique(all, g, BATCH_SIZE);
  }

  /**
   * One round of the generation loop: the row joins the pending batch, and a batch that
   * reaches BATCH_SIZE is handed over and replaced by an empty one.
   */
  method AddRow(ghost g: seq<UserEntity>, ghost i: nat, batch: seq<UserEntity>, submitted: seq<seq<UserEntity>>,
                user: UserEntity)
    returns (batch': seq<UserEntity>, submitted': seq<seq<UserEntity>>)
    requires Batched(g, i, batch, submitted) && i < |g| && user == g[i]
    ensures Batched(g, i + 1, batch', submitted')
  {
    BatchedAdd(g, i, batch, submitted);
    batch' := batch + [user];
    submitted' := submitted;
    if |batch'| == BATCH_SIZE {
      var finalBatch := batch';
      submitted' := submitted' + [finalBatch];
      batch' := [];
    }
  }

  /**
   * The generation loop of dumpUsersToPostgres, with the generated emails as input: each
   * row goes into the pending batch, a full batch of BATCH_SIZE is handed over and a
   * fresh one started, and a non-empty remainder is handed over at the end.
   */
  method BatchUsers(digest: DigestFn, emails: seq<string>) returns (submitted: seq<seq<UserEntity>>)
    ensures submitted == Chunks(Generated(digest, emails), BATCH_SIZE)
  {
    ghost var g := Generated(digest, emails);
    var batch: seq<UserEntity> := [];
    submitted := [];
    var i := 0;
    while i < |emails|
      invariant i <= |emails|
      invariant Batched(g, i, batch, submitted)
    {
      var email := emails[i];
      var emailHash := Offset(digest, email);  // the value HashEmailToOffset computes
      batch, submitted := AddRow(g, i, batch, submitted, NewUser(email, emailHash));
      i := i + 1;
    }
    BatchedDone(g, batch, submitted);
    if |batch| > 0 {
      var finalBatch := batch;
      submitted := submitted + [finalBatch];
    }
  }

  /** Summary of dumpUsersToPostgres (the elapsed time is not modelled). */
  datatype DumpReport = Dumped(users: int)

  /** Summary of loadUsersToRedis (the elapsed time is not modelled). */
  datatype LoadReport = Loaded(hashes: int) | LoadFailed

  /** Index of the first row whose offset Redis refuses, or |rows| when there is none. */
  function FirstInvalid(rows: seq<UserEntity>): (k: nat)
    ensures k <= |rows|
    ensures forall i :: 0 <= i < k ==> ValidBitOffset(rows[i].emailHash)
    ensures k < |rows| ==> !ValidBitOffset(rows[k].emailHash)
  {
    if rows == [] then 0
    else if !ValidBitOffset(rows[0].emailHash) then 0
    else
      var k := 1 + FirstInvalid(rows[1..]);
      assert forall i :: 1 <= i < |rows| ==> rows[i] == rows[1..][i - 1];
      k
  }

  /** The row index where a sequential reload stops is the first refused offset. */
  lemma FirstInvalidUnique(rows: seq<UserEntity>, k: nat)
    requires k <= |rows|
    requires forall i :: 0 <= i < k ==> ValidBitOffset(rows[i].emailHash)
    requires k < |rows| ==> !ValidBitOffset(rows[k].emailHash)
    ensures FirstInvalid(rows) == k
  {
  }

  /**
   * The paging loop's invariant: the pages read so far are the chunks of the first `lo`
   * rows, all full while rows remain, and `counter` pages have been read.
   */
  ghost predicate PageLoop(rows: seq<UserEntity>, pages: seq<seq<UserEntity>>, lo: nat, counter: nat) {
    && lo <= |rows|
    && (lo == counter * PAGE_SIZE || (lo == |rows| && counter * PAGE_SIZE >= |rows|))
    && |pages| == counter
    && WellChunked(pages, PAGE_SIZE)
    && Flatten(pages) == rows[..lo]
    && (lo < |rows| ==> forall p :: 0 <= p < |pages| ==> |pages[p]| == PAGE_SIZE)
  }

  /** A non-empty page continues the chunks exactly where they stopped. */
  lemma PageLoopStep(rows: seq<UserEntity>, pages: seq<seq<UserEntity>>, lo: nat, counter: nat,
                     page: seq<UserEntity>)
    requires PageLoop(rows, pages, lo, counter)
    requires page == Page(rows, counter, PAGE_SIZE) && page != []
    ensures lo + |page| <= |rows| && page == rows[lo..lo + |page|]
    ensures PageLoop(rows, pages + [page], lo + |page|, counter + 1)
  {
    assert lo == counter * PAGE_SIZE;
    FlattenAppend(pages, page);
    assert rows[..lo] + page == rows[..lo + |page|];
  }

  /** At the empty page the chunks read are exactly the chunks of all the rows. */
  lemma PageLoopDone(rows: seq<UserEntity>, pages: seq<seq<UserEntity>>, lo: nat, counter: nat)
    requires PageLoop(rows, pages, lo, counter)
    requires Page(rows, counter, PAGE_SIZE) == []
    ensures lo == |rows| && pages == Chunks(rows, PAGE_SIZE)
  {
    assert rows[..lo] == rows;
    ChunksUnique(pages, rows, PAGE_SIZE);
  }

  /**
   * One page of the reload: the bits set so far cover the rows up to where the page
   * stopped, which is the table's first refused offset when the page stopped early.
   */
  lemma PageReloaded(rows: seq<UserEntity>, pages: seq<seq<UserEntity>>, lo: nat, counter: nat,
                     initial: set<int>, before: set<int>, page: seq<UserEntity>, k: nat, after: set<int>)
    requires PageLoop(rows, pages, lo, counter)
    requires FirstInvalid(rows) >= lo && before == initial + Hashes(rows[..lo])
    requires page == Page(rows, counter, PAGE_SIZE) && page != []
    requires k == FirstInvalid(page) && after == before + Hashes(page[..k])
    ensures k < |page| ==> after == initial + Hashes(rows[..FirstInvalid(rows)])
    ensures k == |page| ==> PageLoop(rows, pages + [page], lo + |page|, counter + 1)
    ensures k == |page| ==> FirstInvalid(rows) >= lo + |page|
    ensures k == |page| ==> after == initial + Hashes(rows[..lo + |page|])
  {
    PageLoopStep(rows, pages, lo, counter, page);
    PageHashes(rows, lo, page, k, initial, before, after);
    PageFirstInvalid(rows, lo, page, k);
  }

  /** The bits of the first `lo` rows and of the first `k` rows of the next page. */
  lemma PageHashes(rows: seq<UserEntity>, lo: nat, page: seq<UserEntity>, k: nat,
                   initial: set<int>, before: set<int>, after: set<int>)
    requires lo + |page| <= |rows| && page == rows[lo..lo + |page|] && k <= |page|
    requires before == initial + Hashes(rows[..lo]) && after == before + Hashes(page[..k])
    ensures after == initial + Hashes(rows[..lo + k])
  {
    HashesAppend(rows[..lo], page[..k]);
    assert rows[..lo] + page[..k] == rows[..lo + k];
  }

  /** Where the reload of one page stops, relative to the whole table. */
  lemma PageFirstInvalid(rows: seq<UserEntity>, lo: nat, page: seq<UserEntity>, k: nat)
    requires lo + |page| <= |rows| && page == rows[lo..lo + |page|]
    requires FirstInvalid(rows) >= lo && k == FirstInvalid(page)
    ensures k < |page| ==> FirstInvalid(rows) == lo + k
    ensures k == |page| ==> FirstInvalid(rows) >= lo + |page|
  {
    assert forall i :: lo <= i < lo + k ==> rows[i] == page[i - lo];
    if k < |page| {
      FirstInvalidUnique(rows, lo + k);
    }
  }

  /** At the empty page every row has been reloaded, and the pages read are the chunks of the rows. */
  lemma Reloaded(rows: seq<UserEntity>, pages: seq<seq<UserEntity>>, lo: nat, counter: nat,
                 initial: set<int>, bits: set<int>)
    requires PageLoop(rows, pages, lo, counter)
    requires FirstInvalid(rows) >= lo && bits == initial + Hashes(rows[..lo])
    requires Page(rows, counter, PAGE_SIZE) == []
    ensures FirstInvalid(rows) == |rows|
    ensures bits == initial + Hashes(rows[..FirstInvalid(rows)]) && Hashes(rows) <= bits
    ensures counter == |Chunks(rows, PAGE_SIZE)|
  {
    PageLoopDone(rows, pages, lo, counter);
    assert rows[..lo] == rows;
    FirstInvalidUnique(rows, |rows|);
  }

  /** The service, over its shared collaborators: the users table and the Redis bitmap. */
  class EmailCheckerService {
    const repo: UserRepository
    const digest: DigestFn
    /** The bitmap under key `registered_emails_hash`: the offsets whose bit is 1. */
    var bits: set<int>

    ghost predicate Valid()
      reads this, repo
    {
      repo.Valid()
    }

    constructor (repo: UserRepository, digest: DigestFn, bits: set<int>)
      requires repo.Valid()
      ensures Valid()
      ensures this.repo == repo && this.digest == digest && this.bits == bits
    {
      this.repo := repo;
      this.digest := digest;
      this.bits := bits;
    }

    /** isEmailRegistered: GETBIT at the email's offset, or false for the empty email. */
    method IsEmailRegistered(email: string) returns (r: Result<bool>)
      ensures r == Check(digest, bits, email)
    {
      if |email| == 0 {
        return Ok(false);
      }
      var emailHash := HashEmailToOffset(digest(email));
      if !ValidBitOffset(emailHash) {
        return Err(RedisOffsetOutOfRange);
      }
      var isSet := emailHash in bits;
      if isSet {
        return Ok(true);
      }
      return Ok(false);
    }

    /** registerEmail: check, set the bit, save; clear the bit again on a unique-column clash. */
    method RegisterEmail(email: string) returns (r: Result<bool>)
      requires Valid()
      modifies this, repo
      ensures Valid()
      ensures (Index(bits, repo.table), r) == Register(digest, Index(old(bits), old(repo.table)), email)
    {
      if |email| == 0 {
        return Ok(false);
      }
      var registered := IsEmailRegistered(email);
      if registered.Err? {
        return Err(registered.error);
      }
      if registered.value {
        return Ok(false);
      }
      var emailHash := HashEmailToOffset(digest(email));
      bits := bits + {emailHash};
      var saved := repo.Save(NewUser(email, emailHash));
      if saved.Ok? {
        return Ok(true);
      }
      bits := bits - {emailHash};
      return Ok(false);
    }

    /**
     * dumpUsersToPostgres, with the generated emails as input: rows go into a batch that
     * is saved whenever it reaches BATCH_SIZE, and the remainder is saved at the end. A
     * failed batch is skipped. The report always states NUM_USERS_TO_GENERATE.
     */
    method DumpUsersToPostgres(emails: seq<string>) returns (report: DumpReport, submitted: seq<seq<UserEntity>>)
      requires Valid()
      modifies repo
      ensures Valid()
      ensures submitted == Chunks(Generated(digest, emails), BATCH_SIZE)
      ensures repo.table == InsertBatches(old(repo.table), submitted)
      ensures report == Dumped(NUM_USERS_TO_GENERATE)
    {
      submitted := BatchUsers(digest, emails);
      SaveBatches(submitted);
      report := Dumped(NUM_USERS_TO_GENERATE);
    }

    /**
     * The executor's work in dumpUsersToPostgres, up to `awaitTermination`: each submitted
     * batch goes through `saveAll`, and a batch that fails is only logged.
     */
    method SaveBatches(batches: seq<seq<UserEntity>>)
      requires Valid()
      modifies repo
      ensures Valid()
      ensures repo.table == InsertBatches(old(repo.table), batches)
    {
      var k := 0;
      while k < |batches|
        invariant k <= |batches|
        invariant repo.Valid()
        invariant repo.table == InsertBatches(old(repo.table), batches[..k])
      {
        ghost var before := repo.table;
        var _ := repo.SaveAll(batches[k]);
        InsertBatchesSnoc(old(repo.table), batches[..k], batches[k], before, repo.table);
        assert batches[..k] + [batches[k]] == batches[..k + 1];
        k := k + 1;
      }
      assert batches[..k] == batches;
    }

    /**
     * The per-page `forEach` of loadUsersToRedis, taken in page order: set the bit of each
     * row's offset, stopping at the first offset Redis refuses. Returns how many bits were
     * set.
     */
    method SetPageBits(page: seq<UserEntity>) returns (k: nat)
      modifies this
      ensures k == FirstInvalid(page)
      ensures bits == old(bits) + Hashes(page[..k])
    {
      k := 0;
      while k < |page|
        invariant 0 <= k <= |page|
        invariant forall i :: 0 <= i < k ==> ValidBitOffset(page[i].emailHash)
        invariant bits == old(bits) + Hashes(page[..k])
      {
        var offset := page[k].emailHash;
        if !ValidBitOffset(offset) {
          FirstInvalidUnique(page, k);
          return;
        }
        bits := bits + {offset};
        HashesAppend(page[..k], [page[k]]);
        assert page[..k] + [page[k]] == page[..k + 1];
        k := k + 1;
      }
      FirstInvalidUnique(page, k);
    }

    /**
     * loadUsersToRedis: read pages 0, 1, 2, ... of PAGE_SIZE rows in id order until one is
     * empty, setting the bit of every row's offset; count PAGE_SIZE per page read. A bit
     * Redis refuses aborts the job with the error report.
     */
    method LoadUsersToRedis() returns (report: LoadReport)
      requires Valid()
      modifies this
      ensures old(bits) <= bits
      ensures bits == old(bits) + Hashes(repo.table.rows[..FirstInvalid(repo.table.rows)])
      ensures report.Loaded? <==> FirstInvalid(repo.table.rows) == |repo.table.rows|
      ensures report.Loaded? ==>
        report.hashes == PAGE_SIZE * |Chunks(repo.table.rows, PAGE_SIZE)|
        && Hashes(repo.table.rows) <= bits
    {
      var count := 0;
      var counter := 0;
      var pageSize := PAGE_SIZE;
      ghost var rows := repo.table.rows;
      ghost var lo := 0;
      ghost var pages: seq<seq<UserEntity>> := [];
      ghost var initial := bits;
      while true
        invariant rows == repo.table.rows
        invariant PageLoop(rows, pages, lo, counter)
        invariant FirstInvalid(rows) >= lo
        invariant bits == initial + Hashes(rows[..lo])
        invariant count == counter * pageSize
        decreases |rows| - lo
      {
        var page := repo.FindAll(counter, pageSize);
        if |page| == 0 {
          break;
        }
        ghost var before := bits;
        var stored := SetPageBits(page);
        PageReloaded(rows, pages, lo, counter, initial, before, page, stored, bits);
        if stored < |page| {
          return LoadFailed;
        }
        pages := pages + [page];
        lo := lo + |page|;
        counter := counter + 1;
        count := count + pageSize;
      }
      Reloaded(rows, pages, lo, counter, initial, bits);
      report := Loaded(count);
    }
  }
}
