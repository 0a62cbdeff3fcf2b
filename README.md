# Email registration bitmap and profile cache, modelled in Dafny

This project models the core of a Spring Boot service. The service answers "is this email
registered?" from a Redis bitmap and caches user profiles in Redis in front of a
Postgres `users` table. Redis and Postgres are replaced by abstract state:

- the bitmap under `registered_emails_hash` is a `set<int>` of offsets whose bit is 1;
- the `users` table is a `Table` value, a sequence of rows in id order plus the next id;
- the profile cache is a `map<string, Payload>`;
- `emailLocks` is a `map<string, bool>` (lock held or free).

Modules, one file each:

- `Outcomes` (outcomes.dfy): `Option`, `Result` and the exceptions that reach a caller.
- `Users` (user_entity.dfy): the `UserEntity` row and the uniqueness rule of its `email`
  and `email_hash` columns.
- `Repository` (user_repository.dfy): the `users` table behind `UserRepository`.
  - `save` and `saveAll` refuse a row that repeats a unique column; `saveAll` is all or nothing.
  - Also modelled: lookup by email and `findAll` with a page request sorted by id.
- `Batching` (chunks.dfy): cutting a sequence into fixed-size pieces. Both the batches of
  the dump and the pages of the reload are such pieces.
- `OffsetEncoder` (offset_encoder.dfy): `hashEmailToOffset` from the digest onwards.
  - Exact 32-bit packing on `bv32`.
  - Java's `Math.abs`, under which `Integer.MIN_VALUE` stays negative.
- `EmailChecker` (email_checker.dfy): the functions and lemmas below, and the class
  `EmailCheckerService`.
  - `isEmailRegistered`.
  - `registerEmail`: check, set the bit, save the row, clear the bit again on a conflict.
  - The batching loop of `dumpUsersToPostgres`, run sequentially.
  - The paging loop of `loadUsersToRedis`, run sequentially.
- `ProfileCache` (user_service.dfy): `findUser`, `findUserFromDatabaseWithLock` and
  `findUserFromDatabase` of `UserService`, over the cache, the lock map and the
  thread's interrupt flag.

Each method of the two service classes is proved equal to a specification function of
the old state and the inputs. The properties are then proved as lemmas about those
functions. The same applies to the repository methods.

A Redis bit offset must lie in [0, 2^32). The one offset `hashEmailToOffset` can produce
outside that range is -2^31, for a digest beginning `00 00 00 80`. Redis refuses it, and
the model carries that refusal as the error `RedisOffsetOutOfRange`:

- `isEmailRegistered` and `registerEmail` propagate it;
- `loadUsersToRedis` turns it into its error report.

The timing of `tryLock(1, SECONDS)` is an input: a schedule of attempts.

- Each attempt ends `Acquired`, `TimedOut` or `Interrupted`.
- Each attempt carries the cache writes other threads made while this thread waited.
- The retry after a timeout consumes one attempt, which bounds the recursion.
- A lookup whose schedule runs out while it is still retrying returns `Pending`.

## Model

All source paths are under `src/main/java/com/spring/concurency/springconcurency/`; the
table writes them out in full.

| member | source | states |
|---|---|---|
| OffsetEncoder.HashEmailToOffset | src/main/java/com/spring/concurency/springconcurency/EmailCheckerService.java:153-167 | The packing loop and `Math.abs` compute `DigestOffset` of the digest, a Java `int`; a missing SHA-256 algorithm yields 0 |
| OffsetEncoder.LaneIsShift | src/main/java/com/spring/concurency/springconcurency/EmailCheckerService.java:160 | Each lane is `(b & 0xFF) << (i * 8)` on a 32-bit word |
| OffsetEncoder.PackedWordLanes | src/main/java/com/spring/concurency/springconcurency/EmailCheckerService.java:157-161 | The packed word is the OR of four lanes, one from each of the first min(4, len) digest bytes, with zero lanes past a short digest |
| OffsetEncoder.PackedWordBytes | src/main/java/com/spring/concurency/springconcurency/EmailCheckerService.java:157-161 | Little-endian placement: bits 8i..8i+7 of the word hold digest byte i, or zero past the end of a short digest |
| OffsetEncoder.LaterBytesIgnored | src/main/java/com/spring/concurency/springconcurency/EmailCheckerService.java:159 | Two digests that agree on their first four bytes give the same word; later bytes have no effect |
| OffsetEncoder.LittleEndianValue | src/main/java/com/spring/concurency/springconcurency/EmailCheckerService.java:157-161 | The arithmetic little-endian reading of the first four bytes lies in [0, 2^32) |
| OffsetEncoder.PackedWordValue | src/main/java/com/spring/concurency/springconcurency/EmailCheckerService.java:157-161 | The word read unsigned equals b0 + 2^8 b1 + 2^16 b2 + 2^24 b3 |
| OffsetEncoder.ToInt32 | src/main/java/com/spring/concurency/springconcurency/EmailCheckerService.java:157 | Reading a 32-bit pattern as a Java `int`: the value in [-2^31, 2^31) congruent to the unsigned pattern modulo 2^32 |
| OffsetEncoder.Wrap32 | src/main/java/com/spring/concurency/springconcurency/EmailCheckerService.java:162 | 32-bit wrap-around: the value in the Java `int` range congruent to the integer modulo 2^32, i.e. its low 32 bits read signed |
| OffsetEncoder.JavaAbs | src/main/java/com/spring/concurency/springconcurency/EmailCheckerService.java:162 | `Math.abs(int)` stays in the `int` range |
| OffsetEncoder.JavaAbsValue | src/main/java/com/spring/concurency/springconcurency/EmailCheckerService.java:162 | `Math.abs` is the absolute value except at -2^31, which it returns unchanged |
| OffsetEncoder.WordOffset | src/main/java/com/spring/concurency/springconcurency/EmailCheckerService.java:162 | `Math.abs` of the word read as an `int`: u below 2^31, 2^32 - u above 2^31, and -2^31 for u = 2^31 |
| OffsetEncoder.DigestOffsetIsExpected | src/main/java/com/spring/concurency/springconcurency/EmailCheckerService.java:157-162 | The bit-level result agrees with that arithmetic reading of the four leading bytes |
| OffsetEncoder.OffsetRange | src/main/java/com/spring/concurency/springconcurency/EmailCheckerService.java:162 | The offset lies in [0, 2^31 - 1] unless the word is 0x80000000, and is -2^31 exactly for that word; it is negative only then |
| OffsetEncoder.NegativeOffsetWitness | src/main/java/com/spring/concurency/springconcurency/EmailCheckerService.java:162 | Every digest starting 00 00 00 80 reaches the offset -2^31 |
| OffsetEncoder.UsedBytes | src/main/java/com/spring/concurency/springconcurency/EmailCheckerService.java:159 | At most four bytes, and no more than the digest holds, take part |
| Users.NewUser | src/main/java/com/spring/concurency/springconcurency/UserEntity.java:27-31 | A new entity carries the given email and hash and no id yet |
| Users.DistinctAppendOne | src/main/java/com/spring/concurency/springconcurency/UserEntity.java:15-22 | Adding one row keeps the unique columns unique iff it clashes with no stored email or hash |
| Users.HashesAppend | src/main/java/com/spring/concurency/springconcurency/UserEntity.java:21-22 | The stored offsets of a concatenation are the union of both parts' offsets |
| Repository.FindByEmail | src/main/java/com/spring/concurency/springconcurency/UserRepository.java:12-13 | A found row is stored and has the email; nothing is found iff no stored row has it |
| Repository.StampKeepsColumns | src/main/java/com/spring/concurency/springconcurency/UserEntity.java:11-13 | Assigning generated ids to a batch does not change whether it clashes |
| Repository.InsertKeepsValid | src/main/java/com/spring/concurency/springconcurency/UserEntity.java:15-22 | `save` keeps emails and hashes unique and ids ascending; it succeeds iff nothing clashes, and a refused row leaves the table as it was |
| Repository.InsertAllKeepsValid | src/main/java/com/spring/concurency/springconcurency/UserEntity.java:15-22 | `saveAll` keeps the table invariant; a refused batch leaves the table unchanged, and an accepted one keeps every earlier row in place |
| Repository.InsertIsOneRowBatch | src/main/java/com/spring/concurency/springconcurency/UserEntity.java:15-22 | `save(u)` acts as `saveAll([u])`, on the table and on success |
| Repository.InsertThenFind | src/main/java/com/spring/concurency/springconcurency/UserRepository.java:12-13 | After a successful save, lookup by the email returns exactly the saved row with its id |
| Repository.UserRepository.constructor | src/main/java/com/spring/concurency/springconcurency/UserEntity.java:11-13 | An empty table whose identity sequence starts at 1 |
| Repository.UserRepository.Save | src/main/java/com/spring/concurency/springconcurency/EmailCheckerService.java:69 | `save` as `Insert` of the old table; keeps the table invariant |
| Repository.UserRepository.SaveAll | src/main/java/com/spring/concurency/springconcurency/EmailCheckerService.java:91 | `saveAll` as `InsertAll` of the old table; keeps the table invariant |
| Repository.UserRepository.FindByUserEmail | src/main/java/com/spring/concurency/springconcurency/UserRepository.java:12-13 | Returns the stored row with that email, or nothing iff there is none |
| Repository.UserRepository.FindAll | src/main/java/com/spring/concurency/springconcurency/UserRepository.java:19 | On a valid table, returns page `page`: at most `size` rows, starting at row page * size, with strictly ascending ids; see EmailChecker.PageLoopStep for how pages tile the table |
| Batching.FlattenAppend | src/main/java/com/spring/concurency/springconcurency/EmailCheckerService.java:87-98 | Handing over one more batch appends its rows after those of the earlier batches |
| Batching.FlattenChunks | src/main/java/com/spring/concurency/springconcurency/EmailCheckerService.java:81-111 | The batches concatenate back to the generated rows, in order |
| Batching.ChunksWellChunked | src/main/java/com/spring/concurency/springconcurency/EmailCheckerService.java:87-111 | Every batch but the last has exactly the batch size; the last is non-empty and no larger |
| Batching.ChunksUnique | src/main/java/com/spring/concurency/springconcurency/EmailCheckerService.java:81-111 | Full pieces plus one shorter non-empty tail that glue back to the input can only be the chunking |
| Batching.ChunksCount | src/main/java/com/spring/concurency/springconcurency/EmailCheckerService.java:139-140 | Counting a full page per page read overcounts the rows by exactly what the last page lacks, always by less than one page |
| EmailChecker.OffsetRefusedOnlyAtIntMin | src/main/java/com/spring/concurency/springconcurency/EmailCheckerService.java:51 | Redis refuses an email's bit offset iff the offset is -2^31 |
| EmailChecker.CheckReadsOnlyItsBit | src/main/java/com/spring/concurency/springconcurency/EmailCheckerService.java:46-58 | The empty email gives false without reading the bitmap; any other email, blank ones included, gives exactly its bit; bitmaps agreeing on that bit give the same answer |
| EmailChecker.RegisterOutcome | src/main/java/com/spring/concurency/springconcurency/EmailCheckerService.java:62-75 | Registration returns true iff the email is non-empty, its bit is clear and no stored row clashes. It then sets that one bit and appends that one row. Otherwise, the compensated conflict included, bitmap and table end as they began. The only error is a refused offset |
| EmailChecker.RegisterThenCheck | src/main/java/com/spring/concurency/springconcurency/EmailCheckerService.java:66-70 | After a successful registration the email checks as registered |
| EmailChecker.RegisterAgainChangesNothing | src/main/java/com/spring/concurency/springconcurency/EmailCheckerService.java:63-65 | Registering a registered email, or any email with the same offset, returns false and changes nothing |
| EmailChecker.RegisterKeepsTable | src/main/java/com/spring/concurency/springconcurency/EmailCheckerService.java:66-69 | Registration keeps the table invariant and every stored hash equal to its own email's offset |
| EmailChecker.RegisterKeepsIndex | src/main/java/com/spring/concurency/springconcurency/EmailCheckerService.java:66-74 | Registration keeps "every set bit has a row" and "every row has its bit set" |
| EmailChecker.NoConflictUnderCompleteIndex | src/main/java/com/spring/concurency/springconcurency/EmailCheckerService.java:71-74 | In a run without concurrent registrations: with a complete bitmap over well-hashed rows, a clear bit guarantees the save succeeds, so the compensating clear is reached only when the bitmap lags behind the table |
| EmailChecker.Generated | src/main/java/com/spring/concurency/springconcurency/EmailCheckerService.java:82-85 | Row i of the dump is the new entity of email i with that email's offset |
| EmailChecker.InsertBatchesKeepsValid | src/main/java/com/spring/concurency/springconcurency/EmailCheckerService.java:89-96 | Saving the batches in turn keeps the table invariant and never alters a stored row, whichever batches fail |
| EmailChecker.InsertBatchesSnoc | src/main/java/com/spring/concurency/springconcurency/EmailCheckerService.java:103-110 | Saving one more batch extends the run of saved batches |
| EmailChecker.BatchedAdd | src/main/java/com/spring/concurency/springconcurency/EmailCheckerService.java:85-98 | Adding a row to the pending batch, and handing it over when full, keeps the generation loop's invariant |
| EmailChecker.BatchedDone | src/main/java/com/spring/concurency/springconcurency/EmailCheckerService.java:101-111 | After the last row, the full batches plus the non-empty remainder are the chunks of the rows |
| EmailChecker.AddRow | src/main/java/com/spring/concurency/springconcurency/EmailCheckerService.java:85-98 | One round of the generation loop keeps its invariant: handed-over batches are full and, with the pending batch, spell out the rows generated so far |
| EmailChecker.BatchUsers | src/main/java/com/spring/concurency/springconcurency/EmailCheckerService.java:81-111 | The batches handed to `saveAll` are exactly the chunks of the generated rows into pieces of BATCH_SIZE |
| EmailChecker.FirstInvalid | src/main/java/com/spring/concurency/springconcurency/EmailCheckerService.java:135-138 | Every row before the index has an offset Redis accepts, and the row at the index, if any, has one it refuses |
| EmailChecker.FirstInvalidUnique | src/main/java/com/spring/concurency/springconcurency/EmailCheckerService.java:135-138 | Any index with that property is the first refused offset |
| EmailChecker.PageLoopStep | src/main/java/com/spring/concurency/springconcurency/EmailCheckerService.java:130-139 | A non-empty page continues the table exactly where the previous pages stopped |
| EmailChecker.PageLoopDone | src/main/java/com/spring/concurency/springconcurency/EmailCheckerService.java:131-134 | At the first empty page every row has been read, and the pages read are the chunks of the table |
| EmailChecker.PageHashes | src/main/java/com/spring/concurency/springconcurency/EmailCheckerService.java:135-138 | Bits set for the rows so far plus a prefix of the next page are the bits of the longer prefix of the table |
| EmailChecker.PageFirstInvalid | src/main/java/com/spring/concurency/springconcurency/EmailCheckerService.java:135-138 | A page stops early exactly at the table's first refused offset |
| EmailChecker.PageReloaded | src/main/java/com/spring/concurency/springconcurency/EmailCheckerService.java:130-142 | One page of the reload: either the bits cover the rows up to the first refused offset, or the loop invariant advances by one page |
| EmailChecker.Reloaded | src/main/java/com/spring/concurency/springconcurency/EmailCheckerService.java:132-134 | Leaving at the empty page, every row's bit is set and the pages counted are the chunks of the table |
| EmailChecker.EmailCheckerService.IsEmailRegistered | src/main/java/com/spring/concurency/springconcurency/EmailCheckerService.java:46-59 | Returns `Check` of the current bitmap: false for the empty email, else the email's bit, or the Redis error for offset -2^31 |
| EmailChecker.EmailCheckerService.RegisterEmail | src/main/java/com/spring/concurency/springconcurency/EmailCheckerService.java:61-75 | Bitmap, table and result are those of `Register` applied to the old bitmap and table; the table invariant is kept |
| EmailChecker.EmailCheckerService.DumpUsersToPostgres | src/main/java/com/spring/concurency/springconcurency/EmailCheckerService.java:77-122 | Submits the BATCH_SIZE chunks of the generated rows, saves each in turn, skipping failures, and reports NUM_USERS_TO_GENERATE |
| EmailChecker.EmailCheckerService.SaveBatches | src/main/java/com/spring/concurency/springconcurency/EmailCheckerService.java:89-96 | The table is the old one with the batches saved in order, each all or nothing |
| EmailChecker.EmailCheckerService.SetPageBits | src/main/java/com/spring/concurency/springconcurency/EmailCheckerService.java:135-138 | Sets the bits of the page's rows up to the first refused offset and returns that index |
| EmailChecker.EmailCheckerService.LoadUsersToRedis | src/main/java/com/spring/concurency/springconcurency/EmailCheckerService.java:124-151 | On a valid table (rows in ascending id order), bits are only added: those of all rows, in id order, up to the first refused offset. The job reports success iff no offset is refused, and then every stored row's bit is set. The count is PAGE_SIZE times the number of non-empty pages |
| ProfileCache.ProfileKey | src/main/java/com/spring/concurency/springconcurency/UserService.java:23 | The profile key is "profile_email_" followed by the email |
| ProfileCache.ProfileKeyInjective | src/main/java/com/spring/concurency/springconcurency/UserService.java:32 | Distinct emails have distinct profile keys, and no profile key equals its own email |
| ProfileCache.Decode | src/main/java/com/spring/concurency/springconcurency/UserService.java:36 | Reading a payload fails exactly on malformed text, with the JSON error |
| ProfileCache.HitTouchesNothing | src/main/java/com/spring/concurency/springconcurency/UserService.java:33-41 | On a hit, findUser returns the cached entity, or throws on an unreadable payload; it changes no state, takes no lock and does not query the store |
| ProfileCache.LockDiscipline | src/main/java/com/spring/concurency/springconcurency/UserService.java:49-72 | Every lock is free on return; each lock is created at most once and never removed; the activity is one locked section with at most one store query inside it |
| ProfileCache.LockedSectionFacts | src/main/java/com/spring/concurency/springconcurency/UserService.java:54-72 | The locked section releases its lock. It queries the store only when the double check misses. It returns what the profile entry now holds, null with the interrupt flag set, or "User Not Found" |
| ProfileCache.WithLockDiscipline | src/main/java/com/spring/concurency/springconcurency/UserService.java:47-84 | The lock discipline of the locked path; the email's lock exists afterwards |
| ProfileCache.LookupResult | src/main/java/com/spring/concurency/springconcurency/UserService.java:31-99 | A returned entity is what the profile entry now holds; null only with the interrupt flag set, so line 69 is unreachable. After a store query the result is the store's answer: the row, cached under both keys, or "User Not Found". That error comes only from the store |
| ProfileCache.WithLockResult | src/main/java/com/spring/concurency/springconcurency/UserService.java:47-84 | LookupResult for the locked path |
| ProfileCache.DoubleCheckSkipsStore | src/main/java/com/spring/concurency/springconcurency/UserService.java:56-59 | An entry that appears while waiting is returned after locking, without querying the store; an unreadable one gives null and the interrupt flag |
| ProfileCache.TimeoutRetries | src/main/java/com/spring/concurency/springconcurency/UserService.java:73-77 | A timed-out wait restarts findUser from the cache check with the remaining schedule |
| ProfileCache.UncontendedMiss | src/main/java/com/spring/concurency/springconcurency/UserService.java:62-68 | With the lock free at once, a miss returns the stored row iff there is one, and throws "User Not Found" iff there is none, after exactly one store query |
| ProfileCache.BareKeyShadowsProfile | src/main/java/com/spring/concurency/springconcurency/UserService.java:91 | Looking up the user whose email is "profile_email_" + e fills e's profile entry, so a later lookup of e returns that other user |
| ProfileCache.UserService.constructor | src/main/java/com/spring/concurency/springconcurency/UserService.java:20 | An empty cache, an empty lock map and a clear interrupt flag |
| ProfileCache.UserService.FindUser | src/main/java/com/spring/concurency/springconcurency/UserService.java:31-45 | New state and result are `FindUserSpec` of the old state; no lock is held on return |
| ProfileCache.UserService.FindUserFromDatabaseWithLock | src/main/java/com/spring/concurency/springconcurency/UserService.java:47-84 | New state and result are `WithLockSpec` of the old state; no lock is held on return |
| ProfileCache.UserService.FindUserFromDatabase | src/main/java/com/spring/concurency/springconcurency/UserService.java:86-99 | The store is queried; a found row is cached under the bare email and returned, otherwise "User Not Found" |

## Left out

- SHA-256 and UTF-8 encoding are not modelled. The digest is an input function from email
  to 32 bytes, or to nothing when the algorithm is missing; that case yields offset 0.
- The thread pool of `dumpUsersToPostgres` and the `parallelStream` of `loadUsersToRedis`
  run sequentially, in submission and page order. `shutdown` and `awaitTermination` are
  not modelled, and neither is the interleaving of concurrent `saveAll` calls.
- BatchUsers: each row's offset comes from the `Offset` function, the value that
  `HashEmailToOffset` is proved to compute; the loop does not call the method.
- DumpUsersToPostgres: the emails are an input sequence. Random UUID generation is not
  modelled, and the report's NUM_USERS_TO_GENERATE is not tied to the input's length.
- LoadUsersToRedis: bits within a page are set in row order, stopping at the first refused
  offset. With `parallelStream` other rows of that page may also be set before the error.
  Any exception other than a refused offset is not modelled.
- Redis and Postgres are abstract state. Not modelled: TTL expiry of cache entries, the
  timing of `currentTimeMillis` and the report strings, logging, and store failures other
  than a unique-column violation.
- `@Transactional` on `registerEmail` is not modelled. The caught
  DataIntegrityViolationException may mark the transaction rollback-only, and that is not
  modelled either.
- Jackson is the `Payload` datatype. Writing then reading gives back the same entity.
  Unreadable text is `Malformed`. A failure of `writeValueAsString` is not modelled.
- A null email is not modelled: Dafny strings are never null. The empty string takes the
  same branch.
- The `UserEntity.createdAt` timestamp and `findByEmailHash` are not modelled, since the
  core never reads them.
- RegisterEmail: the check, the bit set, the save and the compensating clear are modelled
  as one atomic step. In the program they are separate Redis and database calls with no
  lock around them. Two concurrent registrations with the same offset can both see the
  bit clear and both set it; one save succeeds, the other conflicts and clears the bit,
  so the stored row is left without its bit until the next reload.
- The bitmap and the profile cache are modelled as separate states. In Redis they share
  one keyspace, and `findUserFromDatabase` writes the bare email as a key. A user stored
  with the email `registered_emails_hash` would, once looked up, overwrite the bitmap key
  with a JSON string that expires after an hour. That collision is not modelled;
  ProfileCache.BareKeyShadowsProfile states the same hazard within the cache.
- Insert: ids are handed out without gaps, and a refused save uses none. A Postgres
  identity column draws its value before the unique check, and a rollback does not return
  it, so every conflict there leaves a gap in the ids.
- InsertAll: likewise, a refused `saveAll` uses no ids in the model, whereas Postgres
  loses the ids drawn for the rows inserted before the conflict.
- FindUser: the timing of `tryLock` is a schedule of attempts. When the schedule runs
  out, the lookup stops with `Pending` in place of retrying forever.
- FindUser: other threads' cache writes take effect only while this thread waits for a
  lock, not between its own cache reads.
- FindUserFromDatabaseWithLock: an interrupt during the 100 ms sleep after a timeout is
  folded into an `Interrupted` attempt outcome.
- FindUserFromDatabaseWithLock: when the interrupt flag is already set, `tryLock` throws
  at once, as the JDK does; the lookup then returns null.
- The controllers, HTTP routing and response formatting are not part of this model.
