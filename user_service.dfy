/**
 * UserService: cache-aside lookup of a user profile. The Redis cache is a map from keys to
 * JSON payloads, the per-email locks are a map from email to "held", and the timing of
 * `tryLock` is a schedule of attempt outcomes supplied by the caller. Each attempt may
 * also carry the cache writes other threads made while this one was waiting.
 */
module ProfileCache {
  import opened Outcomes
  import opened Users
  import opened Repository

  /** Prefix of the profile cache keys. */
  const EMAIL_USER_PROFILE: string := "profile_email_"

  /** The profile cache key of an email. */
  function ProfileKey(email: string): (key: string)
    ensures |key| == |EMAIL_USER_PROFILE| + |email|
    ensures key[..|EMAIL_USER_PROFILE|] == EMAIL_USER_PROFILE
    ensures key[|EMAIL_USER_PROFILE|..] == email
  {
    EMAIL_USER_PROFILE + email
  }

  /** Distinct emails have distinct profile keys, and no profile key is its own email. */
  lemma ProfileKeyInjective(a: string, b: string)
    ensures ProfileKey(a) == ProfileKey(b) <==> a == b
    ensures ProfileKey(a) != a
  {
    if ProfileKey(a) == ProfileKey(b) {
      assert a == ProfileKey(a)[|EMAIL_USER_PROFILE|..] == ProfileKey(b)[|EMAIL_USER_PROFILE|..] == b;
    }
  }

  /**
   * A cached value: the JSON Jackson writes for an entity, or text it cannot read back.
   * Reading back what was written gives the same entity.
   */
  datatype Payload = Serialized(user: UserEntity) | Malformed

  /** `objectMapper.writeValueAsString(user)`. */
  function Encode(u: UserEntity): Payload {
    Serialized(u)
  }

  /** `objectMapper.readValue(json, UserEntity.class)`. */
  function Decode(p: Payload): (r: Result<UserEntity>)
    ensures r.Err? <==> p.Malformed?
    ensures r.Err? ==> r.error == MalformedJson
  {
    match p
    case Serialized(u) => Ok(u)
    case Malformed => Err(MalformedJson)
  }

  /** How one `tryLock(1, SECONDS)` ends. */
  datatype LockOutcome = Acquired | TimedOut | Interrupted

  /** One wait for the lock: the cache writes other threads made meanwhile, and its outcome. */
  datatype Attempt = Attempt(interference: map<string, Payload>, outcome: LockOutcome)

  /**
   * What a lookup returns: the entity, Java's `null`, an exception that reaches the
   * caller, or `Pending` when the schedule ran out while the lookup was still retrying.
   */
  datatype Lookup = Found(user: UserEntity) | NullUser | Thrown(error: Failure) | Pending

  /** Observable lock and store activity, in order. */
  datatype Event = Locked(email: string) | Unlocked(email: string) | StoreQueried(email: string)

  /** The service's mutable state: cache, lock map, the thread's interrupt flag and the activity log. */
  datatype ServiceState = ServiceState(
    cache: map<string, Payload>,
    locks: map<string, bool>,
    interrupted: bool,
    trace: seq<Event>)

  /** No lock is held. */
  predicate AllFree(locks: map<string, bool>) {
    forall e :: e in locks ==> !locks[e]
  }

  /** findUserFromDatabase: query the store, cache the row under the bare email, or throw. */
  function FromDatabase(rows: seq<UserEntity>, st: ServiceState, email: string): (ServiceState, Result<UserEntity>) {
    var queried := st.(trace := st.trace + [StoreQueried(email)]);
    match FindByEmail(rows, email)
    case Some(u) => (queried.(cache := queried.cache[email := Encode(u)]), Ok(u))
    case None => (queried, Err(UserNotFound))
  }

  /**
   * The body run under the lock: the second cache check, then the store. A payload that
   * cannot be read here is a JsonProcessingException, caught below: `null` and the
   * interrupt flag set.
   */
  function Critical(rows: seq<UserEntity>, st: ServiceState, email: string): (ServiceState, Lookup) {
    var key := ProfileKey(email);
    if key in st.cache then
      match Decode(st.cache[key])
      case Ok(u) => (st, Found(u))
      case Err(_) => (st.(interrupted := true), NullUser)
    else
      var (st', fromDb) := FromDatabase(rows, st, email);
      match fromDb
      case Ok(u) => (st'.(cache := st'.cache[key := Encode(u)]), Found(u))
      case Err(e) => (st', Thrown(e))
  }

  /** findUser: the profile entry if cached (a bad payload throws), else the locked path. */
  function FindUserSpec(rows: seq<UserEntity>, st: ServiceState, email: string, schedule: seq<Attempt>): (ServiceState, Lookup)
    decreases |schedule|, 1
  {
    var key := ProfileKey(email);
    if key in st.cache then
      match Decode(st.cache[key])
      case Ok(u) => (st, Found(u))
      case Err(e) => (st, Thrown(e))
    else
      WithLockSpec(rows, st, email, schedule)
  }

  /**
   * findUserFromDatabaseWithLock: create the email's lock if absent, wait for it, and on
   * success run the critical body and release the lock whatever happened. A timed-out
   * wait retries from findUser; an interrupted one, or one begun with the interrupt flag
   * already set, returns `null` with the flag set.
   */
  function WithLockSpec(rows: seq<UserEntity>, st: ServiceState, email: string, schedule: seq<Attempt>): (ServiceState, Lookup)
    decreases |schedule|, 0
  {
    var created := st.(locks := if email in st.locks then st.locks else st.locks[email := false]);
    if created.interrupted then (created, NullUser)
    else if schedule == [] then (created, Pending)
    else
      var waited := created.(cache := created.cache + schedule[0].interference);
      match schedule[0].outcome
      case Interrupted => (waited.(interrupted := true), NullUser)
      case TimedOut => FindUserSpec(rows, waited, email, schedule[1..])
      case Acquired => LockedSection(rows, waited, email)
  }

  /** The activity of one lookup: nothing, or one locked section with at most one store query. */
  predicate Session(email: string, events: seq<Event>) {
    || events == []
    || events == [Locked(email), Unlocked(email)]
    || events == [Locked(email), StoreQueried(email), Unlocked(email)]
  }

  /** On a cache hit the lookup returns the decoded entry and touches nothing: no lock, no store. */
  lemma HitTouchesNothing(rows: seq<UserEntity>, st: ServiceState, email: string, schedule: seq<Attempt>)
    requires ProfileKey(email) in st.cache
    ensures var (st', r) := FindUserSpec(rows, st, email, schedule);
      && st' == st
      && (st.cache[ProfileKey(email)].Serialized? ==> r == Found(st.cache[ProfileKey(email)].user))
      && (st.cache[ProfileKey(email)].Malformed? ==> r == Thrown(MalformedJson))
  {
  }

  /**
   * Lock discipline of findUser: every lock is free again on return, whatever the
   * outcome; the lock map gains at most this email's entry and never loses one; and the
   * activity is one session, so the store is only queried while the email's lock is held.
   */
  lemma {:induction false} LockDiscipline(rows: seq<UserEntity>, st: ServiceState, email: string, schedule: seq<Attempt>)
    requires AllFree(st.locks)
    ensures var (st', r) := FindUserSpec(rows, st, email, schedule);
      && AllFree(st'.locks)
      && st.locks.Keys <= st'.locks.Keys <= st.locks.Keys + {email}
      && |st.trace| <= |st'.trace| && st'.trace[..|st.trace|] == st.trace
      && Session(email, st'.trace[|st.trace|..])
    decreases |schedule|, 1
  {
    if ProfileKey(email) !in st.cache {
      WithLockDiscipline(rows, st, email, schedule);
    } else {
      assert st.trace[|st.trace|..] == [];
    }
  }

  /** The locked section of WithLockSpec, from the state after the wait to the state after the release. */
  function LockedSection(rows: seq<UserEntity>, waited: ServiceState, email: string): (ServiceState, Lookup) {
    var held := waited.(locks := waited.locks[email := true], trace := waited.trace + [Locked(email)]);
    var (done, r) := Critical(rows, held, email);
    (done.(locks := done.locks[email := false], trace := done.trace + [Unlocked(email)]), r)
  }

  /**
   * The locked section releases what it took, logs one session, and answers from the
   * refreshed cache or from the store.
   */
  lemma LockedSectionFacts(rows: seq<UserEntity>, waited: ServiceState, email: string)
    ensures var (st', r) := LockedSection(rows, waited, email);
      var key := ProfileKey(email);
      && st'.locks == waited.locks[email := false]
      && (key in waited.cache ==> st'.trace == waited.trace + [Locked(email), Unlocked(email)])
      && (key !in waited.cache ==>
            st'.trace == waited.trace + [Locked(email), StoreQueried(email), Unlocked(email)]
            && StoreAnswered(rows, st', email, r))
      && (r.Found? ==> key in st'.cache && Decode(st'.cache[key]) == Ok(r.user))
      && (r.NullUser? ==> st'.interrupted)
      && (r.Thrown? ==> r.error == UserNotFound && key !in waited.cache)
  {
    var key := ProfileKey(email);
    ProfileKeyInjective(email, email);
    if key !in waited.cache {
      var held := waited.(locks := waited.locks[email := true], trace := waited.trace + [Locked(email)]);
      assert held.trace + [StoreQueried(email)] + [Unlocked(email)]
          == waited.trace + [Locked(email), StoreQueried(email), Unlocked(email)];
    }
  }

  /** LockDiscipline for the locked path. */
  lemma {:induction false} WithLockDiscipline(rows: seq<UserEntity>, st: ServiceState, email: string, schedule: seq<Attempt>)
    requires AllFree(st.locks)
    ensures var (st', r) := WithLockSpec(rows, st, email, schedule);
      && AllFree(st'.locks)
      && st.locks.Keys + {email} == st'.locks.Keys
      && |st.trace| <= |st'.trace| && st'.trace[..|st.trace|] == st.trace
      && Session(email, st'.trace[|st.trace|..])
    decreases |schedule|, 0
  {
    var created := st.(locks := if email in st.locks then st.locks else st.locks[email := false]);
    assert AllFree(created.locks);
    if !created.interrupted && schedule != [] {
      var waited := created.(cache := created.cache + schedule[0].interference);
      match schedule[0].outcome
      case Interrupted =>
        assert st.trace[|st.trace|..] == [];
      case TimedOut =>
        LockDiscipline(rows, waited, email, schedule[1..]);
      case Acquired =>
        LockedSectionFacts(rows, waited, email);
        var st' := LockedSection(rows, waited, email).0;
        if ProfileKey(email) in waited.cache {
          assert st'.trace[|st.trace|..] == [Locked(email), Unlocked(email)];
        } else {
          assert st'.trace[|st.trace|..] == [Locked(email), StoreQueried(email), Unlocked(email)];
        }
    } else {
      assert st.trace[|st.trace|..] == [];
    }
  }

  /**
   * What findUser returns: an entity it returns is what the profile entry now holds;
   * `null` comes only with the interrupt flag set (the not-found `return null` is never
   * reached); when the store was queried the result is its answer, the row then cached
   * under both keys, or "User Not Found"; and "User Not Found" comes only from the store.
   */
  lemma {:induction false} LookupResult(rows: seq<UserEntity>, st: ServiceState, email: string, schedule: seq<Attempt>)
    requires AllFree(st.locks)
    ensures var (st', r) := FindUserSpec(rows, st, email, schedule);
      && (r.Found? ==> ProfileKey(email) in st'.cache && Decode(st'.cache[ProfileKey(email)]) == Ok(r.user))
      && (r.NullUser? ==> st'.interrupted)
      && (r.Thrown? ==> r.error in {MalformedJson, UserNotFound})
      && |st.trace| <= |st'.trace|
      && (StoreQueried(email) in st'.trace[|st.trace|..] ==> StoreAnswered(rows, st', email, r))
      && (r == Thrown(UserNotFound) ==> StoreQueried(email) in st'.trace[|st.trace|..])
    decreases |schedule|, 1
  {
    LockDiscipline(rows, st, email, schedule);
    if ProfileKey(email) !in st.cache {
      WithLockResult(rows, st, email, schedule);
    }
  }

  /** The lookup ended with the store's answer: the row, cached under both keys, or "User Not Found". */
  predicate StoreAnswered(rows: seq<UserEntity>, st': ServiceState, email: string, r: Lookup) {
    match FindByEmail(rows, email)
    case Some(u) =>
      && r == Found(u)
      && email in st'.cache && ProfileKey(email) in st'.cache
      && st'.cache[email] == Encode(u) && st'.cache[ProfileKey(email)] == Encode(u)
    case None => r == Thrown(UserNotFound)
  }

  /** LookupResult for the locked path. */
  lemma {:induction false} WithLockResult(rows: seq<UserEntity>, st: ServiceState, email: string, schedule: seq<Attempt>)
    requires AllFree(st.locks)
    ensures var (st', r) := WithLockSpec(rows, st, email, schedule);
      && (r.Found? ==> ProfileKey(email) in st'.cache && Decode(st'.cache[ProfileKey(email)]) == Ok(r.user))
      && (r.NullUser? ==> st'.interrupted)
      && (r.Thrown? ==> r.error in {MalformedJson, UserNotFound})
      && |st.trace| <= |st'.trace|
      && (StoreQueried(email) in st'.trace[|st.trace|..] ==> StoreAnswered(rows, st', email, r))
      && (r == Thrown(UserNotFound) ==> StoreQueried(email) in st'.trace[|st.trace|..])
    decreases |schedule|, 0
  {
    WithLockDiscipline(rows, st, email, schedule);
    var created := st.(locks := if email in st.locks then st.locks else st.locks[email := false]);
    if !created.interrupted && schedule != [] {
      var waited := created.(cache := created.cache + schedule[0].interference);
      match schedule[0].outcome
      case Interrupted =>
      case TimedOut =>
        LookupResult(rows, waited, email, schedule[1..]);
      case Acquired =>
        LockedSectionFacts(rows, waited, email);
        var st' := LockedSection(rows, waited, email).0;
        if ProfileKey(email) in waited.cache {
          assert st'.trace[|st.trace|..] == [Locked(email), Unlocked(email)];
        } else {
          assert st'.trace[|st.trace|..] == [Locked(email), StoreQueried(email), Unlocked(email)];
        }
    }
  }

  /**
   * The double check: when the profile entry appears while this lookup waits for the
   * lock, the lookup takes it and does not query the store.
   */
  lemma DoubleCheckSkipsStore(rows: seq<UserEntity>, st: ServiceState, email: string, schedule: seq<Attempt>)
    requires ProfileKey(email) !in st.cache && !st.interrupted
    requires schedule != [] && schedule[0].outcome == Acquired
    requires ProfileKey(email) in schedule[0].interference
    ensures var (st', r) := FindUserSpec(rows, st, email, schedule);
      && st'.trace == st.trace + [Locked(email), Unlocked(email)]
      && (schedule[0].interference[ProfileKey(email)].Serialized? ==>
            r == Found(schedule[0].interference[ProfileKey(email)].user))
      && (schedule[0].interference[ProfileKey(email)].Malformed? ==> r == NullUser && st'.interrupted)
  {
  }

  /** A timed-out wait restarts the whole lookup, cache check first, with the remaining schedule. */
  lemma TimeoutRetries(rows: seq<UserEntity>, st: ServiceState, email: string, schedule: seq<Attempt>)
    requires ProfileKey(email) !in st.cache && !st.interrupted
    requires schedule != [] && schedule[0].outcome == TimedOut
    ensures FindUserSpec(rows, st, email, schedule)
         == FindUserSpec(rows,
              st.(locks := if email in st.locks then st.locks else st.locks[email := false],
                  cache := st.cache + schedule[0].interference),
              email, schedule[1..])
  {
  }

  /**
   * An uncontended miss: with the lock free at once and nothing cached, the lookup
   * returns the stored row and caches it, or throws "User Not Found".
   */
  lemma UncontendedMiss(rows: seq<UserEntity>, st: ServiceState, email: string)
    requires ProfileKey(email) !in st.cache && !st.interrupted
    ensures var (st', r) := FindUserSpec(rows, st, email, [Attempt(map[], Acquired)]);
      && (forall u :: r == Found(u) <==> FindByEmail(rows, email) == Some(u))
      && (r == Thrown(UserNotFound) <==> FindByEmail(rows, email).None?)
      && st'.trace == st.trace + [Locked(email), StoreQueried(email), Unlocked(email)]
  {
    assert st.cache + map[] == st.cache;
  }

  /**
   * The bare-email cache write can stand in for another email's profile entry: looking
   * up the stored user whose email is `"profile_email_" + e` fills the profile entry of
   * `e`, and a later lookup of `e` returns that other user without reaching the store.
   */
  lemma BareKeyShadowsProfile(rows: seq<UserEntity>, st: ServiceState, e: string, u: UserEntity)
    requires FindByEmail(rows, ProfileKey(e)) == Some(u)
    requires ProfileKey(ProfileKey(e)) !in st.cache && !st.interrupted
    ensures var (st', r) := FindUserSpec(rows, st, ProfileKey(e), [Attempt(map[], Acquired)]);
      var (st'', r') := FindUserSpec(rows, st', e, []);
      && r == Found(u) && r' == Found(u) && u.email != e && st'' == st'
  {
    ProfileKeyInjective(e, e);
    ProfileKeyInjective(ProfileKey(e), ProfileKey(e));
    assert st.cache + map[] == st.cache;
  }

  /** The service over the store it reads. */
  class UserService {
    const repo: UserRepository
    /** The Redis string keys and values this service reads and writes. */
    var cache: map<string, Payload>
    /** `emailLocks`: the lock of each email ever looked up on the locked path, held or free. */
    var emailLocks: map<string, bool>
    /** The calling thread's interrupt flag. */
    var interrupted: bool
    /** Lock and store activity, for stating the lock discipline. */
    ghost var trace: seq<Event>

    ghost function State(): ServiceState
      reads this
    {
      ServiceState(cache, emailLocks, interrupted, trace)
    }

    /** Between calls no lock is held. */
    ghost predicate Valid()
      reads this
    {
      AllFree(emailLocks)
    }

    constructor (repo: UserRepository)
      ensures Valid()
      ensures this.repo == repo && cache == map[] && emailLocks == map[] && !interrupted && trace == []
    {
      this.repo := repo;
      cache := map[];
      emailLocks := map[];
      interrupted := false;
      trace := [];
    }

    /** findUser. */
    method FindUser(email: string, schedule: seq<Attempt>) returns (r: Lookup)
      requires Valid()
      modifies this
      ensures Valid()
      ensures (State(), r) == FindUserSpec(repo.table.rows, old(State()), email, schedule)
      decreases |schedule|, 1
    {
      var key := ProfileKey(email);
      if key in cache {
        var cachedUserJson := cache[key];
        var decoded := Decode(cachedUserJson);
        if decoded.Ok? {
          return Found(decoded.value);
        }
        return Thrown(decoded.error);
      }
      r := FindUserFromDatabaseWithLock(email, schedule);
    }

    /** findUserFromDatabaseWithLock. */
    method FindUserFromDatabaseWithLock(email: string, schedule: seq<Attempt>) returns (r: Lookup)
      requires Valid()
      modifies this
      ensures Valid()
      ensures (State(), r) == WithLockSpec(repo.table.rows, old(State()), email, schedule)
      decreases |schedule|, 0
    {
      var key := ProfileKey(email);
      if email !in emailLocks {
        emailLocks := emailLocks[email := false];
      }
      if interrupted {
        // tryLock throws InterruptedException at once; the handler restores the flag
        return NullUser;
      }
      if schedule == [] {
        return Pending;
      }
      cache := cache + schedule[0].interference;
      match schedule[0].outcome
      case Interrupted =>
        interrupted := true;
        return NullUser;
      case TimedOut =>
        r := FindUser(email, schedule[1..]);
      case Acquired =>
        emailLocks := emailLocks[email := true];
        trace := trace + [Locked(email)];
        var caught := false;
        if key in cache {
          var decoded := Decode(cache[key]);
          if decoded.Ok? {
            r := Found(decoded.value);
          } else {
            r := NullUser;
            caught := true;
          }
        } else {
          var userFromDb := FindUserFromDatabase(email);
          if userFromDb.Ok? {
            cache := cache[key := Encode(userFromDb.value)];
            r := Found(userFromDb.value);
          } else {
            r := Thrown(userFromDb.error);
          }
        }
        emailLocks := emailLocks[email := false];
        trace := trace + [Unlocked(email)];
        if caught {
          interrupted := true;
        }
    }

    /** findUserFromDatabase. */
    method FindUserFromDatabase(email: string) returns (r: Result<UserEntity>)
      modifies this
      ensures (State(), r) == FromDatabase(repo.table.rows, old(State()), email)
    {
      trace := trace + [StoreQueried(email)];
      var userFromDb := repo.FindByUserEmail(email);
      if userFromDb.Some? {
        cache := cache[email := Encode(userFromDb.value)];
        return Ok(userFromDb.value);
      }
      return Err(UserNotFound);
    }
  }
}
