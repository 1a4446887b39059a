/** Device login by challenge and response: each service call is one atomic step on the devices table. */
module Challenge {
  import opened Wrappers

  type DeviceId = string
  type UserId = int

  /** Nanoseconds; the application and the database read one clock. */
  type Instant = int

  const SECOND: int := 1_000_000_000

  datatype Device = Device(
    user: UserId,
    publicKey: string,
    challenge: Option<string>,
    challengedAt: Option<Instant>)

  type Devices = map<DeviceId, Device>

  datatype Tables = Tables(users: set<UserId>, devices: Devices)

  const NO_ROWS := Tables({}, map[])

  /** Ed25519, from OpenSSL: public key, challenge, response. */
  type SignatureCheck = (string, string, string) -> bool

  datatype Call =
    | Register(device: DeviceId, user: UserId, publicKey: string)
    | Request(device: DeviceId, now: Instant, random: string)
    | Respond(device: DeviceId, now: Instant, response: string)
    | RemoveUser(user: UserId, referenced: bool)

  datatype Outcome =
    | Registered(device: DeviceId)
    | DuplicateKey
    | DeviceNotFound
    | Challenged(challenge: string)
    | NotChallenged
    | ChallengeExpired
    | InvalidResponse
    | LoggedIn(user: UserId)
    | Removed
    | StillReferenced

  /** A stored timestamp is read back without the fraction of its second. */
  function ParseTimestamp(stored: Instant): Instant {
    stored / SECOND * SECOND
  }

  predicate KeyTaken(devices: Devices, publicKey: string) {
    exists d :: d in devices && devices[d].publicKey == publicKey
  }

  /** A stored challenge that is given out again. */
  predicate IsRecent(device: Device, now: Instant) {
    device.challengedAt.Some? && now - ParseTimestamp(device.challengedAt.value) < 50 * SECOND
  }

  predicate IsExpired(challengedAt: Instant, now: Instant) {
    now - ParseTimestamp(challengedAt) > 60 * SECOND
  }

  /**
   * New public ids are random and user ids come from a sequence. `referenced` in `RemoveUser` says whether other tables
   * still hold rows of the user, as constituents do if one was added after they were deleted.
   */
  predicate Enabled(db: Tables, call: Call) {
    call.Register? ==> call.device !in db.devices && call.user !in db.users
  }

  function Answer(check: SignatureCheck, db: Tables, call: Call): Outcome {
    match call
    case Register(d, _, publicKey) => if KeyTaken(db.devices, publicKey) then DuplicateKey else Registered(d)
    case Request(d, now, random) =>
      if d !in db.devices then DeviceNotFound
      else if IsRecent(db.devices[d], now) then
        (match db.devices[d].challenge case Some(c) => Challenged(c) case None => NotChallenged)
      else Challenged(random)
    case Respond(d, now, response) =>
      if d !in db.devices then DeviceNotFound
      else if db.devices[d].challengedAt.None? then NotChallenged
      else if IsExpired(db.devices[d].challengedAt.value, now) then ChallengeExpired
      else if db.devices[d].challenge.None? then NotChallenged
      else if !check(db.devices[d].publicKey, db.devices[d].challenge.value, response) then InvalidResponse
      else LoggedIn(db.devices[d].user)
    case RemoveUser(user, referenced) => if referenced && user in db.users then StillReferenced else Removed
  }

  /** Whether the call writes a new challenge into the device's row. */
  predicate Stores(db: Tables, call: Call) {
    call.Request? && call.device in db.devices && !IsRecent(db.devices[call.device], call.now)
  }

  function WithoutUser(devices: Devices, user: UserId): Devices {
    map d | d in devices && devices[d].user != user :: devices[d]
  }

  function Apply(check: SignatureCheck, db: Tables, call: Call): Tables {
    match call
    case Register(d, user, publicKey) =>
      if KeyTaken(db.devices, publicKey) then db
      else Tables(db.users + {user}, db.devices[d := Device(user, publicKey, None, None)])
    case Request(d, now, random) =>
      if Stores(db, call) then
        db.(devices := db.devices[d := db.devices[d].(challenge := Some(random), challengedAt := Some(now))])
      else db
    case Respond(d, _, _) =>
      if Answer(check, db, call).LoggedIn? then
        db.(devices := db.devices[d := db.devices[d].(challenge := None, challengedAt := None)])
      else db
    case RemoveUser(user, _) =>
      if Answer(check, db, call).StillReferenced? then db
      else Tables(db.users - {user}, WithoutUser(db.devices, user))
  }

  // ---------- the code ----------

  class AuthService {
    const check: SignatureCheck
    var users: set<UserId>
    var devices: Devices

    ghost function Now(): Tables
      reads this
    {
      Tables(users, devices)
    }

    constructor (check: SignatureCheck)
      ensures this.check == check && Now() == NO_ROWS
    {
      this.check := check;
      users := {};
      devices := map[];
    }

    /** One transaction; a duplicate key leaves it before anything is inserted. */
    method RegisterWithDevice(id: DeviceId, user: UserId, publicKey: string) returns (r: Outcome)
      requires id !in devices && user !in users
      modifies this
      ensures r == Answer(check, old(Now()), Register(id, user, publicKey))
      ensures Now() == Apply(check, old(Now()), Register(id, user, publicKey))
    {
      var existing := set d | d in devices && devices[d].publicKey == publicKey;
      if d :| d in existing {
        return DuplicateKey;
      }
      assert forall d :: d in devices && devices[d].publicKey == publicKey ==> d in existing;
      users := users + {user};
      devices := devices[id := Device(user, publicKey, None, None)];
      r := Registered(id);
    }

    method GetDevice(id: DeviceId) returns (device: Option<Device>)
      ensures device == if id in devices then Some(devices[id]) else None
    {
      device := if id in devices then Some(devices[id]) else None;
    }

    method StoreDeviceChallenge(id: DeviceId, challenge: string, now: Instant)
      requires id in devices
      modifies `devices
      ensures devices == old(devices)[id := old(devices)[id].(challenge := Some(challenge), challengedAt := Some(now))]
    {
      devices := devices[id := devices[id].(challenge := Some(challenge), challengedAt := Some(now))];
    }

    method ClearDeviceChallenge(id: DeviceId)
      requires id in devices
      modifies `devices
      ensures devices == old(devices)[id := old(devices)[id].(challenge := None, challengedAt := None)]
    {
      devices := devices[id := devices[id].(challenge := None, challengedAt := None)];
    }

    method GenerateDeviceChallenge(id: DeviceId, now: Instant, random: string) returns (r: Outcome)
      modifies `devices
      ensures r == Answer(check, old(Now()), Request(id, now, random))
      ensures Now() == Apply(check, old(Now()), Request(id, now, random))
    {
      var device := GetDevice(id);
      if device.None? {
        return DeviceNotFound;
      }
      if device.value.challengedAt.Some? {
        var challengedAt := ParseTimestamp(device.value.challengedAt.value);
        if now - challengedAt < 50 * SECOND {
          if device.value.challenge.None? {
            return NotChallenged;
          }
          return Challenged(device.value.challenge.value);
        }
      }
      StoreDeviceChallenge(id, random, now);
      r := Challenged(random);
    }

    method VerifyDeviceResponse(id: DeviceId, now: Instant, response: string) returns (r: Outcome)
      modifies `devices
      ensures r == Answer(check, old(Now()), Respond(id, now, response))
      ensures Now() == Apply(check, old(Now()), Respond(id, now, response))
    {
      var device := GetDevice(id);
      if device.None? {
        return DeviceNotFound;
      }
      if device.value.challengedAt.None? {
        return NotChallenged;
      }
      var challengedAt := ParseTimestamp(device.value.challengedAt.value);
      if now - challengedAt > 60 * SECOND {
        return ChallengeExpired;
      }
      if device.value.challenge.None? {
        return NotChallenged;
      }
      if !check(device.value.publicKey, device.value.challenge.value, response) {
        return InvalidResponse;
      }
      ClearDeviceChallenge(id);
      r := LoggedIn(device.value.user);
    }

    /** One transaction: the foreign key of a row left elsewhere rolls both deletions back. */
    method RemoveAllForUser(user: UserId, referenced: bool) returns (r: Outcome)
      modifies this
      ensures r == Answer(check, old(Now()), RemoveUser(user, referenced))
      ensures Now() == Apply(check, old(Now()), RemoveUser(user, referenced))
    {
      var kept := WithoutUser(devices, user);
      if user in users && referenced {
        return StillReferenced;
      }
      devices := kept;
      users := users - {user};
      r := Removed;
    }
  }

  // ---------- runs ----------

  predicate IsRun(check: SignatureCheck, db: Tables, calls: seq<Call>)
    decreases |calls|
  {
    calls == [] || (Enabled(db, calls[0]) && IsRun(check, Apply(check, db, calls[0]), calls[1..]))
  }

  function RunFrom(check: SignatureCheck, db: Tables, calls: seq<Call>): Tables
    decreases |calls|
  {
    if calls == [] then db else RunFrom(check, Apply(check, db, calls[0]), calls[1..])
  }

  /** A challenge and its time come and go together, each device has its user, and no two devices share a key. */
  predicate Consistent(db: Tables) {
    && (forall d | d in db.devices :: db.devices[d].challenge.Some? <==> db.devices[d].challengedAt.Some?)
    && (forall d | d in db.devices :: db.devices[d].user in db.users)
    && (forall d, e | d in db.devices && e in db.devices ::
          db.devices[d].publicKey == db.devices[e].publicKey ==> d == e)
  }

  lemma StepConsistent(check: SignatureCheck, db: Tables, call: Call)
    requires Consistent(db)
    ensures Consistent(Apply(check, db, call))
  {
  }

  lemma {:induction false} RunConsistent(check: SignatureCheck, db: Tables, calls: seq<Call>)
    requires Consistent(db)
    ensures Consistent(RunFrom(check, db, calls))
    decreases |calls|
  {
    hide Consistent, Apply;
    if calls != [] {
      StepConsistent(check, db, calls[0]);
      RunConsistent(check, Apply(check, db, calls[0]), calls[1..]);
    }
  }

  // ---------- exactly what each call does ----------

  /** A device is registered exactly when its key is new: with its user, and without a challenge. */
  lemma RegisterExactly(check: SignatureCheck, db: Tables, d: DeviceId, user: UserId, key: string)
    requires Enabled(db, Register(d, user, key))
    ensures var taken := exists e :: e in db.devices && db.devices[e].publicKey == key;
            var call := Register(d, user, key);
            var (answer, after) := (Answer(check, db, call), Apply(check, db, call));
            && (taken ==> answer == DuplicateKey && after == db)
            && (!taken ==>
                  && answer == Registered(d) && after.users == db.users + {user}
                  && after.devices.Keys == db.devices.Keys + {d}
                  && after.devices[d] == Device(user, key, None, None)
                  && forall e | e in db.devices :: after.devices[e] == db.devices[e])
  {
  }

  /** Removing a user takes the user and all of its devices out, and nothing else; or nothing at all. */
  lemma RemoveUserExactly(check: SignatureCheck, db: Tables, user: UserId, referenced: bool)
    ensures var call := RemoveUser(user, referenced);
            var (answer, after) := (Answer(check, db, call), Apply(check, db, call));
            && (answer == StillReferenced || answer == Removed)
            && (answer == StillReferenced <==> referenced && user in db.users)
            && (answer == StillReferenced ==> after == db)
            && (answer == Removed ==>
                  && user !in after.users && after.users + {user} == db.users + {user}
                  && (forall d :: d in after.devices <==> d in db.devices && db.devices[d].user != user)
                  && (forall d | d in after.devices :: after.devices[d] == db.devices[d]))
  {
  }

  /** A request or a response touches at most the challenge of its own device. */
  lemma OnlyItsChallenge(check: SignatureCheck, db: Tables, call: Call)
    requires call.Request? || call.Respond?
    ensures var after := Apply(check, db, call);
            && after.users == db.users && after.devices.Keys == db.devices.Keys
            && (call.device !in db.devices ==> Answer(check, db, call) == DeviceNotFound && after == db)
            && (forall d | d in db.devices && d != call.device :: after.devices[d] == db.devices[d])
            && (call.device in db.devices ==>
                  && after.devices[call.device].user == db.devices[call.device].user
                  && after.devices[call.device].publicKey == db.devices[call.device].publicKey)
  {
  }

  /**
   * What happens to a challenge stored at `stored`, counted from the whole second in which it was stored: for less than
   * 50 s it is given out again; up to 60 s a response logs in exactly if it signs it, and is rejected otherwise; after
   * that it has expired.
   */
  lemma LifeOfAChallenge(
    check: SignatureCheck, db: Tables, d: DeviceId, c: string, stored: Instant, now: Instant, random: string,
    response: string)
    requires d in db.devices
    requires db.devices[d].challenge == Some(c) && db.devices[d].challengedAt == Some(stored)
    ensures var age := now - (stored - stored % 1_000_000_000);
            var (request, respond) := (Request(d, now, random), Respond(d, now, response));
            && (age < 50_000_000_000 ==>
                  Answer(check, db, request) == Challenged(c) && Apply(check, db, request) == db)
            && (age >= 50_000_000_000 ==>
                  Answer(check, db, request) == Challenged(random)
                  && Apply(check, db, request).devices[d].challenge == Some(random)
                  && Apply(check, db, request).devices[d].challengedAt == Some(now))
            && (age > 60_000_000_000 ==> Answer(check, db, respond) == ChallengeExpired)
            && (age <= 60_000_000_000 ==>
                  if check(db.devices[d].publicKey, c, response)
                  then Answer(check, db, respond) == LoggedIn(db.devices[d].user)
                       && Apply(check, db, respond).devices[d].challenge == None
                       && Apply(check, db, respond).devices[d].challengedAt == None
                  else Answer(check, db, respond) == InvalidResponse)
  {
    CutToTheSecond(stored);
  }

  lemma CutToTheSecond(stored: Instant)
    ensures ParseTimestamp(stored) == stored - stored % 1_000_000_000
  {
  }

  /** Without a challenge a request stores one and a response is refused. */
  lemma LifeWithoutAChallenge(
    check: SignatureCheck, db: Tables, d: DeviceId, now: Instant, random: string, response: string)
    requires d in db.devices && db.devices[d].challengedAt == None
    ensures Answer(check, db, Request(d, now, random)) == Challenged(random)
    ensures Apply(check, db, Request(d, now, random)).devices[d].challenge == Some(random)
    ensures Apply(check, db, Request(d, now, random)).devices[d].challengedAt == Some(now)
    ensures Answer(check, db, Respond(d, now, response)) == NotChallenged
  {
  }

  // ---------- calls that change nothing ----------

  /** The answers that come with a change of the tables. */
  predicate Changes(db: Tables, call: Call, answer: Outcome) {
    answer.Registered? || answer.Removed? || answer.LoggedIn? || Stores(db, call)
  }

  /** A call that fails, or that gives a stored challenge out again, leaves the tables as they were. */
  lemma NoChangeWithoutReason(check: SignatureCheck, db: Tables, call: Call)
    ensures !Changes(db, call, Answer(check, db, call)) ==> Apply(check, db, call) == db
  {
  }

  /** The calls of a run without those that change nothing. */
  function Effective(check: SignatureCheck, db: Tables, calls: seq<Call>): seq<Call>
    decreases |calls|
  {
    if calls == [] then []
    else
      (if Changes(db, calls[0], Answer(check, db, calls[0])) then [calls[0]] else [])
      + Effective(check, Apply(check, db, calls[0]), calls[1..])
  }

  /** Deleting all calls that failed, wrong responses among them, changes neither the tables nor any later answer. */
  lemma {:induction false} FailedCallsAreInvisible(check: SignatureCheck, db: Tables, calls: seq<Call>, later: Call)
    ensures RunFrom(check, db, Effective(check, db, calls)) == RunFrom(check, db, calls)
    ensures Answer(check, RunFrom(check, db, Effective(check, db, calls)), later)
         == Answer(check, RunFrom(check, db, calls), later)
    decreases |calls|
  {
    hide Apply, Answer, Changes;
    if calls != [] {
      var (call, next) := (calls[0], Apply(check, db, calls[0]));
      var rest := Effective(check, next, calls[1..]);
      FailedCallsAreInvisible(check, next, calls[1..], later);
      NoChangeWithoutReason(check, db, call);
      if Changes(db, call, Answer(check, db, call)) {
        assert ([call] + rest)[1..] == rest;
      } else {
        assert [] + rest == rest;
      }
    }
  }

  // ---------- one login for one challenge ----------

  function Logins(check: SignatureCheck, db: Tables, calls: seq<Call>, d: DeviceId): nat
    decreases |calls|
  {
    if calls == [] then 0
    else
      (if calls[0].Respond? && calls[0].device == d && Answer(check, db, calls[0]).LoggedIn? then 1 else 0)
      + Logins(check, Apply(check, db, calls[0]), calls[1..], d)
  }

  function Stored(check: SignatureCheck, db: Tables, calls: seq<Call>, d: DeviceId): nat
    decreases |calls|
  {
    if calls == [] then 0
    else
      (if Stores(db, calls[0]) && calls[0].device == d then 1 else 0)
      + Stored(check, Apply(check, db, calls[0]), calls[1..], d)
  }

  function Pending(db: Tables, d: DeviceId): nat {
    if d in db.devices && db.devices[d].challenge.Some? then 1 else 0
  }

  lemma StepSpendsChallenge(check: SignatureCheck, db: Tables, call: Call, d: DeviceId)
    requires Consistent(db) && Enabled(db, call)
    ensures (if call.Respond? && call.device == d && Answer(check, db, call).LoggedIn? then 1 else 0)
            + Pending(Apply(check, db, call), d)
         <= (if Stores(db, call) && call.device == d then 1 else 0) + Pending(db, d)
  {
  }

  /** Every login spends a challenge that was stored for the device; one that is still stored is not spent. */
  lemma {:induction false} LoginsSpendChallenges(check: SignatureCheck, db: Tables, calls: seq<Call>, d: DeviceId)
    requires Consistent(db) && IsRun(check, db, calls)
    ensures Logins(check, db, calls, d) + Pending(RunFrom(check, db, calls), d)
         <= Stored(check, db, calls, d) + Pending(db, d)
    decreases |calls|
  {
    hide Consistent, Apply, Answer, Stores, Pending;
    if calls != [] {
      StepConsistent(check, db, calls[0]);
      StepSpendsChallenge(check, db, calls[0], d);
      LoginsSpendChallenges(check, Apply(check, db, calls[0]), calls[1..], d);
    }
  }

  /** From an empty table: the two columns agree, and successful logins never outnumber the challenges stored. */
  lemma ChallengesAreSpentOnce(check: SignatureCheck, calls: seq<Call>, d: DeviceId)
    requires IsRun(check, NO_ROWS, calls)
    ensures Consistent(RunFrom(check, NO_ROWS, calls))
    ensures Logins(check, NO_ROWS, calls, d) + Pending(RunFrom(check, NO_ROWS, calls), d)
         <= Stored(check, NO_ROWS, calls, d)
  {
    RunConsistent(check, NO_ROWS, calls);
    LoginsSpendChallenges(check, NO_ROWS, calls, d);
  }

  // ---------- ten seconds ----------

  /** How long a returned challenge is sure to be good: 60 s less 50 s, and the nanosecond between `<` and `>`. */
  const TIME_TO_ANSWER: int := 10 * SECOND + 1

  /** The clock does not go back, starting from `since`. */
  predicate ClockFrom(calls: seq<Call>, since: Instant)
    decreases |calls|
  {
    calls == [] ||
    (if calls[0].Request? || calls[0].Respond? then calls[0].now >= since && ClockFrom(calls[1..], calls[0].now)
     else ClockFrom(calls[1..], since))
  }

  lemma {:induction false} EarlierClock(calls: seq<Call>, since: Instant, earlier: Instant)
    requires ClockFrom(calls, since) && earlier <= since
    ensures ClockFrom(calls, earlier)
    decreases |calls|
  {
    if calls != [] && !calls[0].Request? && !calls[0].Respond? {
      EarlierClock(calls[1..], since, earlier);
    }
  }

  /** If there is a challenge for the device, it is good until `deadline`. */
  predicate GoodUntil(db: Tables, d: DeviceId, deadline: Instant) {
    d in db.devices && db.devices[d].challengedAt.Some? ==> !IsExpired(db.devices[d].challengedAt.value, deadline)
  }

  lemma StoredIsGood(stored: Instant, since: Instant)
    requires stored >= since
    ensures !IsExpired(stored, since + TIME_TO_ANSWER)
  {
  }

  lemma RecentIsGood(stored: Instant, now: Instant)
    requires now - ParseTimestamp(stored) < 50 * SECOND
    ensures !IsExpired(stored, now + TIME_TO_ANSWER)
  {
    hide ParseTimestamp;
  }

  lemma StepStaysGood(check: SignatureCheck, db: Tables, call: Call, d: DeviceId, since: Instant)
    requires GoodUntil(db, d, since + TIME_TO_ANSWER)
    requires call.Request? ==> call.now >= since
    ensures GoodUntil(Apply(check, db, call), d, since + TIME_TO_ANSWER)
  {
    hide IsExpired, IsRecent;
    if Stores(db, call) && call.device == d {
      StoredIsGood(call.now, since);
    }
  }

  lemma {:induction false} StaysGood(
    check: SignatureCheck, db: Tables, calls: seq<Call>, d: DeviceId, since: Instant)
    requires GoodUntil(db, d, since + TIME_TO_ANSWER) && ClockFrom(calls, since)
    ensures GoodUntil(RunFrom(check, db, calls), d, since + TIME_TO_ANSWER)
    decreases |calls|
  {
    hide GoodUntil, Apply;
    if calls != [] {
      StepStaysGood(check, db, calls[0], d, since);
      if calls[0].Request? || calls[0].Respond? {
        EarlierClock(calls[1..], calls[0].now, since);
      }
      StaysGood(check, Apply(check, db, calls[0]), calls[1..], d, since);
    }
  }

  lemma RequestIsGood(check: SignatureCheck, db: Tables, request: Call)
    requires request.Request?
    ensures GoodUntil(Apply(check, db, request), request.device, request.now + TIME_TO_ANSWER)
  {
    hide IsExpired, ParseTimestamp;
    if request.device in db.devices {
      if IsRecent(db.devices[request.device], request.now) {
        RecentIsGood(db.devices[request.device].challengedAt.value, request.now);
      } else {
        StoredIsGood(request.now, request.now);
      }
    }
  }

  /**
   * For ten seconds and a nanosecond after a challenge was asked for, no response is answered "Challenge expired",
   * whatever calls come in between; the times are cut to whole seconds, and 60 - 50 leaves room for that.
   */
  lemma TenSecondsToAnswer(
    check: SignatureCheck, db: Tables, request: Call, between: seq<Call>, now: Instant, response: string)
    requires request.Request? && now <= request.now + TIME_TO_ANSWER
    requires ClockFrom(between + [Respond(request.device, now, response)], request.now)
    ensures var db' := RunFrom(check, Apply(check, db, request), between);
            Answer(check, db', Respond(request.device, now, response)) != ChallengeExpired
  {
    hide Apply, IsExpired;
    var last := Respond(request.device, now, response);
    ClockOfPrefix(between, [last], request.now);
    RequestIsGood(check, db, request);
    StaysGood(check, Apply(check, db, request), between, request.device, request.now);
    var db' := RunFrom(check, Apply(check, db, request), between);
    if request.device in db'.devices && db'.devices[request.device].challengedAt.Some? {
      NotExpiredBefore(db'.devices[request.device].challengedAt.value, request.now + TIME_TO_ANSWER, now);
    }
  }

  lemma NotExpiredBefore(stored: Instant, later: Instant, now: Instant)
    requires !IsExpired(stored, later) && now <= later
    ensures !IsExpired(stored, now)
  {
  }

  lemma {:induction false} ClockOfPrefix(calls: seq<Call>, rest: seq<Call>, since: Instant)
    requires ClockFrom(calls + rest, since)
    ensures ClockFrom(calls, since)
    decreases |calls|
  {
    if calls != [] {
      assert (calls + rest)[1..] == calls[1..] + rest;
      ClockOfPrefix(calls[1..], rest, if calls[0].Request? || calls[0].Respond? then calls[0].now else since);
    }
  }

  /** The call takes the device away, replaces its challenge or spends it. */
  predicate Disturbs(check: SignatureCheck, db: Tables, call: Call, d: DeviceId) {
    match call
    case Register(_, _, _) => false
    case RemoveUser(user, _) => d in db.devices && db.devices[d].user == user && Answer(check, db, call).Removed?
    case Request(e, _, _) => e == d && Stores(db, call)
    case Respond(e, _, _) => e == d && Answer(check, db, call).LoggedIn?
  }

  predicate LeaveAlone(check: SignatureCheck, db: Tables, calls: seq<Call>, d: DeviceId)
    decreases |calls|
  {
    calls == [] ||
    (!Disturbs(check, db, calls[0], d) && LeaveAlone(check, Apply(check, db, calls[0]), calls[1..], d))
  }

  lemma {:induction false} RowStays(check: SignatureCheck, db: Tables, calls: seq<Call>, d: DeviceId)
    requires IsRun(check, db, calls) && LeaveAlone(check, db, calls, d) && d in db.devices
    ensures var end := RunFrom(check, db, calls); d in end.devices && end.devices[d] == db.devices[d]
    decreases |calls|
  {
    if calls != [] {
      RowStays(check, Apply(check, db, calls[0]), calls[1..], d);
    }
  }

  /**
   * The challenge that a request returns is the one that the answer is checked against: within that time, with other
   * devices doing what they like and any number of failed responses before, the device is logged in exactly when its
   * response signs that challenge.
   */
  lemma PromptAnswerDecides(
    check: SignatureCheck, db: Tables, request: Call, between: seq<Call>, now: Instant, response: string)
    requires Consistent(db) && request.Request? && request.device in db.devices
    requires now <= request.now + TIME_TO_ANSWER
    requires var after := Apply(check, db, request);
             IsRun(check, after, between) && LeaveAlone(check, after, between, request.device)
    ensures Answer(check, db, request).Challenged?
    ensures var c := Answer(check, db, request).challenge;
            var device := db.devices[request.device];
            var db' := RunFrom(check, Apply(check, db, request), between);
            Answer(check, db', Respond(request.device, now, response))
            == if check(device.publicKey, c, response) then LoggedIn(device.user) else InvalidResponse
  {
    hide IsExpired, RunFrom, ParseTimestamp;
    var after := Apply(check, db, request);
    RequestIsGood(check, db, request);
    RowStays(check, after, between, request.device);
    NotExpiredBefore(after.devices[request.device].challengedAt.value, request.now + TIME_TO_ANSWER, now);
  }

  /** A nanosecond later can be too late: a challenge may be given out again at the very end of its 50 seconds. */
  lemma TimeToAnswerIsTight(check: SignatureCheck, user: UserId, key: string, challenge: string, response: string)
    ensures var calls := [Register("d", user, key), Request("d", 0, challenge)];
            var request := Request("d", 50 * SECOND - 1, "");
            var late := Respond("d", request.now + TIME_TO_ANSWER + 1, response);
            var db := RunFrom(check, NO_ROWS, calls);
            && IsRun(check, NO_ROWS, calls)
            && Answer(check, db, request) == Challenged(challenge)
            && Answer(check, Apply(check, db, request), late) == ChallengeExpired
  {
    var register, store := Register("d", user, key), Request("d", 0, challenge);
    var db1 := Apply(check, NO_ROWS, register);
    var db2 := Apply(check, db1, store);
    assert [register, store][1..] == [store] && [store][1..] == [];
    assert db2.devices["d"] == Device(user, key, Some(challenge), Some(0));
    assert RunFrom(check, db1, [store]) == RunFrom(check, db2, []) == db2;
    assert IsRun(check, db2, []) && IsRun(check, db1, [store]);
    assert ParseTimestamp(0) == 0;
  }
}
