/**
 The login limiter of internal/auth/session.go: one bucket of failures per
 client, locked for longer and longer, in a map of bounded size.
 Times are nanoseconds of one clock that never runs backwards; every sample the
 source takes is a parameter of its own. None is the zero time.
 */
module Limiter {
  import opened Bytes

  const SECOND: int := 1_000_000_000
  const WINDOW: int := 3600 * SECOND
  const MAX_FAILS := 5
  const MAX_BUCKETS := 5000
  const STEPS: seq<int> := [30 * SECOND, 120 * SECOND, 600 * SECOND, 1800 * SECOND]

  datatype Attempt = Attempt(fails: int, lockUntil: Option<int>, lockLevel: nat, lastFail: Option<int>)

  const FRESH := Attempt(0, None, 0, None)

  type Buckets = map<string, Attempt>

  // The samples of one recorded failure, in the order they are taken.
  datatype Clock = Clock(since: int, now: int, sweep: int, fail: int, lock: int)

  predicate Forward(c: Clock) { c.since <= c.now <= c.sweep <= c.fail <= c.lock }

  // ----- what the calls do -----

  // Unlocked and without a failure for a full window.
  predicate Silent(e: Attempt, since: int, now: int) {
    && e.lastFail.Some? && since - e.lastFail.value > WINDOW
    && (e.lockUntil.None? || now > e.lockUntil.value)
  }

  predicate Earlier(a: Option<int>, b: Option<int>) {
    b.Some? && (a.None? || a.value < b.value)
  }

  function Pruned(m: Buckets, ip: string, since: int, now: int): Buckets {
    if ip in m && Silent(m[ip], since, now) then m - {ip} else m
  }

  function Swept(m: Buckets, now: int): Buckets { map k | k in m && !Silent(m[k], now, now) :: m[k] }

  // No bucket failed longer ago; the zero time is older than any.
  ghost predicate Oldest(m: Buckets, v: string)
    requires v in m
  {
    m[v].lastFail.Some? ==> forall k :: k in m ==> m[k].lastFail.Some? && m[v].lastFail.value <= m[k].lastFail.value
  }

  // One stalest bucket goes; which of several is up to the order of the map.
  ghost predicate Evicted(m: Buckets, r: Buckets) {
    if m == map[] then r == m
    else exists v :: v in m && Oldest(m, v) && r == m - {v}
  }

  // Making room for one new bucket.
  ghost predicate Room(m: Buckets, sweep: int, r: Buckets) {
    if |m| < MAX_BUCKETS then r == m
    else if |Swept(m, sweep)| < MAX_BUCKETS then r == Swept(m, sweep)
    else Evicted(Swept(m, sweep), r)
  }

  function LockStep(level: nat): int { STEPS[if level < |STEPS| - 1 then level else |STEPS| - 1] }

  // One more failure in a bucket.
  function Bump(e: Attempt, fail: int, lock: int): Attempt {
    if e.fails + 1 >= MAX_FAILS
    then Attempt(0, Some(lock + LockStep(e.lockLevel)), e.lockLevel + 1, Some(fail))
    else Attempt(e.fails + 1, e.lockUntil, e.lockLevel, Some(fail))
  }

  ghost predicate Failed(m: Buckets, ip: string, c: Clock, r: Buckets) {
    var p := Pruned(m, ip, c.since, c.now);
    if ip in p then r == p[ip := Bump(p[ip], c.fail, c.lock)]
    else ip in r && r[ip] == Bump(FRESH, c.fail, c.lock) && Room(p, c.sweep, r - {ip})
  }

  lemma FailedOld(m: Buckets, ip: string, c: Clock, p: Buckets)
    requires p == Pruned(m, ip, c.since, c.now) && ip in p
    ensures Failed(m, ip, c, p[ip := Bump(p[ip], c.fail, c.lock)])
  {}

  lemma FailedNew(m: Buckets, ip: string, c: Clock, room: Buckets)
    requires var p := Pruned(m, ip, c.since, c.now); ip !in p && Room(p, c.sweep, room)
    requires ip !in room
    ensures Failed(m, ip, c, room[ip := Bump(FRESH, c.fail, c.lock)])
  {
    hide Room, Bump;
    assert room[ip := Bump(FRESH, c.fail, c.lock)] - {ip} == room;
  }

  lemma BumpIs(e: Attempt, fail: int, lock: int, r: Attempt)
    requires r.lastFail == Some(fail)
    requires if e.fails + 1 >= MAX_FAILS
             then r.fails == 0 && r.lockUntil == Some(lock + LockStep(e.lockLevel)) && r.lockLevel == e.lockLevel + 1
             else r.fails == e.fails + 1 && r.lockUntil == e.lockUntil && r.lockLevel == e.lockLevel
    ensures r == Bump(e, fail, lock)
  {}

  // ----- the calls -----

  class LoginLimiter {
    var attempts: Buckets

    constructor ()
      ensures attempts == map[]
    {
      attempts := map[];
    }

    method Entry(ip: string, since: int, now: int) returns (e: Option<Attempt>)
      modifies this
      ensures attempts == Pruned(old(attempts), ip, since, now)
      ensures e == if ip in attempts then Some(attempts[ip]) else None
    {
      if ip !in attempts { return None; }
      if Silent(attempts[ip], since, now) {
        attempts := attempts - {ip};
        return None;
      }
      return Some(attempts[ip]);
    }

    // Whether the client is locked out at the last sample, and the whole seconds that remain.
    method LoginLocked(ip: string, since: int, now: int, until: int) returns (locked: bool, seconds: int)
      modifies this
      ensures attempts == Pruned(old(attempts), ip, since, now)
      ensures locked <==> LockedAt(attempts, ip, until)
      ensures if locked then (seconds - 1) * SECOND < attempts[ip].lockUntil.value - until <= seconds * SECOND
              else seconds == 0
    {
      var e := Entry(ip, since, now);
      if e.None? || e.value.lockUntil.None? { return false, 0; }
      var remaining := e.value.lockUntil.value - until;
      if remaining <= 0 { return false, 0; }
      return true, (remaining + SECOND - 1) / SECOND;
    }

    method RecordLoginFail(ip: string, c: Clock) returns (left: int)
      modifies this
      ensures Failed(old(attempts), ip, c, attempts)
      ensures left == if MAX_FAILS > attempts[ip].fails then MAX_FAILS - attempts[ip].fails else 0
    {
      hide Silent, Swept, Evicted, LockStep, Pruned, Failed, Bump;
      var found := Entry(ip, c.since, c.now);
      var e := FRESH;
      ghost var room := attempts;
      if found.Some? {
        e := found.value;
      } else {
        if |attempts| >= MAX_BUCKETS {
          Sweep(c.sweep);
          if |attempts| >= MAX_BUCKETS { EvictOldest(); }
        }
        RoomKeeps(Pruned(old(attempts), ip, c.since, c.now), c.sweep, attempts);
        room := attempts;
        attempts := attempts[ip := e];
      }
      ghost var was := e;
      e := e.(fails := e.fails + 1, lastFail := Some(c.fail));
      if e.fails >= MAX_FAILS {
        e := e.(lockUntil := Some(c.lock + LockStep(e.lockLevel)), lockLevel := e.lockLevel + 1, fails := 0);
      }
      BumpIs(was, c.fail, c.lock, e);
      attempts := attempts[ip := e];
      if found.Some? {
        FailedOld(old(attempts), ip, c, room);
      } else {
        FailedNew(old(attempts), ip, c, room);
        assert attempts == room[ip := e];
      }
      left := if MAX_FAILS - e.fails > 0 then MAX_FAILS - e.fails else 0;
    }

    method RecordLoginSuccess(ip: string)
      modifies this
      ensures attempts == old(attempts) - {ip}
    {
      attempts := attempts - {ip};
    }

    method Sweep(now: int)
      modifies this
      ensures attempts == Swept(old(attempts), now)
    {
      var keys := attempts.Keys;
      while keys != {}
        invariant keys <= old(attempts).Keys
        invariant attempts == map k | k in old(attempts) && (k in keys || !Silent(old(attempts)[k], now, now))
                                :: old(attempts)[k]
        decreases |keys|
      {
        var ip :| ip in keys;
        keys := keys - {ip};
        if Silent(attempts[ip], now, now) { attempts := attempts - {ip}; }
      }
    }

    method EvictOldest()
      modifies this
      ensures Evicted(old(attempts), attempts)
    {
      var keys := attempts.Keys;
      var oldestIP, oldest: Option<int>, first := "", None, true;
      while keys != {}
        invariant keys <= attempts.Keys && (first <==> keys == attempts.Keys)
        invariant !first ==> oldestIP in attempts && oldest == attempts[oldestIP].lastFail
        invariant !first ==> forall k :: k in attempts && k !in keys ==> !Earlier(attempts[k].lastFail, oldest)
        decreases |keys|
      {
        var ip :| ip in keys;
        keys := keys - {ip};
        if first || Earlier(attempts[ip].lastFail, oldest) {
          oldestIP, oldest, first := ip, attempts[ip].lastFail, false;
        }
      }
      if !first { attempts := attempts - {oldestIP}; }
    }
  }

  predicate LockedAt(m: Buckets, ip: string, now: int) {
    ip in m && m[ip].lockUntil.Some? && now < m[ip].lockUntil.value
  }

  // ----- what holds in every reachable state -----

  const LONGEST: int := 1800 * SECOND

  // gap: the most time that ever passed between the two last samples of one call.
  predicate Sound(e: Attempt, t: int, gap: nat) {
    && 0 <= e.fails < MAX_FAILS && e.lastFail.Some? && e.lastFail.value <= t
    && (e.lockUntil.None? <==> e.lockLevel == 0)
    && (e.lockUntil.Some? ==>
      && e.lockUntil.value <= e.lastFail.value + LONGEST + gap
      && e.lockUntil.value <= t + LockStep(e.lockLevel - 1))
  }

  ghost predicate Inv(m: Buckets, t: int, gap: nat) {
    |m| <= MAX_BUCKETS && forall k :: k in m ==> Sound(m[k], t, gap)
  }

  lemma BumpSound(e: Attempt, t: int, gap: nat, fail: int, lock: int, wider: nat)
    requires e == FRESH || Sound(e, t, gap)
    requires t <= fail <= lock && gap <= wider && lock - fail <= wider
    ensures Sound(Bump(e, fail, lock), lock, wider)
  {}

  lemma Without(m: Buckets, k: string)
    requires k in m
    ensures |m - {k}| == |m| - 1
  {
    assert (m - {k}).Keys == m.Keys - {k};
  }

  lemma SweptSmaller(m: Buckets, now: int)
    ensures |Swept(m, now)| <= |m|
  {
    assert Swept(m, now).Keys <= m.Keys;
    Subset(Swept(m, now).Keys, m.Keys);
  }

  lemma Subset(a: set<string>, b: set<string>)
    requires a <= b
    ensures |a| <= |b|
  {
    assert b == a + (b - a);
  }

  // The bucket cap: room for one more.
  lemma RoomBound(m: Buckets, sweep: int, r: Buckets)
    requires |m| <= MAX_BUCKETS && Room(m, sweep, r)
    ensures |r| < MAX_BUCKETS && (forall k :: k in r ==> k in m && r[k] == m[k])
  {
    SweptSmaller(m, sweep);
    var w := Swept(m, sweep);
    if MAX_BUCKETS <= |m| && MAX_BUCKETS <= |w| {
      assert w != map[];
      var v :| v in w && r == w - {v};
      Without(w, v);
    }
  }

  lemma Wider(e: Attempt, t: int, gap: nat, later: int, wider: nat)
    requires Sound(e, t, gap) && t <= later && gap <= wider
    ensures Sound(e, later, wider)
  {}

  lemma SoundLater(m: Buckets, t: int, later: int, gap: nat)
    requires Inv(m, t, gap) && t <= later
    ensures Inv(m, later, gap)
  {
    hide Sound;
    forall k | k in m ensures Sound(m[k], later, gap) { Wider(m[k], t, gap, later, gap); }
  }

  lemma FewerKeep(m: Buckets, ip: string, t: int, gap: nat)
    requires Inv(m, t, gap)
    ensures Inv(m - {ip}, t, gap)
  {
    hide Sound;
    if ip in m { Without(m, ip); } else { assert m - {ip} == m; }
  }

  lemma FailKeeps(m: Buckets, ip: string, c: Clock, r: Buckets, t: int, gap: nat, wider: nat)
    requires Inv(m, t, gap) && t <= c.since && Forward(c) && Failed(m, ip, c, r)
    requires gap <= wider && c.lock - c.fail <= wider
    ensures Inv(r, c.lock, wider)
  {
    hide Sound, Silent, Room, Bump;
    var p := Pruned(m, ip, c.since, c.now);
    assert |p| <= |m| by { if p != m { Without(m, ip); } }
    forall k | k in m ensures Sound(m[k], c.lock, wider) { Wider(m[k], t, gap, c.lock, wider); }
    if ip in p {
      BumpSound(p[ip], t, gap, c.fail, c.lock, wider);
      assert r.Keys == p.Keys;
    } else {
      BumpSound(FRESH, t, gap, c.fail, c.lock, wider);
      RoomBound(p, c.sweep, r - {ip});
      Without(r, ip);
      forall k | k in r && k != ip ensures k in m && r[k] == m[k] {
        assert k in r - {ip};
      }
    }
  }

  // ----- whole runs -----

  datatype Op =
    | Query(ip: string, since: int, now: int)
    | Fail(ip: string, c: Clock)
    | Success(ip: string)

  ghost predicate Step(m: Buckets, op: Op, r: Buckets) {
    match op
    case Query(ip, since, now) => r == Pruned(m, ip, since, now)
    case Fail(ip, c) => Failed(m, ip, c, r)
    case Success(ip) => r == m - {ip}
  }

  // The clock never runs backwards, inside a call or from one call to the next.
  predicate InOrder(t: int, op: Op) {
    match op
    case Query(_, since, now) => t <= since <= now
    case Fail(_, c) => t <= c.since && Forward(c)
    case Success(_) => true
  }

  function End(t: int, op: Op): int {
    match op
    case Query(_, _, now) => now
    case Fail(_, c) => c.lock
    case Success(_) => t
  }

  predicate Timed(t: int, ops: seq<Op>)
    decreases |ops|
  {
    ops == [] || (InOrder(t, ops[0]) && Timed(End(t, ops[0]), ops[1..]))
  }

  function EndAll(t: int, ops: seq<Op>): int
    decreases |ops|
  {
    if ops == [] then t else EndAll(End(t, ops[0]), ops[1..])
  }

  predicate Prompt(ops: seq<Op>, gap: nat) {
    forall i :: 0 <= i < |ops| && ops[i].Fail? ==> ops[i].c.lock - ops[i].c.fail <= gap
  }

  ghost predicate Run(ms: seq<Buckets>, ops: seq<Op>) {
    |ms| == |ops| + 1 && forall i :: 0 <= i < |ops| ==> Step(ms[i], ops[i], ms[i + 1])
  }

  lemma StepKeeps(m: Buckets, op: Op, r: Buckets, t: int, gap: nat)
    requires Inv(m, t, gap) && Step(m, op, r) && InOrder(t, op) && Prompt([op], gap)
    ensures Inv(r, End(t, op), gap)
  {
    hide Inv, Silent, Failed;
    match op
    case Query(ip, since, now) =>
      SoundLater(m, t, now, gap);
      FewerKeep(m, ip, now, gap);
    case Fail(ip, c) =>
      assert [op][0].Fail?;
      FailKeeps(m, ip, c, r, t, gap, gap);
    case Success(ip) => FewerKeep(m, ip, t, gap);
  }

  // At most 5000 buckets, 0 to 4 failures, no lock past the last failure by more than the longest step.
  lemma {:induction false} RunKeeps(ms: seq<Buckets>, ops: seq<Op>, t: int, gap: nat)
    requires Run(ms, ops) && Timed(t, ops) && Prompt(ops, gap) && Inv(ms[0], t, gap)
    ensures Inv(ms[|ops|], EndAll(t, ops), gap)
    decreases |ops|
  {
    if ops != [] {
      assert Step(ms[0], ops[0], ms[1]);
      StepKeeps(ms[0], ops[0], ms[1], t, gap);
      forall i | 0 <= i < |ops[1..]| ensures Step(ms[1..][i], ops[1..][i], ms[1..][i + 1]) {
        assert Step(ms[i + 1], ops[i + 1], ms[i + 2]);
      }
      RunKeeps(ms[1..], ops[1..], End(t, ops[0]), gap);
    }
  }

  // A bucket is dropped for silence exactly after a silent window: the lock never matters to it.
  lemma SilenceIsEnough(m: Buckets, ip: string, t: int, gap: nat, since: int, now: int)
    requires Inv(m, t, gap) && ip in m && gap <= WINDOW - LONGEST && since <= now
    ensures Silent(m[ip], since, now) <==> since - m[ip].lastFail.value > WINDOW
  {
    assert Sound(m[ip], t, gap);
  }

  // The instant at which a call decides what to drop.
  function Decides(op: Op): Option<int> {
    match op
    case Query(_, _, now) => Some(now)
    case Fail(_, c) => Some(c.sweep)
    case Success(_) => None
  }

  lemma FullSweep(m: Buckets, now: int)
    requires |m| <= |Swept(m, now)|
    ensures Swept(m, now) == m
  {
    var w := Swept(m, now);
    assert m.Keys == w.Keys + (m.Keys - w.Keys);
    assert m.Keys - w.Keys == {};
    assert forall k :: k in m ==> k in w.Keys;
  }

  // A bucket with a live lock goes by a successful login or, in a full map
  // without a silent bucket, as the stalest one; else the lock is never shortened.
  lemma LiveLockStays(m: Buckets, op: Op, r: Buckets, ip: string, t: int, gap: nat)
    requires Inv(m, t, gap) && Step(m, op, r) && InOrder(t, op)
    requires LockedAt(m, ip, if Decides(op).Some? then Decides(op).value else t)
    ensures ip in r ==> r[ip].lockUntil.Some? && m[ip].lockUntil.value <= r[ip].lockUntil.value
    ensures ip !in r ==> op == Success(ip) || (op.Fail? && op.ip != ip && Stalest(m, ip, op.c.sweep))
  {
    assert Sound(m[ip], t, gap);
    match op
    case Query(_, _, _) =>
    case Success(_) =>
    case Fail(who, c) =>
      var p := Pruned(m, who, c.since, c.now);
      if who != ip && who !in p {
        if p != m { Without(m, who); }
        FreshFail(p, who, c, r, ip);
      }
  }

  // Nobody has been silent for a window, nobody failed longer ago, and the map is full.
  ghost predicate Stalest(m: Buckets, ip: string, now: int) {
    && |m| == MAX_BUCKETS && ip in m
    && (forall k :: k in m ==> !Silent(m[k], now, now)) && Oldest(m, ip)
  }

  // A new bucket leaves the locked one alone, or evicts it as the stalest.
  lemma FreshFail(p: Buckets, who: string, c: Clock, r: Buckets, ip: string)
    requires who in r && Room(p, c.sweep, r - {who}) && |p| <= MAX_BUCKETS && who != ip && LockedAt(p, ip, c.sweep)
    ensures ip in r ==> r[ip] == p[ip]
    ensures ip !in r ==> Stalest(p, ip, c.sweep)
  {
    var w := Swept(p, c.sweep);
    assert ip in w;
    assert ip in r <==> ip in r - {who};
    if ip in r {
      RoomBound(p, c.sweep, r - {who});
      assert r[ip] == (r - {who})[ip];
    } else {
      FullSweep(p, c.sweep);
      assert forall k :: k in p ==> k in w && !Silent(p[k], c.sweep, c.sweep);
    }
  }

  // ----- the schedule of locks -----

  // A bucket after the failures at the given samples.
  function After(fs: seq<(int, int)>): Attempt {
    if fs == [] then FRESH
    else Bump(After(fs[..|fs| - 1]), fs[|fs| - 1].0, fs[|fs| - 1].1)
  }

  // The n-th lock falls on failure 5n, with step n of the schedule, the last step for every later one.
  lemma {:induction false} Schedule(fs: seq<(int, int)>)
    ensures var e, n := After(fs), |fs| / MAX_FAILS;
            && e.fails == |fs| % MAX_FAILS && e.lockLevel == n
            && e.lockUntil == (if n == 0 then None
                              else Some(fs[MAX_FAILS * n - 1].1 + STEPS[if n < |STEPS| then n - 1 else |STEPS| - 1]))
            && e.lastFail == if fs == [] then None else Some(fs[|fs| - 1].0)
  {
    if fs != [] { Schedule(fs[..|fs| - 1]); }
  }

  // The failures recorded for one client.
  function Failures(ops: seq<Op>, ip: string): seq<(int, int)> {
    if ops == [] then []
    else
      var last := ops[|ops| - 1];
      Failures(ops[..|ops| - 1], ip) + Own(last, ip)
  }

  // No two failures of the client lie more than a window apart.
  predicate Steady(ops: seq<Op>, ip: string) {
    forall n :: 0 <= n < |ops| && ops[n].Fail? && ops[n].ip == ip && Failures(ops[..n], ip) != [] ==>
      var fs := Failures(ops[..n], ip); ops[n].c.since - fs[|fs| - 1].0 <= WINDOW
  }

  // What a bucket counts so far.
  ghost predicate Counts(m: Buckets, ip: string, fs: seq<(int, int)>) {
    if fs == [] then ip !in m else ip in m && m[ip] == After(fs)
  }

  lemma OwnFail(m: Buckets, ip: string, c: Clock, r: Buckets, fs: seq<(int, int)>)
    requires Failed(m, ip, c, r) && Counts(m, ip, fs)
    requires fs != [] ==> c.since - fs[|fs| - 1].0 <= WINDOW
    ensures Counts(r, ip, fs + [(c.fail, c.lock)])
  {
    hide Room, Bump;
    var gs := fs + [(c.fail, c.lock)];
    assert gs[..|gs| - 1] == fs && gs[|gs| - 1] == (c.fail, c.lock);
    assert After(gs) == Bump(After(fs), c.fail, c.lock);
    LastFail(fs);
    var p := Pruned(m, ip, c.since, c.now);
    assert p == m;
    assert After([]) == FRESH;
  }

  lemma LastFail(fs: seq<(int, int)>)
    ensures fs != [] ==> After(fs).lastFail == Some(fs[|fs| - 1].0)
  {}

  lemma OtherFail(m: Buckets, who: string, c: Clock, r: Buckets, ip: string)
    requires Failed(m, who, c, r) && who != ip
    ensures ip in r ==> ip in m && r[ip] == m[ip]
  {
    hide Bump, Silent;
    var p := Pruned(m, who, c.since, c.now);
    if who !in p {
      var q := r - {who};
      assert ip in r ==> ip in q && q[ip] == r[ip];
      RoomKeeps(p, c.sweep, q);
    }
  }

  lemma RoomKeeps(m: Buckets, sweep: int, r: Buckets)
    requires Room(m, sweep, r)
    ensures forall k :: k in r ==> k in m && r[k] == m[k]
  {}

  lemma StepCounts(m: Buckets, op: Op, r: Buckets, ip: string, fs: seq<(int, int)>)
    requires Step(m, op, r) && Counts(m, ip, fs) && (fs != [] ==> ip in r)
    requires op.Fail? && op.ip == ip && fs != [] ==> op.c.since - fs[|fs| - 1].0 <= WINDOW
    ensures Counts(r, ip, fs + Own(op, ip))
  {
    hide After, Failed;
    assert fs + [] == fs;
    match op
    case Query(_, _, _) =>
    case Success(_) =>
    case Fail(who, c) =>
      if who == ip { OwnFail(m, ip, c, r, fs); } else { OtherFail(m, who, c, r, ip); }
  }

  function Own(op: Op, ip: string): seq<(int, int)> {
    if op.Fail? && op.ip == ip then [(op.c.fail, op.c.lock)] else []
  }

  // In any run, whatever other clients do: while the bucket is never dropped it counts every failure.
  lemma {:induction false} RunCounts(ms: seq<Buckets>, ops: seq<Op>, ip: string)
    requires Run(ms, ops) && Steady(ops, ip) && ip !in ms[0]
    requires forall n :: 0 <= n <= |ops| && Failures(ops[..n], ip) != [] ==> ip in ms[n]
    ensures Counts(ms[|ops|], ip, Failures(ops, ip))
    decreases |ops|
  {
    hide Step, Counts, Steady, Run, After;
    assert |ms| == |ops| + 1 by { RunLength(ms, ops); }
    if ops == [] {
      assert Counts(ms[0], ip, []) by { CountsNone(ms[0], ip); }
    } else {
      var last := |ops| - 1;
      var was, fs := ops[..last], Failures(ops[..last], ip);
      assert forall n :: 0 <= n <= last ==> was[..n] == ops[..n];
      RunPart(ms, ops);
      SteadyPart(ops, ip);
      RunCounts(ms[..|ops|], was, ip);
      assert ops[..|ops|] == ops && Failures(ops, ip) == fs + Own(ops[last], ip);
      StepCounts(ms[last], ops[last], ms[|ops|], ip, fs);
    }
  }

  lemma CountsNone(m: Buckets, ip: string)
    requires ip !in m
    ensures Counts(m, ip, [])
  {}

  lemma RunLength(ms: seq<Buckets>, ops: seq<Op>)
    requires Run(ms, ops)
    ensures |ms| == |ops| + 1
  {}

  lemma SteadyPart(ops: seq<Op>, ip: string)
    requires Steady(ops, ip) && ops != []
    ensures Steady(ops[..|ops| - 1], ip)
    ensures var op, fs := ops[|ops| - 1], Failures(ops[..|ops| - 1], ip);
            op.Fail? && op.ip == ip && fs != [] ==> op.c.since - fs[|fs| - 1].0 <= WINDOW
  {
    hide Failures;
    assert forall n :: 0 <= n < |ops| ==> ops[..|ops| - 1][..n] == ops[..n];
  }

  lemma RunPart(ms: seq<Buckets>, ops: seq<Op>)
    requires Run(ms, ops) && ops != []
    ensures |ms| == |ops| + 1 && Run(ms[..|ops|], ops[..|ops| - 1])
    ensures Step(ms[|ops| - 1], ops[|ops| - 1], ms[|ops|])
  {
    hide Step;
    forall i | 0 <= i < |ops| - 1 ensures Step(ms[..|ops|][i], ops[..|ops| - 1][i], ms[..|ops|][i + 1]) {
      assert Step(ms[i], ops[i], ms[i + 1]);
    }
  }
}
