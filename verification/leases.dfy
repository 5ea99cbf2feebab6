/**
 The lease table of internal/db/leases.go and its protocol. Instants are
 nanoseconds; the table keeps whole seconds, as its RFC 3339 strings do.
 */
module Leases {
  import opened Bytes

  const SECOND: nat := 1_000_000_000

  function Sec(t: nat): nat { t / SECOND }

  // A deadline of c whole seconds has not passed at instant t.
  predicate Live(c: nat, t: nat) { c * SECOND > t }

  lemma LiveExact(c: nat, t: nat)
    ensures Live(c, t) <==> c > Sec(t)
  {
  }

  type Value = nat

  datatype Row = Row(value: Value, expires: nat, updated: nat)

  datatype LeaseId = LeaseId(scope: string, key: string)

  // ----- the SQL statements: each is one atomic step on the row of one id -----

  function Takeover(row: Option<Row>, value: Value, now: nat, exp: nat): (Option<Row>, bool) {
    if row.Some? && row.value.expires <= now then (Some(Row(value, exp, now)), true) else (row, false)
  }

  function Insert(row: Option<Row>, value: Value, now: nat, exp: nat): (Option<Row>, bool) {
    if row.None? then (Some(Row(value, exp, now)), true) else (row, false)
  }

  function Extend(row: Option<Row>, value: Value, now: nat, exp: nat): (Option<Row>, bool) {
    if row.Some? && row.value.value == value && row.value.expires > now
    then (Some(row.value.(expires := exp, updated := now)), true) else (row, false)
  }

  function Drop(row: Option<Row>, value: Value): Option<Row> {
    if row.Some? && row.value.value == value then None else row
  }

  // ----- the repository, one caller at a time -----

  class Repo {
    var rows: map<LeaseId, Row>

    constructor ()
      ensures rows == map[]
    {
      rows := map[];
    }

    function At(id: LeaseId): Option<Row>
      reads this
    {
      if id in rows then Some(rows[id]) else None
    }

    // Present and unexpired, else nothing.
    method ReadLease(id: LeaseId, now: nat) returns (r: Option<Row>)
      ensures r == if id in rows && Live(rows[id].expires, now) then Some(rows[id]) else None
    {
      if id !in rows { return None; }
      var row := rows[id];
      if !(row.expires * SECOND > now) { return None; }
      return Some(row);
    }

    // A claim with nothing in between succeeds exactly when no live row exists,
    // whoever owned the row, and touches no other id.
    method AcquireLease(id: LeaseId, value: Value, ttl: nat, now: nat) returns (ok: bool)
      modifies this
      ensures ok <==> !(id in old(rows) && Live(old(rows)[id].expires, now))
      ensures rows == if ok then old(rows)[id := Row(value, Sec(now + ttl), Sec(now))] else old(rows)
    {
      var taken := Takeover(At(id), value, Sec(now), Sec(now + ttl));
      if id in rows { LiveExact(rows[id].expires, now); }
      if taken.1 {
        rows := rows[id := taken.0.value];
        return true;
      }
      var inserted := Insert(At(id), value, Sec(now), Sec(now + ttl));
      if inserted.1 {
        rows := rows[id := inserted.0.value];
      }
      return inserted.1;
    }

    // Compare and extend.
    method RefreshLease(id: LeaseId, value: Value, ttl: nat, now: nat) returns (ok: bool)
      modifies this
      ensures ok <==> id in old(rows) && old(rows)[id].value == value && Live(old(rows)[id].expires, now)
      ensures rows == if ok then old(rows)[id := Row(value, Sec(now + ttl), Sec(now))] else old(rows)
    {
      if id in rows { LiveExact(rows[id].expires, now); }
      var extended := Extend(At(id), value, Sec(now), Sec(now + ttl));
      if extended.1 {
        rows := rows[id := extended.0.value];
      }
      return extended.1;
    }

    // Compare and delete.
    method ReleaseLease(id: LeaseId, value: Value)
      modifies this
      ensures rows == if id in old(rows) && old(rows)[id].value == value then old(rows) - {id} else old(rows)
    {
      if Drop(At(id), value) != At(id) {
        rows := rows - {id};
      }
    }
  }

  // ----- many processes, one row -----

  // Between reading its clock and the end of a call a process can be overtaken
  // by anything. Acquire runs two statements, with the same sampled instant.
  datatype Phase =
    | Idle
    | Taking(now: nat)
    | Inserting(now: nat)
    | Refreshing(now: nat)
    | Releasing

  // claim: the deadline up to which the process counts on the lease.
  // sampled: the last instant it read from its clock.
  datatype Proc = Proc(phase: Phase, claim: Option<nat>, sampled: nat)

  datatype State = State(clock: nat, row: Option<Row>, procs: seq<Proc>)

  // What does not change: each process's own value and ttl.
  datatype Config = Config(values: seq<Value>, ttls: seq<nat>)

  ghost predicate ValidConfig(c: Config) {
    |c.values| == |c.ttls|
    && forall p, q :: 0 <= p < |c.values| && 0 <= q < |c.values| && p != q ==> c.values[p] != c.values[q]
  }

  // One statement of process p and what it learns from it. An answer that is
  // lost leaves the process with the claim it had.
  function Statement(c: Config, s: State, p: nat, answered: bool): State
    requires p < |s.procs| == |c.values| == |c.ttls|
  {
    var me := s.procs[p];
    var value := c.values[p];
    match me.phase
    case Idle => s
    case Taking(now) =>
      var exp := Sec(now + c.ttls[p]);
      var (row, ok) := Takeover(s.row, value, Sec(now), exp);
      s.(row := row, procs := s.procs[p :=
        if ok then me.(phase := Idle, claim := if answered then Some(exp) else me.claim)
        else me.(phase := if answered then Inserting(now) else Idle)])
    case Inserting(now) =>
      var exp := Sec(now + c.ttls[p]);
      var (row, ok) := Insert(s.row, value, Sec(now), exp);
      s.(row := row, procs := s.procs[p := me.(phase := Idle, claim := if ok && answered then Some(exp) else me.claim)])
    case Refreshing(now) =>
      var exp := Sec(now + c.ttls[p]);
      var (row, ok) := Extend(s.row, value, Sec(now), exp);
      s.(row := row, procs := s.procs[p := me.(phase := Idle,
        claim := if !answered then me.claim else if ok then Some(exp) else None)])
    case Releasing =>
      s.(row := Drop(s.row, value), procs := s.procs[p := me.(phase := Idle)])
  }

  datatype Event =
    | Tick(d: nat)
    | BeginAcquire(p: nat)
    | BeginRefresh(p: nat)
    | BeginRelease(p: nat)
    | Run(p: nat, answered: bool)   // the pending statement of p runs
    | Fail(p: nat)                  // it never runs
    | Crash(p: nat)

  function Step(c: Config, s: State, e: Event): State
    requires |s.procs| == |c.values| == |c.ttls|
  {
    if e.Tick? then s.(clock := s.clock + e.d)
    else if e.p >= |s.procs| then s
    else
      var me := s.procs[e.p];
      match e
      case BeginAcquire(p) => if me.phase.Idle? then Sample(s, p, Taking(s.clock)) else s
      case BeginRefresh(p) => if me.phase.Idle? then Sample(s, p, Refreshing(s.clock)) else s
      case BeginRelease(p) =>
        if me.phase.Idle? then s.(procs := s.procs[p := me.(phase := Releasing, claim := None)]) else s
      case Run(p, answered) => Statement(c, s, p, answered)
      case Fail(p) => s.(procs := s.procs[p := me.(phase := Idle)])
      case Crash(p) => s.(procs := s.procs[p := me.(phase := Idle, claim := None)])
  }

  function Sample(s: State, p: nat, phase: Phase): State
    requires p < |s.procs|
  {
    s.(procs := s.procs[p := s.procs[p].(phase := phase, sampled := s.clock)])
  }

  // Nobody claims anything yet; the row may be left over from anyone.
  ghost predicate Init(c: Config, s: State) {
    |s.procs| == |c.values|
    && forall p :: 0 <= p < |s.procs| ==> s.procs[p] == Proc(Idle, None, 0)
  }

  function Reach(c: Config, s: State, events: seq<Event>): (r: State)
    requires |s.procs| == |c.values| == |c.ttls|
    ensures |r.procs| == |s.procs|
    decreases |events|
  {
    if events == [] then s else Reach(c, Step(c, s, events[0]), events[1..])
  }

  // Process p counts on the lease at this instant.
  predicate Holds(s: State, p: nat) {
    p < |s.procs| && s.procs[p].claim.Some? && Live(s.procs[p].claim.value, s.clock)
  }

  // A process that holds the lease owns the row, for at least as long.
  ghost predicate Owns(c: Config, s: State, p: nat)
    requires p < |s.procs| == |c.values| == |c.ttls|
  {
    var me := s.procs[p];
    && me.sampled <= s.clock
    && (me.phase.Taking? || me.phase.Inserting? || me.phase.Refreshing? ==> me.phase.now == me.sampled)
    && (me.phase.Releasing? ==> me.claim.None?)
    && (me.claim.Some? ==> me.claim.value <= Sec(me.sampled + c.ttls[p]))
    && (Holds(s, p) ==> s.row.Some? && s.row.value.value == c.values[p] && s.row.value.expires >= me.claim.value)
  }

  ghost predicate Inv(c: Config, s: State) {
    && ValidConfig(c) && |s.procs| == |c.values|
    && forall p :: 0 <= p < |s.procs| ==> Owns(c, s, p)
  }

  lemma SecMonotone(a: nat, b: nat)
    requires a <= b
    ensures Sec(a) <= Sec(b)
  {
  }

  lemma StatementKeeps(c: Config, s: State, p: nat, answered: bool, q: nat)
    requires Inv(c, s) && p < |s.procs| && q < |s.procs|
    ensures Owns(c, Statement(c, s, p, answered), q)
  {
    var me, other := s.procs[p], s.procs[q];
    assert Owns(c, s, p) && Owns(c, s, q);
    if p != q {
      if other.claim.Some? { LiveExact(other.claim.value, s.clock); }
      if me.phase.Taking? { SecMonotone(me.phase.now, s.clock); }
    }
  }

  lemma StepKeeps(c: Config, s: State, e: Event)
    requires Inv(c, s)
    ensures Inv(c, Step(c, s, e))
  {
    var t := Step(c, s, e);
    forall q | 0 <= q < |t.procs| ensures Owns(c, t, q) {
      assert Owns(c, s, q);
      if e.Run? && e.p < |s.procs| {
        StatementKeeps(c, s, e.p, e.answered, q);
      } else if !e.Tick? && e.p == q {
        SecMonotone(s.procs[q].sampled + c.ttls[q], s.clock + c.ttls[q]);
      }
    }
  }

  lemma {:induction false} ReachKeeps(c: Config, s: State, events: seq<Event>)
    requires Inv(c, s)
    ensures Inv(c, Reach(c, s, events))
    decreases |events|
  {
    if events != [] {
      StepKeeps(c, s, events[0]);
      ReachKeeps(c, Step(c, s, events[0]), events[1..]);
    }
  }

  // Mutual exclusion: in every run, at every instant, at most one process holds
  // an unexpired, unreleased claim; and a read at that instant names it.
  lemma MutualExclusion(c: Config, s: State, events: seq<Event>, p: nat, q: nat)
    requires ValidConfig(c) && Init(c, s)
    ensures var t := Reach(c, s, events);
            && (Holds(t, p) && Holds(t, q) ==> p == q)
            && (Holds(t, p) ==> p < |c.values| && t.row.Some? && t.row.value.value == c.values[p]
                                && Live(t.row.value.expires, t.clock))
  {
    ReachKeeps(c, s, events);
    var t := Reach(c, s, events);
    if Holds(t, p) { assert Owns(c, t, p); }
    if Holds(t, q) { assert Owns(c, t, q); }
  }

  // A release or refresh whose value is not the row's changes nothing, and no
  // statement but a takeover of an expired row moves a row to another value.
  lemma StaleIsHarmless(c: Config, s: State, p: nat, answered: bool)
    requires ValidConfig(c) && p < |s.procs| == |c.values|
    requires s.row.Some? && s.row.value.value != c.values[p]
    ensures var t := Statement(c, s, p, answered);
            t.row == s.row || (s.procs[p].phase.Taking? && s.row.value.expires <= Sec(s.procs[p].phase.now))
  {
  }

  // In every run: while a row is live, nothing that any process with another
  // value does, at any pace, touches it.
  lemma LiveRowStays(c: Config, s: State, events: seq<Event>, e: Event)
    requires ValidConfig(c) && Init(c, s)
    requires var t := Reach(c, s, events); t.row.Some? && Live(t.row.value.expires, t.clock)
    requires e.Tick? || e.p >= |c.values| || c.values[e.p] != Reach(c, s, events).row.value.value
    ensures Step(c, Reach(c, s, events), e).row == Reach(c, s, events).row
  {
    ReachKeeps(c, s, events);
    var t := Reach(c, s, events);
    if e.Run? && e.p < |t.procs| {
      assert Owns(c, t, e.p);
      LiveExact(t.row.value.expires, t.clock);
      if t.procs[e.p].phase.Taking? { SecMonotone(t.procs[e.p].phase.now, t.clock); }
    }
  }

  // ----- what one call does to the row, at any pace, its answer lost or not -----

  lemma Three(c: Config, s: State, e: Event, f: Event, g: Event)
    requires |s.procs| == |c.values| == |c.ttls|
    ensures Reach(c, s, [e, f, g]) == Step(c, Step(c, Step(c, s, e), f), g)
  {
    var es := [e, f, g];
    var a, b := Step(c, s, e), Step(c, Step(c, s, e), f);
    assert es[1..] == [f, g] && [f, g][1..] == [g] && [g][1..] == [];
    assert Reach(c, b, [g]) == Reach(c, Step(c, b, g), []);
    assert Reach(c, a, [f, g]) == Reach(c, b, [g]);
  }

  // A refresh extends the row exactly when it is the caller's own live row, and
  // drops the claim otherwise; its answer lost, the claim stays what it was.
  lemma RefreshExact(c: Config, s: State, p: nat, d: nat, answered: bool)
    requires Inv(c, s) && p < |s.procs| && s.procs[p].phase.Idle?
    ensures var t := Reach(c, s, [BeginRefresh(p), Tick(d), Run(p, answered)]);
            var mine := s.row.Some? && s.row.value.value == c.values[p] && Live(s.row.value.expires, s.clock);
            var exp := Sec(s.clock + c.ttls[p]);
            && t.clock == s.clock + d
            && t.row == (if mine then Some(Row(c.values[p], exp, Sec(s.clock))) else s.row)
            && t.procs == s.procs[p := Proc(Idle,
                 if !answered then s.procs[p].claim else if mine then Some(exp) else None, s.clock)]
  {
    if s.row.Some? { LiveExact(s.row.value.expires, s.clock); }
    Three(c, s, BeginRefresh(p), Tick(d), Run(p, answered));
  }

  // A release empties the row exactly when it is the caller's own, live or not.
  lemma ReleaseExact(c: Config, s: State, p: nat, d: nat, answered: bool)
    requires Inv(c, s) && p < |s.procs| && s.procs[p].phase.Idle?
    ensures var t := Reach(c, s, [BeginRelease(p), Tick(d), Run(p, answered)]);
            && t.clock == s.clock + d
            && t.row == (if s.row.Some? && s.row.value.value == c.values[p] then None else s.row)
            && t.procs == s.procs[p := Proc(Idle, None, s.procs[p].sampled)]
  {
    Three(c, s, BeginRelease(p), Tick(d), Run(p, answered));
  }

  // An acquire takes a row that is missing or expired, whoever owned it, and
  // changes nothing while a live row stands, whose ever it is.
  lemma AcquireExact(c: Config, s: State, p: nat)
    requires p < |s.procs| == |c.values| == |c.ttls| && s.procs[p].phase.Idle?
    ensures var t := Reach(c, s, [BeginAcquire(p), Run(p, true), Run(p, true)]);
            var free := s.row.None? || !Live(s.row.value.expires, s.clock);
            var exp := Sec(s.clock + c.ttls[p]);
            && t.clock == s.clock
            && t.row == (if free then Some(Row(c.values[p], exp, Sec(s.clock))) else s.row)
            && t.procs == s.procs[p := Proc(Idle, if free then Some(exp) else s.procs[p].claim, s.clock)]
    ensures Inv(c, s) && s.row.Some? && Live(s.row.value.expires, s.clock) && s.row.value.value != c.values[p] ==>
              !Holds(Reach(c, s, [BeginAcquire(p), Run(p, true), Run(p, true)]), p)
  {
    if s.row.Some? { LiveExact(s.row.value.expires, s.clock); }
    Three(c, s, BeginAcquire(p), Run(p, true), Run(p, true));
    if Inv(c, s) { assert Owns(c, s, p); }
  }

  // An acquire whose first answer is lost has taken over an expired row, without
  // knowing it, and has not gone on to insert a missing one.
  lemma LostAcquire(c: Config, s: State, p: nat, d: nat)
    requires p < |s.procs| == |c.values| == |c.ttls| && s.procs[p].phase.Idle?
    ensures var t := Reach(c, s, [BeginAcquire(p), Tick(d), Run(p, false)]);
            && t.row == (if s.row.Some? && !Live(s.row.value.expires, s.clock)
                         then Some(Row(c.values[p], Sec(s.clock + c.ttls[p]), Sec(s.clock))) else s.row)
            && t.procs == s.procs[p := Proc(Idle, s.procs[p].claim, s.clock)]
  {
    if s.row.Some? { LiveExact(s.row.value.expires, s.clock); }
    Three(c, s, BeginAcquire(p), Tick(d), Run(p, false));
  }

  // Nothing but a statement writes the row, and no event touches another
  // process; a crash loses the claim and leaves the row to expire.
  lemma OnlyStatementsWrite(c: Config, s: State, e: Event, q: nat)
    requires q < |s.procs| == |c.values| == |c.ttls|
    ensures var t := Step(c, s, e);
            && (!e.Run? ==> t.row == s.row)
            && (e.Tick? || e.p != q ==> t.procs[q] == s.procs[q])
            && (e.Crash? && e.p == q ==> t.procs[q] == Proc(Idle, None, s.procs[q].sampled))
            && (e.Fail? && e.p == q ==> t.procs[q] == Proc(Idle, s.procs[q].claim, s.procs[q].sampled))
            && t.clock == s.clock + (if e.Tick? then e.d else 0)
  {}

  // A holder that is gone never blocks: once its row has expired, the next
  // process that acquires without interruption has the lease.
  lemma DeadHolderNeverBlocks(c: Config, s: State, p: nat)
    requires p < |s.procs| == |c.values| == |c.ttls| && s.procs[p].phase.Idle?
    requires s.row.None? || !Live(s.row.value.expires, s.clock)
    ensures var t := Reach(c, s, [BeginAcquire(p), Run(p, true), Run(p, true)]);
            var exp := Sec(s.clock + c.ttls[p]);
            && t.row == Some(Row(c.values[p], exp, Sec(s.clock)))
            && t.procs == s.procs[p := Proc(Idle, Some(exp), s.clock)]
            && t.clock == s.clock
  {
    AcquireExact(c, s, p);
  }

  // ----- what rounding costs -----

  // The deadline in the row is earlier than now + ttl by less than a second, and
  // equal to it exactly on whole seconds.
  lemma RoundingLoss(now: nat, ttl: nat)
    ensures Sec(now + ttl) * SECOND <= now + ttl < Sec(now + ttl) * SECOND + SECOND
    ensures Sec(now + ttl) * SECOND == now + ttl <==> (now + ttl) % SECOND == 0
  {
  }

  // Process p acquires, the clock goes on by d, and q tries to acquire.
  function OverlapRun(c: Config, s: State, p: nat, q: nat, d: nat): (t: State)
    requires |s.procs| == |c.values| == |c.ttls|
  {
    Reach(c, s, [BeginAcquire(p), Run(p, true), Run(p, true), Tick(d), BeginAcquire(q), Run(q, true)])
  }

  lemma ReachTwice(c: Config, s: State, a: seq<Event>, b: seq<Event>)
    requires |s.procs| == |c.values| == |c.ttls|
    ensures Reach(c, s, a + b) == Reach(c, Reach(c, s, a), b)
    decreases |a|
  {
    if a == [] {
      assert a + b == b;
    } else {
      assert (a + b)[0] == a[0] && (a + b)[1..] == a[1..] + b;
      ReachTwice(c, Step(c, s, a[0]), a[1..], b);
    }
  }

  // The second process succeeds exactly when the rounded deadline has passed.
  lemma OverlapAt(c: Config, s: State, p: nat, q: nat, d: nat)
    requires Inv(c, s) && p < |s.procs| && q < |s.procs| && p != q
    requires s.procs[p].phase.Idle? && s.procs[q].phase.Idle?
    requires s.row.None? || !Live(s.row.value.expires, s.clock)
    requires c.ttls[q] >= SECOND
    ensures OverlapRun(c, s, p, q, d).clock == s.clock + d
    ensures Holds(OverlapRun(c, s, p, q, d), q) <==> Sec(s.clock + c.ttls[p]) <= Sec(s.clock + d)
  {
    var first, later := [BeginAcquire(p), Run(p, true), Run(p, true)], [Tick(d), BeginAcquire(q), Run(q, true)];
    assert first + later == [BeginAcquire(p), Run(p, true), Run(p, true), Tick(d), BeginAcquire(q), Run(q, true)];
    ReachTwice(c, s, first, later);
    DeadHolderNeverBlocks(c, s, p);
    var m := Reach(c, s, first);
    assert Owns(c, s, q);
    var t1 := Step(c, m, later[0]);
    var t2 := Step(c, t1, later[1]);
    var t3 := Step(c, t2, later[2]);
    assert later[1..][1..] == later[2..] && later[2..][1..] == [];
    assert Reach(c, t2, later[2..]) == Reach(c, t3, []) == t3;
    assert Reach(c, t1, later[1..]) == t3;
    assert OverlapRun(c, s, p, q, d) == t3;
    var now := s.clock + d;
    SecondLater(now, c.ttls[q]);
    LiveExact(Sec(now + c.ttls[q]), now);
    if s.procs[q].claim.Some? {
      assert !Live(s.procs[q].claim.value, s.clock);
      assert !Live(s.procs[q].claim.value, now);
    }
  }

  lemma SecondLater(t: nat, ttl: nat)
    requires ttl >= SECOND
    ensures Sec(t + ttl) > Sec(t)
  {}

  // From any reachable state without a live row: a holder that counts on its full
  // ttl can be overlapped exactly when that ttl does not end on a whole second.
  lemma FullTtlExact(c: Config, s: State, p: nat, q: nat)
    requires Inv(c, s) && p < |s.procs| && q < |s.procs| && p != q
    requires s.procs[p].phase.Idle? && s.procs[q].phase.Idle?
    requires s.row.None? || !Live(s.row.value.expires, s.clock)
    requires c.ttls[p] > 0 && c.ttls[q] >= SECOND
    ensures (exists d: nat ::
              var t := OverlapRun(c, s, p, q, d);
              Holds(t, q) && t.clock < s.clock + c.ttls[p])
            <==> (s.clock + c.ttls[p]) % SECOND != 0
  {
    var end := s.clock + c.ttls[p];
    RoundingLoss(s.clock, c.ttls[p]);
    var deadline := Sec(end) * SECOND;
    if end % SECOND != 0 {
      var d: nat := if deadline <= s.clock then 0 else deadline - s.clock;
      OverlapAt(c, s, p, q, d);
      SecMonotone(deadline, s.clock + d);
      assert Holds(OverlapRun(c, s, p, q, d), q);
    } else {
      forall d: nat ensures !(Holds(OverlapRun(c, s, p, q, d), q) && OverlapRun(c, s, p, q, d).clock < end) {
        OverlapAt(c, s, p, q, d);
        if s.clock + d < end { assert Sec(s.clock + d) < Sec(end); }
      }
    }
  }

  // In every run: a claim that another process overlaps has less than a second
  // of its full ttl left.
  lemma OverlapIsShort(c: Config, s: State, events: seq<Event>, p: nat, q: nat)
    requires ValidConfig(c) && Init(c, s) && p != q && p < |c.values|
    requires var t := Reach(c, s, events);
             && Holds(t, q) && t.procs[p].claim.Some?
             && t.procs[p].claim.value == Sec(t.procs[p].sampled + c.ttls[p])
    ensures var t := Reach(c, s, events); t.clock + SECOND > t.procs[p].sampled + c.ttls[p]
    ensures var t := Reach(c, s, events);
            (t.procs[p].sampled + c.ttls[p]) % SECOND == 0 ==> t.clock >= t.procs[p].sampled + c.ttls[p]
  {
    MutualExclusion(c, s, events, p, q);
    var t := Reach(c, s, events);
    RoundingLoss(t.procs[p].sampled, c.ttls[p]);
  }

  // For example: process 0 acquires at 0.9 s for 1.5 s, process 1 takes over at 2.0 s.
  lemma FullTtlOverlaps()
    ensures var c := Config([10, 11], [1_500_000_000, 1_500_000_000]);
            var s := State(900_000_000, None, [Proc(Idle, None, 0), Proc(Idle, None, 0)]);
            var t := Reach(c, s, [BeginAcquire(0), Run(0, true), Run(0, true), Tick(1_100_000_000),
                                  BeginAcquire(1), Run(1, true)]);
            && t.clock < t.procs[0].sampled + c.ttls[0]
            && t.procs[0].claim.Some?
            && Holds(t, 1)
  {
    var c := Config([10, 11], [1_500_000_000, 1_500_000_000]);
    var s0 := State(900_000_000, None, [Proc(Idle, None, 0), Proc(Idle, None, 0)]);
    var es := [BeginAcquire(0), Run(0, true), Run(0, true), Tick(1_100_000_000), BeginAcquire(1), Run(1, true)];
    var s1 := Step(c, s0, es[0]);
    var s2 := Step(c, s1, es[1]);
    var s3 := Step(c, s2, es[2]);
    var s4 := Step(c, s3, es[3]);
    var s5 := Step(c, s4, es[4]);
    var s6 := Step(c, s5, es[5]);
    assert s3.row == Some(Row(10, 2, 0)) && s3.procs[0].claim == Some(2);
    assert s6.procs[1].claim == Some(3) && s6.clock == 2_000_000_000;
    assert es[1..][1..] == es[2..] && es[2..][1..] == es[3..] && es[3..][1..] == es[4..] && es[4..][1..] == es[5..] && es[5..][1..] == [];
    assert Reach(c, s5, es[5..]) == Reach(c, s6, []) == s6;
    assert Reach(c, s4, es[4..]) == s6;
    assert Reach(c, s3, es[3..]) == s6;
    assert Reach(c, s2, es[2..]) == s6;
    assert Reach(c, s1, es[1..]) == s6;
  }
}
