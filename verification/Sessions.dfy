/** The limit on active sessions of one account (`src/auth/sessions.ts`), for calls one at a time and
    for calls in between each other's statements. */
module Sessions {
  import opened Strings

  datatype Session = Session(createdAt: int, expiresAt: int, revoked: bool)

  type Table = map<string, Session>

  function Active(ss: Table, now: int): set<string> {
    set id | id in ss && !ss[id].revoked && ss[id].expiresAt > now
  }

  predicate IsOldest(ss: Table, now: int, id: string) {
    id in Active(ss, now) && forall j :: j in Active(ss, now) ==> ss[id].createdAt <= ss[j].createdAt
  }

  predicate CanRevoke(ss: Table, id: string) { id in ss && !ss[id].revoked }

  function Revoked(ss: Table, id: string): Table {
    if CanRevoke(ss, id) then ss[id := ss[id].(revoked := true)] else ss
  }

  lemma {:induction false} OldestExists(ss: Table, among: set<string>) returns (id: string)
    requires among != {} && among <= ss.Keys
    ensures id in among && forall j :: j in among ==> ss[id].createdAt <= ss[j].createdAt
    decreases |among|
  {
    id :| id in among;
    var rest := among - {id};
    if rest != {} {
      var other := OldestExists(ss, rest);
      if ss[other].createdAt < ss[id].createdAt {
        id := other;
      }
    }
  }

  class SessionTable {
    var sessions: Table

    /** How many sessions are active, in one pass over the table. */
    method CountActiveSessions(now: int) returns (n: nat)
      ensures n == |Active(sessions, now)|
    {
      n := 0;
      var left := sessions.Keys;
      while left != {}
        invariant left <= sessions.Keys
        invariant n == |Active(sessions, now) - left|
        decreases |left|
      {
        var id :| id in left;
        ghost var before := Active(sessions, now) - left;
        left := left - {id};
        if !sessions[id].revoked && sessions[id].expiresAt > now {
          assert Active(sessions, now) - left == before + {id};
          n := n + 1;
        } else {
          assert Active(sessions, now) - left == before;
        }
      }
      assert Active(sessions, now) - left == Active(sessions, now);
    }

    /** Revokes an active session that no other active one is older than, when there is one. */
    method RevokeOldestActiveSession(now: int) returns (revoked: bool)
      modifies this
      ensures revoked <==> Active(old(sessions), now) != {}
      ensures !revoked ==> sessions == old(sessions)
      ensures revoked ==> exists id :: IsOldest(old(sessions), now, id) && sessions == Revoked(old(sessions), id)
    {
      if Active(sessions, now) == {} {
        return false;
      }
      ghost var oldest := OldestExists(sessions, Active(sessions, now));
      assert IsOldest(sessions, now, oldest);
      var id :| id in Active(sessions, now) && IsOldest(sessions, now, id);
      sessions := sessions[id := sessions[id].(revoked := true)];
      revoked := true;
    }

    /** A new session for the account. At the limit the oldest one makes room; with none to revoke
        the call fails and changes nothing. */
    method CreateSession(limit: nat, id: string, now: int, ttl: int) returns (ok: bool)
      requires id !in sessions && ttl > 0
      modifies this
      ensures ok <==> |Active(old(sessions), now)| < limit || Active(old(sessions), now) != {}
      ensures !ok ==> sessions == old(sessions)
      ensures ok ==> id in Active(sessions, now) && sessions[id] == Session(now, now + ttl, false)
      ensures ok && |Active(old(sessions), now)| < limit ==>
        Active(sessions, now) == Active(old(sessions), now) + {id}
      ensures ok && |Active(old(sessions), now)| >= limit ==>
        exists oldest :: IsOldest(old(sessions), now, oldest)
                         && Active(sessions, now) == Active(old(sessions), now) - {oldest} + {id}
      ensures |Active(old(sessions), now)| <= limit ==> |Active(sessions, now)| <= limit
    {
      var count := CountActiveSessions(now);
      ghost var before := sessions;
      if count >= limit {
        var revoked := RevokeOldestActiveSession(now);
        if !revoked {
          return false;
        }
        ghost var oldest :| IsOldest(before, now, oldest) && sessions == Revoked(before, oldest);
        assert Active(sessions, now) == Active(before, now) - {oldest};
        assert Active(sessions[id := Session(now, now + ttl, false)], now) == Active(before, now) - {oldest} + {id};
      }
      sessions := sessions[id := Session(now, now + ttl, false)];
      assert count < limit ==> Active(sessions, now) == Active(before, now) + {id};
      ok := true;
    }
  }

  // ----- Calls in between each other's statements -----

  /** Where a call of `createSession` is. */
  datatype Pc = Counting | Choosing | Revoking(victim: string) | Inserting

  /** The calls in flight, one that has returned or thrown being gone, and the session ids ever used. */
  datatype Sys = Sys(clock: int, sessions: Table, calls: map<string, Pc>, used: set<string>)

  datatype Action =
    | Tick(now: int)
    | Begin(call: string)
    | Count(call: string)
    | Choose(call: string, oldest: Option<string>)
    | Revoke(call: string)
    | Insert(call: string, id: string, createdAt: int, expiresAt: int)
    | Stop(call: string)
    | Logout(id: string)
    | Delete(id: string)

  predicate At(s: Sys, call: string, pc: Pc) { call in s.calls && s.calls[call] == pc }

  predicate Enabled(s: Sys, a: Action) {
    match a
    case Tick(now) => now >= s.clock
    case Begin(c) => c !in s.calls
    case Count(c) => At(s, c, Counting)
    case Choose(c, oldest) =>
      At(s, c, Choosing) && (if oldest == None then Active(s.sessions, s.clock) == {}
                             else IsOldest(s.sessions, s.clock, oldest.value))
    case Revoke(c) => c in s.calls && s.calls[c].Revoking?
    case Insert(c, id, _, _) => At(s, c, Inserting) && id !in s.used
    case Stop(c) => c in s.calls
    case Logout(_) => true
    case Delete(_) => true
  }

  function Apply(s: Sys, limit: nat, a: Action): Sys
    requires Enabled(s, a)
  {
    match a
    case Tick(now) => s.(clock := now)
    case Begin(c) => s.(calls := s.calls[c := Counting])
    case Count(c) =>
      s.(calls := s.calls[c := if |Active(s.sessions, s.clock)| >= limit then Choosing else Inserting])
    case Choose(c, oldest) =>
      if oldest == None then s.(calls := s.calls - {c}) else s.(calls := s.calls[c := Revoking(oldest.value)])
    case Revoke(c) =>
      var v := s.calls[c].victim;
      if CanRevoke(s.sessions, v)
      then s.(sessions := Revoked(s.sessions, v), calls := s.calls[c := Inserting])
      else s.(calls := s.calls - {c})
    case Insert(c, id, createdAt, expiresAt) =>
      s.(sessions := s.sessions[id := Session(createdAt, expiresAt, false)], calls := s.calls - {c}, used := s.used + {id})
    case Stop(c) => s.(calls := s.calls - {c})
    case Logout(id) => s.(sessions := Revoked(s.sessions, id))
    case Delete(id) => s.(sessions := s.sessions - {id})
  }

  /** A run with at most `k` calls in flight at any time, from a state within the limit. */
  ghost predicate Follows(trace: seq<Sys>, actions: seq<Action>, limit: nat, k: nat) {
    && |trace| == |actions| + 1
    && trace[0].calls == map[] && trace[0].sessions.Keys <= trace[0].used
    && |Active(trace[0].sessions, trace[0].clock)| <= limit
    && (forall i {:trigger AtMostAt(trace, i, k)} :: 0 <= i < |trace| ==> AtMostAt(trace, i, k))
    && forall i {:trigger StepAt(trace, actions, limit, i)} :: 0 <= i < |actions| ==> StepAt(trace, actions, limit, i)
  }

  predicate AtMostAt(trace: seq<Sys>, i: nat, k: nat)
    requires i < |trace|
  {
    |trace[i].calls| <= k
  }

  predicate StepAt(trace: seq<Sys>, actions: seq<Action>, limit: nat, i: nat)
    requires i < |actions| && |trace| == |actions| + 1
  {
    Enabled(trace[i], actions[i]) && trace[i + 1] == Apply(trace[i], limit, actions[i])
  }

  // ----- The bound -----

  function Inserters(s: Sys): set<string> { set c | c in s.calls && s.calls[c].Inserting? }

  function Revokers(s: Sys): set<string> { set c | c in s.calls && s.calls[c].Revoking? }

  /** Sessions picked for revoking that have expired since: revoking them makes no room. */
  function StaleVictims(s: Sys): set<string> {
    set c | c in Revokers(s) && CanRevoke(s.sessions, s.calls[c].victim)
            && s.sessions[s.calls[c].victim].expiresAt <= s.clock :: s.calls[c].victim
  }

  function Load(s: Sys): nat {
    |Active(s.sessions, s.clock)| + |Inserters(s)| + |StaleVictims(s)|
  }

  lemma {:induction false} ImageBound(cs: set<string>, calls: map<string, Pc>, vs: set<string>)
    requires forall c :: c in cs ==> c in calls && calls[c].Revoking?
    requires forall v :: v in vs ==> exists c :: c in cs && calls[c].victim == v
    ensures |vs| <= |cs|
    decreases cs
  {
    if vs != {} {
      var v :| v in vs;
      var c :| c in cs && calls[c].victim == v;
      forall w | w in vs - {v} ensures exists d :: d in cs - {c} && calls[d].victim == w {
        var d :| d in cs && calls[d].victim == w;
        assert d in cs - {c};
      }
      ImageBound(cs - {c}, calls, vs - {v});
    }
  }

  lemma SubsetSize<T>(a: set<T>, b: set<T>)
    requires a <= b
    ensures |a| <= |b|
  {
    assert b == a + (b - a);
  }

  /** The calls that insert, those that revoke, and one more that counts are all in flight. */
  lemma InFlight(s: Sys, c: string)
    requires At(s, c, Counting)
    ensures |Inserters(s)| + |StaleVictims(s)| + 1 <= |s.calls|
  {
    ImageBound(Revokers(s), s.calls, StaleVictims(s));
    assert |Inserters(s) + Revokers(s) + {c}| == |Inserters(s)| + |Revokers(s)| + 1;
    SubsetSize(Inserters(s) + Revokers(s) + {c}, s.calls.Keys);
    assert |s.calls.Keys| == |s.calls|;
  }

  /** Counting moves a call on from where it neither inserts nor revokes. */
  lemma CountFrame(s: Sys, limit: nat, c: string)
    requires At(s, c, Counting)
    ensures var t := Apply(s, limit, Count(c));
            && t.sessions == s.sessions && t.clock == s.clock
            && Inserters(t) <= Inserters(s) + {c}
            && (|Active(s.sessions, s.clock)| >= limit ==> Inserters(t) <= Inserters(s))
            && StaleVictims(t) <= StaleVictims(s)
  {
  }

  lemma CountKeepsLoad(s: Sys, limit: nat, k: nat, c: string)
    requires At(s, c, Counting) && |s.calls| <= k && Load(s) <= limit + k - 1
    ensures Load(Apply(s, limit, Count(c))) <= limit + k - 1
  {
    var t := Apply(s, limit, Count(c));
    CountFrame(s, limit, c);
    SubsetSize(StaleVictims(t), StaleVictims(s));
    if |Active(s.sessions, s.clock)| >= limit {
      SubsetSize(Inserters(t), Inserters(s));
    } else {
      InFlight(s, c);
      SubsetSize(Inserters(t), Inserters(s) + {c});
    }
  }

  /** The sessions and the ones picked for revoking have ids that were used. */
  predicate IdsUsed(s: Sys) {
    s.sessions.Keys <= s.used && forall c :: c in s.calls && s.calls[c].Revoking? ==> s.calls[c].victim in s.used
  }

  lemma IdsUsedKept(s: Sys, limit: nat, a: Action)
    requires IdsUsed(s) && Enabled(s, a)
    ensures IdsUsed(Apply(s, limit, a))
  {
  }

  /** As time passes a session that a call means to revoke may expire: it is still accounted for. */
  lemma TickKeepsLoad(s: Sys, limit: nat, now: int)
    requires now >= s.clock
    ensures Load(Apply(s, limit, Tick(now))) <= Load(s)
  {
    var t := Apply(s, limit, Tick(now));
    assert Inserters(t) == Inserters(s);
    var gone := StaleVictims(t) - StaleVictims(s);
    assert gone <= Active(s.sessions, s.clock) && gone !! Active(t.sessions, t.clock);
    assert |Active(t.sessions, t.clock) + gone| == |Active(t.sessions, t.clock)| + |gone|;
    SubsetSize(Active(t.sessions, t.clock) + gone, Active(s.sessions, s.clock));
    assert StaleVictims(t) <= StaleVictims(s) + gone;
    SubsetSize(StaleVictims(t), StaleVictims(s) + gone);
  }

  lemma RevokeKeepsLoad(s: Sys, limit: nat, c: string)
    requires Enabled(s, Revoke(c))
    ensures Load(Apply(s, limit, Revoke(c))) <= Load(s)
  {
    var t := Apply(s, limit, Revoke(c));
    var v := s.calls[c].victim;
    if CanRevoke(s.sessions, v) {
      assert Inserters(t) == Inserters(s) + {c};
      if s.sessions[v].expiresAt > s.clock {
        assert Active(t.sessions, t.clock) == Active(s.sessions, s.clock) - {v};
        SubsetSize(StaleVictims(t), StaleVictims(s));
      } else {
        assert v in StaleVictims(s);
        assert Active(t.sessions, t.clock) == Active(s.sessions, s.clock);
        SubsetSize(StaleVictims(t), StaleVictims(s) - {v});
      }
    } else {
      assert Inserters(t) == Inserters(s);
      SubsetSize(StaleVictims(t), StaleVictims(s));
    }
  }

  lemma InsertKeepsLoad(s: Sys, limit: nat, a: Action)
    requires Enabled(s, a) && a.Insert? && IdsUsed(s)
    ensures Load(Apply(s, limit, a)) <= Load(s)
  {
    var t := Apply(s, limit, a);
    assert Inserters(t) == Inserters(s) - {a.call};
    SubsetSize(Active(t.sessions, t.clock), Active(s.sessions, s.clock) + {a.id});
    SubsetSize(StaleVictims(t), StaleVictims(s));
  }

  lemma OtherKeepsLoad(s: Sys, limit: nat, a: Action)
    requires Enabled(s, a) && (a.Begin? || a.Choose? || a.Stop? || a.Logout? || a.Delete?)
    ensures Load(Apply(s, limit, a)) <= Load(s)
  {
    var t := Apply(s, limit, a);
    SubsetSize(Active(t.sessions, t.clock), Active(s.sessions, s.clock));
    SubsetSize(Inserters(t), Inserters(s));
    SubsetSize(StaleVictims(t), StaleVictims(s));
  }

  lemma LoadKept(s: Sys, limit: nat, k: nat, a: Action)
    requires Enabled(s, a) && IdsUsed(s) && |s.calls| <= k && Load(s) <= limit + k - 1
    ensures Load(Apply(s, limit, a)) <= limit + k - 1
  {
    match a {
      case Tick(now) => TickKeepsLoad(s, limit, now);
      case Count(c) => CountKeepsLoad(s, limit, k, c);
      case Revoke(c) => RevokeKeepsLoad(s, limit, c);
      case Insert(_, _, _, _) => InsertKeepsLoad(s, limit, a);
      case _ => OtherKeepsLoad(s, limit, a);
    }
  }

  lemma {:induction false} LoadBound(trace: seq<Sys>, actions: seq<Action>, limit: nat, k: nat, n: nat)
    requires Follows(trace, actions, limit, k) && k >= 1 && n < |trace|
    ensures Load(trace[n]) <= limit + k - 1 && IdsUsed(trace[n])
  {
    if n == 0 {
      assert Inserters(trace[0]) == {} && StaleVictims(trace[0]) == {};
    } else {
      LoadBound(trace, actions, limit, k, n - 1);
      assert StepAt(trace, actions, limit, n - 1) && AtMostAt(trace, n - 1, k);
      IdsUsedKept(trace[n - 1], limit, actions[n - 1]);
      LoadKept(trace[n - 1], limit, k, actions[n - 1]);
    }
  }

  /** With at most `k` calls in flight at once an account never has more than `limit + k - 1` active
      sessions; with one call at a time, never more than the limit. */
  lemma ActiveSessionsBound(trace: seq<Sys>, actions: seq<Action>, limit: nat, k: nat, n: nat)
    requires Follows(trace, actions, limit, k) && k >= 1 && n < |trace|
    ensures |Active(trace[n].sessions, trace[n].clock)| <= limit + k - 1
    ensures k == 1 ==> |Active(trace[n].sessions, trace[n].clock)| <= limit
  {
    LoadBound(trace, actions, limit, k, n);
  }

  // ----- The bound is met -----

  ghost predicate Ends(trace: seq<Sys>, actions: seq<Action>, ss: Table, limit: nat, k: nat, s: Sys) {
    Follows(trace, actions, limit, k) && trace[0].sessions == ss && trace[|actions|] == s
  }

  /** A run that starts with these sessions ends in the state. */
  ghost predicate Reaches(ss: Table, limit: nat, k: nat, s: Sys) {
    exists trace, actions :: Ends(trace, actions, ss, limit, k, s)
  }

  lemma ReachStep(ss: Table, limit: nat, k: nat, s: Sys, a: Action)
    requires Reaches(ss, limit, k, s) && Enabled(s, a) && |Apply(s, limit, a).calls| <= k
    ensures Reaches(ss, limit, k, Apply(s, limit, a))
  {
    var trace, actions :| Ends(trace, actions, ss, limit, k, s);
    var t, b := trace + [Apply(s, limit, a)], actions + [a];
    forall i | 0 <= i < |t| ensures AtMostAt(t, i, k) {
      assert i < |trace| ==> AtMostAt(trace, i, k);
    }
    forall i | 0 <= i < |b| ensures StepAt(t, b, limit, i) {
      if i < |actions| {
        assert StepAt(trace, actions, limit, i);
      }
    }
    assert Ends(t, b, ss, limit, k, Apply(s, limit, a));
  }

  predicate Distinct(names: seq<string>) {
    forall i, j :: 0 <= i < j < |names| ==> names[i] != names[j]
  }

  /** The first `n` calls are about to insert, the others to count. */
  function Calls(names: seq<string>, n: nat): map<string, Pc>
    requires n <= |names|
  {
    map c | c in names :: if c in names[..n] then Inserting else Counting
  }

  function Waiting(names: seq<string>, pc: Pc): map<string, Pc> {
    map c | c in names :: pc
  }

  lemma {:induction false} AtMostAsMany(names: seq<string>, calls: map<string, Pc>)
    requires forall c :: c in calls ==> c in names
    ensures |calls| <= |names|
  {
    assert |calls| == |calls.Keys|;
    NoMoreThan(names, calls.Keys);
  }

  lemma {:induction false} NoMoreThan(names: seq<string>, some: set<string>)
    requires forall c :: c in some ==> c in names
    ensures |some| <= |names|
  {
    if names != [] {
      NoMoreThan(names[1..], some - {names[0]});
    }
  }

  lemma {:induction false} AllBegin(ss: Table, limit: nat, now: int, names: seq<string>, n: nat)
    requires Distinct(names) && n <= |names| && |Active(ss, now)| <= limit
    ensures Reaches(ss, limit, |names|, Sys(now, ss, Waiting(names[..n], Counting), ss.Keys))
  {
    if n == 0 {
      var s := Sys(now, ss, map[], ss.Keys);
      assert Waiting(names[..0], Counting) == map[];
      assert AtMostAt([s], 0, |names|);
      assert Ends([s], [], ss, limit, |names|, s);
    } else {
      AllBegin(ss, limit, now, names, n - 1);
      var s := Sys(now, ss, Waiting(names[..n - 1], Counting), ss.Keys);
      assert s.calls[names[n - 1] := Counting] == Waiting(names[..n], Counting);
      AtMostAsMany(names, Waiting(names[..n], Counting));
      ReachStep(ss, limit, |names|, s, Begin(names[n - 1]));
    }
  }

  lemma OneMoreCounted(names: seq<string>, n: nat)
    requires Distinct(names) && n < |names|
    ensures IsAt(Calls(names, n), names[n], Counting) && Calls(names, n)[names[n] := Inserting] == Calls(names, n + 1)
  {
    assert names[..n + 1] == names[..n] + [names[n]];
  }

  predicate IsAt(calls: map<string, Pc>, c: string, pc: Pc) {
    c in calls && calls[c] == pc
  }

  lemma CountNext(ss: Table, limit: nat, now: int, names: seq<string>, n: nat)
    requires Distinct(names) && n < |names| && |Active(ss, now)| == limit - 1
    requires Reaches(ss, limit, |names|, Sys(now, ss, Calls(names, n), ss.Keys))
    ensures Reaches(ss, limit, |names|, Sys(now, ss, Calls(names, n + 1), ss.Keys))
  {
    OneMoreCounted(names, n);
    AtMostAsMany(names, Calls(names, n + 1));
    ReachStep(ss, limit, |names|, Sys(now, ss, Calls(names, n), ss.Keys), Count(names[n]));
  }

  lemma NoneCounted(names: seq<string>)
    ensures Calls(names, 0) == Waiting(names, Counting) && names[..|names|] == names
  {
  }

  lemma {:induction false} AllCount(ss: Table, limit: nat, now: int, names: seq<string>, n: nat)
    requires Distinct(names) && n <= |names| && |Active(ss, now)| == limit - 1
    ensures Reaches(ss, limit, |names|, Sys(now, ss, Calls(names, n), ss.Keys))
  {
    if n == 0 {
      AllBegin(ss, limit, now, names, |names|);
      NoneCounted(names);
    } else {
      AllCount(ss, limit, now, names, n - 1);
      CountNext(ss, limit, now, names, n - 1);
    }
  }

  function WithNew(ss: Table, ids: seq<string>, now: int): (r: Table)
    ensures forall id :: id in r <==> id in ss || id in ids
  {
    if ids == [] then ss
    else
      assert ids == ids[..|ids| - 1] + [ids[|ids| - 1]];
      WithNew(ss, ids[..|ids| - 1], now)[ids[|ids| - 1] := Session(now, now + 1, false)]
  }

  lemma OneMoreActive(ss: Table, now: int, id: string)
    requires id !in ss
    ensures |Active(ss[id := Session(now, now + 1, false)], now)| == |Active(ss, now)| + 1
  {
    assert Active(ss[id := Session(now, now + 1, false)], now) == Active(ss, now) + {id};
  }

  predicate NoneIn(ids: seq<string>, ss: Table) {
    forall i :: 0 <= i < |ids| ==> ids[i] !in ss
  }

  lemma {:induction false} NewAreActive(ss: Table, ids: seq<string>, now: int)
    requires Distinct(ids) && NoneIn(ids, ss)
    ensures |Active(WithNew(ss, ids, now), now)| == |Active(ss, now)| + |ids|
  {
    if ids != [] {
      var last := |ids| - 1;
      NewAreActive(ss, ids[..last], now);
      assert ids[last] !in ids[..last];
      OneMoreActive(WithNew(ss, ids[..last], now), now, ids[last]);
    }
  }

  lemma OneMoreInserted(names: seq<string>, n: nat)
    requires Distinct(names) && n < |names|
    ensures IsAt(Waiting(names[n..], Inserting), names[n], Inserting)
    ensures Waiting(names[n..], Inserting) - {names[n]} == Waiting(names[n + 1..], Inserting)
  {
    assert names[n..] == [names[n]] + names[n + 1..];
  }

  lemma OneMoreNew(ss: Table, ids: seq<string>, now: int, n: nat)
    requires Distinct(ids) && NoneIn(ids, ss) && n < |ids|
    ensures var before := WithNew(ss, ids[..n], now);
            && ids[n] !in before
            && WithNew(ss, ids[..n + 1], now) == before[ids[n] := Session(now, now + 1, false)]
  {
    assert ids[n] !in ids[..n];
    assert ids[..n + 1][..n] == ids[..n];
  }

  lemma {:induction false} AllInsert(ss: Table, limit: nat, now: int, names: seq<string>, ids: seq<string>, n: nat)
    requires Distinct(names) && Distinct(ids) && n <= |names| == |ids| && |Active(ss, now)| == limit - 1
    requires NoneIn(ids, ss)
    ensures var now' := WithNew(ss, ids[..n], now);
            Reaches(ss, limit, |names|, Sys(now, now', Waiting(names[n..], Inserting), now'.Keys))
  {
    if n == 0 {
      AllCount(ss, limit, now, names, |names|);
      assert Calls(names, |names|) == Waiting(names[0..], Inserting) by {
        assert names[..|names|] == names && names[0..] == names;
      }
    } else {
      AllInsert(ss, limit, now, names, ids, n - 1);
      OneMoreNew(ss, ids, now, n - 1);
      InsertNext(ss, limit, now, names, ids, n - 1, WithNew(ss, ids[..n - 1], now));
    }
  }

  lemma InsertNext(
    ss: Table, limit: nat, now: int, names: seq<string>, ids: seq<string>, n: nat, before: Table)
    requires Distinct(names) && n < |names| == |ids| && ids[n] !in before
    requires Reaches(ss, limit, |names|, Sys(now, before, Waiting(names[n..], Inserting), before.Keys))
    ensures var after := before[ids[n] := Session(now, now + 1, false)];
            Reaches(ss, limit, |names|, Sys(now, after, Waiting(names[n + 1..], Inserting), after.Keys))
  {
    var s := Sys(now, before, Waiting(names[n..], Inserting), before.Keys);
    var after := before[ids[n] := Session(now, now + 1, false)];
    OneMoreInserted(names, n);
    AtMostAsMany(names, Waiting(names[n + 1..], Inserting));
    assert before.Keys + {ids[n]} == after.Keys;
    ReachStep(ss, limit, |names|, s, Insert(names[n], ids[n], now, now + 1));
  }

  /** The bound cannot be lowered: from any table one short of the limit, `k` calls that all count
      before any of them inserts leave the account with `limit + k - 1` active sessions. */
  lemma BoundIsMet(ss: Table, limit: nat, now: int, names: seq<string>, ids: seq<string>)
    requires Distinct(names) && Distinct(ids) && |names| == |ids| && |Active(ss, now)| == limit - 1
    requires NoneIn(ids, ss)
    ensures var k := |names|;
            exists s :: Reaches(ss, limit, k, s) && |Active(s.sessions, s.clock)| == limit + k - 1
  {
    var k := |names|;
    AllInsert(ss, limit, now, names, ids, k);
    assert ids[..k] == ids;
    NewAreActive(ss, ids, now);
    var all := WithNew(ss, ids, now);
    var s := Sys(now, all, Waiting(names[k..], Inserting), all.Keys);
    assert Reaches(ss, limit, k, s) && |Active(s.sessions, s.clock)| == limit + k - 1;
  }
}
