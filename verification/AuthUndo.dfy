/** The undo of a lost invite race (`src/auth/webauthn.ts`) can take a passkey that was added in the
    meantime: how such a run comes about. */
module AuthUndo {
  import opened Strings
  import opened AuthDb
  import opened AuthRuns

  ghost predicate Ends(trace: seq<Sys>, actions: seq<Action>, s: Sys) {
    Follows(trace, actions) && trace[|actions|] == s
  }

  ghost predicate Reachable(s: Sys) {
    exists trace, actions :: Ends(trace, actions, s)
  }

  lemma InitialReachable()
    ensures Reachable(INITIAL)
  {
    assert Ends([INITIAL], [], INITIAL);
  }

  lemma ReachStep(s: Sys, a: Action)
    requires Reachable(s) && Enabled(s, a)
    ensures Reachable(Apply(s, a))
  {
    var trace, actions :| Ends(trace, actions, s);
    var t, b := trace + [Apply(s, a)], actions + [a];
    forall i | 0 <= i < |b| ensures StepAt(t, b, i) {
      if i < |actions| {
        assert StepAt(trace, actions, i);
        assert t[i] == trace[i] && t[i + 1] == trace[i + 1] && b[i] == actions[i];
      } else {
        assert t[i] == s && t[i + 1] == Apply(s, a);
      }
    }
    assert Ends(t, b, Apply(s, a));
  }

  /** A new challenge and the call that has claimed it. */
  function Begun(s: Sys, call: string, c: string, purpose: Purpose, kind: Kind): Sys {
    s.(tables := s.tables.(challenges := s.tables.challenges[c := Challenge(purpose, kind, 1, Some(0))]),
       calls := s.calls[call := Call(c, purpose, kind, Verifying)],
       claims := s.claims[c := call])
  }

  lemma Begins(s: Sys, call: string, c: string, purpose: Purpose, kind: Kind)
    requires Reachable(s) && call !in s.calls
    requires c !in s.tables.challenges && FreshKind(s.tables, kind) && HasSessionFor(s, kind)
    ensures Reachable(Begun(s, call, c, purpose, kind))
  {
    var begun := Asks(s, call, c, purpose, kind);
    Claims(begun, call);
    var s' := Begun(s, call, c, purpose, kind);
    assert HasJustClaimed(begun, call) == s' by {
      assert begun.calls[call := Call(c, purpose, kind, Verifying)] == s'.calls;
      assert begun.tables.challenges[c := Challenge(purpose, kind, 1, Some(0))] == s'.tables.challenges;
    }
  }

  lemma Asks(s: Sys, call: string, c: string, purpose: Purpose, kind: Kind) returns (t: Sys)
    requires Reachable(s) && call !in s.calls
    requires c !in s.tables.challenges && FreshKind(s.tables, kind) && HasSessionFor(s, kind)
    ensures Reachable(t)
    ensures t == s.(tables := s.tables.(challenges := s.tables.challenges[c := Challenge(purpose, kind, 1, None)]),
                    calls := s.calls[call := Call(c, purpose, NoKind, Reading)])
  {
    t := Apply(s, Issue(c, purpose, kind, 1));
    ReachStep(s, Issue(c, purpose, kind, 1));
    ReachStep(t, Begin(call, c, purpose));
    t := Apply(t, Begin(call, c, purpose));
  }

  function HasJustClaimed(s: Sys, call: string): Sys
    requires call in s.calls && s.calls[call].challenge in s.tables.challenges
  {
    var c := s.calls[call].challenge;
    var row := s.tables.challenges[c];
    s.(tables := s.tables.(challenges := s.tables.challenges[c := row.(consumedAt := Some(0))]),
       calls := s.calls[call := s.calls[call].(kind := row.kind, pc := Verifying)],
       claims := s.claims[c := call])
  }

  lemma Claims(s: Sys, call: string)
    requires Reachable(s) && At(s, call, Reading) && s.calls[call].challenge in s.tables.challenges
    requires var row := s.tables.challenges[s.calls[call].challenge];
             row.purpose == s.calls[call].purpose && IsChallengeConsumable(row, 0)
    ensures AfterClaim(AfterRead(s, call, 0), call, 0) == HasJustClaimed(s, call)
    ensures Reachable(AfterClaim(AfterRead(s, call, 0), call, 0))
  {
    var read := AfterRead(s, call, 0);
    ReachStep(s, Read(call, 0));
    ReachStep(read, Claim(call, 0));
    assert AfterClaim(read, call, 0).calls
        == s.calls[call := s.calls[call].(kind := read.calls[call].kind, pc := Verifying)];
  }

  /** A registration that has begun is verified and writes its rows. */
  lemma Registers(s: Sys, call: string, e: Entry)
    requires Reachable(s) && At(s, call, Verifying) && s.calls[call].purpose == Registration
    ensures Reachable(AfterRegister(Move(s, call, Registering), call, e))
  {
    ReachStep(s, Verify(call, true, e.id));
    ReachStep(Move(s, call, Registering), Register(call, e));
  }

  // ----- A passkey added in between -----

  /** The call has added the passkey to the account, which the other call is to delete. */
  predicate AddedInBetween(s: Sys, loser: string, adder: string, account: string, id: string) {
    && At(s, loser, Undoing(account)) && At(s, adder, Registered(account))
    && account in s.tables.accounts
    && id in s.tables.credentials && s.tables.credentials[id].accountId == account
  }

  /** The registration of the passkey has succeeded, and the passkey and its account are gone. */
  predicate AddedAndTaken(s: Sys, adder: string, account: string, id: string) {
    At(s, adder, Registered(account)) && account !in s.tables.accounts && id !in s.tables.credentials
  }

  lemma UndoTakes(s: Sys, loser: string, adder: string, account: string, id: string)
    requires Reachable(s) && AddedInBetween(s, loser, adder, account, id)
    ensures exists t :: Reachable(t) && AddedAndTaken(t, adder, account, id)
  {
    var t := Apply(s, Undo(loser));
    ReachStep(s, Undo(loser));
    assert id in CredentialsOf(s.tables.credentials, account);
    assert Reachable(t) && AddedAndTaken(t, adder, account, id);
  }

  /** From every state with an undo to come, somebody can log in to the account with its passkey and
      add another, which succeeds before the undo takes both. */
  lemma AddedPasskeyCanBeTaken(
    s: Sys, loser: string, row: string, login: string, adder: string, c: string, d: string, e: Entry)
    requires Reachable(s) && loser in s.calls && s.calls[loser].pc.Undoing?
    requires var account := s.calls[loser].pc.account;
             account in s.tables.accounts && row in s.tables.credentials && s.tables.credentials[row].accountId == account
    requires login !in s.calls && adder !in s.calls && login != adder
    requires c !in s.tables.challenges && d !in s.tables.challenges && c != d
    requires e.id !in s.tables.credentials && !Taken(s.tables.credentials, e.credentialId)
    ensures exists t :: Reachable(t) && AddedAndTaken(t, adder, s.calls[loser].pc.account, e.id)
  {
    var account := s.calls[loser].pc.account;
    var s1 := Begun(s, login, c, Login, NoKind);
    Begins(s, login, c, Login, NoKind);
    var s2 := Move(s1, login, LoggedIn(account));
    ReachStep(s1, Verify(login, true, row));
    assert GotSession(s2.calls[login], account);
    AddsPasskey(s2, loser, account, adder, d, e);
  }

  lemma AddsPasskey(s: Sys, loser: string, account: string, adder: string, d: string, e: Entry)
    requires Reachable(s) && At(s, loser, Undoing(account)) && account in s.tables.accounts
    requires HasSession(s, account) && adder !in s.calls && d !in s.tables.challenges
    requires e.id !in s.tables.credentials && !Taken(s.tables.credentials, e.credentialId)
    ensures exists t :: Reachable(t) && AddedAndTaken(t, adder, account, e.id)
  {
    var begun := Begun(s, adder, d, Registration, AddCredential(account));
    Begins(s, adder, d, Registration, AddCredential(account));
    Registers(begun, adder, e);
    assert CredentialInserted(begun.tables, e.id, Credential(account, e.credentialId)).Some?;
    UndoTakes(AfterRegister(Move(begun, adder, Registering), adder, e), loser, adder, account, e.id);
  }

  // ----- Such a state is reached -----

  /** Two calls that registered with one invite: the first has consumed it. */
  lemma RaceIsLost(
    invite: string, a: string, b: string, winner: string, loser: string, c: string, d: string, e: Entry, f: Entry)
    requires a != b && winner != loser && c != d && e.id != f.id && e.credentialId != f.credentialId
    ensures exists s :: Reachable(s) && At(s, loser, Undoing(b)) && b in s.tables.accounts && HasCredential(s.tables, b)
  {
    InitialReachable();
    var s1 := Apply(INITIAL, CreateInvite(invite));
    ReachStep(INITIAL, CreateInvite(invite));
    var s2 := Begun(s1, winner, c, Registration, NewAccount(invite, a));
    Begins(s1, winner, c, Registration, NewAccount(invite, a));
    var s3 := Begun(s2, loser, d, Registration, NewAccount(invite, b));
    Begins(s2, loser, d, Registration, NewAccount(invite, b));
    Registers(s3, winner, e);
    var s4 := AfterRegister(Move(s3, winner, Registering), winner, e);
    FirstTakesInvite(s3, winner, e);
    Registers(s4, loser, f);
    var s5 := AfterRegister(Move(s4, loser, Registering), loser, f);
    SecondIsUndone(s4, loser, f);
    assert Reachable(s5) && At(s5, loser, Undoing(b)) && HasCredential(s5.tables, b);
  }

  lemma FirstTakesInvite(s: Sys, call: string, e: Entry)
    requires At(s, call, Verifying) && s.calls[call].kind.NewAccount? && InviteOpen(s.tables, s.calls[call].kind.invite)
    requires s.tables.accounts == map[] && s.tables.credentials == map[]
    ensures var t := AfterRegister(Move(s, call, Registering), call, e);
            && !InviteOpen(t.tables, s.calls[call].kind.invite)
            && t.tables.accounts == map[s.calls[call].kind.account := e.name]
            && t.tables.credentials == map[e.id := Credential(s.calls[call].kind.account, e.credentialId)]
            && t.calls == s.calls[call := s.calls[call].(pc := Registered(s.calls[call].kind.account))]
  {
    var k := s.calls[call].kind;
    AccountWithCredentialAdds(InviteConsumed(s.tables, k.invite, e.at), k.account, e.name, e.id, e.credentialId);
  }

  lemma SecondIsUndone(s: Sys, call: string, e: Entry)
    requires At(s, call, Verifying) && s.calls[call].kind.NewAccount? && !InviteOpen(s.tables, s.calls[call].kind.invite)
    requires s.calls[call].kind.account !in s.tables.accounts
    requires e.id !in s.tables.credentials && !Taken(s.tables.credentials, e.credentialId)
    ensures var t, b := AfterRegister(Move(s, call, Registering), call, e), s.calls[call].kind.account;
            At(t, call, Undoing(b)) && b in t.tables.accounts && HasCredential(t.tables, b)
  {
    var k := s.calls[call].kind;
    AccountWithCredentialAdds(s.tables, k.account, e.name, e.id, e.credentialId);
    var t := AfterRegister(Move(s, call, Registering), call, e);
    assert t.tables.credentials[e.id].accountId == k.account;
  }
}
