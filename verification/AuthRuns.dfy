/** Registrations, logins, passkey and account deletions at the same time (`src/auth/webauthn.ts`).
    Every database statement or batch is one atomic action of a call. */
module AuthRuns {
  import opened Strings
  import opened AuthDb

  /** Where a call is. `Claiming` has read its challenge as consumable; `Verifying` has claimed it;
      `Registering` has a verified response; `Undoing` has committed an account whose invite was
      consumed by another. */
  datatype Pc =
    | Reading | Claiming | Verifying | Registering
    | Undoing(account: string) | Registered(account: string) | LoggedIn(account: string) | Rejected

  datatype Call = Call(challenge: string, purpose: Purpose, kind: Kind, pc: Pc)

  /** For the record: which call claimed a challenge, which account consumed an invite, and how an
      account came about. */
  datatype Origin = ByInvite(invite: string, consumedIt: bool, call: string) | Openly(termsVersion: string)

  datatype Sys = Sys(
    tables: Tables, calls: map<string, Call>,
    claims: map<string, string>, winners: map<string, string>, origins: map<string, Origin>)

  const INITIAL := Sys(Tables(map[], map[], map[], map[], map[], map[]), map[], map[], map[], map[])

  datatype Action =
    | CreateInvite(invite: string)
    | Issue(challenge: string, purpose: Purpose, kind: Kind, expiresAt: int)
    | Begin(call: string, challenge: string, purpose: Purpose)
    | Read(call: string, now: int)
    | Claim(call: string, at: int)
    | Verify(call: string, verified: bool, id: string)
    | Register(call: string, e: Entry)
    | Undo(call: string)
    | DeleteCredential(account: string, id: string)
    | DeleteAccount(account: string)

  predicate IsPending(k: Kind, account: string) {
    (k.NewAccount? || k.OpenAccount?) && k.account == account
  }

  /** The account id of a new registration is drawn fresh with its challenge. */
  predicate FreshKind(t: Tables, k: Kind) {
    k.NewAccount? || k.OpenAccount? ==>
      forall c :: c in t.challenges ==> !IsPending(t.challenges[c].kind, k.account)
  }

  /** The call got a session for the account: by a login, or by the registration that made it. */
  predicate GotSession(l: Call, account: string) {
    l.pc == LoggedIn(account) || (l.pc == Registered(account) && !l.kind.AddCredential?)
  }

  predicate HasSession(s: Sys, account: string) {
    exists call :: call in s.calls && GotSession(s.calls[call], account)
  }

  /** A passkey can be added only from a session of the account. */
  predicate HasSessionFor(s: Sys, k: Kind) {
    k.AddCredential? ==> HasSession(s, k.account)
  }

  predicate At(s: Sys, call: string, pc: Pc) {
    call in s.calls && s.calls[call].pc == pc
  }

  predicate Enabled(s: Sys, a: Action) {
    match a
    case CreateInvite(i) => i !in s.tables.invites
    case Issue(c, _, k, _) => c !in s.tables.challenges && FreshKind(s.tables, k) && HasSessionFor(s, k)
    case Begin(call, _, _) => call !in s.calls
    case Read(call, _) => At(s, call, Reading)
    case Claim(call, _) => At(s, call, Claiming)
    case Verify(call, _, _) => At(s, call, Verifying)
    case Register(call, _) => At(s, call, Registering)
    case Undo(call) => call in s.calls && s.calls[call].pc.Undoing?
    case DeleteCredential(_, _) => true
    case DeleteAccount(_) => true
  }

  function Move(s: Sys, call: string, pc: Pc): Sys
    requires call in s.calls
  {
    s.(calls := s.calls[call := s.calls[call].(pc := pc)])
  }

  function Apply(s: Sys, a: Action): Sys
    requires Enabled(s, a)
  {
    match a
    case CreateInvite(i) => s.(tables := s.tables.(invites := s.tables.invites[i := None]))
    case Issue(c, purpose, k, expiresAt) =>
      s.(tables := s.tables.(challenges := s.tables.challenges[c := Challenge(purpose, k, expiresAt, None)]))
    case Begin(call, c, purpose) => s.(calls := s.calls[call := Call(c, purpose, NoKind, Reading)])
    case Read(call, now) => AfterRead(s, call, now)
    case Claim(call, at) => AfterClaim(s, call, at)
    case Verify(call, verified, id) =>
      Move(s, call, if !verified then Rejected
                    else if s.calls[call].purpose == Registration then Registering
                    else if id in s.tables.credentials then LoggedIn(s.tables.credentials[id].accountId)
                    else Rejected)
    case Register(call, e) => AfterRegister(s, call, e)
    case Undo(call) =>
      Move(s, call, Rejected).(tables := AccountDeleted(s.tables, s.calls[call].pc.account))
    case DeleteCredential(account, id) => s.(tables := CredentialDeleted(s.tables, account, id))
    case DeleteAccount(account) => s.(tables := AccountDeleted(s.tables, account))
  }

  function AfterRead(s: Sys, call: string, now: int): Sys
    requires call in s.calls
  {
    var l := s.calls[call];
    var cs := s.tables.challenges;
    if l.challenge in cs && cs[l.challenge].purpose == l.purpose && IsChallengeConsumable(cs[l.challenge], now)
    then s.(calls := s.calls[call := l.(kind := cs[l.challenge].kind, pc := Claiming)])
    else Move(s, call, Rejected)
  }

  function AfterClaim(s: Sys, call: string, at: int): Sys
    requires call in s.calls
  {
    var c := s.calls[call].challenge;
    if CanClaim(s.tables, c)
    then Move(s, call, Verifying).(tables := Claimed(s.tables, c, at), claims := s.claims[c := call])
    else Move(s, call, Rejected)
  }

  function AfterRegister(s: Sys, call: string, e: Entry): Sys
    requires call in s.calls
  {
    match s.calls[call].kind
    case NewAccount(i, account) =>
      (match AccountWithCredential(InviteConsumed(s.tables, i, e.at), account, e.name, e.id, e.credentialId)
       case None => Move(s, call, Rejected)
       case Some(t) =>
         var hit := InviteOpen(s.tables, i);
         Move(s, call, if hit then Registered(account) else Undoing(account))
           .(tables := t, origins := s.origins[account := ByInvite(i, hit, call)],
             winners := if hit then s.winners[i := account] else s.winners))
    case OpenAccount(account, terms) =>
      (match OpenAccountRegistered(s.tables, account, terms, e)
       case None => Move(s, call, Rejected)
       case Some(t) =>
         Move(s, call, Registered(account)).(tables := t, origins := s.origins[account := Openly(terms)]))
    case AddCredential(account) =>
      (match CredentialInserted(s.tables, e.id, Credential(account, e.credentialId))
       case None => Move(s, call, Rejected)
       case Some(t) => Move(s, call, Registered(account)).(tables := t))
    case NoKind => Move(s, call, Rejected)
  }

  /** A run of the whole system: from the empty tables, each state follows by the next action. */
  ghost predicate Follows(trace: seq<Sys>, actions: seq<Action>) {
    && |trace| == |actions| + 1 && trace[0] == INITIAL
    && forall i {:trigger StepAt(trace, actions, i)} :: 0 <= i < |actions| ==> StepAt(trace, actions, i)
  }

  predicate StepAt(trace: seq<Sys>, actions: seq<Action>, i: nat)
    requires i < |actions| && |trace| == |actions| + 1
  {
    Enabled(trace[i], actions[i]) && trace[i + 1] == Apply(trace[i], actions[i])
  }

  // ----- The invariant -----

  /** The call has claimed its challenge. */
  predicate HasClaimed(pc: Pc) {
    pc.Verifying? || pc.Registering? || pc.Undoing? || pc.Registered? || pc.LoggedIn?
  }

  /** A call that has claimed is the one on record, and knows what the challenge was for. */
  predicate CallOk(s: Sys, call: string)
    requires call in s.calls
  {
    var l := s.calls[call];
    var cs := s.tables.challenges;
    && (l.pc != Reading && l.pc != Rejected ==> l.challenge in cs && l.kind == cs[l.challenge].kind)
    && (HasClaimed(l.pc) ==>
          l.challenge in cs && cs[l.challenge].consumedAt.Some?
          && l.challenge in s.claims && s.claims[l.challenge] == call)
    && (l.pc.Undoing? ==> l.kind.NewAccount? && l.kind.account == l.pc.account)
    && (l.pc.Registered? ==> l.kind != NoKind && l.kind.account == l.pc.account)
  }

  predicate AccountOk(s: Sys, account: string) {
    && account in s.origins
    && var o := s.origins[account];
       o.ByInvite? ==>
         if o.consumedIt then o.invite in s.winners && s.winners[o.invite] == account
         else At(s, o.call, Undoing(account))
  }

  predicate WinnersOk(s: Sys) {
    forall i :: i in s.winners ==> i in s.tables.invites && s.tables.invites[i].Some?
  }

  predicate PendingDistinct(t: Tables) {
    forall c, d :: c in t.challenges && d in t.challenges && c != d
                   && (t.challenges[c].kind.NewAccount? || t.challenges[c].kind.OpenAccount?) ==>
                   !IsPending(t.challenges[d].kind, t.challenges[c].kind.account)
  }

  ghost predicate AddersHadSessions(s: Sys) {
    forall c :: c in s.tables.challenges ==> HasSessionFor(s, s.tables.challenges[c].kind)
  }

  ghost predicate Inv(s: Sys) {
    && Sound(s.tables)
    && (forall call {:trigger CallOk(s, call)} :: call in s.calls ==> CallOk(s, call))
    && (forall a {:trigger AccountOk(s, a)} :: a in s.tables.accounts ==> AccountOk(s, a))
    && WinnersOk(s)
    && PendingDistinct(s.tables)
    && AddersHadSessions(s)
  }

  lemma SoundKept(s: Sys, a: Action)
    requires Sound(s.tables) && Enabled(s, a)
    ensures Sound(Apply(s, a).tables)
  {
    match a {
      case Register(call, e) => SoundAfterRegister(s, call, e);
      case Undo(call) => DeleteAccountKeepsSound(s.tables, s.calls[call].pc.account);
      case DeleteCredential(account, id) => DeleteCredentialKeepsSound(s.tables, account, id);
      case DeleteAccount(account) => DeleteAccountKeepsSound(s.tables, account);
      case _ =>
        OthersLeaveRows(s, a);
        SameRowsSound(s.tables, Apply(s, a).tables);
    }
  }

  lemma OthersLeaveRows(s: Sys, a: Action)
    requires Enabled(s, a)
    ensures a.CreateInvite? || a.Issue? || a.Begin? || a.Read? || a.Claim? || a.Verify? ==>
              && Apply(s, a).tables.accounts == s.tables.accounts
              && Apply(s, a).tables.credentials == s.tables.credentials
  {
  }

  lemma SoundAfterRegister(s: Sys, call: string, e: Entry)
    requires Sound(s.tables) && call in s.calls
    ensures Sound(AfterRegister(s, call, e).tables)
  {
    match s.calls[call].kind {
      case NewAccount(i, account) => SoundAfterNewAccount(s.tables, i, account, e);
      case OpenAccount(account, terms) =>
        if OpenAccountRegistered(s.tables, account, terms, e).Some? {
          OpenRegistrationKeepsSound(s.tables, account, terms, e);
        }
      case AddCredential(account) =>
        if CredentialInserted(s.tables, e.id, Credential(account, e.credentialId)).Some? {
          InsertCredentialKeepsSound(s.tables, e.id, Credential(account, e.credentialId));
        }
      case NoKind =>
    }
  }

  lemma SoundAfterNewAccount(t: Tables, i: string, account: string, e: Entry)
    requires Sound(t)
    ensures var r := AccountWithCredential(InviteConsumed(t, i, e.at), account, e.name, e.id, e.credentialId);
            r.Some? ==> Sound(r.value)
  {
    var u := InviteConsumed(t, i, e.at);
    SameRowsSound(t, u);
    if AccountWithCredential(u, account, e.name, e.id, e.credentialId).Some? {
      RegistrationKeepsSound(u, account, e.name, e.id, e.credentialId);
    }
  }

  /** A registration moves its call, and beyond accounts, credentials and invites touches nothing of the others. */
  lemma RegisterFrame(s: Sys, call: string, e: Entry)
    requires call in s.calls
    ensures var t := AfterRegister(s, call, e);
            && t.tables.challenges == s.tables.challenges && t.claims == s.claims
            && call in t.calls && t.calls == s.calls[call := s.calls[call].(pc := t.calls[call].pc)]
    ensures var t, k := AfterRegister(s, call, e), s.calls[call].kind;
            t.calls[call].pc != Rejected ==>
              && k != NoKind
              && (t.calls[call].pc == Registered(k.account) || (k.NewAccount? && t.calls[call].pc == Undoing(k.account)))
  {
    match s.calls[call].kind {
      case NewAccount(i, account) =>
        AccountWithCredentialAdds(InviteConsumed(s.tables, i, e.at), account, e.name, e.id, e.credentialId);
      case OpenAccount(account, terms) => OpenAccountRegisteredAdds(s.tables, account, terms, e);
      case AddCredential(account) =>
      case NoKind =>
    }
  }

  /** Challenges stay, keep their kind and stay consumed. */
  lemma ChallengesKept(s: Sys, a: Action, c: string)
    requires Enabled(s, a) && c in s.tables.challenges
    ensures var before, after := s.tables.challenges, Apply(s, a).tables.challenges;
            && c in after && after[c].kind == before[c].kind
            && (before[c].consumedAt.Some? ==> after[c].consumedAt.Some?)
  {
    match a {
      case Register(call, e) => RegisterFrame(s, call, e);
      case _ =>
    }
  }

  /** A claim on record stays. */
  lemma ClaimsKept(s: Sys, a: Action, c: string)
    requires Enabled(s, a) && c in s.tables.challenges && s.tables.challenges[c].consumedAt.Some? && c in s.claims
    ensures c in Apply(s, a).claims && Apply(s, a).claims[c] == s.claims[c]
  {
    match a {
      case Register(call, e) => RegisterFrame(s, call, e);
      case _ =>
    }
  }

  predicate Acts(a: Action, call: string) {
    match a
    case Begin(c, _, _) => c == call
    case Read(c, _) => c == call
    case Claim(c, _) => c == call
    case Verify(c, _, _) => c == call
    case Register(c, _) => c == call
    case Undo(c) => c == call
    case _ => false
  }

  lemma OthersLeaveCall(s: Sys, a: Action, call: string)
    requires Enabled(s, a) && !Acts(a, call)
    ensures call in Apply(s, a).calls <==> call in s.calls
    ensures call in s.calls ==> Apply(s, a).calls[call] == s.calls[call]
  {
    match a {
      case Register(c, e) => RegisterFrame(s, c, e);
      case _ =>
    }
  }

  lemma OwnStepKeepsCallOk(s: Sys, a: Action, call: string)
    requires Enabled(s, a) && Acts(a, call) && call in s.calls && CallOk(s, call)
    ensures call in Apply(s, a).calls && CallOk(Apply(s, a), call)
  {
    match a {
      case Register(_, e) => RegisterFrame(s, call, e);
      case Claim(_, _) =>
      case Read(_, _) =>
      case Verify(_, _, _) =>
      case Undo(_) =>
    }
  }

  lemma CallOkKept(s: Sys, a: Action, call: string)
    requires call in s.calls ==> CallOk(s, call)
    requires Enabled(s, a) && call in Apply(s, a).calls
    ensures CallOk(Apply(s, a), call)
  {
    if call !in s.calls {
      BegunCallOk(s, a, call);
    } else if Acts(a, call) {
      OwnStepKeepsCallOk(s, a, call);
    } else {
      OthersLeaveCall(s, a, call);
      OthersKeepCallOk(s, a, call);
    }
  }

  lemma BegunCallOk(s: Sys, a: Action, call: string)
    requires Enabled(s, a) && call in Apply(s, a).calls && call !in s.calls
    ensures CallOk(Apply(s, a), call)
  {
    if !Acts(a, call) {
      OthersLeaveCall(s, a, call);
    }
  }

  lemma OthersKeepCallOk(s: Sys, a: Action, call: string)
    requires Enabled(s, a) && call in s.calls && CallOk(s, call)
    requires call in Apply(s, a).calls && Apply(s, a).calls[call] == s.calls[call]
    ensures CallOk(Apply(s, a), call)
  {
    var c := s.calls[call].challenge;
    if c in s.tables.challenges {
      ChallengesKept(s, a, c);
      if s.tables.challenges[c].consumedAt.Some? && c in s.claims {
        ClaimsKept(s, a, c);
      }
    }
  }

  /** An account that a registration creates has its origin on record; the others keep theirs. */
  lemma RegisterKeepsAccountOk(
    s: Sys, call: string, e: Entry, account: string)
    requires At(s, call, Registering) && WinnersOk(s)
    requires account in s.tables.accounts ==> AccountOk(s, account)
    requires account in AfterRegister(s, call, e).tables.accounts
    ensures AccountOk(AfterRegister(s, call, e), account)
  {
    match s.calls[call].kind {
      case NewAccount(_, _) => NewAccountKeepsAccountOk(s, call, e, account);
      case OpenAccount(_, _) => OpenAccountKeepsAccountOk(s, call, e, account);
      case AddCredential(_) => AddCredentialKeepsAccountOk(s, call, e, account);
      case NoKind => MoveKeepsAccountOk(s, call, Rejected, account);
    }
  }

  // A call that is not undoing an account moves.
  lemma MoveKeepsAccountOk(s: Sys, call: string, pc: Pc, account: string)
    requires At(s, call, Registering) && AccountOk(s, account)
    ensures AccountOk(Move(s, call, pc), account)
  {
  }

  lemma SameRecordsAccountOk(s: Sys, t: Sys, account: string)
    requires AccountOk(s, account) && t.calls == s.calls && t.winners == s.winners
    requires account in t.origins && t.origins[account] == s.origins[account]
    ensures AccountOk(t, account)
  {
  }

  lemma AddCredentialKeepsAccountOk(
    s: Sys, call: string, e: Entry, account: string)
    requires At(s, call, Registering) && s.calls[call].kind.AddCredential?
    requires account in s.tables.accounts ==> AccountOk(s, account)
    requires account in AfterRegister(s, call, e).tables.accounts
    ensures AccountOk(AfterRegister(s, call, e), account)
  {
    var t := AfterRegister(s, call, e);
    var moved := Move(s, call, t.calls[call].pc);
    MoveKeepsAccountOk(s, call, t.calls[call].pc, account);
    SameRecordsAccountOk(moved, t, account);
  }

  lemma OpenAccountKeepsAccountOk(
    s: Sys, call: string, e: Entry, account: string)
    requires At(s, call, Registering) && s.calls[call].kind.OpenAccount?
    requires account in s.tables.accounts ==> AccountOk(s, account)
    requires account in AfterRegister(s, call, e).tables.accounts
    ensures AccountOk(AfterRegister(s, call, e), account)
  {
    var made := s.calls[call].kind.account;
    var t := AfterRegister(s, call, e);
    OpenAccountRegisteredAdds(s.tables, made, s.calls[call].kind.termsVersion, e);
    if account != made || t.calls[call].pc == Rejected {
      MoveKeepsAccountOk(s, call, t.calls[call].pc, account);
      SameRecordsAccountOk(Move(s, call, t.calls[call].pc), t, account);
    }
  }

  lemma NewAccountKeepsAccountOk(
    s: Sys, call: string, e: Entry, account: string)
    requires At(s, call, Registering) && WinnersOk(s) && s.calls[call].kind.NewAccount?
    requires account in s.tables.accounts ==> AccountOk(s, account)
    requires account in AfterRegister(s, call, e).tables.accounts
    ensures AccountOk(AfterRegister(s, call, e), account)
  {
    var k := s.calls[call].kind;
    AccountWithCredentialAdds(InviteConsumed(s.tables, k.invite, e.at), k.account, e.name, e.id, e.credentialId);
  }

  lemma AccountOkKept(s: Sys, a: Action, account: string)
    requires Inv(s) && Enabled(s, a) && account in Apply(s, a).tables.accounts
    ensures AccountOk(Apply(s, a), account)
  {
    assert account in s.tables.accounts ==> AccountOk(s, account);
    match a {
      case Register(call, e) =>
        RegisterKeepsAccountOk(s, call, e, account);
      case _ => OtherActionsKeepAccountOk(s, a, account);
    }
  }

  lemma OtherActionsKeepAccountOk(s: Sys, a: Action, account: string)
    requires Enabled(s, a) && !a.Register? && account in Apply(s, a).tables.accounts
    requires account in s.tables.accounts ==> AccountOk(s, account)
    ensures AccountOk(Apply(s, a), account)
  {
    assert account in s.tables.accounts;
    match a {
      case Undo(_) =>
      case Claim(_, _) =>
      case Read(_, _) =>
      case _ =>
    }
  }

  lemma PendingDistinctKept(s: Sys, a: Action)
    requires PendingDistinct(s.tables) && Enabled(s, a)
    ensures PendingDistinct(Apply(s, a).tables)
  {
    match a {
      case Register(call, e) => RegisterFrame(s, call, e);
      case Issue(_, _, _, _) =>
      case Claim(_, _) =>
      case _ =>
    }
  }

  /** A session, once got, stays on record. */
  lemma SessionsStay(s: Sys, a: Action, account: string)
    requires Enabled(s, a) && HasSession(s, account)
    ensures HasSession(Apply(s, a), account)
  {
    var call :| call in s.calls && GotSession(s.calls[call], account);
    assert !Acts(a, call);
    OthersLeaveCall(s, a, call);
  }

  lemma AddersHadSessionsKept(s: Sys, a: Action)
    requires AddersHadSessions(s) && Enabled(s, a)
    ensures AddersHadSessions(Apply(s, a))
  {
    forall c | c in Apply(s, a).tables.challenges && Apply(s, a).tables.challenges[c].kind.AddCredential?
      ensures HasSession(Apply(s, a), Apply(s, a).tables.challenges[c].kind.account)
    {
      IssuedForSession(s, a, c);
      SessionsStay(s, a, Apply(s, a).tables.challenges[c].kind.account);
    }
  }

  lemma IssuedForSession(s: Sys, a: Action, c: string)
    requires AddersHadSessions(s) && Enabled(s, a) && c in Apply(s, a).tables.challenges
    ensures HasSessionFor(s, Apply(s, a).tables.challenges[c].kind)
  {
    if c in s.tables.challenges {
      ChallengesKept(s, a, c);
      assert HasSessionFor(s, s.tables.challenges[c].kind);
    } else {
      match a {
        case Register(call, e) => RegisterFrame(s, call, e);
        case _ =>
      }
    }
  }

  lemma RegisterKeepsWinnersOk(s: Sys, call: string, e: Entry)
    requires call in s.calls && WinnersOk(s)
    ensures WinnersOk(AfterRegister(s, call, e))
  {
    match s.calls[call].kind {
      case NewAccount(i, account) =>
        AccountWithCredentialAdds(InviteConsumed(s.tables, i, e.at), account, e.name, e.id, e.credentialId);
      case OpenAccount(account, terms) => OpenAccountRegisteredAdds(s.tables, account, terms, e);
      case AddCredential(_) =>
      case NoKind =>
    }
  }

  lemma WinnersOkKept(s: Sys, a: Action)
    requires WinnersOk(s) && Enabled(s, a)
    ensures WinnersOk(Apply(s, a))
  {
    match a {
      case Register(call, e) =>
        RegisterKeepsWinnersOk(s, call, e);
      case _ =>
    }
  }

  lemma InvKept(s: Sys, a: Action)
    requires Inv(s) && Enabled(s, a)
    ensures Inv(Apply(s, a))
  {
    SoundKept(s, a);
    PendingDistinctKept(s, a);
    WinnersOkKept(s, a);
    AddersHadSessionsKept(s, a);
    forall call | call in Apply(s, a).calls ensures CallOk(Apply(s, a), call) {
      assert call in s.calls ==> CallOk(s, call);
      CallOkKept(s, a, call);
    }
    forall account | account in Apply(s, a).tables.accounts ensures AccountOk(Apply(s, a), account) {
      AccountOkKept(s, a, account);
    }
  }

  lemma {:induction false} InvHolds(trace: seq<Sys>, actions: seq<Action>, n: nat)
    requires Follows(trace, actions) && n < |trace|
    ensures Inv(trace[n])
  {
    if n > 0 {
      InvHolds(trace, actions, n - 1);
      assert StepAt(trace, actions, n - 1);
      InvKept(trace[n - 1], actions[n - 1]);
    }
  }

  // ----- Main results -----

  /** In every interleaving every account has a passkey, and no passkey belongs to two rows. */
  lemma EveryAccountHasAPasskey(trace: seq<Sys>, actions: seq<Action>, n: nat, account: string)
    requires Follows(trace, actions) && n < |trace| && account in trace[n].tables.accounts
    ensures CredentialsOf(trace[n].tables.credentials, account) != {}
    ensures Sound(trace[n].tables)
  {
    InvHolds(trace, actions, n);
    var t := trace[n].tables;
    assert HasCredential(t, account);
    var id :| id in t.credentials && t.credentials[id].accountId == account;
    assert id in CredentialsOf(t.credentials, account);
  }

  /** Each challenge is claimed by at most one call. */
  lemma OneClaimant(trace: seq<Sys>, actions: seq<Action>, n: nat, a: string, b: string)
    requires Follows(trace, actions) && n < |trace| && a in trace[n].calls && b in trace[n].calls
    requires HasClaimed(trace[n].calls[a].pc) && HasClaimed(trace[n].calls[b].pc)
    requires trace[n].calls[a].challenge == trace[n].calls[b].challenge
    ensures a == b
  {
    InvHolds(trace, actions, n);
    assert CallOk(trace[n], a) && CallOk(trace[n], b);
  }

  predicate NoUndoPending(s: Sys) {
    forall call :: call in s.calls ==> !s.calls[call].pc.Undoing?
  }

  /** Once every undo has run, each invite has brought about at most one account that is there. */
  lemma OneAccountPerInvite(trace: seq<Sys>, actions: seq<Action>, n: nat, a: string, b: string)
    requires Follows(trace, actions) && n < |trace| && NoUndoPending(trace[n])
    requires a in trace[n].tables.accounts && b in trace[n].tables.accounts
    ensures a in trace[n].origins && b in trace[n].origins
    ensures var oa, ob := trace[n].origins[a], trace[n].origins[b];
            oa.ByInvite? && ob.ByInvite? && oa.invite == ob.invite ==> a == b
  {
    InvHolds(trace, actions, n);
    assert AccountOk(trace[n], a) && AccountOk(trace[n], b);
  }

  /** An undo never deletes the account of a registration that succeeded in making it; what it can
      take is a passkey that was added to the account from a session somebody had logged in to
      between the two statements. */
  lemma UndoSparesTheRegistered(trace: seq<Sys>, actions: seq<Action>, n: nat, loser: string, winner: string)
    requires Follows(trace, actions) && n < |trace| && loser in trace[n].calls && winner in trace[n].calls
    requires trace[n].calls[loser].pc.Undoing? && trace[n].calls[winner].pc.Registered?
    requires trace[n].calls[loser].pc.account == trace[n].calls[winner].pc.account
    ensures trace[n].calls[winner].kind.AddCredential?
    ensures exists call :: call in trace[n].calls && trace[n].calls[call].pc == LoggedIn(trace[n].calls[winner].pc.account)
  {
    var s := trace[n];
    var account := s.calls[winner].pc.account;
    InvHolds(trace, actions, n);
    MakerIsOne(s, loser, winner);
    assert CallOk(s, winner);
    assert HasSessionFor(s, s.tables.challenges[s.calls[winner].challenge].kind);
    var call :| call in s.calls && GotSession(s.calls[call], account);
    if s.calls[call].pc != LoggedIn(account) {
      MakerIsOne(s, loser, call);
    }
  }

  // The challenge of a new account was claimed by one call, which is undoing it.
  lemma MakerIsOne(s: Sys, loser: string, other: string)
    requires Inv(s) && loser in s.calls && other in s.calls
    requires s.calls[loser].pc.Undoing? && s.calls[other].pc == Registered(s.calls[loser].pc.account)
    ensures s.calls[other].kind.AddCredential?
  {
    assert CallOk(s, loser) && CallOk(s, other);
  }
}
