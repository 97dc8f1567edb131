/** What open registrations leave behind besides the account: the terms that were accepted and the
    events that the rate limits count (`runOpenAccountRegistrationBatch` in `src/auth/repository.ts`). */
module AuthTerms {
  import opened Strings
  import opened AuthDb
  import opened AuthRuns

  predicate AcceptedTerms(t: Tables, account: string, termsVersion: string) {
    exists id :: id in t.acceptances && t.acceptances[id] == Acceptance(account, termsVersion)
  }

  /** No acceptance is left without its account. */
  predicate NoOrphanAcceptance(t: Tables) {
    forall id :: id in t.acceptances ==> t.acceptances[id].accountId in t.accounts
  }

  /** An account that came about openly accepted the terms its challenge was issued with. */
  predicate TermsOk(s: Sys, account: string) {
    account in s.origins && s.origins[account].Openly? ==>
      AcceptedTerms(s.tables, account, s.origins[account].termsVersion)
  }

  ghost predicate AllTermsOk(s: Sys) {
    forall a {:trigger TermsOk(s, a)} :: a in s.tables.accounts ==> TermsOk(s, a)
  }

  predicate OpenDone(l: Call) {
    l.pc.Registered? && l.kind.OpenAccount?
  }

  /** The open registrations that have succeeded. */
  function OpenCalls(s: Sys): set<string> {
    set c | c in s.calls && OpenDone(s.calls[c])
  }

  ghost predicate TermsInv(s: Sys) {
    && NoOrphanAcceptance(s.tables)
    && AllTermsOk(s)
    && |s.tables.events| == |OpenCalls(s)|
  }

  // ----- Acceptances -----

  lemma DeletionKeepsTerms(t: Tables, gone: string, account: string, termsVersion: string)
    requires AcceptedTerms(t, account, termsVersion) && account != gone
    ensures AcceptedTerms(AccountDeleted(t, gone), account, termsVersion)
  {
    var id :| id in t.acceptances && t.acceptances[id] == Acceptance(account, termsVersion);
    assert id in AccountDeleted(t, gone).acceptances;
  }

  lemma DeletionKeepsTermsOk(s: Sys, t: Sys, gone: string, account: string)
    requires TermsOk(s, account) && t.tables == AccountDeleted(s.tables, gone) && t.origins == s.origins
    requires account in t.tables.accounts
    ensures TermsOk(t, account)
  {
    if account in s.origins && s.origins[account].Openly? {
      DeletionKeepsTerms(s.tables, gone, account, s.origins[account].termsVersion);
    }
  }

  lemma SameAcceptancesTermsOk(s: Sys, t: Sys, account: string)
    requires TermsOk(s, account) && t.tables.acceptances == s.tables.acceptances
    requires account in t.origins && t.origins[account].Openly? ==>
               account in s.origins && t.origins[account] == s.origins[account]
    ensures TermsOk(t, account)
  {
  }

  /** The step wrote no acceptance and no event; an account it made came by invite. */
  ghost predicate NothingOpened(s: Sys, t: Sys) {
    && t.tables.acceptances == s.tables.acceptances && t.tables.events == s.tables.events
    && (forall a :: a in t.tables.accounts && a !in s.tables.accounts ==> a in t.origins && t.origins[a].ByInvite?)
    && (forall a :: a in t.origins && t.origins[a].Openly? ==> a in s.origins && t.origins[a] == s.origins[a])
  }

  ghost predicate Opened(s: Sys, t: Sys, made: string, terms: string, e: Entry) {
    && e.acceptance !in s.tables.acceptances && e.event !in s.tables.events
    && t.tables.acceptances == s.tables.acceptances[e.acceptance := Acceptance(made, terms)]
    && t.tables.events == s.tables.events[e.event := e.ipHash]
    && t.tables.accounts == s.tables.accounts[made := e.name]
    && t.origins == s.origins[made := Openly(terms)]
  }

  /** What a registration changes of the acceptances, the events and the origins. */
  ghost predicate Recorded(s: Sys, t: Sys, call: string, e: Entry)
    requires call in s.calls && call in t.calls
  {
    var k := s.calls[call].kind;
    if t.calls[call].pc != Rejected && k.OpenAccount? then Opened(s, t, k.account, k.termsVersion, e)
    else NothingOpened(s, t)
  }

  lemma RegisterRecords(s: Sys, call: string, e: Entry)
    requires call in s.calls
    ensures call in AfterRegister(s, call, e).calls
    ensures Recorded(s, AfterRegister(s, call, e), call, e)
  {
    match s.calls[call].kind {
      case NewAccount(i, account) =>
        AccountWithCredentialAdds(InviteConsumed(s.tables, i, e.at), account, e.name, e.id, e.credentialId);
      case OpenAccount(account, terms) => OpenAccountRegisteredAdds(s.tables, account, terms, e);
      case AddCredential(_) =>
      case NoKind =>
    }
  }

  lemma NothingOpenedTermsOk(s: Sys, t: Sys)
    requires NothingOpened(s, t) && AllTermsOk(s)
    ensures AllTermsOk(t)
  {
    forall account | account in t.tables.accounts ensures TermsOk(t, account) {
      assert account in s.tables.accounts ==> TermsOk(s, account);
    }
  }

  lemma OpenedTermsOk(s: Sys, t: Sys, made: string, terms: string, e: Entry)
    requires Opened(s, t, made, terms, e) && AllTermsOk(s)
    ensures AllTermsOk(t)
  {
    assert e.acceptance in t.tables.acceptances;
    forall account | account in t.tables.accounts && account != made ensures TermsOk(t, account) {
      assert TermsOk(s, account);
      if account in s.origins && s.origins[account].Openly? {
        var id :| id in s.tables.acceptances
                  && s.tables.acceptances[id] == Acceptance(account, s.origins[account].termsVersion);
        assert t.tables.acceptances[id] == s.tables.acceptances[id];
      }
    }
  }

  lemma RecordedTermsOk(s: Sys, t: Sys, call: string, e: Entry)
    requires call in s.calls && call in t.calls && Recorded(s, t, call, e) && AllTermsOk(s)
    ensures AllTermsOk(t)
  {
    var k := s.calls[call].kind;
    if t.calls[call].pc != Rejected && k.OpenAccount? {
      OpenedTermsOk(s, t, k.account, k.termsVersion, e);
    } else {
      NothingOpenedTermsOk(s, t);
    }
  }

  lemma OthersLeaveRecords(s: Sys, a: Action)
    requires Enabled(s, a) && !a.Register?
    ensures Apply(s, a).origins == s.origins && Apply(s, a).tables.events == s.tables.events
    ensures !a.Undo? && !a.DeleteAccount? ==>
              && Apply(s, a).tables.acceptances == s.tables.acceptances
              && Apply(s, a).tables.accounts == s.tables.accounts
  {
  }

  lemma OthersKeepTermsOk(s: Sys, a: Action, t: Sys, account: string)
    requires Enabled(s, a) && !a.Register? && t == Apply(s, a)
    requires account in t.tables.accounts && TermsOk(s, account)
    ensures TermsOk(t, account)
  {
    match a {
      case Undo(call) => DeletionKeepsTermsOk(s, t, s.calls[call].pc.account, account);
      case DeleteAccount(gone) => DeletionKeepsTermsOk(s, t, gone, account);
      case _ =>
        OthersLeaveRecords(s, a);
        SameAcceptancesTermsOk(s, t, account);
    }
  }

  lemma RegisterKeepsTermsOk(s: Sys, call: string, e: Entry, t: Sys)
    requires call in s.calls && t == AfterRegister(s, call, e) && AllTermsOk(s)
    ensures AllTermsOk(t)
  {
    RegisterRecords(s, call, e);
    RecordedTermsOk(s, t, call, e);
  }

  lemma TermsOkKept(s: Sys, a: Action, t: Sys)
    requires Enabled(s, a) && !a.Register? && t == Apply(s, a) && AllTermsOk(s)
    ensures AllTermsOk(t)
  {
    forall account | account in t.tables.accounts ensures TermsOk(t, account) {
      AccountsOnlyLeave(s, a, account);
      assert TermsOk(s, account);
      OthersKeepTermsOk(s, a, t, account);
    }
  }

  lemma AccountsOnlyLeave(s: Sys, a: Action, account: string)
    requires Enabled(s, a) && !a.Register? && account in Apply(s, a).tables.accounts
    ensures account in s.tables.accounts
  {
  }

  lemma NoOrphanAcceptanceKept(s: Sys, a: Action)
    requires NoOrphanAcceptance(s.tables) && Enabled(s, a)
    ensures NoOrphanAcceptance(Apply(s, a).tables)
  {
    match a {
      case Register(call, e) =>
        RegisterRecords(s, call, e);
        AccountsStay(s, call, e);
      case Undo(call) => DeletionLeavesNoOrphan(s.tables, s.calls[call].pc.account);
      case DeleteAccount(gone) => DeletionLeavesNoOrphan(s.tables, gone);
      case _ => OthersLeaveRecords(s, a);
    }
  }

  lemma AccountsStay(s: Sys, call: string, e: Entry)
    requires call in s.calls
    ensures forall a :: a in s.tables.accounts ==> a in AfterRegister(s, call, e).tables.accounts
  {
    match s.calls[call].kind {
      case NewAccount(i, account) =>
        AccountWithCredentialAdds(InviteConsumed(s.tables, i, e.at), account, e.name, e.id, e.credentialId);
      case OpenAccount(account, terms) => OpenAccountRegisteredAdds(s.tables, account, terms, e);
      case _ =>
    }
  }

  lemma DeletionLeavesNoOrphan(t: Tables, gone: string)
    requires NoOrphanAcceptance(t)
    ensures NoOrphanAcceptance(AccountDeleted(t, gone))
  {
  }

  // ----- Events -----

  /** Only an open registration that succeeds joins them, and none leaves. */
  lemma OpenDoneKept(s: Sys, a: Action, c: string)
    requires Enabled(s, a) && c in Apply(s, a).calls
    requires !a.Register? || a.call != c
    ensures OpenDone(Apply(s, a).calls[c]) <==> c in s.calls && OpenDone(s.calls[c])
  {
    if !Acts(a, c) {
      OthersLeaveCall(s, a, c);
    }
  }

  lemma CallsStay(s: Sys, a: Action, c: string)
    requires Enabled(s, a) && c in s.calls
    ensures c in Apply(s, a).calls
  {
    match a {
      case Register(call, e) => RegisterFrame(s, call, e);
      case _ =>
    }
  }

  lemma OpenCallsKept(s: Sys, a: Action)
    requires Enabled(s, a) && !a.Register?
    ensures OpenCalls(Apply(s, a)) == OpenCalls(s)
  {
    forall c | c in Apply(s, a).calls ensures c in OpenCalls(Apply(s, a)) <==> c in OpenCalls(s) {
      OpenDoneKept(s, a, c);
    }
    forall c | c in s.calls ensures c in Apply(s, a).calls {
      CallsStay(s, a, c);
    }
  }

  lemma OpenCallsAfterRegister(s: Sys, call: string, e: Entry)
    requires At(s, call, Registering)
    ensures call !in OpenCalls(s)
    ensures var t := AfterRegister(s, call, e);
            OpenCalls(t) == if t.calls[call].pc != Rejected && s.calls[call].kind.OpenAccount?
                            then OpenCalls(s) + {call} else OpenCalls(s)
  {
    RegisterFrame(s, call, e);
  }

  lemma EventsCounted(s: Sys, a: Action)
    requires Enabled(s, a) && |s.tables.events| == |OpenCalls(s)|
    ensures |Apply(s, a).tables.events| == |OpenCalls(Apply(s, a))|
  {
    match a {
      case Register(call, e) =>
        RegisterRecords(s, call, e);
        OpenCallsAfterRegister(s, call, e);
      case _ =>
        OthersLeaveRecords(s, a);
        OpenCallsKept(s, a);
    }
  }

  // ----- Main results -----

  lemma TermsInvKept(s: Sys, a: Action)
    requires TermsInv(s) && Enabled(s, a)
    ensures TermsInv(Apply(s, a))
  {
    NoOrphanAcceptanceKept(s, a);
    EventsCounted(s, a);
    if a.Register? {
      RegisterKeepsTermsOk(s, a.call, a.e, Apply(s, a));
    } else {
      TermsOkKept(s, a, Apply(s, a));
    }
  }

  /** In every state of every interleaving: an account that came about openly has on record the terms
      that its challenge was issued with, no accepted terms are left without their account, and the
      events are as many as the open registrations that succeeded, deleted accounts included. */
  lemma {:induction false} OpenAccountsAcceptedTerms(trace: seq<Sys>, actions: seq<Action>, n: nat)
    requires Follows(trace, actions) && n < |trace|
    ensures TermsInv(trace[n])
  {
    if n == 0 {
      assert OpenCalls(INITIAL) == {};
    } else {
      OpenAccountsAcceptedTerms(trace, actions, n - 1);
      assert StepAt(trace, actions, n - 1);
      TermsInvKept(trace[n - 1], actions[n - 1]);
    }
  }
}
