/** Accounts, passkeys, invites and challenges, and the statements on them
    (`src/auth/repository.ts`, `src/auth/challenges.ts`). */
module AuthDb {
  import opened Strings

  /** A row of `webauthn_credentials`, found under its own row id. */
  datatype Credential = Credential(accountId: string, credentialId: string)

  datatype Purpose = Registration | Login

  /** What a registration challenge is for. */
  datatype Kind =
    | NewAccount(invite: string, account: string)
    | OpenAccount(account: string, termsVersion: string)
    | AddCredential(account: string)
    | NoKind

  datatype Challenge = Challenge(purpose: Purpose, kind: Kind, expiresAt: int, consumedAt: Option<int>)

  /** A row of `account_terms_acceptances`. */
  datatype Acceptance = Acceptance(accountId: string, termsVersion: string)

  /** The tables: account names, credentials, when an invite was consumed, challenges, accepted terms,
      and the address hash of every open registration, each by its id. */
  datatype Tables = Tables(
    accounts: map<string, string>, credentials: map<string, Credential>,
    invites: map<string, Option<int>>, challenges: map<string, Challenge>,
    acceptances: map<string, Acceptance>, events: map<string, string>)

  /** What a registration call draws or reads for its rows. */
  datatype Entry = Entry(
    name: string, id: string, credentialId: string, at: int, acceptance: string, event: string, ipHash: string)

  // ----- What the statements do -----

  function CredentialsOf(credentials: map<string, Credential>, account: string): set<string> {
    set id | id in credentials && credentials[id].accountId == account
  }

  predicate Taken(credentials: map<string, Credential>, credentialId: string) {
    exists id :: id in credentials && credentials[id].credentialId == credentialId
  }

  predicate InviteOpen(t: Tables, invite: string) {
    invite in t.invites && t.invites[invite] == None
  }

  function InviteConsumed(t: Tables, invite: string, at: int): Tables {
    if InviteOpen(t, invite) then t.(invites := t.invites[invite := Some(at)]) else t
  }

  /** `None` when the statement throws: the account id is there already. */
  function AccountInserted(t: Tables, account: string, name: string): Option<Tables> {
    if account in t.accounts then None else Some(t.(accounts := t.accounts[account := name]))
  }

  /** `None` when the statement throws: the row id or the passkey is there already, or the account is not. */
  function CredentialInserted(t: Tables, id: string, c: Credential): Option<Tables> {
    if id in t.credentials || Taken(t.credentials, c.credentialId) || c.accountId !in t.accounts then None
    else Some(t.(credentials := t.credentials[id := c]))
  }

  /** An account and its first passkey, both or neither. */
  function AccountWithCredential(t: Tables, account: string, name: string, id: string, credentialId: string)
    : Option<Tables>
  {
    match AccountInserted(t, account, name)
    case None => None
    case Some(u) => CredentialInserted(u, id, Credential(account, credentialId))
  }

  lemma AccountWithCredentialAdds(t: Tables, account: string, name: string, id: string, credentialId: string)
    ensures AccountWithCredential(t, account, name, id, credentialId).Some? <==>
            account !in t.accounts && id !in t.credentials && !Taken(t.credentials, credentialId)
    ensures var r := AccountWithCredential(t, account, name, id, credentialId);
            r.Some? ==>
              && account !in t.accounts && r.value.accounts == t.accounts[account := name]
              && r.value.credentials == t.credentials[id := Credential(account, credentialId)]
              && r.value.invites == t.invites && r.value.challenges == t.challenges
              && r.value.acceptances == t.acceptances && r.value.events == t.events
  {
  }

  /** An account, its first passkey, the terms it accepted and the event that is counted: all or none. */
  function OpenAccountRegistered(t: Tables, account: string, termsVersion: string, e: Entry): Option<Tables> {
    match AccountWithCredential(t, account, e.name, e.id, e.credentialId)
    case None => None
    case Some(u) =>
      if e.acceptance in u.acceptances || e.event in u.events then None
      else Some(u.(acceptances := u.acceptances[e.acceptance := Acceptance(account, termsVersion)],
                   events := u.events[e.event := e.ipHash]))
  }

  lemma OpenAccountRegisteredAdds(t: Tables, account: string, termsVersion: string, e: Entry)
    ensures OpenAccountRegistered(t, account, termsVersion, e).Some? <==>
            && account !in t.accounts && e.id !in t.credentials && !Taken(t.credentials, e.credentialId)
            && e.acceptance !in t.acceptances && e.event !in t.events
    ensures var r := OpenAccountRegistered(t, account, termsVersion, e);
            r.Some? ==>
              && account !in t.accounts && r.value.accounts == t.accounts[account := e.name]
              && r.value.credentials == t.credentials[e.id := Credential(account, e.credentialId)]
              && r.value.invites == t.invites && r.value.challenges == t.challenges
              && e.acceptance !in t.acceptances && e.event !in t.events
              && r.value.acceptances == t.acceptances[e.acceptance := Acceptance(account, termsVersion)]
              && r.value.events == t.events[e.event := e.ipHash]
  {
    AccountWithCredentialAdds(t, account, e.name, e.id, e.credentialId);
  }

  predicate CanDeleteCredential(t: Tables, account: string, id: string) {
    && id in t.credentials && t.credentials[id].accountId == account
    && |CredentialsOf(t.credentials, account)| > 1
  }

  function CredentialDeleted(t: Tables, account: string, id: string): Tables {
    if CanDeleteCredential(t, account, id) then t.(credentials := t.credentials - {id}) else t
  }

  function AcceptancesOf(acceptances: map<string, Acceptance>, account: string): set<string> {
    set id | id in acceptances && acceptances[id].accountId == account
  }

  /** With `ON DELETE CASCADE` from the account to its credentials and to the terms it accepted. */
  function AccountDeleted(t: Tables, account: string): Tables {
    t.(accounts := t.accounts - {account},
       credentials := t.credentials - CredentialsOf(t.credentials, account),
       acceptances := t.acceptances - AcceptancesOf(t.acceptances, account))
  }

  predicate IsChallengeConsumable(c: Challenge, nowMs: int) {
    c.consumedAt == None && c.expiresAt > nowMs
  }

  predicate CanClaim(t: Tables, challenge: string) {
    challenge in t.challenges && t.challenges[challenge].consumedAt == None
  }

  function Claimed(t: Tables, challenge: string, at: int): Tables {
    if CanClaim(t, challenge)
    then t.(challenges := t.challenges[challenge := t.challenges[challenge].(consumedAt := Some(at))])
    else t
  }

  // ----- The database -----

  datatype BatchResult = Threw | Committed(inviteConsumed: bool)

  class Database {
    var accounts: map<string, string>
    var credentials: map<string, Credential>
    var invites: map<string, Option<int>>
    var challenges: map<string, Challenge>
    var acceptances: map<string, Acceptance>
    var events: map<string, string>

    function Contents(): Tables
      reads this
    {
      Tables(accounts, credentials, invites, challenges, acceptances, events)
    }

    /** Invite, account and passkey in one transaction. When a statement throws, nothing is left of
        it; an invite consumed before is no such case, and then the other two stay. */
    method RunNewAccountRegistrationBatch(
      invite: string, at: int, account: string, name: string, id: string, credentialId: string)
      returns (r: BatchResult)
      modifies this
      ensures r == Threw <==>
        account in old(accounts) || id in old(credentials) || Taken(old(credentials), credentialId)
      ensures r == Threw ==> Contents() == old(Contents())
      ensures r != Threw ==>
        && r.inviteConsumed == InviteOpen(old(Contents()), invite)
        && AccountWithCredential(InviteConsumed(old(Contents()), invite, at), account, name, id, credentialId)
           == Some(Contents())
    {
      var before := Contents();
      AccountWithCredentialAdds(InviteConsumed(before, invite, at), account, name, id, credentialId);
      var hit := ConsumeInvite(invite, at);
      var ok := InsertAccountWithCredential(account, name, id, credentialId);
      if !ok {
        accounts, credentials, invites := before.accounts, before.credentials, before.invites;
        return Threw;
      }
      r := Committed(hit);
    }

    /** Account, passkey, accepted terms and event in one transaction: when a statement throws,
        nothing is left of it. */
    method RunOpenAccountRegistrationBatch(account: string, termsVersion: string, e: Entry) returns (ok: bool)
      modifies this
      ensures ok <==>
        && account !in old(accounts) && e.id !in old(credentials) && !Taken(old(credentials), e.credentialId)
        && e.acceptance !in old(acceptances) && e.event !in old(events)
      ensures !ok ==> Contents() == old(Contents())
      ensures ok ==> OpenAccountRegistered(old(Contents()), account, termsVersion, e) == Some(Contents())
    {
      var before := Contents();
      AccountWithCredentialAdds(before, account, e.name, e.id, e.credentialId);
      ok := InsertAccountWithCredential(account, e.name, e.id, e.credentialId);
      if ok {
        ok := InsertTermsAcceptance(e.acceptance, Acceptance(account, termsVersion));
      }
      if ok {
        ok := InsertRegistrationEvent(e.event, e.ipHash);
      }
      if !ok {
        accounts, credentials, acceptances := before.accounts, before.credentials, before.acceptances;
      }
    }

    method InsertAccountWithCredential(account: string, name: string, id: string, credentialId: string)
      returns (ok: bool)
      modifies this`accounts, this`credentials
      ensures ok <==> AccountWithCredential(old(Contents()), account, name, id, credentialId).Some?
      ensures ok ==> AccountWithCredential(old(Contents()), account, name, id, credentialId) == Some(Contents())
    {
      ok := InsertAccount(account, name);
      if ok {
        ok := InsertCredential(id, Credential(account, credentialId));
      }
    }

    method InsertTermsAcceptance(id: string, a: Acceptance) returns (ok: bool)
      modifies this`acceptances
      ensures ok <==> id !in old(acceptances) && a.accountId in accounts
      ensures acceptances == if ok then old(acceptances)[id := a] else old(acceptances)
    {
      ok := id !in acceptances && a.accountId in accounts;
      if ok {
        acceptances := acceptances[id := a];
      }
    }

    method InsertRegistrationEvent(id: string, ipHash: string) returns (ok: bool)
      modifies this`events
      ensures ok <==> id !in old(events)
      ensures events == if ok then old(events)[id := ipHash] else old(events)
    {
      ok := id !in events;
      if ok {
        events := events[id := ipHash];
      }
    }

    method InsertAccount(account: string, name: string) returns (ok: bool)
      modifies this`accounts
      ensures ok <==> AccountInserted(old(Contents()), account, name).Some?
      ensures Contents() == if ok then AccountInserted(old(Contents()), account, name).value else old(Contents())
    {
      ok := account !in accounts;
      if ok {
        accounts := accounts[account := name];
      }
    }

    method InsertCredential(id: string, c: Credential) returns (ok: bool)
      modifies this`credentials
      ensures ok <==> CredentialInserted(old(Contents()), id, c).Some?
      ensures Contents() == if ok then CredentialInserted(old(Contents()), id, c).value else old(Contents())
    {
      ok := id !in credentials && !Taken(credentials, c.credentialId) && c.accountId in accounts;
      if ok {
        credentials := credentials[id := c];
      }
    }

    method ConsumeInvite(invite: string, at: int) returns (ok: bool)
      modifies this`invites
      ensures ok == InviteOpen(old(Contents()), invite)
      ensures Contents() == InviteConsumed(old(Contents()), invite, at)
    {
      ok := invite in invites && invites[invite] == None;
      if ok {
        invites := invites[invite := Some(at)];
      }
    }

    /** Deletes a passkey unless it is the last one of its account. */
    method DeleteCredentialById(account: string, id: string) returns (deleted: bool)
      modifies this`credentials
      ensures deleted == CanDeleteCredential(old(Contents()), account, id)
      ensures Contents() == CredentialDeleted(old(Contents()), account, id)
    {
      deleted := id in credentials && credentials[id].accountId == account && |CredentialsOf(credentials, account)| > 1;
      if deleted {
        credentials := credentials - {id};
      }
    }

    method DeleteAccountById(account: string)
      modifies this`accounts, this`credentials, this`acceptances
      ensures Contents() == AccountDeleted(old(Contents()), account)
    {
      accounts := accounts - {account};
      credentials := credentials - CredentialsOf(credentials, account);
      acceptances := acceptances - AcceptancesOf(acceptances, account);
    }

    /** Reads a challenge and claims it; nothing else happening in between, it is claimed exactly when
        it is there for the purpose, not consumed and not expired. */
    method ConsumeChallenge(challenge: string, purpose: Purpose, nowMs: int) returns (r: Option<Kind>)
      modifies this`challenges
      ensures r.Some? <==>
        && challenge in old(challenges) && old(challenges)[challenge].purpose == purpose
        && IsChallengeConsumable(old(challenges)[challenge], nowMs)
      ensures r.Some? ==> r.value == old(challenges)[challenge].kind
      ensures Contents() == if r.Some? then Claimed(old(Contents()), challenge, nowMs) else old(Contents())
    {
      if challenge !in challenges || challenges[challenge].purpose != purpose {
        return None;
      }
      var row := challenges[challenge];
      if !IsChallengeConsumable(row, nowMs) {
        return None;
      }
      var claimed := ClaimChallenge(challenge, nowMs);
      if !claimed {
        return None;
      }
      r := Some(row.kind);
    }

    method ClaimChallenge(challenge: string, at: int) returns (claimed: bool)
      modifies this`challenges
      ensures claimed == CanClaim(old(Contents()), challenge)
      ensures Contents() == Claimed(old(Contents()), challenge, at)
    {
      claimed := challenge in challenges && challenges[challenge].consumedAt == None;
      if claimed {
        challenges := challenges[challenge := challenges[challenge].(consumedAt := Some(at))];
      }
    }
  }

  // ----- What every statement keeps -----

  /** Every account has a passkey, every passkey an account, and no passkey is there twice. */
  ghost predicate Sound(t: Tables) {
    && (forall a :: a in t.accounts ==> HasCredential(t, a))
    && (forall id :: id in t.credentials ==> t.credentials[id].accountId in t.accounts)
    && (forall i, j :: i in t.credentials && j in t.credentials && i != j ==>
          t.credentials[i].credentialId != t.credentials[j].credentialId)
  }

  ghost predicate HasCredential(t: Tables, account: string) {
    exists id :: id in t.credentials && t.credentials[id].accountId == account
  }

  lemma RegistrationKeepsSound(t: Tables, account: string, name: string, id: string, credentialId: string)
    requires Sound(t) && AccountWithCredential(t, account, name, id, credentialId).Some?
    ensures Sound(AccountWithCredential(t, account, name, id, credentialId).value)
  {
    var u := AccountWithCredential(t, account, name, id, credentialId).value;
    assert u.credentials[id].accountId == account;
    forall a | a in u.accounts ensures HasCredential(u, a) {
      if a != account {
        assert HasCredential(t, a);
        var c :| c in t.credentials && t.credentials[c].accountId == a;
        assert c in u.credentials && u.credentials[c].accountId == a;
      }
    }
  }

  lemma OpenRegistrationKeepsSound(t: Tables, account: string, termsVersion: string, e: Entry)
    requires Sound(t) && OpenAccountRegistered(t, account, termsVersion, e).Some?
    ensures Sound(OpenAccountRegistered(t, account, termsVersion, e).value)
  {
    var u := AccountWithCredential(t, account, e.name, e.id, e.credentialId).value;
    RegistrationKeepsSound(t, account, e.name, e.id, e.credentialId);
    SameRowsSound(u, OpenAccountRegistered(t, account, termsVersion, e).value);
  }

  lemma SameRowsSound(t: Tables, u: Tables)
    requires Sound(t) && u.accounts == t.accounts && u.credentials == t.credentials
    ensures Sound(u)
  {
    forall a | a in u.accounts ensures HasCredential(u, a) {
      assert HasCredential(t, a);
    }
  }

  lemma InsertCredentialKeepsSound(t: Tables, id: string, c: Credential)
    requires Sound(t) && CredentialInserted(t, id, c).Some?
    ensures Sound(CredentialInserted(t, id, c).value)
  {
    var u := CredentialInserted(t, id, c).value;
    forall a | a in u.accounts ensures HasCredential(u, a) {
      assert HasCredential(t, a);
      var k :| k in t.credentials && t.credentials[k].accountId == a;
      assert k in u.credentials && u.credentials[k].accountId == a;
    }
  }

  /** The last passkey of an account cannot be deleted. */
  lemma DeleteCredentialKeepsSound(t: Tables, account: string, id: string)
    requires Sound(t)
    ensures Sound(CredentialDeleted(t, account, id))
  {
    var u := CredentialDeleted(t, account, id);
    if CanDeleteCredential(t, account, id) {
      forall a | a in u.accounts ensures HasCredential(u, a) {
        if a == account {
          var other := CredentialsOf(t.credentials, account) - {id};
          assert |other| == |CredentialsOf(t.credentials, account)| - 1;
          var k :| k in other;
          assert k in u.credentials && u.credentials[k].accountId == a;
        } else {
          assert HasCredential(t, a);
          var k :| k in t.credentials && t.credentials[k].accountId == a;
          assert k in u.credentials && u.credentials[k].accountId == a;
        }
      }
    }
  }

  lemma DeleteAccountKeepsSound(t: Tables, account: string)
    requires Sound(t)
    ensures Sound(AccountDeleted(t, account))
  {
    var u := AccountDeleted(t, account);
    forall a | a in u.accounts ensures HasCredential(u, a) {
      assert HasCredential(t, a);
      var k :| k in t.credentials && t.credentials[k].accountId == a;
      assert k in u.credentials && u.credentials[k].accountId == a;
    }
  }
}
