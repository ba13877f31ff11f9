/** One provisioning run column by column: when it goes through, and what it writes into each table, said in terms of
    the request and the tables before it. */
module ProvisioningEffects {
  import opened Calendar
  import opened Options
  import opened Provisioning
  import opened TenantNames

  // ---- Which runs go through ----

  /** A dry run writes nothing and never reports an applied run, whatever else the request says. */
  lemma DryRunWritesNothing(db: Tables, req: Request, w: World)
    requires req.dryRun
    ensures Provision(db, req, w).0 == db && !Provision(db, req, w).1.Applied?
  {
  }

  /** All texts are given and the plan is known. */
  predicate IsComplete(req: Request) {
    req.companyName != "" && req.ownerFullName != "" && req.ownerEmail != "" && req.plan.Some?
  }

  /** The oldest undeleted user of the tenant that is an owner or has the owner's address. */
  predicate IsFirstOwner(users: seq<User>, t: string, email: string, k: nat) {
    && k < |users| && users[k].tenantId == t && !users[k].deleted && (users[k].owner || users[k].email == email)
    && forall j :: 0 <= j < k ==>
         users[j].tenantId != t || users[j].deleted || (!users[j].owner && users[j].email != email)
  }

  predicate HasNoOwner(users: seq<User>, t: string, email: string) {
    forall j :: 0 <= j < |users| ==>
      users[j].tenantId != t || users[j].deleted || (!users[j].owner && users[j].email != email)
  }

  /** The owner stays signed up: there is one with a password and no reset is asked for. */
  ghost predicate KeepsPassword(db: Tables, req: Request, t: string) {
    exists k: nat :: IsFirstOwner(db.users, t, req.ownerEmail, k)
      && !req.resetOwner && db.users[k].passwordHash.Some? && db.users[k].passwordHash.value != ""
  }

  /** Some undeleted user, in any tenant, has the actor's address. */
  ghost predicate HasInviter(db: Tables, req: Request) {
    exists u :: u in db.users && u.email == req.actorEmail && !u.deleted
  }

  /** Another row of the tenant, a deleted one included, has the owner's address. */
  ghost predicate AddressTaken(db: Tables, req: Request, t: string) {
    exists u :: u in db.users && u.tenantId == t && u.email == req.ownerEmail
      && forall k: nat :: IsFirstOwner(db.users, t, req.ownerEmail, k) ==> u.id != db.users[k].id
  }

  lemma {:induction false} OwnerIsFirst(users: seq<User>, t: string, email: string) returns (k: nat)
    ensures k <= |users| && (k < |users| ==> IsFirstOwner(users, t, email, k))
    ensures k == |users| ==> HasNoOwner(users, t, email)
    ensures FindOwner(users, t, email) == if k < |users| then Some(users[k]) else None
  {
    k := 0;
    if users != [] && !IsOwnerRow(users[0], t, email) {
      var rest := OwnerIsFirst(users[1..], t, email);
      k := rest + 1;
      assert forall j :: 0 < j < |users| ==> users[j] == users[1..][j - 1];
    }
  }

  lemma OnlyFirstOwner(users: seq<User>, t: string, email: string) returns (k: nat)
    ensures k <= |users| && forall j: nat :: IsFirstOwner(users, t, email, j) <==> j == k < |users|
    ensures HasNoOwner(users, t, email) <==> k == |users|
    ensures FindOwner(users, t, email) == if k < |users| then Some(users[k]) else None
  {
    hide FindOwner;
    k := OwnerIsFirst(users, t, email);
  }

  lemma InviterFound(db: Tables, req: Request)
    ensures HasInviter(db, req) <==> FindActor(db.users, req.actorEmail).Some?
  {
    FoundActor(db.users, req.actorEmail);
    if u :| u in db.users && u.email == req.actorEmail && !u.deleted {
      ActorExists(db.users, req.actorEmail, u);
    }
  }

  lemma OwnerFacts(db: Tables, req: Request, t: string)
    ensures LinkNeeded(req, FindOwner(db.users, t, req.ownerEmail)) <==> !KeepsPassword(db, req, t)
    ensures EmailClash(db.users, t, req.ownerEmail, FindOwner(db.users, t, req.ownerEmail))
            <==> AddressTaken(db, req, t)
  {
    hide FindOwner, IsFirstOwner;
    var k := OnlyFirstOwner(db.users, t, req.ownerEmail);
    if AddressTaken(db, req, t) {
      var u :| u in db.users && u.tenantId == t && u.email == req.ownerEmail
        && forall k: nat :: IsFirstOwner(db.users, t, req.ownerEmail, k) ==> u.id != db.users[k].id;
    }
  }

  /** The tenant id: the one given, or without one a free name. */
  ghost predicate IsTenantId(db: Tables, req: Request, w: World, t: string) {
    TenantId(w.lower, db.tenants.Keys, req.tenantId, req.companyName) == Some(t)
  }

  /** A run is applied exactly when the request is complete and no dry run, its tenant id is found, the owner keeps a
      password or somebody can invite, and no other user of the tenant has the owner's address. */
  lemma AppliedExactly(db: Tables, req: Request, w: World, t: string)
    ensures (exists u, link :: Provision(db, req, w).1 == Applied(t, u, link))
            <==> && IsComplete(req) && !req.dryRun && IsTenantId(db, req, w, t)
                 && (KeepsPassword(db, req, t) || HasInviter(db, req)) && !AddressTaken(db, req, t)
  {
    hide TenantId, Transaction, LinkNeeded, EmailClash, FindOwner, FindActor, KeepsPassword, HasInviter, AddressTaken;
    OwnerFacts(db, req, t);
    InviterFound(db, req);
    if exists u, link :: Provision(db, req, w).1 == Applied(t, u, link) {
    } else if Provision(db, req, w).1.Applied? {
      var outcome := Provision(db, req, w).1;
      assert outcome == Applied(outcome.tenantId, outcome.ownerId, outcome.linkIssued);
    }
  }

  /** A dry run reports the tenant under the same conditions but for the address. */
  lemma DryRunExactly(db: Tables, req: Request, w: World, t: string)
    ensures Provision(db, req, w).1 == DryRun(t)
            <==> && IsComplete(req) && req.dryRun && IsTenantId(db, req, w, t)
                 && (KeepsPassword(db, req, t) || HasInviter(db, req))
  {
    hide TenantId, Transaction, LinkNeeded, EmailClash, FindOwner, FindActor, KeepsPassword, HasInviter;
    OwnerFacts(db, req, t);
    InviterFound(db, req);
  }

  /** A tenant "t" whose one user was deleted, and an operator elsewhere. */
  function DeletedOwner(actorEmail: string, ownerEmail: string): Tables {
    Tables(map[], [User(0, "o", actorEmail, "Operator", true, UserActive, Some("x"), false),
                   User(1, "t", ownerEmail, "Owner", true, UserActive, Some("x"), true)],
           map[], [], [], [], [], 2)
  }

  /** For a deleted owner of that address the dry run reports the tenant, and the run then fails. */
  lemma DryRunMissesAddress(req: Request, w: World)
    requires IsComplete(req) && req.tenantId == Some("t") && req.ownerEmail != req.actorEmail
    ensures var db := DeletedOwner(req.actorEmail, req.ownerEmail);
            && Provision(db, req.(dryRun := true), w).1 == DryRun("t")
            && Provision(db, req.(dryRun := false), w).1 == Failed(EmailTaken)
  {
    hide Transaction;
    var db := DeletedOwner(req.actorEmail, req.ownerEmail);
    assert db.users[0].email == req.actorEmail && db.users[1].tenantId == "t" && db.users[1].email == req.ownerEmail;
    NoOwnerThere(db.users, req.ownerEmail);
  }

  lemma NoOwnerThere(users: seq<User>, email: string)
    requires |users| == 2 && users[0].tenantId == "o" && users[1].deleted
    ensures FindOwner(users, "t", email).None?
  {
    hide FindOwner;
    var k := OnlyFirstOwner(users, "t", email);
  }

  /** Every other run fails for the first reason that applies, and none of them writes anything. */
  lemma FailureExactly(db: Tables, req: Request, w: World)
    ensures var (after, outcome) := Provision(db, req, w);
            && (outcome.Failed? ==> after == db)
            && (outcome == Failed(MissingArguments) <==>
                  req.companyName == "" || req.ownerFullName == "" || req.ownerEmail == "")
            && (outcome == Failed(UnknownPlan) <==>
                  req.companyName != "" && req.ownerFullName != "" && req.ownerEmail != "" && req.plan.None?)
            && (outcome == Failed(NoFreeTenantId) <==> IsComplete(req) && forall t :: !IsTenantId(db, req, w, t))
            && (outcome == Failed(NoInviter) <==>
                  && IsComplete(req) && !HasInviter(db, req)
                  && exists t :: IsTenantId(db, req, w, t) && !KeepsPassword(db, req, t))
            && (outcome == Failed(EmailTaken) <==>
                  && IsComplete(req) && !req.dryRun
                  && exists t :: && IsTenantId(db, req, w, t) && (KeepsPassword(db, req, t) || HasInviter(db, req))
                                 && AddressTaken(db, req, t))
  {
    hide TenantId, Transaction, LinkNeeded, EmailClash, FindOwner, FindActor, KeepsPassword, HasInviter, AddressTaken;
    InviterFound(db, req);
    var id := TenantId(w.lower, db.tenants.Keys, req.tenantId, req.companyName);
    if id.Some? {
      OwnerFacts(db, req, id.value);
      assert IsTenantId(db, req, w, id.value);
    }
  }

  // ---- What an applied run writes ----

  /** The oldest undeleted user with the address, or nobody. */
  ghost predicate IsAuthor(users: seq<User>, email: string, author: Option<nat>) {
    match author
    case None => forall j :: 0 <= j < |users| ==> users[j].email != email || users[j].deleted
    case Some(id) =>
      exists k :: && 0 <= k < |users| && users[k].id == id && users[k].email == email && !users[k].deleted
                  && forall j :: 0 <= j < k ==> users[j].email != email || users[j].deleted
  }

  lemma {:induction false} ActorIsAuthor(users: seq<User>, email: string)
    ensures var actor := FindActor(users, email);
            IsAuthor(users, email, if actor.Some? then Some(actor.value.id) else None)
  {
    if users != [] && !(users[0].email == email && !users[0].deleted) {
      ActorIsAuthor(users[1..], email);
      AuthorLater(users, email, FindActor(users[1..], email));
    }
  }

  lemma AuthorLater(users: seq<User>, email: string, actor: Option<User>)
    requires users != [] && (users[0].email != email || users[0].deleted)
    requires IsAuthor(users[1..], email, if actor.Some? then Some(actor.value.id) else None)
    ensures IsAuthor(users, email, if actor.Some? then Some(actor.value.id) else None)
  {
    var rest := users[1..];
    assert forall j :: 0 < j < |users| ==> users[j] == rest[j - 1];
    if actor.Some? {
      var k :| && 0 <= k < |rest| && rest[k].id == actor.value.id && rest[k].email == email && !rest[k].deleted
               && forall j :: 0 <= j < k ==> rest[j].email != email || rest[j].deleted;
      assert users[k + 1] == rest[k];
    }
  }

  /** The tenant and its account carry the request's columns; an account that was there keeps its id. */
  lemma TenantAndAccountExactly(db: Tables, req: Request, w: World)
    requires Provision(db, req, w).1.Applied?
    ensures var (after, outcome) := Provision(db, req, w);
            var t := outcome.tenantId;
            && t in after.tenants && after.tenants == db.tenants[t := after.tenants[t]]
            && after.tenants[t].name == req.companyName && after.tenants[t].locale == req.locale
            && after.tenants[t].timezone == req.timezone && after.tenants[t].active
            && (w.websiteColumn ==> after.tenants[t].websiteUrl == req.website)
            && (!w.websiteColumn && t in db.tenants ==> after.tenants[t].websiteUrl == db.tenants[t].websiteUrl)
            && (!w.websiteColumn && t !in db.tenants ==> after.tenants[t].websiteUrl.None?)
    ensures var (after, outcome) := Provision(db, req, w);
            var t := outcome.tenantId;
            && t in after.accounts && after.accounts == db.accounts[t := after.accounts[t]]
            && var account := after.accounts[t];
               && account.billingEmail == req.billingEmail && account.currency == req.currency
               && account.included == req.included && Some(account.plan) == req.plan && account.status.BillingActive?
               && account.periodStart == StartOfCurrentMonth(w.now) && account.periodEnd == StartOfNextMonth(w.now)
               && account.pendingPlan.None?
               && (t in db.accounts ==> account.id == db.accounts[t].id)
               && (t !in db.accounts ==> db.nextId <= account.id < after.nextId)
  {
    hide AddGrants, FindOwner, FindActor, UsersAfter, CancelLive, RevokeOpen, TenantId, StartOfCurrentMonth,
      StartOfNextMonth, LinkNeeded, EmailClash;
  }

  /** The owner's row gets name, address and role of the request; with a link the user is invited and the password
      gone, without one it is active and keeps it. Without an owner one is added. No other row changes. */
  lemma UsersExactly(db: Tables, req: Request, w: World)
    requires UsersConsistent(db.users, db.nextId) && Provision(db, req, w).1.Applied?
    ensures var (after, outcome) := Provision(db, req, w);
            var t := outcome.tenantId;
            && (outcome.linkIssued <==> !KeepsPassword(db, req, t))
            && (forall k: nat :: IsFirstOwner(db.users, t, req.ownerEmail, k) ==>
                  var before := db.users[k];
                  && outcome.ownerId == before.id
                  && after.users == db.users[k :=
                       User(before.id, t, req.ownerEmail, req.ownerFullName, true,
                            if outcome.linkIssued then UserInvited else UserActive,
                            if outcome.linkIssued then None else before.passwordHash, false)])
            && (HasNoOwner(db.users, t, req.ownerEmail) ==>
                  && outcome.ownerId == db.nextId
                  && after.users == db.users + [User(db.nextId, t, req.ownerEmail, req.ownerFullName, true,
                                                     UserInvited, None, false)])
  {
    hide AddGrants, FindOwner, FindActor, UsersAfter, CancelLive, RevokeOpen, TenantId, AccountRow, TenantRow,
      KeepsPassword, AddressTaken, EmailClash, LinkNeeded, UsersConsistent;
    var t := Provision(db, req, w).1.tenantId;
    OwnerFacts(db, req, t);
    OwnerRowWritten(db, req, t);
  }

  lemma OwnerRowWritten(db: Tables, req: Request, t: string)
    requires UsersConsistent(db.users, db.nextId)
    ensures var owner := FindOwner(db.users, t, req.ownerEmail);
            var after, link := UsersAfter(db.users, req, t, owner, db.nextId), LinkNeeded(req, owner);
            && (forall k: nat :: IsFirstOwner(db.users, t, req.ownerEmail, k) ==>
                  var before := db.users[k];
                  && owner == Some(before)
                  && after == db.users[k :=
                       User(before.id, t, req.ownerEmail, req.ownerFullName, true,
                            if link then UserInvited else UserActive,
                            if link then None else before.passwordHash, false)])
            && (HasNoOwner(db.users, t, req.ownerEmail) ==>
                  && owner.None?
                  && after == db.users + [User(db.nextId, t, req.ownerEmail, req.ownerFullName, true, UserInvited,
                                               None, false)])
  {
    hide FindOwner;
    var k := OnlyFirstOwner(db.users, t, req.ownerEmail);
  }

  /** New rows name the same author: the oldest undeleted user with the actor's address, nobody if there is none. */
  lemma AuthorsExactly(db: Tables, req: Request, w: World)
    requires Provision(db, req, w).1.Applied?
    ensures var (after, outcome) := Provision(db, req, w);
            exists author ::
              && IsAuthor(db.users, req.actorEmail, author)
              && |after.subscriptions| == |db.subscriptions| + 1
              && after.subscriptions[|db.subscriptions|].createdBy == author
              && (forall i :: |db.audits| <= i < |after.audits| ==> after.audits[i].actor == author)
              && (forall i :: |db.grants| <= i < |after.grants| ==> after.grants[i].createdBy == author)
              && (forall i :: |db.invitations| <= i < |after.invitations| ==>
                    Some(after.invitations[i].invitedBy) == author)
  {
    hide AddGrants, FindOwner, FindActor, UsersAfter, AccountRow, TenantRow, CancelLive, RevokeOpen, IsAuthor, TenantId;
    hide LinkNeeded, EmailClash, ExpiresAt;
    var (after, outcome) := Provision(db, req, w);
    var actor := FindActor(db.users, req.actorEmail);
    var author := if actor.Some? then Some(actor.value.id) else None;
    ActorIsAuthor(db.users, req.actorEmail);
    var blank := GrantsAfter(db, req, w);
    GrantsColumns(db.grants, QUOTA_KEYS, req, blank);
    assert IsAuthor(db.users, req.actorEmail, author);
  }

  /** The row asks for its quota's quantity under its quota's caption. */
  predicate IsAsked(g: Grant, req: Request) {
    && g.quantity > 0
    && match g.key
       case Seats => g.caption == "Pilot seats grant" && g.quantity == req.grants.seats
       case ActiveJobs => g.caption == "Pilot active jobs grant" && g.quantity == req.grants.activeJobs
       case CandidateProcessing =>
         g.caption == "Pilot candidate processing grant" && g.quantity == req.grants.candidateProcessing
       case AiInterviews => g.caption == "Pilot AI interviews grant" && g.quantity == req.grants.aiInterviews
  }

  lemma {:induction false} GrantsColumns(grants: seq<Grant>, keys: seq<QuotaKey>, req: Request, blank: Grant)
    ensures var after := AddGrants(grants, keys, req, blank);
            && grants <= after
            && forall i :: |grants| <= i < |after| ==>
                 && after[i].tenantId == blank.tenantId && after[i].accountId == blank.accountId
                 && after[i].subscriptionId == blank.subscriptionId && after[i].source == blank.source
                 && after[i].createdBy == blank.createdBy && after[i].key in keys && IsAsked(after[i], req)
  {
    if keys != [] {
      GrantsColumns(grants, keys[..|keys| - 1], req, blank);
    }
  }

  predicate Asks(req: Request, key: QuotaKey) {
    match key
    case Seats => req.grants.seats > 0
    case ActiveJobs => req.grants.activeJobs > 0
    case CandidateProcessing => req.grants.candidateProcessing > 0
    case AiInterviews => req.grants.aiInterviews > 0
  }

  predicate HasKeyFrom(grants: seq<Grant>, n: nat, key: QuotaKey) {
    exists i :: n <= i < |grants| && grants[i].key == key
  }

  /** A stored manual grant of the account that is what the request asks for. */
  predicate IsStored(grants: seq<Grant>, n: nat, tenantId: string, accountId: nat, key: QuotaKey, req: Request)
    requires n <= |grants|
  {
    exists i :: && 0 <= i < n && grants[i].tenantId == tenantId && grants[i].accountId == accountId
                && grants[i].source.Manual? && grants[i].key == key && IsAsked(grants[i], req)
  }

  lemma StoredIsSame(grants: seq<Grant>, blank: Grant, key: QuotaKey, req: Request)
    requires blank.source.Manual? && Asks(req, key)
    ensures HasGrant(grants, GrantRow(blank, key, req))
            <==> IsStored(grants, |grants|, blank.tenantId, blank.accountId, key, req)
  {
    var row := GrantRow(blank, key, req);
    assert forall i :: 0 <= i < |grants| ==>
      (SameGrant(grants[i], row) <==>
        && grants[i].tenantId == blank.tenantId && grants[i].accountId == blank.accountId
        && grants[i].source.Manual? && grants[i].key == key && IsAsked(grants[i], req));
  }

  lemma {:induction false} KeysAdded(grants: seq<Grant>, keys: seq<QuotaKey>, req: Request, blank: Grant, key: QuotaKey)
    requires blank.source.Manual? && forall i, j :: 0 <= i < j < |keys| ==> keys[i] != keys[j]
    ensures var after, n := AddGrants(grants, keys, req, blank), |grants|;
            && grants <= after
            && (HasKeyFrom(after, n, key) <==>
                  && key in keys && Asks(req, key)
                  && !IsStored(grants, n, blank.tenantId, blank.accountId, key, req))
            && (forall i, j :: n <= i < j < |after| ==> after[i].key != after[j].key)
  {
    hide IsAsked, HasGrant;
    if keys != [] {
      var front, last := keys[..|keys| - 1], keys[|keys| - 1];
      KeysAdded(grants, front, req, blank, key);
      KeysAdded(grants, front, req, blank, last);
      GrantsColumns(grants, front, req, blank);
      var before := AddGrants(grants, front, req, blank);
      KeyFromSnoc(before, |grants|, GrantRow(blank, last, req), key);
      if Asks(req, last) {
        StoredIsSame(before, blank, last, req);
        StoredBefore(grants, before, blank, last, req);
      }
      assert key in keys <==> key in front || key == last;
    }
  }

  lemma KeyFromSnoc(grants: seq<Grant>, n: nat, row: Grant, key: QuotaKey)
    requires n <= |grants|
    ensures HasKeyFrom(grants + [row], n, key) <==> HasKeyFrom(grants, n, key) || row.key == key
  {
    var after := grants + [row];
    assert after[|grants|] == row;
    if HasKeyFrom(grants, n, key) {
      var i :| n <= i < |grants| && grants[i].key == key;
      assert after[i].key == key;
    }
  }

  lemma StoredBefore(grants: seq<Grant>, after: seq<Grant>, blank: Grant, key: QuotaKey, req: Request)
    requires grants <= after && !HasKeyFrom(after, |grants|, key)
    ensures IsStored(after, |after|, blank.tenantId, blank.accountId, key, req)
            <==> IsStored(grants, |grants|, blank.tenantId, blank.accountId, key, req)
  {
    hide IsAsked;
  }

  /** Which grants a run adds: for each quota one row of the quantity and caption asked for, if the quantity is positive
      and the account has no such manual row; it hangs on the tenant's account and new subscription. */
  lemma GrantsExactly(db: Tables, req: Request, w: World, key: QuotaKey)
    requires Provision(db, req, w).1.Applied?
    ensures var (after, outcome) := Provision(db, req, w);
            var t, n := outcome.tenantId, |db.grants|;
            && t in after.accounts && after.subscriptions != [] && db.grants <= after.grants
            && (forall i :: n <= i < |after.grants| ==>
                  var g := after.grants[i];
                  && g.tenantId == t && g.accountId == after.accounts[t].id && g.source.Manual? && IsAsked(g, req)
                  && g.subscriptionId == Some(after.subscriptions[|after.subscriptions| - 1].id))
            && (HasKeyFrom(after.grants, n, key) <==>
                  Asks(req, key) && !IsStored(db.grants, n, t, after.accounts[t].id, key, req))
            && (forall i, j :: n <= i < j < |after.grants| ==> after.grants[i].key != after.grants[j].key)
  {
    hide Provision, AddGrants, IsAsked, IsStored, HasKeyFrom, Asks;
    var blank := GrantsAfter(db, req, w);
    GrantsColumns(db.grants, QUOTA_KEYS, req, blank);
    AllKeys(key);
    KeysAdded(db.grants, QUOTA_KEYS, req, blank, key);
  }
}
