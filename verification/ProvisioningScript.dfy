/** The provisioning script step by step on a database whose tables are updated in place, proved
    against the run function of `Provisioning`. The transaction is atomic: the unique index on users is
    checked before anything is written. */
module ProvisioningScript {
  import opened Options
  import opened Provisioning
  import opened TenantNames

  class PilotDatabase {
    var tenants: map<string, Tenant>
    var users: seq<User>
    var accounts: map<string, Account>
    var subscriptions: seq<Subscription>
    var grants: seq<Grant>
    var invitations: seq<Invitation>
    var audits: seq<Audit>
    var nextId: nat

    ghost function Now(): Tables
      reads this
    {
      Tables(tenants, users, accounts, subscriptions, grants, invitations, audits, nextId)
    }

    constructor ()
      ensures Now() == Tables(map[], [], map[], [], [], [], [], 0)
      ensures Consistent(Now())
    {
      tenants, users, accounts, subscriptions := map[], [], map[], [];
      grants, invitations, audits, nextId := [], [], [], 0;
    }

    /** `resolveActorUser`: the oldest undeleted user with the e-mail address, in any tenant. */
    method ResolveActorUser(email: string) returns (actor: Option<User>)
      ensures actor == FindActor(users, email)
    {
      for i := 0 to |users|
        invariant FindActor(users[i..], email) == FindActor(users, email)
      {
        assert users[i..][1..] == users[i + 1..];
        if users[i].email == email && !users[i].deleted {
          return Some(users[i]);
        }
      }
      return None;
    }

    method FindExistingOwner(tenantId: string, email: string) returns (owner: Option<User>)
      ensures owner == FindOwner(users, tenantId, email)
    {
      for i := 0 to |users|
        invariant FindOwner(users[i..], tenantId, email) == FindOwner(users, tenantId, email)
      {
        assert users[i..][1..] == users[i + 1..];
        if IsOwnerRow(users[i], tenantId, email) {
          return Some(users[i]);
        }
      }
      return None;
    }

    /** The owner's row is updated, and updated again when a link is issued, or a new row is created. */
    method WriteOwner(req: Request, tenantId: string, owner: Option<User>, freshId: nat)
      modifies `users
      ensures users == UsersAfter(old(users), req, tenantId, owner, freshId)
    {
      var link := LinkNeeded(req, owner);
      if owner.None? {
        users := users + [User(freshId, tenantId, req.ownerEmail, req.ownerFullName, true, OwnerStatus(req, owner),
                               None, false)];
        return;
      }
      for i := 0 to |users|
        invariant |users| == |old(users)|
        invariant forall k :: 0 <= k < i ==> users[k] == UsersAfter(old(users), req, tenantId, owner, freshId)[k]
        invariant forall k :: i <= k < |users| ==> users[k] == old(users)[k]
      {
        if users[i].id == owner.value.id {
          var row := users[i].(email := req.ownerEmail, fullName := req.ownerFullName, owner := true,
            status := OwnerStatus(req, owner));
          if link {
            row := row.(status := UserInvited, passwordHash := None);
          }
          users := users[i := row];
        }
      }
    }

    /** `tenantBillingSubscription.updateMany`. */
    method CancelLiveSubscriptions(tenantId: string, now: int)
      modifies `subscriptions
      ensures subscriptions == CancelLive(old(subscriptions), tenantId, now)
    {
      for i := 0 to |subscriptions|
        invariant |subscriptions| == |old(subscriptions)|
        invariant forall k :: 0 <= k < i ==> subscriptions[k] == Cancel(old(subscriptions)[k], tenantId, now)
        invariant forall k :: i <= k < |subscriptions| ==> subscriptions[k] == old(subscriptions)[k]
      {
        if subscriptions[i].tenantId == tenantId && subscriptions[i].Live() {
          subscriptions := subscriptions[i := subscriptions[i].(status := Canceled, canceledAt := Some(now))];
        }
      }
    }

    /** `memberInvitation.updateMany`. */
    method RevokeOpenInvitations(tenantId: string, userId: nat, now: int)
      modifies `invitations
      ensures invitations == RevokeOpen(old(invitations), tenantId, userId, now)
    {
      for i := 0 to |invitations|
        invariant |invitations| == |old(invitations)|
        invariant forall k :: 0 <= k < i ==> invitations[k] == Revoke(old(invitations)[k], tenantId, userId, now)
        invariant forall k :: i <= k < |invitations| ==> invitations[k] == old(invitations)[k]
      {
        if invitations[i].OpenFor(tenantId, userId) {
          invitations := invitations[i := invitations[i].(revokedAt := Some(now))];
        }
      }
    }

    method FindGrant(row: Grant) returns (found: bool)
      ensures found <==> HasGrant(grants, row)
    {
      for i := 0 to |grants|
        invariant forall k :: 0 <= k < i ==> !SameGrant(grants[k], row)
      {
        if SameGrant(grants[i], row) {
          return true;
        }
      }
      return false;
    }

    /** The loop over the positive manual grants. */
    method AddManualGrants(req: Request, blank: Grant)
      modifies `grants
      ensures grants == AddGrants(old(grants), QUOTA_KEYS, req, blank)
    {
      for i := 0 to |QUOTA_KEYS|
        invariant grants == AddGrants(old(grants), QUOTA_KEYS[..i], req, blank)
      {
        var row := GrantRow(blank, QUOTA_KEYS[i], req);
        assert QUOTA_KEYS[..i + 1][..i] == QUOTA_KEYS[..i];
        if row.quantity > 0 {
          var existing := FindGrant(row);
          if !existing {
            grants := grants + [row];
          }
        }
      }
      assert QUOTA_KEYS[..|QUOTA_KEYS|] == QUOTA_KEYS;
    }

    /** Account and subscription: upsert, cancel what is live, create. */
    method WriteBilling(req: Request, w: World, tenantId: string, author: Option<nat>, base: nat)
      returns (account: Account)
      requires req.plan.Some?
      modifies `accounts, `subscriptions
      ensures account == AccountRow(req, w, Lookup(old(accounts), tenantId), base + 1)
      ensures accounts == old(accounts)[tenantId := account]
      ensures subscriptions == CancelLive(old(subscriptions), tenantId, w.now)
                               + [SubscriptionRow(req, tenantId, account, base + 2, author)]
    {
      hide CancelLive;
      hide AccountRow;
      account := AccountRow(req, w, Lookup(accounts, tenantId), base + 1);
      accounts := accounts[tenantId := account];
      CancelLiveSubscriptions(tenantId, w.now);
      subscriptions := subscriptions + [SubscriptionRow(req, tenantId, account, base + 2, author)];
    }

    /** The activation link: old invitations are revoked, a new one is created and audited. */
    method IssueLink(req: Request, w: World, tenantId: string, ownerId: nat, inviter: nat, base: nat)
      modifies `invitations, `audits
      ensures invitations == RevokeOpen(old(invitations), tenantId, ownerId, w.now)
                             + [Invitation(tenantId, ownerId, inviter, req.ownerEmail, base + 3,
                                           ExpiresAt(req, w.now), None, None)]
      ensures audits == old(audits) + [Audit(tenantId, Some(inviter), OwnerActivationLinkIssued)]
    {
      RevokeOpenInvitations(tenantId, ownerId, w.now);
      invitations := invitations + [Invitation(tenantId, ownerId, inviter, req.ownerEmail, base + 3,
                                               ExpiresAt(req, w.now), None, None)];
      audits := audits + [Audit(tenantId, Some(inviter), OwnerActivationLinkIssued)];
    }

    /** The body of `$transaction`. */
    method RunTransaction(req: Request, w: World, tenantId: string, owner: Option<User>, actor: Option<User>)
      requires req.plan.Some? && (LinkNeeded(req, owner) ==> actor.Some?)
      modifies this
      ensures Now() == Transaction(old(Now()), req, w, tenantId, owner, actor)
    {
      hide UsersAfter;
      hide CancelLive;
      hide RevokeOpen;
      hide AddGrants;
      hide AccountRow;
      hide TenantRow;
      hide SubscriptionRow;
      hide ExpiresAt;
      var link := LinkNeeded(req, owner);
      var author := if actor.Some? then Some(actor.value.id) else None;
      var base := nextId;
      nextId := nextId + 4;
      tenants := tenants[tenantId := TenantRow(req, w, Lookup(tenants, tenantId))];
      WriteOwner(req, tenantId, owner, base);
      var ownerId := if owner.Some? then owner.value.id else base;
      var account := WriteBilling(req, w, tenantId, author, base);
      AddManualGrants(req, Grant(tenantId, account.id, Some(base + 2), Seats, Manual, "", 0, author));
      if link {
        IssueLink(req, w, tenantId, ownerId, actor.value.id, base);
      } else {
        assert audits + [] == audits;
      }
      audits := audits + [Audit(tenantId, author, ProvisioningCompleted)];
    }

    /** `main`, from the parsed command line on. */
    method RunScript(req: Request, w: World) returns (outcome: Outcome)
      modifies this
      ensures (Now(), outcome) == Provision(old(Now()), req, w)
      ensures old(Consistent(Now())) ==> Consistent(Now())
      ensures !outcome.Applied? ==> Now() == old(Now())
      ensures req.dryRun ==> Now() == old(Now()) && !outcome.Applied?
    {
      RunKeepsConsistentIfConsistent(Now(), req, w);
      if req.companyName == "" || req.ownerFullName == "" || req.ownerEmail == "" {
        return Failed(MissingArguments);
      }
      if req.plan.None? {
        return Failed(UnknownPlan);
      }
      var id := ResolveTenantId(w.lower, tenants.Keys, req.tenantId, req.companyName);
      if id.None? {
        return Failed(NoFreeTenantId);
      }
      var actor := ResolveActorUser(req.actorEmail);
      var owner := FindExistingOwner(id.value, req.ownerEmail);
      var link := LinkNeeded(req, owner);
      if link && actor.None? {
        return Failed(NoInviter);
      }
      if req.dryRun {
        return DryRun(id.value);
      }
      if EmailClash(users, id.value, req.ownerEmail, owner) {
        return Failed(EmailTaken);
      }
      var ownerId := if owner.Some? then owner.value.id else nextId;
      RunTransaction(req, w, id.value, owner, actor);
      return Applied(id.value, ownerId, link);
    }
  }

  lemma RunKeepsConsistentIfConsistent(db: Tables, req: Request, w: World)
    ensures Consistent(db) ==> Consistent(Provision(db, req, w).0)
  {
    if Consistent(db) {
      RunKeepsConsistent(db, req, w);
    }
  }
}
