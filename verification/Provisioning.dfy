/** The pilot provisioning run of scripts/provision-pilot-account.ts as a function on the tables it
    touches, and what any sequence of runs keeps. */
module Provisioning {
  import opened Calendar
  import opened Options
  import opened TenantNames

  // ---- Tables ----

  datatype Plan = Flex | Starter | Growth | Enterprise
  datatype QuotaKey = Seats | ActiveJobs | CandidateProcessing | AiInterviews
  datatype UserStatus = UserActive | UserInvited | UserDisabled
  datatype BillingStatus = Trialing | BillingActive | PastDue | Canceled | Incomplete
  datatype GrantSource = PlanGrant | Addon | Manual
  datatype AuditAction = OwnerActivationLinkIssued | ProvisioningCompleted

  datatype Quotas = Quotas(seats: nat, activeJobs: nat, candidateProcessing: nat, aiInterviews: nat) {
    function Of(key: QuotaKey): nat {
      match key
      case Seats => seats
      case ActiveJobs => activeJobs
      case CandidateProcessing => candidateProcessing
      case AiInterviews => aiInterviews
    }
  }

  datatype Tenant = Tenant(name: string, websiteUrl: Option<string>, locale: string, timezone: string, active: bool)

  datatype User = User(id: nat, tenantId: string, email: string, fullName: string, owner: bool,
                       status: UserStatus, passwordHash: Option<string>, deleted: bool)
  {
    predicate HasPassword() {
      passwordHash.Some? && passwordHash.value != ""
    }
  }

  datatype Account = Account(id: nat, billingEmail: string, plan: Plan, status: BillingStatus, periodStart: int,
                             periodEnd: int, pendingPlan: Option<Plan>, currency: string, included: Quotas)

  datatype Subscription = Subscription(id: nat, tenantId: string, accountId: nat, plan: Plan, status: BillingStatus,
                                       periodStart: int, periodEnd: int, included: Quotas, createdBy: Option<nat>,
                                       canceledAt: Option<int>)
  {
    predicate Live() {
      canceledAt.None? && status != Canceled
    }
  }

  datatype Grant = Grant(tenantId: string, accountId: nat, subscriptionId: Option<nat>, key: QuotaKey,
                         source: GrantSource, caption: string, quantity: int, createdBy: Option<nat>)

  datatype Invitation = Invitation(tenantId: string, userId: nat, invitedBy: nat, email: string, token: nat,
                                   expiresAt: int, acceptedAt: Option<int>, revokedAt: Option<int>)
  {
    predicate OpenFor(tenant: string, user: nat) {
      tenantId == tenant && userId == user && acceptedAt.None? && revokedAt.None?
    }
  }

  datatype Audit = Audit(tenantId: string, actor: Option<nat>, action: AuditAction)

  /** Rows stand in order of creation. Ids and invitation tokens are drawn from `nextId`. */
  datatype Tables = Tables(tenants: map<string, Tenant>, users: seq<User>, accounts: map<string, Account>,
                           subscriptions: seq<Subscription>, grants: seq<Grant>, invitations: seq<Invitation>,
                           audits: seq<Audit>, nextId: nat)

  // ---- A run ----

  /** The command line after reading: trimmed texts, lower-cased e-mail addresses, quantities at least
      zero; `plan` is absent when the given key is not in the catalogue. */
  datatype Request = Request(companyName: string, ownerFullName: string, ownerEmail: string, plan: Option<Plan>,
                             billingEmail: string, actorEmail: string, website: Option<string>, locale: string,
                             timezone: string, currency: string, dryRun: bool, resetOwner: bool, ttlHours: nat,
                             included: Quotas, grants: Quotas, tenantId: Option<string>)

  datatype Failure = MissingArguments | UnknownPlan | NoFreeTenantId | NoInviter | EmailTaken
  datatype Outcome =
    | Failed(failure: Failure)
    | DryRun(tenantId: string)
    | Applied(tenantId: string, ownerId: nat, linkIssued: bool)

  /** What surrounds a run: the clock, case folding, and whether the tenant table has a website column. */
  datatype World = World(now: int, lower: string -> string, websiteColumn: bool)

  function FindActor(users: seq<User>, email: string): Option<User> {
    if users == [] then None
    else if users[0].email == email && !users[0].deleted then Some(users[0])
    else FindActor(users[1..], email)
  }

  predicate IsOwnerRow(u: User, tenantId: string, email: string) {
    u.tenantId == tenantId && !u.deleted && (u.owner || u.email == email)
  }

  function FindOwner(users: seq<User>, tenantId: string, email: string): Option<User> {
    if users == [] then None
    else if IsOwnerRow(users[0], tenantId, email) then Some(users[0])
    else FindOwner(users[1..], tenantId, email)
  }

  /** The unique index on (tenant, e-mail), which also covers deleted users. */
  predicate EmailClash(users: seq<User>, tenantId: string, email: string, owner: Option<User>) {
    exists i :: 0 <= i < |users| && users[i].tenantId == tenantId && users[i].email == email
                && (owner.None? || users[i].id != owner.value.id)
  }

  function LinkNeeded(req: Request, owner: Option<User>): bool {
    owner.None? || req.resetOwner || !owner.value.HasPassword()
  }

  function TenantRow(req: Request, w: World, before: Option<Tenant>): Tenant {
    Tenant(req.companyName,
           if w.websiteColumn then req.website else if before.Some? then before.value.websiteUrl else None,
           req.locale, req.timezone, true)
  }

  function Lookup<T>(m: map<string, T>, key: string): Option<T> {
    if key in m then Some(m[key]) else None
  }

  function OwnerStatus(req: Request, owner: Option<User>): UserStatus {
    if LinkNeeded(req, owner) then UserInvited else UserActive
  }

  function UpdatedOwner(req: Request, row: User, link: bool): User {
    row.(email := req.ownerEmail, fullName := req.ownerFullName, owner := true,
         status := if link then UserInvited else UserActive, passwordHash := if link then None else row.passwordHash)
  }

  function UsersAfter(users: seq<User>, req: Request, tenantId: string, owner: Option<User>, freshId: nat): seq<User> {
    if owner.None? then
      users + [User(freshId, tenantId, req.ownerEmail, req.ownerFullName, true, UserInvited, None, false)]
    else
      seq(|users|, i requires 0 <= i < |users| =>
        if users[i].id == owner.value.id then UpdatedOwner(req, users[i], LinkNeeded(req, owner)) else users[i])
  }

  function AccountRow(req: Request, w: World, before: Option<Account>, freshId: nat): Account
    requires req.plan.Some?
  {
    Account(if before.Some? then before.value.id else freshId, req.billingEmail, req.plan.value, BillingActive,
            StartOfCurrentMonth(w.now), StartOfNextMonth(w.now), None, req.currency, req.included)
  }

  function Cancel(s: Subscription, tenantId: string, now: int): Subscription {
    if s.tenantId == tenantId && s.Live() then s.(status := Canceled, canceledAt := Some(now)) else s
  }

  function CancelLive(rows: seq<Subscription>, tenantId: string, now: int): (r: seq<Subscription>)
    ensures |r| == |rows| && forall i :: 0 <= i < |rows| ==> r[i] == Cancel(rows[i], tenantId, now)
  {
    seq(|rows|, i requires 0 <= i < |rows| => Cancel(rows[i], tenantId, now))
  }

  function SubscriptionRow(req: Request, tenantId: string, account: Account, id: nat, author: Option<nat>): Subscription
    requires req.plan.Some?
  {
    Subscription(id, tenantId, account.id, req.plan.value, BillingActive, account.periodStart, account.periodEnd,
                 req.included, author, None)
  }

  function Label(key: QuotaKey): string {
    match key
    case Seats => "Pilot seats grant"
    case ActiveJobs => "Pilot active jobs grant"
    case CandidateProcessing => "Pilot candidate processing grant"
    case AiInterviews => "Pilot AI interviews grant"
  }

  /** The columns by which an existing grant is looked up. */
  predicate SameGrant(g: Grant, h: Grant) {
    g.tenantId == h.tenantId && g.accountId == h.accountId && g.key == h.key && g.source == h.source
    && g.caption == h.caption && g.quantity == h.quantity
  }

  predicate HasGrant(grants: seq<Grant>, row: Grant) {
    exists i :: 0 <= i < |grants| && SameGrant(grants[i], row)
  }

  function AddGrant(grants: seq<Grant>, row: Grant): seq<Grant> {
    if row.quantity <= 0 || HasGrant(grants, row) then grants else grants + [row]
  }

  const QUOTA_KEYS: seq<QuotaKey> := [Seats, ActiveJobs, CandidateProcessing, AiInterviews]

  lemma AllKeys(key: QuotaKey)
    ensures key in QUOTA_KEYS
  {
    match key
    case Seats => assert QUOTA_KEYS[0] == key;
    case ActiveJobs => assert QUOTA_KEYS[1] == key;
    case CandidateProcessing => assert QUOTA_KEYS[2] == key;
    case AiInterviews => assert QUOTA_KEYS[3] == key;
  }

  function AddGrants(grants: seq<Grant>, keys: seq<QuotaKey>, req: Request, blank: Grant): seq<Grant> {
    if keys == [] then grants
    else AddGrant(AddGrants(grants, keys[..|keys| - 1], req, blank), GrantRow(blank, keys[|keys| - 1], req))
  }

  function GrantRow(blank: Grant, key: QuotaKey, req: Request): Grant {
    blank.(key := key, caption := Label(key), quantity := req.grants.Of(key))
  }

  function Revoke(v: Invitation, tenantId: string, userId: nat, now: int): Invitation {
    if v.OpenFor(tenantId, userId) then v.(revokedAt := Some(now)) else v
  }

  function RevokeOpen(rows: seq<Invitation>, tenantId: string, userId: nat, now: int): (r: seq<Invitation>)
    ensures |r| == |rows| && forall i :: 0 <= i < |rows| ==> r[i] == Revoke(rows[i], tenantId, userId, now)
  {
    seq(|rows|, i requires 0 <= i < |rows| => Revoke(rows[i], tenantId, userId, now))
  }

  const MS_PER_HOUR := 3_600_000

  function ExpiresAt(req: Request, now: int): int {
    now + (if req.ttlHours == 0 then 72 else req.ttlHours) * MS_PER_HOUR
  }

  /** The transaction, once nothing stands in its way. */
  function Transaction(db: Tables, req: Request, w: World, tenantId: string, owner: Option<User>,
                       actor: Option<User>): Tables
    requires req.plan.Some? && (LinkNeeded(req, owner) ==> actor.Some?)
  {
    var link := LinkNeeded(req, owner);
    var author := if actor.Some? then Some(actor.value.id) else None;
    var ownerId := if owner.Some? then owner.value.id else db.nextId;
    var account := AccountRow(req, w, Lookup(db.accounts, tenantId), db.nextId + 1);
    var subscriptionId := db.nextId + 2;
    Tables(
      db.tenants[tenantId := TenantRow(req, w, Lookup(db.tenants, tenantId))],
      UsersAfter(db.users, req, tenantId, owner, db.nextId),
      db.accounts[tenantId := account],
      CancelLive(db.subscriptions, tenantId, w.now)
        + [SubscriptionRow(req, tenantId, account, subscriptionId, author)],
      AddGrants(db.grants, QUOTA_KEYS, req,
                Grant(tenantId, account.id, Some(subscriptionId), Seats, Manual, "", 0, author)),
      if link then
        RevokeOpen(db.invitations, tenantId, ownerId, w.now)
        + [Invitation(tenantId, ownerId, actor.value.id, req.ownerEmail, db.nextId + 3, ExpiresAt(req, w.now),
                      None, None)]
      else db.invitations,
      db.audits + (if link then [Audit(tenantId, author, OwnerActivationLinkIssued)] else [])
        + [Audit(tenantId, author, ProvisioningCompleted)],
      db.nextId + 4)
  }

  /** `main`: every failure and the dry run leave the tables as they are. */
  function Provision(db: Tables, req: Request, w: World): (Tables, Outcome) {
    if req.companyName == "" || req.ownerFullName == "" || req.ownerEmail == "" then (db, Failed(MissingArguments))
    else if req.plan.None? then (db, Failed(UnknownPlan))
    else
      var id := TenantId(w.lower, db.tenants.Keys, req.tenantId, req.companyName);
      if id.None? then (db, Failed(NoFreeTenantId))
      else
        var tenantId := id.value;
        var actor := FindActor(db.users, req.actorEmail);
        var owner := FindOwner(db.users, tenantId, req.ownerEmail);
        if LinkNeeded(req, owner) && actor.None? then (db, Failed(NoInviter))
        else if req.dryRun then (db, DryRun(tenantId))
        else if EmailClash(db.users, tenantId, req.ownerEmail, owner) then (db, Failed(EmailTaken))
        else (Transaction(db, req, w, tenantId, owner, actor),
              Applied(tenantId, if owner.Some? then owner.value.id else db.nextId, LinkNeeded(req, owner)))
  }

  // ---- What every run keeps ----

  function OpenCount(rows: seq<Invitation>, tenantId: string, userId: nat): nat {
    if rows == [] then 0
    else OpenCount(rows[..|rows| - 1], tenantId, userId) + if rows[|rows| - 1].OpenFor(tenantId, userId) then 1 else 0
  }

  function LiveCount(rows: seq<Subscription>, tenantId: string): nat {
    if rows == [] then 0
    else
      var last := rows[|rows| - 1];
      LiveCount(rows[..|rows| - 1], tenantId) + if last.tenantId == tenantId && last.Live() then 1 else 0
  }

  ghost function OpenRows(rows: seq<Invitation>, tenantId: string, userId: nat): set<int> {
    set i | 0 <= i < |rows| && rows[i].tenantId == tenantId && rows[i].userId == userId && rows[i].acceptedAt.None?
            && rows[i].revokedAt.None?
  }

  ghost function LiveRows(rows: seq<Subscription>, tenantId: string): set<int> {
    set i | 0 <= i < |rows| && rows[i].tenantId == tenantId && rows[i].canceledAt.None? && !rows[i].status.Canceled?
  }

  lemma OpenRowsSnoc(rows: seq<Invitation>, v: Invitation, tenantId: string, userId: nat)
    ensures OpenRows(rows + [v], tenantId, userId)
            == OpenRows(rows, tenantId, userId) + if v.OpenFor(tenantId, userId) then {|rows|} else {}
  {
    var all := rows + [v];
    assert all[|rows|] == v && forall i :: 0 <= i < |rows| ==> all[i] == rows[i];
  }

  lemma LiveRowsSnoc(rows: seq<Subscription>, s: Subscription, tenantId: string)
    ensures LiveRows(rows + [s], tenantId)
            == LiveRows(rows, tenantId) + if s.tenantId == tenantId && s.Live() then {|rows|} else {}
  {
    var all := rows + [s];
    assert all[|rows|] == s && forall i :: 0 <= i < |rows| ==> all[i] == rows[i];
  }

  /** The counts are the numbers of rows that are open or live. */
  lemma {:induction false} OpenCountIsNumber(rows: seq<Invitation>, tenantId: string, userId: nat)
    ensures OpenCount(rows, tenantId, userId) == |OpenRows(rows, tenantId, userId)|
  {
    if rows != [] {
      var front, last := rows[..|rows| - 1], rows[|rows| - 1];
      assert rows == front + [last];
      OpenCountIsNumber(front, tenantId, userId);
      OpenRowsSnoc(front, last, tenantId, userId);
    }
  }

  lemma {:induction false} LiveCountIsNumber(rows: seq<Subscription>, tenantId: string)
    ensures LiveCount(rows, tenantId) == |LiveRows(rows, tenantId)|
  {
    if rows != [] {
      var front, last := rows[..|rows| - 1], rows[|rows| - 1];
      assert rows == front + [last];
      LiveCountIsNumber(front, tenantId);
      LiveRowsSnoc(front, last, tenantId);
    }
  }

  ghost predicate UsersConsistent(users: seq<User>, nextId: nat) {
    && (forall i :: 0 <= i < |users| ==> users[i].id < nextId)
    && (forall i, j :: 0 <= i < j < |users| ==> users[i].id != users[j].id)
    && (forall i, j :: 0 <= i < j < |users| ==>
          users[i].tenantId != users[j].tenantId || users[i].email != users[j].email)
  }

  /** Every grant hangs on its tenant's account. */
  ghost predicate GrantsOnAccounts(grants: seq<Grant>, accounts: map<string, Account>) {
    forall i :: 0 <= i < |grants| ==>
          grants[i].tenantId in accounts && grants[i].accountId == accounts[grants[i].tenantId].id
  }

  /** What the database keeps by itself: unique ids and e-mail addresses of users, and grants that hang on their
      tenant's account. */
  ghost predicate Consistent(db: Tables) {
    UsersConsistent(db.users, db.nextId) && GrantsOnAccounts(db.grants, db.accounts)
  }

  lemma {:induction false} FoundOwner(users: seq<User>, tenantId: string, email: string)
    ensures var u := FindOwner(users, tenantId, email);
            u.Some? ==> u.value in users && IsOwnerRow(u.value, tenantId, email)
    ensures FindOwner(users, tenantId, email).None? ==>
              forall i :: 0 <= i < |users| ==> !IsOwnerRow(users[i], tenantId, email)
  {
    if users != [] {
      FoundOwner(users[1..], tenantId, email);
    }
  }

  lemma UsersStayConsistent(users: seq<User>, req: Request, tenantId: string, owner: Option<User>, nextId: nat)
    requires UsersConsistent(users, nextId) && !EmailClash(users, tenantId, req.ownerEmail, owner)
    requires owner.Some? ==> owner.value in users && owner.value.tenantId == tenantId
    ensures UsersConsistent(UsersAfter(users, req, tenantId, owner, nextId), nextId + 4)
  {
  }

  lemma {:induction false} OpenCountRevoked(rows: seq<Invitation>, tenantId: string, userId: nat, now: int, t: string,
                                            u: nat)
    ensures OpenCount(RevokeOpen(rows, tenantId, userId, now), t, u)
            == if t == tenantId && u == userId then 0 else OpenCount(rows, t, u)
  {
    if rows != [] {
      OpenCountRevoked(rows[..|rows| - 1], tenantId, userId, now, t, u);
      var after := RevokeOpen(rows, tenantId, userId, now);
      assert after[..|rows| - 1] == RevokeOpen(rows[..|rows| - 1], tenantId, userId, now);
    }
  }

  lemma OpenCountSnoc(rows: seq<Invitation>, v: Invitation, t: string, u: nat)
    ensures OpenCount(rows + [v], t, u) == OpenCount(rows, t, u) + if v.OpenFor(t, u) then 1 else 0
  {
  }

  /** Issuing a link leaves its user exactly one open invitation and changes nobody else's count. */
  lemma OneOpenInvitation(rows: seq<Invitation>, v: Invitation, now: int)
    requires v.acceptedAt.None? && v.revokedAt.None?
    ensures var after := RevokeOpen(rows, v.tenantId, v.userId, now) + [v];
            && OpenCount(after, v.tenantId, v.userId) == 1
            && (forall t, u :: !(t == v.tenantId && u == v.userId) ==> OpenCount(after, t, u) == OpenCount(rows, t, u))
  {
    var revoked := RevokeOpen(rows, v.tenantId, v.userId, now);
    OpenCountRevoked(rows, v.tenantId, v.userId, now, v.tenantId, v.userId);
    OpenCountSnoc(revoked, v, v.tenantId, v.userId);
    forall t, u | !(t == v.tenantId && u == v.userId)
      ensures OpenCount(revoked + [v], t, u) == OpenCount(rows, t, u)
    {
      OpenCountRevoked(rows, v.tenantId, v.userId, now, t, u);
      OpenCountSnoc(revoked, v, t, u);
    }
  }

  lemma {:induction false} LiveCountCancelled(rows: seq<Subscription>, tenantId: string, now: int, t: string)
    ensures LiveCount(CancelLive(rows, tenantId, now), t) == if t == tenantId then 0 else LiveCount(rows, t)
  {
    if rows != [] {
      LiveCountCancelled(rows[..|rows| - 1], tenantId, now, t);
      assert CancelLive(rows, tenantId, now)[..|rows| - 1] == CancelLive(rows[..|rows| - 1], tenantId, now);
    }
  }

  /** A new live subscription after the cancellation is the tenant's only one. */
  lemma OneLiveSubscription(rows: seq<Subscription>, s: Subscription, now: int, t: string)
    requires s.Live()
    ensures LiveCount(CancelLive(rows, s.tenantId, now) + [s], t) == if t == s.tenantId then 1 else LiveCount(rows, t)
  {
    var cancelled := CancelLive(rows, s.tenantId, now);
    LiveCountCancelled(rows, s.tenantId, now, t);
    assert (cancelled + [s])[..|rows|] == cancelled;
  }

  lemma {:induction false} AddGrantsOnAccounts(grants: seq<Grant>, keys: seq<QuotaKey>, req: Request, blank: Grant,
                                               accounts: map<string, Account>)
    requires GrantsOnAccounts(grants, accounts) && blank.tenantId in accounts
             && blank.accountId == accounts[blank.tenantId].id
    ensures GrantsOnAccounts(AddGrants(grants, keys, req, blank), accounts)
  {
    if keys != [] {
      AddGrantsOnAccounts(grants, keys[..|keys| - 1], req, blank, accounts);
    }
  }

  /** No row from position `n` on equals an earlier one. */
  ghost predicate NewFrom(grants: seq<Grant>, n: nat) {
    forall i, j :: 0 <= i < j < |grants| && n <= j ==> !SameGrant(grants[i], grants[j])
  }

  lemma {:induction false} AddGrantsNew(grants: seq<Grant>, keys: seq<QuotaKey>, req: Request, blank: Grant, n: nat)
    requires n <= |grants| && NewFrom(grants, n)
    ensures var after := AddGrants(grants, keys, req, blank); grants <= after && NewFrom(after, n)
  {
    if keys != [] {
      AddGrantsNew(grants, keys[..|keys| - 1], req, blank, n);
    }
  }

  /** A run never stores a grant that is stored already. */
  lemma RunAddsNewGrants(db: Tables, req: Request, w: World, n: nat)
    requires n <= |db.grants| && NewFrom(db.grants, n)
    ensures var after := Provision(db, req, w).0; db.grants <= after.grants && NewFrom(after.grants, n)
  {
    hide AddGrants, NewFrom, FindOwner, FindActor, UsersAfter, AccountRow, TenantRow, CancelLive, RevokeOpen;
    if Provision(db, req, w).1.Applied? {
      var blank := GrantsAfter(db, req, w);
      AddGrantsNew(db.grants, QUOTA_KEYS, req, blank, n);
    }
  }

  /** What a completed run does to the grants. */
  lemma GrantsAfter(db: Tables, req: Request, w: World) returns (blank: Grant)
    requires Provision(db, req, w).1.Applied?
    ensures var (after, outcome) := Provision(db, req, w);
            var t := outcome.tenantId;
            && after.grants == AddGrants(db.grants, QUOTA_KEYS, req, blank)
            && blank.tenantId == t && blank.source.Manual? && t in after.accounts
            && blank.accountId == after.accounts[t].id
            && (t in db.accounts ==> after.accounts[t].id == db.accounts[t].id)
            && after.accounts == db.accounts[t := after.accounts[t]]
            && after.subscriptions != []
            && blank.subscriptionId == Some(after.subscriptions[|after.subscriptions| - 1].id)
            && var actor := FindActor(db.users, req.actorEmail);
               blank.createdBy == if actor.Some? then Some(actor.value.id) else None
  {
    hide AddGrants, FindOwner, FindActor, UsersAfter, TenantRow, CancelLive, RevokeOpen, LinkNeeded, EmailClash,
      TenantId, ExpiresAt, StartOfCurrentMonth, StartOfNextMonth;
    var (after, outcome) := Provision(db, req, w);
    var actor := FindActor(db.users, req.actorEmail);
    blank := Grant(outcome.tenantId, after.accounts[outcome.tenantId].id, Some(db.nextId + 2), Seats, Manual, "", 0,
                   if actor.Some? then Some(actor.value.id) else None);
  }

  /** Every run, whatever its arguments and however it ends, keeps the tables consistent. */
  lemma RunKeepsConsistent(db: Tables, req: Request, w: World)
    requires Consistent(db)
    ensures Consistent(Provision(db, req, w).0)
  {
    if Provision(db, req, w).1.Applied? {
      UsersAfterRun(db, req, w);
      GrantsAfterRun(db, req, w);
    }
  }

  lemma UsersAfterRun(db: Tables, req: Request, w: World)
    requires UsersConsistent(db.users, db.nextId) && Provision(db, req, w).1.Applied?
    ensures UsersConsistent(Provision(db, req, w).0.users, Provision(db, req, w).0.nextId)
  {
    hide AddGrants, FindOwner, FindActor, UsersAfter, AccountRow, TenantRow, CancelLive, RevokeOpen, UsersConsistent;
    var tenantId := Provision(db, req, w).1.tenantId;
    var owner := FindOwner(db.users, tenantId, req.ownerEmail);
    FoundOwner(db.users, tenantId, req.ownerEmail);
    UsersStayConsistent(db.users, req, tenantId, owner, db.nextId);
  }

  lemma GrantsAfterRun(db: Tables, req: Request, w: World)
    requires GrantsOnAccounts(db.grants, db.accounts) && Provision(db, req, w).1.Applied?
    ensures GrantsOnAccounts(Provision(db, req, w).0.grants, Provision(db, req, w).0.accounts)
  {
    hide AddGrants, Provision;
    var blank := GrantsAfter(db, req, w);
    var accounts := Provision(db, req, w).0.accounts;
    assert GrantsOnAccounts(db.grants, accounts);
    AddGrantsOnAccounts(db.grants, QUOTA_KEYS, req, blank, accounts);
  }

  /** The users whose link a run issued have exactly one open invitation, all others as many as before; so a run
      that finds at most one open invitation for each user leaves it so. */
  lemma OpenInvitationsAfterRun(db: Tables, req: Request, w: World, t: string, u: nat)
    ensures var (after, outcome) := Provision(db, req, w);
            OpenCount(after.invitations, t, u)
            == if outcome.Applied? && outcome.linkIssued && t == outcome.tenantId && u == outcome.ownerId then 1
               else OpenCount(db.invitations, t, u)
  {
    hide AddGrants, FindOwner, FindActor, UsersAfter, AccountRow, TenantRow, CancelLive, RevokeOpen, OpenCount;
    var (after, outcome) := Provision(db, req, w);
    if outcome.Applied? && outcome.linkIssued {
      OneOpenInvitation(db.invitations, after.invitations[|after.invitations| - 1], w.now);
    }
  }

  // ---- After a run ----

  /** The owner can sign in, or waits on exactly one open invitation with no password left. */
  ghost predicate OwnerReady(db: Tables, tenantId: string, ownerId: nat, linkIssued: bool) {
    exists i :: 0 <= i < |db.users| && db.users[i].id == ownerId && db.users[i].tenantId == tenantId
                && db.users[i].owner && !db.users[i].deleted
                && if linkIssued then db.users[i].status.UserInvited? && db.users[i].passwordHash.None?
                                      && OpenCount(db.invitations, tenantId, ownerId) == 1
                   else db.users[i].status.UserActive? && db.users[i].passwordHash.Some?
                        && db.users[i].passwordHash.value != ""
  }

  /** After a completed run its tenant is active with exactly one live subscription, on the plan and in
      the billing window of the run, and its owner is ready. */
  lemma AfterRun(db: Tables, req: Request, w: World)
    requires Provision(db, req, w).1.Applied?
    ensures var (after, outcome) := Provision(db, req, w);
            var t := outcome.tenantId;
            && t in after.tenants && after.tenants[t].active && after.tenants[t].name == req.companyName
            && LiveCount(after.subscriptions, t) == 1
            && OwnerReady(after, t, outcome.ownerId, outcome.linkIssued)
            && t in after.accounts && after.accounts[t].status.BillingActive?
            && after.accounts[t].periodStart == StartOfCurrentMonth(w.now)
            && after.accounts[t].periodEnd == StartOfNextMonth(w.now)
  {
    hide AddGrants, FindOwner, FindActor, UsersAfter, TenantId, OpenCount, RevokeOpen, CancelLive, LiveCount,
      OwnerReady;
    var (after, outcome) := Provision(db, req, w);
    OneLiveSubscription(db.subscriptions, after.subscriptions[|after.subscriptions| - 1], w.now, outcome.tenantId);
    OwnerAfterRun(db, req, w);
  }

  lemma OwnerAfterRun(db: Tables, req: Request, w: World)
    requires Provision(db, req, w).1.Applied?
    ensures var (after, outcome) := Provision(db, req, w);
            OwnerReady(after, outcome.tenantId, outcome.ownerId, outcome.linkIssued)
  {
    hide AddGrants, FindActor, TenantId, OpenCount, RevokeOpen, CancelLive, AccountRow, TenantRow;
    var (after, outcome) := Provision(db, req, w);
    var owner := FindOwner(db.users, outcome.tenantId, req.ownerEmail);
    FoundOwner(db.users, outcome.tenantId, req.ownerEmail);
    OpenInvitationsAfterRun(db, req, w, outcome.tenantId, outcome.ownerId);
    var k := if owner.Some? then IndexOfUser(db.users, owner.value) else |db.users|;
    assert after.users[k].id == outcome.ownerId;
  }

  /** The new subscription is open, carries the plan, quotas and window of the run and hangs on the tenant's account;
      every earlier one that was open is closed at the time of the run, and no other changes. */
  lemma BillingAfterRun(db: Tables, req: Request, w: World)
    requires Provision(db, req, w).1.Applied?
    ensures var (after, outcome) := Provision(db, req, w);
            var t, n := outcome.tenantId, |db.subscriptions|;
            && req.plan.Some? && t in after.accounts && |after.subscriptions| == n + 1
            && after.accounts[t].plan == req.plan.value && after.accounts[t].pendingPlan.None?
            && OnTerms(after.subscriptions[n], t, after.accounts[t], req)
            && (forall i :: 0 <= i < n ==>
                  var before := db.subscriptions[i];
                  after.subscriptions[i]
                  == if before.tenantId == t && before.canceledAt.None?
                        && before.status in {Trialing, BillingActive, PastDue, Incomplete} then
                       before.(status := Canceled, canceledAt := Some(w.now))
                     else before)
  {
    hide AddGrants, FindOwner, FindActor, UsersAfter, RevokeOpen, TenantRow;
  }

  predicate OnTerms(s: Subscription, tenantId: string, account: Account, req: Request) {
    && s.tenantId == tenantId && s.accountId == account.id && s.plan == account.plan && s.status.BillingActive?
    && s.canceledAt.None? && s.periodStart == account.periodStart && s.periodEnd == account.periodEnd
    && s.included == req.included
  }

  lemma {:induction false} FoundActor(users: seq<User>, email: string)
    ensures var u := FindActor(users, email); u.Some? ==> u.value in users && u.value.email == email && !u.value.deleted
  {
    if users != [] {
      FoundActor(users[1..], email);
    }
  }

  /** A link goes to the owner's address, comes from an undeleted user with the actor's address, and
      lapses after the requested hours or 72; without a link no invitation changes. Each run leaves one
      completion record, and a link record exactly when it issued a link. */
  lemma LinkAndAuditAfterRun(db: Tables, req: Request, w: World)
    requires Provision(db, req, w).1.Applied?
    ensures var (after, outcome) := Provision(db, req, w);
            var t, n := outcome.tenantId, |db.audits|;
            && (!outcome.linkIssued ==> after.invitations == db.invitations)
            && (outcome.linkIssued ==>
                  && after.invitations != []
                  && var v := after.invitations[|after.invitations| - 1];
                     && v.tenantId == t && v.userId == outcome.ownerId && v.acceptedAt.None? && v.revokedAt.None?
                     && v.email == req.ownerEmail
                     && v.expiresAt == w.now + (if req.ttlHours == 0 then 72 else req.ttlHours) * 60 * 60 * 1000
                     && (exists u :: u in db.users && u.id == v.invitedBy && u.email == req.actorEmail && !u.deleted)
                     && |after.invitations| == |db.invitations| + 1
                     && forall i :: 0 <= i < |db.invitations| ==>
                          var before := db.invitations[i];
                          after.invitations[i]
                          == if before.tenantId == t && before.userId == outcome.ownerId && before.acceptedAt.None?
                                && before.revokedAt.None? then before.(revokedAt := Some(w.now))
                             else before)
            && |after.audits| == n + (if outcome.linkIssued then 2 else 1)
            && after.audits[..n] == db.audits
            && (forall i :: n <= i < |after.audits| ==> after.audits[i].tenantId == t)
            && after.audits[|after.audits| - 1].action.ProvisioningCompleted?
            && (outcome.linkIssued ==> after.audits[n].action.OwnerActivationLinkIssued?)
  {
    hide AddGrants, FindOwner, FindActor, UsersAfter, RevokeOpen, TenantRow, AccountRow, CancelLive;
    FoundActor(db.users, req.actorEmail);
    var (after, outcome) := Provision(db, req, w);
    if outcome.linkIssued {
      var actor := FindActor(db.users, req.actorEmail).value;
      assert after.invitations[|after.invitations| - 1].invitedBy == actor.id;
    }
  }

  /** Every user belongs to a stored tenant. */
  ghost predicate UsersHaveTenants(db: Tables) {
    forall i :: 0 <= i < |db.users| ==> db.users[i].tenantId in db.tenants
  }

  lemma {:induction false} ActorExists(users: seq<User>, email: string, u: User)
    requires u in users && u.email == email && !u.deleted
    ensures FindActor(users, email).Some?
  {
    if users[0] != u {
      ActorExists(users[1..], email, u);
    }
  }

  /** A first run, from a complete request without a tenant id and a known actor and not as a dry run, provisions
      a new tenant whose owner is new and invited, exactly when one of the 9999 names is free. */
  lemma FirstRunCompletes(db: Tables, req: Request, w: World, actor: User)
    requires UsersHaveTenants(db)
    requires req.companyName != "" && req.ownerFullName != "" && req.ownerEmail != "" && req.plan.Some?
    requires req.tenantId.None? && !req.dryRun
    requires actor in db.users && actor.email == req.actorEmail && !actor.deleted
    ensures var outcome := Provision(db, req, w).1;
            var slug := NormalizeSlugPart(w.lower, req.companyName);
            if AllTaken(db.tenants.Keys, "ten_" + if slug == "" then "pilot" else slug) then
              outcome == Failed(NoFreeTenantId)
            else
              && outcome.Applied? && outcome.tenantId !in db.tenants
              && outcome.linkIssued && outcome.ownerId == db.nextId
  {
    hide Transaction, TenantId, AllTaken, NormalizeSlugPart;
    TenantIdIsFree(w.lower, db.tenants.Keys, req.tenantId, req.companyName);
    ActorExists(db.users, req.actorEmail, actor);
    var id := TenantId(w.lower, db.tenants.Keys, req.tenantId, req.companyName);
    if id.Some? {
      FoundOwner(db.users, id.value, req.ownerEmail);
    }
  }

  function IndexOfUser(users: seq<User>, u: User): (k: nat)
    requires u in users
    ensures k < |users| && users[k] == u
  {
    if users[0] == u then 0 else 1 + IndexOfUser(users[1..], u)
  }

  /** Rows are only appended for the tenant, and rows of other tenants stay as they are. */
  ghost predicate OnlyTouches<T(!new)>(before: seq<T>, after: seq<T>, tenantOf: T -> string, tenantId: string) {
    && |after| >= |before|
    && (forall i :: 0 <= i < |before| ==> tenantOf(after[i]) == tenantOf(before[i]))
    && (forall i :: 0 <= i < |before| && tenantOf(before[i]) != tenantId ==> after[i] == before[i])
    && (forall i :: |before| <= i < |after| ==> tenantOf(after[i]) == tenantId)
  }

  lemma {:induction false} GrantsOnlyAppended(grants: seq<Grant>, keys: seq<QuotaKey>, req: Request, blank: Grant)
    ensures var after := AddGrants(grants, keys, req, blank);
            && grants <= after
            && (forall i :: |grants| <= i < |after| ==>
                  after[i].tenantId == blank.tenantId && after[i].source == blank.source)
  {
    if keys != [] {
      GrantsOnlyAppended(grants, keys[..|keys| - 1], req, blank);
    }
  }

  function UserTenant(u: User): string { u.tenantId }
  function SubscriptionTenant(s: Subscription): string { s.tenantId }
  function GrantTenant(g: Grant): string { g.tenantId }
  function InvitationTenant(v: Invitation): string { v.tenantId }
  function AuditTenant(a: Audit): string { a.tenantId }

  lemma UsersTouched(users: seq<User>, req: Request, tenantId: string, owner: Option<User>, nextId: nat)
    requires UsersConsistent(users, nextId)
    requires owner.Some? ==> owner.value in users && owner.value.tenantId == tenantId
    ensures OnlyTouches(users, UsersAfter(users, req, tenantId, owner, nextId), UserTenant, tenantId)
  {
  }

  lemma GrantsTouched(db: Tables, req: Request, w: World)
    requires Provision(db, req, w).1.Applied?
    ensures var (after, outcome) := Provision(db, req, w);
            OnlyTouches(db.grants, after.grants, GrantTenant, outcome.tenantId)
  {
    hide Provision;
    hide AddGrants;
    var blank := GrantsAfter(db, req, w);
    GrantsOnlyAppended(db.grants, QUOTA_KEYS, req, blank);
  }

  lemma SubscriptionsTouched(rows: seq<Subscription>, s: Subscription, now: int)
    ensures OnlyTouches(rows, CancelLive(rows, s.tenantId, now) + [s], SubscriptionTenant, s.tenantId)
  {
  }

  lemma InvitationsTouched(rows: seq<Invitation>, v: Invitation, now: int)
    ensures OnlyTouches(rows, RevokeOpen(rows, v.tenantId, v.userId, now) + [v], InvitationTenant, v.tenantId)
  {
  }

  lemma KeyedTablesTouched(db: Tables, req: Request, w: World)
    requires Provision(db, req, w).1.Applied?
    ensures var (after, outcome) := Provision(db, req, w);
            && (forall x :: x != outcome.tenantId ==> Lookup(after.tenants, x) == Lookup(db.tenants, x))
            && (forall x :: x != outcome.tenantId ==> Lookup(after.accounts, x) == Lookup(db.accounts, x))
            && OnlyTouches(db.audits, after.audits, AuditTenant, outcome.tenantId)
  {
    hide AddGrants;
    hide FindOwner;
    hide FindActor;
    hide UsersAfter;
    hide CancelLive;
    hide RevokeOpen;
    hide AccountRow;
    hide TenantRow;
  }

  lemma RowsTouched(db: Tables, req: Request, w: World)
    requires Provision(db, req, w).1.Applied?
    ensures var (after, outcome) := Provision(db, req, w);
            && OnlyTouches(db.subscriptions, after.subscriptions, SubscriptionTenant, outcome.tenantId)
            && OnlyTouches(db.invitations, after.invitations, InvitationTenant, outcome.tenantId)
  {
    hide AddGrants;
    hide FindOwner;
    hide FindActor;
    hide UsersAfter;
    hide CancelLive;
    hide RevokeOpen;
    hide AccountRow;
    hide TenantRow;
    hide OnlyTouches;
    var (after, outcome) := Provision(db, req, w);
    SubscriptionsTouched(db.subscriptions, after.subscriptions[|after.subscriptions| - 1], w.now);
    if outcome.linkIssued {
      InvitationsTouched(db.invitations, after.invitations[|after.invitations| - 1], w.now);
    } else {
      RowsUntouched(db.invitations, InvitationTenant, outcome.tenantId);
    }
  }

  lemma RowsUntouched<T(!new)>(rows: seq<T>, tenantOf: T -> string, tenantId: string)
    ensures OnlyTouches(rows, rows, tenantOf, tenantId)
  {
  }

  /** A run never touches another tenant's rows, in any table. */
  lemma OtherTenantsUntouched(db: Tables, req: Request, w: World)
    requires UsersConsistent(db.users, db.nextId) && Provision(db, req, w).1.Applied?
    ensures var (after, outcome) := Provision(db, req, w);
            var t := outcome.tenantId;
            && (forall x :: x != t ==> Lookup(after.tenants, x) == Lookup(db.tenants, x))
            && (forall x :: x != t ==> Lookup(after.accounts, x) == Lookup(db.accounts, x))
            && OnlyTouches(db.users, after.users, UserTenant, t)
            && OnlyTouches(db.subscriptions, after.subscriptions, SubscriptionTenant, t)
            && OnlyTouches(db.grants, after.grants, GrantTenant, t)
            && OnlyTouches(db.invitations, after.invitations, InvitationTenant, t)
            && OnlyTouches(db.audits, after.audits, AuditTenant, t)
  {
    hide AddGrants;
    hide FindOwner;
    hide FindActor;
    hide UsersAfter;
    hide CancelLive;
    hide RevokeOpen;
    hide OnlyTouches;
    var t := Provision(db, req, w).1.tenantId;
    var owner := FindOwner(db.users, t, req.ownerEmail);
    FoundOwner(db.users, t, req.ownerEmail);
    UsersTouched(db.users, req, t, owner, db.nextId);
    GrantsTouched(db, req, w);
    RowsTouched(db, req, w);
    KeyedTablesTouched(db, req, w);
  }
}
