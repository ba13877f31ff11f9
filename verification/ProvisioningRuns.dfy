/** Sequences of provisioning runs: what holds after any of them, the manual grants as a set, and what
    repeating a run does. */
module ProvisioningRuns {
  import opened Options
  import opened Provisioning
  import opened TenantNames

  datatype Invocation = Invocation(req: Request, world: World)

  function After(db: Tables, runs: seq<Invocation>): Tables
    decreases |runs|
  {
    if runs == [] then db else After(Provision(db, runs[0].req, runs[0].world).0, runs[1..])
  }

  /** The tenants that some run of the sequence provisioned. */
  function Provisioned(db: Tables, runs: seq<Invocation>): set<string>
    decreases |runs|
  {
    if runs == [] then {}
    else
      var (after, outcome) := Provision(db, runs[0].req, runs[0].world);
      (if outcome.Applied? then {outcome.tenantId} else {}) + Provisioned(after, runs[1..])
  }

  /** The users, by tenant and id, to whom some run of the sequence issued a link. */
  function Linked(db: Tables, runs: seq<Invocation>): set<(string, nat)>
    decreases |runs|
  {
    if runs == [] then {}
    else
      var (after, outcome) := Provision(db, runs[0].req, runs[0].world);
      (if outcome.Applied? && outcome.linkIssued then {(outcome.tenantId, outcome.ownerId)} else {})
        + Linked(after, runs[1..])
  }

  lemma LiveCountOf(db: Tables, req: Request, w: World, t: string)
    ensures var (after, outcome) := Provision(db, req, w);
            LiveCount(after.subscriptions, t)
            == if outcome.Applied? && outcome.tenantId == t then 1 else LiveCount(db.subscriptions, t)
  {
    hide AddGrants, FindOwner, FindActor, UsersAfter, TenantRow, CancelLive, RevokeOpen, LiveCount;
    var (after, outcome) := Provision(db, req, w);
    if outcome.Applied? {
      OneLiveSubscription(db.subscriptions, after.subscriptions[|after.subscriptions| - 1], w.now, t);
    }
  }

  /** After any sequence of runs with any arguments every tenant provisioned on the way has exactly one live
      subscription, and every other tenant has as many as at the start. */
  lemma {:induction false} LiveCountAfter(db: Tables, runs: seq<Invocation>, t: string)
    ensures LiveCount(After(db, runs).subscriptions, t) ==
            if t in Provisioned(db, runs) then 1 else LiveCount(db.subscriptions, t)
    decreases |runs|
  {
    hide Provision;
    hide LiveCount;
    if runs != [] {
      LiveCountOf(db, runs[0].req, runs[0].world, t);
      LiveCountAfter(Provision(db, runs[0].req, runs[0].world).0, runs[1..], t);
    }
  }

  /** And every user who got a link has exactly one open invitation, every other as many as at the start; so at
      most one open invitation for each user is kept. */
  lemma {:induction false} OpenCountAfter(db: Tables, runs: seq<Invocation>, t: string, u: nat)
    ensures OpenCount(After(db, runs).invitations, t, u) ==
            if (t, u) in Linked(db, runs) then 1 else OpenCount(db.invitations, t, u)
    decreases |runs|
  {
    hide Provision;
    hide OpenCount;
    if runs != [] {
      OpenInvitationsAfterRun(db, runs[0].req, runs[0].world, t, u);
      OpenCountAfter(Provision(db, runs[0].req, runs[0].world).0, runs[1..], t, u);
    }
  }

  lemma {:induction false} ConsistentAfter(db: Tables, runs: seq<Invocation>)
    requires Consistent(db)
    ensures Consistent(After(db, runs))
    decreases |runs|
  {
    hide Provision;
    hide Consistent;
    if runs != [] {
      RunKeepsConsistent(db, runs[0].req, runs[0].world);
      ConsistentAfter(Provision(db, runs[0].req, runs[0].world).0, runs[1..]);
    }
  }

  /** A run for another tenant leaves an owner ready. */
  lemma OwnerStaysReady(db: Tables, req: Request, w: World, t: string, u: nat, link: bool)
    requires UsersConsistent(db.users, db.nextId) && OwnerReady(db, t, u, link)
    requires Provision(db, req, w).1.Applied? ==> Provision(db, req, w).1.tenantId != t
    ensures OwnerReady(Provision(db, req, w).0, t, u, link)
  {
    hide Provision, OpenCount;
    OpenInvitationsAfterRun(db, req, w, t, u);
    var i :| 0 <= i < |db.users| && db.users[i].id == u && db.users[i].tenantId == t && db.users[i].owner
      && !db.users[i].deleted;
    if Provision(db, req, w).1.Applied? {
      OtherTenantsUntouched(db, req, w);
      assert UserTenant(db.users[i]) == t;
      assert Provision(db, req, w).0.users[i] == db.users[i];
    } else {
      NotAppliedUnchanged(db, req, w);
    }
  }

  lemma NotAppliedUnchanged(db: Tables, req: Request, w: World)
    ensures !Provision(db, req, w).1.Applied? ==> Provision(db, req, w).0 == db
  {
    hide Transaction;
  }

  ghost predicate HasReadyOwner(db: Tables, t: string) {
    exists u: nat, link :: OwnerReady(db, t, u, link)
  }

  /** A completed run leaves its tenant a ready owner, and no run takes one from another tenant. */
  lemma ReadyOwnerAfterRun(db: Tables, req: Request, w: World, t: string)
    requires UsersConsistent(db.users, db.nextId)
    ensures var (after, outcome) := Provision(db, req, w);
            UsersConsistent(after.users, after.nextId)
            && ((outcome.Applied? && outcome.tenantId == t) || HasReadyOwner(db, t) ==> HasReadyOwner(after, t))
  {
    hide Provision, OwnerReady, UsersConsistent;
    var (after, outcome) := Provision(db, req, w);
    if outcome.Applied? {
      UsersAfterRun(db, req, w);
    } else {
      NotAppliedUnchanged(db, req, w);
    }
    if outcome.Applied? && outcome.tenantId == t {
      AfterRun(db, req, w);
    } else if HasReadyOwner(db, t) {
      var u: nat, link :| OwnerReady(db, t, u, link);
      OwnerStaysReady(db, req, w, t, u, link);
    }
  }

  lemma {:induction false} ReadyOwnerAfter(db: Tables, runs: seq<Invocation>, t: string)
    requires UsersConsistent(db.users, db.nextId)
    requires t in Provisioned(db, runs) || HasReadyOwner(db, t)
    ensures HasReadyOwner(After(db, runs), t)
    decreases |runs|
  {
    hide Provision, HasReadyOwner, UsersConsistent;
    if runs != [] {
      ReadyOwnerAfterRun(db, runs[0].req, runs[0].world, t);
      ReadyOwnerAfter(Provision(db, runs[0].req, runs[0].world).0, runs[1..], t);
    }
  }

  /** After any sequence of runs with any arguments, at the end of it: the tables are consistent, and every tenant
      provisioned on the way has exactly one live subscription and an owner who can sign in or waits on exactly
      one open invitation. */
  lemma AnyRuns(db: Tables, runs: seq<Invocation>)
    requires Consistent(db)
    ensures Consistent(After(db, runs))
    ensures forall t :: t in Provisioned(db, runs) ==>
              LiveCount(After(db, runs).subscriptions, t) == 1 && HasReadyOwner(After(db, runs), t)
    ensures forall t :: t !in Provisioned(db, runs) ==>
              LiveCount(After(db, runs).subscriptions, t) == LiveCount(db.subscriptions, t)
    ensures forall t, u: nat :: OpenCount(After(db, runs).invitations, t, u)
                           == if (t, u) in Linked(db, runs) then 1 else OpenCount(db.invitations, t, u)
  {
    hide After, Provisioned, Linked, LiveCount, OpenCount, HasReadyOwner;
    ConsistentAfter(db, runs);
    forall t ensures LiveCount(After(db, runs).subscriptions, t)
                     == if t in Provisioned(db, runs) then 1 else LiveCount(db.subscriptions, t)
    {
      LiveCountAfter(db, runs, t);
    }
    forall t | t in Provisioned(db, runs) ensures HasReadyOwner(After(db, runs), t) {
      ReadyOwnerAfter(db, runs, t);
    }
    forall t, u: nat ensures OpenCount(After(db, runs).invitations, t, u)
                        == if (t, u) in Linked(db, runs) then 1 else OpenCount(db.invitations, t, u)
    {
      OpenCountAfter(db, runs, t, u);
    }
  }

  // ---- Manual grants as a set ----

  predicate IsPilotGrant(g: Grant, tenantId: string, key: QuotaKey) {
    g.tenantId == tenantId && g.key == key && g.source.Manual? && g.caption == Label(key)
  }

  /** The quantities of the manual pilot grants a tenant holds for one quota. */
  function PilotQuantities(grants: seq<Grant>, tenantId: string, key: QuotaKey): set<int> {
    set i | 0 <= i < |grants| && IsPilotGrant(grants[i], tenantId, key) :: grants[i].quantity
  }

  function Positive(q: nat): set<int> {
    if q > 0 then {q} else {}
  }

  lemma AddGrantQuantities(grants: seq<Grant>, row: Grant, tenantId: string, key: QuotaKey)
    requires row.source.Manual? && row.caption == Label(row.key) && row.quantity >= 0
    requires forall i :: 0 <= i < |grants| && grants[i].tenantId == row.tenantId ==>
               grants[i].accountId == row.accountId
    ensures PilotQuantities(AddGrant(grants, row), tenantId, key)
            == PilotQuantities(grants, tenantId, key)
               + if row.tenantId == tenantId && row.key == key then Positive(row.quantity) else {}
    ensures forall i :: 0 <= i < |AddGrant(grants, row)| && AddGrant(grants, row)[i].tenantId == row.tenantId ==>
              AddGrant(grants, row)[i].accountId == row.accountId
  {
    var after := AddGrant(grants, row);
    assert grants <= after;
    if row.quantity > 0 && !HasGrant(grants, row) {
      assert after[|grants|] == row;
    }
    forall i | 0 <= i < |grants| && IsPilotGrant(grants[i], tenantId, key)
      ensures grants[i].quantity in PilotQuantities(after, tenantId, key)
    {
      assert after[i] == grants[i];
    }
  }

  lemma {:induction false} AddGrantsQuantities(grants: seq<Grant>, keys: seq<QuotaKey>, req: Request, blank: Grant,
                                               tenantId: string, key: QuotaKey)
    requires blank.source.Manual?
    requires forall i :: 0 <= i < |grants| && grants[i].tenantId == blank.tenantId ==>
               grants[i].accountId == blank.accountId
    ensures var after := AddGrants(grants, keys, req, blank);
            && PilotQuantities(after, tenantId, key)
               == PilotQuantities(grants, tenantId, key)
                  + (if blank.tenantId == tenantId && key in keys then Positive(req.grants.Of(key)) else {})
            && forall i :: 0 <= i < |after| && after[i].tenantId == blank.tenantId ==>
               after[i].accountId == blank.accountId
  {
    hide PilotQuantities;
    hide AddGrant;
    if keys != [] {
      var front, last := keys[..|keys| - 1], keys[|keys| - 1];
      AddGrantsQuantities(grants, front, req, blank, tenantId, key);
      AddGrantQuantities(AddGrants(grants, front, req, blank), GrantRow(blank, last, req), tenantId, key);
      assert key in keys <==> key in front || key == last;
    }
  }

  /** What a run asks for, if it goes through. */
  function Requested(db: Tables, run: Invocation, tenantId: string, key: QuotaKey): set<int> {
    var outcome := Provision(db, run.req, run.world).1;
    if outcome.Applied? && outcome.tenantId == tenantId then Positive(run.req.grants.Of(key)) else {}
  }

  function RequestedBy(db: Tables, runs: seq<Invocation>, tenantId: string, key: QuotaKey): set<int>
    decreases |runs|
  {
    if runs == [] then {}
    else
      var after := Provision(db, runs[0].req, runs[0].world).0;
      Requested(db, runs[0], tenantId, key) + RequestedBy(after, runs[1..], tenantId, key)
  }

  lemma RunQuantities(db: Tables, run: Invocation, tenantId: string, key: QuotaKey)
    requires Consistent(db)
    ensures PilotQuantities(Provision(db, run.req, run.world).0.grants, tenantId, key)
            == PilotQuantities(db.grants, tenantId, key) + Requested(db, run, tenantId, key)
  {
    hide PilotQuantities;
    hide AddGrants;
    var (after, outcome) := Provision(db, run.req, run.world);
    if outcome.Applied? {
      var blank := GrantsAfter(db, run.req, run.world);
      AddGrantsQuantities(db.grants, QUOTA_KEYS, run.req, blank, tenantId, key);
      AllKeys(key);
    }
  }

  /** Along any sequence of runs the stored pilot grants of a tenant and quota are the ones it started
      with and exactly the distinct positive quantities that completed runs asked for. */
  lemma {:induction false} GrantsAreTheRequestedSet(db: Tables, runs: seq<Invocation>, tenantId: string, key: QuotaKey)
    requires Consistent(db)
    ensures PilotQuantities(After(db, runs).grants, tenantId, key)
            == PilotQuantities(db.grants, tenantId, key) + RequestedBy(db, runs, tenantId, key)
    decreases |runs|
  {
    hide Provision;
    hide Consistent;
    hide PilotQuantities;
    if runs != [] {
      RunQuantities(db, runs[0], tenantId, key);
      RunKeepsConsistent(db, runs[0].req, runs[0].world);
      GrantsAreTheRequestedSet(Provision(db, runs[0].req, runs[0].world).0, runs[1..], tenantId, key);
    }
  }

  lemma {:induction false} GrantsGrow(db: Tables, runs: seq<Invocation>, n: nat)
    requires n <= |db.grants| && NewFrom(db.grants, n)
    ensures db.grants <= After(db, runs).grants && NewFrom(After(db, runs).grants, n)
    decreases |runs|
  {
    hide Provision, NewFrom;
    if runs != [] {
      RunAddsNewGrants(db, runs[0].req, runs[0].world, n);
      GrantsGrow(Provision(db, runs[0].req, runs[0].world).0, runs[1..], n);
    }
  }

  /** And each of them is stored once: whatever was stored before, duplicates of other origin included, along any
      sequence of runs the old rows stay and no added row equals another row, old or new. */
  lemma AddedGrantsStoredOnce(db: Tables, runs: seq<Invocation>)
    ensures var after := After(db, runs).grants;
            && db.grants <= after
            && forall i, j :: 0 <= i < j < |after| && |db.grants| <= j ==> !SameGrant(after[i], after[j])
  {
    hide After, SameGrant;
    GrantsGrow(db, runs, |db.grants|);
  }

  // ---- Repeating a run ----

  lemma AddGrantKeeps(grants: seq<Grant>, row: Grant, other: Grant)
    ensures HasGrant(grants, other) ==> HasGrant(AddGrant(grants, row), other)
    ensures row.quantity > 0 && SameGrant(row, other) ==> HasGrant(AddGrant(grants, row), other)
  {
    var after := AddGrant(grants, row);
    if HasGrant(grants, other) {
      var i :| 0 <= i < |grants| && SameGrant(grants[i], other);
      assert SameGrant(after[i], other);
    }
    if row.quantity > 0 && SameGrant(row, other) {
      if HasGrant(grants, row) {
        var i :| 0 <= i < |grants| && SameGrant(grants[i], row);
        assert SameGrant(after[i], other);
      } else {
        assert SameGrant(after[|grants|], other);
      }
    }
  }

  lemma {:induction false} GrantsPresent(grants: seq<Grant>, keys: seq<QuotaKey>, req: Request, blank: Grant,
                                         again: Grant, key: QuotaKey)
    requires blank.tenantId == again.tenantId && blank.accountId == again.accountId && blank.source == again.source
    requires key in keys && req.grants.Of(key) > 0
    ensures HasGrant(AddGrants(grants, keys, req, blank), GrantRow(again, key, req))
  {
    var front, last := keys[..|keys| - 1], keys[|keys| - 1];
    if key != last {
      GrantsPresent(grants, front, req, blank, again, key);
    }
    AddGrantKeeps(AddGrants(grants, front, req, blank), GrantRow(blank, last, req), GrantRow(again, key, req));
  }

  lemma {:induction false} NothingToAdd(grants: seq<Grant>, keys: seq<QuotaKey>, req: Request, again: Grant)
    requires forall key :: key in keys && req.grants.Of(key) > 0 ==> HasGrant(grants, GrantRow(again, key, req))
    ensures AddGrants(grants, keys, req, again) == grants
  {
    hide HasGrant;
    if keys != [] {
      NothingToAdd(grants, keys[..|keys| - 1], req, again);
      assert keys[|keys| - 1] in keys;
    }
  }

  /** Repeating a completed run works on the same tenant exactly when the tenant id was given. Without
      it the name is now taken and the repetition provisions another tenant, although the usage text
      speaks of creating or updating one. */
  lemma RepeatHitsSameTenant(db: Tables, req: Request, first: World, second: World)
    requires Provision(db, req, first).1.Applied? && first.lower == second.lower
    ensures var (after, outcome) := Provision(db, req, first);
            TenantId(second.lower, after.tenants.Keys, req.tenantId, req.companyName) == Some(outcome.tenantId)
            <==> req.tenantId.Some?
  {
    var (after, outcome) := Provision(db, req, first);
    if req.tenantId.None? {
      TenantIdIsFree(second.lower, after.tenants.Keys, req.tenantId, req.companyName);
      assert outcome.tenantId in after.tenants;
    }
  }

  /** A first run that names no tenant id, given twice, concerns two tenants. */
  lemma RepeatMakesAnotherTenant(req: Request, w: World)
    requires req.companyName != "" && req.ownerFullName != "" && req.ownerEmail != "" && req.plan.Some?
    requires req.tenantId.None? && !req.dryRun
    ensures var db := OnlyOperator(req.actorEmail);
            var (after, outcome) := Provision(db, req, w);
            outcome.Applied?
            && TenantId(w.lower, after.tenants.Keys, req.tenantId, req.companyName) != Some(outcome.tenantId)
  {
    hide Provision, TenantId, DirectId;
    var db := OnlyOperator(req.actorEmail);
    var direct := DirectId(w.lower, req.companyName);
    LongerThanOne(w.lower, req.companyName);
    assert direct !in db.tenants;
    FirstRunCompletes(db, req, w, db.users[0]);
    RepeatHitsSameTenant(db, req, w, w);
  }

  /** The operator's own tenant with one user. */
  function OnlyOperator(email: string): Tables {
    Tables(map["o" := Tenant("Operator", None, "tr-TR", "Europe/Istanbul", true)],
           [User(0, "o", email, "Operator", true, UserActive, Some("x"), false)], map[], [], [], [], [], 1)
  }

  lemma LongerThanOne(lower: string -> string, companyName: string)
    ensures |DirectId(lower, companyName)| > 1
  {
  }

  /** The account of a tenant keeps its id, and stored grants stay. */
  lemma RunKeepsAccount(db: Tables, req: Request, w: World, t: string)
    requires t in db.accounts
    ensures var after := Provision(db, req, w).0; t in after.accounts && after.accounts[t].id == db.accounts[t].id
  {
    hide Transaction;
    if Provision(db, req, w).1.Applied? {
      hide Provision;
      var blank := GrantsAfter(db, req, w);
    }
  }

  lemma {:induction false} RunsKeepAccount(db: Tables, runs: seq<Invocation>, t: string)
    requires t in db.accounts
    ensures var after := After(db, runs);
            t in after.accounts && after.accounts[t].id == db.accounts[t].id
    decreases |runs|
  {
    hide Provision;
    if runs != [] {
      RunKeepsAccount(db, runs[0].req, runs[0].world, t);
      RunsKeepAccount(Provision(db, runs[0].req, runs[0].world).0, runs[1..], t);
    }
  }

  lemma HasGrantGrows(before: seq<Grant>, after: seq<Grant>, row: Grant)
    requires before <= after && HasGrant(before, row)
    ensures HasGrant(after, row)
  {
    var i :| 0 <= i < |before| && SameGrant(before[i], row);
    assert after[i] == before[i];
  }

  /** Repeating a completed run that named its tenant, at once or after any other runs, adds no grant, so it leaves
      every granted total unchanged. */
  lemma RepeatAddsNoGrant(db: Tables, req: Request, first: World, between: seq<Invocation>, second: World)
    requires Provision(db, req, first).1.Applied? && req.tenantId.Some?
    ensures var later := After(Provision(db, req, first).0, between);
            Provision(later, req, second).0.grants == later.grants
  {
    hide Transaction, After;
    var later := After(Provision(db, req, first).0, between);
    if Provision(later, req, second).1.Applied? {
      RepeatSame(db, req, first, between, second);
    }
  }

  lemma RepeatSame(db: Tables, req: Request, first: World, between: seq<Invocation>, second: World)
    requires Provision(db, req, first).1.Applied? && req.tenantId.Some?
    requires Provision(After(Provision(db, req, first).0, between), req, second).1.Applied?
    ensures var later := After(Provision(db, req, first).0, between);
            Provision(later, req, second).0.grants == later.grants
  {
    hide Transaction, AddGrants, HasGrant, FindOwner, FindActor, After;
    var after := Provision(db, req, first).0;
    var later := After(after, between);
    var blank := GrantsAfter(db, req, first);
    var again := GrantsAfter(later, req, second);
    RunsKeepAccount(after, between, blank.tenantId);
    AddedGrantsStoredOnce(after, between);
    forall key | key in QUOTA_KEYS && req.grants.Of(key) > 0 ensures HasGrant(later.grants, GrantRow(again, key, req)) {
      GrantsPresent(db.grants, QUOTA_KEYS, req, blank, again, key);
      HasGrantGrows(after.grants, later.grants, GrantRow(again, key, req));
    }
    NothingToAdd(later.grants, QUOTA_KEYS, req, again);
  }
}
