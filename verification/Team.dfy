/**
 * A client's team: the commands of packages/clients/src/team.ts. A handler runs under its client's row lock, so
 * handlers come one after the other; what was authorized earlier may have changed by then.
 */
module Team {
  import opened Sequences

  datatype TeamRole = ADMIN | OPERATOR

  datatype UserRole = ClientAdmin | ClientTrader

  datatype MemberRole = Administrator | Operator | Viewer

  datatype Member = Member(client: nat, user: nat, role: UserRole, canAcceptQuotes: bool, active: bool)

  datatype Status = Pending | Accepted | Revoked

  datatype Invite = Invite(client: nat, email: string, role: TeamRole, invitedBy: nat, expiresAt: int, status: Status)

  datatype Rows = Rows(members: map<nat, Member>, invites: map<nat, Invite>)

  /** Who a team command was authorized for. */
  datatype Admin = Admin(member: nat, client: nat)

  datatype Refusal =
    | InvalidArgument | AlreadyMember | RateLimited | NotFound | InviteUnavailable | ClientNotActive | AccountExists
    | SelfChange | InvalidTransition | NoLongerAdmin

  datatype Reply = Done(rows: Rows) | Refused(reason: Refusal)

  const VALID_SECONDS := 7 * 24 * 3600
  const MAX_PENDING := 20

  function RoleOf(t: TeamRole): UserRole {
    if t.ADMIN? then ClientAdmin else ClientTrader
  }

  function TeamRoleOf(role: UserRole, canAcceptQuotes: bool): MemberRole {
    if role.ClientAdmin? then Administrator else if canAcceptQuotes then Operator else Viewer
  }

  /** A membership with the authority of a team role. */
  function Granted(m: Member, t: TeamRole): Member {
    m.(role := RoleOf(t), canAcceptQuotes := true)
  }

  predicate IsAdmin(rows: Rows, member: nat, client: nat) {
    member in rows.members && rows.members[member].client == client && rows.members[member].role.ClientAdmin?
      && rows.members[member].active
  }

  /** The check that the handler repeats under the lock; a member's client never changes. */
  predicate StillAdmin(rows: Rows, a: Admin) {
    a.member in rows.members && rows.members[a.member].role.ClientAdmin? && rows.members[a.member].active
  }

  function Withdrawn(invites: map<nat, Invite>, which: Invite -> bool): map<nat, Invite> {
    map i | i in invites ::
        if invites[i].status.Pending? && which(invites[i]) then invites[i].(status := Revoked) else invites[i]
  }

  function WithdrawnBy(invites: map<nat, Invite>, member: nat): map<nat, Invite> {
    Withdrawn(invites, (i: Invite) => i.invitedBy == member)
  }

  function Waiting(invites: map<nat, Invite>, client: nat, now: int): set<nat> {
    set i | i in invites && invites[i].client == client && invites[i].status.Pending? && invites[i].expiresAt > now
  }

  predicate HasMember(rows: Rows, emails: map<nat, string>, client: nat, email: string) {
    exists m :: m in rows.members && rows.members[m].client == client && rows.members[m].active &&
                rows.members[m].user in emails && emails[rows.members[m].user] == email
  }

  function Inviting(rows: Rows, now: int, emails: map<nat, string>, a: Admin, email: Option<string>, role: TeamRole,
                    id: nat): Reply {
    if !StillAdmin(rows, a) then Refused(NoLongerAdmin)
    else if email.None? then Refused(InvalidArgument)
    else if HasMember(rows, emails, a.client, email.value) then Refused(AlreadyMember)
    else
      var left := Withdrawn(rows.invites, (i: Invite) => i.client == a.client && i.email == email.value);
      if |Waiting(left, a.client, now)| >= MAX_PENDING then Refused(RateLimited)
      else
        var invite := Invite(a.client, email.value, role, a.member, now + VALID_SECONDS, Pending);
        Done(rows.(invites := left[id := invite]))
  }

  function Revoking(rows: Rows, a: Admin, id: nat): Reply {
    if !StillAdmin(rows, a) then Refused(NoLongerAdmin)
    else if id !in rows.invites || rows.invites[id].client != a.client then Refused(NotFound)
    else if !rows.invites[id].status.Pending? then Refused(InviteUnavailable)
    else Done(rows.(invites := rows.invites[id := rows.invites[id].(status := Revoked)]))
  }

  predicate HasAccount(rows: Rows, user: nat, m: nat) {
    m in rows.members && rows.members[m].user == user
  }

  /**
   * A signed-in person accepts; `existing` is their membership, if they have one, and `fresh'` the number of a new one.
   */
  function Accepting(rows: Rows, now: int, user: nat, email: string, id: nat, clientActive: bool, existing: Option<nat>,
                     fresh': nat): Reply
    requires existing.Some? ==> existing.value in rows.members
  {
    if id !in rows.invites || rows.invites[id].email != email then Refused(NotFound)
    else
      var i := rows.invites[id];
      if !i.status.Pending? || i.expiresAt <= now then Refused(InviteUnavailable)
      else if !clientActive then Refused(ClientNotActive)
      else if existing.None? then
        Done(Rows(rows.members[fresh' := Granted(Member(i.client, user, ClientTrader, false, true), i.role)],
                  rows.invites[id := i.(status := Accepted)]))
      else
        var m := rows.members[existing.value];
        if m.client != i.client then Refused(AccountExists)
        else if m.active then Refused(AlreadyMember)
        else Done(Rows(rows.members[existing.value := Granted(m, i.role).(active := true)],
                       rows.invites[id := i.(status := Accepted)]))
  }

  function SettingRole(rows: Rows, a: Admin, target: nat, role: TeamRole): Reply {
    if !StillAdmin(rows, a) then Refused(NoLongerAdmin)
    else if target !in rows.members || rows.members[target].client != a.client then Refused(NotFound)
    else
      var m := rows.members[target];
      if target == a.member then Refused(SelfChange)
      else if !m.active then Refused(InvalidTransition)
      else if Granted(m, role) == m then Done(rows)
      else Done(Rows(rows.members[target := Granted(m, role)],
                     if m.role.ClientAdmin? && role.OPERATOR? then WithdrawnBy(rows.invites, target) else rows.invites))
  }

  function Removing(rows: Rows, a: Admin, target: nat): Reply {
    if !StillAdmin(rows, a) then Refused(NoLongerAdmin)
    else if target !in rows.members || rows.members[target].client != a.client then Refused(NotFound)
    else if target == a.member then Refused(SelfChange)
    else if !rows.members[target].active then Done(rows)
    else Done(Rows(rows.members[target := rows.members[target].(active := false, canAcceptQuotes := false)],
                   WithdrawnBy(rows.invites, target)))
  }

  // ---- runs -------------------------------------------------------------------------------------------------------

  datatype Sys = Sys(now: int, rows: Rows, authorized: set<Admin>)

  datatype Step =
    | Tick(now: int)
    /** A person without one opens an account, and is its administrator. */
    | OpenAccount(client: nat, user: nat, member: nat)
    | Authorize(a: Admin)
    | InviteMember(a: Admin, email: Option<string>, role: TeamRole, id: nat)
    | RevokeInvite(a: Admin, id: nat)
    | AcceptInvite(user: nat, address: string, id: nat, clientActive: bool, existing: Option<nat>, member: nat)
    | SetRole(a: Admin, target: nat, role: TeamRole)
    | Remove(a: Admin, target: nat)

  ghost predicate Possible(s: Sys, step: Step) {
    match step
    case Tick(now) => s.now <= now
    case OpenAccount(client, user, member) => member !in s.rows.members
      && (forall m :: m in s.rows.members ==> s.rows.members[m].user != user && s.rows.members[m].client != client)
    case Authorize(a) => IsAdmin(s.rows, a.member, a.client)
    case InviteMember(a, _, _, id) => a in s.authorized && id !in s.rows.invites
    case RevokeInvite(a, _) => a in s.authorized
    case AcceptInvite(user, _, _, _, existing, member) =>
      member !in s.rows.members && if existing.Some? then HasAccount(s.rows, user, existing.value)
                                   else forall m :: !HasAccount(s.rows, user, m)
    case SetRole(a, _, _) => a in s.authorized
    case Remove(a, _) => a in s.authorized
  }

  function Handled(s: Sys, emails: map<nat, string>, step: Step): Reply
    requires Possible(s, step)
  {
    match step
    case Tick(_) => Done(s.rows)
    case OpenAccount(client, user, member) =>
      Done(s.rows.(members := s.rows.members[member := Member(client, user, ClientAdmin, true, true)]))
    case Authorize(_) => Done(s.rows)
    case InviteMember(a, email, role, id) => Inviting(s.rows, s.now, emails, a, email, role, id)
    case RevokeInvite(a, id) => Revoking(s.rows, a, id)
    case AcceptInvite(user, email, id, clientActive, existing, member) =>
      Accepting(s.rows, s.now, user, email, id, clientActive, existing, member)
    case SetRole(a, target, role) => SettingRole(s.rows, a, target, role)
    case Remove(a, target) => Removing(s.rows, a, target)
  }

  function After(s: Sys, emails: map<nat, string>, step: Step): Sys
    requires Possible(s, step)
  {
    var reply := Handled(s, emails, step);
    Sys(if step.Tick? then step.now else s.now,
        if reply.Done? then reply.rows else s.rows,
        if step.Authorize? then s.authorized + {step.a} else s.authorized)
  }

  ghost predicate Goes(s: Sys, emails: map<nat, string>, step: Step, u: Sys) {
    Possible(s, step) && u == After(s, emails, step)
  }

  ghost predicate Run(run: seq<Sys>, emails: map<nat, string>, steps: seq<Step>) {
    && |run| == |steps| + 1 && run[0].rows == Rows(map[], map[]) && run[0].authorized == {}
    && forall i, j :: 0 <= i < |steps| && j == i + 1 ==> Goes(run[i], emails, steps[i], run[j])
  }

  // ---- the invariant ----------------------------------------------------------------------------------------------

  /** One person has one membership. */
  ghost predicate OneAccount(rows: Rows) {
    forall m, n :: m in rows.members && n in rows.members && rows.members[m].user == rows.members[n].user ==> m == n
  }

  /** Whoever made a waiting invitation is an administrator of its client now. */
  ghost predicate InvitersLead(rows: Rows) {
    forall i ::
        i in rows.invites && rows.invites[i].status.Pending? ==>
            IsAdmin(rows, rows.invites[i].invitedBy, rows.invites[i].client)
  }

  ghost predicate OneWaitingEach(rows: Rows) {
    forall i, j ::
        i in rows.invites && j in rows.invites && rows.invites[i].status.Pending? && rows.invites[j].status.Pending? ==>
      (rows.invites[i].client, rows.invites[i].email) == (rows.invites[j].client, rows.invites[j].email) ==> i == j
  }

  ghost predicate FewWait(rows: Rows, now: int) {
    forall c: nat :: |Waiting(rows.invites, c, now)| <= MAX_PENDING
  }

  ghost predicate AuthorizedBelong(s: Sys) {
    forall a :: a in s.authorized ==> a.member in s.rows.members && s.rows.members[a.member].client == a.client
  }

  ghost predicate Inv(s: Sys) {
    OneAccount(s.rows) && InvitersLead(s.rows) && OneWaitingEach(s.rows) && FewWait(s.rows, s.now)
      && AuthorizedBelong(s)
  }

  /** Rows whose waiting invitations are some of those before. */
  ghost predicate Fewer(old': map<nat, Invite>, new': map<nat, Invite>) {
    forall i :: i in new' && new'[i].status.Pending? ==> i in old' && new'[i] == old'[i]
  }

  lemma FewerWait(a: Rows, b: Rows, now: int, later: int)
    requires Fewer(a.invites, b.invites) && now <= later && FewWait(a, now) && OneWaitingEach(a)
    ensures FewWait(b, later) && OneWaitingEach(b)
  {
    forall c: nat
      ensures |Waiting(b.invites, c, later)| <= MAX_PENDING
    {
      var x, y := Waiting(b.invites, c, later), Waiting(a.invites, c, now);
      assert x <= y;
      Smaller(x, y);
    }
  }

  lemma Smaller(x: set<nat>, y: set<nat>)
    requires x <= y
    ensures |x| <= |y|
  {
    assert y == x + (y - x);
  }

  /** Members whose client stays, and who stay administrators if they invited someone who waits. */
  lemma InvitersStay(a: Rows, b: Rows)
    requires InvitersLead(a) && Fewer(a.invites, b.invites)
    requires forall m, c ::
               IsAdmin(a, m, c) && !IsAdmin(b, m, c) ==>
                   forall i :: i in b.invites && b.invites[i].status.Pending? ==> b.invites[i].invitedBy != m
    ensures InvitersLead(b)
  {
  }

  lemma InviteKeeps(s: Sys, emails: map<nat, string>, a: Admin, email: Option<string>, role: TeamRole, id: nat)
    requires Inv(s) && Possible(s, InviteMember(a, email, role, id))
    ensures Inv(After(s, emails, InviteMember(a, email, role, id)))
  {
    hide HasMember, FewWait;
    var u := After(s, emails, InviteMember(a, email, role, id));
    if u.rows != s.rows {
      var left := s.rows.(invites :=
                          Withdrawn(s.rows.invites, (i: Invite) => i.client == a.client && i.email == email.value));
      FewerWait(s.rows, left, s.now, s.now);
      OneMoreWaits(left, s.now, id, u.rows.invites[id]);
    }
  }

  /** One more waiting invitation where fewer than twenty wait. */
  lemma OneMoreWaits(rows: Rows, now: int, id: nat, i: Invite)
    requires FewWait(rows, now) && id !in rows.invites && |Waiting(rows.invites, i.client, now)| < MAX_PENDING
    ensures FewWait(rows.(invites := rows.invites[id := i]), now)
  {
    var more := rows.invites[id := i];
    forall c: nat
      ensures |Waiting(more, c, now)| <= MAX_PENDING
    {
      var x, y := Waiting(more, c, now), Waiting(rows.invites, c, now);
      if c == i.client {
        assert x <= y + {id};
        Smaller(x, y + {id});
      } else {
        assert x == y;
      }
    }
  }

  lemma RevokeKeeps(s: Sys, emails: map<nat, string>, a: Admin, id: nat)
    requires Inv(s) && Possible(s, RevokeInvite(a, id))
    ensures Inv(After(s, emails, RevokeInvite(a, id)))
  {
    FewerWait(s.rows, After(s, emails, RevokeInvite(a, id)).rows, s.now, s.now);
  }

  lemma AcceptKeeps(s: Sys, emails: map<nat, string>, step: Step)
    requires Inv(s) && step.AcceptInvite? && Possible(s, step)
    ensures Inv(After(s, emails, step))
  {
    var u := After(s, emails, step);
    FewerWait(s.rows, u.rows, s.now, s.now);
    assert forall m, c :: IsAdmin(s.rows, m, c) ==> IsAdmin(u.rows, m, c);
    InvitersStay(s.rows, u.rows);
    if u.rows != s.rows && step.existing.None? {
      assert forall m :: m in s.rows.members ==> !HasAccount(s.rows, step.user, m);
    }
  }

  lemma SetRoleKeeps(s: Sys, emails: map<nat, string>, a: Admin, target: nat, role: TeamRole)
    requires Inv(s) && Possible(s, SetRole(a, target, role))
    ensures Inv(After(s, emails, SetRole(a, target, role)))
  {
    var u := After(s, emails, SetRole(a, target, role));
    FewerWait(s.rows, u.rows, s.now, s.now);
    assert forall m, c :: IsAdmin(s.rows, m, c) && !IsAdmin(u.rows, m, c) ==> m == target;
    InvitersStay(s.rows, u.rows);
  }

  lemma RemoveKeeps(s: Sys, emails: map<nat, string>, a: Admin, target: nat)
    requires Inv(s) && Possible(s, Remove(a, target))
    ensures Inv(After(s, emails, Remove(a, target)))
  {
    var u := After(s, emails, Remove(a, target));
    FewerWait(s.rows, u.rows, s.now, s.now);
    assert forall m, c :: IsAdmin(s.rows, m, c) && !IsAdmin(u.rows, m, c) ==> m == target;
    InvitersStay(s.rows, u.rows);
  }

  lemma OthersKeep(s: Sys, emails: map<nat, string>, step: Step)
    requires Inv(s) && Possible(s, step) && (step.Tick? || step.OpenAccount? || step.Authorize?)
    ensures Inv(After(s, emails, step))
  {
    var u := After(s, emails, step);
    FewerWait(s.rows, u.rows, s.now, u.now);
    assert forall m, c :: IsAdmin(s.rows, m, c) ==> IsAdmin(u.rows, m, c);
    InvitersStay(s.rows, u.rows);
  }

  lemma StepKeeps(s: Sys, emails: map<nat, string>, step: Step)
    requires Inv(s) && Possible(s, step)
    ensures Inv(After(s, emails, step))
  {
    hide Inv, Possible, After;
    match step {
      case InviteMember(a, email, role, id) => InviteKeeps(s, emails, a, email, role, id);
      case RevokeInvite(a, id) => RevokeKeeps(s, emails, a, id);
      case AcceptInvite(_, _, _, _, _, _) => AcceptKeeps(s, emails, step);
      case SetRole(a, target, role) => SetRoleKeeps(s, emails, a, target, role);
      case Remove(a, target) => RemoveKeeps(s, emails, a, target);
      case _ => OthersKeep(s, emails, step);
    }
  }

  /** In every state: inviters lead, one invitation waits for each email, and at most twenty for each client. */
  lemma {:induction false} RunsKeep(run: seq<Sys>, emails: map<nat, string>, steps: seq<Step>, k: nat)
    requires Run(run, emails, steps) && k < |run|
    ensures Inv(run[k])
  {
    hide Inv, Possible, After;
    if k > 0 {
      RunsKeep(run, emails, steps, k - 1);
      assert Goes(run[k - 1], emails, steps[k - 1], run[k]);
      StepKeeps(run[k - 1], emails, steps[k - 1]);
    } else {
      EmptyHolds(run[0]);
    }
  }

  lemma EmptyHolds(s: Sys)
    requires s.rows == Rows(map[], map[]) && s.authorized == {}
    ensures Inv(s)
  {
    assert forall c :: Waiting(map[], c, s.now) == {};
  }

  // ---- authority --------------------------------------------------------------------------------------------------

  ghost predicate HasAdmin(rows: Rows, client: nat) {
    exists m :: IsAdmin(rows, m, client)
  }

  /** Whoever takes an administrator away is one who stays. */
  lemma StepKeepsAnAdmin(s: Sys, emails: map<nat, string>, step: Step, client: nat)
    requires Inv(s) && Possible(s, step) && HasAdmin(s.rows, client)
    ensures HasAdmin(After(s, emails, step).rows, client)
  {
    hide HasMember, Waiting, FewWait, OneAccount, InvitersLead, OneWaitingEach;
    var u := After(s, emails, step);
    var m :| IsAdmin(s.rows, m, client);
    if step.SetRole? || step.Remove? {
      assert IsAdmin(s.rows, step.a.member, step.a.client) <==> StillAdmin(s.rows, step.a);
      var keeper := if m == step.target then step.a.member else m;
      assert StillAdmin(s.rows, step.a) ==> s.rows.members[step.a.member].client == step.a.client;
      assert u.rows != s.rows && m == step.target ==> step.a.client == client;
      if u.rows != s.rows { assert IsAdmin(u.rows, keeper, client); }
    } else {
      assert IsAdmin(u.rows, m, client);
    }
  }

  /** A client that has an administrator always keeps one, whoever acts at the same time. */
  lemma {:induction false} AlwaysAnAdmin(run: seq<Sys>, emails: map<nat, string>, steps: seq<Step>, j: nat, k: nat,
                                         client: nat)
    requires Run(run, emails, steps) && j <= k < |run| && HasAdmin(run[j].rows, client)
    ensures HasAdmin(run[k].rows, client)
    decreases k
  {
    hide Inv, Possible, After, HasAdmin;
    if j < k {
      AlwaysAnAdmin(run, emails, steps, j, k - 1, client);
      RunsKeep(run, emails, steps, k - 1);
      assert Goes(run[k - 1], emails, steps[k - 1], run[k]);
      StepKeepsAnAdmin(run[k - 1], emails, steps[k - 1], client);
    }
  }

  /** Whoever joins gets what the invitation says, from someone who is an administrator at that moment. */
  lemma JoinsByAuthority(run: seq<Sys>, emails: map<nat, string>, steps: seq<Step>, k: nat) returns (member: nat)
    requires Run(run, emails, steps) && k < |steps| && steps[k].AcceptInvite? && run[k + 1].rows != run[k].rows
    ensures var step, rows, after := steps[k], run[k].rows, run[k + 1].rows;
            && step.id in rows.invites && rows.invites[step.id].email == step.address
            && rows.invites[step.id].expiresAt > run[k].now
            && IsAdmin(rows, rows.invites[step.id].invitedBy, rows.invites[step.id].client)
            && member in after.members && after.members[member].active
            && after.members[member].user == step.user && after.members[member].client == rows.invites[step.id].client
            && TeamRoleOf(after.members[member].role, after.members[member].canAcceptQuotes)
              == (if rows.invites[step.id].role.ADMIN? then Administrator else Operator)
            && after.invites[step.id].status.Accepted?
  {
    hide Inv;
    RunsKeep(run, emails, steps, k);
    assert InvitersLead(run[k].rows) by { InvParts(run[k]); }
    assert Goes(run[k], emails, steps[k], run[k + 1]);
    member := if steps[k].existing.Some? then steps[k].existing.value else steps[k].member;
  }

  /** The invitations waiting at a client, but for those to one email. */
  ghost function WaitingForOthers(s: Sys, client: nat, email: string): set<nat> {
    set i | i in s.rows.invites && s.rows.invites[i].client == client && s.rows.invites[i].status.Pending?
            && s.rows.invites[i].expiresAt > s.now && s.rows.invites[i].email != email
  }

  ghost predicate OnTeam(s: Sys, emails: map<nat, string>, client: nat, email: string) {
    exists m :: m in s.rows.members && s.rows.members[m].client == client && s.rows.members[m].active
                && s.rows.members[m].user in emails && emails[s.rows.members[m].user] == email
  }

  /** Another member of the acting administrator's own client, while they are one. */
  ghost predicate MayManage(s: Sys, a: Admin, target: nat) {
    && IsAdmin(s.rows, a.member, a.client) && target != a.member
    && target in s.rows.members && s.rows.members[target].client == a.client
  }

  /** When a handler goes through. */
  ghost predicate Allowed(s: Sys, emails: map<nat, string>, step: Step) {
    match step
    case Tick(_) => true
    case OpenAccount(_, _, _) => true
    case Authorize(_) => true
    case InviteMember(a, email, _, _) =>
      && IsAdmin(s.rows, a.member, a.client) && email.Some? && !OnTeam(s, emails, a.client, email.value)
      && |WaitingForOthers(s, a.client, email.value)| < 20
    case RevokeInvite(a, id) =>
      && IsAdmin(s.rows, a.member, a.client) && id in s.rows.invites && s.rows.invites[id].client == a.client
      && s.rows.invites[id].status.Pending?
    case AcceptInvite(_, address, id, clientActive, existing, _) =>
      && id in s.rows.invites && s.rows.invites[id].email == address && s.rows.invites[id].status.Pending?
      && s.now < s.rows.invites[id].expiresAt && clientActive
      && (existing.Some? ==> existing.value in s.rows.members && !s.rows.members[existing.value].active
                             && s.rows.members[existing.value].client == s.rows.invites[id].client)
    case SetRole(a, target, _) => MayManage(s, a, target) && s.rows.members[target].active
    case Remove(a, target) => MayManage(s, a, target)
  }

  /** Exactly when each handler goes through, in any state that a run reaches. */
  lemma AllowedExactly(s: Sys, emails: map<nat, string>, step: Step)
    requires Inv(s) && Possible(s, step)
    ensures Handled(s, emails, step).Done? <==> Allowed(s, emails, step)
  {
    hide InvitersLead, OneWaitingEach, FewWait, OneAccount;
    if step.InviteMember? && step.email.Some? {
      var left := Withdrawn(s.rows.invites,
                            (i: Invite) => i.client == step.a.client && i.email == step.email.value);
      assert Waiting(left, step.a.client, s.now) == WaitingForOthers(s, step.a.client, step.email.value);
    }
  }

  /** The membership a step gives someone, if it gives one. */
  ghost function Joined(s: Sys, step: Step): map<nat, Member>
    requires Possible(s, step)
  {
    match step
    case OpenAccount(client, user, member) => map[member := Member(client, user, ClientAdmin, true, true)]
    case AcceptInvite(user, _, id, _, existing, member) =>
      if id !in s.rows.invites then map[]
      else
        var i := s.rows.invites[id];
        map[(if existing.Some? then existing.value else member) :=
              Member(i.client, user, if i.role.ADMIN? then ClientAdmin else ClientTrader, true, true)]
    case SetRole(_, target, role) =>
      if target !in s.rows.members then map[]
      else
        var m := s.rows.members[target];
        map[target := Member(m.client, m.user, if role.ADMIN? then ClientAdmin else ClientTrader, true, true)]
    case Remove(_, target) =>
      if target !in s.rows.members then map[]
      else
        var m := s.rows.members[target];
        map[target := if m.active then Member(m.client, m.user, m.role, false, false) else m]
    case _ => map[]
  }

  /** Whether a step takes a waiting invitation back. */
  ghost predicate TakesBack(s: Sys, step: Step, i: Invite) {
    match step
    case InviteMember(a, email, _, _) => email.Some? && i.client == a.client && i.email == email.value
    case SetRole(_, target, role) =>
      role.OPERATOR? && i.invitedBy == target && target in s.rows.members && s.rows.members[target].role.ClientAdmin?
    case Remove(_, target) => i.invitedBy == target && target in s.rows.members && s.rows.members[target].active
    case _ => false
  }

  /** What becomes of an invitation in a step that goes through. */
  ghost function InviteAfter(s: Sys, step: Step, id: nat): Invite
    requires id in s.rows.invites
  {
    var i := s.rows.invites[id];
    if step.RevokeInvite? && step.id == id then i.(status := Revoked)
    else if step.AcceptInvite? && step.id == id then i.(status := Accepted)
    else if i.status.Pending? && TakesBack(s, step, i) then i.(status := Revoked)
    else i
  }

  /**
   * What each step of a run changes: nothing when it does not go through; else one membership, the invitations that it
   * takes back or settles, and the one it makes, which waits for seven days.
   */
  lemma StepMeans(run: seq<Sys>, emails: map<nat, string>, steps: seq<Step>, k: nat)
    requires Run(run, emails, steps) && k < |steps| && Possible(run[k], steps[k])
    ensures !Allowed(run[k], emails, steps[k]) ==> run[k + 1].rows == run[k].rows
    ensures Allowed(run[k], emails, steps[k]) ==>
              && run[k + 1].rows.members == run[k].rows.members + Joined(run[k], steps[k])
              && (forall id :: id in run[k].rows.invites ==>
                    id in run[k + 1].rows.invites
                    && run[k + 1].rows.invites[id] == InviteAfter(run[k], steps[k], id))
              && (forall id :: id in run[k + 1].rows.invites && id !in run[k].rows.invites ==>
                    steps[k].InviteMember? && id == steps[k].id)
              && (steps[k].InviteMember? ==>
                    && steps[k].id in run[k + 1].rows.invites
                    && run[k + 1].rows.invites[steps[k].id]
                    == Invite(steps[k].a.client, steps[k].email.value, steps[k].role, steps[k].a.member,
                              run[k].now + 604800, Pending))
  {
    hide Inv, Allowed, Handled, HasMember, Waiting;
    RunsKeep(run, emails, steps, k);
    assert Goes(run[k], emails, steps[k], run[k + 1]);
    AllowedExactly(run[k], emails, steps[k]);
    if Allowed(run[k], emails, steps[k]) { EffectIs(run[k], emails, steps[k]); }
  }

  lemma EffectIs(s: Sys, emails: map<nat, string>, step: Step)
    requires Possible(s, step) && Allowed(s, emails, step) && Handled(s, emails, step).Done?
    ensures var rows := Handled(s, emails, step).rows;
            && rows.members == s.rows.members + Joined(s, step)
            && (forall id :: id in s.rows.invites ==>
                  id in rows.invites && rows.invites[id] == InviteAfter(s, step, id))
            && (forall id :: id in rows.invites && id !in s.rows.invites ==> step.InviteMember? && id == step.id)
            && (step.InviteMember? ==>
                  && step.email.Some? && step.id in rows.invites
                  && rows.invites[step.id]
                  == Invite(step.a.client, step.email.value, step.role, step.a.member, s.now + 604800, Pending))
  {
    hide HasMember, Waiting, OnTeam;
  }

  /** Whoever is off the team stays off it, whatever else goes on, until they accept an invitation. */
  lemma {:induction false} RemovedStaysOut(run: seq<Sys>, emails: map<nat, string>, steps: seq<Step>, j: nat, k: nat,
                                           m: nat)
    requires Run(run, emails, steps) && j <= k < |run|
    requires m in run[j].rows.members && !run[j].rows.members[m].active
    requires forall i :: j <= i < k && steps[i].AcceptInvite? ==> steps[i].existing != Some(m)
    ensures m in run[k].rows.members && !run[k].rows.members[m].active
    ensures forall id :: id in run[k].rows.invites && run[k].rows.invites[id].invitedBy == m ==>
              !run[k].rows.invites[id].status.Pending?
    decreases k
  {
    hide Allowed, Possible, Joined, InviteAfter;
    RunsKeep(run, emails, steps, k);
    assert InvitersLead(run[k].rows) by { InvParts(run[k]); }
    if j < k {
      RemovedStaysOut(run, emails, steps, j, k - 1, m);
      assert Goes(run[k - 1], emails, steps[k - 1], run[k]);
      StepMeans(run, emails, steps, k - 1);
      if Allowed(run[k - 1], emails, steps[k - 1]) { StaysOut(run[k - 1], emails, steps[k - 1], m); }
    }
  }

  lemma StaysOut(s: Sys, emails: map<nat, string>, step: Step, m: nat)
    requires Possible(s, step) && Allowed(s, emails, step) && m in s.rows.members && !s.rows.members[m].active
    requires step.AcceptInvite? ==> step.existing != Some(m)
    ensures m in Joined(s, step) ==> !Joined(s, step)[m].active
  {
    hide OnTeam, WaitingForOthers;
  }

  /** An invitation that waits no longer stays as it is: none is accepted twice, or after it was withdrawn. */
  lemma {:induction false} SettledForGood(run: seq<Sys>, emails: map<nat, string>, steps: seq<Step>, j: nat, k: nat,
                                          id: nat)
    requires Run(run, emails, steps) && j <= k < |run|
    requires id in run[j].rows.invites && !run[j].rows.invites[id].status.Pending?
    ensures id in run[k].rows.invites && run[k].rows.invites[id] == run[j].rows.invites[id]
    decreases k
  {
    hide Allowed, Possible, Joined, InviteAfter;
    if j < k {
      SettledForGood(run, emails, steps, j, k - 1, id);
      assert Goes(run[k - 1], emails, steps[k - 1], run[k]);
      StepMeans(run, emails, steps, k - 1);
      if Allowed(run[k - 1], emails, steps[k - 1]) { StaysSettled(run[k - 1], emails, steps[k - 1], id); }
    }
  }

  lemma StaysSettled(s: Sys, emails: map<nat, string>, step: Step, id: nat)
    requires Allowed(s, emails, step) && id in s.rows.invites && !s.rows.invites[id].status.Pending?
    ensures InviteAfter(s, step, id) == s.rows.invites[id]
  {
    hide OnTeam, WaitingForOthers, TakesBack;
  }

  lemma InvParts(s: Sys)
    requires Inv(s)
    ensures InvitersLead(s.rows)
  {
  }

  // ---- the handlers, statement by statement ------------------------------------------------------------------------

  class Tables {
    var members: map<nat, Member>
    var invites: map<nat, Invite>

    function Value(): Rows
      reads this
    {
      Rows(members, invites)
    }

    /** A refusal rolls back whatever the handler had written. */
    method InviteTeamMember(now: int, emails: map<nat, string>, a: Admin, email: Option<string>, role: TeamRole,
                            id: nat) returns (refused: Option<Refusal>)
      modifies this
      ensures var reply := Inviting(old(Value()), now, emails, a, email, role, id);
              && refused == (if reply.Done? then None else Some(reply.reason))
              && Value() == (if reply.Done? then reply.rows else old(Value()))
    {
      if !StillAdmin(Value(), a) { return Some(NoLongerAdmin); }
      if email.None? { return Some(InvalidArgument); }
      if HasMember(Value(), emails, a.client, email.value) { return Some(AlreadyMember); }
      var before := invites;
      invites := Withdrawn(invites, (i: Invite) => i.client == a.client && i.email == email.value);
      if |Waiting(invites, a.client, now)| >= MAX_PENDING {
        invites := before;
        return Some(RateLimited);
      }
      invites := invites[id := Invite(a.client, email.value, role, a.member, now + VALID_SECONDS, Pending)];
      refused := None;
    }

    method RevokeTeamInvite(a: Admin, id: nat) returns (refused: Option<Refusal>)
      modifies this
      ensures var reply := Revoking(old(Value()), a, id);
              && refused == (if reply.Done? then None else Some(reply.reason))
              && Value() == (if reply.Done? then reply.rows else old(Value()))
    {
      if !StillAdmin(Value(), a) { return Some(NoLongerAdmin); }
      if id !in invites || invites[id].client != a.client { return Some(NotFound); }
      if !invites[id].status.Pending? { return Some(InviteUnavailable); }
      invites := invites[id := invites[id].(status := Revoked)];
      refused := None;
    }

    method SetTeamMemberRole(a: Admin, target: nat, role: TeamRole) returns (refused: Option<Refusal>)
      modifies this
      ensures var reply := SettingRole(old(Value()), a, target, role);
              && refused == (if reply.Done? then None else Some(reply.reason))
              && Value() == (if reply.Done? then reply.rows else old(Value()))
    {
      if !StillAdmin(Value(), a) { return Some(NoLongerAdmin); }
      if target !in members || members[target].client != a.client { return Some(NotFound); }
      if target == a.member { return Some(SelfChange); }
      var m := members[target];
      if !m.active { return Some(InvalidTransition); }
      if m.role == RoleOf(role) && m.canAcceptQuotes { return None; }
      members := members[target := Granted(m, role)];
      if m.role.ClientAdmin? && !RoleOf(role).ClientAdmin? { invites := WithdrawnBy(invites, target); }
      refused := None;
    }

    method RemoveTeamMember(a: Admin, target: nat) returns (refused: Option<Refusal>)
      modifies this
      ensures var reply := Removing(old(Value()), a, target);
              && refused == (if reply.Done? then None else Some(reply.reason))
              && Value() == (if reply.Done? then reply.rows else old(Value()))
    {
      if !StillAdmin(Value(), a) { return Some(NoLongerAdmin); }
      if target !in members || members[target].client != a.client { return Some(NotFound); }
      if target == a.member { return Some(SelfChange); }
      if !members[target].active { return None; }
      members := members[target := members[target].(active := false, canAcceptQuotes := false)];
      invites := WithdrawnBy(invites, target);
      refused := None;
    }

    method AcceptTeamInvite(now: int, user: nat, email: string, id: nat, clientActive: bool, existing: Option<nat>,
                            fresh': nat) returns (refused: Option<Refusal>)
      requires existing.Some? ==> existing.value in members
      modifies this
      ensures var reply := Accepting(old(Value()), now, user, email, id, clientActive, existing, fresh');
              && refused == (if reply.Done? then None else Some(reply.reason))
              && Value() == (if reply.Done? then reply.rows else old(Value()))
    {
      if id !in invites || invites[id].email != email { return Some(NotFound); }
      var i := invites[id];
      if !i.status.Pending? || i.expiresAt <= now { return Some(InviteUnavailable); }
      if !clientActive { return Some(ClientNotActive); }
      if existing.None? {
        members := members[fresh' := Member(i.client, user, RoleOf(i.role), true, true)];
      } else if members[existing.value].client != i.client {
        return Some(AccountExists);
      } else if members[existing.value].active {
        return Some(AlreadyMember);
      } else {
        members := members[existing.value :=
                           members[existing.value].(active := true, role := RoleOf(i.role), canAcceptQuotes := true)];
      }
      invites := invites[id := i.(status := Accepted)];
      refused := None;
    }
  }
}
