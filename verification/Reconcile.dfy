/**
 Keeping the views of the user list in agreement: the controller's own list, the limiter's tables and
 the core's table of user ids, which all nodes share.
 */
module Reconcile {
  import opened Wrappers
  import opened Users
  import opened Limiter
  import opened LimiterRuns

  /** A node: the list its controller holds, and its limiter. */
  datatype Node = Node(users: seq<UserInfo>, lim: State)

  /** All nodes by tag, and the core's table of user ids by tag and uuid. */
  datatype System = System(nodes: map<string, Node>, uidMap: map<string, int>)

  datatype SysEvent =
    | Boot(tag: string, nodeLimit: int, users: seq<UserInfo>, alive: map<int, int>)
    | Tick(tag: string, newUsers: seq<UserInfo>, newAlive: Option<map<int, int>>,
           deleted: seq<UserInfo>, added: seq<UserInfo>)
    | Use(tag: string, use: Event)

  // ----- The core's table

  function AddToUidMap(m: map<string, int>, tag: string, users: seq<UserInfo>): map<string, int> {
    if users == [] then m
    else
      var k := |users| - 1;
      AddToUidMap(m, tag, users[..k])[UserTag(tag, users[k].Uuid) := users[k].Id]
  }

  datatype CoreError = RemoveFailed | AddFailed

  /** A deletion that stopped at the user at `k`, the first one the library refused to remove: the users
      before it are gone from the table. */
  predicate StoppedAt(m: map<string, int>, m': map<string, int>, tag: string, users: seq<UserInfo>,
                      refuses: string -> bool, k: nat) {
    && k < |users| && refuses(UserTag(tag, users[k].Uuid))
    && (forall i :: 0 <= i < k ==> !refuses(UserTag(tag, users[i].Uuid)))
    && m' == m - Emails(tag, users[..k])
  }

  predicate AllRemovable(tag: string, users: seq<UserInfo>, refuses: string -> bool) {
    forall u :: u in users ==> !refuses(UserTag(tag, u.Uuid))
  }

  /** The part of the xray core that user changes touch. `refuses` says for which users the library's
      user manager returns an error. */
  class XrayUsers {
    var uidMap: map<string, int>

    constructor ()
      ensures uidMap == map[]
    {
      uidMap := map[];
    }

    /** Stops at the first user the library refuses to remove. */
    method DelUsers(users: seq<UserInfo>, tag: string, refuses: string -> bool) returns (r: Result<(), CoreError>)
      modifies this
      ensures r.Ok? <==> AllRemovable(tag, users, refuses)
      ensures r.Ok? ==> uidMap == old(uidMap) - Emails(tag, users)
      ensures r.Err? ==> exists k :: StoppedAt(old(uidMap), uidMap, tag, users, refuses, k)
    {
      assert Emails(tag, users[..0]) == {};
      for i := 0 to |users|
        invariant uidMap == old(uidMap) - Emails(tag, users[..i])
        invariant forall j :: 0 <= j < i ==> !refuses(UserTag(tag, users[j].Uuid))
      {
        var user := UserTag(tag, users[i].Uuid);
        EmailsSnoc(tag, users, i);
        if refuses(user) {
          assert StoppedAt(old(uidMap), uidMap, tag, users, refuses, i) && users[i] in users;
          return Err(RemoveFailed);
        }
        uidMap := uidMap - {user};
      }
      assert users[..|users|] == users;
      return Ok(());
    }

    /** Records all ids first, whatever the library then does. */
    method AddUsers(tag: string, users: seq<UserInfo>, refused: bool) returns (r: Result<int, CoreError>)
      modifies this
      ensures uidMap == AddToUidMap(old(uidMap), tag, users)
      ensures r == if refused then Err(AddFailed) else Ok(|users|)
    {
      for i := 0 to |users|
        invariant uidMap == AddToUidMap(old(uidMap), tag, users[..i])
      {
        assert users[..i + 1][..i] == users[..i];
        uidMap := uidMap[UserTag(tag, users[i].Uuid) := users[i].Id];
      }
      assert users[..|users|] == users;
      if refused {
        return Err(AddFailed);
      }
      return Ok(|users|);
    }
  }

  // ----- One tick

  /** A user-only tick of one node whose core calls succeed. */
  function TickNode(tag: string, node: Node, newUsers: seq<UserInfo>, newAlive: Option<map<int, int>>,
                    deleted: seq<UserInfo>, added: seq<UserInfo>): Node {
    var lim := if newAlive.Some? then node.lim.(alive := newAlive.value) else node.lim;
    if newUsers == [] then Node(node.users, lim)
    else Node(newUsers, Updated(lim, tag, added, deleted))
  }

  function TickUids(m: map<string, int>, tag: string, newUsers: seq<UserInfo>,
                    deleted: seq<UserInfo>, added: seq<UserInfo>): map<string, int> {
    if newUsers == [] then m else AddToUidMap(m - Emails(tag, deleted), tag, added)
  }

  /** What a tick leaves in the core's table when a core call fails: either the deletion stopped at the first
      user that was refused, or all deleted users are gone and all added ones are recorded, although the
      library did not take them. */
  ghost predicate IsCutShort(m: map<string, int>, m': map<string, int>, tag: string, deleted: seq<UserInfo>,
                             added: seq<UserInfo>, refuses: string -> bool) {
    if AllRemovable(tag, deleted, refuses)
    then added != [] && m' == AddToUidMap(m - Emails(tag, deleted), tag, added)
    else exists k :: StoppedAt(m, m', tag, deleted, refuses, k)
  }

  datatype StartError = NoUsers | AddUsersFailed

  class Controller {
    var tag: string
    var userList: seq<UserInfo>
    var limiter: Limiter?
    const server: XrayUsers

    ghost function View(): Node
      requires limiter != null
      reads this, limiter
    {
      Node(userList, limiter.View())
    }

    constructor (server: XrayUsers)
      ensures this.server == server && userList == [] && limiter == null
    {
      this.server, tag, userList, limiter := server, "", [], null;
    }

    /** A start with what the panel sent. A node without users is not started; when the library does not
        take the users the start fails too, but list, limiter and table hold them. */
    method Start(tag: string, nodeLimit: int, users: seq<UserInfo>, alive: map<int, int>, refused: bool)
      returns (r: Result<(), StartError>)
      modifies this, server
      ensures r == if users == [] then Err(NoUsers) else if refused then Err(AddUsersFailed) else Ok(())
      ensures users == [] ==> limiter == old(limiter) && server.uidMap == old(server.uidMap) && userList == []
      ensures users != [] ==>
        && this.tag == tag && limiter != null && fresh(limiter)
        && View() == Node(users, Initial(tag, nodeLimit, users, alive))
        && server.uidMap == AddToUidMap(old(server.uidMap), tag, users)
    {
      userList := users;
      if |users| == 0 {
        return Err(NoUsers);
      }
      this.tag := tag;
      limiter := new Limiter.AddLimiter(tag, nodeLimit, users, alive);
      var added := server.AddUsers(tag, users, refused);
      return if added.Err? then Err(AddUsersFailed) else Ok(());
    }

    /** The core part of a tick: delete first, then add. */
    method ChangeCore(deleted: seq<UserInfo>, added: seq<UserInfo>, refuses: string -> bool, refused: bool)
      returns (done: bool)
      modifies server
      ensures done <==> AllRemovable(tag, deleted, refuses) && (added == [] || !refused)
      ensures done ==> server.uidMap == AddToUidMap(old(server.uidMap) - Emails(tag, deleted), tag, added)
      ensures !done ==> IsCutShort(old(server.uidMap), server.uidMap, tag, deleted, added, refuses)
    {
      if |deleted| > 0 {
        var r := server.DelUsers(deleted, tag, refuses);
        if r.Err? {
          return false;
        }
      }
      assert server.uidMap == old(server.uidMap) - Emails(tag, deleted);
      if |added| > 0 {
        var r := server.AddUsers(tag, added, refused);
        return r.Ok?;
      }
      return true;
    }

    /** A user-only tick. When a core call fails the tick ends there, with the list and the limiter's
        tables as they were. */
    method NodeInfoMonitor(newU: seq<UserInfo>, newA: Option<map<int, int>>, refuses: string -> bool, refused: bool)
      returns (deleted: seq<UserInfo>, added: seq<UserInfo>, done: bool)
      requires limiter != null
      modifies this, limiter, server
      ensures limiter == old(limiter) && tag == old(tag)
      ensures newU != [] ==> IsDiff(old(userList), newU, deleted, added)
      ensures done <==> newU == [] || (AllRemovable(tag, deleted, refuses) && (added == [] || !refused))
      ensures done ==> View() == TickNode(tag, old(View()), newU, newA, deleted, added)
      ensures done ==> server.uidMap == TickUids(old(server.uidMap), tag, newU, deleted, added)
      ensures !done ==> View() == TickNode(tag, old(View()), [], newA, [], [])
      ensures !done ==> IsCutShort(old(server.uidMap), server.uidMap, tag, deleted, added, refuses)
    {
      if newA.Some? {
        limiter.AliveList := newA.value;
      }
      if |newU| == 0 {
        return [], [], true;
      }
      deleted, added := CompareUserList(userList, newU);
      done := ChangeCore(deleted, added, refuses, refused);
      if !done {
        return;
      }
      UpdateNothing(limiter.View(), tag);
      if |added| > 0 || |deleted| > 0 {
        limiter.UpdateUser(tag, added, deleted);
      }
      userList := newU;
    }
  }

  lemma UpdateNothing(st: State, tag: string)
    ensures Updated(st, tag, [], []) == st
  {
  }

  // ----- Runs of all nodes

  ghost predicate SysNext(s: System, e: SysEvent, s': System) {
    match e
    case Boot(tag, nodeLimit, users, alive) =>
      && tag !in s.nodes && users != []
      && s' == System(s.nodes[tag := Node(users, Initial(tag, nodeLimit, users, alive))],
                      AddToUidMap(s.uidMap, tag, users))
    case Tick(tag, newUsers, newAlive, deleted, added) =>
      && tag in s.nodes
      && (newUsers != [] ==> IsDiff(s.nodes[tag].users, newUsers, deleted, added))
      && s' == System(s.nodes[tag := TickNode(tag, s.nodes[tag], newUsers, newAlive, deleted, added)],
                      TickUids(s.uidMap, tag, newUsers, deleted, added))
    case Use(tag, use) =>
      && tag in s.nodes && tag in s'.nodes && (use.Check? || use.Collect?)
      && Next(s.nodes[tag].lim, use, s'.nodes[tag].lim)
      && s' == s.(nodes := s.nodes[tag := s.nodes[tag].(lim := s'.nodes[tag].lim)])
  }

  ghost predicate IsSysRun(n: nat, states: seq<System>, events: seq<SysEvent>) {
    && |states| == |events| + 1
    && states[0] == System(map[], map[])
    && forall i :: 0 <= i < |events| ==> SysNext(states[i], events[i], states[i + 1]) && SendsListed(n, events[i])
  }

  /** The panel sends distinct uuids of one length without the tag separator. */
  predicate SendsListed(n: nat, e: SysEvent) {
    match e
    case Boot(_, _, users, _) => Listed(n, users)
    case Tick(_, newUsers, _, _, _) => Listed(n, newUsers)
    case Use(_, _) => true
  }

  /** The three tables agree on one user of the list. */
  predicate UserAgrees(tag: string, u: UserInfo, lim: State, uidMap: map<string, int>) {
    var email := UserTag(tag, u.Uuid);
    && u.Uuid in lim.uids && email in lim.info && email in uidMap
    && lim.info[email].SpeedLimit == u.SpeedLimit
    && lim.info[email].UID == lim.uids[u.Uuid] == uidMap[email]
  }

  /** All tables of one node hold exactly the users of its list. */
  ghost predicate NodeAgrees(n: nat, tag: string, node: Node, uidMap: map<string, int>) {
    && Listed(n, node.users)
    && node.lim.uids.Keys == Uuids(node.users)
    && node.lim.info.Keys == Emails(tag, node.users)
    && (forall u :: u in node.users ==> UserAgrees(tag, u, node.lim, uidMap))
    && (forall uuid :: '|' !in uuid && UserTag(tag, uuid) in uidMap ==> uuid in Uuids(node.users))
    && Coherent(node.lim)
  }

  /** Every entry of the core's table belongs to a node. */
  ghost predicate Owned(s: System) {
    forall e :: e in s.uidMap ==> exists tag, uuid :: tag in s.nodes && '|' !in uuid && e == UserTag(tag, uuid)
  }

  ghost predicate Agrees(n: nat, s: System) {
    Owned(s) && forall tag :: tag in s.nodes ==> NodeAgrees(n, tag, s.nodes[tag], s.uidMap)
  }

  // ----- What the diff does to the sets of uuids

  lemma SameTag(tag: string, a: string, b: string)
    requires UserTag(tag, a) == UserTag(tag, b)
    ensures a == b
  {
    assert a == UserTag(tag, a)[|tag| + 1..] && b == UserTag(tag, b)[|tag| + 1..];
  }

  lemma EmailIff(tag: string, users: seq<UserInfo>, uuid: string)
    ensures UserTag(tag, uuid) in Emails(tag, users) <==> uuid in Uuids(users)
  {
    if UserTag(tag, uuid) in Emails(tag, users) {
      var u :| u in users && UserTag(tag, u.Uuid) == UserTag(tag, uuid);
      SameTag(tag, u.Uuid, uuid);
    }
  }

  lemma ListedInit(n: nat, users: seq<UserInfo>)
    requires Listed(n, users) && users != []
    ensures var k := |users| - 1;
      Listed(n, users[..k]) && users == users[..k] + [users[k]] && users[k].Uuid !in Uuids(users[..k])
  {
    var k := |users| - 1;
    assert users == users[..k] + [users[k]];
  }

  lemma ListedAppend(n: nat, users: seq<UserInfo>, u: UserInfo)
    requires Listed(n, users) && |u.Uuid| == n && '|' !in u.Uuid
    requires forall v :: v in users ==> v.Uuid != u.Uuid
    ensures Listed(n, users + [u])
  {
  }

  lemma {:induction false} AddedListed(n: nat, prev: seq<UserInfo>, next: seq<UserInfo>)
    requires Listed(n, next)
    ensures Listed(n, AddedOf(prev, next)) && forall u :: u in AddedOf(prev, next) ==> u in next
  {
    if next != [] {
      var k := |next| - 1;
      ListedInit(n, next);
      AddedListed(n, prev, next[..k]);
      ListedAppend(n, AddedOf(prev, next[..k]), next[k]);
    }
  }

  lemma DiffUuids(n: nat, prev: seq<UserInfo>, next: seq<UserInfo>, deleted: seq<UserInfo>, added: seq<UserInfo>)
    requires Listed(n, prev) && Listed(n, next) && IsDiff(prev, next, deleted, added)
    ensures Listed(n, added)
    ensures (Uuids(prev) - Uuids(deleted)) + Uuids(added) == Uuids(next)
    ensures Uuids(added) * Uuids(prev) <= Uuids(deleted)
    ensures forall u :: u in next && u !in added ==>
      u.Uuid !in Uuids(deleted) && u.Uuid !in Uuids(added) && HasSpeed(prev, u.Uuid, u.SpeedLimit)
  {
    DiffExact(n, prev, next, deleted, added);
    AddedListed(n, prev, next);
    ListedUnique(n, prev);
    ListedUnique(n, next);
  }

  // ----- What adding does to the tables

  lemma {:induction false} AddUidsAt(n: nat, m: map<string, int>, users: seq<UserInfo>)
    requires Listed(n, users)
    ensures AddUids(m, users).Keys == m.Keys + Uuids(users)
    ensures forall x :: x in m && x !in Uuids(users) ==> AddUids(m, users)[x] == m[x]
    ensures forall u :: u in users ==> AddUids(m, users)[u.Uuid] == u.Id
  {
    if users != [] {
      var k := |users| - 1;
      ListedInit(n, users);
      AddUidsAt(n, m, users[..k]);
    }
  }

  lemma {:induction false} AddToUidMapAt(n: nat, m: map<string, int>, tag: string, users: seq<UserInfo>)
    requires Listed(n, users)
    ensures AddToUidMap(m, tag, users).Keys == m.Keys + Emails(tag, users)
    ensures forall e :: e in m && e !in Emails(tag, users) ==> AddToUidMap(m, tag, users)[e] == m[e]
    ensures forall u :: u in users ==> AddToUidMap(m, tag, users)[UserTag(tag, u.Uuid)] == u.Id
  {
    if users != [] {
      var k := |users| - 1;
      ListedInit(n, users);
      AddToUidMapAt(n, m, tag, users[..k]);
      EmailIff(tag, users[..k], users[k].Uuid);
    }
  }

  lemma AddRecordsAt(n: nat, m: map<string, UserLimitInfo>, tag: string, users: seq<UserInfo>, u: UserInfo)
    requires Listed(n, users) && u in users
    ensures AddRecords(m, tag, users).Keys == m.Keys + Emails(tag, users)
    ensures AddRecords(m, tag, users)[UserTag(tag, u.Uuid)] == Recorded(u)
  {
    AddRecordsOnly(m, tag, users);
    var e := UserTag(tag, u.Uuid);
    assert e in Emails(tag, users);
    var v :| v in users && UserTag(tag, v.Uuid) == e && AddRecords(m, tag, users)[e] == Recorded(v);
    SameTag(tag, v.Uuid, u.Uuid);
    ListedUnique(n, users);
  }

  /** A user that is added agrees afterwards in all tables. */
  lemma AddedAgrees(n: nat, st: State, tag: string, added: seq<UserInfo>, deleted: seq<UserInfo>,
                    m: map<string, int>, u: UserInfo)
    requires Listed(n, added) && u in added
    ensures UserAgrees(tag, u, Updated(st, tag, added, deleted), AddToUidMap(m, tag, added))
  {
    var st1 := Removed(st, tag, deleted);
    AddRecordsAt(n, st1.info, tag, added, u);
    AddUidsAt(n, st1.uids, added);
    AddToUidMapAt(n, m, tag, added);
  }

  /** A user the diff does not touch goes on agreeing. */
  lemma KeptAgrees(n: nat, st: State, tag: string, added: seq<UserInfo>, deleted: seq<UserInfo>,
                   m: map<string, int>, u: UserInfo)
    requires Listed(n, added) && u.Uuid !in Uuids(added) && u.Uuid !in Uuids(deleted)
    requires UserAgrees(tag, u, st, m)
    ensures UserAgrees(tag, u, Updated(st, tag, added, deleted), AddToUidMap(m - Emails(tag, deleted), tag, added))
  {
    var st1 := Removed(st, tag, deleted);
    EmailIff(tag, added, u.Uuid);
    EmailIff(tag, deleted, u.Uuid);
    AddRecordsOnly(st1.info, tag, added);
    AddUidsAt(n, st1.uids, added);
    AddToUidMapAt(n, m - Emails(tag, deleted), tag, added);
  }

  lemma TickUsersAgree(n: nat, tag: string, node: Node, m: map<string, int>, newUsers: seq<UserInfo>,
                       deleted: seq<UserInfo>, added: seq<UserInfo>)
    requires NodeAgrees(n, tag, node, m) && Listed(n, newUsers)
    requires IsDiff(node.users, newUsers, deleted, added)
    ensures forall u :: u in newUsers ==>
      UserAgrees(tag, u, Updated(node.lim, tag, added, deleted), AddToUidMap(m - Emails(tag, deleted), tag, added))
  {
    DiffUuids(n, node.users, newUsers, deleted, added);
    forall u | u in newUsers
      ensures UserAgrees(tag, u, Updated(node.lim, tag, added, deleted), AddToUidMap(m - Emails(tag, deleted), tag, added))
    {
      if u in added {
        AddedAgrees(n, node.lim, tag, added, deleted, m - Emails(tag, deleted), u);
      } else {
        var p :| p in node.users && p.Uuid == u.Uuid && p.SpeedLimit == u.SpeedLimit;
        assert UserAgrees(tag, p, node.lim, m);
        KeptAgrees(n, node.lim, tag, added, deleted, m, u);
      }
    }
  }

  lemma EmailsOf(tag: string, a: seq<UserInfo>, b: seq<UserInfo>, c: seq<UserInfo>, d: seq<UserInfo>)
    requires (Uuids(a) - Uuids(b)) + Uuids(c) == Uuids(d)
    ensures (Emails(tag, a) - Emails(tag, b)) + Emails(tag, c) == Emails(tag, d)
  {
    forall e ensures e in (Emails(tag, a) - Emails(tag, b)) + Emails(tag, c) <==> e in Emails(tag, d) {
      forall uuid | e == UserTag(tag, uuid)
        ensures e in (Emails(tag, a) - Emails(tag, b)) + Emails(tag, c) <==> e in Emails(tag, d)
      {
        EmailIff(tag, a, uuid); EmailIff(tag, b, uuid); EmailIff(tag, c, uuid); EmailIff(tag, d, uuid);
      }
    }
  }

  lemma TickKeys(n: nat, tag: string, st: State, users: seq<UserInfo>, newUsers: seq<UserInfo>,
                 deleted: seq<UserInfo>, added: seq<UserInfo>)
    requires st.uids.Keys == Uuids(users) && st.info.Keys == Emails(tag, users)
    requires Listed(n, users) && Listed(n, newUsers) && IsDiff(users, newUsers, deleted, added)
    ensures Updated(st, tag, added, deleted).uids.Keys == Uuids(newUsers)
    ensures Updated(st, tag, added, deleted).info.Keys == Emails(tag, newUsers)
  {
    var st1 := Removed(st, tag, deleted);
    DiffUuids(n, users, newUsers, deleted, added);
    EmailsOf(tag, users, deleted, added, newUsers);
    AddRecordsOnly(st1.info, tag, added);
    AddUidsAt(n, st1.uids, added);
  }

  lemma TickUidMapOnly(n: nat, tag: string, m: map<string, int>, users: seq<UserInfo>, newUsers: seq<UserInfo>,
                       deleted: seq<UserInfo>, added: seq<UserInfo>, uuid: string)
    requires Listed(n, users) && Listed(n, newUsers) && IsDiff(users, newUsers, deleted, added)
    requires UserTag(tag, uuid) in m ==> uuid in Uuids(users)
    requires UserTag(tag, uuid) in AddToUidMap(m - Emails(tag, deleted), tag, added)
    ensures uuid in Uuids(newUsers)
  {
    DiffUuids(n, users, newUsers, deleted, added);
    AddToUidMapAt(n, m - Emails(tag, deleted), tag, added);
    EmailIff(tag, deleted, uuid);
    EmailIff(tag, added, uuid);
  }

  /** A tick keeps the tables of its node in agreement. */
  lemma TickAgrees(n: nat, tag: string, node: Node, m: map<string, int>, newUsers: seq<UserInfo>,
                   newAlive: Option<map<int, int>>, deleted: seq<UserInfo>, added: seq<UserInfo>)
    requires NodeAgrees(n, tag, node, m) && Listed(n, newUsers)
    requires newUsers != [] ==> IsDiff(node.users, newUsers, deleted, added)
    ensures NodeAgrees(n, tag, TickNode(tag, node, newUsers, newAlive, deleted, added),
                       TickUids(m, tag, newUsers, deleted, added))
  {
    var node1 := TickNode(tag, node, [], newAlive, [], []);
    AliveAgrees(n, tag, node, m, newAlive);
    if newUsers != [] {
      TickUsersAgree(n, tag, node1, m, newUsers, deleted, added);
      TickKeys(n, tag, node1.lim, node.users, newUsers, deleted, added);
      forall uuid | '|' !in uuid && UserTag(tag, uuid) in TickUids(m, tag, newUsers, deleted, added)
        ensures uuid in Uuids(newUsers)
      {
        TickUidMapOnly(n, tag, m, node.users, newUsers, deleted, added, uuid);
      }
      DiffDropsFirst(n, tag, node1, m, newUsers, deleted, added);
      UpdateCoherent(node1.lim, tag, added, deleted);
    }
  }

  lemma AliveAgrees(n: nat, tag: string, node: Node, m: map<string, int>, newAlive: Option<map<int, int>>)
    requires NodeAgrees(n, tag, node, m)
    ensures NodeAgrees(n, tag, TickNode(tag, node, [], newAlive, [], []), m)
  {
    if newAlive.Some? {
      AliveCoherent(node.lim, newAlive.value);
      var lim := node.lim.(alive := newAlive.value);
      forall u | u in node.users ensures UserAgrees(tag, u, lim, m) {
        assert UserAgrees(tag, u, node.lim, m);
      }
    }
  }

  lemma DiffDropsFirst(n: nat, tag: string, node: Node, m: map<string, int>, newUsers: seq<UserInfo>,
                       deleted: seq<UserInfo>, added: seq<UserInfo>)
    requires NodeAgrees(n, tag, node, m) && Listed(n, newUsers)
    requires IsDiff(node.users, newUsers, deleted, added)
    ensures DropsFirst(node.lim, tag, added, deleted)
  {
    DiffUuids(n, node.users, newUsers, deleted, added);
    forall u | u in added && UserTag(tag, u.Uuid) in node.lim.info
      ensures UserTag(tag, u.Uuid) in Emails(tag, deleted)
    {
      EmailIff(tag, node.users, u.Uuid);
      EmailIff(tag, deleted, u.Uuid);
    }
  }

  // ----- Agreement over every run

  /** A tick or a start on one node changes no entry of another one in the core's table. */
  lemma OtherTagsStay(n: nat, m: map<string, int>, tag: string, deleted: seq<UserInfo>, added: seq<UserInfo>,
                      other: string, uuid: string)
    requires (forall u :: u in deleted ==> '|' !in u.Uuid) && Listed(n, added)
    requires other != tag && '|' !in uuid
    ensures var m', e := AddToUidMap(m - Emails(tag, deleted), tag, added), UserTag(other, uuid);
      (e in m' <==> e in m) && (e in m ==> m'[e] == m[e])
  {
    var e := UserTag(other, uuid);
    NotInOther(tag, deleted, other, uuid);
    NotInOther(tag, added, other, uuid);
    AddToUidMapAt(n, m - Emails(tag, deleted), tag, added);
  }

  lemma NotInOther(tag: string, users: seq<UserInfo>, other: string, uuid: string)
    requires (forall u :: u in users ==> '|' !in u.Uuid) && other != tag && '|' !in uuid
    ensures UserTag(other, uuid) !in Emails(tag, users)
  {
    forall u | u in users ensures UserTag(tag, u.Uuid) != UserTag(other, uuid) {
      if UserTag(tag, u.Uuid) == UserTag(other, uuid) {
        UserTagInjective(tag, u.Uuid, other, uuid);
      }
    }
  }

  /** A node's agreement rests on the core's entries of its own users only. */
  lemma AgreesFrame(n: nat, tag: string, node: Node, m: map<string, int>, m': map<string, int>)
    requires NodeAgrees(n, tag, node, m)
    requires forall uuid :: '|' !in uuid ==> SameEntry(m, m', UserTag(tag, uuid))
    ensures NodeAgrees(n, tag, node, m')
  {
    forall u | u in node.users ensures UserAgrees(tag, u, node.lim, m') {
      assert UserAgrees(tag, u, node.lim, m);
      assert SameEntry(m, m', UserTag(tag, u.Uuid));
    }
    forall uuid | '|' !in uuid && UserTag(tag, uuid) in m' ensures uuid in Uuids(node.users) {
      assert SameEntry(m, m', UserTag(tag, uuid));
    }
  }

  predicate SameEntry(m: map<string, int>, m': map<string, int>, e: string) {
    (e in m' <==> e in m) && (e in m ==> m'[e] == m[e])
  }

  /** A freshly started node agrees. */
  lemma BootAgrees(n: nat, tag: string, nodeLimit: int, users: seq<UserInfo>, alive: map<int, int>, m: map<string, int>)
    requires Listed(n, users) && forall uuid :: '|' !in uuid ==> UserTag(tag, uuid) !in m
    ensures NodeAgrees(n, tag, Node(users, Initial(tag, nodeLimit, users, alive)), AddToUidMap(m, tag, users))
  {
    var lim, m' := Initial(tag, nodeLimit, users, alive), AddToUidMap(m, tag, users);
    InitialFits(n, tag, nodeLimit, users, alive);
    forall u | u in users ensures UserAgrees(tag, u, lim, m') {
      InitialAgrees(n, tag, nodeLimit, users, alive, m, u);
    }
    forall uuid | '|' !in uuid && UserTag(tag, uuid) in m' ensures uuid in Uuids(users) {
      AddToUidMapAt(n, m, tag, users);
      EmailIff(tag, users, uuid);
    }
  }

  lemma InitialAgrees(n: nat, tag: string, nodeLimit: int, users: seq<UserInfo>, alive: map<int, int>,
                      m: map<string, int>, u: UserInfo)
    requires Listed(n, users) && u in users
    ensures UserAgrees(tag, u, Initial(tag, nodeLimit, users, alive), AddToUidMap(m, tag, users))
  {
    AddRecordsAt(n, map[], tag, users, u);
    AddUidsAt(n, map[], users);
    AddToUidMapAt(n, m, tag, users);
  }

  lemma InitialFits(n: nat, tag: string, nodeLimit: int, users: seq<UserInfo>, alive: map<int, int>)
    requires Listed(n, users)
    ensures var lim := Initial(tag, nodeLimit, users, alive);
      Coherent(lim) && lim.uids.Keys == Uuids(users) && lim.info.Keys == Emails(tag, users)
  {
    AddRecordsOnly(map[], tag, users);
    AddUidsAt(n, map[], users);
  }

  /** The core's table belongs to the nodes after a start or a tick. */
  lemma OwnedGrows(n: nat, s: System, tag: string, deleted: seq<UserInfo>, added: seq<UserInfo>, s': System)
    requires Owned(s) && Listed(n, added)
    requires s'.nodes.Keys == s.nodes.Keys + {tag}
    requires s'.uidMap == AddToUidMap(s.uidMap - Emails(tag, deleted), tag, added)
    ensures Owned(s')
  {
    AddToUidMapAt(n, s.uidMap - Emails(tag, deleted), tag, added);
    forall e | e in s'.uidMap
      ensures exists t, uuid :: t in s'.nodes && '|' !in uuid && e == UserTag(t, uuid)
    {
      if e in Emails(tag, added) {
        var u :| u in added && e == UserTag(tag, u.Uuid);
        assert tag in s'.nodes && '|' !in u.Uuid;
      } else {
        assert e in s.uidMap;
      }
    }
  }

  lemma NoEntries(s: System, tag: string, uuid: string)
    requires Owned(s) && tag !in s.nodes && '|' !in uuid
    ensures UserTag(tag, uuid) !in s.uidMap
  {
    if UserTag(tag, uuid) in s.uidMap {
      var t, v :| t in s.nodes && '|' !in v && UserTag(tag, uuid) == UserTag(t, v);
      UserTagInjective(tag, uuid, t, v);
    }
  }

  /** One node's new tables agree, and the other nodes are not touched. */
  lemma StepAgrees(n: nat, s: System, tag: string, node: Node, deleted: seq<UserInfo>, added: seq<UserInfo>, s': System)
    requires Agrees(n, s) && s'.nodes == s.nodes[tag := node]
    requires s'.uidMap == AddToUidMap(s.uidMap - Emails(tag, deleted), tag, added)
    requires (forall u :: u in deleted ==> '|' !in u.Uuid) && Listed(n, added)
    requires NodeAgrees(n, tag, node, s'.uidMap)
    ensures Agrees(n, s')
  {
    OwnedGrows(n, s, tag, deleted, added, s');
    forall t | t in s'.nodes ensures NodeAgrees(n, t, s'.nodes[t], s'.uidMap) {
      if t != tag {
        OthersAgree(n, s, tag, deleted, added, t);
      }
    }
  }

  lemma BootNode(n: nat, s: System, e: SysEvent)
    requires Owned(s) && e.Boot? && e.tag !in s.nodes && Listed(n, e.users)
    ensures NodeAgrees(n, e.tag, Node(e.users, Initial(e.tag, e.nodeLimit, e.users, e.alive)),
                       AddToUidMap(s.uidMap - Emails(e.tag, []), e.tag, e.users))
    ensures s.uidMap - Emails(e.tag, []) == s.uidMap
  {
    assert s.uidMap - Emails(e.tag, []) == s.uidMap;
    forall uuid | '|' !in uuid ensures UserTag(e.tag, uuid) !in s.uidMap {
      NoEntries(s, e.tag, uuid);
    }
    BootAgrees(n, e.tag, e.nodeLimit, e.users, e.alive, s.uidMap);
  }

  lemma BootStep(n: nat, s: System, e: SysEvent, s': System)
    requires Agrees(n, s) && SysNext(s, e, s') && SendsListed(n, e) && e.Boot?
    ensures Agrees(n, s')
  {
    BootNode(n, s, e);
    StepAgrees(n, s, e.tag, Node(e.users, Initial(e.tag, e.nodeLimit, e.users, e.alive)), [], e.users, s');
  }

  lemma OthersAgree(n: nat, s: System, tag: string, deleted: seq<UserInfo>, added: seq<UserInfo>, t: string)
    requires t in s.nodes && t != tag && NodeAgrees(n, t, s.nodes[t], s.uidMap)
    requires (forall u :: u in deleted ==> '|' !in u.Uuid) && Listed(n, added)
    ensures NodeAgrees(n, t, s.nodes[t], AddToUidMap(s.uidMap - Emails(tag, deleted), tag, added))
  {
    var m' := AddToUidMap(s.uidMap - Emails(tag, deleted), tag, added);
    forall uuid | '|' !in uuid ensures SameEntry(s.uidMap, m', UserTag(t, uuid)) {
      OtherTagsStay(n, s.uidMap, tag, deleted, added, t, uuid);
    }
    AgreesFrame(n, t, s.nodes[t], s.uidMap, m');
  }

  lemma DiffListed(n: nat, prev: seq<UserInfo>, next: seq<UserInfo>, deleted: seq<UserInfo>, added: seq<UserInfo>)
    requires Listed(n, prev) && Listed(n, next) && IsDiff(prev, next, deleted, added)
    ensures (forall u :: u in deleted ==> '|' !in u.Uuid) && Listed(n, added)
  {
    DiffExact(n, prev, next, deleted, added);
    DiffUuids(n, prev, next, deleted, added);
  }

  lemma TickStep(n: nat, s: System, e: SysEvent, s': System)
    requires Agrees(n, s) && SysNext(s, e, s') && SendsListed(n, e) && e.Tick?
    ensures Agrees(n, s')
  {
    var node := TickNode(e.tag, s.nodes[e.tag], e.newUsers, e.newAlive, e.deleted, e.added);
    TickAgrees(n, e.tag, s.nodes[e.tag], s.uidMap, e.newUsers, e.newAlive, e.deleted, e.added);
    if e.newUsers == [] {
      IdleTick(n, s, e.tag, node, s');
    } else {
      DiffListed(n, s.nodes[e.tag].users, e.newUsers, e.deleted, e.added);
      StepAgrees(n, s, e.tag, node, e.deleted, e.added, s');
    }
  }

  lemma OwnedStays(s: System, s': System)
    requires Owned(s) && s'.uidMap == s.uidMap && s'.nodes.Keys == s.nodes.Keys
    ensures Owned(s')
  {
    forall e | e in s'.uidMap ensures exists tag, uuid :: tag in s'.nodes && '|' !in uuid && e == UserTag(tag, uuid) {
      var tag, uuid :| tag in s.nodes && '|' !in uuid && e == UserTag(tag, uuid);
      assert tag in s'.nodes;
    }
  }

  lemma IdleTick(n: nat, s: System, tag: string, node: Node, s': System)
    requires Agrees(n, s) && tag in s.nodes && s' == s.(nodes := s.nodes[tag := node])
    requires NodeAgrees(n, tag, node, s.uidMap)
    ensures Agrees(n, s')
  {
    OwnedStays(s, s');
    forall t | t in s'.nodes ensures NodeAgrees(n, t, s'.nodes[t], s'.uidMap) {
      assert t == tag || NodeAgrees(n, t, s.nodes[t], s.uidMap);
    }
  }

  lemma UseStep(n: nat, s: System, e: SysEvent, s': System)
    requires Agrees(n, s) && SysNext(s, e, s') && e.Use?
    ensures Agrees(n, s')
  {
    UseCoherent(s.nodes[e.tag].lim, e.use, s'.nodes[e.tag].lim);
    UseAgrees(n, e.tag, s.nodes[e.tag], s.uidMap, s'.nodes[e.tag].lim);
  }

  lemma CollectCoherent(st: State, st': State, result: seq<OnlineUser>)
    requires Coherent(st) && IsCollection(st, st', result)
    ensures Coherent(st')
  {
    assert BucketsFit(st') && NoDynamic(st');
    assert forall e, ip :: !Tracks(st', e, ip);
  }

  lemma UseCoherent(st: State, use: Event, st': State)
    requires Coherent(st) && Next(st, use, st') && (use.Check? || use.Collect?)
    ensures Coherent(st') && st'.info == st.info && st'.uids == st.uids
  {
    if use.Check? {
      AdmitRecords(st, use);
      AdmitDevices(st, use);
      AdmitCoherent(st, use);
    } else {
      CollectCoherent(st, st', use.result);
    }
  }

  lemma UseAgrees(n: nat, tag: string, node: Node, m: map<string, int>, lim': State)
    requires NodeAgrees(n, tag, node, m)
    requires Coherent(lim') && lim'.info == node.lim.info && lim'.uids == node.lim.uids
    ensures NodeAgrees(n, tag, node.(lim := lim'), m)
  {
    forall u | u in node.users ensures UserAgrees(tag, u, lim', m) {
      assert UserAgrees(tag, u, node.lim, m);
    }
  }

  /** Over every run of starts, user-only ticks, admissions and collections on any number of nodes, all
      tables of each node hold exactly the users of the last non-empty list. */
  lemma {:induction false} RunAgrees(n: nat, states: seq<System>, events: seq<SysEvent>, k: nat)
    requires IsSysRun(n, states, events) && k <= |events|
    ensures Agrees(n, states[k])
  {
    if k > 0 {
      RunAgrees(n, states, events, k - 1);
      var s, e, s' := states[k - 1], events[k - 1], states[k];
      assert SysNext(s, e, s') && SendsListed(n, e);
      match e
      case Boot(_, _, _, _) => BootStep(n, s, e, s');
      case Tick(_, _, _, _, _) => TickStep(n, s, e, s');
      case Use(_, _) => UseStep(n, s, e, s');
    }
  }

  /** The last non-empty list the panel sent for a node. */
  function LastList(events: seq<SysEvent>, k: nat, tag: string): Option<seq<UserInfo>>
    requires k <= |events|
  {
    if k == 0 then None
    else
      match events[k - 1]
      case Boot(t, _, users, _) => if t == tag then Some(users) else LastList(events, k - 1, tag)
      case Tick(t, newUsers, _, _, _) =>
        if t == tag && newUsers != [] then Some(newUsers) else LastList(events, k - 1, tag)
      case Use(_, _) => LastList(events, k - 1, tag)
  }

  /** Each node holds the last non-empty list of the panel; with `RunAgrees` so do all its tables. */
  lemma {:induction false} RunHoldsLastList(n: nat, states: seq<System>, events: seq<SysEvent>, k: nat, tag: string)
    requires IsSysRun(n, states, events) && k <= |events|
    ensures LastList(events, k, tag) == if tag in states[k].nodes then Some(states[k].nodes[tag].users) else None
  {
    if k > 0 {
      RunHoldsLastList(n, states, events, k - 1, tag);
      assert SysNext(states[k - 1], events[k - 1], states[k]);
    }
  }

  // ----- What the tables hold, from what the panel sent

  /** The node limit a node was started with. */
  function BootLimit(events: seq<SysEvent>, k: nat, tag: string): Option<int>
    requires k <= |events|
  {
    if k == 0 then None
    else
      match events[k - 1]
      case Boot(t, nodeLimit, _, _) => if t == tag then Some(nodeLimit) else BootLimit(events, k - 1, tag)
      case _ => BootLimit(events, k - 1, tag)
  }

  /** The last alive list the panel sent for a node. */
  function LastAlive(events: seq<SysEvent>, k: nat, tag: string): map<int, int>
    requires k <= |events|
  {
    if k == 0 then map[]
    else
      match events[k - 1]
      case Boot(t, _, _, alive) => if t == tag then alive else LastAlive(events, k - 1, tag)
      case Tick(t, _, newAlive, _, _) =>
        if t == tag && newAlive.Some? then newAlive.value else LastAlive(events, k - 1, tag)
      case Use(_, _) => LastAlive(events, k - 1, tag)
  }

  /** The ids of users a node has deleted since then, the tick that brought the list included. */
  function DeletedSince(events: seq<SysEvent>, k: nat, tag: string): set<int>
    requires k <= |events|
  {
    if k == 0 then {}
    else
      match events[k - 1]
      case Boot(t, _, _, _) => if t == tag then {} else DeletedSince(events, k - 1, tag)
      case Tick(t, newUsers, newAlive, deleted, _) =>
        if t != tag then DeletedSince(events, k - 1, tag)
        else
          (if newAlive.Some? then {} else DeletedSince(events, k - 1, tag))
            + (if newUsers == [] then {} else set u | u in deleted :: u.Id)
      case Use(_, _) => DeletedSince(events, k - 1, tag)
  }

  function FindUser(users: seq<UserInfo>, uuid: string): (r: Option<UserInfo>)
    ensures r.Some? <==> HasUuid(users, uuid)
    ensures r.Some? ==> r.value in users && r.value.Uuid == uuid
  {
    if users == [] then None
    else if users[0].Uuid == uuid then Some(users[0])
    else
      var r := FindUser(users[1..], uuid);
      assert forall u :: u in users <==> u == users[0] || u in users[1..];
      r
  }

  /** The user as the panel described it when the node recorded it last, if it is recorded. */
  function RecordedFrom(events: seq<SysEvent>, k: nat, tag: string, uuid: string): Option<UserInfo>
    requires k <= |events|
  {
    if k == 0 then None
    else
      match events[k - 1]
      case Boot(t, _, users, _) => if t == tag then FindUser(users, uuid) else RecordedFrom(events, k - 1, tag, uuid)
      case Tick(t, newUsers, _, deleted, added) =>
        if t != tag || newUsers == [] then RecordedFrom(events, k - 1, tag, uuid)
        else if HasUuid(added, uuid) then FindUser(added, uuid)
        else if HasUuid(deleted, uuid) then None
        else RecordedFrom(events, k - 1, tag, uuid)
      case Use(_, _) => RecordedFrom(events, k - 1, tag, uuid)
  }

  lemma SysStep(n: nat, states: seq<System>, events: seq<SysEvent>, i: nat)
    requires IsSysRun(n, states, events) && i < |events|
    ensures SysNext(states[i], events[i], states[i + 1]) && SendsListed(n, events[i])
  {
  }

  /** Node limit and alive list of a node are the ones sent for it. */
  ghost predicate ConfigFits(s: System, events: seq<SysEvent>, k: nat, tag: string)
    requires k <= |events|
  {
    tag in s.nodes ==>
      && BootLimit(events, k, tag) == Some(s.nodes[tag].lim.nodeLimit)
      && s.nodes[tag].lim.alive == LastAlive(events, k, tag) - DeletedSince(events, k, tag)
  }

  lemma ConfigStep(s: System, events: seq<SysEvent>, k: nat, s': System, tag: string)
    requires k < |events| && SysNext(s, events[k], s') && ConfigFits(s, events, k, tag)
    ensures ConfigFits(s', events, k + 1, tag)
  {
    var e := events[k];
    if e.tag == tag && e.Use? && e.use.Check? {
      AdmitDevices(s.nodes[tag].lim, e.use);
    }
  }

  lemma ConfigGoesOn(n: nat, states: seq<System>, events: seq<SysEvent>, k: nat, tag: string)
    requires IsSysRun(n, states, events) && k < |events| && ConfigFits(states[k], events, k, tag)
    ensures ConfigFits(states[k + 1], events, k + 1, tag)
  {
    SysStep(n, states, events, k);
    ConfigStep(states[k], events, k, states[k + 1], tag);
  }

  /** Over every run: a node's limiter has the node limit it was started with, and its alive list is the last
      one the panel sent less the ids of the users deleted since. */
  lemma {:induction false} RunConfigured(n: nat, states: seq<System>, events: seq<SysEvent>, k: nat, tag: string)
    requires IsSysRun(n, states, events) && k <= |events|
    ensures tag in states[k].nodes ==>
      && BootLimit(events, k, tag) == Some(states[k].nodes[tag].lim.nodeLimit)
      && states[k].nodes[tag].lim.alive == LastAlive(events, k, tag) - DeletedSince(events, k, tag)
  {
    if k > 0 {
      var j := k - 1;
      RunConfigured(n, states, events, j, tag);
      ConfigGoesOn(n, states, events, j, tag);
    }
  }

  /** A user is recorded if and only if `from` is there, and as `from` says. */
  predicate RecordSays(info: map<string, UserLimitInfo>, email: string, from: Option<UserInfo>) {
    && (email in info <==> from.Some?)
    && (from.Some? ==> && info[email].UID == from.value.Id && info[email].SpeedLimit == from.value.SpeedLimit
                       && info[email].DeviceLimit == from.value.DeviceLimit)
  }

  /** The record of a user says what the panel said when the user was recorded last. */
  ghost predicate RecordFits(s: System, events: seq<SysEvent>, k: nat, tag: string, uuid: string)
    requires k <= |events|
  {
    tag in s.nodes ==> RecordSays(s.nodes[tag].lim.info, UserTag(tag, uuid), RecordedFrom(events, k, tag, uuid))
  }

  lemma AddedRecord(n: nat, m: map<string, UserLimitInfo>, tag: string, users: seq<UserInfo>, uuid: string)
    requires Listed(n, users)
    ensures var email, m' := UserTag(tag, uuid), AddRecords(m, tag, users);
      && (email in m' <==> email in m || HasUuid(users, uuid))
      && (HasUuid(users, uuid) ==> m'[email] == Recorded(FindUser(users, uuid).value))
      && (email in m && !HasUuid(users, uuid) ==> m'[email] == m[email])
  {
    AddRecordsOnly(m, tag, users);
    EmailIff(tag, users, uuid);
    if HasUuid(users, uuid) {
      AddRecordsAt(n, m, tag, users, FindUser(users, uuid).value);
    }
  }

  lemma HasUuidIff(users: seq<UserInfo>, uuid: string)
    ensures HasUuid(users, uuid) <==> uuid in Uuids(users)
  {
  }

  lemma TickRecord(n: nat, st: State, tag: string, deleted: seq<UserInfo>, added: seq<UserInfo>, uuid: string)
    requires Listed(n, added)
    ensures var email, info := UserTag(tag, uuid), Updated(st, tag, added, deleted).info;
      && (email in info <==> HasUuid(added, uuid) || (email in st.info && !HasUuid(deleted, uuid)))
      && (HasUuid(added, uuid) ==> info[email] == Recorded(FindUser(added, uuid).value))
      && (email in info && !HasUuid(added, uuid) ==> info[email] == st.info[email])
  {
    EmailIff(tag, deleted, uuid);
    HasUuidIff(deleted, uuid);
    AddedRecord(n, Removed(st, tag, deleted).info, tag, added, uuid);
  }

  lemma BootRecords(n: nat, tag: string, nodeLimit: int, users: seq<UserInfo>, alive: map<int, int>, uuid: string)
    requires Listed(n, users)
    ensures RecordSays(Initial(tag, nodeLimit, users, alive).info, UserTag(tag, uuid), FindUser(users, uuid))
  {
    AddedRecord(n, map[], tag, users, uuid);
  }

  lemma TickRecords(n: nat, st: State, tag: string, deleted: seq<UserInfo>, added: seq<UserInfo>, uuid: string,
                    from: Option<UserInfo>)
    requires Listed(n, added) && RecordSays(st.info, UserTag(tag, uuid), from)
    ensures RecordSays(Updated(st, tag, added, deleted).info, UserTag(tag, uuid),
                       if HasUuid(added, uuid) then FindUser(added, uuid)
                       else if HasUuid(deleted, uuid) then None else from)
  {
    TickRecord(n, st, tag, deleted, added, uuid);
  }

  lemma UseKeepsRecords(n: nat, s: System, e: SysEvent, s': System)
    requires SysNext(s, e, s') && e.Use? && Agrees(n, s)
    ensures s'.nodes[e.tag].lim.info == s.nodes[e.tag].lim.info
  {
    assert NodeAgrees(n, e.tag, s.nodes[e.tag], s.uidMap);
    UseCoherent(s.nodes[e.tag].lim, e.use, s'.nodes[e.tag].lim);
  }

  lemma TickNodeRecords(n: nat, tag: string, node: Node, m: map<string, int>, e: SysEvent, uuid: string,
                        from: Option<UserInfo>)
    requires e.Tick? && e.newUsers != [] && NodeAgrees(n, tag, node, m) && Listed(n, e.newUsers)
    requires IsDiff(node.users, e.newUsers, e.deleted, e.added)
    requires RecordSays(node.lim.info, UserTag(tag, uuid), from)
    ensures RecordSays(TickNode(tag, node, e.newUsers, e.newAlive, e.deleted, e.added).lim.info, UserTag(tag, uuid),
                       if HasUuid(e.added, uuid) then FindUser(e.added, uuid)
                       else if HasUuid(e.deleted, uuid) then None else from)
  {
    DiffListed(n, node.users, e.newUsers, e.deleted, e.added);
    TickRecords(n, TickNode(tag, node, [], e.newAlive, [], []).lim, tag, e.deleted, e.added, uuid, from);
  }

  lemma RecordStep(n: nat, s: System, events: seq<SysEvent>, k: nat, s': System, tag: string, uuid: string)
    requires k < |events| && SysNext(s, events[k], s') && SendsListed(n, events[k]) && events[k].tag == tag
    requires Agrees(n, s) && RecordFits(s, events, k, tag, uuid)
    ensures RecordFits(s', events, k + 1, tag, uuid)
  {
    var e := events[k];
    if e.Boot? {
      BootRecords(n, tag, e.nodeLimit, e.users, e.alive, uuid);
    } else if e.Use? {
      UseKeepsRecords(n, s, e, s');
    } else if e.newUsers != [] {
      TickNodeRecords(n, tag, s.nodes[tag], s.uidMap, e, uuid, RecordedFrom(events, k, tag, uuid));
    }
  }

  lemma RecordGoesOn(n: nat, states: seq<System>, events: seq<SysEvent>, k: nat, tag: string, uuid: string)
    requires IsSysRun(n, states, events) && k < |events| && RecordFits(states[k], events, k, tag, uuid)
    ensures RecordFits(states[k + 1], events, k + 1, tag, uuid)
  {
    RunAgrees(n, states, events, k);
    SysStep(n, states, events, k);
    if events[k].tag == tag {
      RecordStep(n, states[k], events, k, states[k + 1], tag, uuid);
    }
  }

  /** Over every run: a user is recorded if and only if it is in the list it was recorded from and was not
      deleted since, with the id, the speed limit and the device limit it had there. */
  lemma {:induction false} RunRecords(n: nat, states: seq<System>, events: seq<SysEvent>, k: nat, tag: string,
                                      uuid: string)
    requires IsSysRun(n, states, events) && k <= |events|
    ensures RecordFits(states[k], events, k, tag, uuid)
  {
    if k > 0 {
      var j := k - 1;
      RunRecords(n, states, events, j, tag, uuid);
      RecordGoesOn(n, states, events, j, tag, uuid);
    }
  }

  /** Who is let in, over every run and from what the panel sent: a recorded user, unless the connection counts
      as a device, comes from an address that is neither tracked nor in the last collection, and the user's
      device limit is reached by the count in the last alive list. */
  lemma RunAdmitsExactly(n: nat, states: seq<System>, events: seq<SysEvent>, k: nat, tag: string, uuid: string,
                         ip: string, now: int, tracked: bool, serial: nat)
    requires IsSysRun(n, states, events) && k <= |events| && tag in states[k].nodes
    ensures var lim, email := states[k].nodes[tag].lim, UserTag(tag, uuid);
      var from, alive := RecordedFrom(events, k, tag, uuid), LastAlive(events, k, tag);
      Admit(lim, email, ip, now, tracked, serial).1 == Rejected
      <==>
      || from == None
      || (&& tracked && !Tracks(lim, email, TrimMapped(ip)) && TrimMapped(ip) !in lim.oldOnline
          && 0 < from.value.DeviceLimit
          && from.value.Id in alive && from.value.Id !in DeletedSince(events, k, tag)
          && from.value.DeviceLimit <= alive[from.value.Id])
  {
    RunConfigured(n, states, events, k, tag);
    RunRecords(n, states, events, k, tag, uuid);
    RejectedExactly(states[k].nodes[tag].lim, UserTag(tag, uuid), ip, now, tracked, serial);
  }

  predicate IsRecordedAs(lim: State, tag: string, u: UserInfo) {
    var email := UserTag(tag, u.Uuid);
    email in lim.info && lim.info[email] == Recorded(u)
  }

  /** The diff looks at uuid and speed limit only: after a tick all records match the new list exactly
      when those of the users it kept did already, so a new id or device limit alone is not taken over. */
  lemma TickRecordsExactly(n: nat, tag: string, node: Node, m: map<string, int>, newUsers: seq<UserInfo>,
                           deleted: seq<UserInfo>, added: seq<UserInfo>)
    requires NodeAgrees(n, tag, node, m) && Listed(n, newUsers)
    requires IsDiff(node.users, newUsers, deleted, added)
    ensures (forall u :: u in newUsers ==> IsRecordedAs(Updated(node.lim, tag, added, deleted), tag, u))
       <==> (forall u :: u in newUsers && Matched(node.users, u) ==> IsRecordedAs(node.lim, tag, u))
  {
    DiffExact(n, node.users, newUsers, deleted, added);
    DiffUuids(n, node.users, newUsers, deleted, added);
    forall u | u in newUsers
      ensures IsRecordedAs(Updated(node.lim, tag, added, deleted), tag, u)
         <==> (Matched(node.users, u) ==> IsRecordedAs(node.lim, tag, u))
    {
      if u in added {
        AddRecordsAt(n, Removed(node.lim, tag, deleted).info, tag, added, u);
      } else {
        KeptRecord(tag, node.lim, added, deleted, u);
      }
    }
  }

  lemma KeptRecord(tag: string, st: State, added: seq<UserInfo>, deleted: seq<UserInfo>, u: UserInfo)
    requires u.Uuid !in Uuids(added) && u.Uuid !in Uuids(deleted)
    ensures IsRecordedAs(Updated(st, tag, added, deleted), tag, u) <==> IsRecordedAs(st, tag, u)
  {
    AddRecordsOnly(Removed(st, tag, deleted).info, tag, added);
    EmailIff(tag, added, u.Uuid);
    EmailIff(tag, deleted, u.Uuid);
  }

  /** A device limit that changes alone is not taken over. */
  lemma DeviceLimitStays()
    ensures var prev, next := [UserInfo(1, "a", 0, 0)], [UserInfo(1, "a", 0, 2)];
      var lim := Initial("node", 0, prev, map[]);
      IsDiff(prev, next, [], []) && !IsRecordedAs(Updated(lim, "node", [], []), "node", next[0])
  {
    var u, v := UserInfo(1, "a", 0, 0), UserInfo(1, "a", 0, 2);
    var lim := Initial("node", 0, [u], map[]);
    SameKeyUnseen(u, v);
    UpdateNothing(lim, "node");
    assert [u][..0] == [];
    assert lim.info == AddRecords(map[], "node", [])[UserTag("node", "a") := Recorded(u)];
  }

  /** In every reachable state a cached bucket belongs to a listed user, and has 125000 times the minimum
      non-zero of the node's limit and that user's current one if and only if that user's limit is not
      negative and the product fits in 64 bits. A user with a negative limit gets the node's rate. */
  lemma RunBucketRates(n: nat, states: seq<System>, events: seq<SysEvent>, k: nat, tag: string, email: string)
    returns (u: UserInfo)
    requires IsSysRun(n, states, events) && k <= |events| && tag in states[k].nodes
    requires email in states[k].nodes[tag].lim.buckets
    ensures var node := states[k].nodes[tag];
      var nodeLimit, rate := node.lim.nodeLimit, node.lim.buckets[email].rate;
      && u in node.users && email == UserTag(tag, u.Uuid)
      && (IsMinRate(nodeLimit, u.SpeedLimit, rate)
          <==> u.SpeedLimit >= 0 && FitsInt64(DetermineSpeedLimit(nodeLimit, u.SpeedLimit) * 1000000))
      && (u.SpeedLimit < 0 ==> rate == Rate(nodeLimit) > 0)
  {
    RunAgrees(n, states, events, k);
    var node := states[k].nodes[tag];
    assert NodeAgrees(n, tag, node, states[k].uidMap);
    assert email in Emails(tag, node.users);
    u :| u in node.users && email == UserTag(tag, u.Uuid);
    assert UserAgrees(tag, u, node.lim, states[k].uidMap);
    BucketRateExactly(node.lim, email);
    if u.SpeedLimit < 0 { NegativeLimitIgnored(node.lim, email); }
  }
}
