/**
 The online report: which addresses of which users a report tick sends to the panel.
 */
module Report {
  import opened Users
  import opened Limiter
  import opened LimiterRuns
  import opened Reconcile
  import Traffic

  /** Some entry of the traffic slice for this user is below the minimum, given in kilobytes. */
  predicate IsIdle(traffic: seq<Traffic.UserTraffic>, minTraffic: int, uid: int) {
    exists t :: t in traffic && t.UID == uid && t.Upload + t.Download < minTraffic * 1000
  }

  /** The addresses listed for one user, in order. */
  function IpsFor(online: seq<OnlineUser>, uid: int): seq<string> {
    if online == [] then []
    else
      var k := |online| - 1;
      Extended(IpsFor(online[..k], uid), online[k], uid)
  }

  lemma {:induction false} IpsCounted(online: seq<OnlineUser>, uid: int, ip: string)
    ensures multiset(IpsFor(online, uid))[ip] == multiset(online)[OnlineUser(uid, ip)]
  {
    if online != [] {
      var k := |online| - 1;
      assert online == online[..k] + [online[k]];
      IpsCounted(online[..k], uid, ip);
    }
  }

  method IdleUsers(traffic: seq<Traffic.UserTraffic>, minTraffic: int) returns (nocountUID: set<int>)
    ensures forall uid :: uid in nocountUID <==> IsIdle(traffic, minTraffic, uid)
  {
    nocountUID := {};
    for i := 0 to |traffic|
      invariant forall uid :: uid in nocountUID <==> IsIdle(traffic[..i], minTraffic, uid)
    {
      assert traffic[..i + 1] == traffic[..i] + [traffic[i]];
      var total := traffic[i].Upload + traffic[i].Download;
      if total < minTraffic * 1000 {
        nocountUID := nocountUID + {traffic[i].UID};
      }
    }
    assert traffic[..|traffic|] == traffic;
  }

  /** What is listed for `uid`: nothing for an idle user. */
  ghost predicate IsGrouping(online: seq<OnlineUser>, idle: set<int>, data: map<int, seq<string>>) {
    forall uid ::
      if uid in data then uid !in idle && data[uid] == IpsFor(online, uid) && data[uid] != []
      else uid in idle || IpsFor(online, uid) == []
  }

  function Extended(ips: seq<string>, o: OnlineUser, uid: int): seq<string> {
    if o.UID == uid then ips + [o.IP] else ips
  }

  lemma IpsSnoc(online: seq<OnlineUser>, i: nat)
    requires i < |online|
    ensures forall uid :: IpsFor(online[..i + 1], uid) == Extended(IpsFor(online[..i], uid), online[i], uid)
  {
    assert online[..i + 1][..i] == online[..i];
  }

  lemma ExtendedLater(a: seq<string>, b: seq<string>, o: OnlineUser, uid: int)
    ensures Extended(a + b, o, uid) == a + Extended(b, o, uid)
  {
    assert (a + b) + [o.IP] == a + (b + [o.IP]);
  }

  /** The addresses come in the order of the list. */
  lemma {:induction false} IpsInOrder(a: seq<OnlineUser>, b: seq<OnlineUser>, uid: int)
    ensures IpsFor(a + b, uid) == IpsFor(a, uid) + IpsFor(b, uid)
  {
    if b == [] {
      assert a + b == a && IpsFor(b, uid) == [];
    } else {
      var k := |b| - 1;
      var c, init := a + b, b[..k];
      IpsInOrder(a, init, uid);
      assert c[..|c| - 1] == a + init && c[|c| - 1] == b[k];
      ExtendedLater(IpsFor(a, uid), IpsFor(init, uid), b[k], uid);
    }
  }

  lemma IpsOfOne(o: OnlineUser, uid: int)
    ensures IpsFor([o], uid) == if o.UID == uid then [o.IP] else []
  {
    assert [o][..0] == [];
  }

  lemma IpsAppend(online: seq<OnlineUser>, o: OnlineUser)
    ensures forall uid :: IpsFor(online + [o], uid) == Extended(IpsFor(online, uid), o, uid)
  {
    assert (online + [o])[..|online|] == online;
  }

  method DropIdle(online: seq<OnlineUser>, nocountUID: set<int>) returns (result: seq<OnlineUser>)
    ensures forall uid :: IpsFor(result, uid) == if uid in nocountUID then [] else IpsFor(online, uid)
  {
    result := [];
    for i := 0 to |online|
      invariant forall uid :: IpsFor(result, uid) == if uid in nocountUID then [] else IpsFor(online[..i], uid)
    {
      IpsSnoc(online, i);
      IpsAppend(result, online[i]);
      if online[i].UID !in nocountUID {
        result := result + [online[i]];
      }
    }
    assert online[..|online|] == online;
  }

  method GroupByUser(result: seq<OnlineUser>) returns (data: map<int, seq<string>>)
    ensures IsGrouping(result, {}, data)
  {
    data := map[];
    for i := 0 to |result|
      invariant IsGrouping(result[..i], {}, data)
    {
      IpsSnoc(result, i);
      var o := result[i];
      data := data[o.UID := (if o.UID in data then data[o.UID] else []) + [o.IP]];
    }
    assert result[..|result|] == result;
  }

  /** The filter and the grouping of the report tick. */
  method GroupOnline(online: seq<OnlineUser>, traffic: seq<Traffic.UserTraffic>, minTraffic: int)
    returns (data: map<int, seq<string>>)
    ensures exists idle :: (forall uid :: uid in idle <==> IsIdle(traffic, minTraffic, uid))
                           && IsGrouping(online, idle, data)
    ensures forall uid :: uid in data <==>
      && (exists o :: o in online && o.UID == uid)
      && (forall t :: t in traffic && t.UID == uid ==> t.Upload + t.Download >= minTraffic * 1000)
  {
    var nocountUID := IdleUsers(traffic, minTraffic);
    var result := DropIdle(online, nocountUID);
    data := GroupByUser(result);
    assert IsGrouping(online, nocountUID, data);
    forall uid ensures IpsFor(online, uid) != [] <==> exists o :: o in online && o.UID == uid {
      IpsForSome(online, uid);
    }
  }

  lemma {:induction false} IpsForSome(online: seq<OnlineUser>, uid: int)
    ensures IpsFor(online, uid) != [] <==> exists o :: o in online && o.UID == uid
  {
    if online != [] {
      var k := |online| - 1;
      IpsForSome(online[..k], uid);
      assert forall o :: o in online <==> o in online[..k] || o == online[k];
    }
  }

  /** One user record for each user id. */
  predicate OneEmailPerUid(st: State) {
    forall e, f :: e in st.info && f in st.info && st.info[e].UID == st.info[f].UID ==> e == f
  }

  lemma OneHolder(st: State, email: string, ip: string)
    requires IpsFit(st) && OneEmailPerUid(st) && email in st.info
    ensures forall e :: e in Holders(st.online, OnlineUser(st.info[email].UID, ip)) <==> e == email && Tracks(st, e, ip)
  {
    forall e | Tracks(st, e, ip) ensures st.online[e][ip] == st.info[e].UID {
    }
  }

  lemma CollectedOnce(st: State, st': State, result: seq<OnlineUser>, email: string, ip: string)
    requires IpsFit(st) && OneEmailPerUid(st) && IsCollection(st, st', result) && email in st.info
    ensures multiset(result)[OnlineUser(st.info[email].UID, ip)] == if Tracks(st, email, ip) then 1 else 0
  {
    var o := OnlineUser(st.info[email].UID, ip);
    var holders := Holders(st.online, o);
    OneHolder(st, email, ip);
    assert holders == if Tracks(st, email, ip) then {email} else {};
  }

  /** What the report says about one user and address of a coherent limiter. */
  lemma CollectionReport(st: State, st': State, result: seq<OnlineUser>, idle: set<int>, data: map<int, seq<string>>,
                         email: string, ip: string)
    requires IpsFit(st) && OneEmailPerUid(st) && email in st.info && IsCollection(st, st', result)
    requires IsGrouping(result, idle, data)
    ensures var uid := st.info[email].UID;
      (if uid in data then multiset(data[uid])[ip] else 0) == if uid !in idle && Tracks(st, email, ip) then 1 else 0
  {
    CollectedOnce(st, st', result, email, ip);
    IpsCounted(result, st.info[email].UID, ip);
  }

  /** The report of a tick, with one uuid per user id: each address admitted as a device since the last
      collection is listed once under its user, unless the user was dropped since or is idle. */
  lemma ReportExact(states: seq<State>, events: seq<Event>, k: nat, idle: set<int>, data: map<int, seq<string>>,
                    email: string, ip: string)
    requires IsRun(states, events) && k < |events| && events[k].Collect?
    requires Coherent(states[0]) && states[0].online == map[]
    requires forall i :: 0 <= i < |events| ==> !events[i].Dynamic?
    requires forall i :: 0 <= i < |events| && events[i].Update? ==>
      DropsFirst(states[i], events[i].tag, events[i].added, events[i].deleted)
    requires OneEmailPerUid(states[k]) && email in states[k].info
    requires IsGrouping(events[k].result, idle, data)
    ensures var uid := states[k].info[email].UID;
      (if uid in data then multiset(data[uid])[ip] else 0)
      == if uid !in idle && (email, ip) in Logged(states, events, k) then 1 else 0
    ensures states[k + 1].online == map[]
  {
    RunCoherent(states, events, k);
    TrackedIsLogged(states, events, k);
    assert Next(states[k], events[k], states[k + 1]);
    CollectionReport(states[k], states[k + 1], events[k].result, idle, data, email, ip);
  }

  /** Nobody but recorded users is ever listed. */
  lemma ReportedAreRecorded(st: State, st': State, result: seq<OnlineUser>, o: OnlineUser)
    requires Coherent(st) && IsCollection(st, st', result) && o in result
    ensures exists e :: e in st.info && st.info[e].UID == o.UID && Tracks(st, e, o.IP)
  {
    assert multiset(result)[o] > 0;
    var e :| e in Holders(st.online, o);
    assert Tracks(st, e, o.IP);
  }

  // ----- Reports in a system of nodes

  /** What one event does to the history of a node's current epoch. */
  ghost function LoggedAfter(before: set<(string, string)>, s: System, e: SysEvent, tag: string): set<(string, string)>
    requires e.tag == tag && !e.Boot? ==> tag in s.nodes
  {
    if e.tag != tag then before
    else
      match e
      case Boot(_, _, _, _) => {}
      case Tick(_, newUsers, _, deleted, _) =>
        if newUsers == [] then before else set p | p in before && p.0 !in Emails(tag, deleted)
      case Use(_, use) =>
        if use.Collect? then {}
        else if use.Check? && Counts(s.nodes[tag].lim, use) then before + {(use.email, TrimMapped(use.rawIp))}
        else before
  }

  /** The history of a node's current epoch: who was admitted as a device from where since the last
      collection, and was not dropped by a tick since. */
  ghost function NodeLogged(n: nat, states: seq<System>, events: seq<SysEvent>, k: nat, tag: string)
    : set<(string, string)>
    requires IsSysRun(n, states, events) && k <= |events|
  {
    if k == 0 then {}
    else
      SysStep(n, states, events, k - 1);
      LoggedAfter(NodeLogged(n, states, events, k - 1, tag), states[k - 1], events[k - 1], tag)
  }

  /** The node tracks exactly the pairs in `logged`. */
  ghost predicate TracksLogged(s: System, tag: string, logged: set<(string, string)>) {
    tag in s.nodes ==>
      forall email, ip :: Tracks(s.nodes[tag].lim, email, ip) <==> (email, ip) in logged
  }

  lemma StepTracked(s: System, e: SysEvent, s': System, tag: string, logged: set<(string, string)>)
    requires SysNext(s, e, s') && TracksLogged(s, tag, logged)
    ensures TracksLogged(s', tag, LoggedAfter(logged, s, e, tag))
  {
    if e.tag == tag && e.Use? && e.use.Check? {
      AdmitTracks(s.nodes[tag].lim, e.use);
    }
  }

  lemma TrackedGoesOn(n: nat, states: seq<System>, events: seq<SysEvent>, k: nat, tag: string)
    requires IsSysRun(n, states, events) && k < |events|
    requires TracksLogged(states[k], tag, NodeLogged(n, states, events, k, tag))
    ensures TracksLogged(states[k + 1], tag, NodeLogged(n, states, events, k + 1, tag))
  {
    SysStep(n, states, events, k);
    StepTracked(states[k], events[k], states[k + 1], tag, NodeLogged(n, states, events, k, tag));
  }

  lemma {:induction false} NodeTracked(n: nat, states: seq<System>, events: seq<SysEvent>, k: nat, tag: string)
    requires IsSysRun(n, states, events) && k <= |events|
    ensures TracksLogged(states[k], tag, NodeLogged(n, states, events, k, tag))
  {
    if k == 0 {
      assert tag !in states[k].nodes;
    } else {
      var j := k - 1;
      NodeTracked(n, states, events, j, tag);
      TrackedGoesOn(n, states, events, j, tag);
    }
  }

  /** In every reachable state a node's limiter is coherent and records exactly the users of its list. */
  lemma NodeCoherent(n: nat, states: seq<System>, events: seq<SysEvent>, k: nat, tag: string)
    requires IsSysRun(n, states, events) && k <= |events| && tag in states[k].nodes
    ensures Coherent(states[k].nodes[tag].lim)
    ensures states[k].nodes[tag].lim.info.Keys == Emails(tag, states[k].nodes[tag].users)
  {
    RunAgrees(n, states, events, k);
    assert NodeAgrees(n, tag, states[k].nodes[tag], states[k].uidMap);
  }

  lemma NodeCollects(n: nat, states: seq<System>, events: seq<SysEvent>, k: nat, tag: string)
    requires IsSysRun(n, states, events) && k < |events|
    requires events[k].Use? && events[k].tag == tag && events[k].use.Collect?
    ensures tag in states[k].nodes && tag in states[k + 1].nodes
    ensures IsCollection(states[k].nodes[tag].lim, states[k + 1].nodes[tag].lim, events[k].use.result)
  {
    SysStep(n, states, events, k);
  }

  /** The report of a tick in any run of any number of nodes, with one uuid for each recorded id: for every
      user of the node's list each address is listed once if the user was admitted from it as a device since
      the last collection, was not dropped by a tick since and is not idle, and else not at all. */
  lemma NodeReportExact(n: nat, states: seq<System>, events: seq<SysEvent>, k: nat, tag: string,
                        idle: set<int>, data: map<int, seq<string>>, u: UserInfo, ip: string)
    requires IsSysRun(n, states, events) && k < |events|
    requires events[k].Use? && events[k].tag == tag && events[k].use.Collect?
    requires tag in states[k].nodes && u in states[k].nodes[tag].users
    requires OneEmailPerUid(states[k].nodes[tag].lim) && IsGrouping(events[k].use.result, idle, data)
    ensures var email := UserTag(tag, u.Uuid);
      email in states[k].nodes[tag].lim.info &&
      var uid := states[k].nodes[tag].lim.info[email].UID;
      (if uid in data then multiset(data[uid])[ip] else 0)
      == if uid !in idle && (email, ip) in NodeLogged(n, states, events, k, tag) then 1 else 0
  {
    var email := UserTag(tag, u.Uuid);
    NodeCoherent(n, states, events, k, tag);
    NodeTracked(n, states, events, k, tag);
    NodeCollects(n, states, events, k, tag);
    var st, st' := states[k].nodes[tag].lim, states[k + 1].nodes[tag].lim;
    CollectionReport(st, st', events[k].use.result, idle, data, email, ip);
  }

  /** Nobody but users of the node's list is in its report. */
  lemma NodeReportsListed(n: nat, states: seq<System>, events: seq<SysEvent>, k: nat, tag: string, o: OnlineUser)
    returns (u: UserInfo)
    requires IsSysRun(n, states, events) && k < |events|
    requires events[k].Use? && events[k].tag == tag && events[k].use.Collect? && o in events[k].use.result
    ensures tag in states[k].nodes && u in states[k].nodes[tag].users
    ensures var email := UserTag(tag, u.Uuid);
      && email in states[k].nodes[tag].lim.info && states[k].nodes[tag].lim.info[email].UID == o.UID
      && (email, o.IP) in NodeLogged(n, states, events, k, tag)
  {
    NodeCollects(n, states, events, k, tag);
    NodeCoherent(n, states, events, k, tag);
    NodeTracked(n, states, events, k, tag);
    var node := states[k].nodes[tag];
    ReportedAreRecorded(node.lim, states[k + 1].nodes[tag].lim, events[k].use.result, o);
    var e :| e in node.lim.info && node.lim.info[e].UID == o.UID && Tracks(node.lim, e, o.IP);
    assert e in Emails(tag, node.users);
    u :| u in node.users && e == UserTag(tag, u.Uuid);
  }
}
