/**
 The id tables of the sing and hysteria2 cores. All nodes of such a core share one table that is keyed by
 uuid alone, so a user who leaves one node takes the id from every other node with it.
 */
module SharedIds {
  import opened Wrappers
  import opened Users
  import opened Limiter
  import Reconcile
  import Traffic

  datatype CoreError = NoInbound | LibraryFailed

  /** The part of the sing core that user changes touch. */
  class SingUsers {
    var uidMap: map<string, int>

    constructor ()
      ensures uidMap == map[]
    {
      uidMap := map[];
    }

    /** Records all ids before the library is asked. */
    method AddUsers(users: seq<UserInfo>, found: bool, refused: bool) returns (r: Result<int, CoreError>)
      modifies this
      ensures uidMap == if found then AddUids(old(uidMap), users) else old(uidMap)
      ensures r == if !found then Err(NoInbound) else if refused then Err(LibraryFailed) else Ok(|users|)
    {
      if !found {
        return Err(NoInbound);
      }
      for i := 0 to |users|
        invariant uidMap == AddUids(old(uidMap), users[..i])
      {
        assert users[..i + 1][..i] == users[..i];
        uidMap := uidMap[users[i].Uuid := users[i].Id];
      }
      assert users[..|users|] == users;
      if refused {
        return Err(LibraryFailed);
      }
      return Ok(|users|);
    }

    /** Drops all ids before the library is asked. */
    method DelUsers(users: seq<UserInfo>, found: bool, refused: bool) returns (r: Result<(), CoreError>)
      modifies this
      ensures uidMap == if found then old(uidMap) - Uuids(users) else old(uidMap)
      ensures r == if !found then Err(NoInbound) else if refused then Err(LibraryFailed) else Ok(())
    {
      if !found {
        return Err(NoInbound);
      }
      assert Uuids(users[..0]) == {};
      for i := 0 to |users|
        invariant uidMap == old(uidMap) - Uuids(users[..i])
      {
        EmailsSnoc("", users, i);
        uidMap := uidMap - {users[i].Uuid};
      }
      assert users[..|users|] == users;
      if refused {
        return Err(LibraryFailed);
      }
      return Ok(());
    }
  }

  // ----- Runs of all nodes

  /** The list of each node by tag, and the table they share. */
  datatype System = System(nodes: map<string, seq<UserInfo>>, uidMap: map<string, int>)

  datatype Event =
    | Boot(tag: string, users: seq<UserInfo>)
    | Tick(tag: string, newUsers: seq<UserInfo>, deleted: seq<UserInfo>, added: seq<UserInfo>)

  ghost predicate Next(s: System, e: Event, s': System) {
    match e
    case Boot(tag, users) =>
      && tag !in s.nodes && users != []
      && s' == System(s.nodes[tag := users], AddUids(s.uidMap, users))
    case Tick(tag, newUsers, deleted, added) =>
      && tag in s.nodes
      && (if newUsers == [] then s' == s
          else IsDiff(s.nodes[tag], newUsers, deleted, added)
               && s' == System(s.nodes[tag := newUsers], AddUids(s.uidMap - Uuids(deleted), added)))
  }

  /** The panel sends distinct uuids of one length, each with one id on all nodes. */
  predicate IsSent(n: nat, idOf: string -> int, users: seq<UserInfo>) {
    Listed(n, users) && forall u :: u in users ==> u.Id == idOf(u.Uuid)
  }

  predicate Sends(n: nat, idOf: string -> int, e: Event) {
    IsSent(n, idOf, if e.Boot? then e.users else e.newUsers)
  }

  ghost predicate IsRun(n: nat, idOf: string -> int, states: seq<System>, events: seq<Event>) {
    && |states| == |events| + 1 && states[0] == System(map[], map[])
    && forall i {:trigger events[i]} :: 0 <= i < |events| ==>
      Next(states[i], events[i], states[i + 1]) && Sends(n, idOf, events[i])
  }

  predicate IsListedOn(s: System, tag: string, uuid: string) {
    tag in s.nodes && uuid in Uuids(s.nodes[tag])
  }

  predicate IsListed(s: System, uuid: string) {
    exists tag :: tag in s.nodes && IsListedOn(s, tag, uuid)
  }

  /** The table holds exactly the users of all lists, with their ids. */
  ghost predicate Agrees(idOf: string -> int, s: System) {
    && (forall uuid :: uuid in s.uidMap <==> IsListed(s, uuid))
    && (forall uuid :: uuid in s.uidMap ==> s.uidMap[uuid] == idOf(uuid))
  }

  /** No user who leaves this node's list with the event is on the list of another node. */
  ghost predicate SparesOthers(s: System, e: Event) {
    e.Tick? && e.newUsers != [] ==>
      forall uuid, other :: other != e.tag && IsListedOn(s, other, uuid) && IsListedOn(s, e.tag, uuid) ==>
        uuid in Uuids(e.newUsers)
  }

  ghost predicate AllSent(n: nat, idOf: string -> int, s: System) {
    forall tag :: tag in s.nodes ==> IsSent(n, idOf, s.nodes[tag])
  }

  lemma RunStep(n: nat, idOf: string -> int, states: seq<System>, events: seq<Event>, i: nat)
    requires IsRun(n, idOf, states, events) && i < |events|
    ensures Next(states[i], events[i], states[i + 1]) && Sends(n, idOf, events[i])
  {
  }

  lemma StepSent(n: nat, idOf: string -> int, s: System, e: Event, s': System, tag: string)
    requires Next(s, e, s') && Sends(n, idOf, e) && tag in s'.nodes
    requires tag in s.nodes ==> IsSent(n, idOf, s.nodes[tag])
    ensures IsSent(n, idOf, s'.nodes[tag])
  {
  }

  lemma SentGoesOn(n: nat, idOf: string -> int, states: seq<System>, events: seq<Event>, k: nat, tag: string)
    requires IsRun(n, idOf, states, events) && k < |events| && tag in states[k + 1].nodes
    requires tag in states[k].nodes ==> IsSent(n, idOf, states[k].nodes[tag])
    ensures IsSent(n, idOf, states[k + 1].nodes[tag])
  {
    RunStep(n, idOf, states, events, k);
    StepSent(n, idOf, states[k], events[k], states[k + 1], tag);
  }

  lemma {:induction false} RunSent(n: nat, idOf: string -> int, states: seq<System>, events: seq<Event>, k: nat,
                                   tag: string)
    requires IsRun(n, idOf, states, events) && k <= |events| && tag in states[k].nodes
    ensures IsSent(n, idOf, states[k].nodes[tag])
  {
    if k > 0 {
      if tag in states[k - 1].nodes {
        RunSent(n, idOf, states, events, k - 1, tag);
      }
      SentGoesOn(n, idOf, states, events, k - 1, tag);
    }
  }

  lemma RunAllSent(n: nat, idOf: string -> int, states: seq<System>, events: seq<Event>, k: nat)
    requires IsRun(n, idOf, states, events) && k <= |events|
    ensures AllSent(n, idOf, states[k])
  {
    forall tag | tag in states[k].nodes ensures IsSent(n, idOf, states[k].nodes[tag]) {
      RunSent(n, idOf, states, events, k, tag);
    }
  }

  lemma UuidOf(users: seq<UserInfo>, uuid: string) returns (u: UserInfo)
    requires uuid in Uuids(users)
    ensures u in users && u.Uuid == uuid
  {
    u :| u in users && u.Uuid == uuid;
  }

  /** What adding does to the table. */
  lemma AddedIds(n: nat, idOf: string -> int, m: map<string, int>, users: seq<UserInfo>, uuid: string)
    requires IsSent(n, idOf, users)
    ensures uuid in AddUids(m, users) <==> uuid in m || uuid in Uuids(users)
    ensures uuid in Uuids(users) ==> AddUids(m, users)[uuid] == idOf(uuid)
    ensures uuid in m && uuid !in Uuids(users) ==> AddUids(m, users)[uuid] == m[uuid]
  {
    Reconcile.AddUidsAt(n, m, users);
    if uuid in Uuids(users) {
      var u := UuidOf(users, uuid);
    }
  }

  lemma DiffSent(n: nat, idOf: string -> int, prev: seq<UserInfo>, next: seq<UserInfo>,
                 deleted: seq<UserInfo>, added: seq<UserInfo>)
    requires IsSent(n, idOf, prev) && IsSent(n, idOf, next) && IsDiff(prev, next, deleted, added)
    ensures IsSent(n, idOf, added) && Uuids(deleted) <= Uuids(prev)
    ensures (Uuids(prev) - Uuids(deleted)) + Uuids(added) == Uuids(next)
  {
    DiffExact(n, prev, next, deleted, added);
    Reconcile.DiffUuids(n, prev, next, deleted, added);
    forall u | u in added ensures u.Id == idOf(u.Uuid) {
      assert u in next;
    }
  }

  /** After a tick an id is in the table if and only if the node lists the user now, or it was in the table
      and the node did not list the user before. */
  lemma TickEntry(n: nat, idOf: string -> int, s: System, e: Event, s': System, uuid: string)
    requires Next(s, e, s') && e.Tick? && e.newUsers != [] && Sends(n, idOf, e)
    requires AllSent(n, idOf, s) && Agrees(idOf, s)
    ensures uuid in s'.uidMap <==>
      uuid in Uuids(e.newUsers) || (uuid in s.uidMap && !IsListedOn(s, e.tag, uuid))
    ensures uuid in s'.uidMap ==> s'.uidMap[uuid] == idOf(uuid)
  {
    DiffSent(n, idOf, s.nodes[e.tag], e.newUsers, e.deleted, e.added);
    AddedIds(n, idOf, s.uidMap - Uuids(e.deleted), e.added, uuid);
    if IsListedOn(s, e.tag, uuid) {
      assert IsListed(s, uuid) && uuid in s.uidMap;
    }
  }

  /** A user is listed after a tick if this node lists it now, or another node does. */
  lemma TickListed(s: System, e: Event, s': System, uuid: string)
    requires Next(s, e, s') && e.Tick? && e.newUsers != []
    ensures IsListed(s', uuid) <==>
      uuid in Uuids(e.newUsers) || exists other :: other != e.tag && IsListedOn(s, other, uuid)
  {
    if uuid in Uuids(e.newUsers) {
      assert IsListedOn(s', e.tag, uuid);
    }
    forall tag | tag != e.tag ensures IsListedOn(s', tag, uuid) == IsListedOn(s, tag, uuid) {
    }
    if IsListed(s', uuid) {
      var tag :| tag in s'.nodes && IsListedOn(s', tag, uuid);
      assert tag == e.tag || IsListedOn(s, tag, uuid);
    }
    if other :| other != e.tag && IsListedOn(s, other, uuid) {
      assert IsListedOn(s', other, uuid);
    }
  }

  lemma TickKeeps(n: nat, idOf: string -> int, s: System, e: Event, s': System)
    requires Next(s, e, s') && e.Tick? && e.newUsers != [] && Sends(n, idOf, e)
    requires AllSent(n, idOf, s) && Agrees(idOf, s) && SparesOthers(s, e)
    ensures Agrees(idOf, s')
  {
    forall uuid
      ensures uuid in s'.uidMap <==> IsListed(s', uuid)
      ensures uuid in s'.uidMap ==> s'.uidMap[uuid] == idOf(uuid)
    {
      TickEntry(n, idOf, s, e, s', uuid);
      TickListed(s, e, s', uuid);
    }
  }

  /** A user who leaves one node and stays on another has no id afterwards. */
  lemma TakesFromOther(n: nat, idOf: string -> int, s: System, e: Event, s': System, uuid: string, other: string)
    requires Next(s, e, s') && e.Tick? && e.newUsers != [] && Sends(n, idOf, e)
    requires AllSent(n, idOf, s) && Agrees(idOf, s)
    requires other != e.tag && IsListedOn(s, other, uuid) && IsListedOn(s, e.tag, uuid) && uuid !in Uuids(e.newUsers)
    ensures IsListedOn(s', other, uuid) && uuid !in s'.uidMap && !Agrees(idOf, s')
  {
    TickEntry(n, idOf, s, e, s', uuid);
    assert IsListed(s', uuid) by { assert IsListedOn(s', other, uuid); }
  }

  lemma BootKeeps(n: nat, idOf: string -> int, s: System, e: Event, s': System)
    requires Next(s, e, s') && e.Boot? && Sends(n, idOf, e) && Agrees(idOf, s)
    ensures Agrees(idOf, s')
  {
    forall uuid
      ensures uuid in s'.uidMap <==> IsListed(s', uuid)
      ensures uuid in s'.uidMap ==> s'.uidMap[uuid] == idOf(uuid)
    {
      AddedIds(n, idOf, s.uidMap, e.users, uuid);
      BootListed(s, e, s', uuid);
    }
  }

  lemma BootListed(s: System, e: Event, s': System, uuid: string)
    requires Next(s, e, s') && e.Boot?
    ensures IsListed(s', uuid) <==> uuid in Uuids(e.users) || IsListed(s, uuid)
  {
    if uuid in Uuids(e.users) {
      assert IsListedOn(s', e.tag, uuid);
    }
    forall tag | tag != e.tag ensures IsListedOn(s', tag, uuid) == IsListedOn(s, tag, uuid) {
    }
  }

  lemma StepAgreesExactly(n: nat, idOf: string -> int, s: System, e: Event, s': System)
    requires Next(s, e, s') && Sends(n, idOf, e) && AllSent(n, idOf, s) && Agrees(idOf, s)
    ensures Agrees(idOf, s') <==> SparesOthers(s, e)
  {
    if e.Boot? {
      BootKeeps(n, idOf, s, e, s');
    } else if SparesOthers(s, e) {
      if e.newUsers != [] { TickKeeps(n, idOf, s, e, s'); }
    } else {
      var uuid, other :| other != e.tag && IsListedOn(s, other, uuid) && IsListedOn(s, e.tag, uuid)
                         && uuid !in Uuids(e.newUsers);
      TakesFromOther(n, idOf, s, e, s', uuid, other);
    }
  }

  /** The table has agreed with the lists at every moment up to `k`. */
  ghost predicate AgreesUpTo(idOf: string -> int, states: seq<System>, k: nat)
    requires k < |states|
  {
    Agrees(idOf, states[k]) && (k > 0 ==> AgreesUpTo(idOf, states, k - 1))
  }

  ghost predicate SparesUpTo(states: seq<System>, events: seq<Event>, k: nat)
    requires k <= |events| < |states|
  {
    k > 0 ==> SparesOthers(states[k - 1], events[k - 1]) && SparesUpTo(states, events, k - 1)
  }

  /** Over every run: the shared table holds exactly the listed users with their ids, at every moment so
      far, if and only if no tick so far took a user off one node's list who was on another's. */
  lemma {:induction false} RunAgreesExactly(n: nat, idOf: string -> int, states: seq<System>, events: seq<Event>,
                                            k: nat)
    requires IsRun(n, idOf, states, events) && k <= |events|
    ensures AgreesUpTo(idOf, states, k) <==> SparesUpTo(states, events, k)
  {
    if k == 0 {
      NothingAgrees(idOf);
    } else {
      RunAgreesExactly(n, idOf, states, events, k - 1);
      RunAllSent(n, idOf, states, events, k - 1);
      var s, e, s' := states[k - 1], events[k - 1], states[k];
      RunStep(n, idOf, states, events, k - 1);
      if AgreesUpTo(idOf, states, k - 1) {
        StepAgreesExactly(n, idOf, s, e, s');
      }
    }
  }

  lemma NothingAgrees(idOf: string -> int)
    ensures Agrees(idOf, System(map[], map[]))
  {
  }

  /** What such a tick costs: the other node's due counter of that user is thrown away unreported. */
  lemma TakenIdDiscards(n: nat, idOf: string -> int, s: System, e: Event, s': System, uuid: string, other: string,
                        table: Traffic.Table, threshold: int, reset: bool)
    requires Next(s, e, s') && e.Tick? && e.newUsers != [] && Sends(n, idOf, e)
    requires AllSent(n, idOf, s) && Agrees(idOf, s)
    requires other != e.tag && IsListedOn(s, other, uuid) && IsListedOn(s, e.tag, uuid) && uuid !in Uuids(e.newUsers)
    requires uuid in table && Traffic.IsDue(table[uuid], threshold)
    ensures IsListedOn(s', other, uuid)
    ensures !Traffic.IsReported(table, s'.uidMap, threshold, uuid)
    ensures uuid !in Traffic.Collected(table, s'.uidMap, threshold, reset)
  {
    TakesFromOther(n, idOf, s, e, s', uuid, other);
  }

  lemma ReplacedShows(u: UserInfo, v: UserInfo)
    requires Key(u) != Key(v)
    ensures IsDiff([u], [v], [u], [v])
  {
    assert [u][0] == u && [v][0] == v && [v][..0] == [];
    assert AddedOf([u], [v]) == AddedOf([u], []) + [v];
    assert LastOfKey([u], 0);
    assert forall w :: IsDropped([u], [v], w) <==> w == u;
  }

  lemma OneAdded(m: map<string, int>, u: UserInfo)
    ensures AddUids(m, [u]) == m[u.Uuid := u.Id]
  {
    assert [u][..0] == [];
  }

  lemma BootOne(s: System, tag: string, u: UserInfo)
    requires tag !in s.nodes
    ensures Next(s, Boot(tag, [u]), System(s.nodes[tag := [u]], s.uidMap[u.Uuid := u.Id]))
  {
    OneAdded(s.uidMap, u);
  }

  lemma ReplaceOne(s: System, tag: string, u: UserInfo, v: UserInfo)
    requires tag in s.nodes && s.nodes[tag] == [u] && Key(u) != Key(v)
    ensures Next(s, Tick(tag, [v], [u], [v]), System(s.nodes[tag := [v]], (s.uidMap - {u.Uuid})[v.Uuid := v.Id]))
  {
    ReplacedShows(u, v);
    assert Uuids([u]) == {u.Uuid};
    OneAdded(s.uidMap - {u.Uuid}, v);
  }

  lemma RunOfThree(n: nat, idOf: string -> int, states: seq<System>, events: seq<Event>)
    requires |states| == 4 && |events| == 3 && states[0] == System(map[], map[])
    requires Next(states[0], events[0], states[1]) && Sends(n, idOf, events[0])
    requires Next(states[1], events[1], states[2]) && Sends(n, idOf, events[1])
    requires Next(states[2], events[2], states[3]) && Sends(n, idOf, events[2])
    ensures IsRun(n, idOf, states, events)
  {
    forall i {:trigger events[i]} | 0 <= i < |events|
      ensures Next(states[i], events[i], states[i + 1]) && Sends(n, idOf, events[i])
    {
      assert i == 0 || i == 1 || i == 2;
    }
  }

  lemma OneSent(idOf: string -> int, u: UserInfo)
    requires |u.Uuid| == 1 && '|' !in u.Uuid && u.Id == idOf(u.Uuid)
    ensures IsSent(1, idOf, [u])
  {
  }

  lemma ListedWithoutId(idOf: string -> int, states: seq<System>, k: nat, tag: string, uuid: string)
    requires k < |states| && IsListedOn(states[k], tag, uuid) && uuid !in states[k].uidMap
    ensures !AgreesUpTo(idOf, states, k)
  {
    assert IsListed(states[k], uuid);
  }

  /** The states of that run. */
  lemma TakenSteps(u: UserInfo, v: UserInfo, states: seq<System>)
    requires u == UserInfo(1, "a", 0, 0) && v == UserInfo(2, "b", 0, 0) && |states| == 4
    requires states[0] == System(map[], map[]) && states[1] == System(map["A" := [u]], map["a" := 1])
    requires states[2] == System(map["A" := [u], "B" := [u]], map["a" := 1])
    requires states[3] == System(map["A" := [v], "B" := [u]], map["b" := 2])
    ensures Next(states[0], Boot("A", [u]), states[1]) && Next(states[1], Boot("B", [u]), states[2])
    ensures Next(states[2], Tick("A", [v], [u], [v]), states[3])
  {
    assert Key(u)[0] == 'a' && Key(v)[0] == 'b';
    BootOne(states[0], "A", u);
    BootOne(states[1], "B", u);
    assert states[2] == System(states[1].nodes["B" := [u]], states[1].uidMap["a" := 1]);
    ReplaceOne(states[2], "A", u, v);
    assert states[3] == System(states[2].nodes["A" := [v]], (states[2].uidMap - {"a"})["b" := 2]);
  }

  /** Two nodes list one user, and the first goes over to another: the user stays listed on the second, and
      has no id there any more. */
  lemma IdTaken(idOf: string -> int) returns (states: seq<System>, events: seq<Event>)
    requires idOf("a") == 1 && idOf("b") == 2
    ensures IsRun(1, idOf, states, events) && !AgreesUpTo(idOf, states, |events|)
    ensures IsListedOn(states[|events|], "B", "a") && "a" !in states[|events|].uidMap
  {
    var u, v := UserInfo(1, "a", 0, 0), UserInfo(2, "b", 0, 0);
    events := [Boot("A", [u]), Boot("B", [u]), Tick("A", [v], [u], [v])];
    states := [System(map[], map[]), System(map["A" := [u]], map["a" := 1]),
               System(map["A" := [u], "B" := [u]], map["a" := 1]), System(map["A" := [v], "B" := [u]], map["b" := 2])];
    TakenSteps(u, v, states);
    OneSent(idOf, u);
    OneSent(idOf, v);
    RunOfThree(1, idOf, states, events);
    assert u in states[3].nodes["B"];
    ListedWithoutId(idOf, states, 3, "B", "a");
  }
}
