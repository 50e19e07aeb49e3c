/**
 Traffic accounting of one node: counters per user, and the collect loop that reports and resets those
 above a threshold. The loops of the xray, sing and hysteria2 cores are the same but for their keys.
 */
module Traffic {
  import opened Volumes
  import opened Wrappers

  datatype UserTraffic = UserTraffic(UID: int, Upload: int, Download: int)

  type Table = map<string, Volume>

  /** What the loop has left once the users in `done` are visited. */
  function PartlyCollected(table: Table, done: set<string>, uidMap: map<string, int>, threshold: int,
                           reset: bool): Table {
    map user | user in table && (user in done && IsDue(table[user], threshold) ==> UidOf(uidMap, user) != 0) ::
      if user in done && reset && IsDue(table[user], threshold) then ZERO else table[user]
  }

  ghost predicate IsPartSlice(table: Table, done: set<string>, uidMap: map<string, int>, threshold: int,
                              slice: seq<UserTraffic>) {
    forall t :: multiset(slice)[t] == |ReportersOf(table, uidMap, threshold, t) * done|
  }

  function StoredOf(table: Table, user: string): Volume {
    if user in table then table[user] else ZERO
  }

  function UidOf(uidMap: map<string, int>, user: string): int {
    if user in uidMap then uidMap[user] else 0
  }

  predicate IsDue(v: Volume, threshold: int) {
    v.up + v.down > threshold
  }

  /** The users a collection reports. */
  predicate IsReported(table: Table, uidMap: map<string, int>, threshold: int, user: string) {
    user in table && IsDue(table[user], threshold) && UidOf(uidMap, user) != 0
  }

  /** What a collection leaves: due counters of users without an id go, other due ones are reset. */
  function Collected(table: Table, uidMap: map<string, int>, threshold: int, reset: bool): Table {
    map user | user in table && (IsDue(table[user], threshold) ==> UidOf(uidMap, user) != 0) ::
      if reset && IsDue(table[user], threshold) then ZERO else table[user]
  }

  function ReportersOf(table: Table, uidMap: map<string, int>, threshold: int, t: UserTraffic): set<string> {
    set user | user in table && IsReported(table, uidMap, threshold, user)
      && t == UserTraffic(UidOf(uidMap, user), table[user].up, table[user].down)
  }

  /** One entry for each reported user, in any order. */
  ghost predicate IsSlice(table: Table, uidMap: map<string, int>, threshold: int, slice: seq<UserTraffic>) {
    forall t :: multiset(slice)[t] == |ReportersOf(table, uidMap, threshold, t)|
  }

  class TrafficStorage {
    var UpCounter: int
    var DownCounter: int

    constructor ()
      ensures UpCounter == 0 && DownCounter == 0
    {
      UpCounter, DownCounter := 0, 0;
    }
  }

  class TrafficCounter {
    var Counters: map<string, TrafficStorage>

    /** No two users share a storage. */
    ghost predicate Valid()
      reads this
    {
      forall k, l :: k in Counters && l in Counters && k != l ==> Counters[k] != Counters[l]
    }

    ghost function View(): Table
      reads this, Counters.Values
    {
      map k | k in Counters :: Volume(Counters[k].UpCounter, Counters[k].DownCounter)
    }

    constructor ()
      ensures Valid() && View() == map[]
    {
      Counters := map[];
    }

    method GetCounter(user: string) returns (cts: TrafficStorage)
      requires Valid()
      modifies this
      ensures Valid() && user in Counters && cts == Counters[user]
      ensures user in old(Counters) ==> Counters == old(Counters)
      ensures user !in old(Counters) ==> fresh(cts) && Counters == old(Counters)[user := cts]
      ensures View() == old(View())[user := StoredOf(old(View()), user)]
    {
      if user in Counters {
        return Counters[user];
      }
      cts := new TrafficStorage();
      Counters := Counters[user := cts];
    }

    method Rx(user: string, n: int)
      requires Valid()
      modifies this, Counters.Values
      ensures Valid() && View() == old(View())[user := StoredOf(old(View()), user).Plus(Volume(0, n))]
    {
      var cts := GetCounter(user);
      cts.DownCounter := cts.DownCounter + n;
    }

    method Tx(user: string, n: int)
      requires Valid()
      modifies this, Counters.Values
      ensures Valid() && View() == old(View())[user := StoredOf(old(View()), user).Plus(Volume(n, 0))]
    {
      var cts := GetCounter(user);
      cts.UpCounter := cts.UpCounter + n;
    }

    method Delete(user: string)
      requires Valid()
      modifies this
      ensures Valid() && View() == old(View()) - {user} && Counters == old(Counters) - {user}
    {
      Counters := Counters - {user};
    }

    /** One user in the collect loop. `entry` is what is reported. */
    method CollectUser(user: string, uidMap: map<string, int>, threshold: int, reset: bool)
      returns (entry: Option<UserTraffic>)
      requires Valid() && user in Counters
      modifies this, Counters[user]
      ensures Valid() && (Counters == old(Counters) || Counters == old(Counters) - {user})
      ensures var v, uid := old(View())[user], UidOf(uidMap, user);
        && View() == (if !IsDue(v, threshold) then old(View())
                      else if uid == 0 then old(View()) - {user}
                      else if reset then old(View())[user := ZERO] else old(View()))
        && entry == (if IsDue(v, threshold) && uid != 0 then Some(UserTraffic(uid, v.up, v.down)) else None)
    {
      var traffic := Counters[user];
      var up, down := traffic.UpCounter, traffic.DownCounter;
      if up + down > threshold {
        if reset {
          traffic.UpCounter := 0;
          traffic.DownCounter := 0;
        }
        var uid := if user in uidMap then uidMap[user] else 0;
        if uid == 0 {
          Delete(user);
          return None;
        }
        return Some(UserTraffic(uid, up, down));
      }
      return None;
    }

    /** One round of the collect loop. `table` is what the loop started from, `done` whom it visited. */
    method VisitUser(user: string, uidMap: map<string, int>, threshold: int, reset: bool,
                     slice: seq<UserTraffic>, ghost table: Table, ghost done: set<string>)
      returns (trafficSlice: seq<UserTraffic>)
      requires Valid() && user in table && user !in done
      requires View() == PartlyCollected(table, done, uidMap, threshold, reset)
      requires IsPartSlice(table, done, uidMap, threshold, slice)
      modifies this, Counters.Values
      ensures Valid() && (Counters == old(Counters) || Counters == old(Counters) - {user})
      ensures View() == PartlyCollected(table, done + {user}, uidMap, threshold, reset)
      ensures IsPartSlice(table, done + {user}, uidMap, threshold, trafficSlice)
    {
      PartlyGrows(table, done, uidMap, threshold, reset, user);
      var entry := CollectUser(user, uidMap, threshold, reset);
      trafficSlice := if entry.Some? then slice + [entry.value] else slice;
      SliceGrows(table, done, uidMap, threshold, user, slice, trafficSlice);
    }

    method GetUserTrafficSlice(uidMap: map<string, int>, threshold: int, reset: bool)
      returns (trafficSlice: seq<UserTraffic>)
      requires Valid()
      modifies this, Counters.Values
      ensures Valid() && View() == Collected(old(View()), uidMap, threshold, reset)
      ensures IsSlice(old(View()), uidMap, threshold, trafficSlice)
    {
      ghost var table, done := View(), {};
      trafficSlice := [];
      var users := Counters.Keys;
      PartlyEnds(table, uidMap, threshold, reset);
      while users != {}
        invariant Valid() && users == table.Keys - done && done <= table.Keys
        invariant Counters.Values <= old(Counters.Values)
        invariant View() == PartlyCollected(table, done, uidMap, threshold, reset)
        invariant IsPartSlice(table, done, uidMap, threshold, trafficSlice)
        decreases users
      {
        var user :| user in users;
        trafficSlice := VisitUser(user, uidMap, threshold, reset, trafficSlice, table, done);
        users := users - {user};
        done := done + {user};
      }
      assert done == table.Keys;
    }
  }

  lemma PartlyEnds(table: Table, uidMap: map<string, int>, threshold: int, reset: bool)
    ensures PartlyCollected(table, {}, uidMap, threshold, reset) == table
    ensures PartlyCollected(table, table.Keys, uidMap, threshold, reset) == Collected(table, uidMap, threshold, reset)
    ensures IsPartSlice(table, {}, uidMap, threshold, [])
    ensures forall slice :: IsPartSlice(table, table.Keys, uidMap, threshold, slice) ==>
      IsSlice(table, uidMap, threshold, slice)
  {
    forall t ensures ReportersOf(table, uidMap, threshold, t) * table.Keys == ReportersOf(table, uidMap, threshold, t) {
    }
    forall t ensures |ReportersOf(table, uidMap, threshold, t) * {}| == 0 {
      assert ReportersOf(table, uidMap, threshold, t) * {} == {};
    }
  }

  lemma PartlyGrows(table: Table, done: set<string>, uidMap: map<string, int>, threshold: int, reset: bool,
                    user: string)
    requires user in table && user !in done
    ensures var part, v := PartlyCollected(table, done, uidMap, threshold, reset), table[user];
      && user in part && part[user] == v
      && PartlyCollected(table, done + {user}, uidMap, threshold, reset)
         == (if !IsDue(v, threshold) then part
             else if UidOf(uidMap, user) == 0 then part - {user}
             else if reset then part[user := ZERO] else part)
  {
  }

  lemma SliceGrows(table: Table, done: set<string>, uidMap: map<string, int>, threshold: int, user: string,
                   slice: seq<UserTraffic>, slice': seq<UserTraffic>)
    requires user in table && user !in done && IsPartSlice(table, done, uidMap, threshold, slice)
    requires slice' == if IsReported(table, uidMap, threshold, user)
                       then slice + [UserTraffic(UidOf(uidMap, user), table[user].up, table[user].down)] else slice
    ensures IsPartSlice(table, done + {user}, uidMap, threshold, slice')
  {
    forall t ensures multiset(slice')[t] == |ReportersOf(table, uidMap, threshold, t) * (done + {user})| {
      OneMore(ReportersOf(table, uidMap, threshold, t), done, user);
    }
  }

  lemma OneMore(r: set<string>, done: set<string>, user: string)
    requires user !in done
    ensures |r * (done + {user})| == |r * done| + (if user in r then 1 else 0)
  {
    assert r * (done + {user}) == r * done + (if user in r then {user} else {});
  }

  // ----- What a collection does to each user

  /** The user's total is above the threshold. */
  predicate IsAbove(table: Table, user: string, threshold: int) {
    user in table && table[user].up + table[user].down > threshold
  }

  /** The user has an id. */
  predicate HasUid(uidMap: map<string, int>, user: string) {
    user in uidMap && uidMap[user] != 0
  }

  /** A user at or below the threshold keeps its counts, one above it with an id is zeroed, or keeps its counts
      when nothing is reset, and one above it without an id is gone. */
  lemma CollectedExactly(table: Table, uidMap: map<string, int>, threshold: int, reset: bool, user: string)
    ensures var after := Collected(table, uidMap, threshold, reset);
      && (user in after <==> user in table && (IsAbove(table, user, threshold) ==> HasUid(uidMap, user)))
      && (user in after ==>
            after[user] == if reset && IsAbove(table, user, threshold) then Volume(0, 0) else table[user])
    ensures IsReported(table, uidMap, threshold, user) <==> IsAbove(table, user, threshold) && HasUid(uidMap, user)
  {
  }

  /** What the slice says about a user. */
  predicate IsEntryOf(t: UserTraffic, table: Table, uidMap: map<string, int>, threshold: int, user: string) {
    && IsAbove(table, user, threshold) && HasUid(uidMap, user)
    && t.UID == uidMap[user] && t.Upload == table[user].up && t.Download == table[user].down
  }

  /** The slice says what the counters held: one entry for each user above the threshold with an id, and no
      other entry. */
  lemma SliceExactly(table: Table, uidMap: map<string, int>, threshold: int, slice: seq<UserTraffic>)
    requires IsSlice(table, uidMap, threshold, slice)
    ensures forall user :: IsAbove(table, user, threshold) && HasUid(uidMap, user) ==>
      UserTraffic(uidMap[user], table[user].up, table[user].down) in slice
    ensures forall t :: t in slice ==> exists user :: IsEntryOf(t, table, uidMap, threshold, user)
  {
    forall user | IsAbove(table, user, threshold) && HasUid(uidMap, user)
      ensures UserTraffic(uidMap[user], table[user].up, table[user].down) in slice
    {
      var t := UserTraffic(uidMap[user], table[user].up, table[user].down);
      assert user in ReportersOf(table, uidMap, threshold, t);
      assert multiset(slice)[t] > 0;
    }
    forall t | t in slice ensures exists user :: IsEntryOf(t, table, uidMap, threshold, user) {
      assert multiset(slice)[t] > 0;
      var user :| user in ReportersOf(table, uidMap, threshold, t);
      assert IsEntryOf(t, table, uidMap, threshold, user);
    }
  }

  /** With one user for each id, a user's entry comes once. */
  lemma SliceOnce(table: Table, uidMap: map<string, int>, threshold: int, slice: seq<UserTraffic>, user: string)
    requires IsSlice(table, uidMap, threshold, slice) && IsAbove(table, user, threshold) && HasUid(uidMap, user)
    requires forall other :: other in uidMap && uidMap[other] == uidMap[user] ==> other == user
    ensures multiset(slice)[UserTraffic(uidMap[user], table[user].up, table[user].down)] == 1
  {
    assert ReportersOf(table, uidMap, threshold, UserTraffic(uidMap[user], table[user].up, table[user].down)) == {user};
  }

  // ----- Conservation over runs

  /** What happens to the counters of a node: bytes are counted, users are dropped, and collections are
      made against the table of user ids of the moment. */
  datatype Event =
    | Count(user: string, volume: Volume)
    | Drop(user: string)
    | Collect(uidMap: map<string, int>)

  function Next(table: Table, e: Event, threshold: int): Table {
    match e
    case Count(user, volume) => table[user := StoredOf(table, user).Plus(volume)]
    case Drop(user) => table - {user}
    case Collect(uidMap) => Collected(table, uidMap, threshold, true)
  }

  predicate IsRun(tables: seq<Table>, events: seq<Event>, threshold: int) {
    && |tables| == |events| + 1
    && forall i {:trigger events[i]} :: 0 <= i < |events| ==> tables[i + 1] == Next(tables[i], events[i], threshold)
  }

  lemma RunStep(tables: seq<Table>, events: seq<Event>, threshold: int, i: nat)
    requires IsRun(tables, events, threshold) && i < |events|
    ensures tables[i + 1] == Next(tables[i], events[i], threshold)
  {
  }

  function CountedBy(e: Event, user: string, dir: Dir): int {
    if e.Count? && e.user == user then e.volume.At(dir) else 0
  }

  function ReportedBy(table: Table, e: Event, user: string, threshold: int, dir: Dir): int {
    if e.Collect? && IsReported(table, e.uidMap, threshold, user) then table[user].At(dir) else 0
  }

  /** What an event throws away: the counts of a dropped user, and due ones of a user without an id. */
  function LostBy(table: Table, e: Event, user: string, threshold: int, dir: Dir): int {
    match e
    case Count(_, _) => 0
    case Drop(u) => if u == user then StoredOf(table, user).At(dir) else 0
    case Collect(uidMap) =>
      if user in table && IsDue(table[user], threshold) && UidOf(uidMap, user) == 0 then table[user].At(dir) else 0
  }

  /** The bytes counted for a user in one direction. */
  function Counted(events: seq<Event>, k: nat, user: string, dir: Dir): int
    requires k <= |events|
  {
    if k == 0 then 0 else Counted(events, k - 1, user, dir) + CountedBy(events[k - 1], user, dir)
  }

  /** What the slices of the first `k` events say about a user. */
  function Reported(tables: seq<Table>, events: seq<Event>, k: nat, user: string, threshold: int, dir: Dir): int
    requires k <= |events| < |tables|
  {
    if k == 0 then 0
    else
      Reported(tables, events, k - 1, user, threshold, dir)
        + ReportedBy(tables[k - 1], events[k - 1], user, threshold, dir)
  }

  function Lost(tables: seq<Table>, events: seq<Event>, k: nat, user: string, threshold: int, dir: Dir): int
    requires k <= |events| < |tables|
  {
    if k == 0 then 0
    else
      Lost(tables, events, k - 1, user, threshold, dir)
        + LostBy(tables[k - 1], events[k - 1], user, threshold, dir)
  }

  lemma CollectTakes(table: Table, uidMap: map<string, int>, user: string, threshold: int)
    ensures StoredOf(Collected(table, uidMap, threshold, true), user)
         == if user in table && IsDue(table[user], threshold) then ZERO else StoredOf(table, user)
  {
  }

  lemma StepAccounted(table: Table, e: Event, user: string, threshold: int, dir: Dir)
    ensures StoredOf(table, user).At(dir) + CountedBy(e, user, dir)
         == StoredOf(Next(table, e, threshold), user).At(dir)
            + ReportedBy(table, e, user, threshold, dir) + LostBy(table, e, user, threshold, dir)
  {
    if e.Collect? {
      CollectTakes(table, e.uidMap, user, threshold);
    }
  }

  /** The exact account of any user over any run, in each direction: what was stored and counted is what was
      reported, what was thrown away with a dropped user or for want of an id, and what is stored. */
  lemma {:induction false} Accounted(tables: seq<Table>, events: seq<Event>, k: nat, user: string, threshold: int,
                                     dir: Dir)
    requires IsRun(tables, events, threshold) && k <= |events|
    ensures StoredOf(tables[0], user).At(dir) + Counted(events, k, user, dir)
         == Reported(tables, events, k, user, threshold, dir) + Lost(tables, events, k, user, threshold, dir)
            + StoredOf(tables[k], user).At(dir)
  {
    if k > 0 {
      Accounted(tables, events, k - 1, user, threshold, dir);
      RunStep(tables, events, threshold, k - 1);
      StepAccounted(tables[k - 1], events[k - 1], user, threshold, dir);
    }
  }

  /** The event neither drops the user nor collects while it has no id. */
  predicate Stays(e: Event, user: string) {
    match e
    case Count(_, _) => true
    case Drop(u) => u != user
    case Collect(uidMap) => UidOf(uidMap, user) != 0
  }

  lemma {:induction false} NothingLost(tables: seq<Table>, events: seq<Event>, i: nat, k: nat, user: string,
                                       threshold: int, dir: Dir)
    requires i <= k <= |events| < |tables|
    requires forall j :: i <= j < k ==> Stays(events[j], user)
    ensures Lost(tables, events, k, user, threshold, dir) == Lost(tables, events, i, user, threshold, dir)
  {
    if i < k {
      NothingLost(tables, events, i, k - 1, user, threshold, dir);
    }
  }

  /** From any moment `i` on, as long as the user stays: in each direction what was stored then and counted
      since is what was reported since and is stored. */
  lemma Conserved(tables: seq<Table>, events: seq<Event>, i: nat, k: nat, user: string, threshold: int, dir: Dir)
    requires IsRun(tables, events, threshold) && i <= k <= |events|
    requires forall j :: i <= j < k ==> Stays(events[j], user)
    ensures StoredOf(tables[i], user).At(dir) + Counted(events, k, user, dir) - Counted(events, i, user, dir)
         == Reported(tables, events, k, user, threshold, dir) - Reported(tables, events, i, user, threshold, dir)
            + StoredOf(tables[k], user).At(dir)
  {
    Accounted(tables, events, i, user, threshold, dir);
    Accounted(tables, events, k, user, threshold, dir);
    NothingLost(tables, events, i, k, user, threshold, dir);
  }

  /** What was stored for a user at `i` and counted since, and is not reported yet. */
  function Unreported(tables: seq<Table>, events: seq<Event>, i: nat, k: nat, user: string, threshold: int,
                      dir: Dir): int
    requires i <= k <= |events| < |tables|
  {
    StoredOf(tables[i], user).At(dir) + Counted(events, k, user, dir) - Counted(events, i, user, dir)
      - (Reported(tables, events, k, user, threshold, dir) - Reported(tables, events, i, user, threshold, dir))
  }

  /** A collection leaves at most the threshold unreported, both directions together, and nothing more than
      zero when the threshold is negative. */
  lemma LagBounded(tables: seq<Table>, events: seq<Event>, i: nat, k: nat, user: string, threshold: int)
    requires IsRun(tables, events, threshold) && i < k <= |events| && events[k - 1].Collect?
    requires forall j :: i <= j < k ==> Stays(events[j], user)
    ensures Unreported(tables, events, i, k, user, threshold, Up)
            + Unreported(tables, events, i, k, user, threshold, Down)
         <= if threshold > 0 then threshold else 0
  {
    Conserved(tables, events, i, k, user, threshold, Up);
    Conserved(tables, events, i, k, user, threshold, Down);
    RunStep(tables, events, threshold, k - 1);
    CollectTakes(tables[k - 1], events[k - 1].uidMap, user, threshold);
  }
}
