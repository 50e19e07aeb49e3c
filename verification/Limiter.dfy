/**
 The admission limiter of one node: who may open a connection, from how many addresses, and at what
 rate. `State` is the value of a limiter; the functions on it say what each call means, and the class
 below is the limiter itself, updated in place.
 */
module Limiter {
  import opened Wrappers
  import opened Users

  datatype UserLimitInfo = UserLimitInfo(
    UID: int, SpeedLimit: int, DeviceLimit: int, DynamicSpeedLimit: int, ExpireTime: int, OverLimit: bool)

  /** A token bucket: which one it is, and its rate in bytes per second. */
  datatype Bucket = Bucket(serial: nat, rate: int)

  datatype OnlineUser = OnlineUser(UID: int, IP: string)

  datatype Verdict = Rejected | Admitted(bucket: Option<Bucket>)

  datatype LimitError = NotFound

  type IpMap = map<string, int>

  /** `online`, `info` and `buckets` are keyed by tag and uuid, `uids` by uuid, `alive` by user id. */
  datatype State = State(
    nodeLimit: int, online: map<string, IpMap>, oldOnline: IpMap, uids: map<string, int>,
    info: map<string, UserLimitInfo>, buckets: map<string, Bucket>, alive: map<int, int>)

  // ----- Rates

  function DetermineSpeedLimit(limit1: int, limit2: int): int {
    if limit1 == 0 || limit2 == 0 then
      if limit1 > limit2 then limit1 else if limit1 < limit2 then limit2 else 0
    else
      if limit1 > limit2 then limit2 else limit1
  }

  predicate IsMinNonZero(a: int, b: int, r: int) {
    if a == 0 && b == 0 then r == 0
    else r != 0 && (r == a || r == b) && (a != 0 ==> r <= a) && (b != 0 ==> r <= b)
  }

  /** The minimum non-zero limit is returned unless one limit is zero and the other negative. */
  lemma DetermineExactly(a: int, b: int)
    ensures IsMinNonZero(a, b, DetermineSpeedLimit(a, b)) <==> !(a == 0 && b < 0) && !(b == 0 && a < 0)
  {
  }

  /** A negative limit beside none is lost: zero is returned. */
  lemma NegativeLimitLost()
    ensures DetermineSpeedLimit(0, -1) == 0 && !IsMinNonZero(0, -1, DetermineSpeedLimit(0, -1))
  {
  }

  const TWO_63: int := 0x8000_0000_0000_0000

  predicate FitsInt64(x: int) {
    -TWO_63 <= x < TWO_63
  }

  function WrapInt64(x: int): (r: int)
    ensures FitsInt64(r)
    ensures FitsInt64(x) <==> r == x
    ensures (x - r) % 0x1_0000_0000_0000_0000 == 0
  {
    (x + TWO_63) % (2 * TWO_63) - TWO_63
  }

  function TruncDiv(x: int, d: int): int
    requires d > 0
  {
    if x >= 0 then x / d else -((-x) / d)
  }

  /** Megabits per second to bytes per second, in 64-bit arithmetic. */
  function Rate(limit: int): int {
    TruncDiv(WrapInt64(limit * 1000000), 8)
  }

  /** The rate is 125000 times the limit exactly when the product fits in 64 bits. */
  lemma RateExactly(limit: int)
    ensures Rate(limit) == 125000 * limit <==> FitsInt64(limit * 1000000)
  {
    var x := limit * 1000000;
    var w := WrapInt64(x);
    assert x == 8 * (125000 * limit);
    if w >= 0 {
      assert 8 * (w / 8) <= w < 8 * (w / 8) + 8;
    } else {
      assert 8 * ((-w) / 8) <= -w < 8 * ((-w) / 8) + 8;
    }
  }

  // ----- Admission

  function AliveOf(alive: map<int, int>, uid: int): int {
    if uid in alive then alive[uid] else 0
  }

  const MAPPED_PREFIX: string := "::ffff:"

  function TrimMapped(ip: string): string {
    if MAPPED_PREFIX <= ip then ip[|MAPPED_PREFIX|..] else ip
  }

  /** The prefix of an address mapped into the longer form is taken off once; other addresses stay. */
  lemma TrimExactly(ip: string)
    ensures !("::ffff:" <= ip) ==> TrimMapped(ip) == ip
    ensures TrimMapped("::ffff:" + ip) == ip
  {
    assert ("::ffff:" + ip)[7..] == ip;
  }

  predicate IsExpired(u: UserLimitInfo, now: int) {
    u.ExpireTime < now && u.ExpireTime != 0
  }

  function UserLimit(u: UserLimitInfo, now: int): int {
    if IsExpired(u, now) then u.SpeedLimit else DetermineSpeedLimit(u.SpeedLimit, u.DynamicSpeedLimit)
  }

  predicate Tracks(st: State, email: string, ip: string) {
    email in st.online && ip in st.online[email]
  }

  /** A new address of a user that is at its device limit, and not one of the last collection. */
  predicate IsBlocked(st: State, email: string, ip: string)
    requires email in st.info
  {
    var u := st.info[email];
    && !Tracks(st, email, ip)
    && ip !in st.oldOnline
    && 0 < u.DeviceLimit <= AliveOf(st.alive, u.UID)
  }

  /** The user records once an expired dynamic limit is dropped. A user without a limit of its own
      loses its record with it. */
  function Refreshed(info: map<string, UserLimitInfo>, email: string, now: int): map<string, UserLimitInfo>
    requires email in info
  {
    var u := info[email];
    if !IsExpired(u, now) then info
    else if u.SpeedLimit != 0 then info[email := u.(DynamicSpeedLimit := 0, ExpireTime := 0)]
    else info - {email}
  }

  function IpsOf(st: State, email: string): IpMap {
    if email in st.online then st.online[email] else map[]
  }

  /** Tracks an address. One known from the last collection under the same id is taken off that list. */
  function Tracked(st: State, email: string, ip: string, uid: int): State {
    if Tracks(st, email, ip) then st
    else st.(
      online := st.online[email := IpsOf(st, email)[ip := uid]],
      oldOnline := if ip in st.oldOnline && st.oldOnline[ip] == uid then st.oldOnline - {ip} else st.oldOnline)
  }

  /** The bucket a connection gets: the cached one, or a fresh one that is then cached. */
  function WithBucket(st: State, email: string, rate: int, serial: nat): (State, Verdict) {
    if rate <= 0 then (st, Admitted(None))
    else if email in st.buckets then (st, Admitted(Some(st.buckets[email])))
    else (st.(buckets := st.buckets[email := Bucket(serial, rate)]), Admitted(Some(Bucket(serial, rate))))
  }

  /** One admission: the new state and the verdict. `tracked` holds for connections that count as
      devices, `serial` names the bucket that is made if one is needed. */
  function Admit(st: State, email: string, rawIp: string, now: int, tracked: bool, serial: nat): (State, Verdict) {
    if email !in st.info then (st, Rejected)
    else
      var u, ip := st.info[email], TrimMapped(rawIp);
      var st1 := st.(info := Refreshed(st.info, email, now));
      if tracked && IsBlocked(st, email, ip) then (st1, Rejected)
      else
        var st2 := if tracked then Tracked(st1, email, ip, u.UID) else st1;
        WithBucket(st2, email, Rate(DetermineSpeedLimit(st.nodeLimit, UserLimit(u, now))), serial)
  }

  /** Who is rejected, and that a rejection is rolled back. */
  lemma RejectedExactly(st: State, email: string, rawIp: string, now: int, tracked: bool, serial: nat)
    ensures var (st', verdict) := Admit(st, email, rawIp, now, tracked, serial);
      && (verdict == Rejected <==> email !in st.info || (tracked && IsBlocked(st, email, TrimMapped(rawIp))))
      && (verdict == Rejected ==> st' == st.(info := st'.info))
      && (verdict == Rejected ==> st'.info == st.info || (email in st.info && IsExpired(st.info[email], now)))
      && (verdict != Rejected && tracked ==> Tracks(st', email, TrimMapped(rawIp)))
  {
  }

  // ----- Changes of the user list

  function Recorded(u: UserInfo): UserLimitInfo {
    UserLimitInfo(u.Id, u.SpeedLimit, u.DeviceLimit, 0, 0, false)
  }

  function Emails(tag: string, users: seq<UserInfo>): set<string> {
    set u | u in users :: UserTag(tag, u.Uuid)
  }

  function Uuids(users: seq<UserInfo>): set<string> {
    set u | u in users :: u.Uuid
  }

  function Ids(users: seq<UserInfo>): set<int> {
    set u | u in users :: u.Id
  }

  function AddRecords(m: map<string, UserLimitInfo>, tag: string, users: seq<UserInfo>): map<string, UserLimitInfo> {
    if users == [] then m
    else
      var k := |users| - 1;
      AddRecords(m, tag, users[..k])[UserTag(tag, users[k].Uuid) := Recorded(users[k])]
  }

  function AddUids(m: map<string, int>, users: seq<UserInfo>): map<string, int> {
    if users == [] then m
    else
      var k := |users| - 1;
      AddUids(m, users[..k])[users[k].Uuid := users[k].Id]
  }

  function Removed(st: State, tag: string, deleted: seq<UserInfo>): State {
    var emails := Emails(tag, deleted);
    st.(info := st.info - emails, online := st.online - emails, buckets := st.buckets - emails,
        uids := st.uids - Uuids(deleted), alive := st.alive - Ids(deleted))
  }

  /** Deleted users lose everything the limiter has on them, then added users are recorded. */
  function Updated(st: State, tag: string, added: seq<UserInfo>, deleted: seq<UserInfo>): State {
    var st1 := Removed(st, tag, deleted);
    st1.(info := AddRecords(st1.info, tag, added), uids := AddUids(st1.uids, added))
  }

  /** A limiter for a fresh list of users. */
  function Initial(tag: string, nodeLimit: int, users: seq<UserInfo>, alive: map<int, int>): State {
    State(nodeLimit, map[], map[], AddUids(map[], users), AddRecords(map[], tag, users), map[], alive)
  }

  /** A dynamic limit put on a recorded user. */
  function WithDynamic(st: State, email: string, limit: int, expire: int): State {
    if email in st.info
    then st.(info := st.info[email := st.info[email].(DynamicSpeedLimit := limit, ExpireTime := expire)])
    else st
  }

  // ----- Collection

  /** The users that track `o.IP` under the id `o.UID`. */
  function Holders(online: map<string, IpMap>, o: OnlineUser): set<string> {
    set email | email in online && o.IP in online[email] && online[email][o.IP] == o.UID
  }

  /** What a collection may leave: nothing is tracked, every tracked address is on the list with the id
      of one of its users, and each tracked pair was returned once for every user that holds it. */
  ghost predicate IsCollection(st: State, st': State, result: seq<OnlineUser>) {
    && st' == st.(online := map[], oldOnline := st'.oldOnline)
    && (forall ip :: ip in st'.oldOnline ==> Holders(st.online, OnlineUser(st'.oldOnline[ip], ip)) != {})
    && (forall email, ip :: Tracks(st, email, ip) ==> ip in st'.oldOnline)
    && (forall o :: multiset(result)[o] == |Holders(st.online, o)|)
  }

  /** A collection returns exactly the tracked pairs, and lists exactly their addresses. */
  lemma CollectionExactly(st: State, st': State, result: seq<OnlineUser>)
    requires IsCollection(st, st', result)
    ensures forall ip :: ip in st'.oldOnline <==> exists email :: email in st.online && ip in st.online[email]
    ensures forall o :: o in result <==>
      exists email :: email in st.online && o.IP in st.online[email] && st.online[email][o.IP] == o.UID
  {
    forall ip ensures ip in st'.oldOnline <==> exists email :: email in st.online && ip in st.online[email] {
      if ip in st'.oldOnline {
        var email :| email in Holders(st.online, OnlineUser(st'.oldOnline[ip], ip));
      }
      if email :| email in st.online && ip in st.online[email] {
        assert Tracks(st, email, ip);
      }
    }
    forall o ensures o in result <==>
      exists email :: email in st.online && o.IP in st.online[email] && st.online[email][o.IP] == o.UID
    {
      assert multiset(result)[o] == |Holders(st.online, o)|;
      assert o in result <==> Holders(st.online, o) != {};
      if email :| email in st.online && o.IP in st.online[email] && st.online[email][o.IP] == o.UID {
        assert email in Holders(st.online, o);
      }
    }
  }

  lemma EmailsSnoc(tag: string, users: seq<UserInfo>, i: nat)
    requires i < |users|
    ensures Emails(tag, users[..i + 1]) == Emails(tag, users[..i]) + {UserTag(tag, users[i].Uuid)}
    ensures Uuids(users[..i + 1]) == Uuids(users[..i]) + {users[i].Uuid}
    ensures Ids(users[..i + 1]) == Ids(users[..i]) + {users[i].Id}
  {
    assert users[..i + 1] == users[..i] + [users[i]];
  }

  lemma RemovedSnoc(st: State, tag: string, deleted: seq<UserInfo>, i: nat)
    requires i < |deleted|
    ensures var before, email := Removed(st, tag, deleted[..i]), UserTag(tag, deleted[i].Uuid);
      Removed(st, tag, deleted[..i + 1]) == before.(
        info := before.info - {email}, online := before.online - {email}, buckets := before.buckets - {email},
        uids := before.uids - {deleted[i].Uuid}, alive := before.alive - {deleted[i].Id})
  {
    EmailsSnoc(tag, deleted, i);
  }

  lemma AddSnoc(m: map<string, UserLimitInfo>, ids: map<string, int>, tag: string, users: seq<UserInfo>, i: nat)
    requires i < |users|
    ensures AddRecords(m, tag, users[..i + 1])
         == AddRecords(m, tag, users[..i])[UserTag(tag, users[i].Uuid) := Recorded(users[i])]
    ensures AddUids(ids, users[..i + 1]) == AddUids(ids, users[..i])[users[i].Uuid := users[i].Id]
  {
    assert users[..i + 1][..i] == users[..i];
  }

  class Limiter {
    var SpeedLimit: int
    var UserOnlineIP: map<string, IpMap>
    var OldUserOnline: IpMap
    var UUIDtoUID: map<string, int>
    var UserLimitInfo: map<string, UserLimitInfo>
    var SpeedLimiter: map<string, Bucket>
    var AliveList: map<int, int>

    ghost function View(): State
      reads this
    {
      State(SpeedLimit, UserOnlineIP, OldUserOnline, UUIDtoUID, UserLimitInfo, SpeedLimiter, AliveList)
    }

    constructor AddLimiter(tag: string, nodeLimit: int, users: seq<UserInfo>, aliveList: map<int, int>)
      ensures View() == Initial(tag, nodeLimit, users, aliveList)
    {
      SpeedLimit := nodeLimit;
      UserOnlineIP, OldUserOnline, SpeedLimiter, AliveList := map[], map[], map[], aliveList;
      UUIDtoUID, UserLimitInfo := map[], map[];
      new;
      Record(tag, users);
    }

    /** The loop that records users. */
    method Record(tag: string, users: seq<UserInfo>)
      modifies this
      ensures View() == old(View()).(
        info := AddRecords(old(UserLimitInfo), tag, users), uids := AddUids(old(UUIDtoUID), users))
    {
      for i := 0 to |users|
        invariant View() == old(View()).(
          info := AddRecords(old(UserLimitInfo), tag, users[..i]), uids := AddUids(old(UUIDtoUID), users[..i]))
      {
        AddSnoc(old(UserLimitInfo), old(UUIDtoUID), tag, users, i);
        UUIDtoUID := UUIDtoUID[users[i].Uuid := users[i].Id];
        UserLimitInfo := UserLimitInfo[UserTag(tag, users[i].Uuid) := Recorded(users[i])];
      }
      assert users[..|users|] == users;
    }

    /** The loop that drops users. */
    method Drop(tag: string, deleted: seq<UserInfo>)
      modifies this
      ensures View() == Removed(old(View()), tag, deleted)
    {
      assert Removed(View(), tag, []) == View();
      for i := 0 to |deleted|
        invariant View() == Removed(old(View()), tag, deleted[..i])
      {
        RemovedSnoc(old(View()), tag, deleted, i);
        var email := UserTag(tag, deleted[i].Uuid);
        UserLimitInfo := UserLimitInfo - {email};
        UserOnlineIP := UserOnlineIP - {email};
        SpeedLimiter := SpeedLimiter - {email};
        UUIDtoUID := UUIDtoUID - {deleted[i].Uuid};
        AliveList := AliveList - {deleted[i].Id};
      }
      assert deleted[..|deleted|] == deleted;
    }

    method UpdateUser(tag: string, added: seq<UserInfo>, deleted: seq<UserInfo>)
      modifies this
      ensures View() == Updated(old(View()), tag, added, deleted)
    {
      Drop(tag, deleted);
      Record(tag, added);
    }

    method UpdateDynamicSpeedLimit(tag: string, uuid: string, limit: int, expire: int)
      returns (r: Result<(), LimitError>)
      modifies `UserLimitInfo
      ensures View() == WithDynamic(old(View()), UserTag(tag, uuid), limit, expire)
      ensures r == if UserTag(tag, uuid) in old(UserLimitInfo) then Ok(()) else Err(NotFound)
    {
      var email := UserTag(tag, uuid);
      if email in UserLimitInfo {
        var info := UserLimitInfo[email].(DynamicSpeedLimit := limit);
        info := info.(ExpireTime := expire);
        UserLimitInfo := UserLimitInfo[email := info];
        return Ok(());
      }
      return Err(NotFound);
    }

    /** The device part of an admission: the address is stored first and taken out again if it is
        rejected. */
    method TrackDevice(email: string, ip: string, uid: int, deviceLimit: int) returns (reject: bool)
      modifies `UserOnlineIP, `OldUserOnline
      ensures reject == (!Tracks(old(View()), email, ip) && ip !in old(OldUserOnline)
                         && 0 < deviceLimit <= AliveOf(AliveList, uid))
      ensures View() == if reject then old(View()) else Tracked(old(View()), email, ip, uid)
    {
      var aliveIp := if uid in AliveList then AliveList[uid] else 0;
      if email in UserOnlineIP {
        var oldIpMap := UserOnlineIP[email];
        if ip !in oldIpMap {
          UserOnlineIP := UserOnlineIP[email := oldIpMap[ip := uid]];
          if ip in OldUserOnline {
            if OldUserOnline[ip] == uid {
              OldUserOnline := OldUserOnline - {ip};
            }
          } else if deviceLimit > 0 {
            if deviceLimit <= aliveIp {
              UserOnlineIP := UserOnlineIP[email := UserOnlineIP[email] - {ip}];
              assert UserOnlineIP == old(UserOnlineIP) by {
                assert oldIpMap[ip := uid] - {ip} == oldIpMap;
              }
              return true;
            }
          }
        }
      } else {
        UserOnlineIP := UserOnlineIP[email := map[ip := uid]];
        if ip in OldUserOnline {
          if OldUserOnline[ip] == uid {
            OldUserOnline := OldUserOnline - {ip};
          }
        } else if deviceLimit > 0 {
          if deviceLimit <= aliveIp {
            UserOnlineIP := UserOnlineIP - {email};
            assert UserOnlineIP == old(UserOnlineIP);
            return true;
          }
        }
      }
      return false;
    }

    /** The bucket part of an admission. */
    method TakeBucket(email: string, limit: int, serial: nat) returns (verdict: Verdict)
      modifies `SpeedLimiter
      ensures (View(), verdict) == WithBucket(old(View()), email, limit, serial)
    {
      if limit > 0 {
        var bucket := Bucket(serial, limit);
        if email in SpeedLimiter {
          return Admitted(Some(SpeedLimiter[email]));
        } else {
          SpeedLimiter := SpeedLimiter[email := bucket];
          return Admitted(Some(bucket));
        }
      } else {
        return Admitted(None);
      }
    }

    /** The record part of an admission: an expired dynamic limit is dropped, and with it the record of a
        user without a limit of its own. */
    method TakeUserLimit(email: string, now: int) returns (userLimit: int)
      requires email in UserLimitInfo
      modifies `UserLimitInfo
      ensures userLimit == UserLimit(old(UserLimitInfo[email]), now)
      ensures UserLimitInfo == Refreshed(old(UserLimitInfo), email, now)
    {
      userLimit := 0;
      var u := UserLimitInfo[email];
      if u.ExpireTime < now && u.ExpireTime != 0 {
        if u.SpeedLimit != 0 {
          userLimit := u.SpeedLimit;
          UserLimitInfo := UserLimitInfo[email := u.(DynamicSpeedLimit := 0, ExpireTime := 0)];
        } else {
          UserLimitInfo := UserLimitInfo - {email};
        }
      } else {
        userLimit := DetermineSpeedLimit(u.SpeedLimit, u.DynamicSpeedLimit);
      }
    }

    /** One admission. A rejection leaves tracked addresses, the last collection's list and the buckets as
        they were, and touches the records only where a dynamic limit had expired. */
    method CheckLimit(email: string, rawIp: string, noSSUDP: bool, now: int, serial: nat) returns (verdict: Verdict)
      modifies `UserOnlineIP, `OldUserOnline, `UserLimitInfo, `SpeedLimiter
      ensures (View(), verdict) == Admit(old(View()), email, rawIp, now, noSSUDP, serial)
      ensures verdict == Rejected <==>
        || email !in old(UserLimitInfo)
        || (&& noSSUDP
            && !(email in old(UserOnlineIP) && TrimMapped(rawIp) in old(UserOnlineIP[email]))
            && TrimMapped(rawIp) !in old(OldUserOnline)
            && 0 < old(UserLimitInfo[email].DeviceLimit)
            && old(UserLimitInfo[email].UID) in AliveList
            && old(UserLimitInfo[email].DeviceLimit) <= AliveList[old(UserLimitInfo[email].UID)])
      ensures verdict == Rejected ==>
        && UserOnlineIP == old(UserOnlineIP) && OldUserOnline == old(OldUserOnline)
        && SpeedLimiter == old(SpeedLimiter)
        && (UserLimitInfo == old(UserLimitInfo)
            || (email in old(UserLimitInfo) && IsExpired(old(UserLimitInfo[email]), now)))
      ensures verdict != Rejected && noSSUDP ==> email in UserOnlineIP && TrimMapped(rawIp) in UserOnlineIP[email]
    {
      RejectedExactly(View(), email, rawIp, now, noSSUDP, serial);
      var ip := if MAPPED_PREFIX <= rawIp then rawIp[|MAPPED_PREFIX|..] else rawIp;
      var nodeLimit := SpeedLimit;
      if email !in UserLimitInfo {
        return Rejected;
      }
      var u := UserLimitInfo[email];
      var userLimit := TakeUserLimit(email, now);
      if noSSUDP {
        var reject := TrackDevice(email, ip, u.UID, u.DeviceLimit);
        if reject {
          return Rejected;
        }
      }
      verdict := TakeBucket(email, Rate(DetermineSpeedLimit(nodeLimit, userLimit)), serial);
    }

    /** One user of a collection. The loop goes on over the map the user is then deleted from. */
    method CollectUser(email: string, result: seq<OnlineUser>, ghost online: map<string, IpMap>,
                       ghost done: set<string>)
      returns (onlineUser: seq<OnlineUser>)
      requires email in UserOnlineIP && UserOnlineIP == online - done
      requires IsPartial(online, done, OldUserOnline, result)
      modifies `OldUserOnline, `UserOnlineIP
      ensures UserOnlineIP == online - (done + {email})
      ensures IsPartial(online, done + {email}, OldUserOnline, onlineUser)
    {
      var ipMap := UserOnlineIP[email];
      ghost var before := OldUserOnline;
      OldUserOnline, onlineUser := CollectIps(ipMap, OldUserOnline, result);
      PartialGrows(online, done, email, before, result, onlineUser);
      UserOnlineIP := UserOnlineIP - {email};
    }

    /** Returns everything tracked and starts the next epoch. It deletes from the map it ranges over. */
    method GetOnlineDevice() returns (onlineUser: seq<OnlineUser>)
      modifies `OldUserOnline, `UserOnlineIP
      ensures IsCollection(old(View()), View(), onlineUser)
      ensures UserOnlineIP == map[]
      ensures forall ip :: ip in OldUserOnline <==>
        exists email :: email in old(UserOnlineIP) && ip in old(UserOnlineIP)[email]
      ensures forall o :: o in onlineUser <==>
        exists email :: email in old(UserOnlineIP) && o.IP in old(UserOnlineIP)[email]
                        && old(UserOnlineIP)[email][o.IP] == o.UID
    {
      ghost var online, done := UserOnlineIP, {};
      onlineUser := [];
      OldUserOnline := map[];
      var emails := UserOnlineIP.Keys;
      PartialStarts(online);
      while emails != {}
        invariant emails == online.Keys - done && UserOnlineIP == online - done
        invariant IsPartial(online, done, OldUserOnline, onlineUser)
        decreases emails
      {
        var email :| email in emails;
        onlineUser := CollectUser(email, onlineUser, online, done);
        emails := emails - {email};
        done := done + {email};
      }
      assert UserOnlineIP == map[];
      PartialEnds(old(View()), View(), done, onlineUser);
      CollectionExactly(old(View()), View(), onlineUser);
    }
  }

  function HoldersIn(online: map<string, IpMap>, done: set<string>, o: OnlineUser): set<string> {
    set email | email in done && email in online && o.IP in online[email] && online[email][o.IP] == o.UID
  }

  /** The collection so far, with the users in `done` collected. */
  ghost predicate IsPartial(online: map<string, IpMap>, done: set<string>, oldOnline: IpMap, result: seq<OnlineUser>) {
    && (forall ip :: ip in oldOnline ==> HoldersIn(online, done, OnlineUser(oldOnline[ip], ip)) != {})
    && (forall email, ip :: email in done && email in online && ip in online[email] ==> ip in oldOnline)
    && (forall o :: multiset(result)[o] == |HoldersIn(online, done, o)|)
  }

  /** `result'` has one entry more for each pair of `ipMap`. */
  ghost predicate ListsMore(ipMap: IpMap, result: seq<OnlineUser>, result': seq<OnlineUser>) {
    forall o :: multiset(result')[o]
      == multiset(result)[o] + (if o.IP in ipMap && ipMap[o.IP] == o.UID then 1 else 0)
  }

  lemma PartialStarts(online: map<string, IpMap>)
    ensures IsPartial(online, {}, map[], [])
  {
    forall o ensures HoldersIn(online, {}, o) == {} {
    }
  }

  /** One more user collected is one more holder of each pair of that user's. */
  lemma HoldersGrow(online: map<string, IpMap>, done: set<string>, email: string, o: OnlineUser)
    requires email in online && email !in done
    ensures var ips, before := online[email], HoldersIn(online, done, o);
      && HoldersIn(online, done + {email}, o)
         == (if o.IP in ips && ips[o.IP] == o.UID then before + {email} else before)
      && email !in before
  {
  }

  lemma PartialGrows(online: map<string, IpMap>, done: set<string>, email: string, oldOnline: IpMap,
                     result: seq<OnlineUser>, result': seq<OnlineUser>)
    requires email in online && email !in done && IsPartial(online, done, oldOnline, result)
    requires ListsMore(online[email], result, result')
    ensures IsPartial(online, done + {email}, oldOnline + online[email], result')
  {
    var ips, more := online[email], done + {email};
    var oldOnline' := oldOnline + ips;
    forall o ensures multiset(result')[o] == |HoldersIn(online, more, o)| {
      HoldersGrow(online, done, email, o);
    }
    forall ip | ip in oldOnline' ensures HoldersIn(online, more, OnlineUser(oldOnline'[ip], ip)) != {} {
      HoldersGrow(online, done, email, OnlineUser(oldOnline'[ip], ip));
      assert ip in ips ==> oldOnline'[ip] == ips[ip];
    }
  }

  lemma PartialEnds(st: State, st': State, done: set<string>, result: seq<OnlineUser>)
    requires st' == st.(online := map[], oldOnline := st'.oldOnline)
    requires st.online.Keys <= done && IsPartial(st.online, done, st'.oldOnline, result)
    ensures IsCollection(st, st', result)
  {
    forall o ensures HoldersIn(st.online, done, o) == Holders(st.online, o) {
    }
  }

  /** The inner loop of the collection, over the addresses of one user. */
  method CollectIps(ipMap: IpMap, oldOnline: IpMap, result: seq<OnlineUser>)
    returns (oldOnline': IpMap, result': seq<OnlineUser>)
    ensures oldOnline' == oldOnline + ipMap && ListsMore(ipMap, result, result')
  {
    oldOnline', result' := oldOnline, result;
    var ips := ipMap.Keys;
    while ips != {}
      invariant ips <= ipMap.Keys
      invariant oldOnline' == oldOnline + (ipMap - ips)
      invariant ListsMore(ipMap - ips, result, result')
      decreases ips
    {
      var ip :| ip in ips;
      oldOnline' := oldOnline'[ip := ipMap[ip]];
      result' := result' + [OnlineUser(ipMap[ip], ip)];
      ips := ips - {ip};
    }
  }
}
