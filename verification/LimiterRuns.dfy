/**
 Runs of one limiter: any sequence of admissions, user updates, new alive lists, dynamic limits and
 collections.
 */
module LimiterRuns {
  import opened Wrappers
  import opened Users
  import opened Limiter

  datatype Event =
    | Check(email: string, rawIp: string, now: int, tracked: bool, serial: nat)
    | Update(tag: string, added: seq<UserInfo>, deleted: seq<UserInfo>)
    | SetAlive(alive: map<int, int>)
    | Dynamic(email: string, limit: int, expire: int)
    | Collect(result: seq<OnlineUser>)

  ghost predicate Next(st: State, e: Event, st': State) {
    match e
    case Check(email, rawIp, now, tracked, serial) => st' == Admit(st, email, rawIp, now, tracked, serial).0
    case Update(tag, added, deleted) => st' == Updated(st, tag, added, deleted)
    case SetAlive(alive) => st' == st.(alive := alive)
    case Dynamic(email, limit, expire) => st' == WithDynamic(st, email, limit, expire)
    case Collect(result) => IsCollection(st, st', result)
  }

  ghost predicate IsRun(states: seq<State>, events: seq<Event>) {
    && |states| == |events| + 1
    && forall i :: 0 <= i < |events| ==> Next(states[i], events[i], states[i + 1])
  }

  predicate IsAdmission(st: State, e: Event) {
    e.Check? && Admit(st, e.email, e.rawIp, e.now, e.tracked, e.serial).1.Admitted?
  }

  // ----- Coherence

  /** The node and user limit together, for a user without a dynamic limit. */
  function UserRate(st: State, u: UserLimitInfo): int {
    Rate(DetermineSpeedLimit(st.nodeLimit, DetermineSpeedLimit(u.SpeedLimit, 0)))
  }

  predicate BucketsFit(st: State) {
    forall e :: e in st.buckets ==>
      e in st.info && st.buckets[e].rate == UserRate(st, st.info[e]) && st.buckets[e].rate > 0
  }

  ghost predicate IpsFit(st: State) {
    && (forall e :: e in st.online ==> e in st.info && st.online[e] != map[])
    && (forall e, ip :: Tracks(st, e, ip) ==> st.online[e][ip] == st.info[e].UID)
  }

  predicate NoDynamic(st: State) {
    forall e :: e in st.info ==> st.info[e].DynamicSpeedLimit == 0 && st.info[e].ExpireTime == 0
  }

  /** Buckets and tracked addresses belong to recorded users and agree with their records. */
  ghost predicate Coherent(st: State) {
    NoDynamic(st) && BucketsFit(st) && IpsFit(st)
  }

  /** A user is recorded anew only after it was dropped, as the diff of user lists makes sure. */
  predicate DropsFirst(st: State, tag: string, added: seq<UserInfo>, deleted: seq<UserInfo>) {
    forall u :: u in added && UserTag(tag, u.Uuid) in st.info ==> UserTag(tag, u.Uuid) in Emails(tag, deleted)
  }

  function After(st: State, e: Event): State
    requires e.Check?
  {
    Admit(st, e.email, e.rawIp, e.now, e.tracked, e.serial).0
  }

  /** The records an admission leaves. */
  function InfoAfter(st: State, e: Event): map<string, UserLimitInfo>
    requires e.Check?
  {
    if e.email in st.info then Refreshed(st.info, e.email, e.now) else st.info
  }

  /** The connection is admitted as a device. */
  predicate Counts(st: State, e: Event) {
    IsAdmission(st, e) && e.tracked
  }

  /** An admission changes the records, tracks the address if it is let in as a device, and else touches
      buckets only. */
  lemma AdmitParts(st: State, e: Event)
    requires e.Check?
    ensures IsAdmission(st, e) ==> e.email in st.info
    ensures var st1, st' := st.(info := InfoAfter(st, e)), After(st, e);
      var st2 := if Counts(st, e) then Tracked(st1, e.email, TrimMapped(e.rawIp), st.info[e.email].UID) else st1;
      st' == st2.(buckets := st'.buckets)
    ensures var before, after := st.buckets, After(st, e).buckets;
      after == before || (e.email !in before && e.email in after && after == before[e.email := after[e.email]])
  {
  }

  /** What an admission does to the tracked addresses. */
  lemma AdmitDevices(st: State, e: Event)
    requires e.Check?
    ensures var st', ip := After(st, e), TrimMapped(e.rawIp);
      var counts := e.tracked && IsAdmission(st, e);
      && st'.online == (if counts && !Tracks(st, e.email, ip)
                        then st.online[e.email := IpsOf(st, e.email)[ip := st.info[e.email].UID]] else st.online)
      && st'.oldOnline.Keys <= st.oldOnline.Keys
      && st'.nodeLimit == st.nodeLimit && st'.alive == st.alive && st'.uids == st.uids
  {
    AdmitParts(st, e);
  }

  lemma AdmitTracks(st: State, e: Event)
    requires e.Check?
    ensures forall email, ip :: Tracks(After(st, e), email, ip) <==>
      Tracks(st, email, ip)
      || (e.tracked && IsAdmission(st, e) && email == e.email && ip == TrimMapped(e.rawIp))
    ensures After(st, e).oldOnline.Keys <= st.oldOnline.Keys
  {
    AdmitDevices(st, e);
  }

  lemma AdmitRecords(st: State, e: Event)
    requires e.Check? && NoDynamic(st)
    ensures After(st, e).info == st.info && After(st, e).nodeLimit == st.nodeLimit
  {
    AdmitParts(st, e);
  }

  /** What an admission does to buckets. */
  lemma AdmitBuckets(st: State, e: Event)
    requires e.Check? && NoDynamic(st)
    ensures var buckets := After(st, e).buckets;
      buckets == st.buckets
      || (&& e.email in st.info && e.email !in st.buckets && UserRate(st, st.info[e.email]) > 0
          && buckets == st.buckets[e.email := Bucket(e.serial, UserRate(st, st.info[e.email]))])
  {
    if e.email in st.info {
      assert !IsExpired(st.info[e.email], e.now);
      assert UserLimit(st.info[e.email], e.now) == DetermineSpeedLimit(st.info[e.email].SpeedLimit, 0);
    }
  }

  lemma AdmitCoherent(st: State, e: Event)
    requires Coherent(st) && e.Check?
    ensures Coherent(After(st, e))
  {
    AdmitRecords(st, e);
    AdmitBuckets(st, e);
    AdmitIpsFit(st, e);
  }

  lemma AdmitIpsFit(st: State, e: Event)
    requires NoDynamic(st) && IpsFit(st) && e.Check?
    ensures IpsFit(After(st, e))
  {
    AdmitRecords(st, e);
    AdmitDevices(st, e);
    if e.email in st.info {
      var ip := TrimMapped(e.rawIp);
      assert ip in IpsOf(st, e.email)[ip := st.info[e.email].UID];
    }
  }

  lemma {:induction false} AddRecordsOnly(m: map<string, UserLimitInfo>, tag: string, users: seq<UserInfo>)
    ensures AddRecords(m, tag, users).Keys == m.Keys + Emails(tag, users)
    ensures forall e :: e in m && e !in Emails(tag, users) ==> AddRecords(m, tag, users)[e] == m[e]
    ensures forall e :: e in Emails(tag, users) ==>
      exists u :: u in users && UserTag(tag, u.Uuid) == e && AddRecords(m, tag, users)[e] == Recorded(u)
  {
    if users != [] {
      var k := |users| - 1;
      AddRecordsOnly(m, tag, users[..k]);
      EmailsSnoc(tag, users, k);
      assert users[..k + 1] == users;
    }
  }

  /** A recorded user that is not dropped keeps its record. */
  lemma UpdateKeeps(st: State, tag: string, added: seq<UserInfo>, deleted: seq<UserInfo>, e: string)
    requires DropsFirst(st, tag, added, deleted) && e in st.info && e !in Emails(tag, deleted)
    ensures e in Updated(st, tag, added, deleted).info && Updated(st, tag, added, deleted).info[e] == st.info[e]
  {
    AddRecordsOnly(Removed(st, tag, deleted).info, tag, added);
  }

  lemma UpdateNoDynamic(st: State, tag: string, added: seq<UserInfo>, deleted: seq<UserInfo>)
    requires NoDynamic(st)
    ensures NoDynamic(Updated(st, tag, added, deleted))
  {
    AddRecordsOnly(Removed(st, tag, deleted).info, tag, added);
  }

  lemma UpdateCoherent(st: State, tag: string, added: seq<UserInfo>, deleted: seq<UserInfo>)
    requires Coherent(st) && DropsFirst(st, tag, added, deleted)
    ensures Coherent(Updated(st, tag, added, deleted))
  {
    UpdateNoDynamic(st, tag, added, deleted);
    forall e | e in st.info && e !in Emails(tag, deleted)
      ensures e in Updated(st, tag, added, deleted).info
      ensures Updated(st, tag, added, deleted).info[e] == st.info[e]
    {
      UpdateKeeps(st, tag, added, deleted, e);
    }
  }

  lemma AliveCoherent(st: State, alive: map<int, int>)
    requires Coherent(st)
    ensures Coherent(st.(alive := alive))
  {
    var st' := st.(alive := alive);
    assert forall e, ip :: Tracks(st', e, ip) == Tracks(st, e, ip);
    assert forall e :: e in st.info ==> UserRate(st', st.info[e]) == UserRate(st, st.info[e]);
  }

  /** Coherence over a whole run without dynamic limits. */
  lemma {:induction false} RunCoherent(states: seq<State>, events: seq<Event>, k: nat)
    requires IsRun(states, events) && k <= |events| && Coherent(states[0])
    requires forall i :: 0 <= i < |events| ==> !events[i].Dynamic?
    requires forall i :: 0 <= i < |events| && events[i].Update? ==>
      DropsFirst(states[i], events[i].tag, events[i].added, events[i].deleted)
    ensures Coherent(states[k])
  {
    if k > 0 {
      RunCoherent(states, events, k - 1);
      var st, e := states[k - 1], events[k - 1];
      assert Next(st, e, states[k]);
      match e
      case Check(_, _, _, _, _) => AdmitCoherent(st, e);
      case Update(tag, added, deleted) => UpdateCoherent(st, tag, added, deleted);
      case SetAlive(alive) => AliveCoherent(st, alive);
      case Dynamic(_, _, _) => assert false;
      case Collect(_) =>
    }
  }

  /** A rate of 125000 times the minimum non-zero of the two limits. */
  predicate IsMinRate(nodeLimit: int, speed: int, rate: int) {
    rate % 125000 == 0 && IsMinNonZero(nodeLimit, speed, rate / 125000)
  }

  /** A cached bucket's rate for a user whose limit is not negative: the minimum non-zero of the limits, as
      64-bit arithmetic allows. The node's limit may be anything. */
  lemma BucketRate(st: State, email: string)
    requires Coherent(st) && email in st.buckets && st.info[email].SpeedLimit >= 0
    ensures exists limit ::
      && IsMinNonZero(st.nodeLimit, st.info[email].SpeedLimit, limit)
      && (st.buckets[email].rate == 125000 * limit <==> FitsInt64(limit * 1000000))
  {
    var speed := st.info[email].SpeedLimit;
    var limit := DetermineSpeedLimit(st.nodeLimit, speed);
    DetermineExactly(st.nodeLimit, speed);
    RateExactly(limit);
  }

  lemma MinNonZeroUnique(a: int, b: int, r: int, q: int)
    requires IsMinNonZero(a, b, r) && IsMinNonZero(a, b, q)
    ensures r == q
  {
  }

  lemma MinRateIs(nodeLimit: int, speed: int, limit: int, rate: int)
    requires IsMinNonZero(nodeLimit, speed, limit)
    ensures IsMinRate(nodeLimit, speed, rate) <==> rate == 125000 * limit
  {
    if IsMinRate(nodeLimit, speed, rate) {
      MinNonZeroUnique(nodeLimit, speed, limit, rate / 125000);
    }
  }

  /** A cached bucket of a user with a negative limit has the node's rate. */
  lemma NegativeLimitIgnored(st: State, email: string)
    requires Coherent(st) && email in st.buckets && st.info[email].SpeedLimit < 0
    ensures st.nodeLimit > 0 && st.buckets[email].rate == Rate(st.nodeLimit) > 0
  {
    assert Rate(0) == 0;
  }

  /** A cached bucket has 125000 times the minimum non-zero of the limits if and only if the user's limit is
      not negative and the product fits in 64 bits. */
  lemma BucketRateExactly(st: State, email: string)
    requires Coherent(st) && email in st.buckets
    ensures var speed := st.info[email].SpeedLimit;
      IsMinRate(st.nodeLimit, speed, st.buckets[email].rate)
      <==> speed >= 0 && FitsInt64(DetermineSpeedLimit(st.nodeLimit, speed) * 1000000)
  {
    var speed, rate := st.info[email].SpeedLimit, st.buckets[email].rate;
    if speed >= 0 {
      var limit := DetermineSpeedLimit(st.nodeLimit, speed);
      DetermineExactly(st.nodeLimit, speed);
      RateExactly(limit);
      MinRateIs(st.nodeLimit, speed, limit, rate);
    } else {
      NegativeLimitIgnored(st, email);
      MinRateIs(st.nodeLimit, speed, speed, rate);
    }
  }

  lemma BucketStays(st: State, e: Event, st': State, email: string)
    requires Next(st, e, st') && email in st.buckets
    requires e.Update? ==> email !in Emails(e.tag, e.deleted)
    ensures email in st'.buckets && st'.buckets[email] == st.buckets[email]
  {
    if e.Check? {
      AdmitParts(st, e);
    }
  }

  /** As long as a user is not dropped, every connection of that user shares the first bucket. */
  lemma {:induction false} BucketShared(states: seq<State>, events: seq<Event>, k: nat, email: string)
    requires IsRun(states, events) && k <= |events| && email in states[0].buckets
    requires forall i :: 0 <= i < |events| && events[i].Update? ==> email !in Emails(events[i].tag, events[i].deleted)
    ensures email in states[k].buckets && states[k].buckets[email] == states[0].buckets[email]
  {
    if k > 0 {
      BucketShared(states, events, k - 1, email);
      assert Next(states[k - 1], events[k - 1], states[k]);
      BucketStays(states[k - 1], events[k - 1], states[k], email);
    }
  }

  // ----- Dynamic limits

  /** The limit in force for a user: its own one once the dynamic limit has expired, else the minimum non-zero
      of the two. */
  predicate IsUserLimit(u: UserLimitInfo, now: int, limit: int) {
    if u.ExpireTime != 0 && u.ExpireTime < now then limit == u.SpeedLimit
    else IsMinNonZero(u.SpeedLimit, u.DynamicSpeedLimit, limit)
  }

  /** A first admission makes a bucket if and only if some limit is in force, at 125000 times the minimum
      non-zero of the node's limit and the user's. */
  lemma FreshBucket(st: State, e: Event, userLimit: int, limit: int)
    requires IsAdmission(st, e) && e.email !in st.buckets && st.nodeLimit >= 0
    requires st.info[e.email].SpeedLimit >= 0 && st.info[e.email].DynamicSpeedLimit >= 0
    requires IsUserLimit(st.info[e.email], e.now, userLimit) && IsMinNonZero(st.nodeLimit, userLimit, limit)
    requires limit * 1000000 < 0x8000_0000_0000_0000
    ensures var st', verdict := After(st, e), Admit(st, e.email, e.rawIp, e.now, e.tracked, e.serial).1;
      if limit == 0 then st'.buckets == st.buckets && verdict == Admitted(None)
      else verdict == Admitted(Some(Bucket(e.serial, 125000 * limit)))
           && st'.buckets == st.buckets[e.email := Bucket(e.serial, 125000 * limit)]
  {
    var u := st.info[e.email];
    AdmitParts(st, e);
    DetermineExactly(u.SpeedLimit, u.DynamicSpeedLimit);
    DetermineExactly(st.nodeLimit, userLimit);
    if !IsExpired(u, e.now) {
      MinNonZeroUnique(u.SpeedLimit, u.DynamicSpeedLimit, userLimit,
                       DetermineSpeedLimit(u.SpeedLimit, u.DynamicSpeedLimit));
    }
    MinNonZeroUnique(st.nodeLimit, userLimit, limit, DetermineSpeedLimit(st.nodeLimit, userLimit));
    RateExactly(limit);
  }

  /** A dynamic limit counts until it expires. Then a user with a limit of its own goes back to that one. */
  lemma DynamicLimitCounts(st: State, email: string, dynamic: int, expire: int, now: int, limit: int)
    requires email in st.info && expire != 0 && st.info[email].SpeedLimit > 0
    ensures var u := WithDynamic(st, email, dynamic, expire).info[email];
      IsUserLimit(u, now, limit)
      <==> if now <= expire then IsMinNonZero(st.info[email].SpeedLimit, dynamic, limit)
           else limit == st.info[email].SpeedLimit
    ensures now > expire ==>
      var before := WithDynamic(st, email, dynamic, expire);
      Refreshed(before.info, email, now)
      == before.info[email := before.info[email].(DynamicSpeedLimit := 0, ExpireTime := 0)]
  {
  }

  // ----- Mapped addresses

  /** An address and its mapped form are the same device: admissions from either have the same verdict and
      leave the same limiter, and a device that is let in is tracked under the plain address. */
  lemma MappedAddress(st: State, email: string, ip: string, now: int, tracked: bool, serial: nat)
    requires !("::ffff:" <= ip)
    ensures Admit(st, email, "::ffff:" + ip, now, tracked, serial) == Admit(st, email, ip, now, tracked, serial)
    ensures var (st', verdict) := Admit(st, email, ip, now, tracked, serial);
      forall e, x :: (e in st'.online && x in st'.online[e]) <==>
        (e in st.online && x in st.online[e]) || (verdict != Rejected && tracked && e == email && x == ip)
  {
    TrimExactly(ip);
    var e := Check(email, ip, now, tracked, serial);
    var st' := After(st, e);
    AdmitTracks(st, e);
    assert forall who, x :: Tracks(st', who, x) <==> who in st'.online && x in st'.online[who];
  }

  // ----- The device limit

  /** The user is at or over its device limit. */
  predicate AtLimit(st: State, email: string) {
    email in st.info && 0 < st.info[email].DeviceLimit <= AliveOf(st.alive, st.info[email].UID)
  }

  /** Who is let in: a recorded user, unless the connection counts as a device, the user is at its limit
      and the address is neither tracked nor on the list of the last collection. */
  lemma AdmittedExactly(st: State, e: Event)
    requires e.Check?
    ensures IsAdmission(st, e) <==>
      e.email in st.info
      && (e.tracked && AtLimit(st, e.email) ==>
            Tracks(st, e.email, TrimMapped(e.rawIp)) || TrimMapped(e.rawIp) in st.oldOnline)
  {
  }

  /** An admitted connection gets the user's cached bucket, at the user's rate, whenever there is a rate. */
  lemma AdmittedBucket(st: State, e: Event)
    requires Coherent(st) && IsAdmission(st, e)
    ensures var rate, verdict := UserRate(st, st.info[e.email]), Admit(st, e.email, e.rawIp, e.now, e.tracked, e.serial).1;
      if rate > 0
      then e.email in After(st, e).buckets && verdict == Admitted(Some(After(st, e).buckets[e.email]))
           && verdict.bucket.value.rate == rate
      else verdict == Admitted(None)
  {
    assert !IsExpired(st.info[e.email], e.now);
  }

  /** An expired dynamic limit takes the record of a user without a limit of its own with it: the next
      connection of that user is rejected exactly then. */
  lemma ExpiryLocksOut(st: State, e: Event, next: Event)
    requires e.Check? && next.Check? && next.email == e.email && e.email in st.info && !next.tracked
    ensures !IsAdmission(After(st, e), next) <==>
      st.info[e.email].ExpireTime != 0 && st.info[e.email].ExpireTime < e.now && st.info[e.email].SpeedLimit == 0
  {
    AdmittedExactly(After(st, e), next);
    InfoRefreshed(st, e);
  }

  lemma InfoRefreshed(st: State, e: Event)
    requires e.Check? && e.email in st.info
    ensures After(st, e).info == Refreshed(st.info, e.email, e.now)
  {
    AdmitParts(st, e);
  }

  lemma CollectedIsListed(st: State, st': State, result: seq<OnlineUser>, ip: string)
    requires IsCollection(st, st', result) && ip in st'.oldOnline
    ensures exists o :: o in result && o.IP == ip
    ensures exists e :: Tracks(st, e, ip)
  {
    var o := OnlineUser(st'.oldOnline[ip], ip);
    var e :| e in Holders(st.online, o);
    assert multiset(result)[o] == |Holders(st.online, o)| > 0;
    assert o in multiset(result);
    assert Tracks(st, e, ip);
  }

  /** What one event can do to the tracked addresses of a user at its limit. */
  lemma LimitStep(st: State, e: Event, st': State, email: string)
    requires Next(st, e, st') && !e.Collect? && AtLimit(st, email)
    ensures st'.oldOnline.Keys <= st.oldOnline.Keys
    ensures forall ip :: Tracks(st', email, ip) ==> Tracks(st, email, ip) || ip in st.oldOnline
  {
    if e.Check? {
      AdmitTracks(st, e);
    }
  }

  /** Within an epoch a user at its limit tracks only addresses of the collection that opened it. */
  lemma {:induction false} EpochKeepsOut(states: seq<State>, events: seq<Event>, k: nat, email: string)
    requires IsRun(states, events) && 1 <= k <= |events| && events[0].Collect?
    requires forall i :: 1 <= i < k ==> !events[i].Collect? && AtLimit(states[i], email)
    ensures states[k].oldOnline.Keys <= states[1].oldOnline.Keys
    ensures forall ip :: Tracks(states[k], email, ip) ==> ip in states[1].oldOnline
    ensures forall ip :: Tracks(states[k], email, ip) ==> exists o :: o in events[0].result && o.IP == ip
  {
    assert Next(states[0], events[0], states[1]);
    if k > 1 {
      EpochKeepsOut(states, events, k - 1, email);
      assert Next(states[k - 1], events[k - 1], states[k]);
      LimitStep(states[k - 1], events[k - 1], states[k], email);
    }
    forall ip | Tracks(states[k], email, ip) ensures exists o :: o in events[0].result && o.IP == ip {
      CollectedIsListed(states[0], states[1], events[0].result, ip);
    }
  }

  /** The addresses of the opening collection that their own users have connected from again. */
  ghost function UsedUp(states: seq<State>, events: seq<Event>, k: nat): set<string>
    requires IsRun(states, events) && 1 <= k <= |events|
  {
    if k == 1 then {}
    else
      var st, e, before := states[k - 1], events[k - 1], UsedUp(states, events, k - 1);
      var listed := states[1].oldOnline;
      if e.Check? && e.tracked && IsAdmission(st, e) && !Tracks(st, e.email, TrimMapped(e.rawIp))
        && TrimMapped(e.rawIp) in listed && listed[TrimMapped(e.rawIp)] == st.info[e.email].UID
      then before + {TrimMapped(e.rawIp)} else before
  }

  /** Within an epoch the list of the last collection is the opening one less what was used up. */
  lemma {:induction false} OldListExactly(states: seq<State>, events: seq<Event>, k: nat)
    requires IsRun(states, events) && 1 <= k <= |events| && events[0].Collect?
    requires forall i :: 1 <= i < k ==> !events[i].Collect?
    ensures states[k].oldOnline == states[1].oldOnline - UsedUp(states, events, k)
  {
    if k > 1 {
      OldListExactly(states, events, k - 1);
      assert Next(states[k - 1], events[k - 1], states[k]);
      if events[k - 1].Check? {
        AdmitOldList(states[k - 1], events[k - 1]);
      }
    }
  }

  lemma AdmitOldList(st: State, e: Event)
    requires e.Check?
    ensures var ip := TrimMapped(e.rawIp);
      After(st, e).oldOnline
      == if e.tracked && IsAdmission(st, e) && !Tracks(st, e.email, ip)
            && ip in st.oldOnline && st.oldOnline[ip] == st.info[e.email].UID
         then st.oldOnline - {ip} else st.oldOnline
  {
    AdmitParts(st, e);
  }

  /** No two users share an address: `own` says whose each one is. */
  ghost predicate Exclusive(st: State, own: string -> string) {
    forall e, ip :: Tracks(st, e, ip) ==> own(ip) == e
  }

  predicate KeepsApart(e: Event, own: string -> string) {
    e.Check? && e.tracked ==> own(TrimMapped(e.rawIp)) == e.email
  }

  /** The addresses of `email` that are tracked or known from the last collection. */
  ghost predicate Within(st: State, own: string -> string, email: string, first: State) {
    && Exclusive(st, own)
    && (forall ip :: ip in st.oldOnline && own(ip) == email ==> Tracks(first, email, ip))
    && (forall ip :: Tracks(st, email, ip) ==> Tracks(first, email, ip))
  }

  lemma WithinStep(st: State, e: Event, st': State, own: string -> string, email: string, first: State)
    requires Next(st, e, st') && KeepsApart(e, own)
    requires Within(st, own, email, first) && AtLimit(st, email)
    ensures Within(st', own, email, first)
  {
    if e.Collect? {
      CollectWithin(st, e, st', own, email, first);
    } else {
      LimitStep(st, e, st', email);
      ExclusiveStep(st, e, st', own);
      forall ip | Tracks(st', email, ip) ensures Tracks(first, email, ip) {
        assert own(ip) == email;
      }
    }
  }

  lemma ExclusiveStep(st: State, e: Event, st': State, own: string -> string)
    requires Next(st, e, st') && !e.Collect? && KeepsApart(e, own) && Exclusive(st, own)
    ensures Exclusive(st', own)
  {
    if e.Check? {
      AdmitTracks(st, e);
      assert st' == After(st, e);
    }
    forall email, ip | Tracks(st', email, ip) ensures own(ip) == email {
      assert Tracks(st, email, ip) || (e.Check? && e.tracked && email == e.email && ip == TrimMapped(e.rawIp));
    }
  }

  lemma CollectWithin(st: State, e: Event, st': State, own: string -> string, email: string, first: State)
    requires Next(st, e, st') && e.Collect? && Exclusive(st, own)
    requires forall ip :: Tracks(st, email, ip) ==> Tracks(first, email, ip)
    ensures Within(st', own, email, first)
  {
    forall ip | ip in st'.oldOnline && own(ip) == email ensures Tracks(first, email, ip) {
      CollectedIsListed(st, st', e.result, ip);
    }
  }

  /** Over any number of epochs: if users never share an address, the addresses of a user at its limit
      are among those it had when the first of these epochs opened. */
  lemma {:induction false} TrackedShrinks(states: seq<State>, events: seq<Event>, k: nat, email: string,
                                          own: string -> string)
    requires IsRun(states, events) && 1 <= k <= |events| && events[0].Collect?
    requires forall i :: 1 <= i < k ==> AtLimit(states[i], email)
    requires Exclusive(states[0], own) && forall i :: 0 <= i < |events| ==> KeepsApart(events[i], own)
    ensures Within(states[k], own, email, states[0])
  {
    assert Next(states[k - 1], events[k - 1], states[k]);
    if k == 1 {
      CollectWithin(states[0], events[0], states[1], own, email, states[0]);
    } else {
      TrackedShrinks(states, events, k - 1, email, own);
      WithinStep(states[k - 1], events[k - 1], states[k], own, email, states[0]);
    }
  }

  // ----- What a collection returns

  /** The history of the current epoch: who was admitted as a device from where, and not dropped since. */
  ghost function Logged(states: seq<State>, events: seq<Event>, k: nat): set<(string, string)>
    requires IsRun(states, events) && k <= |events|
  {
    if k == 0 then {}
    else
      var before, e := Logged(states, events, k - 1), events[k - 1];
      match e
      case Check(email, rawIp, _, tracked, _) =>
        if tracked && IsAdmission(states[k - 1], e) then before + {(email, TrimMapped(rawIp))} else before
      case Update(tag, _, deleted) => set p | p in before && p.0 !in Emails(tag, deleted)
      case SetAlive(_) => before
      case Dynamic(_, _, _) => before
      case Collect(_) => {}
  }

  /** Exactly the logged pairs are tracked. */
  lemma {:induction false} TrackedIsLogged(states: seq<State>, events: seq<Event>, k: nat)
    requires IsRun(states, events) && k <= |events| && states[0].online == map[]
    ensures forall email, ip :: Tracks(states[k], email, ip) <==> (email, ip) in Logged(states, events, k)
  {
    if k > 0 {
      TrackedIsLogged(states, events, k - 1);
      assert Next(states[k - 1], events[k - 1], states[k]);
      if events[k - 1].Check? {
        AdmitTracks(states[k - 1], events[k - 1]);
      }
    }
  }
}
