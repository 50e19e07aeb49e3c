/**
 User lists of the panel: the diff that drives every reconciliation, and the keys it rests on.
 */
module Users {
  datatype UserInfo = UserInfo(Id: int, Uuid: string, SpeedLimit: int, DeviceLimit: int)

  // ----- Keys

  function Digits(n: nat): (r: string)
    ensures |r| >= 1
    ensures n >= 10 ==> |r| >= 2
  {
    if n < 10 then ["0123456789"[n]] else Digits(n / 10) + ["0123456789"[n % 10]]
  }

  /** Decimal notation, as strconv.Itoa writes it. */
  function Itoa(i: int): string {
    if i < 0 then "-" + Digits(-i) else Digits(i)
  }

  /** The key of the diff: uuid and speed limit written one after the other. */
  function Key(u: UserInfo): string {
    u.Uuid + Itoa(u.SpeedLimit)
  }

  /** The key of a user of one node in every shared table. */
  function UserTag(tag: string, uuid: string): string {
    tag + "|" + uuid
  }

  lemma {:induction false} DigitsInjective(a: nat, b: nat)
    requires Digits(a) == Digits(b)
    ensures a == b
  {
    var da, db := Digits(a), Digits(b);
    if a >= 10 {
      assert da[..|da| - 1] == Digits(a / 10) && db[..|db| - 1] == Digits(b / 10);
      assert da[|da| - 1] == "0123456789"[a % 10] && db[|db| - 1] == "0123456789"[b % 10];
      DigitsInjective(a / 10, b / 10);
    }
  }

  lemma {:induction false} DigitsNoSign(n: nat)
    ensures Digits(n)[0] != '-'
  {
    if n >= 10 {
      DigitsNoSign(n / 10);
    }
  }

  lemma ItoaInjective(i: int, j: int)
    requires Itoa(i) == Itoa(j)
    ensures i == j
  {
    if i >= 0 { DigitsNoSign(i); }
    if j >= 0 { DigitsNoSign(j); }
    if i < 0 {
      assert Itoa(i)[1..] == Digits(-i) && Itoa(j)[1..] == Digits(-j);
      DigitsInjective(-i, -j);
    } else {
      DigitsInjective(i, j);
    }
  }

  /** For uuids of one length the key determines uuid and speed limit. */
  lemma KeyInjective(u: UserInfo, v: UserInfo)
    requires |u.Uuid| == |v.Uuid| && Key(u) == Key(v)
    ensures u.Uuid == v.Uuid && u.SpeedLimit == v.SpeedLimit
  {
    var n := |u.Uuid|;
    assert u.Uuid == Key(u)[..n] && v.Uuid == Key(v)[..n];
    assert Itoa(u.SpeedLimit) == Key(u)[n..] && Itoa(v.SpeedLimit) == Key(v)[n..];
    ItoaInjective(u.SpeedLimit, v.SpeedLimit);
  }

  lemma TagNotShorter(s: string, u: string, t: string, v: string)
    requires '|' !in u && UserTag(s, u) == UserTag(t, v)
    ensures |t| <= |s|
  {
    var x := UserTag(s, u);
    assert x[|t|] == '|';
    assert forall k :: |s| < k < |x| ==> x[k] == u[k - |s| - 1];
  }

  /** Uuids without the separator keep the users of different nodes apart. */
  lemma UserTagInjective(s: string, u: string, t: string, v: string)
    requires '|' !in u && '|' !in v && UserTag(s, u) == UserTag(t, v)
    ensures s == t && u == v
  {
    TagNotShorter(s, u, t, v);
    TagNotShorter(t, v, s, u);
    var x := UserTag(s, u);
    assert s == x[..|s|] && t == x[..|t|];
    assert u == x[|s| + 1..] && v == x[|t| + 1..];
  }

  // ----- The diff

  function Keys(users: seq<UserInfo>): set<string> {
    set u | u in users :: Key(u)
  }

  /** `prev[i]` is the last of the first `n` users with its key. */
  predicate LastBefore(prev: seq<UserInfo>, n: nat, i: nat) {
    i < n <= |prev| && forall j :: i < j < n ==> Key(prev[j]) != Key(prev[i])
  }

  predicate LastOfKey(prev: seq<UserInfo>, i: nat) {
    LastBefore(prev, |prev|, i)
  }

  /** The key of `next[i]` is not among the previous ones, or an equal one has used it up already. */
  predicate IsNew(prev: seq<UserInfo>, next: seq<UserInfo>, i: nat)
    requires i < |next|
  {
    Key(next[i]) !in Keys(prev) || Key(next[i]) in Keys(next[..i])
  }

  function AddedOf(prev: seq<UserInfo>, next: seq<UserInfo>): seq<UserInfo> {
    if next == [] then []
    else
      var k := |next| - 1;
      AddedOf(prev, next[..k]) + (if IsNew(prev, next, k) then [next[k]] else [])
  }

  /** `u` is the last old user with its key, and the new list does not have the key. */
  ghost predicate IsDropped(prev: seq<UserInfo>, next: seq<UserInfo>, u: UserInfo) {
    Key(u) !in Keys(next) && exists i: nat :: LastOfKey(prev, i) && prev[i] == u
  }

  predicate DistinctKeys(users: seq<UserInfo>) {
    forall i, j :: 0 <= i < j < |users| ==> Key(users[i]) != Key(users[j])
  }

  /** What the diff returns, for any two lists. Only the order of `deleted` is left open. */
  ghost predicate IsDiff(prev: seq<UserInfo>, next: seq<UserInfo>, deleted: seq<UserInfo>, added: seq<UserInfo>) {
    && added == AddedOf(prev, next)
    && DistinctKeys(deleted)
    && (forall u :: u in deleted <==> IsDropped(prev, next, u))
  }

  lemma KeysSnoc(users: seq<UserInfo>, i: nat)
    requires i < |users|
    ensures Keys(users[..i + 1]) == Keys(users[..i]) + {Key(users[i])}
  {
    assert users[..i + 1] == users[..i] + [users[i]];
  }

  /** The positions the map of the diff points to. */
  predicate PointsToLast(m: map<string, nat>, prev: seq<UserInfo>, n: nat) {
    forall k :: k in m ==> LastBefore(prev, n, m[k]) && Key(prev[m[k]]) == k
  }

  method IndexByKey(prev: seq<UserInfo>) returns (oldMap: map<string, nat>)
    ensures oldMap.Keys == Keys(prev) && PointsToLast(oldMap, prev, |prev|)
  {
    oldMap := map[];
    for i := 0 to |prev|
      invariant oldMap.Keys == Keys(prev[..i]) && PointsToLast(oldMap, prev, i)
    {
      KeysSnoc(prev, i);
      PointsSnoc(oldMap, prev, i);
      oldMap := oldMap[Key(prev[i]) := i];
    }
    assert prev[..|prev|] == prev;
  }

  lemma PointsSnoc(m: map<string, nat>, prev: seq<UserInfo>, i: nat)
    requires i < |prev| && PointsToLast(m, prev, i)
    ensures PointsToLast(m[Key(prev[i]) := i], prev, i + 1)
  {
    var key := Key(prev[i]);
    forall k | k in m && k != key ensures LastBefore(prev, i + 1, m[k]) && Key(prev[m[k]]) == k {
      LastStays(prev, i, m[k]);
    }
  }

  lemma LastStays(prev: seq<UserInfo>, i: nat, j: nat)
    requires LastBefore(prev, i, j) && i < |prev| && Key(prev[i]) != Key(prev[j])
    ensures LastBefore(prev, i + 1, j)
  {
    forall k | j < k < i + 1 ensures Key(prev[k]) != Key(prev[j]) {
      if k != i { assert LastBefore(prev, i, j); }
    }
  }

  /** The middle loop of the diff: keys found in the map are taken out of it. */
  method TakeNew(prev: seq<UserInfo>, next: seq<UserInfo>, oldMap: map<string, nat>)
    returns (rest: map<string, nat>, added: seq<UserInfo>)
    requires oldMap.Keys == Keys(prev)
    ensures added == AddedOf(prev, next) && rest == oldMap - Keys(next)
  {
    rest, added := oldMap, [];
    for i := 0 to |next|
      invariant added == AddedOf(prev, next[..i])
      invariant rest == oldMap - Keys(next[..i])
    {
      var key := Key(next[i]);
      TakeStep(prev, next, oldMap, i);
      AddedSnoc(prev, next, i);
      if key !in rest {
        added := added + [next[i]];
      } else {
        rest := rest - {key};
      }
    }
    assert next[..|next|] == next;
  }

  lemma TakeStep(prev: seq<UserInfo>, next: seq<UserInfo>, oldMap: map<string, nat>, i: nat)
    requires i < |next| && oldMap.Keys == Keys(prev)
    ensures var rest, key := oldMap - Keys(next[..i]), Key(next[i]);
      && (key !in rest <==> IsNew(prev, next, i))
      && oldMap - Keys(next[..i + 1]) == (if key in rest then rest - {key} else rest)
  {
    KeysSnoc(next, i);
  }

  method CompareUserList(prev: seq<UserInfo>, next: seq<UserInfo>)
    returns (deleted: seq<UserInfo>, added: seq<UserInfo>)
    ensures IsDiff(prev, next, deleted, added)
  {
    var oldMap := IndexByKey(prev);
    oldMap, added := TakeNew(prev, next, oldMap);
    deleted := DropAll(prev, oldMap);
    forall u ensures u in deleted <==> IsDropped(prev, next, u) {
      PickedIsDropped(prev, next, oldMap, u);
    }
  }

  lemma AddedSnoc(prev: seq<UserInfo>, next: seq<UserInfo>, i: nat)
    requires i < |next|
    ensures AddedOf(prev, next[..i + 1])
         == AddedOf(prev, next[..i]) + (if IsNew(prev, next, i) then [next[i]] else [])
  {
    assert next[..i + 1][..i] == next[..i];
  }

  /** The last loop of the diff: it ranges over the map, in any order. */
  method DropAll(prev: seq<UserInfo>, oldMap: map<string, nat>) returns (deleted: seq<UserInfo>)
    requires PointsToLast(oldMap, prev, |prev|)
    ensures DistinctKeys(deleted) && forall u :: u in deleted <==> IsPicked(prev, oldMap, u)
  {
    deleted := [];
    var keys := oldMap.Keys;
    while keys != {}
      invariant keys <= oldMap.Keys
      invariant DistinctKeys(deleted)
      invariant forall u :: u in deleted <==> IsPicked(prev, oldMap, u) && Key(u) !in keys
      decreases keys
    {
      var k :| k in keys;
      var u := prev[oldMap[k]];
      assert Key(u) == k;
      DistinctAppend(deleted, u);
      deleted := deleted + [u];
      keys := keys - {k};
    }
  }

  lemma DistinctAppend(users: seq<UserInfo>, u: UserInfo)
    requires DistinctKeys(users) && forall v :: v in users ==> Key(v) != Key(u)
    ensures DistinctKeys(users + [u])
    ensures forall v :: v in users + [u] <==> v in users || v == u
  {
  }

  predicate IsPicked(prev: seq<UserInfo>, m: map<string, nat>, u: UserInfo)
    requires PointsToLast(m, prev, |prev|)
  {
    Key(u) in m && prev[m[Key(u)]] == u
  }

  lemma PickedIsDropped(prev: seq<UserInfo>, next: seq<UserInfo>, m: map<string, nat>, u: UserInfo)
    requires m.Keys == Keys(prev) - Keys(next) && PointsToLast(m, prev, |prev|)
    ensures IsPicked(prev, m, u) <==> IsDropped(prev, next, u)
  {
    if IsDropped(prev, next, u) {
      var i: nat :| LastOfKey(prev, i) && prev[i] == u;
      assert Key(u) in Keys(prev);
      assert m[Key(u)] == i;
    }
  }

  // ----- When the diff is exact

  predicate DistinctUuids(users: seq<UserInfo>) {
    forall i, j :: 0 <= i < j < |users| ==> users[i].Uuid != users[j].Uuid
  }

  /** Some user of the list has this uuid and this speed limit. */
  predicate HasSpeed(users: seq<UserInfo>, uuid: string, speed: int) {
    exists u :: u in users && u.Uuid == uuid && u.SpeedLimit == speed
  }

  predicate HasUuid(users: seq<UserInfo>, uuid: string) {
    exists u :: u in users && u.Uuid == uuid
  }

  /** Some user of the list has the uuid and the speed limit of `u`. */
  predicate Matched(users: seq<UserInfo>, u: UserInfo) {
    HasSpeed(users, u.Uuid, u.SpeedLimit)
  }

  /** Deleted are the old users without a match in the new list, added the new ones without a match in
      the old list. */
  ghost predicate IsExact(prev: seq<UserInfo>, next: seq<UserInfo>, deleted: seq<UserInfo>, added: seq<UserInfo>) {
    && (forall u :: u in deleted <==> u in prev && !Matched(next, u))
    && (forall u :: u in added <==> u in next && !Matched(prev, u))
  }

  /** The first new user with its key. */
  predicate FirstOfKey(next: seq<UserInfo>, i: nat) {
    i < |next| && Key(next[i]) !in Keys(next[..i])
  }

  predicate SameUser(u: UserInfo, v: UserInfo) {
    u.Uuid == v.Uuid && u.SpeedLimit == v.SpeedLimit
  }

  /** Old users have different keys, and the first new user with the key of an old one is that user at the
      same speed limit. */
  ghost predicate KeysTellApart(prev: seq<UserInfo>, next: seq<UserInfo>) {
    && DistinctKeys(prev)
    && (forall a: nat, i: nat :: a < |prev| && FirstOfKey(next, i) && Key(next[i]) == Key(prev[a]) ==>
          SameUser(prev[a], next[i]))
  }

  lemma InitNew(prev: seq<UserInfo>, next: seq<UserInfo>, k: nat, i: nat)
    requires i < k <= |next|
    ensures IsNew(prev, next[..k], i) == IsNew(prev, next, i)
  {
    assert next[..k][..i] == next[..i];
  }

  predicate IsAdded(prev: seq<UserInfo>, next: seq<UserInfo>, u: UserInfo) {
    exists i :: 0 <= i < |next| && next[i] == u && IsNew(prev, next, i)
  }

  lemma {:induction false} AddedAt(prev: seq<UserInfo>, next: seq<UserInfo>, u: UserInfo)
    ensures u in AddedOf(prev, next) <==> IsAdded(prev, next, u)
  {
    if next != [] {
      var k := |next| - 1;
      AddedAt(prev, next[..k], u);
      AddedLast(prev, next, u);
    }
  }

  lemma AddedLast(prev: seq<UserInfo>, next: seq<UserInfo>, u: UserInfo)
    requires next != []
    ensures var k := |next| - 1;
      IsAdded(prev, next, u) <==> IsAdded(prev, next[..k], u) || (next[k] == u && IsNew(prev, next, k))
  {
    var k := |next| - 1;
    var init := next[..k];
    forall i: nat | i < k ensures init[i] == next[i] && IsNew(prev, init, i) == IsNew(prev, next, i) {
      InitNew(prev, next, k, i);
    }
  }

  /** With distinct uuids a user has one position. */
  lemma AddedThere(prev: seq<UserInfo>, next: seq<UserInfo>, i: nat)
    requires DistinctUuids(next) && i < |next|
    ensures next[i] in AddedOf(prev, next) <==> IsNew(prev, next, i)
  {
    AddedAt(prev, next, next[i]);
  }

  lemma {:induction false} FirstIndex(next: seq<UserInfo>, i: nat) returns (f: nat)
    requires i < |next|
    ensures f <= i && FirstOfKey(next, f) && Key(next[f]) == Key(next[i])
    decreases i
  {
    f := i;
    if Key(next[i]) in Keys(next[..i]) {
      var u :| u in next[..i] && Key(u) == Key(next[i]);
      var j: nat :| j < i && next[j] == u;
      f := FirstIndex(next, j);
    }
  }

  /** An equal key before `i` makes the user at `i` count as added. */
  lemma UsedKeyIsNew(prev: seq<UserInfo>, next: seq<UserInfo>, j: nat, i: nat)
    requires j < i < |next| && Key(next[j]) == Key(next[i])
    ensures IsNew(prev, next, i)
  {
    assert next[..i][j] == next[j];
  }

  lemma SameKey(u: UserInfo, v: UserInfo)
    requires SameUser(u, v)
    ensures Key(u) == Key(v)
  {
    assert u.Uuid == v.Uuid;
    assert Itoa(u.SpeedLimit) == Itoa(v.SpeedLimit);
  }

  lemma MatchedKey(users: seq<UserInfo>, u: UserInfo)
    requires Matched(users, u)
    ensures Key(u) in Keys(users)
  {
    var v :| v in users && SameUser(v, u);
    SameKey(v, u);
  }

  lemma DeletedExact(prev: seq<UserInfo>, next: seq<UserInfo>, a: nat)
    requires KeysTellApart(prev, next) && a < |prev|
    ensures Key(prev[a]) in Keys(next) <==> Matched(next, prev[a])
  {
    if Matched(next, prev[a]) {
      MatchedKey(next, prev[a]);
    }
    if Key(prev[a]) in Keys(next) {
      var u :| u in next && Key(u) == Key(prev[a]);
      var i: nat :| i < |next| && next[i] == u;
      var f := FirstIndex(next, i);
      assert SameUser(prev[a], next[f]) && next[f] in next;
    }
  }

  lemma AddedExact(prev: seq<UserInfo>, next: seq<UserInfo>, i: nat)
    requires DistinctUuids(next) && KeysTellApart(prev, next) && i < |next|
    ensures IsNew(prev, next, i) <==> !Matched(prev, next[i])
  {
    var f := FirstIndex(next, i);
    if Key(next[i]) in Keys(prev) {
      var u :| u in prev && Key(u) == Key(next[i]);
      var a: nat :| a < |prev| && prev[a] == u;
      assert SameUser(prev[a], next[f]);
      if f < i {
        UsedKeyIsNew(prev, next, f, i);
        NoOtherMatch(prev, next, a, i);
      }
    } else if Matched(prev, next[i]) {
      MatchedKey(prev, next[i]);
    }
  }

  /** Only the old user with its key can match a new one. */
  lemma NoOtherMatch(prev: seq<UserInfo>, next: seq<UserInfo>, a: nat, i: nat)
    requires DistinctKeys(prev) && a < |prev| && i < |next| && Key(prev[a]) == Key(next[i])
    ensures Matched(prev, next[i]) <==> SameUser(prev[a], next[i])
  {
    if SameUser(prev[a], next[i]) {
      assert prev[a] in prev;
    }
    if Matched(prev, next[i]) {
      var v :| v in prev && SameUser(v, next[i]);
      SameKey(v, next[i]);
    }
  }

  lemma DroppedIff(prev: seq<UserInfo>, next: seq<UserInfo>, u: UserInfo)
    requires DistinctKeys(prev)
    ensures IsDropped(prev, next, u) <==> u in prev && Key(u) !in Keys(next)
  {
    if u in prev {
      var i: nat :| i < |prev| && prev[i] == u;
      assert LastOfKey(prev, i);
    }
  }

  lemma TellApartSuffices(prev: seq<UserInfo>, next: seq<UserInfo>, deleted: seq<UserInfo>, added: seq<UserInfo>)
    requires DistinctUuids(next) && IsDiff(prev, next, deleted, added) && KeysTellApart(prev, next)
    ensures IsExact(prev, next, deleted, added)
  {
    forall u ensures u in deleted <==> u in prev && !Matched(next, u) {
      DroppedIff(prev, next, u);
      if u in prev {
        var a: nat :| a < |prev| && prev[a] == u;
        DeletedExact(prev, next, a);
      }
    }
    forall u ensures u in added <==> u in next && !Matched(prev, u) {
      AddedAt(prev, next, u);
      if u in next {
        var i: nat :| i < |next| && next[i] == u;
        AddedThere(prev, next, i);
        AddedExact(prev, next, i);
      }
    }
  }

  /** Two old users of one key: either the first is missing among the deleted, or one of the two new ones
      that match them is wrongly added. */
  lemma SharedKeyShows(prev: seq<UserInfo>, next: seq<UserInfo>, deleted: seq<UserInfo>, added: seq<UserInfo>,
                       a: nat, b: nat)
    requires DistinctUuids(prev) && DistinctUuids(next) && IsDiff(prev, next, deleted, added)
    requires a < b < |prev| && Key(prev[a]) == Key(prev[b])
    ensures !IsExact(prev, next, deleted, added)
  {
    if IsExact(prev, next, deleted, added) {
      NotLast(prev, next, a, b);
      assert prev[a] in prev && prev[b] in prev;
      assert Matched(next, prev[a]);
      MatchedKey(next, prev[a]);
      assert Matched(next, prev[b]);
      BothMatched(prev, next, deleted, added, a, b);
    }
  }

  /** Only the last old user of a key can be deleted. */
  lemma NotLast(prev: seq<UserInfo>, next: seq<UserInfo>, a: nat, b: nat)
    requires DistinctUuids(prev) && a < b < |prev| && Key(prev[a]) == Key(prev[b])
    ensures !IsDropped(prev, next, prev[a])
  {
    forall i: nat | i < |prev| && prev[i] == prev[a] ensures i == a {
    }
  }

  lemma MatchAt(next: seq<UserInfo>, u: UserInfo) returns (i: nat)
    requires Matched(next, u)
    ensures i < |next| && SameUser(next[i], u)
  {
    var v :| v in next && SameUser(v, u);
    i :| i < |next| && next[i] == v;
  }

  lemma BothMatched(prev: seq<UserInfo>, next: seq<UserInfo>, deleted: seq<UserInfo>, added: seq<UserInfo>, a: nat,
                    b: nat)
    requires DistinctUuids(prev) && DistinctUuids(next) && IsDiff(prev, next, deleted, added)
    requires a < b < |prev| && Key(prev[a]) == Key(prev[b])
    requires Matched(next, prev[a]) && Matched(next, prev[b])
    ensures !IsExact(prev, next, deleted, added)
  {
    var i := MatchAt(next, prev[a]);
    var j := MatchAt(next, prev[b]);
    SameKey(next[i], prev[a]);
    SameKey(next[j], prev[b]);
    if i < j {
      LaterIsAdded(prev, next, b, i, j);
    } else {
      LaterIsAdded(prev, next, a, j, i);
    }
  }

  /** A new user is added although an old one matches it. */
  lemma LaterIsAdded(prev: seq<UserInfo>, next: seq<UserInfo>, a: nat, i: nat, j: nat)
    requires DistinctUuids(next) && a < |prev| && i < j < |next|
    requires Key(next[i]) == Key(next[j]) && SameUser(next[j], prev[a])
    ensures next[j] in AddedOf(prev, next) && Matched(prev, next[j])
  {
    UsedKeyIsNew(prev, next, i, j);
    AddedThere(prev, next, j);
    assert prev[a] in prev;
  }

  lemma TellApartNeeded(prev: seq<UserInfo>, next: seq<UserInfo>, deleted: seq<UserInfo>, added: seq<UserInfo>)
    requires DistinctUuids(prev) && DistinctUuids(next) && IsDiff(prev, next, deleted, added)
    requires IsExact(prev, next, deleted, added)
    ensures KeysTellApart(prev, next)
  {
    forall a, b | 0 <= a < b < |prev| ensures Key(prev[a]) != Key(prev[b]) {
      if Key(prev[a]) == Key(prev[b]) {
        SharedKeyShows(prev, next, deleted, added, a, b);
      }
    }
    forall a: nat, i: nat | a < |prev| && FirstOfKey(next, i) && Key(next[i]) == Key(prev[a])
      ensures SameUser(prev[a], next[i])
    {
      assert prev[a] in prev && next[i] in next;
      AddedThere(prev, next, i);
      NoOtherMatch(prev, next, a, i);
    }
  }

  /** For lists of distinct uuids of any length: the diff is exact if and only if the keys tell users
      apart. */
  lemma DiffExactly(prev: seq<UserInfo>, next: seq<UserInfo>, deleted: seq<UserInfo>, added: seq<UserInfo>)
    requires DistinctUuids(prev) && DistinctUuids(next) && IsDiff(prev, next, deleted, added)
    ensures IsExact(prev, next, deleted, added) <==> KeysTellApart(prev, next)
  {
    if KeysTellApart(prev, next) {
      TellApartSuffices(prev, next, deleted, added);
    }
    if IsExact(prev, next, deleted, added) {
      TellApartNeeded(prev, next, deleted, added);
    }
  }

  // ----- The diff on the lists the panel sends

  /** Distinct uuids of one length, without the tag separator. */
  predicate Listed(n: nat, users: seq<UserInfo>) {
    && (forall u :: u in users ==> |u.Uuid| == n && '|' !in u.Uuid)
    && DistinctUuids(users)
  }

  lemma ListedUnique(n: nat, users: seq<UserInfo>)
    requires Listed(n, users)
    ensures forall u, v :: u in users && v in users && u.Uuid == v.Uuid ==> u == v
  {
  }

  lemma ListedKeys(n: nat, users: seq<UserInfo>)
    requires Listed(n, users)
    ensures DistinctKeys(users)
  {
    forall i, j | 0 <= i < j < |users| ensures Key(users[i]) != Key(users[j]) {
      assert users[i] in users && users[j] in users;
      KeysApart(users[i], users[j]);
    }
  }

  lemma KeysApart(u: UserInfo, v: UserInfo)
    requires |u.Uuid| == |v.Uuid|
    ensures Key(u) == Key(v) <==> u.Uuid == v.Uuid && u.SpeedLimit == v.SpeedLimit
  {
    if Key(u) == Key(v) { KeyInjective(u, v); }
  }

  /** On the panel's lists the keys always tell users apart. */
  lemma ListedTellApart(n: nat, prev: seq<UserInfo>, next: seq<UserInfo>)
    requires Listed(n, prev) && Listed(n, next)
    ensures KeysTellApart(prev, next)
  {
    ListedKeys(n, prev);
    forall a: nat, i: nat | a < |prev| && FirstOfKey(next, i) && Key(next[i]) == Key(prev[a])
      ensures SameUser(prev[a], next[i])
    {
      assert prev[a] in prev && next[i] in next;
      KeyInjective(prev[a], next[i]);
    }
  }

  /** So there the diff is exact. */
  lemma DiffExact(n: nat, prev: seq<UserInfo>, next: seq<UserInfo>, deleted: seq<UserInfo>, added: seq<UserInfo>)
    requires Listed(n, prev) && Listed(n, next) && IsDiff(prev, next, deleted, added)
    ensures forall u :: u in deleted <==> u in prev && !Matched(next, u)
    ensures forall u :: u in added <==> u in next && !Matched(prev, u)
  {
    ListedTellApart(n, prev, next);
    DiffExactly(prev, next, deleted, added);
  }

  /** Diff and patch: deleting by uuid and then adding gives the new list's uuids and speed limits. */
  lemma DiffPatches(prev: seq<UserInfo>, next: seq<UserInfo>, deleted: seq<UserInfo>, added: seq<UserInfo>,
                    uuid: string, speed: int)
    requires DistinctUuids(prev) && DistinctUuids(next) && IsDiff(prev, next, deleted, added)
    requires KeysTellApart(prev, next)
    ensures HasSpeed(next, uuid, speed)
       <==> HasSpeed(added, uuid, speed) || (HasSpeed(prev, uuid, speed) && !HasUuid(deleted, uuid))
  {
    DiffExactly(prev, next, deleted, added);
  }

  /** A user whose speed limit changed is both deleted and added, one whose limit stayed is neither. */
  lemma SpeedChangeShows(prev: seq<UserInfo>, next: seq<UserInfo>, deleted: seq<UserInfo>, added: seq<UserInfo>,
                         u: UserInfo, v: UserInfo)
    requires DistinctUuids(prev) && DistinctUuids(next) && IsDiff(prev, next, deleted, added)
    requires KeysTellApart(prev, next)
    requires u in prev && v in next && u.Uuid == v.Uuid
    ensures u in deleted <==> u.SpeedLimit != v.SpeedLimit
    ensures v in added <==> u.SpeedLimit != v.SpeedLimit
  {
    DiffExactly(prev, next, deleted, added);
  }

  /** Of two users with one key the diff does not see that one took the place of the other. */
  lemma SameKeyUnseen(u: UserInfo, v: UserInfo)
    requires Key(u) == Key(v)
    ensures IsDiff([u], [v], [], [])
  {
    assert [u][0] == u && [v][0] == v;
    assert Key(u) in Keys([u]) && Key(v) in Keys([v]);
    assert [v][..0] == [];
    assert AddedOf([u], [v]) == AddedOf([u], []) + [];
    assert forall w :: IsDropped([u], [v], w) ==> w == u;
  }

  /** With uuids of different lengths the keys can collide: a user replaced by another is not seen. */
  lemma KeysCollide()
    ensures var prev, next := [UserInfo(1, "a1", 0, 0)], [UserInfo(2, "a", 10, 0)];
      IsDiff(prev, next, [], []) && !IsExact(prev, next, [], []) && !KeysTellApart(prev, next)
  {
    var u, v := UserInfo(1, "a1", 0, 0), UserInfo(2, "a", 10, 0);
    assert Digits(10) == Digits(1) + ["0123456789"[0]] == "10";
    assert Key(u) == "a10" == Key(v);
    SameKeyUnseen(u, v);
    assert u.Uuid != v.Uuid by { assert |u.Uuid| != |v.Uuid|; }
    assert u in [u] && !Matched([v], u);
    DiffExactly([u], [v], [], []);
  }
}
