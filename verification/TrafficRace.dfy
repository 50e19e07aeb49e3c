/**
 Traffic accounting with one collector and any number of concurrent adders. Every atomic operation is a
 step: an adder fetches a storage and later adds to it, the collector comes to a user, loads and zeroes
 each counter of its storage in turn and looks up the user's id. Users are dropped at any time, also
 while the collector is at them, as the hysteria2 core does; the other cores keep that out with a lock.
 Adders may go on using a storage whose user was dropped.
 */
module TrafficRace {
  import opened Volumes

  /** How far the collector is with one storage. */
  datatype Stage = Found | HasUp | HasBoth | UpZeroed | BothZeroed

  /** The collector is outside, between two users, or at one storage with the values it loaded. `uids` is
      the table of user ids, which the collector's lock keeps as it is during one collection. */
  datatype Pc =
    | Idle
    | Ranging(uids: map<string, int>, visited: set<string>)
    | AtUser(uids: map<string, int>, visited: set<string>, email: string, id: nat, stage: Stage, loaded: Volume)

  /** Storages live as long as anyone holds them; the table says which one a user has now. */
  datatype State = State(stores: map<nat, Volume>, table: map<string, nat>, pc: Pc)

  datatype Event =
    | Fetch(email: string, id: nat)
    | Add(id: nat, dir: Dir, n: int)
    | Begin(uids: map<string, int>)
    | Visit(email: string)
    | Load(id: nat, dir: Dir)
    | Pass
    | Zero(id: nat, dir: Dir)
    | Emit(email: string, id: nat, volume: Volume)
    | Discard(email: string, id: nat, volume: Volume)
    | End
    | Drop(email: string)

  const EMPTY: State := State(map[], map[], Idle)

  function UidOf(uids: map<string, int>, email: string): int {
    if email in uids then uids[email] else 0
  }

  predicate IsAt(pc: Pc, id: nat, stage: Stage) {
    pc.AtUser? && pc.id == id && pc.stage == stage
  }

  /** The collector has zeroed the storage and goes on to the next user. */
  predicate IsDone(pc: Pc, email: string, id: nat, volume: Volume) {
    IsAt(pc, id, BothZeroed) && pc.email == email && pc.loaded == volume
  }

  function Onward(pc: Pc): Pc
    requires pc.AtUser?
  {
    Ranging(pc.uids, pc.visited)
  }

  ghost predicate Next(threshold: int, s: State, e: Event, s': State) {
    match e
    // Adders, at any time. A fetch finds the user's storage or puts a fresh one into the table.
    case Fetch(email, id) =>
      if email in s.table then s.table[email] == id && s' == s
      else id !in s.stores && s' == s.(stores := s.stores[id := ZERO], table := s.table[email := id])
    case Add(id, dir, n) =>
      id in s.stores && s' == s.(stores := s.stores[id := s.stores[id].With(dir, s.stores[id].At(dir) + n)])
    // The collector.
    case Begin(uids) => s.pc == Idle && s' == s.(pc := Ranging(uids, {}))
    case Visit(email) =>
      && s.pc.Ranging? && email !in s.pc.visited && email in s.table
      && s' == s.(pc := AtUser(s.pc.uids, s.pc.visited + {email}, email, s.table[email], Found, ZERO))
    case Load(id, dir) =>
      && id in s.stores && IsAt(s.pc, id, if dir == Up then Found else HasUp)
      && s' == s.(pc := s.pc.(stage := if dir == Up then HasUp else HasBoth,
                              loaded := s.pc.loaded.With(dir, s.stores[id].At(dir))))
    case Pass =>
      && s.pc.AtUser? && s.pc.stage == HasBoth && s.pc.loaded.up + s.pc.loaded.down <= threshold
      && s' == s.(pc := Onward(s.pc))
    case Zero(id, dir) =>
      && id in s.stores && IsAt(s.pc, id, if dir == Up then HasBoth else UpZeroed)
      && s.pc.loaded.up + s.pc.loaded.down > threshold
      && s' == s.(stores := s.stores[id := s.stores[id].With(dir, 0)],
                  pc := s.pc.(stage := if dir == Up then UpZeroed else BothZeroed))
    case Emit(email, id, volume) =>
      && IsDone(s.pc, email, id, volume) && UidOf(s.pc.uids, email) != 0
      && s' == s.(pc := Onward(s.pc))
    case Discard(email, id, volume) =>
      && IsDone(s.pc, email, id, volume) && UidOf(s.pc.uids, email) == 0
      && s' == s.(pc := Onward(s.pc), table := s.table - {email})
    case End => s.pc.Ranging? && s' == s.(pc := Idle)
    // A user is dropped.
    case Drop(email) => s' == s.(table := s.table - {email})
  }

  ghost predicate IsRun(threshold: int, states: seq<State>, events: seq<Event>) {
    && |states| == |events| + 1 && states[0] == EMPTY
    && forall i {:trigger events[i]} :: 0 <= i < |events| ==> Next(threshold, states[i], events[i], states[i + 1])
  }

  lemma RunStep(threshold: int, states: seq<State>, events: seq<Event>, i: nat)
    requires IsRun(threshold, states, events) && i < |events|
    ensures Next(threshold, states[i], events[i], states[i + 1])
  {
  }

  // ----- History

  /** The bytes added to one counter. */
  function Counted(events: seq<Event>, k: nat, id: nat, dir: Dir): int
    requires k <= |events|
  {
    if k == 0 then 0
    else
      var e := events[k - 1];
      Counted(events, k - 1, id, dir) + (if e.Add? && e.id == id && e.dir == dir then e.n else 0)
  }

  /** The bytes of one counter that went into a traffic slice. */
  function Reported(events: seq<Event>, k: nat, id: nat, dir: Dir): int
    requires k <= |events|
  {
    if k == 0 then 0
    else
      var e := events[k - 1];
      Reported(events, k - 1, id, dir) + (if e.Emit? && e.id == id then e.volume.At(dir) else 0)
  }

  /** The bytes of one counter that were thrown away with a user without an id. */
  function Discarded(events: seq<Event>, k: nat, id: nat, dir: Dir): int
    requires k <= |events|
  {
    if k == 0 then 0
    else
      var e := events[k - 1];
      Discarded(events, k - 1, id, dir) + (if e.Discard? && e.id == id then e.volume.At(dir) else 0)
  }

  /** The bytes added to one counter since the collector last loaded it. */
  function SinceLoad(events: seq<Event>, k: nat, id: nat, dir: Dir): int
    requires k <= |events|
  {
    if k == 0 then 0
    else
      var e := events[k - 1];
      if e.Load? && e.id == id && e.dir == dir then 0
      else SinceLoad(events, k - 1, id, dir) + (if e.Add? && e.id == id && e.dir == dir then e.n else 0)
  }

  /** The bytes added between a load of the counter and the zeroing that followed it. */
  function Missed(events: seq<Event>, k: nat, id: nat, dir: Dir): int
    requires k <= |events|
  {
    if k == 0 then 0
    else
      var e := events[k - 1];
      Missed(events, k - 1, id, dir)
        + (if e.Zero? && e.id == id && e.dir == dir then SinceLoad(events, k - 1, id, dir) else 0)
  }

  // ----- The invariant

  /** Zeroed already, but not yet reported or discarded. */
  function InHand(pc: Pc, id: nat, dir: Dir): int {
    if pc.AtUser? && pc.id == id && (pc.stage == BothZeroed || (pc.stage == UpZeroed && dir == Up))
    then pc.loaded.At(dir) else 0
  }

  /** Loaded and not yet zeroed or passed over. */
  predicate IsOpen(pc: Pc, id: nat, dir: Dir) {
    pc.AtUser? && pc.id == id
    && (if dir == Up then pc.stage == HasUp || pc.stage == HasBoth else pc.stage == HasBoth || pc.stage == UpZeroed)
  }

  function StoredAt(s: State, id: nat, dir: Dir): int {
    if id in s.stores then s.stores[id].At(dir) else 0
  }

  ghost predicate Balanced(events: seq<Event>, k: nat, s: State, id: nat, dir: Dir)
    requires k <= |events|
  {
    && Counted(events, k, id, dir)
       == Reported(events, k, id, dir) + Discarded(events, k, id, dir)
          + StoredAt(s, id, dir) + Missed(events, k, id, dir) + InHand(s.pc, id, dir)
    && (IsOpen(s.pc, id, dir) ==> StoredAt(s, id, dir) == s.pc.loaded.At(dir) + SinceLoad(events, k, id, dir))
  }

  lemma AdderBalanced(threshold: int, events: seq<Event>, k: nat, s: State, s': State, id: nat, dir: Dir)
    requires k < |events| && Next(threshold, s, events[k], s') && Balanced(events, k, s, id, dir)
    requires events[k].Fetch? || events[k].Add? || events[k].Drop?
    ensures Balanced(events, k + 1, s', id, dir)
  {
  }

  lemma LookBalanced(threshold: int, events: seq<Event>, k: nat, s: State, s': State, id: nat, dir: Dir)
    requires k < |events| && Next(threshold, s, events[k], s') && Balanced(events, k, s, id, dir)
    requires events[k].Begin? || events[k].Visit? || events[k].Load? || events[k].Pass? || events[k].End?
    ensures Balanced(events, k + 1, s', id, dir)
  {
  }

  lemma TakeBalanced(threshold: int, events: seq<Event>, k: nat, s: State, s': State, id: nat, dir: Dir)
    requires k < |events| && Next(threshold, s, events[k], s') && Balanced(events, k, s, id, dir)
    requires events[k].Zero? || events[k].Emit? || events[k].Discard?
    ensures Balanced(events, k + 1, s', id, dir)
  {
  }

  lemma StepBalanced(threshold: int, events: seq<Event>, k: nat, s: State, s': State, id: nat, dir: Dir)
    requires k < |events| && Next(threshold, s, events[k], s') && Balanced(events, k, s, id, dir)
    ensures Balanced(events, k + 1, s', id, dir)
  {
    var e := events[k];
    if e.Fetch? || e.Add? || e.Drop? {
      AdderBalanced(threshold, events, k, s, s', id, dir);
    } else if e.Zero? || e.Emit? || e.Discard? {
      TakeBalanced(threshold, events, k, s, s', id, dir);
    } else {
      LookBalanced(threshold, events, k, s, s', id, dir);
    }
  }

  lemma BalancedGoesOn(threshold: int, states: seq<State>, events: seq<Event>, k: nat, id: nat, dir: Dir)
    requires IsRun(threshold, states, events) && k < |events| && Balanced(events, k, states[k], id, dir)
    ensures Balanced(events, k + 1, states[k + 1], id, dir)
  {
    RunStep(threshold, states, events, k);
    StepBalanced(threshold, events, k, states[k], states[k + 1], id, dir);
  }

  /** In every interleaving and at every moment, per counter: bytes added are bytes reported, bytes
      discarded, bytes stored, bytes the collector holds, and exactly the bytes that were added between
      a load and the zeroing after it. */
  lemma {:induction false} RunBalanced(threshold: int, states: seq<State>, events: seq<Event>, k: nat, id: nat,
                                       dir: Dir)
    requires IsRun(threshold, states, events) && k <= |events|
    ensures Balanced(events, k, states[k], id, dir)
  {
    if k > 0 {
      RunBalanced(threshold, states, events, k - 1, id, dir);
      BalancedGoesOn(threshold, states, events, k - 1, id, dir);
    }
  }

  // ----- What the collector reports and takes

  /** What the collector loaded last from a counter. */
  function LoadedAt(states: seq<State>, events: seq<Event>, k: nat, dir: Dir): int
    requires k <= |events| < |states|
  {
    if k == 0 then 0
    else
      var e, stores := events[k - 1], states[k - 1].stores;
      if e.Load? && e.dir == dir && e.id in stores then (if dir == Up then stores[e.id].up else stores[e.id].down)
      else LoadedAt(states, events, k - 1, dir)
  }

  /** The values the collector holds are those it loaded last. */
  predicate HoldsLoaded(pc: Pc, up: int, down: int) {
    pc.AtUser? ==>
      && (pc.stage != Found ==> pc.loaded.up == up)
      && (pc.stage != Found && pc.stage != HasUp ==> pc.loaded.down == down)
  }

  lemma LoadedGoesOn(threshold: int, states: seq<State>, events: seq<Event>, k: nat)
    requires IsRun(threshold, states, events) && k < |events|
    requires HoldsLoaded(states[k].pc, LoadedAt(states, events, k, Up), LoadedAt(states, events, k, Down))
    ensures HoldsLoaded(states[k + 1].pc, LoadedAt(states, events, k + 1, Up), LoadedAt(states, events, k + 1, Down))
  {
    RunStep(threshold, states, events, k);
  }

  lemma {:induction false} RunHoldsLoaded(threshold: int, states: seq<State>, events: seq<Event>, k: nat)
    requires IsRun(threshold, states, events) && k <= |events|
    ensures HoldsLoaded(states[k].pc, LoadedAt(states, events, k, Up), LoadedAt(states, events, k, Down))
  {
    if k > 0 {
      var j := k - 1;
      RunHoldsLoaded(threshold, states, events, j);
      LoadedGoesOn(threshold, states, events, j);
    }
  }

  /** The collector is at a storage it has begun to zero, so the total it loaded was above the threshold. */
  predicate TakesAbove(pc: Pc, threshold: int) {
    pc.AtUser? && (pc.stage == UpZeroed || pc.stage == BothZeroed) ==> pc.loaded.up + pc.loaded.down > threshold
  }

  lemma TakesGoOn(threshold: int, states: seq<State>, events: seq<Event>, k: nat)
    requires IsRun(threshold, states, events) && k < |events| && TakesAbove(states[k].pc, threshold)
    ensures TakesAbove(states[k + 1].pc, threshold)
  {
    RunStep(threshold, states, events, k);
  }

  lemma {:induction false} RunTakesAbove(threshold: int, states: seq<State>, events: seq<Event>, k: nat)
    requires IsRun(threshold, states, events) && k <= |events|
    ensures TakesAbove(states[k].pc, threshold)
  {
    if k > 0 {
      var j := k - 1;
      RunTakesAbove(threshold, states, events, j);
      TakesGoOn(threshold, states, events, j);
    }
  }

  /** In every interleaving the collector zeroes, reports or discards exactly when the up and down counts it
      loaded together are above the threshold, and passes on exactly when they are not. What it reports or
      discards is what it loaded. */
  lemma ThresholdExactly(threshold: int, states: seq<State>, events: seq<Event>, k: nat)
    requires IsRun(threshold, states, events) && k < |events|
    ensures var up, down := LoadedAt(states, events, k, Up), LoadedAt(states, events, k, Down);
      && (events[k].Zero? || events[k].Emit? || events[k].Discard? ==> up + down > threshold)
      && (events[k].Pass? ==> up + down <= threshold)
      && (events[k].Emit? || events[k].Discard? ==> events[k].volume.up == up && events[k].volume.down == down)
  {
    RunHoldsLoaded(threshold, states, events, k);
    RunTakesAbove(threshold, states, events, k);
    RunStep(threshold, states, events, k);
  }

  /** Only adders and zeroing change a counter. */
  lemma CounterStays(threshold: int, states: seq<State>, events: seq<Event>, k: nat, id: nat, dir: Dir)
    requires IsRun(threshold, states, events) && k < |events| && id in states[k].stores
    requires !(events[k].Add? && events[k].id == id) && !(events[k].Zero? && events[k].id == id)
    ensures id in states[k + 1].stores && states[k + 1].stores[id] == states[k].stores[id]
  {
    RunStep(threshold, states, events, k);
  }

  // ----- Users

  /** The user is not dropped, and has an id when a collection begins. */
  predicate Spares(e: Event, email: string) {
    match e
    case Drop(dropped) => dropped != email
    case Begin(uids) => UidOf(uids, email) != 0
    case _ => true
  }

  /** Users own their storages alone, and the collector is at a storage no other user has. */
  ghost predicate TableFits(s: State) {
    && (forall e :: e in s.table ==> s.table[e] in s.stores)
    && (forall e, f :: e in s.table && f in s.table && e != f ==> s.table[e] != s.table[f])
    && (s.pc.AtUser? ==> s.pc.id in s.stores)
    && (s.pc.AtUser? ==> forall e :: e in s.table && s.table[e] == s.pc.id ==> e == s.pc.email)
  }

  /** A collection that is under way has an id for the user. */
  predicate HasId(s: State, email: string) {
    s.pc == Idle || UidOf(s.pc.uids, email) != 0
  }

  lemma {:induction false} RunHasId(threshold: int, states: seq<State>, events: seq<Event>, i: nat, k: nat,
                                    email: string)
    requires IsRun(threshold, states, events) && i <= k <= |events| && HasId(states[i], email)
    requires forall j :: i <= j < k ==> Spares(events[j], email)
    ensures HasId(states[k], email)
  {
    if i < k {
      RunHasId(threshold, states, events, i, k - 1, email);
      RunStep(threshold, states, events, k - 1);
      assert Spares(events[k - 1], email);
    }
  }

  lemma {:induction false} RunTableFits(threshold: int, states: seq<State>, events: seq<Event>, k: nat)
    requires IsRun(threshold, states, events) && k <= |events|
    ensures TableFits(states[k])
  {
    if k > 0 {
      RunTableFits(threshold, states, events, k - 1);
      RunStep(threshold, states, events, k - 1);
      TableStep(threshold, states[k - 1], events[k - 1], states[k]);
    }
  }

  lemma TableStep(threshold: int, s: State, e: Event, s': State)
    requires Next(threshold, s, e, s') && TableFits(s)
    ensures TableFits(s')
  {
  }

  /** The storage is not made yet, or it is the user's. */
  predicate IsOwnOrNew(s: State, email: string, id: nat) {
    id !in s.stores || (email in s.table && s.table[email] == id)
  }

  lemma OwnStep(threshold: int, s: State, e: Event, s': State, email: string, id: nat)
    requires Next(threshold, s, e, s') && TableFits(s) && IsOwnOrNew(s', email, id)
    requires Spares(e, email) && HasId(s, email)
    ensures IsOwnOrNew(s, email, id) && !(e.Discard? && e.id == id)
  {
  }

  /** While a user stays, nothing is discarded from its storage, nor was the storage another's before. */
  lemma {:induction false} NothingDiscarded(threshold: int, states: seq<State>, events: seq<Event>, i: nat, k: nat,
                                            email: string, id: nat, dir: Dir)
    requires IsRun(threshold, states, events) && i <= k <= |events| && HasId(states[i], email)
    requires forall j :: i <= j < k ==> Spares(events[j], email)
    requires IsOwnOrNew(states[k], email, id)
    ensures IsOwnOrNew(states[i], email, id) && Discarded(events, k, id, dir) == Discarded(events, i, id, dir)
  {
    if i < k {
      RunTableFits(threshold, states, events, k - 1);
      RunHasId(threshold, states, events, i, k - 1, email);
      RunStep(threshold, states, events, k - 1);
      OwnStep(threshold, states[k - 1], events[k - 1], states[k], email, id);
      NothingDiscarded(threshold, states, events, i, k - 1, email, id, dir);
    }
  }

  /** A storage that is not made yet has no history. */
  lemma {:induction false} NoHistory(threshold: int, states: seq<State>, events: seq<Event>, k: nat, id: nat, dir: Dir)
    requires IsRun(threshold, states, events) && k <= |events| && id !in states[k].stores
    ensures Counted(events, k, id, dir) == Reported(events, k, id, dir) == Discarded(events, k, id, dir) == 0
    ensures SinceLoad(events, k, id, dir) == Missed(events, k, id, dir) == 0
  {
    if k > 0 {
      RunStep(threshold, states, events, k - 1);
      RunTableFits(threshold, states, events, k - 1);
      NoHistory(threshold, states, events, k - 1, id, dir);
    }
  }

  /** A user that is not dropped keeps its storage, so all adders of the user add to the same counters. */
  lemma {:induction false} StorageStays(threshold: int, states: seq<State>, events: seq<Event>, i: nat, k: nat,
                                        email: string)
    requires IsRun(threshold, states, events) && i <= k <= |events| && email in states[i].table
    requires HasId(states[i], email) && forall j :: i <= j < k ==> Spares(events[j], email)
    ensures email in states[k].table && states[k].table[email] == states[i].table[email]
  {
    if i < k {
      StorageStays(threshold, states, events, i, k - 1, email);
      RunStep(threshold, states, events, k - 1);
      RunHasId(threshold, states, events, i, k - 1, email);
    }
  }

  // ----- Storages of users that are gone

  /** The storage belongs to no user any more. */
  ghost predicate Abandoned(s: State, id: nat) {
    id in s.stores && forall e :: e in s.table ==> s.table[e] != id
  }

  lemma AbandonedGoesOn(threshold: int, states: seq<State>, events: seq<Event>, k: nat, id: nat)
    requires IsRun(threshold, states, events) && k < |events| && Abandoned(states[k], id)
    ensures Abandoned(states[k + 1], id) && !(events[k].Fetch? && events[k].id == id)
  {
    RunStep(threshold, states, events, k);
  }

  lemma {:induction false} AbandonedStays(threshold: int, states: seq<State>, events: seq<Event>, i: nat, k: nat,
                                          id: nat)
    requires IsRun(threshold, states, events) && i <= k <= |events| && Abandoned(states[i], id)
    ensures Abandoned(states[k], id)
    ensures forall j :: i <= j < k ==> !(events[j].Fetch? && events[j].id == id)
  {
    if i < k {
      var j := k - 1;
      AbandonedStays(threshold, states, events, i, j, id);
      AbandonedGoesOn(threshold, states, events, j, id);
    }
  }

  /** Dropping a user, or discarding its counts for want of an id, takes its storage away for good: no adder
      is ever given it again. */
  lemma DroppedForGood(threshold: int, states: seq<State>, events: seq<Event>, i: nat, k: nat, email: string)
    requires IsRun(threshold, states, events) && i < k <= |events| && email in states[i].table
    requires (events[i].Drop? || events[i].Discard?) && events[i].email == email
    ensures var id := states[i].table[email];
      forall j :: i <= j < k ==> !(events[j].Fetch? && events[j].id == id)
  {
    var id := states[i].table[email];
    RunTableFits(threshold, states, events, i);
    RunStep(threshold, states, events, i);
    assert Abandoned(states[i + 1], id);
    AbandonedStays(threshold, states, events, i + 1, k, id);
  }

  // ----- The balance of a user

  /** For a user that is not dropped and has an id from some moment `i` on, and for the counters it has at
      the end: what was stored or in the collector's hands then, and counted since, is what was reported
      since, is stored, is in the collector's hands, and exactly what fell between load and zeroing. */
  lemma UserBalanced(threshold: int, states: seq<State>, events: seq<Event>, i: nat, k: nat, email: string, dir: Dir)
    requires IsRun(threshold, states, events) && i <= k <= |events| && HasId(states[i], email)
    requires email in states[k].table && forall j :: i <= j < k ==> Spares(events[j], email)
    ensures var id := states[k].table[email];
      StoredAt(states[i], id, dir) + InHand(states[i].pc, id, dir)
        + Counted(events, k, id, dir) - Counted(events, i, id, dir)
      == Reported(events, k, id, dir) - Reported(events, i, id, dir)
        + StoredAt(states[k], id, dir) + InHand(states[k].pc, id, dir)
        + Missed(events, k, id, dir) - Missed(events, i, id, dir)
  {
    var id := states[k].table[email];
    RunBalanced(threshold, states, events, i, id, dir);
    RunBalanced(threshold, states, events, k, id, dir);
    NothingDiscarded(threshold, states, events, i, k, email, id, dir);
  }

  /** So for a user that comes, or comes back, after `i`, whenever the collector is idle: all bytes counted
      are bytes reported, plus bytes stored, plus exactly the bytes that fell between load and zeroing. */
  lemma UserConserved(threshold: int, states: seq<State>, events: seq<Event>, i: nat, k: nat, email: string, dir: Dir)
    requires IsRun(threshold, states, events) && i <= k <= |events| && HasId(states[i], email)
    requires email !in states[i].table && forall j :: i <= j < k ==> Spares(events[j], email)
    requires email in states[k].table && states[k].pc == Idle
    ensures var id := states[k].table[email];
      Counted(events, k, id, dir)
      == Reported(events, k, id, dir) + StoredAt(states[k], id, dir) + Missed(events, k, id, dir)
  {
    var id := states[k].table[email];
    RunTableFits(threshold, states, events, k);
    RunTableFits(threshold, states, events, i);
    NothingDiscarded(threshold, states, events, i, k, email, id, dir);
    NoHistory(threshold, states, events, i, id, dir);
    UserBalanced(threshold, states, events, i, k, email, dir);
  }

  predicate AddsNoLess(e: Event) {
    e.Add? ==> e.n >= 0
  }

  ghost predicate NonNegative(s: State) {
    && (forall id :: id in s.stores ==> s.stores[id].up >= 0 && s.stores[id].down >= 0)
    && (s.pc.AtUser? ==> s.pc.loaded.up >= 0 && s.pc.loaded.down >= 0)
  }

  lemma NonNegativeStep(threshold: int, s: State, e: Event, s': State)
    requires Next(threshold, s, e, s') && AddsNoLess(e) && NonNegative(s)
    ensures NonNegative(s')
  {
  }

  ghost predicate SumsFit(events: seq<Event>, k: nat, s: State, id: nat, dir: Dir)
    requires k <= |events|
  {
    && NonNegative(s)
    && SinceLoad(events, k, id, dir) >= 0 && Missed(events, k, id, dir) >= 0 && Discarded(events, k, id, dir) >= 0
  }

  lemma SumsStep(threshold: int, s: State, events: seq<Event>, k: nat, s': State, id: nat, dir: Dir)
    requires k < |events| && Next(threshold, s, events[k], s') && AddsNoLess(events[k])
    requires SumsFit(events, k, s, id, dir) && NonNegative(s')
    ensures SumsFit(events, k + 1, s', id, dir)
  {
  }

  lemma SumsGoOn(threshold: int, states: seq<State>, events: seq<Event>, k: nat, id: nat, dir: Dir)
    requires IsRun(threshold, states, events) && k < |events| && AddsNoLess(events[k])
    requires SumsFit(events, k, states[k], id, dir)
    ensures SumsFit(events, k + 1, states[k + 1], id, dir)
  {
    RunStep(threshold, states, events, k);
    NonNegativeStep(threshold, states[k], events[k], states[k + 1]);
    SumsStep(threshold, states[k], events, k, states[k + 1], id, dir);
  }

  lemma {:induction false} RunNonNegative(threshold: int, states: seq<State>, events: seq<Event>, k: nat, id: nat,
                                          dir: Dir)
    requires IsRun(threshold, states, events) && k <= |events|
    requires forall i :: 0 <= i < k ==> AddsNoLess(events[i])
    ensures SumsFit(events, k, states[k], id, dir)
  {
    if k > 0 {
      RunNonNegative(threshold, states, events, k - 1, id, dir);
      SumsGoOn(threshold, states, events, k - 1, id, dir);
    }
  }

  /** Traffic is never over-reported, at any moment of any interleaving. */
  lemma NeverOverReported(threshold: int, states: seq<State>, events: seq<Event>, k: nat, id: nat, dir: Dir)
    requires IsRun(threshold, states, events) && k <= |events|
    requires forall i :: 0 <= i < k ==> AddsNoLess(events[i])
    ensures Reported(events, k, id, dir) <= Counted(events, k, id, dir)
  {
    RunBalanced(threshold, states, events, k, id, dir);
    RunNonNegative(threshold, states, events, k, id, dir);
  }
}
