/**
 Sniffing: a list of protocol sniffers that narrows as more of the stream is seen, and the loop that
 looks at the stream at most twice.
 */
module Sniffing {
  import opened Wrappers
  import opened CachedReader

  datatype Network = TCP | UDP | UNIX

  datatype SniffResult = SniffResult(protocol: string, domain: string)

  datatype SniffError = NoClue | NeedMoreData | UnknownContent | Cancelled | Timeout | Unreadable | Foreign

  /** What one protocol sniffer says: a result, success without a result, or an error. */
  datatype Answer = Found(result: SniffResult) | Nothing | Failed(error: SniffError)

  datatype ProtocolSniffer = ProtocolSniffer(sniff: Bytes -> Answer, metadata: bool, network: Network)

  type Outcome = Result<SniffResult, SniffError>

  // ----- One scan of a list

  predicate Applies(si: ProtocolSniffer, network: Network) {
    !si.metadata && si.network == network
  }

  predicate IsPending(a: Answer) {
    a == Failed(NoClue)
  }

  /** The sniffer rejects the payload for good. */
  predicate IsDropped(a: Answer) {
    !a.Found? && !IsPending(a)
  }

  function FirstFound(list: seq<ProtocolSniffer>, payload: Bytes, network: Network): Option<SniffResult> {
    if list == [] then None
    else if Applies(list[0], network) && list[0].sniff(payload).Found? then Some(list[0].sniff(payload).result)
    else FirstFound(list[1..], payload, network)
  }

  /** The sniffers that cannot tell yet. */
  function Pending(list: seq<ProtocolSniffer>, payload: Bytes, network: Network): seq<ProtocolSniffer> {
    if list == [] then []
    else if Applies(list[0], network) && IsPending(list[0].sniff(payload))
    then [list[0]] + Pending(list[1..], payload, network)
    else Pending(list[1..], payload, network)
  }

  /** The first result in list order; else no clue while some sniffer cannot tell; else unknown. */
  function Scan(list: seq<ProtocolSniffer>, payload: Bytes, network: Network): Outcome {
    var found := FirstFound(list, payload, network);
    if found.Some? then Ok(found.value)
    else if Pending(list, payload, network) != [] then Err(NoClue)
    else Err(UnknownContent)
  }

  function Narrow(list: seq<ProtocolSniffer>, payload: Bytes, network: Network): seq<ProtocolSniffer> {
    if Scan(list, payload, network) == Err(NoClue) then Pending(list, payload, network) else list
  }

  /** The sniffers that metadata sniffing leaves. */
  function MetadataPending(list: seq<ProtocolSniffer>): seq<ProtocolSniffer> {
    if list == [] then []
    else if !list[0].metadata || IsPending(list[0].sniff([])) then [list[0]] + MetadataPending(list[1..])
    else MetadataPending(list[1..])
  }

  function MetadataFound(list: seq<ProtocolSniffer>): Option<SniffResult> {
    if list == [] then None
    else if list[0].metadata && list[0].sniff([]).Found? then Some(list[0].sniff([]).result)
    else MetadataFound(list[1..])
  }

  // ----- What a scan says

  /** A sniffer of this network that looks at content and has a result. */
  predicate Finds(si: ProtocolSniffer, payload: Bytes, network: Network) {
    !si.metadata && si.network == network && si.sniff(payload).Found?
  }

  /** A sniffer of this network that looks at content and has no clue yet. */
  predicate HasNoClue(si: ProtocolSniffer, payload: Bytes, network: Network) {
    !si.metadata && si.network == network && si.sniff(payload) == Failed(NoClue)
  }

  /** The first sniffer of the list that has a result. */
  predicate FindsFirst(list: seq<ProtocolSniffer>, i: nat, payload: Bytes, network: Network) {
    i < |list| && Finds(list[i], payload, network) && forall j :: 0 <= j < i ==> !Finds(list[j], payload, network)
  }

  lemma {:induction false} FoundExactly(list: seq<ProtocolSniffer>, payload: Bytes, network: Network)
    ensures FirstFound(list, payload, network) == None <==>
      forall i :: 0 <= i < |list| ==> !Finds(list[i], payload, network)
    ensures forall i: nat :: FindsFirst(list, i, payload, network) ==>
      FirstFound(list, payload, network) == Some(list[i].sniff(payload).result)
  {
    if list != [] {
      var rest := list[1..];
      FoundExactly(rest, payload, network);
      assert forall i :: 0 <= i < |rest| ==> rest[i] == list[i + 1];
      assert Finds(list[0], payload, network) <==> Applies(list[0], network) && list[0].sniff(payload).Found?;
      forall i: nat | FindsFirst(list, i, payload, network)
        ensures FirstFound(list, payload, network) == Some(list[i].sniff(payload).result)
      {
        if i > 0 {
          assert !Finds(list[0], payload, network);
          assert FindsFirst(rest, i - 1, payload, network);
        }
      }
    }
  }

  lemma {:induction false} PendingExactly(list: seq<ProtocolSniffer>, payload: Bytes, network: Network)
    ensures forall si :: si in Pending(list, payload, network) <==> si in list && HasNoClue(si, payload, network)
  {
    if list != [] {
      PendingExactly(list[1..], payload, network);
      assert forall si :: si in list <==> si == list[0] || si in list[1..];
    }
  }

  lemma {:induction false} PendingSome(list: seq<ProtocolSniffer>, payload: Bytes, network: Network)
    ensures Pending(list, payload, network) != [] <==>
      exists i :: 0 <= i < |list| && HasNoClue(list[i], payload, network)
  {
    if list != [] {
      var rest := list[1..];
      PendingSome(rest, payload, network);
      assert forall i :: 0 <= i < |rest| ==> rest[i] == list[i + 1];
      assert forall i :: 0 < i < |list| ==> list[i] == rest[i - 1];
    }
  }

  /** A scan gives the result of the first sniffer that has one; without one, no clue if and only if some
      sniffer has none yet; and exactly those sniffers stay on the list. */
  lemma ScanExactly(list: seq<ProtocolSniffer>, payload: Bytes, network: Network)
    ensures forall i: nat :: FindsFirst(list, i, payload, network) ==>
      Scan(list, payload, network) == Ok(list[i].sniff(payload).result)
    ensures (forall i :: 0 <= i < |list| ==> !Finds(list[i], payload, network)) ==>
      Scan(list, payload, network)
      == Err(if exists i :: 0 <= i < |list| && HasNoClue(list[i], payload, network) then NoClue else UnknownContent)
    ensures Scan(list, payload, network) == Err(NoClue) ==>
      forall si :: si in Narrow(list, payload, network) <==> si in list && HasNoClue(si, payload, network)
  {
    FoundExactly(list, payload, network);
    PendingExactly(list, payload, network);
    PendingSome(list, payload, network);
  }

  predicate FindsMetadata(si: ProtocolSniffer) {
    si.metadata && si.sniff([]).Found?
  }

  predicate FindsMetadataFirst(list: seq<ProtocolSniffer>, i: nat) {
    i < |list| && FindsMetadata(list[i]) && forall j :: 0 <= j < i ==> !FindsMetadata(list[j])
  }

  /** Sniffing metadata: the first metadata sniffer with a result decides. Without one, exactly the metadata
      sniffers that are not pending leave the list. */
  lemma {:induction false} MetadataExactly(list: seq<ProtocolSniffer>)
    ensures MetadataFound(list) == None <==>
      forall i :: 0 <= i < |list| ==> !FindsMetadata(list[i])
    ensures forall i: nat :: FindsMetadataFirst(list, i) ==> MetadataFound(list) == Some(list[i].sniff([]).result)
    ensures forall si :: si in MetadataPending(list) <==>
      si in list && (si.metadata ==> si.sniff([]) == Failed(NoClue))
  {
    if list != [] {
      var rest := list[1..];
      MetadataExactly(rest);
      assert forall si :: si in list <==> si == list[0] || si in rest;
      assert forall i :: 0 <= i < |rest| ==> rest[i] == list[i + 1];
      forall i: nat | FindsMetadataFirst(list, i) ensures MetadataFound(list) == Some(list[i].sniff([]).result) {
        if i > 0 {
          assert !FindsMetadata(list[0]);
          assert FindsMetadataFirst(rest, i - 1);
        }
      }
    }
  }

  class Sniffer {
    var sniffer: seq<ProtocolSniffer>

    constructor (list: seq<ProtocolSniffer>)
      ensures sniffer == list
    {
      sniffer := list;
    }

    method Sniff(payload: Bytes, network: Network) returns (r: Outcome)
      modifies this
      ensures r == Scan(old(sniffer), payload, network)
      ensures sniffer == Narrow(old(sniffer), payload, network)
    {
      ghost var list := sniffer;
      var pendingSniffer := [];
      for i := 0 to |sniffer|
        invariant sniffer == list
        invariant FirstFound(list, payload, network) == FirstFound(list[i..], payload, network)
        invariant Pending(list, payload, network) == pendingSniffer + Pending(list[i..], payload, network)
      {
        var si := sniffer[i];
        assert list[i..][0] == si && list[i..][1..] == list[i + 1..];
        if si.metadata || si.network != network {
          continue;
        }
        var answer := si.sniff(payload);
        if answer == Failed(NoClue) {
          pendingSniffer := pendingSniffer + [si];
          continue;
        }
        if answer.Found? {
          return Ok(answer.result);
        }
      }
      if |pendingSniffer| > 0 {
        sniffer := pendingSniffer;
        return Err(NoClue);
      }
      return Err(UnknownContent);
    }

    method SniffMetadata() returns (r: Outcome)
      modifies this
      ensures r == (if MetadataFound(old(sniffer)).Some? then Ok(MetadataFound(old(sniffer)).value)
                    else if MetadataPending(old(sniffer)) != [] then Err(NoClue) else Err(UnknownContent))
      ensures sniffer == if r == Err(NoClue) then MetadataPending(old(sniffer)) else old(sniffer)
    {
      ghost var list := sniffer;
      var pendingSniffer := [];
      for i := 0 to |sniffer|
        invariant sniffer == list
        invariant MetadataFound(list) == MetadataFound(list[i..])
        invariant MetadataPending(list) == pendingSniffer + MetadataPending(list[i..])
      {
        var si := sniffer[i];
        assert list[i..][0] == si && list[i..][1..] == list[i + 1..];
        if !si.metadata {
          pendingSniffer := pendingSniffer + [si];
          continue;
        }
        var answer := si.sniff([]);
        if answer == Failed(NoClue) {
          pendingSniffer := pendingSniffer + [si];
          continue;
        }
        if answer.Found? {
          return Ok(answer.result);
        }
      }
      if |pendingSniffer| > 0 {
        sniffer := pendingSniffer;
        return Err(NoClue);
      }
      return Err(UnknownContent);
    }
  }

  // ----- Narrowing refines rescanning

  /** What the sniffer rejects for good it goes on rejecting when the payload grows. */
  ghost predicate Persistent(si: ProtocolSniffer) {
    forall p, q :: p <= q && IsDropped(si.sniff(p)) ==> IsDropped(si.sniff(q))
  }

  /** Definite rejections by the sniffers that apply persist. */
  ghost predicate Persists(list: seq<ProtocolSniffer>, network: Network) {
    forall si :: si in list && Applies(si, network) ==> Persistent(si)
  }

  lemma {:induction false} NarrowingHides(list: seq<ProtocolSniffer>, p: Bytes, q: Bytes, network: Network)
    requires Persists(list, network) && p <= q && FirstFound(list, p, network) == None
    ensures Persists(Pending(list, p, network), network)
    ensures FirstFound(Pending(list, p, network), q, network) == FirstFound(list, q, network)
    ensures Pending(Pending(list, p, network), q, network) == Pending(list, q, network)
  {
    if list != [] {
      assert Persists(list[1..], network);
      NarrowingHides(list[1..], p, q, network);
      var si, rest := list[0], Pending(list[1..], p, network);
      assert si in list;
      if Applies(si, network) && IsPending(si.sniff(p)) {
        assert ([si] + rest)[1..] == rest;
      } else {
        assert Pending(list, p, network) == rest;
      }
    }
  }

  /** After a scan without a clue the narrowed list gives the same outcome as the full list, on every
      longer payload. */
  lemma NarrowScans(list: seq<ProtocolSniffer>, p: Bytes, q: Bytes, network: Network)
    requires Persists(list, network) && p <= q && Scan(list, p, network) == Err(NoClue)
    ensures Persists(Narrow(list, p, network), network)
    ensures Scan(Narrow(list, p, network), q, network) == Scan(list, q, network)
  {
    NarrowingHides(list, p, q, network);
  }

  /** The list after sniffing the first `k` payloads. */
  function Narrowed(list: seq<ProtocolSniffer>, payloads: seq<Bytes>, k: nat, network: Network): seq<ProtocolSniffer>
    requires k <= |payloads|
  {
    if k == 0 then list else Narrow(Narrowed(list, payloads, k - 1, network), payloads[k - 1], network)
  }

  ghost predicate Grows(payloads: seq<Bytes>) {
    forall i, j :: 0 <= i <= j < |payloads| ==> payloads[i] <= payloads[j]
  }

  /** Repeated sniffing with the narrowing list on growing payloads gives, at each call up to the first
      outcome other than no clue, what scanning the full list would. */
  lemma {:induction false} NarrowingRefines(list: seq<ProtocolSniffer>, payloads: seq<Bytes>, k: nat, q: Bytes,
                                            network: Network)
    requires Persists(list, network) && Grows(payloads) && k <= |payloads|
    requires forall i :: 0 <= i < k ==> payloads[i] <= q && Scan(list, payloads[i], network) == Err(NoClue)
    ensures Persists(Narrowed(list, payloads, k, network), network)
    ensures Scan(Narrowed(list, payloads, k, network), q, network) == Scan(list, q, network)
  {
    if k > 0 {
      var p, before := payloads[k - 1], Narrowed(list, payloads, k - 1, network);
      NarrowingRefines(list, payloads, k - 1, p, network);
      assert Scan(before, p, network) == Err(NoClue);
      NarrowingRefines(list, payloads, k - 1, q, network);
      NarrowScans(before, p, q, network);
    }
  }

  // ----- Which sniffers may be narrowed

  /** Narrowing a list that starts with `si` after looking at `p` does not show when `q` is scanned. */
  predicate NarrowsSafely(si: ProtocolSniffer, others: seq<ProtocolSniffer>, p: Bytes, q: Bytes, network: Network) {
    var list := [si] + others;
    Scan(list, p, network) == Err(NoClue) ==> Scan(Narrow(list, p, network), q, network) == Scan(list, q, network)
  }

  /** Nor does it beside any sniffers whose own rejections persist, for any two payloads. */
  ghost predicate NeverMissed(si: ProtocolSniffer, network: Network) {
    forall others, p, q :: Persists(others, network) && p <= q ==> NarrowsSafely(si, others, p, q, network)
  }

  /** A sniffer that cannot tell until it has seen `q`, and rejects then. */
  function WaitsFor(q: Bytes, network: Network): ProtocolSniffer {
    ProtocolSniffer(x => if q <= x then Nothing else Failed(NoClue), false, network)
  }

  lemma WaitPersists(q: Bytes, network: Network)
    ensures Persists([WaitsFor(q, network)], network)
  {
    var w := WaitsFor(q, network);
    forall x, y | x <= y && IsDropped(w.sniff(x)) ensures IsDropped(w.sniff(y)) {
      assert q <= x;
      PrefixGoesOn(q, x, y);
    }
  }

  lemma PrefixGoesOn(p: Bytes, q: Bytes, r: Bytes)
    requires p <= q && q <= r
    ensures p <= r
  {
  }

  lemma ScanOne(w: ProtocolSniffer, x: Bytes, network: Network)
    requires Applies(w, network) && !w.sniff(x).Found?
    ensures FirstFound([w], x, network) == None
    ensures Pending([w], x, network) == if IsPending(w.sniff(x)) then [w] else []
  {
    var rest: seq<ProtocolSniffer> := [];
    assert [w][1..] == rest;
    assert [w] + rest == [w];
  }

  /** Scanning one or two sniffers. */
  lemma ScanShort(si: ProtocolSniffer, w: ProtocolSniffer, x: Bytes, network: Network)
    requires Applies(si, network) && Applies(w, network) && !w.sniff(x).Found?
    ensures Scan([w], x, network) == Err(if IsPending(w.sniff(x)) then NoClue else UnknownContent)
    ensures Scan([si] + [w], x, network)
         == if si.sniff(x).Found? then Ok(si.sniff(x).result)
            else if IsPending(si.sniff(x)) || IsPending(w.sniff(x)) then Err(NoClue) else Err(UnknownContent)
    ensures IsDropped(si.sniff(x)) && IsPending(w.sniff(x)) ==> Narrow([si] + [w], x, network) == [w]
  {
    ScanOne(w, x, network);
    assert ([si] + [w])[1..] == [w];
  }

  /** A rejection that does not persist is missed beside a sniffer that still waits: what the sniffer says
      later is lost. */
  lemma LateAnswerIsLost(si: ProtocolSniffer, p: Bytes, q: Bytes, network: Network)
    requires Applies(si, network) && p <= q && IsDropped(si.sniff(p)) && !IsDropped(si.sniff(q))
    ensures !NarrowsSafely(si, [WaitsFor(q, network)], p, q, network)
  {
    var w := WaitsFor(q, network);
    assert p != q && !(q <= p);
    ScanShort(si, w, p, network);
    ScanShort(si, w, q, network);
  }

  /** Exactly the sniffers whose rejections persist can be narrowed away. One that asks for more data
      before it has a result is not among them. */
  lemma NarrowingExactly(si: ProtocolSniffer, network: Network)
    requires Applies(si, network)
    ensures NeverMissed(si, network) <==> Persistent(si)
  {
    if Persistent(si) {
      forall others, p, q | Persists(others, network) && p <= q ensures NarrowsSafely(si, others, p, q, network) {
        PersistentNarrows(si, others, p, q, network);
      }
    } else {
      var p, q :| p <= q && IsDropped(si.sniff(p)) && !IsDropped(si.sniff(q));
      WaitPersists(q, network);
      LateAnswerIsLost(si, p, q, network);
    }
  }

  lemma PersistentNarrows(si: ProtocolSniffer, others: seq<ProtocolSniffer>, p: Bytes, q: Bytes, network: Network)
    requires Persistent(si) && Persists(others, network) && p <= q
    ensures NarrowsSafely(si, others, p, q, network)
  {
    var list := [si] + others;
    assert Persists(list, network);
    if Scan(list, p, network) == Err(NoClue) {
      NarrowScans(list, p, q, network);
    }
  }

  /** A sniffer that asks for more data is dropped like one that rejects, and its later result is lost. */
  lemma NeedMoreDataIsDropped(si: ProtocolSniffer, p: Bytes, q: Bytes, network: Network)
    requires Applies(si, network) && p <= q && si.sniff(p) == Failed(NeedMoreData) && si.sniff(q).Found?
    ensures !Persistent(si) && !NeverMissed(si, network)
  {
    assert IsDropped(si.sniff(p)) && !IsDropped(si.sniff(q));
    NarrowingExactly(si, network);
  }

  /** Metadata sniffing does not change what sniffing the content will say. */
  lemma {:induction false} MetadataHidesNothing(list: seq<ProtocolSniffer>, p: Bytes, network: Network)
    ensures FirstFound(MetadataPending(list), p, network) == FirstFound(list, p, network)
    ensures Pending(MetadataPending(list), p, network) == Pending(list, p, network)
  {
    if list != [] {
      MetadataHidesNothing(list[1..], p, network);
      var si, rest := list[0], MetadataPending(list[1..]);
      if !si.metadata || IsPending(si.sniff([])) {
        assert ([si] + rest)[1..] == rest;
      } else {
        assert MetadataPending(list) == rest;
      }
    }
  }

  // ----- The sniff loop

  /** What one round of the loop meets: whether the connection was given up, what the look brings, and
      how long it took. */
  datatype Round = Round(cancelled: bool, arrival: Arrival, elapsed: int)

  /** Sniffing with `sniffer` on anything that extends `seen` is scanning the full list. */
  ghost predicate ScansAlike(sniffer: seq<ProtocolSniffer>, full: seq<ProtocolSniffer>, seen: Bytes, network: Network) {
    forall q :: seen <= q ==> Scan(sniffer, q, network) == Scan(full, q, network)
  }

  ghost predicate StandsFor(sniffer: seq<ProtocolSniffer>, full: seq<ProtocolSniffer>, seen: Bytes, network: Network) {
    Persists(full, network) ==> Persists(sniffer, network) && ScansAlike(sniffer, full, seen, network)
  }

  lemma StandsForNarrowed(sniffer: seq<ProtocolSniffer>, full: seq<ProtocolSniffer>, seen: Bytes, p: Bytes,
                          network: Network)
    requires StandsFor(sniffer, full, seen, network) && seen <= p && Scan(sniffer, p, network) == Err(NoClue)
    ensures StandsFor(Narrow(sniffer, p, network), full, p, network)
  {
    if Persists(full, network) {
      NarrowingHides(sniffer, p, p, network);
      forall q | p <= q ensures Scan(Narrow(sniffer, p, network), q, network) == Scan(full, q, network) {
        PrefixGoesOn(seen, p, q);
        NarrowScans(sniffer, p, q, network);
      }
    }
  }

  /** A longer payload seen in vain narrows nothing down. */
  lemma StandsForLonger(sniffer: seq<ProtocolSniffer>, full: seq<ProtocolSniffer>, seen: Bytes, p: Bytes,
                        network: Network)
    requires StandsFor(sniffer, full, seen, network) && seen <= p
    ensures StandsFor(sniffer, full, p, network)
    ensures Persists(full, network) ==> Scan(sniffer, p, network) == Scan(full, p, network)
  {
    if Persists(full, network) {
      forall q | p <= q ensures Scan(sniffer, q, network) == Scan(full, q, network) {
        PrefixGoesOn(seen, p, q);
      }
    }
  }

  /** One look: the payload only grows and stays a prefix of the unread stream. */
  lemma LookGrows(s: Stream, a: Arrival, capacity: nat)
    ensures PayloadOf(s, capacity) <= PayloadOf(AfterCache(s, a), capacity)
    ensures PayloadOf(AfterCache(s, a), capacity) <= AfterCache(s, a).Unread()
    ensures PayloadOf(s, capacity) <= AfterCache(s, a).Unread()
    ensures Dropped(s, a) == 0 ==> AfterCache(s, a).Unread() == s.Unread()
  {
    CacheKeeps(s, a);
  }

  /** Outcomes of the loop that come from a scan. */
  predicate IsScanOutcome(r: Outcome) {
    r.Ok? || r.error == UnknownContent
  }

  /** One call of the loop: what it starts from and what it meets. */
  datatype Session = Session(full: seq<ProtocolSniffer>, start: Stream, capacity: nat, network: Network,
                             rounds: nat -> Round)
  {
    /** The stream after `j` looks. */
    function StreamAt(j: nat): Stream {
      if j == 0 then start else AfterCache(StreamAt(j - 1), rounds(j - 1).arrival)
    }

    function PayloadAt(j: nat): Bytes {
      PayloadOf(StreamAt(j), capacity)
    }

    /** The sniffers that are left after `j` looks without a decision. */
    function ListAt(j: nat): seq<ProtocolSniffer> {
      if j == 0 then full
      else if PayloadAt(j) == [] then ListAt(j - 1)
      else Narrow(ListAt(j - 1), PayloadAt(j), network)
    }

    /** What scanning after the look `j` says. */
    function ScanAt(j: nat): Outcome
      requires j > 0
    {
      Scan(ListAt(j - 1), PayloadAt(j), network)
    }

    /** The time the first `j` looks took. */
    function Elapsed(j: nat): int {
      if j == 0 then 0 else Elapsed(j - 1) + rounds(j - 1).elapsed
    }

    predicate Failed(j: nat)
      requires j > 0
    {
      rounds(j - 1).arrival.error
    }

    /** The look `j` came off but brought no decision. */
    predicate Undecided(j: nat)
      requires j > 0
    {
      !Failed(j) && (PayloadAt(j) == [] || ScanAt(j) == Err(NoClue))
    }

    /** After the look `j` there is reason and time for another: 200 milliseconds, in nanoseconds. */
    predicate GoesOn(j: nat)
      requires j > 0
    {
      Undecided(j) && Elapsed(j) < 200000000
    }

    /** The loop comes to round `j`, having looked `j` times. */
    predicate Reaches(j: nat) {
      j == 0 || (Reaches(j - 1) && !rounds(j - 1).cancelled && GoesOn(j))
    }

    /** The look `j` is made. */
    predicate Looks(j: nat) {
      0 < j <= 2 && Reaches(j - 1) && !rounds(j - 1).cancelled
    }

    /** When each outcome comes, and after how many looks. */
    predicate Yields(r: Outcome, looks: nat) {
      if r == Err(Cancelled) then looks < 2 && Reaches(looks) && rounds(looks).cancelled
      else
        Looks(looks) &&
        (if r == Err(Unreadable) then Failed(looks)
         else if r == Err(Timeout) then Undecided(looks) && (looks == 2 || Elapsed(looks) >= 200000000)
         else !Failed(looks) && PayloadAt(looks) != [] && r == ScanAt(looks) != Err(NoClue))
    }

    lemma {:induction false} Reached(i: nat, j: nat)
      requires i <= j && Reaches(j)
      ensures Reaches(i) && (i < j ==> !rounds(i).cancelled)
    {
      if i < j {
        Reached(i, j - 1);
      }
    }

    /** Before an outcome the loop goes on. */
    lemma GoesOnBefore(r: Outcome, looks: nat, j: nat)
      requires Yields(r, looks) && j < looks
      ensures j < 2 && !rounds(j).cancelled && (j > 0 ==> GoesOn(j))
    {
      if r == Err(Cancelled) {
        Reached(j, looks);
      } else {
        Reached(j, looks - 1);
      }
      assert Reaches(j);
    }

    /** An outcome comes with a reason for no further look. */
    lemma NotYet(r: Outcome, j: nat)
      requires j < 2 && !rounds(j).cancelled && (j > 0 ==> GoesOn(j))
      ensures !Yields(r, j)
    {
    }

    /** There is only one such outcome, after one number of looks. */
    lemma YieldsOnce(r: Outcome, looks: nat, r': Outcome, looks': nat)
      requires Yields(r, looks) && Yields(r', looks')
      ensures r == r' && looks == looks'
    {
      if looks < looks' {
        GoesOnBefore(r', looks', looks);
        NotYet(r, looks);
      } else if looks' < looks {
        GoesOnBefore(r, looks, looks');
        NotYet(r', looks');
      }
    }

    /** If definite rejections persist, the narrowed list stands for the full one. */
    lemma {:induction false} ListStands(j: nat)
      requires Reaches(j)
      ensures StandsFor(ListAt(j), full, PayloadAt(j), network)
    {
      if j > 0 {
        ListStands(j - 1);
        LookGrows(StreamAt(j - 1), rounds(j - 1).arrival, capacity);
        if PayloadAt(j) == [] {
          StandsForLonger(ListAt(j - 1), full, PayloadAt(j - 1), PayloadAt(j), network);
        } else {
          StandsForNarrowed(ListAt(j - 1), full, PayloadAt(j - 1), PayloadAt(j), network);
        }
      }
    }

    /** A decision is then one of the full list. */
    lemma DecidesForFull(r: Outcome, looks: nat)
      requires Yields(r, looks) && IsScanOutcome(r) && Persists(full, network)
      ensures PayloadAt(looks) != [] && r == Scan(full, PayloadAt(looks), network)
    {
      ListStands(looks - 1);
      LookGrows(StreamAt(looks - 1), rounds(looks - 1).arrival, capacity);
      StandsForLonger(ListAt(looks - 1), full, PayloadAt(looks - 1), PayloadAt(looks), network);
    }

    /** As long as no look fails nothing is taken from the stream. */
    lemma {:induction false} NothingTaken(j: nat)
      requires Reaches(j)
      ensures StreamAt(j).Unread() == start.Unread()
    {
      if j > 0 {
        NothingTaken(j - 1);
        CacheKeeps(StreamAt(j - 1), rounds(j - 1).arrival);
      }
    }

    lemma YieldsKeeps(r: Outcome, looks: nat)
      requires Yields(r, looks)
      ensures looks <= 2
      ensures r != Err(Unreadable) || (looks > 0 && rounds(looks - 1).arrival.n == 0) ==>
        StreamAt(looks).Unread() == start.Unread()
    {
      if r == Err(Cancelled) {
        NothingTaken(looks);
      } else {
        NothingTaken(looks - 1);
        CacheKeeps(StreamAt(looks - 1), rounds(looks - 1).arrival);
      }
    }

    /** Round `j` has looked. */
    predicate Looked(j: nat, failed: bool) {
      j < 2 && Reaches(j) && !rounds(j).cancelled && failed == Failed(j + 1)
    }

    lemma FailedYields(j: nat)
      requires Looked(j, true)
      ensures Yields(Err(Unreadable), j + 1)
    {
    }

    lemma DecisionYields(j: nat, r: Outcome)
      requires Looked(j, false) && PayloadAt(j + 1) != [] && IsScanOutcome(r) && r == ScanAt(j + 1)
      ensures Yields(r, j + 1)
    {
    }

    lemma UndecidedGoesOn(j: nat)
      requires Looked(j, false) && Undecided(j + 1)
      ensures if j + 1 == 2 || Elapsed(j + 1) >= 200000000 then Yields(Err(Timeout), j + 1) else Reaches(j + 1)
    {
    }

    lemma EmptyLook(j: nat)
      requires Looked(j, false) && PayloadAt(j + 1) == []
      ensures ListAt(j + 1) == ListAt(j) && Undecided(j + 1)
    {
    }

    lemma CluelessLook(j: nat)
      requires Looked(j, false) && ScanAt(j + 1) == Err(NoClue)
      ensures Undecided(j + 1)
    {
    }

    /** What was seen last is a prefix of the unread stream. */
    lemma SeesPrefix(r: Outcome, looks: nat)
      requires Yields(r, looks)
      ensures PayloadAt(if r == Err(Unreadable) then looks - 1 else looks) <= StreamAt(looks).Unread()
    {
      if r == Err(Unreadable) {
        LookGrows(StreamAt(looks - 1), rounds(looks - 1).arrival, capacity);
      }
    }
  }

  /** Looks at the stream until the sniffer decides. It makes at most two looks whatever arrives, takes
      nothing from the stream unless a look fails with bytes in its hands, and if definite rejections
      persist a decision is that of the full list on the payload last seen, a prefix of the unread
      stream. */
  method SniffContent(cReader: CachedReader, sniffer: Sniffer, payload: Buffer, network: Network, rounds: nat -> Round)
    returns (r: Outcome, caches: nat)
    requires cReader.cache == [] && payload.bytes == []
    modifies cReader`cache, cReader.reader, sniffer, payload
    ensures caches <= 2
    ensures var c := Session(old(sniffer.sniffer), old(cReader.View()), payload.capacity, network, rounds);
      c.Yields(r, caches) && cReader.View() == c.StreamAt(caches)
    ensures (forall i :: 0 <= i < caches ==> !rounds(i).arrival.error || rounds(i).arrival.n == 0) ==>
      cReader.View().Unread() == old(cReader.View().Unread())
    ensures r != Err(Unreadable) ==> cReader.View().Unread() == old(cReader.View().Unread())
    ensures payload.bytes <= cReader.View().Unread()
    ensures Persists(old(sniffer.sniffer), network) && IsScanOutcome(r) ==>
      r == Scan(old(sniffer.sniffer), payload.bytes, network) && payload.bytes != []
  {
    ghost var c := Session(sniffer.sniffer, cReader.View(), payload.capacity, network, rounds);
    r, caches := ContentLoop(cReader, sniffer, payload, network, rounds, c);
    c.YieldsKeeps(r, caches);
    c.SeesPrefix(r, caches);
    if IsScanOutcome(r) && Persists(c.full, network) {
      c.DecidesForFull(r, caches);
    }
  }

  /** One look of the loop. */
  method Look(cReader: CachedReader, payload: Buffer, a: Arrival, ghost c: Session, ghost j: nat) returns (failed: bool)
    requires cReader.View() == c.StreamAt(j) && a == c.rounds(j).arrival && c.capacity == payload.capacity
    modifies cReader`cache, cReader.reader, payload
    ensures cReader.View() == c.StreamAt(j + 1) && failed == c.Failed(j + 1)
    ensures payload.bytes == if failed then old(payload.bytes) else c.PayloadAt(j + 1)
  {
    var cached := cReader.Cache(payload, a);
    failed := cached.Err?;
  }

  /** One scan of the loop. */
  method ScanLook(sniffer: Sniffer, payload: Bytes, network: Network, ghost c: Session, ghost j: nat)
    returns (r: Outcome)
    requires sniffer.sniffer == c.ListAt(j) && payload == c.PayloadAt(j + 1) != [] && network == c.network
    modifies sniffer
    ensures r == c.ScanAt(j + 1) && (IsScanOutcome(r) || r == Err(NoClue))
    ensures r == Err(NoClue) ==> sniffer.sniffer == c.ListAt(j + 1)
  {
    r := sniffer.Sniff(payload, network);
  }

  /** Where the loop stands before round `j`. */
  ghost predicate StandsAt(cReader: CachedReader, sniffer: Sniffer, payload: Buffer, c: Session, j: nat)
    reads cReader, cReader.reader, sniffer, payload
  {
    cReader.View() == c.StreamAt(j) && payload.bytes == c.PayloadAt(j) && sniffer.sniffer == c.ListAt(j)
  }

  /** The sniffing of one round, if there is anything to sniff. */
  method SniffLook(sniffer: Sniffer, payload: Bytes, network: Network, ghost c: Session, ghost j: nat)
    returns (r: Outcome)
    requires c.Looked(j, false) && sniffer.sniffer == c.ListAt(j) && payload == c.PayloadAt(j + 1)
    requires network == c.network
    modifies sniffer
    ensures r == Err(NoClue) ==> c.Undecided(j + 1) && sniffer.sniffer == c.ListAt(j + 1)
    ensures r != Err(NoClue) ==> IsScanOutcome(r) && c.Yields(r, j + 1)
  {
    if |payload| > 0 {
      r := ScanLook(sniffer, payload, network, c, j);
      if r == Err(NoClue) {
        c.CluelessLook(j);
      } else {
        c.DecisionYields(j, r);
      }
    } else {
      c.EmptyLook(j);
      r := Err(NoClue);
    }
  }

  /** The loop of `SniffContent`. */
  method ContentLoop(cReader: CachedReader, sniffer: Sniffer, payload: Buffer, network: Network, rounds: nat -> Round,
                     ghost c: Session) returns (r: Outcome, caches: nat)
    requires c == Session(sniffer.sniffer, cReader.View(), payload.capacity, network, rounds)
    requires cReader.cache == [] && payload.bytes == []
    modifies cReader`cache, cReader.reader, sniffer, payload
    ensures c.Yields(r, caches) && cReader.View() == c.StreamAt(caches)
    ensures payload.bytes == c.PayloadAt(if r == Err(Unreadable) then caches - 1 else caches)
  {
    var cacheDeadline, totalAttempt := 200000000, 0;
    caches := 0;
    while true
      invariant caches == totalAttempt < 2
      invariant StandsAt(cReader, sniffer, payload, c, caches)
      invariant cacheDeadline == 200000000 - c.Elapsed(caches)
      invariant c.Reaches(caches)
      decreases 2 - totalAttempt
    {
      if rounds(caches).cancelled {
        return Err(Cancelled), caches;
      }
      ghost var j := caches;
      var failed := Look(cReader, payload, rounds(caches).arrival, c, j);
      cacheDeadline := cacheDeadline - rounds(caches).elapsed;
      caches := caches + 1;
      if failed {
        c.FailedYields(j);
        return Err(Unreadable), caches;
      }
      // A sniffer that asked for more data would not be counted as an attempt; a scan never says so.
      r := SniffLook(sniffer, payload.bytes, network, c, j);
      if r != Err(NoClue) {
        return;
      }
      totalAttempt := totalAttempt + 1;
      c.UndecidedGoesOn(j);
      if totalAttempt >= 2 || cacheDeadline <= 0 {
        return Err(Timeout), caches;
      }
    }
  }
}
