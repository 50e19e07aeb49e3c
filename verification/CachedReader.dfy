/**
 The reader that lets the sniffer look at a stream without taking anything from it.
 */
module CachedReader {
  import opened Wrappers

  type Bytes = seq<byte>

  /** What the next read of the stream brings: up to `n` bytes, and perhaps an error with them. */
  datatype Arrival = Arrival(error: bool, n: nat)

  datatype ReadError = ReadFailed

  /** Bytes looked at but not handed out, and bytes still in the underlying reader. */
  datatype Stream = Stream(cache: Bytes, rest: Bytes) {
    function Unread(): Bytes {
      cache + rest
    }
  }

  function Min(a: nat, b: nat): nat {
    if a < b then a else b
  }

  /** A look that fails drops the bytes that came with the error. */
  function AfterCache(s: Stream, a: Arrival): Stream {
    var m := Min(a.n, |s.rest|);
    Stream(if a.error then s.cache else s.cache + s.rest[..m], s.rest[m..])
  }

  /** How many bytes a look drops. */
  function Dropped(s: Stream, a: Arrival): nat {
    if a.error then Min(a.n, |s.rest|) else 0
  }

  /** The payload a successful `Cache` fills in. */
  function PayloadOf(s: Stream, capacity: nat): Bytes {
    s.cache[..Min(|s.cache|, capacity)]
  }

  /** A read hands out the cache if there is one, else whatever the underlying reader brings. */
  function AfterRead(s: Stream, a: Arrival): (Stream, Bytes) {
    if s.cache != [] then (Stream([], s.rest), s.cache)
    else
      var m := Min(a.n, |s.rest|);
      (Stream([], s.rest[m..]), s.rest[..m])
  }

  // ----- The stream over a whole run

  datatype Op = Cache(arrival: Arrival) | Read(arrival: Arrival)

  function After(s: Stream, ops: seq<Op>, k: nat): Stream
    requires k <= |ops|
  {
    if k == 0 then s
    else
      var before := After(s, ops, k - 1);
      match ops[k - 1]
      case Cache(a) => AfterCache(before, a)
      case Read(a) => AfterRead(before, a).0
  }

  /** Everything the reads have handed out. */
  function Handed(s: Stream, ops: seq<Op>, k: nat): Bytes
    requires k <= |ops|
  {
    if k == 0 then []
    else
      match ops[k - 1]
      case Cache(_) => Handed(s, ops, k - 1)
      case Read(a) => Handed(s, ops, k - 1) + AfterRead(After(s, ops, k - 1), a).1
  }

  /** How many bytes failing looks have dropped. */
  function Lost(s: Stream, ops: seq<Op>, k: nat): nat
    requires k <= |ops|
  {
    if k == 0 then 0
    else
      match ops[k - 1]
      case Cache(a) => Lost(s, ops, k - 1) + Dropped(After(s, ops, k - 1), a)
      case Read(_) => Lost(s, ops, k - 1)
  }

  lemma CacheKeeps(s: Stream, a: Arrival)
    ensures s.cache <= AfterCache(s, a).cache
    ensures |AfterCache(s, a).Unread()| == |s.Unread()| - Dropped(s, a)
    ensures Dropped(s, a) == 0 ==> AfterCache(s, a).Unread() == s.Unread()
  {
    var m := Min(a.n, |s.rest|);
    assert s.rest == s.rest[..m] + s.rest[m..];
    if !a.error {
      assert s.cache + s.rest[..m] + s.rest[m..] == s.cache + (s.rest[..m] + s.rest[m..]);
    }
  }

  lemma ReadTakes(s: Stream, a: Arrival)
    ensures AfterRead(s, a).1 + AfterRead(s, a).0.Unread() == s.Unread()
  {
  }

  lemma ReadGoesOn(handed: Bytes, s: Stream, a: Arrival)
    ensures (handed + AfterRead(s, a).1) + AfterRead(s, a).0.Unread() == handed + s.Unread()
  {
    ReadTakes(s, a);
    var mb, rest := AfterRead(s, a).1, AfterRead(s, a).0.Unread();
    assert (handed + mb) + rest == handed + (mb + rest);
  }

  lemma {:induction false} Accounted(s: Stream, ops: seq<Op>, k: nat)
    requires k <= |ops|
    ensures |Handed(s, ops, k)| + |After(s, ops, k).Unread()| + Lost(s, ops, k) == |s.Unread()|
    ensures Lost(s, ops, k) == 0 ==> Handed(s, ops, k) + After(s, ops, k).Unread() == s.Unread()
  {
    if k > 0 {
      Accounted(s, ops, k - 1);
      var before := After(s, ops, k - 1);
      match ops[k - 1]
      case Cache(a) => CacheKeeps(before, a);
      case Read(a) => ReadGoesOn(Handed(s, ops, k - 1), before, a);
    }
  }

  /** Over any run of looks and reads: what was handed out, then the cache, then what is left in the
      underlying reader, is the original stream if and only if no look failed with bytes in its hands; and
      what a look fills in is a prefix of the unread part. */
  lemma TransparentExactly(s: Stream, ops: seq<Op>, k: nat, capacity: nat)
    requires k <= |ops|
    ensures Handed(s, ops, k) + After(s, ops, k).Unread() == s.Unread() <==> Lost(s, ops, k) == 0
    ensures PayloadOf(After(s, ops, k), capacity) <= After(s, ops, k).Unread()
    ensures var cached, payload := |After(s, ops, k).cache|, |PayloadOf(After(s, ops, k), capacity)|;
      payload == if cached < capacity then cached else capacity
  {
    Accounted(s, ops, k);
    if Handed(s, ops, k) + After(s, ops, k).Unread() == s.Unread() {
      assert |Handed(s, ops, k) + After(s, ops, k).Unread()| == |s.Unread()|;
    }
  }

  /** The reads so far for which something could arrive. */
  function Reads(ops: seq<Op>, k: nat): nat
    requires k <= |ops|
  {
    if k == 0 then 0 else Reads(ops, k - 1) + (if ops[k - 1].Read? && ops[k - 1].arrival.n > 0 then 1 else 0)
  }

  /** Such a read hands out at least one byte of a stream that has any. */
  lemma ReadHands(s: Stream, a: Arrival)
    requires a.n > 0 && s.Unread() != []
    ensures |AfterRead(s, a).1| >= 1
  {
  }

  lemma {:induction false} ReadsDeliver(s: Stream, ops: seq<Op>, k: nat)
    requires k <= |ops|
    ensures |Handed(s, ops, k)| >= Reads(ops, k) || After(s, ops, k).Unread() == []
  {
    if k > 0 {
      ReadsDeliver(s, ops, k - 1);
      var before := After(s, ops, k - 1);
      match ops[k - 1]
      case Cache(a) => CacheKeeps(before, a);
      case Read(a) =>
        ReadTakes(before, a);
        if a.n > 0 && before.Unread() != [] { ReadHands(before, a); }
    }
  }

  /** Reading on delivers the whole stream: after as many such reads as it has bytes all of it has been handed
      out, in order, unless a look has lost some of it. */
  lemma AllDelivered(s: Stream, ops: seq<Op>, k: nat)
    requires k <= |ops| && Lost(s, ops, k) == 0 && Reads(ops, k) >= |s.cache| + |s.rest|
    ensures Handed(s, ops, k) == s.cache + s.rest
  {
    Accounted(s, ops, k);
    ReadsDeliver(s, ops, k);
    assert After(s, ops, k).Unread() == [];
    assert Handed(s, ops, k) + [] == Handed(s, ops, k);
  }

  /** One look that fails with a byte in its hands: the byte is gone. */
  lemma FailedLookLoses()
    ensures var s, ops := Stream([], [1]), [Op.Cache(Arrival(true, 1))];
      Lost(s, ops, 1) == 1 && Handed(s, ops, 1) + After(s, ops, 1).Unread() == [] != s.Unread()
  {
    var s, ops := Stream([], [1]), [Op.Cache(Arrival(true, 1))];
    assert After(s, ops, 0) == s && Handed(s, ops, 0) == [] && Lost(s, ops, 0) == 0;
    assert After(s, ops, 1) == AfterCache(s, ops[0].arrival);
  }

  // ----- The reader

  /** The underlying reader. It may return bytes together with an error. */
  class Source {
    var rest: Bytes

    constructor (rest: Bytes)
      ensures this.rest == rest
    {
      this.rest := rest;
    }

    method Read(a: Arrival) returns (mb: Bytes, failed: bool)
      modifies this
      ensures mb == old(rest)[..Min(a.n, |old(rest)|)] && rest == old(rest)[Min(a.n, |old(rest)|)..]
      ensures failed == a.error
    {
      var m := Min(a.n, |rest|);
      mb, failed := rest[..m], a.error;
      rest := rest[m..];
    }
  }

  class Buffer {
    const capacity: nat
    var bytes: Bytes

    constructor (capacity: nat)
      ensures this.capacity == capacity && bytes == []
    {
      this.capacity, bytes := capacity, [];
    }
  }

  class CachedReader {
    const reader: Source
    var cache: Bytes

    constructor (reader: Source)
      ensures this.reader == reader && cache == []
    {
      this.reader, cache := reader, [];
    }

    ghost function View(): Stream
      reads this, reader
    {
      Stream(cache, reader.rest)
    }

    /** Looks further into the stream and copies what is cached into `b`, as far as it fits. */
    method Cache(b: Buffer, a: Arrival) returns (r: Result<(), ReadError>)
      modifies `cache, reader, b
      ensures View() == AfterCache(old(View()), a)
      ensures r == if a.error then Err(ReadFailed) else Ok(())
      ensures b.bytes == if a.error then old(b.bytes) else PayloadOf(View(), b.capacity)
      ensures var m := if a.n < |old(reader.rest)| then a.n else |old(reader.rest)|;
        && reader.rest == old(reader.rest)[m..]
        && cache == (if a.error then old(cache) else old(cache) + old(reader.rest)[..m])
      ensures !a.error ==>
        |b.bytes| == (if |cache| < b.capacity then |cache| else b.capacity) && b.bytes == cache[..|b.bytes|]
    {
      var mb, failed := reader.Read(a);
      if failed {
        return Err(ReadFailed);
      }
      if |mb| > 0 {
        cache := cache + mb;
      }
      b.bytes := [];
      var n := Min(|cache|, b.capacity);
      b.bytes := b.bytes + cache[..n];
      return Ok(());
    }

    method ReadInternal() returns (mb: Option<Bytes>)
      modifies `cache
      ensures if old(cache) != [] then mb == Some(old(cache)) && cache == [] else mb == None && cache == []
    {
      if cache != [] {
        mb := Some(cache);
        cache := [];
        return;
      }
      return None;
    }

    /** Both read operations of the reader: they differ only in how long they may wait. A cache is handed out
        whole and the underlying reader left alone; without one all that arrives is handed out. */
    method ReadMultiBuffer(a: Arrival) returns (mb: Bytes, failed: bool)
      modifies `cache, reader
      ensures View() == AfterRead(old(View()), a).0
      ensures mb == AfterRead(old(View()), a).1
      ensures failed <==> old(cache) == [] && a.error
      ensures cache == []
      ensures old(cache) != [] ==> mb == old(cache) && reader.rest == old(reader.rest)
      ensures old(cache) == [] ==>
        && |mb| == (if a.n < |old(reader.rest)| then a.n else |old(reader.rest)|)
        && old(reader.rest) == mb + reader.rest
    {
      var cached := ReadInternal();
      if cached.Some? {
        return cached.value, false;
      }
      mb, failed := reader.Read(a);
    }
  }
}
