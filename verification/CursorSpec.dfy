/**
 The queue between a query and its client, one stretch under the lock at a time: what a `put` and a
 `read` do from one wake-up to the next.
 */
module CursorSpec {
  import opened Bytes

  const BUFFER_SIZE := 0x4000
  const QUEUE_MAX := 0x20
  const SAMPLE_SIZE := 32

  // ---- Samples -------------------------------------------------------------------------------

  /** The size a sample states in its header. */
  function SizeOf(w: bytes): nat
    requires |w| >= SAMPLE_SIZE
  {
    LE16(w[24], w[25])
  }

  type Sample = s: bytes | |s| >= SAMPLE_SIZE && SizeOf(s) == |s|
    witness seq(32, i => if i == 24 then 32 else 0)

  function Flat(ss: seq<Sample>): bytes { if ss == [] then [] else ss[0] + Flat(ss[1..]) }

  function Total(ss: seq<Sample>): nat { if ss == [] then 0 else |ss[0]| + Total(ss[1..]) }

  /** How many samples from the front fit into `n` bytes. */
  function Fit(ss: seq<Sample>, n: nat): (k: nat)
    ensures k <= |ss|
    decreases |ss|
  {
    if ss == [] || n < |ss[0]| then 0 else 1 + Fit(ss[1..], n - |ss[0]|)
  }

  lemma {:induction false} TotalPlus(a: seq<Sample>, b: seq<Sample>)
    ensures Total(a + b) == Total(a) + Total(b)
    decreases |a|
  {
    if a == [] {
      assert a + b == b;
    } else {
      assert (a + b)[1..] == a[1..] + b;
      TotalPlus(a[1..], b);
    }
  }

  /** What fits does fit, and the next sample does not. */
  lemma {:induction false} FitIsMost(ss: seq<Sample>, n: nat)
    ensures var k := Fit(ss, n); Total(ss[..k]) <= n && (k < |ss| ==> Total(ss[..k]) + |ss[k]| > n)
    decreases |ss|
  {
    if ss != [] && n >= |ss[0]| {
      var k := Fit(ss[1..], n - |ss[0]|);
      FitIsMost(ss[1..], n - |ss[0]|);
      assert ss[..k + 1][1..] == ss[1..][..k];
    }
  }

  // ---- The queue -----------------------------------------------------------------------------

  /** A buffer: the samples not read yet, and how many bytes have been written to it in all. */
  datatype Buffer = Buffer(unread: seq<Sample>, used: nat)

  const EMPTY := Buffer([], 0)

  predicate BufferOk(b: Buffer) { b.unread != [] && Total(b.unread) <= b.used <= BUFFER_SIZE }

  /** The queue whenever the lock is free: bounded, and without an empty buffer. */
  predicate QueueOk(q: seq<Buffer>) { |q| <= QUEUE_MAX && forall i :: 0 <= i < |q| ==> BufferOk(q[i]) }

  function Unread(q: seq<Buffer>): seq<Sample> { if q == [] then [] else q[0].unread + Unread(q[1..]) }

  lemma {:induction false} UnreadSnoc(q: seq<Buffer>, b: Buffer)
    ensures Unread(q + [b]) == Unread(q) + b.unread
  {
    if q == [] {
      assert q + [b] == [b] && [b][1..] == [];
    } else {
      assert (q + [b])[1..] == q[1..] + [b];
      UnreadSnoc(q[1..], b);
      Assoc(q[0].unread, Unread(q[1..]), b.unread);
    }
  }

  // ---- Putting -------------------------------------------------------------------------------

  /** The queue with a buffer to write to. */
  function Opened(q: seq<Buffer>): (r: seq<Buffer>)
    ensures r != []
  {
    if q == [] then [EMPTY] else q
  }

  function Written(b: Buffer, s: Sample): Buffer { Buffer(b.unread + [s], b.used + |s|) }

  function Appended(q: seq<Buffer>, s: Sample): seq<Buffer>
    requires q != []
  {
    q[|q| - 1 := Written(q[|q| - 1], s)]
  }

  datatype PutResult = PutResult(queue: seq<Buffer>, written: bool)

  /** `put` from one wake-up to the next: the sample is written, or the producer has to wait. */
  function Put(q: seq<Buffer>, s: Sample): PutResult
    decreases QUEUE_MAX - |q|, s
  {
    var q1 := Opened(q);
    if q1[|q1| - 1].used + |s| <= BUFFER_SIZE then PutResult(Appended(q1, s), true)
    else if |q1| < QUEUE_MAX then Put(q1 + [EMPTY], s)
    else PutResult(q1, false)
  }

  lemma LastWritten(q: seq<Buffer>, b: Buffer, s: Sample)
    ensures Appended(q + [b], s) == q + [Written(b, s)]
    ensures Unread(q + [Written(b, s)]) == Unread(q + [b]) + [s]
  {
    UnreadSnoc(q, b);
    UnreadSnoc(q, Written(b, s));
    Assoc(Unread(q), b.unread, [s]);
  }

  lemma WrittenOk(b: Buffer, s: Sample)
    requires (b == EMPTY || BufferOk(b)) && b.used + |s| <= BUFFER_SIZE
    ensures BufferOk(Written(b, s))
  {
    TotalPlus(b.unread, [s]);
    assert [s][1..] == [];
  }

  lemma AppendedOk(q: seq<Buffer>, front: seq<Buffer>, b: Buffer, s: Sample)
    requires q == front + [b] && QueueOk(q) && b.used + |s| <= BUFFER_SIZE
    ensures QueueOk(Appended(q, s)) && Unread(Appended(q, s)) == Unread(q) + [s]
  {
    assert b == q[|front|];
    WrittenOk(b, s);
    LastWritten(front, b, s);
  }

  lemma NewBuffer(q: seq<Buffer>, s: Sample)
    requires QueueOk(q) && |q| < QUEUE_MAX && |s| <= BUFFER_SIZE
    ensures var q' := Appended(q + [EMPTY], s); QueueOk(q') && Unread(q') == Unread(q) + [s]
  {
    WrittenOk(EMPTY, s);
    LastWritten(q, EMPTY, s);
    UnreadSnoc(q, EMPTY);
    assert Unread(q) + [] == Unread(q);
  }

  /**
   A sample no larger than a buffer is written behind all others; or the queue is full, the last
   buffer has no room for it, and nothing changes.
   */
  lemma PutKeeps(q: seq<Buffer>, s: Sample)
    requires QueueOk(q) && |s| <= BUFFER_SIZE
    ensures var r := Put(q, s);
      && QueueOk(r.queue) && Unread(r.queue) == (if r.written then Unread(q) + [s] else Unread(q))
      && (r.written <==> |q| < QUEUE_MAX || q[|q| - 1].used + |s| <= BUFFER_SIZE)
  {
    if q == [] {
      NewBuffer([], s);
      assert [] + [EMPTY] == [EMPTY];
    } else if q[|q| - 1].used + |s| <= BUFFER_SIZE {
      assert q == q[..|q| - 1] + [q[|q| - 1]];
      AppendedOk(q, q[..|q| - 1], q[|q| - 1], s);
    } else if |q| < QUEUE_MAX {
      NewBuffer(q, s);
      assert Put(q + [EMPTY], s) == PutResult(Appended(q + [EMPTY], s), true);
    }
  }

  /** A larger one never is: it fills the queue with empty buffers and waits. */
  lemma {:induction false} PutTooBig(q: seq<Buffer>, s: Sample)
    requires |s| > BUFFER_SIZE && |q| <= QUEUE_MAX
    ensures !Put(q, s).written && |Put(q, s).queue| == QUEUE_MAX && q <= Put(q, s).queue
    ensures |q| < QUEUE_MAX ==> Put(q, s).queue[QUEUE_MAX - 1] == EMPTY
    decreases QUEUE_MAX - |q|
  {
    var q1 := Opened(q);
    if |q1| < QUEUE_MAX { PutTooBig(q1 + [EMPTY], s); }
  }

  /** A put leaves no empty buffer behind if and only if the sample is no larger than a buffer. */
  lemma PutExact(q: seq<Buffer>, s: Sample)
    requires QueueOk(q) && |q| < QUEUE_MAX
    ensures QueueOk(Put(q, s).queue) <==> |s| <= BUFFER_SIZE
  {
    if |s| <= BUFFER_SIZE { PutKeeps(q, s); } else { PutTooBig(q, s); }
  }

  // ---- Reading -------------------------------------------------------------------------------

  datatype ReadResult = ReadResult(queue: seq<Buffer>, copied: seq<Sample>, room: nat, ends: bool)

  /** `read` from one wake-up to the next: what is copied, the room left, and whether it returns. */
  function Read(q: seq<Buffer>, done: bool, room: nat): (r: ReadResult)
    requires QueueOk(q)
    ensures QueueOk(r.queue)
    decreases room
  {
    if q == [] then ReadResult(q, [], room, done)
    else
      var k := Fit(q[0].unread, room);
      if k == 0 then ReadResult(q, [], room, true)
      else
        var room' := RoomLeft(q[0].unread, room);
        if room' < SAMPLE_SIZE then ReadResult(Taken(q, k), q[0].unread[..k], room', true)
        else
          var r := Read(Taken(q, k), done, room');
          r.(copied := q[0].unread[..k] + r.copied)
  }

  function RoomLeft(ss: seq<Sample>, room: nat): (r: nat)
    ensures Fit(ss, room) > 0 ==> r < room
  {
    FitIsMost(ss, room);
    room - Total(ss[..Fit(ss, room)])
  }

  /** The first `k` samples of the front buffer are read; a buffer read to its end goes. */
  function Taken(q: seq<Buffer>, k: nat): (r: seq<Buffer>)
    requires QueueOk(q) && q != [] && k <= |q[0].unread|
    ensures QueueOk(r)
  {
    var ss := q[0].unread;
    if k == |ss| then q[1..]
    else
      TotalPlus(ss[..k], ss[k..]);
      assert ss[..k] + ss[k..] == ss;
      [Buffer(ss[k..], q[0].used)] + q[1..]
  }

  lemma TakenKeeps(q: seq<Buffer>, k: nat)
    requires QueueOk(q) && q != [] && k <= |q[0].unread|
    ensures q[0].unread[..k] + Unread(Taken(q, k)) == Unread(q)
  {
    var ss := q[0].unread;
    if k == |ss| {
      assert ss[..k] == ss;
    } else {
      assert ([Buffer(ss[k..], q[0].used)] + q[1..])[1..] == q[1..];
      Assoc(ss[..k], ss[k..], Unread(q[1..]));
      assert ss[..k] + ss[k..] == ss;
    }
  }

  /** What is copied is the front of the queue; a read goes on waiting only on an empty queue that is not done. */
  lemma {:induction false} ReadKeeps(q: seq<Buffer>, done: bool, room: nat)
    requires QueueOk(q)
    ensures var r := Read(q, done, room);
      && QueueOk(r.queue) && r.copied + Unread(r.queue) == Unread(q)
      && Total(r.copied) + r.room == room
      && (!r.ends ==> r.queue == [] && !done)
    decreases room
  {
    if q != [] {
      var ss := q[0].unread;
      var k := Fit(ss, room);
      var room' := RoomLeft(ss, room);
      TakenKeeps(q, k);
      if k > 0 && room' >= SAMPLE_SIZE {
        var r := Read(Taken(q, k), done, room');
        ReadKeeps(Taken(q, k), done, room');
        TotalPlus(ss[..k], r.copied);
        Assoc(ss[..k], r.copied, Unread(r.queue));
      }
    }
  }

  /** A read that ends has no room for the next sample, or no room for any, or has emptied a finished queue. */
  lemma {:induction false} ReadEndsOnlyWhenFull(q: seq<Buffer>, done: bool, room: nat)
    requires QueueOk(q)
    ensures var r := Read(q, done, room);
      r.ends ==> r.room < SAMPLE_SIZE || (r.queue == [] && done) || (r.queue != [] && r.room < |r.queue[0].unread[0]|)
    decreases room
  {
    if q != [] {
      var ss := q[0].unread;
      var k := Fit(ss, room);
      var room' := RoomLeft(ss, room);
      if k > 0 && room' >= SAMPLE_SIZE { ReadEndsOnlyWhenFull(Taken(q, k), done, room'); }
    }
  }
}
