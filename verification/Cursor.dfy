/** The cursor's buffers and loops as they run under the lock, against the functions for one stretch. */
module ConcurrentCursors {
  import opened Bytes
  import opened CursorSpec

  lemma {:induction false} FlatPlus(a: seq<Sample>, b: seq<Sample>)
    ensures Flat(a + b) == Flat(a) + Flat(b)
    decreases |a|
  {
    if a == [] {
      assert a + b == b;
    } else {
      assert (a + b)[1..] == a[1..] + b;
      FlatPlus(a[1..], b);
      Assoc(a[0], Flat(a[1..]), Flat(b));
    }
  }

  lemma {:induction false} FlatLength(ss: seq<Sample>)
    ensures |Flat(ss)| == Total(ss)
  {
    if ss != [] { FlatLength(ss[1..]); }
  }

  lemma FlatSplit(ss: seq<Sample>, k: nat)
    requires k <= |ss|
    ensures |Flat(ss[..k])| <= |Flat(ss)| && Flat(ss)[|Flat(ss[..k])|..] == Flat(ss[k..])
  {
    assert ss == ss[..k] + ss[k..];
    FlatPlus(ss[..k], ss[k..]);
  }

  /** What fits into some room fits into the part of it that can be filled. */
  lemma {:induction false} FitCapped(ss: seq<Sample>, room: nat)
    ensures Fit(ss, if room < Total(ss) then room else Total(ss)) == Fit(ss, room)
    decreases |ss|
  {
    if ss != [] && room >= |ss[0]| { FitCapped(ss[1..], room - |ss[0]|); }
  }

  /** The samples before the `k`th have been copied: `copied` bytes. */
  ghost predicate Copied(source: bytes, ss: seq<Sample>, size: nat, k: nat, copied: nat) {
    && k <= |ss| && copied <= size <= |source| && source[..copied] == Flat(ss[..k]) && source[copied..] == Flat(ss[k..])
    && Fit(ss, size) == k + Fit(ss[k..], size - copied)
  }

  lemma CopyOne(source: bytes, ss: seq<Sample>, size: nat, k: nat, copied: nat)
    requires Copied(source, ss, size, k, copied) && copied < size
    ensures k < |ss| && copied + SAMPLE_SIZE <= |source| && SizeOf(source[copied..]) == |ss[k]|
    ensures size - copied >= |ss[k]| ==> Copied(source, ss, size, k + 1, copied + |ss[k]|)
    ensures size - copied < |ss[k]| ==> Fit(ss, size) == k
  {
    assert ss[k..] != [] by { assert source[copied..] != []; }
    var s, rest := ss[k], ss[k + 1..];
    assert ss[k..][1..] == rest;
    assert source[copied..] == s + Flat(rest);
    assert ss[..k + 1] == ss[..k] + [s];
    FlatPlus(ss[..k], [s]);
    assert [s][1..] == [] && Flat([s]) == s + [] == s;
    if size - copied >= |s| {
      assert source[..copied + |s|] == source[..copied] + source[copied..][..|s|];
      assert source[copied + |s|..] == source[copied..][|s|..];
    }
  }

  /** `samplecpy`: whole samples only. */
  method SampleCpy(source: bytes, size: nat, ghost ss: seq<Sample>) returns (out: bytes)
    requires source == Flat(ss) && size <= |source|
    ensures out == Flat(ss[..Fit(ss, size)])
  {
    var copied := 0;
    ghost var k := 0;
    assert source[..0] == [] && ss[..0] == [] && source[0..] == source && ss[0..] == ss;
    while copied < size
      invariant Copied(source, ss, size, k, copied)
    {
      CopyOne(source, ss, size, k, copied);
      var sz := SizeOf(source[copied..]);
      if size - copied < sz {
        return source[..copied];
      }
      copied, k := copied + sz, k + 1;
    }
    NoRoom(ss[k..]);
    out := source[..copied];
  }

  lemma NoRoom(ss: seq<Sample>)
    ensures Fit(ss, 0) == 0
  {
  }

  class BufferT {
    var buf: bytes
    var rdpos: nat
    var wrpos: nat
    ghost var unread: seq<Sample>

    ghost predicate Valid()
      reads this
    {
      |buf| == BUFFER_SIZE && rdpos <= wrpos <= BUFFER_SIZE && buf[rdpos..wrpos] == Flat(unread)
    }

    ghost function View(): Buffer
      reads this
    {
      Buffer(unread, wrpos)
    }

    constructor ()
      ensures Valid() && View() == EMPTY
    {
      buf := seq(BUFFER_SIZE, _ => 0);
      rdpos, wrpos, unread := 0, 0, [];
    }

    method Append(s: Sample)
      requires Valid() && wrpos + |s| <= BUFFER_SIZE
      modifies this
      ensures Valid() && View() == Written(old(View()), s)
    {
      FlatPlus(unread, [s]);
      assert [s][1..] == [] && Flat([s]) == s + [] == s;
      buf := buf[..wrpos] + s + buf[wrpos + |s|..];
      wrpos := wrpos + |s|;
      unread := unread + [s];
      assert buf[rdpos..wrpos] == old(buf[rdpos..wrpos]) + s;
    }

    /** Copies out the samples that fit into `room`; `last` tells whether that was all of them. */
    method Take(room: nat) returns (out: bytes, last: bool)
      requires Valid()
      modifies this
      ensures Valid() && var k := Fit(old(unread), room);
        && out == Flat(old(unread)[..k]) && View() == old(Buffer(unread[k..], wrpos))
        && last == (unread == [])
    {
      var n := if room < wrpos - rdpos then room else wrpos - rdpos;
      ghost var k := Fit(unread, room);
      FlatLength(unread);
      FitCapped(unread, room);
      out := SampleCpy(buf[rdpos..wrpos], n, unread);
      FlatSplit(unread, k);
      LeftInBuffer(buf, rdpos, wrpos, |out|);
      rdpos := rdpos + |out|;
      unread := unread[k..];
      FlatLength(unread);
      NothingLeft(unread);
      last := rdpos == wrpos;
    }
  }

  lemma LeftInBuffer(buf: bytes, i: nat, j: nat, n: nat)
    requires i + n <= j <= |buf|
    ensures buf[i + n..j] == buf[i..j][n..]
  {
  }

  lemma NothingLeft(ss: seq<Sample>)
    ensures Total(ss) == 0 <==> ss == []
  {
  }

  datatype PutStep = Done | Wait | More

  class ConcurrentCursor {
    var queue: seq<BufferT>
    var done: bool
    var error: nat
    ghost var view: seq<Buffer>
    ghost var Repr: set<BufferT>

    ghost predicate Valid()
      reads this, Repr
    {
      && |view| == |queue|
      && (forall i :: 0 <= i < |queue| ==> queue[i] in Repr && queue[i].Valid() && queue[i].View() == view[i])
      && (forall i, j :: 0 <= i < j < |queue| ==> queue[i] != queue[j])
    }

    constructor ()
      ensures Valid() && view == [] && !done && error == 0 && fresh(Repr)
    {
      queue, done, error, view, Repr := [], false, 0, [], {};
    }

    method PushEmpty()
      requires Valid()
      modifies this
      ensures Valid() && view == old(view) + [EMPTY] && fresh(Repr - old(Repr)) && done == old(done) && error == old(error)
    {
      var top := new BufferT();
      queue := queue + [top];
      view := view + [EMPTY];
      Repr := Repr + {top};
    }

    /** The sample is written to the last buffer. */
    method WriteLast(s: Sample)
      requires Valid() && queue != [] && queue[|queue| - 1].wrpos + |s| <= BUFFER_SIZE
      modifies Repr, this`view
      ensures Valid() && view == Appended(old(view), s)
    {
      view := Appended(view, s);
      queue[|queue| - 1].Append(s);
    }

    /** There is a last buffer. */
    method FirstBuffer(s: Sample, ghost goal: PutResult)
      requires Valid() && Put(view, s) == goal
      modifies this
      ensures Valid() && fresh(Repr - old(Repr)) && done == old(done) && error == old(error)
      ensures Put(view, s) == goal && view == if old(view) == [] then [EMPTY] else old(view)
    {
      if queue == [] {
        PushEmpty();
        assert view == [EMPTY];
      }
    }

    /** The last buffer takes the sample, or another one is put behind it. */
    method PutLast(s: Sample, ghost goal: PutResult) returns (step: PutStep)
      requires Valid() && view != [] && Put(view, s) == goal
      modifies this, Repr
      ensures Valid() && fresh(Repr - old(Repr)) && done == old(done) && error == old(error)
      ensures match step
        case Done => goal == PutResult(view, true)
        case Wait => goal == PutResult(view, false)
        case More => goal == Put(view, s) && |old(view)| < |view| <= QUEUE_MAX
    {
      if queue[|queue| - 1].wrpos + |s| > BUFFER_SIZE {
        if |queue| >= QUEUE_MAX { return Wait; }
        PushEmpty();
        return More;
      }
      WriteLast(s);
      step := Done;
    }

    /** Once round the loop of `put`. */
    method PutTurn(s: Sample, ghost goal: PutResult) returns (step: PutStep)
      requires Valid() && Put(view, s) == goal
      modifies this, Repr
      ensures Valid() && fresh(Repr - old(Repr)) && done == old(done) && error == old(error)
      ensures match step
        case Done => goal == PutResult(view, true)
        case Wait => goal == PutResult(view, false)
        case More => goal == Put(view, s) && |old(view)| < |view| <= QUEUE_MAX
    {
      FirstBuffer(s, goal);
      step := PutLast(s, goal);
    }

    /** `put` under the lock, from one wake-up to the next. */
    method PutStretch(s: Sample) returns (written: bool)
      requires Valid()
      modifies this, Repr
      ensures Valid() && fresh(Repr - old(Repr)) && done == old(done) && error == old(error)
      ensures PutResult(view, written) == Put(old(view), s)
    {
      ghost var goal := Put(view, s);
      var step := More;
      while step.More?
        invariant Valid() && fresh(Repr - old(Repr)) && done == old(done) && error == old(error)
        invariant goal == if step.More? then Put(view, s) else PutResult(view, step.Done?)
        decreases step.More?, QUEUE_MAX - |view|
      {
        step := PutTurn(s, goal);
      }
      written := step.Done?;
    }

    /** Once round the loop of `read`: copies out of the front buffer, and drops it when it is empty. */
    method TakeFront(room: nat) returns (out: bytes)
      requires Valid() && QueueOk(view) && queue != []
      modifies this, Repr
      ensures Valid() && done == old(done) && error == old(error) && Repr == old(Repr)
      ensures var k := Fit(old(view)[0].unread, room); out == Flat(old(view)[0].unread[..k]) && view == Taken(old(view), k)
    {
      var front := queue[0];
      ghost var k := Fit(view[0].unread, room);
      var last;
      out, last := front.Take(room);
      if last {
        queue, view := queue[1..], view[1..];
      } else {
        view := [front.View()] + view[1..];
      }
    }

    /** Once round the loop of `read`; `got` has been copied so far and `goal` is what the stretch comes to. */
    method ReadTurn(room: nat, ghost got: seq<Sample>, ghost goal: ReadResult)
      returns (out: bytes, left: nat, step: ReadStep, ghost got': seq<Sample>)
      requires Valid() && QueueOk(view) && goal == After(got, Read(view, done, room))
      modifies this, Repr
      ensures Valid() && QueueOk(view) && done == old(done) && error == old(error) && Repr == old(Repr)
      ensures Flat(got') == Flat(got) + out && (step.Go? ==> left < room)
      ensures goal == Onward(step, view, done, got', left)
    {
      got', left, out := got, room, [];
      assert got + [] == got && Flat(got) + [] == Flat(got);
      if queue == [] { return out, left, Stop(done), got; }
      out, left, step, got' := ReadFront(room, got, goal);
    }

    /** The same with something in the queue. */
    method ReadFront(room: nat, ghost got: seq<Sample>, ghost goal: ReadResult)
      returns (out: bytes, left: nat, step: ReadStep, ghost got': seq<Sample>)
      requires Valid() && QueueOk(view) && queue != [] && goal == After(got, Read(view, done, room))
      modifies this, Repr
      ensures Valid() && QueueOk(view) && done == old(done) && error == old(error) && Repr == old(Repr)
      ensures Flat(got') == Flat(got) + out && (step.Go? ==> left < room)
      ensures goal == Onward(step, view, done, got', left)
    {
      ghost var q := view;
      out := TakeFront(room);
      FrontTurn(got, q, done, room, out);
      got' := got + q[0].unread[..Fit(q[0].unread, room)];
      if |out| == 0 { return [], room, Stop(true), got; }
      left := room - |out|;
      step := if left < SAMPLE_SIZE then Stop(true) else Go;
    }

    /** `read` under the lock, from one wake-up to the next: whole samples, copied to the reader's buffer. */
    method ReadStretch(room: nat) returns (out: bytes, left: nat, ends: bool)
      requires Valid() && QueueOk(view)
      modifies this, Repr
      ensures Valid() && QueueOk(view) && done == old(done) && error == old(error) && Repr == old(Repr)
      ensures var r := Read(old(view), done, room); view == r.queue && out == Flat(r.copied) && left == r.room && ends == r.ends
    {
      ghost var goal := Read(view, done, room);
      ghost var got: seq<Sample> := [];
      assert [] + goal.copied == goal.copied;
      var step := Go;
      out, left := [], room;
      while step.Go?
        invariant Valid() && QueueOk(view) && done == old(done) && error == old(error) && Repr == old(Repr)
        invariant out == Flat(got)
        invariant goal == Onward(step, view, done, got, left)
        decreases step.Go?, left
      {
        var more;
        more, left, step, got := ReadTurn(left, got, goal);
        out := out + more;
      }
      ends := step.ends;
    }

    method IsDone() returns (r: bool)
      requires Valid()
      ensures r == (done && view == [])
    {
      r := done && queue == [];
    }

    /** What `complete` does, and what `close` does before it waits for the thread. */
    method Finish()
      requires Valid()
      modifies this`done
      ensures Valid() && done
    {
      done := true;
    }

    method SetError(code: nat)
      requires Valid()
      modifies this`done, this`error
      ensures Valid() && done && error == code
    {
      done, error := true, code;
    }
  }

  datatype ReadStep = Go | Stop(ends: bool)

  /** What a read comes to when `got` was copied before. */
  function After(got: seq<Sample>, r: ReadResult): ReadResult { r.(copied := got + r.copied) }

  /** What the stretch comes to from here. */
  function Onward(step: ReadStep, q: seq<Buffer>, done: bool, got: seq<Sample>, left: nat): ReadResult
    requires QueueOk(q)
  {
    match step
    case Stop(ends) => ReadResult(q, got, left, ends)
    case Go => After(got, Read(q, done, left))
  }

  lemma FrontRead(got: seq<Sample>, q: seq<Buffer>, done: bool, room: nat)
    requires QueueOk(q) && q != []
    ensures var ss := q[0].unread; var k := Fit(ss, room); var left := RoomLeft(ss, room);
      After(got, Read(q, done, room)) ==
        if k == 0 then ReadResult(q, got, room, true)
        else if left < SAMPLE_SIZE then ReadResult(Taken(q, k), got + ss[..k], left, true)
        else After(got + ss[..k], Read(Taken(q, k), done, left))
  {
    var ss := q[0].unread;
    var k := Fit(ss, room);
    var left := RoomLeft(ss, room);
    assert got + [] == got;
    if k > 0 && left >= SAMPLE_SIZE { Assoc(got, ss[..k], Read(Taken(q, k), done, left).copied); }
  }

  lemma FrontTurn(got: seq<Sample>, q: seq<Buffer>, done: bool, room: nat, out: bytes)
    requires QueueOk(q) && q != [] && out == Flat(q[0].unread[..Fit(q[0].unread, room)])
    ensures var ss := q[0].unread; var k := Fit(ss, room);
      && |out| <= room && (|out| == 0 <==> k == 0)
      && Flat(got + ss[..k]) == Flat(got) + out
      && After(got, Read(q, done, room)) ==
         if |out| == 0 then Onward(Stop(true), Taken(q, k), done, got, room)
         else Onward(if room - |out| < SAMPLE_SIZE then Stop(true) else Go, Taken(q, k), done, got + ss[..k], room - |out|)
  {
    var ss := q[0].unread;
    var k := Fit(ss, room);
    FrontRead(got, q, done, room);
    FlatLength(ss[..k]);
    NothingLeft(ss[..k]);
    FlatPlus(got, ss[..k]);
    FitIsMost(ss, room);
    if k == 0 { assert ss[0..] == ss && [q[0]] + q[1..] == q; }
  }
}
