/** The growing buffer between the network and the parser, as `ReadBuffer` keeps it. */
module ReadBuffers {
  import opened Bytes
  import opened Resp

  lemma {:induction false} LineFound(w: bytes, i: nat, quota: nat, tooLong: Fault)
    requires i < |w| && i < quota && w[i] == LF && LF !in w[..i]
    ensures ReadLine(w, quota, tooLong) == Ok(w[..i + 1], w[i + 1..])
    decreases i
  {
    if i > 0 {
      assert w[1..][..i - 1] == w[1..i];
      LineFound(w[1..], i - 1, quota - 1, tooLong);
      assert [w[0]] + w[1..][..i] == w[..i + 1];
    } else {
      assert w[..1] == [LF];
    }
  }

  lemma {:induction false} LineMissing(w: bytes, quota: nat, tooLong: Fault)
    requires LF !in w[..if quota < |w| then quota else |w|]
    ensures ReadLine(w, quota, tooLong) == if |w| < quota then Again else Bad(tooLong)
    decreases quota
  {
    if quota > 0 && w != [] {
      var k := if quota < |w| then quota else |w|;
      assert w[1..][..k - 1] == w[1..k];
      LineMissing(w[1..], quota - 1, tooLong);
    }
  }

  /** What reading a line returns and leaves unread: the bytes copied, or the bytes seen, negated. */
  ghost predicate LineRead(w: bytes, quota: nat, f: Fault, res: int, line: bytes, unread: bytes) {
    match ReadLine(w, quota, f)
    case Again => res + |w| == 0 && unread == w && |w| < quota
    case Bad(_) => res + quota == 0 && unread == w
    case Ok(l, rest) => res == |l| && line == l && unread == rest
  }

  /** The loop of `read_line` over the bytes not yet read. */
  method ScanLine(w: bytes, quota: nat, ghost f: Fault) returns (res: int, line: bytes)
    ensures res <= |w| && LineRead(w, quota, f, res, line, if res > 0 then w[res..] else w)
  {
    var toRead := if quota < |w| then quota else |w|;
    var i := 0;
    while i < toRead
      invariant 0 <= i <= toRead && LF !in w[..i]
    {
      if w[i] == LF {
        LineFound(w, i, quota, f);
        return i + 1, w[..i + 1];
      }
      i := i + 1;
    }
    LineMissing(w, quota, f);
    return -toRead, w[..toRead];
  }

  const N_BUF := 4

  class ReadBuffer {
    const size: nat
    var data: array<byte>
    var rpos: nat
    var wpos: nat
    var cons: nat
    var lent: bool

    ghost predicate Valid()
      reads this, data
    {
      size > 0 && cons <= rpos <= wpos <= data.Length && N_BUF * size <= data.Length
    }

    /** The bytes not yet read. */
    ghost function Unread(): bytes
      reads this, data
      requires Valid()
    {
      data[rpos..wpos]
    }

    /** The bytes not yet used up: those since the last `Consume`. */
    ghost function Kept(): bytes
      reads this, data
      requires Valid()
    {
      data[cons..wpos]
    }

    constructor (bufferSize: nat)
      requires bufferSize > 0
      ensures Valid() && fresh(data) && size == bufferSize && Kept() == [] && Unread() == [] && !lent
    {
      size := bufferSize;
      data := new byte[bufferSize * N_BUF](_ => 0);
      rpos, wpos, cons, lent := 0, 0, 0, false;
    }

    method Consume()
      requires Valid() && !lent
      modifies this`cons
      ensures Valid() && Kept() == Unread() == old(Unread())
    {
      cons := rpos;
    }

    method Discard()
      requires Valid() && !lent
      modifies this`rpos
      ensures Valid() && Unread() == Kept() == old(Kept())
    {
      rpos := cons;
    }

    /** Makes room for another `size` bytes, by moving what is kept to the front or by doubling. */
    method Pull()
      requires Valid() && !lent
      modifies this, data
      ensures Valid() && lent && (data == old(data) || fresh(data))
      ensures Kept() == old(Kept()) && Unread() == old(Unread())
      ensures data.Length - wpos >= size
    {
      lent := true;
      var room := data.Length - wpos;
      if room < size {
        if cons + room > size { Rotate(); } else { Double(); }
      }
    }

    method Rotate()
      requires Valid()
      modifies this, data
      ensures Valid() && lent == old(lent) && data == old(data)
      ensures cons == 0 && rpos == old(rpos - cons) && wpos == old(wpos - cons)
      ensures Kept() == old(Kept()) && Unread() == old(Unread())
    {
      ghost var was := data[..];
      MoveDown(data, cons);
      Moved(was, data[..], cons, cons, wpos);
      Moved(was, data[..], cons, rpos, wpos);
      wpos, rpos, cons := wpos - cons, rpos - cons, 0;
    }

    method Double()
      requires Valid()
      modifies this`data
      ensures Valid() && fresh(data) && data.Length == old(data.Length) * 2
      ensures Kept() == old(Kept()) && Unread() == old(Unread())
    {
      var bigger := new byte[data.Length * 2](_ => 0);
      CopyAll(data, bigger);
      InBeginning(data[..], bigger[..], data.Length, cons, wpos);
      InBeginning(data[..], bigger[..], data.Length, rpos, wpos);
      data := bigger;
    }

    /** The server has put `chunk` where `Pull` made room for it. */
    method Push(chunk: bytes)
      requires Valid() && lent && wpos + |chunk| <= data.Length
      modifies this`wpos, this`lent, data
      ensures Valid() && !lent
      ensures Kept() == old(Kept()) + chunk && Unread() == old(Unread()) + chunk
    {
      Fill(data, wpos, chunk);
      lent := false;
      wpos := wpos + |chunk|;
      assert Kept() == data[cons..old(wpos)] + chunk;
      assert Unread() == data[rpos..old(wpos)] + chunk;
    }

    /** `read_line`. */
    method ReadLine(quota: nat, ghost f: Fault) returns (res: int, line: bytes)
      requires Valid()
      modifies this`rpos
      ensures Valid() && LineRead(old(Unread()), quota, f, res, line, Unread())
    {
      ghost var w := Unread();
      res, line := ScanLine(data[rpos..wpos], quota, f);
      if res > 0 {
        rpos := rpos + res;
        assert Unread() == w[res..];
      }
    }

    method IsEof() returns (r: bool)
      requires Valid()
      ensures r == (Unread() == [])
    {
      r := rpos == wpos;
    }

    /** `pick`, which fails at the end of the bytes received. */
    method Pick() returns (failed: bool, c: byte)
      requires Valid()
      ensures failed <==> Unread() == []
      ensures !failed ==> c == Unread()[0]
    {
      if rpos == wpos { return true, 0; }
      return false, data[rpos];
    }

    /** `get`, which fails at the end of the bytes received. */
    method Get() returns (failed: bool, c: byte)
      requires Valid()
      modifies this`rpos
      ensures Valid() && (failed <==> old(Unread()) == [])
      ensures if failed then Unread() == old(Unread()) else c == old(Unread()[0]) && Unread() == old(Unread()[1..])
    {
      if rpos == wpos { return true, 0; }
      failed, c := false, data[rpos];
      rpos := rpos + 1;
    }
  }

  /** Moves the end of the array, from `from` on, to its front. */
  lemma Moved(was: bytes, now: bytes, from: nat, i: nat, j: nat)
    requires from <= i <= j <= |was| == |now| && now[..|was| - from] == was[from..]
    ensures now[i - from..j - from] == was[i..j]
  {
    assert now[i - from..j - from] == now[..|was| - from][i - from..j - from];
  }

  method MoveDown(a: array<byte>, from: nat)
    requires from <= a.Length
    modifies a
    ensures a[..a.Length - from] == old(a[from..])
  {
    var i := 0;
    while i < a.Length - from
      invariant 0 <= i <= a.Length - from
      invariant forall j, k :: 0 <= j < i && k == from + j ==> a[j] == old(a[k])
      invariant forall j :: i <= j < a.Length ==> a[j] == old(a[j])
    {
      a[i] := a[from + i];
      i := i + 1;
    }
  }

  method CopyAll(a: array<byte>, b: array<byte>)
    requires a.Length <= b.Length && a != b
    modifies b
    ensures b[..a.Length] == a[..]
  {
    var i := 0;
    while i < a.Length
      invariant 0 <= i <= a.Length && b[..i] == a[..i]
    {
      b[i] := a[i];
      i := i + 1;
    }
  }

  method Fill(a: array<byte>, at: nat, s: bytes)
    requires at + |s| <= a.Length
    modifies a
    ensures a[..at] == old(a[..at]) && a[at..at + |s|] == s
  {
    var i := 0;
    while i < |s|
      invariant 0 <= i <= |s|
      invariant a[..at] == old(a[..at]) && a[at..at + i] == s[..i]
    {
      a[at + i] := s[i];
      i := i + 1;
    }
  }
}
