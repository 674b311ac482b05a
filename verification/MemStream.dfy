/** The reader over one whole input, which reads the same lines as the growing buffer does. */
module MemStreams {
  import opened Bytes
  import opened Resp
  import opened ReadBuffers

  class MemStreamReader {
    const input: bytes
    var pos: nat
    var cons: nat

    ghost predicate Valid()
      reads this
    {
      cons <= pos <= |input|
    }

    ghost function Unread(): bytes
      reads this
      requires Valid()
    {
      input[pos..]
    }

    ghost function Kept(): bytes
      reads this
      requires Valid()
    {
      input[cons..]
    }

    constructor (w: bytes)
      ensures Valid() && Unread() == Kept() == w
    {
      input, pos, cons := w, 0, 0;
    }

    method ReadLine(quota: nat, ghost f: Fault) returns (res: int, line: bytes)
      requires Valid()
      modifies this`pos
      ensures Valid() && LineRead(old(Unread()), quota, f, res, line, Unread())
    {
      ghost var w := input[pos..];
      res, line := ScanLine(input[pos..], quota, f);
      if res > 0 {
        assert w[res..] == input[pos + res..];
        pos := pos + res;
      }
    }

    method Consume()
      requires Valid()
      modifies this`cons
      ensures Valid() && Kept() == Unread() == old(Unread())
    {
      cons := pos;
    }

    method Discard()
      requires Valid()
      modifies this`pos
      ensures Valid() && Unread() == Kept() == old(Kept())
    {
      pos := cons;
    }
  }

  /**
   Two readers with the same bytes ahead of them, of which one has got them in pieces: the next line is the same,
   and so is what is ahead of them after it, whether or not it is there yet.
   */
  method ReadBoth(buf: ReadBuffer, mem: MemStreamReader, quota: nat)
    returns (a: int, line: bytes, b: int, line': bytes)
    requires buf.Valid() && mem.Valid() && buf.Unread() == mem.Unread()
    modifies buf`rpos, mem`pos
    ensures buf.Valid() && mem.Valid() && a == b && buf.Unread() == mem.Unread() && (a > 0 ==> line == line')
  {
    a, line := buf.ReadLine(quota, BadLine);
    b, line' := mem.ReadLine(quota, BadLine);
  }
}
