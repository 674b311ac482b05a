/** Reading elements of the protocol out of a buffer, against the functions that say what is read. */
module RespStream {
  import opened Bytes
  import opened Resp
  import opened ReadBuffers

  /** What a read returns; the bytes behind a value are those left unread. */
  datatype Got<+T> = NotYet | Faulty(fault: Fault) | Value(value: T)

  ghost predicate Matches<T>(r: Got<T>, spec: Read<T>, unread: bytes) {
    match spec
    case Again => r.NotYet?
    case Bad(f) => r == Faulty(f)
    case Ok(v, rest) => r == Value(v) && unread == rest
  }

  /** The type of the next element, none at the end of the bytes received. */
  method NextKind(buf: ReadBuffer) returns (eof: bool, kind: Kind)
    requires buf.Valid()
    ensures eof == (buf.Unread() == []) && (!eof ==> kind == NextType(buf.Unread()[0]))
  {
    eof := buf.IsEof();
    if eof { return true, Unknown; }
    var _, c := buf.Pick();
    kind := NextType(c);
  }

  /** The digit loop of `_read_int_body` over a line that has been read. */
  method ReadDigits(line: bytes) returns (r: Number)
    ensures r == Digits(line, 0)
  {
    var i, result := 0, 0;
    while i < |line|
      invariant 0 <= i <= |line| && result >= 0
      invariant Digits(line, 0) == Digits(line[i..], result)
    {
      var c := line[i];
      if IsDigit(c) {
        if result > MAX_U64 / 10 { return Wrong(IntegerOverflow); }
        result := result * 10;
        var digit := c - 0x30;
        if result > MAX_U64 - digit { return Wrong(IntegerOverflow); }
        result := result + digit;
      } else if c == LF {
        return Number(result);
      } else if c == CR {
        i := i + 1;
        if i < |line| && line[i] == LF { return Number(result); }
        return Wrong(BadCarriageReturn);
      } else {
        return Wrong(BadDigit);
      }
      i := i + 1;
    }
    r := Wrong(BadLine);
  }

  method GetIntBody(buf: ReadBuffer) returns (r: Got<nat>)
    requires buf.Valid()
    modifies buf`rpos
    ensures buf.Valid() && Matches(r, IntBody(old(buf.Unread())), buf.Unread())
  {
    var res, line := buf.ReadLine(MAX_DIGITS, IntegerTooLong);
    if res <= 0 {
      if res == -MAX_DIGITS { return Faulty(IntegerTooLong); }
      return NotYet;
    }
    var n := ReadDigits(line);
    match n
    case Wrong(f) => r := Faulty(f);
    case Number(v) => r := Value(v);
  }

  method GetInt(buf: ReadBuffer) returns (r: Got<nat>)
    requires buf.Valid()
    modifies buf`rpos
    ensures buf.Valid() && Matches(r, ReadInt(old(buf.Unread())), buf.Unread())
  {
    var eof := buf.IsEof();
    if eof { return NotYet; }
    var _, c := buf.Get();
    if c != ':' as int { return Faulty(BadCall); }
    r := GetIntBody(buf);
  }

  method GetArraySize(buf: ReadBuffer) returns (r: Got<nat>)
    requires buf.Valid()
    modifies buf`rpos
    ensures buf.Valid() && Matches(r, ReadArraySize(old(buf.Unread())), buf.Unread())
  {
    var eof := buf.IsEof();
    if eof { return NotYet; }
    var _, c := buf.Get();
    if c != '*' as int { return Faulty(BadCall); }
    r := GetIntBody(buf);
  }

  method GetString(buf: ReadBuffer, size: nat) returns (r: Got<bytes>)
    requires buf.Valid() && size > 0
    modifies buf`rpos
    ensures buf.Valid() && Matches(r, ReadString(old(buf.Unread()), size), buf.Unread())
  {
    var eof := buf.IsEof();
    if eof { return NotYet; }
    var _, c := buf.Get();
    if c != '+' as int { return Faulty(BadCall); }
    var quota := if size < STRING_LENGTH_MAX then size else STRING_LENGTH_MAX;
    var res, line := buf.ReadLine(quota, OutOfQuota);
    if res > 0 {
      return Value(Chomp(line));
    }
    if res == -quota { return Faulty(OutOfQuota); }
    r := NotYet;
  }
}
