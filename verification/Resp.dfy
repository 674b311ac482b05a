/**
 The elements of the Redis serialization protocol as functions of the bytes not yet read:
 integers, simple strings and array sizes.
 */
module Resp {
  import opened Bytes

  const CR: byte := 0x0d
  const LF: byte := 0x0a
  const STRING_LENGTH_MAX := 1024
  const MAX_DIGITS := 22
  const MAX_U64 := 0xffff_ffff_ffff_ffff

  datatype Fault =
    | IntegerTooLong | IntegerOverflow | BadCarriageReturn | BadDigit | BadLine | OutOfQuota | BadCall
    | OddDictionary | BadName | UnexpectedName
    | UnexpectedId | UnexpectedTime | UnexpectedValue | UnexpectedEvent | ArrayExpected | WrongArraySize
    | NotANumber | EventTooBig
    | Refused

  /** What reading an element comes to: not there yet, wrong, or a value and the bytes behind it. */
  datatype Read<+T> = Again | Bad(fault: Fault) | Ok(value: T, rest: bytes)

  datatype Kind = Text | Whole | Array | Bulk | Failure | Unknown

  function NextType(c: byte): Kind {
    if c == '+' as int then Text
    else if c == ':' as int then Whole
    else if c == '$' as int then Bulk
    else if c == '*' as int then Array
    else if c == '-' as int then Failure
    else Unknown
  }

  /** A line with its line feed, out of at most `quota` bytes. */
  function ReadLine(w: bytes, quota: nat, tooLong: Fault): (r: Read<bytes>)
    ensures r.Ok? ==> r.value != [] && |r.value| <= quota && w == r.value + r.rest
    ensures r.Bad? ==> r.fault == tooLong
    decreases quota, w
  {
    if quota == 0 then Bad(tooLong)
    else if w == [] then Again
    else if w[0] == LF then Ok([LF], w[1..])
    else
      match ReadLine(w[1..], quota - 1, tooLong)
      case Again => Again
      case Bad(f) => Bad(f)
      case Ok(line, rest) => Ok([w[0]] + line, rest)
  }

  datatype Number = Wrong(fault: Fault) | Number(n: nat)

  predicate IsDigit(c: byte) { 0x30 <= c <= 0x39 }

  /** The digits of a line, taken one at a time after the number `acc`. */
  function Digits(line: bytes, acc: nat): Number {
    if line == [] then Wrong(BadLine)
    else
      var c := line[0];
      if IsDigit(c) then
        if acc > MAX_U64 / 10 || acc * 10 > MAX_U64 - (c - 0x30) then Wrong(IntegerOverflow)
        else Digits(line[1..], acc * 10 + (c - 0x30))
      else if c == LF then Number(acc)
      else if c == CR then
        if |line| > 1 && line[1] == LF then Number(acc) else Wrong(BadCarriageReturn)
      else Wrong(BadDigit)
  }

  function IntBody(w: bytes): (r: Read<nat>)
    ensures r.Ok? ==> |r.rest| < |w|
  {
    match ReadLine(w, MAX_DIGITS, IntegerTooLong)
    case Again => Again
    case Bad(f) => Bad(f)
    case Ok(line, rest) =>
      match Digits(line, 0)
      case Wrong(f) => Bad(f)
      case Number(n) => Ok(n, rest)
  }

  function ReadInt(w: bytes): (r: Read<nat>)
    ensures r.Ok? ==> |r.rest| < |w|
  {
    if w == [] then Again
    else if NextType(w[0]) != Whole then Bad(BadCall)
    else IntBody(w[1..])
  }

  function ReadArraySize(w: bytes): (r: Read<nat>)
    ensures r.Ok? ==> |r.rest| < |w|
  {
    if w == [] then Again
    else if NextType(w[0]) != Array then Bad(BadCall)
    else IntBody(w[1..])
  }

  /** A line without its line end, which is a line feed or a carriage return and a line feed. */
  function Chomp(line: bytes): (s: bytes)
    requires line != []
    ensures |s| < |line|
  {
    var s := line[..|line| - 1];
    if s != [] && s[|s| - 1] == CR then s[..|s| - 1] else s
  }

  /** A string that fits into a buffer of `size` bytes. */
  function ReadString(w: bytes, size: nat): (r: Read<bytes>)
    ensures r.Ok? ==> |r.rest| < |w| && |r.value| < size && |r.value| < STRING_LENGTH_MAX
  {
    if w == [] then Again
    else if NextType(w[0]) != Text then Bad(BadCall)
    else
      match ReadLine(w[1..], if size < STRING_LENGTH_MAX then size else STRING_LENGTH_MAX, OutOfQuota)
      case Again => Again
      case Bad(f) => Bad(f)
      case Ok(line, rest) => Ok(Chomp(line), rest)
  }

  // ---- More bytes do not change what has been read -----------------------------------------

  /** What `r` has become once `x` has arrived; an element not there before ends inside `x`. */
  ghost predicate Grows<T>(r: Read<T>, x: bytes, r': Read<T>) {
    match r
    case Again => r'.Ok? ==> |r'.rest| < |x|
    case Bad(_) => r' == r
    case Ok(v, rest) => r' == Ok(v, rest + x)
  }

  lemma {:induction false} LineGrows(w: bytes, x: bytes, quota: nat, tooLong: Fault)
    ensures Grows(ReadLine(w, quota, tooLong), x, ReadLine(w + x, quota, tooLong))
    decreases quota
  {
    if quota > 0 && w != [] {
      assert (w + x)[1..] == w[1..] + x;
      LineGrows(w[1..], x, quota - 1, tooLong);
    }
  }

  lemma IntBodyGrows(w: bytes, x: bytes)
    ensures Grows(IntBody(w), x, IntBody(w + x))
  {
    LineGrows(w, x, MAX_DIGITS, IntegerTooLong);
  }

  lemma IntGrows(w: bytes, x: bytes)
    ensures Grows(ReadInt(w), x, ReadInt(w + x))
  {
    if w != [] {
      assert (w + x)[1..] == w[1..] + x;
      IntBodyGrows(w[1..], x);
    }
  }

  lemma ArraySizeGrows(w: bytes, x: bytes)
    ensures Grows(ReadArraySize(w), x, ReadArraySize(w + x))
  {
    if w != [] {
      assert (w + x)[1..] == w[1..] + x;
      IntBodyGrows(w[1..], x);
    }
  }

  lemma StringGrows(w: bytes, x: bytes, size: nat)
    ensures Grows(ReadString(w, size), x, ReadString(w + x, size))
  {
    if w != [] {
      assert (w + x)[1..] == w[1..] + x;
      LineGrows(w[1..], x, if size < STRING_LENGTH_MAX then size else STRING_LENGTH_MAX, OutOfQuota);
    }
  }
}
