/** Compressed posting lists: appended to in place, read through iterators, combined by merging. */
module PostingLists {
  import opened Bytes
  import opened Varint
  import opened SortedLists

  predicate Words(xs: seq<nat>) { forall i :: 0 <= i < |xs| ==> xs[i] < TWO64 }

  class CompressedPList {
    var buffer: bytes
    var prev: nat
    var cardinality: nat
    ghost var contents: seq<nat>

    ghost predicate Valid()
      reads this
    {
      Words(contents) && buffer == Stored(contents, 0) && prev == Last(contents, 0) && cardinality == |contents|
    }

    constructor ()
      ensures Valid() && contents == []
    {
      buffer, prev, cardinality, contents := [], 0, 0, [];
    }

    /** `Base128Int::put`: one byte at a time to the end of the buffer. */
    method PutBytes(v: nat)
      modifies this`buffer
      ensures buffer == old(buffer) + Put(v)
    {
      var value := v;
      while value >= 128
        invariant buffer + Put(value) == old(buffer) + Put(v)
      {
        Assoc(buffer, [128 + value % 128], Put(value / 128));
        buffer := buffer + [128 + value % 128];
        value := value / 128;
      }
      buffer := buffer + [value];
    }

    method Add(x: nat)
      requires Valid() && x < TWO64
      modifies this
      ensures Valid() && contents == old(contents) + [x]
    {
      StoredSnoc(contents, 0, x);
      PutBytes(Minus(x, prev));
      prev, cardinality := x, cardinality + 1;
      contents := contents + [x];
    }
  }

  /** `CompressedPListConstIterator`: a position in a list and the value there. */
  class Iterator {
    const data: bytes
    const card: nat
    ghost const list: seq<nat>
    var at: nat
    var prev: nat
    var pos: nat
    var curr: nat

    ghost predicate Valid()
      reads this
    {
      && Words(list) && card == |list| && pos <= card && at <= |data|
      && (pos < card ==> curr == prev == list[pos] && data[at..] == Stored(list[pos + 1..], curr))
    }

    constructor (l: CompressedPList)
      requires l.Valid()
      ensures Valid() && pos == 0 && list == l.contents
    {
      data, card, list := l.buffer, l.cardinality, l.contents;
      at, prev, pos, curr := 0, 0, 0, 0;
      new;
      if card > 0 {
        assert data[0..] == Stored(list, 0) && list[0..] == list;
        Read(list);
      }
    }

    /** `DeltaStreamReader::next`: the next difference is read and added. */
    method Read(ghost xs: seq<nat>)
      requires xs != [] && Words(xs) && prev < TWO64 && at <= |data| && data[at..] == Stored(xs, prev)
      modifies this`at, this`prev, this`curr
      ensures at <= |data| && curr == prev == xs[0] && data[at..] == Stored(xs[1..], curr)
    {
      StoredFirst(xs, prev, []);
      assert data[at..] + [] == data[at..] && Stored(xs[1..], xs[0]) + [] == Stored(xs[1..], xs[0]);
      var delta := ReadVarint(xs[0]);
      curr := Plus(prev, delta);
      prev := curr;
    }

    /** `Base128Int::get`. */
    method ReadVarint(ghost x: nat) returns (v: nat)
      requires at <= |data| && Get(data[at..], 0, 1).Some?
      modifies this`at
      ensures at <= |data| && Get(old(data[at..]), 0, 1) == Some(Got(v, data[at..]))
    {
      ghost var goal := Get(data[at..], 0, 1);
      var acc, scale := 0, 1;
      while at < |data| && data[at] >= 128
        invariant at <= |data| && acc >= 0 && scale >= 0
        invariant Get(data[at..], acc, scale) == goal
      {
        assert data[at..][1..] == data[at + 1..];
        acc, scale := (acc + data[at] % 128 * scale) % TWO64, scale * 128;
        at := at + 1;
      }
      assert data[at..][1..] == data[at + 1..];
      v := (acc + data[at] % 128 * scale) % TWO64;
      at := at + 1;
    }

    method Advance()
      requires Valid() && pos < card
      modifies this
      ensures Valid() && pos == old(pos) + 1
    {
      pos := pos + 1;
      if pos < card {
        assert list[old(pos) + 1..][1..] == list[pos + 1..];
        Read(list[pos..]);
      }
    }
  }

  /** Iterating over a list gives what was added to it. */
  method ToSeq(l: CompressedPList) returns (xs: seq<nat>)
    requires l.Valid()
    ensures xs == l.contents
  {
    var it := new Iterator(l);
    xs := [];
    while it.pos < it.card
      invariant fresh(it) && it.Valid() && it.list == l.contents && xs == it.list[..it.pos]
    {
      xs := xs + [it.curr];
      it.Advance();
    }
  }

  // ---- Combining lists -------------------------------------------------------------------------

  /** What an iterator has still to give. */
  ghost function Ahead(it: Iterator): seq<nat>
    requires it.Valid()
    reads it
  {
    it.list[it.pos..]
  }

  method Step(it: Iterator)
    requires it.Valid() && it.pos < it.card
    modifies it
    ensures it.Valid() && it.pos == old(it.pos) + 1 && Ahead(it) == old(Ahead(it))[1..]
  {
    it.Advance();
  }

  /** The value `it` stands at goes to the result; `rest` is what is to come behind it. */
  method Emit(it: Iterator, r: CompressedPList, ghost rest: seq<nat>, ghost goal: seq<nat>)
    requires it.Valid() && r.Valid() && it.pos < it.card && r.contents + ([it.curr] + rest) == goal
    modifies it, r
    ensures it.Valid() && r.Valid() && it.pos == old(it.pos) + 1 && Ahead(it) == old(Ahead(it))[1..]
    ensures r.contents + rest == goal
  {
    Assoc(r.contents, [it.curr], rest);
    r.Add(it.curr);
    Step(it);
  }

  /** The rest of a list, copied. */
  method CopyRest(it: Iterator, r: CompressedPList)
    requires it.Valid() && r.Valid()
    modifies it, r
    ensures it.Valid() && r.Valid() && r.contents == old(r.contents) + old(Ahead(it))
  {
    ghost var goal := r.contents + Ahead(it);
    while it.pos < it.card
      invariant it.Valid() && r.Valid() && r.contents + Ahead(it) == goal
      decreases it.card - it.pos
    {
      assert Ahead(it) == [it.curr] + Ahead(it)[1..];
      Emit(it, r, Ahead(it)[1..], goal);
    }
    assert r.contents + [] == r.contents;
  }

  /** Once round the loop of `std::set_intersection`. */
  method MeetTurn(i: Iterator, j: Iterator, r: CompressedPList, ghost goal: seq<nat>)
    requires i != j && i.Valid() && j.Valid() && r.Valid() && i.pos < i.card && j.pos < j.card
    requires r.contents + Meet(Ahead(i), Ahead(j)) == goal
    modifies i, j, r
    ensures i.Valid() && j.Valid() && r.Valid() && old(i.pos + j.pos) < i.pos + j.pos
    ensures r.contents + Meet(Ahead(i), Ahead(j)) == goal
  {
    if i.curr < j.curr {
      Step(i);
    } else if j.curr == i.curr {
      Emit(i, r, Meet(Ahead(i)[1..], Ahead(j)[1..]), goal);
      Step(j);
    } else {
      Step(j);
    }
  }

  /** `operator &` into a new list. */
  method Intersection(a: CompressedPList, b: CompressedPList) returns (r: CompressedPList)
    requires a.Valid() && b.Valid()
    ensures fresh(r) && r.Valid() && r.contents == Meet(a.contents, b.contents)
  {
    r := new CompressedPList();
    var i := new Iterator(a);
    var j := new Iterator(b);
    ghost var goal := Meet(Ahead(i), Ahead(j));
    assert Ahead(i) == a.contents && Ahead(j) == b.contents && [] + goal == goal;
    while i.pos < i.card && j.pos < j.card
      invariant fresh(r) && fresh(i) && fresh(j) && i != j && r.Valid() && i.Valid() && j.Valid()
      invariant r.contents + Meet(Ahead(i), Ahead(j)) == goal
      decreases i.card - i.pos + j.card - j.pos
    {
      MeetTurn(i, j, r, goal);
    }
    assert r.contents + [] == r.contents;
  }

  /** Once round the loop of `std::set_union`. */
  method JoinTurn(i: Iterator, j: Iterator, r: CompressedPList, ghost goal: seq<nat>)
    requires i != j && i.Valid() && j.Valid() && r.Valid() && i.pos < i.card && j.pos < j.card
    requires r.contents + Join(Ahead(i), Ahead(j)) == goal
    modifies i, j, r
    ensures i.Valid() && j.Valid() && r.Valid() && old(i.pos + j.pos) < i.pos + j.pos
    ensures r.contents + Join(Ahead(i), Ahead(j)) == goal
  {
    if j.curr < i.curr {
      Emit(j, r, Join(Ahead(i), Ahead(j)[1..]), goal);
    } else if i.curr < j.curr {
      Emit(i, r, Join(Ahead(i)[1..], Ahead(j)), goal);
    } else {
      Emit(i, r, Join(Ahead(i)[1..], Ahead(j)[1..]), goal);
      Step(j);
    }
  }

  method JoinLoop(i: Iterator, j: Iterator, r: CompressedPList, ghost goal: seq<nat>)
    requires i != j && i.Valid() && j.Valid() && r.Valid() && r.contents + Join(Ahead(i), Ahead(j)) == goal
    modifies i, j, r
    ensures r.Valid() && r.contents == goal
  {
    while i.pos < i.card && j.pos < j.card
      invariant r.Valid() && i.Valid() && j.Valid() && r.contents + Join(Ahead(i), Ahead(j)) == goal
      decreases i.card - i.pos + j.card - j.pos
    {
      JoinTurn(i, j, r, goal);
    }
    JoinEnd(i, j, r, goal);
  }

  /** `operator |`. */
  method Union(a: CompressedPList, b: CompressedPList) returns (r: CompressedPList)
    requires a.Valid() && b.Valid()
    ensures fresh(r) && r.Valid() && r.contents == Join(a.contents, b.contents)
  {
    r := new CompressedPList();
    var i := new Iterator(a);
    var j := new Iterator(b);
    ghost var x, y := a.contents, b.contents;
    assert Ahead(i) == x && Ahead(j) == y;
    NothingBefore(Join(x, y));
    JoinLoop(i, j, r, Join(x, y));
    assert a.contents == x && b.contents == y;
  }

  /** One list is at its end: the other is copied. */
  method JoinEnd(i: Iterator, j: Iterator, r: CompressedPList, ghost goal: seq<nat>)
    requires i.Valid() && j.Valid() && r.Valid() && (i.pos == i.card || j.pos == j.card)
    requires r.contents + Join(Ahead(i), Ahead(j)) == goal
    modifies i, j, r
    ensures r.Valid() && r.contents == goal
  {
    if i.pos < i.card { CopyRest(i, r); } else { CopyRest(j, r); }
  }

  /** Once round the loop of `std::set_difference`. */
  method WithoutTurn(i: Iterator, j: Iterator, r: CompressedPList, ghost goal: seq<nat>)
    requires i != j && i.Valid() && j.Valid() && r.Valid() && i.pos < i.card && j.pos < j.card
    requires r.contents + Without(Ahead(i), Ahead(j)) == goal
    modifies i, j, r
    ensures i.Valid() && j.Valid() && r.Valid() && old(i.pos + j.pos) < i.pos + j.pos
    ensures r.contents + Without(Ahead(i), Ahead(j)) == goal
  {
    if i.curr < j.curr {
      Emit(i, r, Without(Ahead(i)[1..], Ahead(j)), goal);
    } else if i.curr == j.curr {
      Step(i);
      Step(j);
    } else {
      Step(j);
    }
  }

  method WithoutLoop(i: Iterator, j: Iterator, r: CompressedPList, ghost goal: seq<nat>)
    requires i != j && i.Valid() && j.Valid() && r.Valid() && r.contents + Without(Ahead(i), Ahead(j)) == goal
    modifies i, j, r
    ensures r.Valid() && r.contents == goal
  {
    while i.pos < i.card && j.pos < j.card
      invariant r.Valid() && i.Valid() && j.Valid() && r.contents + Without(Ahead(i), Ahead(j)) == goal
      decreases i.card - i.pos + j.card - j.pos
    {
      WithoutTurn(i, j, r, goal);
    }
    WithoutEnd(i, j, r, goal);
  }

  /** `operator ^`, which is the difference. */
  method Difference(a: CompressedPList, b: CompressedPList) returns (r: CompressedPList)
    requires a.Valid() && b.Valid()
    ensures fresh(r) && r.Valid() && r.contents == Without(a.contents, b.contents)
  {
    r := new CompressedPList();
    var i := new Iterator(a);
    var j := new Iterator(b);
    ghost var x, y := a.contents, b.contents;
    assert Ahead(i) == x && Ahead(j) == y;
    NothingBefore(Without(x, y));
    WithoutLoop(i, j, r, Without(x, y));
    assert a.contents == x && b.contents == y;
  }

  method WithoutEnd(i: Iterator, j: Iterator, r: CompressedPList, ghost goal: seq<nat>)
    requires i.Valid() && j.Valid() && r.Valid() && (i.pos == i.card || j.pos == j.card)
    requires r.contents + Without(Ahead(i), Ahead(j)) == goal
    modifies i, r
    ensures r.Valid() && r.contents == goal
  {
    if i.pos < i.card { CopyRest(i, r); } else { assert r.contents + [] == r.contents; }
  }

  /** `value` is the last value seen; it is written when another follows it. */
  method UniqueTurn(i: Iterator, r: CompressedPList, value: nat, ghost goal: seq<nat>) returns (value': nat)
    requires i.Valid() && r.Valid() && i.pos < i.card && value < TWO64
    requires r.contents + Unique([value] + Ahead(i)) == goal
    modifies i, r
    ensures i.Valid() && r.Valid() && i.pos == old(i.pos) + 1 && value' < TWO64
    ensures r.contents + Unique([value'] + Ahead(i)) == goal
  {
    value' := i.curr;
    ghost var rest := Ahead(i);
    assert ([value] + rest)[1..] == rest == [value'] + rest[1..];
    if value != i.curr {
      Assoc(r.contents, [value], Unique(rest));
      r.Add(value);
    }
    Step(i);
  }

  method UniqueEnd(i: Iterator, r: CompressedPList, value: nat, ghost goal: seq<nat>)
    requires i.Valid() && r.Valid() && i.pos == i.card && value < TWO64
    requires r.contents + Unique([value] + Ahead(i)) == goal
    modifies r
    ensures r.Valid() && r.contents == goal
  {
    assert Ahead(i) == [];
    r.Add(value);
  }

  lemma FirstValue(i: Iterator, value: nat, xs: seq<nat>)
    requires i.Valid() && xs != [] && value == xs[0] && Ahead(i) == xs[1..]
    ensures [] + Unique([value] + Ahead(i)) == Unique(xs)
  {
    assert [value] + xs[1..] == xs;
  }

  /** `unique`: `std::unique_copy`. */
  method UniqueCopy(a: CompressedPList) returns (r: CompressedPList)
    requires a.Valid()
    ensures fresh(r) && r.Valid() && r.contents == Unique(a.contents)
  {
    r := new CompressedPList();
    var i := new Iterator(a);
    assert Ahead(i) == a.contents;
    if i.card == 0 { return; }
    var value: nat := i.curr;
    Step(i);
    FirstValue(i, value, a.contents);
    ghost var goal := Unique(a.contents);
    while i.pos < i.card
      invariant fresh(r) && fresh(i) && r.Valid() && i.Valid() && value < TWO64
      invariant r.contents + Unique([value] + Ahead(i)) == goal
      decreases i.card - i.pos
    {
      value := UniqueTurn(i, r, value, goal);
    }
    UniqueEnd(i, r, value, goal);
  }
}
