/**
 * The trace-driven cache simulator of csim.c: a cache of 2^s sets of E lines each,
 * addressed by splitting a 32-bit address into tag, set index and block offset,
 * with least-recently-used replacement driven by per-line age counters.
 */
module CacheSim {

  /** 2^n, the value of `1 << n`. */
  function Pow2(n: nat): (r: nat)
    ensures r >= 1
  {
    if n == 0 then 1 else 2 * Pow2(n - 1)
  }

  lemma {:induction false} Pow2Add(m: nat, n: nat)
    ensures Pow2(m + n) == Pow2(m) * Pow2(n)
  {
    if m > 0 {
      Pow2Add(m - 1, n);
      assert Pow2(m + n) == 2 * Pow2(m - 1 + n);
    }
  }

  /** Euclidean division is determined by its quotient-remainder equation. */
  lemma DivModUnique(a: nat, d: nat, q: nat, r: nat)
    requires r < d && a == q * d + r
    ensures a / d == q && a % d == r
  {
    var q', r' := a / d, a % d;
    assert a == q' * d + r';
    if q' < q {
      MulBelow(q', q, d);
    } else if q < q' {
      MulBelow(q, q', d);
    }
  }

  /** i < n implies (i + 1) * d <= n * d. */
  lemma MulBelow(i: nat, n: nat, d: nat)
    requires i < n
    ensures i * d + d <= n * d
  {
    var k := n - i - 1;
    assert n * d == i * d + d + k * d;
  }

  /** The addresses of a trace: `unsigned` values read with %x. */
  type Address = a: nat | a < 0x1_0000_0000

  /** `address >> (s + b)`. */
  function Tag(addr: nat, s: nat, b: nat): (t: nat)
    ensures t * Pow2(s + b) <= addr < t * Pow2(s + b) + Pow2(s + b)
  {
    Quotient(addr, Pow2(s + b))
  }

  /** Division of naturals by a positive divisor. */
  function Quotient(a: nat, d: nat): nat
    requires d >= 1
  {
    a / d
  }

  /** `(address >> b) & ((1 << s) - 1)`: always one of the 2^s sets. */
  function SetIndex(addr: nat, s: nat, b: nat): (i: nat)
    ensures i < Pow2(s)
  {
    (addr / Pow2(b)) % Pow2(s)
  }

  /** `address & ((1 << b) - 1)`, the offset within the block. */
  function BlockOffset(addr: nat, b: nat): (o: nat)
    ensures o < Pow2(b)
  {
    addr % Pow2(b)
  }

  /** The address whose tag, set index and block offset are the given ones. */
  function BlockAddress(tag: nat, index: nat, offset: nat, s: nat, b: nat): nat
  {
    (tag * Pow2(s) + index) * Pow2(b) + offset
  }

  lemma Regroup(t: nat, ps: nat, i: nat, pb: nat, o: nat)
    ensures (t * ps + i) * pb + o == t * (ps * pb) + (i * pb + o)
  {
    assert (t * ps + i) * pb == t * ps * pb + i * pb;
  }

  /** Dividing by pb and then by ps is dividing by ps * pb; the remainders make up the rest. */
  lemma DivDiv(a: nat, ps: nat, pb: nat)
    requires ps >= 1 && pb >= 1
    ensures a / (ps * pb) == (a / pb) / ps
    ensures a == ((a / pb) / ps * ps + (a / pb) % ps) * pb + a % pb
  {
    var q := a / pb;
    var t, i, o := q / ps, q % ps, a % pb;
    assert a == q * pb + o;
    assert q == t * ps + i;
    Regroup(t, ps, i, pb, o);
    MulBelow(i, ps, pb);
    DivModUnique(a, ps * pb, t, i * pb + o);
  }

  /** Tag, set index and offset are a decomposition of the address: they put it back together. */
  lemma SplitAddress(addr: nat, s: nat, b: nat)
    ensures BlockAddress(Tag(addr, s, b), SetIndex(addr, s, b), BlockOffset(addr, b), s, b) == addr
  {
    Pow2Add(s, b);
    DivDiv(addr, Pow2(s), Pow2(b));
  }

  lemma FieldsOf(t: nat, i: nat, o: nat, ps: nat, pb: nat)
    requires i < ps && o < pb
    ensures var a := (t * ps + i) * pb + o;
      a / (ps * pb) == t && (a / pb) % ps == i && a % pb == o
  {
    var a := (t * ps + i) * pb + o;
    DivModUnique(a, pb, t * ps + i, o);
    DivModUnique(t * ps + i, ps, t, i);
    DivDiv(a, ps, pb);
  }

  /** Conversely, a tag, a set index below 2^s and an offset below 2^b are recovered from their address. */
  lemma AddressFields(tag: nat, index: nat, offset: nat, s: nat, b: nat)
    requires index < Pow2(s) && offset < Pow2(b)
    ensures var a := BlockAddress(tag, index, offset, s, b);
      Tag(a, s, b) == tag && SetIndex(a, s, b) == index && BlockOffset(a, b) == offset
  {
    var ps, pb := Pow2(s), Pow2(b);
    Pow2Add(s, b);
    FieldsOf(tag, index, offset, ps, pb);
  }

  /** The number of `set` entries `init_cache` allocates as written: `malloc(sizeof(row) * sets)` with `sets` = s. */
  function SetsAllocatedAsWritten(s: nat): nat
  {
    s
  }

  /**
   * As written, `init_cache` allocates fewer sets than its loop initialises (2^s), for every s:
   * the loop writes past the allocation.
   */
  lemma {:induction false} InitOverrunsAllocation(s: nat)
    ensures SetsAllocatedAsWritten(s) < Pow2(s)
  {
    if s > 0 {
      InitOverrunsAllocation(s - 1);
    }
  }

  /** A cache line: valid bit, tag, and the age (`timestamp`) that LRU replacement compares. */
  datatype Line = Line(valid: bool, tag: int, timestamp: nat)

  /** The line `init_cache` writes everywhere. */
  const EmptyLine := Line(false, -1, 0)

  /** What `update` does to every line other than the one it touches: a valid line ages by one. */
  function Aged(l: Line): Line
  {
    if l.valid then l.(timestamp := l.timestamp + 1) else l
  }

  /** The verdict `update_cache` prints for one access. */
  datatype Outcome = Hit | Miss | MissEviction

  /** `get_index` on a set given as a value: its lowest valid line holding the tag, or -1. */
  function HitLine(row: seq<Line>, tag: int): (r: int)
    ensures -1 <= r < |row|
    ensures r == -1 <==> forall j :: 0 <= j < |row| ==> !(row[j].valid && row[j].tag == tag)
    ensures r >= 0 ==> row[r].valid && row[r].tag == tag
    ensures forall j :: 0 <= j < r ==> !(row[j].valid && row[j].tag == tag)
  {
    if row == [] then -1
    else
      var r := HitLine(row[..|row| - 1], tag);
      if r >= 0 then r
      else if row[|row| - 1].valid && row[|row| - 1].tag == tag then |row| - 1
      else -1
  }

  /** `is_full` on a set given as a value: its lowest invalid line, or -1. */
  function FreeLine(row: seq<Line>): (r: int)
    ensures -1 <= r < |row|
    ensures r == -1 <==> forall j :: 0 <= j < |row| ==> row[j].valid
    ensures r >= 0 ==> !row[r].valid
    ensures forall j :: 0 <= j < r ==> row[j].valid
  {
    if row == [] then -1
    else
      var r := FreeLine(row[..|row| - 1]);
      if r >= 0 then r
      else if !row[|row| - 1].valid then |row| - 1
      else -1
  }

  /** `find_LRU` on a set given as a value: the lowest of its lines with the largest age. */
  function OldestLine(row: seq<Line>): (r: nat)
    requires |row| >= 1
    ensures r < |row|
    ensures forall j :: 0 <= j < |row| ==> row[j].timestamp <= row[r].timestamp
    ensures forall j :: 0 <= j < r ==> row[j].timestamp < row[r].timestamp
  {
    if |row| == 1 then 0
    else
      var r := OldestLine(row[..|row| - 1]);
      if row[|row| - 1].timestamp > row[r].timestamp then |row| - 1 else r
  }

  /**
   * The branches of `update_cache` on a set given as a value: the verdict, and the line the
   * access touches (the line holding the tag, else the lowest invalid line, else the oldest).
   */
  function Choose(row: seq<Line>, tag: int): (c: (Outcome, nat))
    requires |row| >= 1
    ensures c.1 < |row|
  {
    var h := HitLine(row, tag);
    if h >= 0 then (Hit, h)
    else
      var f := FreeLine(row);
      if f >= 0 then (Miss, f) else (MissEviction, OldestLine(row))
  }

  /** `update` on a set given as a value: line li becomes valid with the tag and age 0, the others age. */
  function Touched(row: seq<Line>, li: nat, tag: int): (t: seq<Line>)
    requires li < |row|
    ensures |t| == |row|
  {
    seq(|row|, j requires 0 <= j < |row| => if j == li then Line(true, tag, 0) else Aged(row[j]))
  }

  /** One record of a trace: operation letter, address and (unused) size. */
  datatype Record = Record(op: char, address: Address, size: int)

  /** How many cache accesses `parase_trace_file` performs for a record. */
  function Accesses(r: Record): nat
  {
    match r.op
    case 'L' => 1
    case 'S' => 1
    case 'M' => 2
    case _ => 0
  }

  function TraceAccesses(trace: seq<Record>): nat
  {
    if trace == [] then 0 else TraceAccesses(trace[..|trace| - 1]) + Accesses(trace[|trace| - 1])
  }

  /** The number of records of a trace whose operation letter is `op`. */
  function Count(trace: seq<Record>, op: char): nat
  {
    if trace == [] then 0
    else Count(trace[..|trace| - 1], op) + (if trace[|trace| - 1].op == op then 1 else 0)
  }

  /** A trace performs one access per L and S record, two per M record, none for any other. */
  lemma {:induction false} TraceAccessesByOp(trace: seq<Record>)
    ensures TraceAccesses(trace) == Count(trace, 'L') + Count(trace, 'S') + 2 * Count(trace, 'M')
  {
    if trace != [] {
      TraceAccessesByOp(trace[..|trace| - 1]);
    }
  }

  /** The simulator's state as a value: the lines of every set, and the three counters `printSummary` reports. */
  datatype Sim = Sim(sets: seq<seq<Line>>, hits: nat, misses: nat, evictions: nat)

  /** 2^s sets of E lines each, E at least one. */
  predicate Shape(c: Sim, s: nat, E: nat)
  {
    E >= 1 && |c.sets| == Pow2(s) && forall i :: 0 <= i < |c.sets| ==> |c.sets[i]| == E
  }

  /**
   * `update_cache` on values: the access to the address touches the line `Choose` picks in
   * its set, and exactly one of hits and misses grows by one.
   */
  function SimAccess(c: Sim, s: nat, E: nat, b: nat, addr: Address): (d: Sim)
    requires Shape(c, s, E)
    ensures Shape(d, s, E)
    ensures (d.hits, d.misses) == (c.hits + 1, c.misses) || (d.hits, d.misses) == (c.hits, c.misses + 1)
    ensures d.evictions == c.evictions || (d.evictions == c.evictions + 1 && d.misses == c.misses + 1)
    ensures forall i :: 0 <= i < |c.sets| && i != SetIndex(addr, s, b) ==> d.sets[i] == c.sets[i]
  {
    var si, tag := SetIndex(addr, s, b), Tag(addr, s, b);
    var choice := Choose(c.sets[si], tag);
    Sim(c.sets[si := Touched(c.sets[si], choice.1, tag)],
        c.hits + (if choice.0 == Hit then 1 else 0),
        c.misses + (if choice.0 == Hit then 0 else 1),
        c.evictions + (if choice.0 == MissEviction then 1 else 0))
  }

  /** Accessing an address again right after accessing it is a hit, whatever the state. */
  lemma SecondAccessHits(c: Sim, s: nat, E: nat, b: nat, addr: Address)
    requires Shape(c, s, E)
    ensures var d := SimAccess(c, s, E, b, addr);
      SimAccess(d, s, E, b, addr).hits == d.hits + 1
  {
    var si, tag := SetIndex(addr, s, b), Tag(addr, s, b);
    var li := Choose(c.sets[si], tag).1;
    var d := SimAccess(c, s, E, b, addr);
    assert d.sets[si][li].valid && d.sets[si][li].tag == tag;
  }

  /** The dispatch of `parase_trace_file` on values: L and S access once, M twice, others not at all. */
  function SimStep(c: Sim, s: nat, E: nat, b: nat, r: Record): (d: Sim)
    requires Shape(c, s, E)
    ensures Shape(d, s, E)
    ensures d.hits + d.misses == c.hits + c.misses + Accesses(r)
    ensures d.hits >= c.hits && d.misses >= c.misses
    ensures d.evictions - c.evictions <= d.misses - c.misses
  {
    match r.op
    case 'L' => SimAccess(c, s, E, b, r.address)
    case 'S' => SimAccess(c, s, E, b, r.address)
    case 'M' => SimAccess(SimAccess(c, s, E, b, r.address), s, E, b, r.address)
    case _ => c
  }

  /** A whole trace on values, record by record in order. */
  function SimRun(c: Sim, s: nat, E: nat, b: nat, trace: seq<Record>): (d: Sim)
    requires Shape(c, s, E)
    ensures Shape(d, s, E)
  {
    if trace == [] then c
    else SimStep(SimRun(c, s, E, b, trace[..|trace| - 1]), s, E, b, trace[|trace| - 1])
  }

  /**
   * The counters `printSummary` reports after a trace: hits + misses grows by the trace's
   * accesses, and evictions grow by no more than misses.
   */
  lemma {:induction false} SimRunCounts(c: Sim, s: nat, E: nat, b: nat, trace: seq<Record>)
    requires Shape(c, s, E)
    ensures var d := SimRun(c, s, E, b, trace);
      && d.hits + d.misses == c.hits + c.misses + TraceAccesses(trace)
      && d.hits >= c.hits && d.misses >= c.misses
      && d.evictions - c.evictions <= d.misses - c.misses
  {
    if trace != [] {
      SimRunCounts(c, s, E, b, trace[..|trace| - 1]);
    }
  }

  /** Running two traces one after the other is running their concatenation. */
  lemma {:induction false} SimRunAppend(c: Sim, s: nat, E: nat, b: nat, t1: seq<Record>, t2: seq<Record>)
    requires Shape(c, s, E)
    ensures SimRun(c, s, E, b, t1 + t2) == SimRun(SimRun(c, s, E, b, t1), s, E, b, t2)
  {
    if t2 == [] {
      assert t1 + t2 == t1;
    } else {
      SimRunAppend(c, s, E, b, t1, t2[..|t2| - 1]);
      assert (t1 + t2)[..|t1 + t2| - 1] == t1 + t2[..|t2| - 1];
    }
  }

  class Cache {
    const s: nat
    const E: nat
    const b: nat
    /** lines[i, j] is line j of set i. */
    const lines: array2<Line>
    var hits: nat
    var misses: nat
    var evictions: nat
    /** lastUse[i][j] is the number (counting from 0) of the access that last touched line j of set i. */
    ghost var lastUse: seq<seq<int>>

    /** The set an address maps to. */
    function SetFor(addr: Address): (i: nat)
      ensures i < Pow2(s)
    {
      SetIndex(addr, s, b)
    }

    /** The tag an address is stored under. */
    function TagFor(addr: Address): nat
    {
      Tag(addr, s, b)
    }

    ghost predicate Shaped()
      reads this`lastUse
    {
      && E >= 1
      && lines.Length0 == Pow2(s) && lines.Length1 == E
      && |lastUse| == Pow2(s)
      && (forall i :: 0 <= i < Pow2(s) ==> |lastUse[i]| == E)
    }

    /**
     * Within set i: invalid lines are as `init_cache` left them; valid lines hold distinct
     * tags and distinct ages, and a line is younger than another exactly when it was
     * touched more recently.
     */
    ghost predicate SetValid(i: nat, clock: nat)
      requires Shaped() && i < Pow2(s)
      reads this`lastUse, lines
    {
      && (forall j :: 0 <= j < E && !lines[i, j].valid ==> lines[i, j] == EmptyLine)
      && (forall j :: 0 <= j < E && lines[i, j].valid ==> lastUse[i][j] < clock)
      && (forall j, k :: 0 <= j < E && 0 <= k < E && j != k && lines[i, j].valid && lines[i, k].valid ==>
            && lines[i, j].tag != lines[i, k].tag
            && lines[i, j].timestamp != lines[i, k].timestamp
            && (lines[i, j].timestamp < lines[i, k].timestamp <==> lastUse[i][j] > lastUse[i][k]))
    }

    /** Every set is consistent after `clock` accesses. */
    ghost predicate SetsValid(clock: nat)
      requires Shaped()
      reads this`lastUse, lines
    {
      forall i :: 0 <= i < Pow2(s) ==> SetValid(i, clock)
    }

    ghost predicate Valid()
      reads this, lines
    {
      && Shaped()
      && evictions <= misses
      && SetsValid(hits + misses)
    }

    /** Some valid line of set i holds the tag. */
    ghost predicate Holds(i: nat, tag: int)
      requires i < lines.Length0
      reads lines
    {
      exists j :: 0 <= j < lines.Length1 && lines[i, j].valid && lines[i, j].tag == tag
    }

    /** Set i as a value. */
    ghost function Row(i: nat): seq<Line>
      requires i < lines.Length0
      reads lines
    {
      seq(lines.Length1, j requires 0 <= j < lines.Length1 reads lines => lines[i, j])
    }

    /** All sets as a value. */
    ghost function Sets(): seq<seq<Line>>
      reads lines
    {
      seq(lines.Length0, i requires 0 <= i < lines.Length0 reads lines => Row(i))
    }

    /** The cache's lines and counters as a value. */
    ghost function Abs(): Sim
      reads this, lines
    {
      Sim(Sets(), hits, misses, evictions)
    }

    /** The value of the cache has its shape, and set i of it is `Row(i)`. */
    lemma AbsShaped(i: nat)
      requires Shaped() && i < Pow2(s)
      ensures Shape(Abs(), s, E) && Sets()[i] == Row(i)
    {
    }

    /** Every line of set i is valid. */
    ghost predicate Full(i: nat)
      requires i < lines.Length0
      reads lines
    {
      forall j :: 0 <= j < lines.Length1 ==> lines[i, j].valid
    }

    /**
     * In a full set, the line with the largest age (the one `find_LRU` picks) is the
     * least recently used: every other line was touched after it.
     */
    lemma OldestIsLeastRecent(si: nat, victim: nat)
      requires Valid() && si < Pow2(s) && Full(si) && victim < E
      requires forall j :: 0 <= j < E ==> lines[si, j].timestamp <= lines[si, victim].timestamp
      ensures forall j :: 0 <= j < E && j != victim ==> lastUse[si][victim] < lastUse[si][j]
    {
      assert SetValid(si, hits + misses);
      forall j | 0 <= j < E && j != victim
        ensures lastUse[si][victim] < lastUse[si][j]
      {
        assert lines[si, j].valid && lines[si, victim].valid;
        assert lines[si, j].timestamp < lines[si, victim].timestamp;
      }
    }

    /** `init_cache`: 2^s sets of E invalid lines, and the three counters at zero. */
    constructor (s: nat, E: nat, b: nat)
      requires s < 31 && s + b < 32 && E >= 1
      ensures this.s == s && this.E == E && this.b == b
      ensures Valid() && fresh(lines)
      ensures forall i, j :: 0 <= i < Pow2(s) && 0 <= j < E ==> lines[i, j] == EmptyLine
      ensures hits == 0 && misses == 0 && evictions == 0
    {
      this.s, this.E, this.b := s, E, b;
      var n := Pow2(s);
      var a := new Line[n, E];
      var i := 0;
      while i < n
        invariant 0 <= i <= n
        invariant forall x, y :: 0 <= x < i && 0 <= y < E ==> a[x, y] == EmptyLine
      {
        var j := 0;
        while j < E
          invariant 0 <= j <= E
          invariant forall x, y :: 0 <= x < i && 0 <= y < E ==> a[x, y] == EmptyLine
          invariant forall y :: 0 <= y < j ==> a[i, y] == EmptyLine
        {
          a[i, j] := EmptyLine;
          j := j + 1;
        }
        i := i + 1;
      }
      lines := a;
      hits, misses, evictions := 0, 0, 0;
      lastUse := seq(n, _ => seq(E, _ => 0));
    }

    /** `get_index`: the lowest line of set si that is valid and holds the tag, or -1 if none does. */
    method GetIndex(tag: int, si: nat) returns (idx: int)
      requires si < lines.Length0 && lines.Length1 == E
      ensures -1 <= idx < E
      ensures idx == -1 <==> !Holds(si, tag)
      ensures idx >= 0 ==> lines[si, idx].valid && lines[si, idx].tag == tag
      ensures forall j :: 0 <= j < idx ==> !(lines[si, j].valid && lines[si, j].tag == tag)
      ensures idx == HitLine(Row(si), tag)
    {
      var i := 0;
      while i < E
        invariant 0 <= i <= E
        invariant forall j :: 0 <= j < i ==> !(lines[si, j].valid && lines[si, j].tag == tag)
      {
        if lines[si, i].tag == tag && lines[si, i].valid {
          ghost var r := HitLine(Row(si), tag);
          assert Row(si)[i] == lines[si, i];
          assert Row(si)[r] == lines[si, r];
          return i;
        }
        i := i + 1;
      }
      return -1;
    }

    /** `is_full`: the lowest invalid line of set si, or -1 when every line is valid. */
    method FirstInvalid(si: nat) returns (idx: int)
      requires si < lines.Length0 && lines.Length1 == E
      ensures -1 <= idx < E
      ensures idx == -1 <==> Full(si)
      ensures idx >= 0 ==> !lines[si, idx].valid
      ensures forall j :: 0 <= j < idx ==> lines[si, j].valid
      ensures idx == FreeLine(Row(si))
    {
      var i := 0;
      while i < E
        invariant 0 <= i <= E
        invariant forall j :: 0 <= j < i ==> lines[si, j].valid
      {
        if !lines[si, i].valid {
          ghost var r := FreeLine(Row(si));
          assert Row(si)[i] == lines[si, i];
          assert Row(si)[r] == lines[si, r];
          return i;
        }
        i := i + 1;
      }
      return -1;
    }

    /**
     * `find_LRU`: the lowest line of set si among those with the largest age
     * (line 0 when every age is 0).
     */
    method FindLRU(si: nat) returns (idx: nat)
      requires si < lines.Length0 && lines.Length1 == E && E >= 1
      ensures idx < E
      ensures forall j :: 0 <= j < E ==> lines[si, j].timestamp <= lines[si, idx].timestamp
      ensures forall j :: 0 <= j < idx ==> lines[si, j].timestamp < lines[si, idx].timestamp
      ensures idx == OldestLine(Row(si))
    {
      var max := 0;
      idx := 0;
      var i := 0;
      while i < E
        invariant 0 <= i <= E && idx < E
        invariant idx == 0 || idx < i
        invariant i == 0 ==> max == 0
        invariant i > 0 ==> max == lines[si, idx].timestamp
        invariant forall j :: 0 <= j < i ==> lines[si, j].timestamp <= max
        invariant forall j :: 0 <= j < idx ==> lines[si, j].timestamp < max
      {
        if lines[si, i].timestamp > max {
          max := lines[si, i].timestamp;
          idx := i;
        }
        i := i + 1;
      }
      ghost var r := OldestLine(Row(si));
      assert Row(si)[r] == lines[si, r] && Row(si)[idx] == lines[si, idx];
    }

    /**
     * `update`: line li of set si becomes valid with the tag and age 0; every other valid
     * line of the set ages by one; invalid lines and other sets are unchanged.
     */
    method Update(si: nat, li: nat, tag: int)
      requires si < lines.Length0 && li < lines.Length1 && lines.Length1 == E
      modifies lines
      ensures lines[si, li] == Line(true, tag, 0)
      ensures forall j :: 0 <= j < E && j != li ==> lines[si, j] == Aged(old(lines[si, j]))
      ensures forall i, j :: 0 <= i < lines.Length0 && i != si && 0 <= j < E ==> lines[i, j] == old(lines[i, j])
    {
      lines[si, li] := lines[si, li].(valid := true, tag := tag);
      var i := 0;
      while i < E
        invariant 0 <= i <= E
        invariant lines[si, li].valid && lines[si, li].tag == tag
        invariant forall j :: 0 <= j < E && j != li ==>
          lines[si, j] == if j < i then Aged(old(lines[si, j])) else old(lines[si, j])
        invariant forall x, j :: 0 <= x < lines.Length0 && x != si && 0 <= j < E ==> lines[x, j] == old(lines[x, j])
      {
        if lines[si, i].valid {
          lines[si, i] := lines[si, i].(timestamp := lines[si, i].timestamp + 1);
        }
        i := i + 1;
      }
      lines[si, li] := lines[si, li].(timestamp := 0);
    }

    /**
     * The branch structure of `update_cache`: which line of set si an access with the tag
     * touches. On a hit, the line holding the tag (`get_index`); on a miss into a set that is
     * not full, its lowest invalid line (`is_full`); on a miss into a full set, the line
     * `find_LRU` picks, which is the least recently used one.
     */
    method Placement(si: nat, tag: int) returns (outcome: Outcome, li: nat)
      requires Valid() && si < Pow2(s)
      ensures li < E
      ensures outcome == Hit <==> Holds(si, tag)
      ensures outcome == MissEviction <==> !Holds(si, tag) && Full(si)
      ensures outcome == Hit ==> lines[si, li].valid && lines[si, li].tag == tag
      ensures outcome == Miss ==> !lines[si, li].valid && forall j :: 0 <= j < li ==> lines[si, j].valid
      ensures outcome == MissEviction ==> forall j :: 0 <= j < E && j != li ==> lastUse[si][li] < lastUse[si][j]
      ensures forall j :: 0 <= j < E && j != li && lines[si, j].valid ==> lines[si, j].tag != tag
      ensures (outcome, li) == Choose(Row(si), tag)
    {
      var index := GetIndex(tag, si);
      if index != -1 {
        assert SetValid(si, hits + misses);
        return Hit, index;
      }
      var free := FirstInvalid(si);
      if free == -1 {
        li := FindLRU(si);
        OldestIsLeastRecent(si, li);
        outcome := MissEviction;
      } else {
        outcome, li := Miss, free;
      }
    }

    /**
     * `update` on line li of set si, as the access numbered `now`: it keeps every set
     * consistent, one access later.
     */
    method Touch(si: nat, li: nat, tag: int, ghost now: nat)
      requires Shaped() && si < Pow2(s) && li < E
      requires SetsValid(now)
      requires forall j :: 0 <= j < E && j != li && lines[si, j].valid ==> lines[si, j].tag != tag
      modifies this`lastUse, lines
      ensures Shaped()
      ensures SetsValid(now + 1)
      ensures lastUse == old(lastUse)[si := old(lastUse[si])[li := now]]
      ensures lines[si, li] == Line(true, tag, 0)
      ensures forall j :: 0 <= j < E && j != li ==> lines[si, j] == Aged(old(lines[si, j]))
      ensures forall i, j :: 0 <= i < Pow2(s) && i != si && 0 <= j < E ==> lines[i, j] == old(lines[i, j])
      ensures Sets() == old(Sets())[si := Touched(old(Sets())[si], li, tag)]
    {
      Update(si, li, tag);
      forall i | 0 <= i < Pow2(s)
        ensures Sets()[i] == old(Sets())[si := Touched(old(Sets())[si], li, tag)][i]
      {
        if i == si {
          forall j | 0 <= j < E
            ensures Sets()[i][j] == Touched(old(Sets())[si], li, tag)[j]
          {
          }
        } else {
          forall j | 0 <= j < E
            ensures Sets()[i][j] == old(Sets())[i][j]
          {
          }
        }
      }
      lastUse := lastUse[si := lastUse[si][li := now]];
      assert old(SetValid(si, now));
      assert SetValid(si, now + 1);
      ghost var clock := now + 1;
      forall i | 0 <= i < Pow2(s) && i != si
        ensures SetValid(i, clock)
      {
        assert forall j :: 0 <= j < E ==> lines[i, j] == old(lines[i, j]);
        assert old(SetValid(i, now));
      }
    }

    /**
     * `update_cache`: one access. A hit when a valid line of the address's set holds its tag;
     * otherwise a miss that fills the lowest invalid line, or, when the set is full, evicts
     * the least recently used line. Exactly one of hits and misses grows by one.
     */
    method Access(addr: Address) returns (outcome: Outcome, ghost line: nat)
      requires Valid()
      modifies this, lines
      ensures Valid()
      ensures line < E
      ensures outcome == Hit <==> old(Holds(SetFor(addr), TagFor(addr)))
      ensures outcome == MissEviction <==> !old(Holds(SetFor(addr), TagFor(addr))) && old(Full(SetFor(addr)))
      ensures hits == old(hits) + (if outcome == Hit then 1 else 0)
      ensures misses == old(misses) + (if outcome == Hit then 0 else 1)
      ensures evictions == old(evictions) + (if outcome == MissEviction then 1 else 0)
      ensures outcome == Hit ==> old(lines[SetFor(addr), line]).valid && old(lines[SetFor(addr), line]).tag == TagFor(addr)
      ensures outcome == Miss ==>
        !old(lines[SetFor(addr), line].valid) && forall j :: 0 <= j < line ==> old(lines[SetFor(addr), j].valid)
      ensures outcome == MissEviction ==>
        forall j :: 0 <= j < E && j != line ==> old(lastUse[SetFor(addr)][line]) < old(lastUse[SetFor(addr)][j])
      ensures lines[SetFor(addr), line] == Line(true, TagFor(addr), 0)
      ensures forall j :: 0 <= j < E && j != line ==> lines[SetFor(addr), j] == Aged(old(lines[SetFor(addr), j]))
      ensures forall i, j :: 0 <= i < Pow2(s) && i != SetFor(addr) && 0 <= j < E ==> lines[i, j] == old(lines[i, j])
      ensures Holds(SetFor(addr), TagFor(addr))
      ensures lastUse == old(lastUse)[SetFor(addr) := old(lastUse[SetFor(addr)])[line := old(hits + misses)]]
      ensures Shape(old(Abs()), s, E) && Abs() == SimAccess(old(Abs()), s, E, b, addr)
    {
      var tag := TagFor(addr);
      var si := SetFor(addr);
      ghost var now := hits + misses;
      ghost var before := Sets();
      AbsShaped(si);
      var li;
      outcome, li := Placement(si, tag);
      if outcome == Hit {
        hits := hits + 1;
      } else {
        misses := misses + 1;
        if outcome == MissEviction {
          evictions := evictions + 1;
        }
      }
      Touch(si, li, tag, now);
      line := li;
    }

    /** The dispatch of `parase_trace_file` for one record: L and S access once, M twice, others not at all. */
    method Step(r: Record) returns (outcomes: seq<Outcome>, ghost line: nat)
      requires Valid()
      modifies this, lines
      ensures Valid()
      ensures |outcomes| == Accesses(r)
      ensures hits + misses == old(hits + misses) + Accesses(r)
      ensures r.op == 'M' ==> outcomes[1] == Hit
      ensures Accesses(r) > 0 ==>
        && (outcomes[0] == Hit <==> old(Holds(SetFor(r.address), TagFor(r.address))))
        && (outcomes[0] == MissEviction <==>
              !old(Holds(SetFor(r.address), TagFor(r.address))) && old(Full(SetFor(r.address))))
        && hits == old(hits) + |outcomes| - (if outcomes[0] == Hit then 0 else 1)
        && misses == old(misses) + (if outcomes[0] == Hit then 0 else 1)
        && evictions == old(evictions) + (if outcomes[0] == MissEviction then 1 else 0)
        && Holds(SetFor(r.address), TagFor(r.address))
        && forall i, j :: 0 <= i < Pow2(s) && i != SetFor(r.address) && 0 <= j < E ==> lines[i, j] == old(lines[i, j])
      ensures Accesses(r) > 0 ==> line < E && lines[SetFor(r.address), line] == Line(true, TagFor(r.address), 0)
      ensures Accesses(r) == 1 ==>
        forall j :: 0 <= j < E && j != line ==> lines[SetFor(r.address), j] == Aged(old(lines[SetFor(r.address), j]))
      ensures r.op == 'M' ==>
        forall j :: 0 <= j < E && j != line ==> lines[SetFor(r.address), j] == Aged(Aged(old(lines[SetFor(r.address), j])))
      ensures Accesses(r) > 0 && outcomes[0] == Hit ==>
        old(lines[SetFor(r.address), line]).valid && old(lines[SetFor(r.address), line]).tag == TagFor(r.address)
      ensures Accesses(r) > 0 && outcomes[0] == Miss ==>
        && !old(lines[SetFor(r.address), line].valid)
        && forall j :: 0 <= j < line ==> old(lines[SetFor(r.address), j].valid)
      ensures Accesses(r) > 0 && outcomes[0] == MissEviction ==>
        forall j :: 0 <= j < E && j != line ==> old(lastUse[SetFor(r.address)][line]) < old(lastUse[SetFor(r.address)][j])
      ensures Accesses(r) == 0 ==>
        hits == old(hits) && misses == old(misses) && evictions == old(evictions) && unchanged(lines)
      ensures Shape(old(Abs()), s, E) && Abs() == SimStep(old(Abs()), s, E, b, r)
    {
      match r.op
      case 'L' =>
        var o;
        o, line := Access(r.address);
        outcomes := [o];
      case 'S' =>
        var o;
        o, line := Access(r.address);
        outcomes := [o];
      case 'M' =>
        var o1, l1 := Access(r.address);
        var o2, l2 := Access(r.address);
        // The tags of a set are distinct, so the second access hits the line the first one filled.
        assert SetValid(SetFor(r.address), hits + misses);
        assert l2 == l1;
        outcomes, line := [o1, o2], l2;
      case _ =>
        outcomes, line := [], 0;
    }

    /** `parase_trace_file` over a whole trace. */
    method Run(trace: seq<Record>)
      requires Valid()
      modifies this, lines
      ensures Valid()
      ensures hits + misses == old(hits + misses) + TraceAccesses(trace)
      ensures evictions <= misses
      ensures Shape(old(Abs()), s, E) && Abs() == SimRun(old(Abs()), s, E, b, trace)
    {
      var i := 0;
      while i < |trace|
        invariant 0 <= i <= |trace|
        invariant Valid()
        invariant hits + misses == old(hits + misses) + TraceAccesses(trace[..i])
        invariant Shape(old(Abs()), s, E) && Abs() == SimRun(old(Abs()), s, E, b, trace[..i])
      {
        var _, _ := Step(trace[i]);
        assert trace[..i + 1][..i] == trace[..i];
        i := i + 1;
      }
      assert trace[..i] == trace;
    }
  }
}
