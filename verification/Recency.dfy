/**
 Why the order of the buffer is the order of use.  Every entry is stamped with
 the time of its latest use; the stamps are not part of the buffer, they only
 observe it.
*/
module Recency {
  import opened Options
  import opened Memory
  import opened Sv32
  import opened Tlb

  datatype Op =
    | Lookup(asid: nat, virt: nat)
    | Insert(entry: Entry)
    | Drop(asid: nat, virt: nat)
    | Sfence(fence: Fence)
    | Resize(size: nat)

  datatype Stamped = Stamped(entry: Entry, last: nat)

  function Plain(s: seq<Stamped>): (r: seq<Entry>)
    ensures |r| == |s|
  {
    seq(|s|, i requires 0 <= i < |s| => s[i].entry)
  }

  /** One operation of the buffer. */
  function Apply(s: seq<Entry>, capacity: nat, op: Op): seq<Entry>
    requires |s| <= capacity && 0 < capacity
  {
    match op
    case Lookup(asid, virt) => var k := FirstMatch(s, asid, virt); if k < |s| then ToFront(s, k) else s
    case Insert(e) => Add(s, capacity, e)
    case Drop(asid, virt) => Remove(s, asid, virt)
    case Sfence(f) => Flush(s, f)
    case Resize(n) => if n == 0 then s else []
  }

  function Survivors(s: seq<Stamped>, f: Fence): seq<Stamped> {
    if s == [] then [] else (if Hits(f, s[0].entry) then [] else [s[0]]) + Survivors(s[1..], f)
  }

  /** The same operation at time `now`; a lookup that hits and an insertion are uses. */
  function Observe(s: seq<Stamped>, capacity: nat, op: Op, now: nat): seq<Stamped>
    requires |s| <= capacity && 0 < capacity
  {
    var k := if op.Lookup? || op.Drop? then FirstMatch(Plain(s), op.asid, op.virt) else 0;
    match op
    case Lookup(_, _) => if k < |s| then [Stamped(s[k].entry, now)] + Without(s, k) else s
    case Insert(e) => Add(s, capacity, Stamped(e, now))
    case Drop(_, _) => if k < |s| then Without(s, k) else s
    case Sfence(f) => Survivors(s, f)
    case Resize(n) => if n == 0 then s else []
  }

  ghost predicate Ordered(s: seq<Stamped>, now: nat) {
    && (forall i :: 0 <= i < |s| ==> s[i].last < now)
    && (forall i, j :: 0 <= i < j < |s| ==> s[j].last < s[i].last)
  }

  lemma {:induction false} SurvivorsPlain(s: seq<Stamped>, f: Fence)
    ensures Plain(Survivors(s, f)) == Flush(Plain(s), f)
  {
    hide Hits;
    if s != [] {
      SurvivorsPlain(s[1..], f);
      assert Plain(s)[1..] == Plain(s[1..]);
      var rest := Survivors(s[1..], f);
      if Hits(f, s[0].entry) {
        assert Survivors(s, f) == rest;
      } else {
        assert Survivors(s, f) == [s[0]] + rest;
        assert Plain([s[0]] + rest) == [s[0].entry] + Plain(rest);
      }
    }
  }

  /** A survivor keeps its stamp, and survivors keep their order. */
  lemma {:induction false} SurvivorsOrdered(s: seq<Stamped>, f: Fence, now: nat)
    requires Ordered(s, now)
    ensures Ordered(Survivors(s, f), now)
    ensures forall x :: x in Survivors(s, f) ==> x in s
  {
    hide Hits, Ordered;
    if s == [] {
      EmptyOrdered(now);
    } else {
      TailOrdered(s, now);
      SurvivorsOrdered(s[1..], f, now);
      var rest := Survivors(s[1..], f);
      assert [] + rest == rest;
      if !Hits(f, s[0].entry) {
        ConsOrdered(s, rest, now);
      }
    }
  }

  lemma TailOrdered(s: seq<Stamped>, now: nat)
    requires s != [] && Ordered(s, now)
    ensures Ordered(s[1..], now)
  {}

  lemma ConsOrdered(s: seq<Stamped>, rest: seq<Stamped>, now: nat)
    requires s != [] && Ordered(s, now) && Ordered(rest, now) && forall x :: x in rest ==> x in s[1..]
    ensures Ordered([s[0]] + rest, now)
  {
    forall i | 0 <= i < |rest| ensures rest[i].last < s[0].last {
      assert rest[i] in s[1..];
    }
  }

  /** Stamping only observes. */
  lemma ObserveApplies(s: seq<Stamped>, capacity: nat, op: Op, now: nat)
    requires |s| <= capacity && 0 < capacity
    ensures Plain(Observe(s, capacity, op, now)) == Apply(Plain(s), capacity, op)
  {
    hide FirstMatch, Flush, Survivors;
    match op
    case Lookup(asid, virt) =>
      var k := FirstMatch(Plain(s), asid, virt);
      if k < |s| {
        PlainWithout(s, k);
        PlainCons(Stamped(s[k].entry, now), Without(s, k));
      }
    case Insert(e) =>
      PlainCons(Stamped(e, now), if |s| < capacity then s else s[..|s| - 1]);
    case Drop(asid, virt) =>
      var k := FirstMatch(Plain(s), asid, virt);
      if k < |s| {
        PlainWithout(s, k);
      }
    case Sfence(f) =>
      SurvivorsPlain(s, f);
    case Resize(n) =>
      assert Plain([]) == [];
  }

  lemma PlainCons(x: Stamped, s: seq<Stamped>)
    ensures Plain([x] + s) == [x.entry] + Plain(s)
  {}

  lemma PlainWithout(s: seq<Stamped>, k: nat)
    requires k < |s|
    ensures Plain(Without(s, k)) == Without(Plain(s), k)
  {}

  /** The order of the buffer is the order of latest use, most recent first. */
  lemma ObserveOrdered(s: seq<Stamped>, capacity: nat, op: Op, now: nat)
    requires |s| <= capacity && 0 < capacity && Ordered(s, now)
    ensures Ordered(Observe(s, capacity, op, now), now + 1)
  {
    hide FirstMatch, Flush, Survivors, Ordered, Without;
    match op
    case Lookup(asid, virt) =>
      var k := FirstMatch(Plain(s), asid, virt);
      if k < |s| {
        WithoutOrdered(s, k, now);
        FrontOrdered(s[k].entry, Without(s, k), now);
      } else {
        LaterOrdered(s, now);
      }
    case Insert(e) =>
      PrefixOrdered(s, now);
      FrontOrdered(e, if |s| < capacity then s else s[..|s| - 1], now);
    case Drop(asid, virt) =>
      var k := FirstMatch(Plain(s), asid, virt);
      LaterOrdered(s, now);
      if k < |s| {
        WithoutOrdered(s, k, now + 1);
      }
    case Sfence(f) =>
      LaterOrdered(s, now);
      SurvivorsOrdered(s, f, now + 1);
    case Resize(n) =>
      LaterOrdered(s, now);
      EmptyOrdered(now + 1);
  }

  lemma FrontOrdered(e: Entry, s: seq<Stamped>, now: nat)
    requires Ordered(s, now)
    ensures Ordered([Stamped(e, now)] + s, now + 1)
  {}

  lemma WithoutOrdered(s: seq<Stamped>, k: nat, now: nat)
    requires k < |s| && Ordered(s, now)
    ensures Ordered(Without(s, k), now)
  {}

  lemma PrefixOrdered(s: seq<Stamped>, now: nat)
    requires Ordered(s, now)
    ensures |s| > 0 ==> Ordered(s[..|s| - 1], now)
  {}

  lemma LaterOrdered(s: seq<Stamped>, now: nat)
    requires Ordered(s, now)
    ensures Ordered(s, now + 1)
  {}

  lemma ApplyFits(s: seq<Entry>, capacity: nat, op: Op)
    requires |s| <= capacity && 0 < capacity
    ensures |Apply(s, capacity, op)| <= capacity
  {
    hide Flush;
    if op.Sfence? {
      FlushFits(s, op.fence);
    }
  }

  /** A buffer has the size of the latest resizing; size 0 is refused. */
  function Capacity(size: nat, ops: seq<Op>): (r: nat)
    ensures 0 < size ==> 0 < r
  {
    if ops == [] then size
    else
      match ops[|ops| - 1]
      case Resize(n) => if n == 0 then Capacity(size, ops[..|ops| - 1]) else n
      case _ => Capacity(size, ops[..|ops| - 1])
  }

  /** All operations of a run, the latest last. */
  function Run(size: nat, ops: seq<Op>): (s: seq<Stamped>)
    requires 0 < size
    ensures |s| <= Capacity(size, ops)
  {
    if ops == [] then []
    else
      var front, op := ops[..|ops| - 1], ops[|ops| - 1];
      var s := Run(size, front);
      ObserveApplies(s, Capacity(size, front), op, |ops| - 1);
      ApplyFits(Plain(s), Capacity(size, front), op);
      Observe(s, Capacity(size, front), op, |ops| - 1)
  }

  /** In every reachable buffer the order is the order of latest use. */
  lemma {:induction false} RunOrdered(size: nat, ops: seq<Op>)
    requires 0 < size
    ensures Ordered(Run(size, ops), |ops|)
  {
    hide Observe, Ordered, Capacity;
    if ops == [] {
      EmptyOrdered(0);
    } else {
      var front := ops[..|ops| - 1];
      RunOrdered(size, front);
      ObserveOrdered(Run(size, front), Capacity(size, front), ops[|ops| - 1], |ops| - 1);
    }
  }

  lemma EmptyOrdered(now: nat)
    ensures Ordered([], now)
  {}

  /** In every run, a full buffer gives up exactly the entry whose latest use is the oldest, and nothing else does. */
  lemma EvictsLeastRecentlyUsed(size: nat, ops: seq<Op>, e: Entry, x: Stamped)
    requires 0 < size && x in Run(size, ops)
    ensures var s, capacity := Run(size, ops), Capacity(size, ops);
            var t := Observe(s, capacity, Insert(e), |ops|);
            x !in t <==> |s| == capacity && forall y :: y in s && y != x ==> x.last < y.last
  {
    hide Run, Ordered, Capacity;
    RunOrdered(size, ops);
    var s := Run(size, ops);
    var i :| 0 <= i < |s| && s[i] == x;
    Oldest(s, |ops|, i);
    Evicted(s, Capacity(size, ops), e, |ops|, i);
  }

  /** In order of use, only the last is older than all others. */
  lemma Oldest(s: seq<Stamped>, now: nat, i: nat)
    requires Ordered(s, now) && i < |s|
    ensures i == |s| - 1 <==> forall y :: y in s && y != s[i] ==> s[i].last < y.last
  {
    if i < |s| - 1 {
      assert s[|s| - 1] in s;
    }
  }

  lemma Evicted(s: seq<Stamped>, capacity: nat, e: Entry, now: nat, i: nat)
    requires Ordered(s, now) && i < |s| <= capacity
    ensures s[i] !in Add(s, capacity, Stamped(e, now)) <==> |s| == capacity && i == |s| - 1
  {
    var t := Add(s, capacity, Stamped(e, now));
    if |s| < capacity || i < |s| - 1 {
      assert t[i + 1] == s[i];
    }
  }

  // ---------- the operations of a translation ----------

  function ApplyAll(s: seq<Entry>, capacity: nat, ops: seq<Op>): seq<Entry>
    requires |s| <= capacity && 0 < capacity && forall i :: 0 <= i < |ops| ==> !ops[i].Resize?
    decreases |ops|
  {
    if ops == [] then s
    else
      ApplyFits(s, capacity, ops[0]);
      ApplyAll(Apply(s, capacity, ops[0]), capacity, ops[1..])
  }

  /** An entry that is used as it is: refused, or with nothing to record. */
  predicate Settles(e: Entry, c: Csr, wr: bool, fetch: bool) {
    !IsValid(e.pte) || !AccessAllowed(c, e.pte, wr, fetch) || (e.mega && Misaligned(e.pte)) || !UpdateNeeded(e.pte, wr)
  }

  /**
   The operations a translation performs: a lookup, and unless that settles it
   the removal of a lagging entry and the insertion of the one the walk found.
  */
  function UseOf(m: Mem, tlb: seq<Entry>, c: Csr, virt: nat, wr: bool, fetch: bool, noisy: bool): seq<Op> {
    var k := FirstMatch(tlb, c.asid, virt);
    if !UseSv32(c, fetch) then []
    else if k == |tlb| then [Lookup(c.asid, virt)] + Filling(m, c, virt, wr, fetch, noisy)
    else if Settles(tlb[k], c, wr, fetch) then [Lookup(c.asid, virt)] + []
    else [Lookup(c.asid, virt)] + ([Drop(c.asid, virt)] + Filling(m, c, virt, wr, fetch, noisy))
  }

  /** The insertion a walk ends with, if it does not fault. */
  function Filling(m: Mem, c: Csr, virt: nat, wr: bool, fetch: bool, noisy: bool): (ops: seq<Op>)
    ensures forall i :: 0 <= i < |ops| ==> !ops[i].Resize?
  {
    var w := Pagewalk(m, c, virt, wr, fetch, noisy);
    if w.leaf.Some? then [Insert(EntryOf(w.leaf.value, c.asid, virt))] + [] else []
  }

  lemma WalkFills(m: Mem, s: seq<Entry>, capacity: nat, c: Csr, virt: nat, wr: bool, fetch: bool, noisy: bool)
    requires |s| <= capacity && 0 < capacity
    ensures WalkAndFill(m, s, capacity, c, virt, wr, fetch, noisy).tlb ==
            ApplyAll(s, capacity, Filling(m, c, virt, wr, fetch, noisy))
  {
    hide Pagewalk, EntryOf, ApplyAll;
    var w := Pagewalk(m, c, virt, wr, fetch, noisy);
    if w.leaf.Some? {
      var op := Insert(EntryOf(w.leaf.value, c.asid, virt));
      ApplyTwo(s, capacity, op, []);
      ApplyNone(Apply(s, capacity, op), capacity);
    } else {
      ApplyNone(s, capacity);
    }
  }

  lemma ApplyNone(s: seq<Entry>, capacity: nat)
    requires |s| <= capacity && 0 < capacity
    ensures ApplyAll(s, capacity, []) == s
  {}

  /** So the order of the buffer over a run of translations is the order of their latest use. */
  lemma ConvertIsUse(m: Mem, tlb: seq<Entry>, capacity: nat, c: Csr, virt: nat, wr: bool, fetch: bool, noisy: bool)
    requires |tlb| <= capacity && 0 < capacity
    ensures Convert(m, tlb, capacity, c, virt, wr, fetch, noisy).tlb ==
            ApplyAll(tlb, capacity, UseOf(m, tlb, c, virt, wr, fetch, noisy))
  {
    hide Pagewalk, FirstMatch, Remove, UseSv32, IsValid, AccessAllowed, Misaligned, UpdateNeeded, MakePhys, EntryOf,
         ApplyAll, Filling, WalkAndFill, PageFault;
    var look, drop := Lookup(c.asid, virt), Drop(c.asid, virt);
    var walk := Filling(m, c, virt, wr, fetch, noisy);
    var used := Apply(tlb, capacity, look);
    ApplyNone(tlb, capacity);
    ApplyTwo(tlb, capacity, look, []);
    ApplyTwo(tlb, capacity, look, walk);
    ApplyTwo(tlb, capacity, look, [drop] + walk);
    ApplyTwo(used, capacity, drop, walk);
    ApplyNone(used, capacity);
    WalkFills(m, tlb, capacity, c, virt, wr, fetch, noisy);
    WalkFills(m, Apply(used, capacity, drop), capacity, c, virt, wr, fetch, noisy);
  }

  lemma ApplyTwo(s: seq<Entry>, capacity: nat, op: Op, rest: seq<Op>)
    requires |s| <= capacity && 0 < capacity && !op.Resize? && forall i :: 0 <= i < |rest| ==> !rest[i].Resize?
    ensures |Apply(s, capacity, op)| <= capacity
    ensures ApplyAll(s, capacity, [op] + rest) == ApplyAll(Apply(s, capacity, op), capacity, rest)
    ensures ApplyAll(s, capacity, []) == s
  {
    hide Apply;
    ApplyFits(s, capacity, op);
    assert ([op] + rest)[1..] == rest;
  }
}
