/**
 Whole runs of a machine with several harts, each with its own translation
 buffer, compared with the same run on a machine without buffers.
*/
module MmuRuns {
  import opened Memory
  import opened Sv32
  import opened Tlb
  import opened Transparency

  /** What can happen to the memory path. */
  datatype Event =
    | Translate(hart: nat, virt: nat, wr: bool, fetch: bool)
    | Store(addr: nat, bytes: seq<bv8>, protected: bool)
    | Configure(hart: nat, csr: Csr)
    | Sfence(hart: nat, fence: Fence)
    | Resize(hart: nat, capacity: nat)
    | Remap(edits: seq<(nat, seq<bv8>)>, roots: Roots)

  datatype Hart = Hart(csr: Csr, tlb: seq<Entry>, capacity: nat)

  datatype Machine = Machine(mem: Mem, harts: seq<Hart>)

  /** The same machine without buffers. */
  datatype Flat = Flat(mem: Mem, csrs: seq<Csr>)

  function Erase(s: Machine): Flat { Flat(s.mem, seq(|s.harts|, i requires 0 <= i < |s.harts| => s.harts[i].csr)) }

  /** A batch of page-table edits. */
  function Edit(m: Mem, edits: seq<(nat, seq<bv8>)>): Mem
    decreases |edits|
  {
    if edits == [] then m else Edit(WriteBytes(m, edits[0].0, edits[0].1, true), edits[1..])
  }

  /** A hart that executed SFENCE.VMA in some form. */
  function Fenced(h: Hart, f: Fence): Hart { h.(tlb := Flush(h.tlb, f)) }

  function FencedAll(hs: seq<Hart>): (r: seq<Hart>)
    ensures |r| == |hs|
  {
    seq(|hs|, i requires 0 <= i < |hs| => Fenced(hs[i], All))
  }

  predicate Sound(s: Machine) {
    forall i :: 0 <= i < |s.harts| ==> |s.harts[i].tlb| <= s.harts[i].capacity && 0 < s.harts[i].capacity
  }

  /** One event on the machine with buffers; `Remap` is the edits followed by a full fence on every hart. */
  function Step(s: Machine, ev: Event): (Machine, seq<Translation>)
    requires Sound(s)
  {
    match ev
    case Translate(i, virt, wr, fetch) =>
      if i < |s.harts| then
        var h := s.harts[i];
        var r := Convert(s.mem, h.tlb, h.capacity, h.csr, virt, wr, fetch, true);
        (Machine(r.mem, s.harts[i := h.(tlb := r.tlb)]), [r.result])
      else (s, [])
    case Store(addr, bytes, protected) => (s.(mem := WriteBytes(s.mem, addr, bytes, protected)), [])
    case Configure(i, csr) => (if i < |s.harts| then s.(harts := s.harts[i := s.harts[i].(csr := csr)]) else s, [])
    case Sfence(i, f) => (if i < |s.harts| then s.(harts := s.harts[i := Fenced(s.harts[i], f)]) else s, [])
    case Resize(i, n) =>
      (if i < |s.harts| && 0 < n then s.(harts := s.harts[i := s.harts[i].(tlb := [], capacity := n)]) else s, [])
    case Remap(edits, _) => (Machine(Edit(s.mem, edits), FencedAll(s.harts)), [])
  }

  /** The same event without buffers. */
  function FlatStep(s: Flat, ev: Event): (Flat, seq<Translation>) {
    match ev
    case Translate(i, virt, wr, fetch) =>
      if i < |s.csrs| then
        var r := Reference(s.mem, s.csrs[i], virt, wr, fetch, true);
        (s.(mem := r.1), [r.0])
      else (s, [])
    case Store(addr, bytes, protected) => (s.(mem := WriteBytes(s.mem, addr, bytes, protected)), [])
    case Configure(i, csr) => (if i < |s.csrs| then s.(csrs := s.csrs[i := csr]) else s, [])
    case Sfence(_, _) => (s, [])
    case Resize(_, _) => (s, [])
    case Remap(edits, _) => (s.(mem := Edit(s.mem, edits)), [])
  }

  function NextRoots(roots: Roots, ev: Event): Roots { if ev.Remap? then ev.roots else roots }

  /** The bytes of the word at `a` are not among the `n` bytes written at `addr`. */
  predicate Apart(a: nat, addr: nat, n: nat) {
    !Covers(addr, n, a) && !Covers(addr, n, a + 1) && !Covers(addr, n, a + 2) && !Covers(addr, n, a + 3)
  }

  predicate Covers(addr: nat, n: nat, x: nat) { Canon(addr) <= Canon(x) < Canon(addr) + n }

  /** A write that touches no entry any walk consults. */
  ghost predicate LeavesTables(m: Mem, roots: Roots, addr: nat, n: nat) {
    forall asid: nat, virt: nat {:trigger FindLeaf(m, roots[asid], virt)} :: asid in roots ==>
      var addr1 := Level1Addr(roots[asid], virt);
      && Apart(addr1, addr, n)
      && (IsValid(PteAt(m, addr1)) && !IsLeaf(PteAt(m, addr1)) ==> Apart(Level0Addr(PteAt(m, addr1), virt), addr, n))
  }

  /**
   What software owes the buffers: between fences it leaves the page tables alone and uses one
   root per identifier; when it edits them, global translations end up shared by all roots.
  */
  ghost predicate Owed(s: Flat, roots: Roots, ev: Event) {
    match ev
    case Translate(_, _, _, _) => true
    case Store(addr, bytes, _) => LeavesTables(s.mem, roots, addr, |bytes|)
    case Configure(_, csr) => Configured(csr, roots)
    case Sfence(_, _) => true
    case Resize(_, _) => true
    case Remap(edits, next) =>
      && SharedGlobals(Edit(s.mem, edits), next)
      && forall i :: 0 <= i < |s.csrs| ==> Configured(s.csrs[i], next)
  }

  ghost predicate Behaved(s: Flat, roots: Roots, evs: seq<Event>)
    decreases |evs|
  {
    evs == [] || (Owed(s, roots, evs[0]) && Behaved(FlatStep(s, evs[0]).0, NextRoots(roots, evs[0]), evs[1..]))
  }

  function FlatRun(s: Flat, evs: seq<Event>): (Flat, seq<Translation>)
    decreases |evs|
  {
    if evs == [] then (s, [])
    else
      var (s1, out) := FlatStep(s, evs[0]);
      var (s2, rest) := FlatRun(s1, evs[1..]);
      (s2, out + rest)
  }

  function Run(s: Machine, evs: seq<Event>): (r: (Machine, seq<Translation>))
    requires Sound(s)
    ensures Sound(r.0)
    decreases |evs|
  {
    if evs == [] then (s, [])
    else
      StepSound(s, evs[0]);
      var (s1, out) := Step(s, evs[0]);
      var (s2, rest) := Run(s1, evs[1..]);
      (s2, out + rest)
  }

  /** A buffer never outgrows its capacity. */
  lemma StepSound(s: Machine, ev: Event)
    requires Sound(s)
    ensures Sound(Step(s, ev).0)
  {
    match ev
    case Translate(i, virt, wr, fetch) =>
      if i < |s.harts| {
        var h := s.harts[i];
        RoomKept(s.mem, h.tlb, h.capacity, h.csr, virt, wr, fetch, true);
        hide Convert;
      }
    case Sfence(i, f) =>
      if i < |s.harts| {
        FlushFits(s.harts[i].tlb, f);
      }
    case Remap(edits, next) =>
      forall i | 0 <= i < |s.harts| ensures |FencedAll(s.harts)[i].tlb| <= s.harts[i].capacity {
        FlushFits(s.harts[i].tlb, All);
      }
    case _ =>
  }

  lemma RoomKept(m: Mem, tlb: seq<Entry>, capacity: nat, c: Csr, virt: nat, wr: bool, fetch: bool, noisy: bool)
    requires |tlb| <= capacity && 0 < capacity
    ensures |Convert(m, tlb, capacity, c, virt, wr, fetch, noisy).tlb| <= capacity
  {
    hide Pagewalk, AccessAllowed, IsValid, Misaligned, UpdateNeeded, MakePhys;
    var k := FirstMatch(tlb, c.asid, virt);
    if k < |tlb| {
      RemoveShrinks(ToFront(tlb, k), c.asid, virt);
    }
  }

  // ---------- the invariant ----------

  ghost predicate HartGood(m: Mem, roots: Roots, h: Hart) {
    Coherent(m, roots, h.tlb) && Configured(h.csr, roots)
  }

  ghost predicate Good(s: Machine, roots: Roots) {
    && Sound(s)
    && WellFormed(s.mem)
    && SharedGlobals(s.mem, roots)
    && forall i :: 0 <= i < |s.harts| ==> HartGood(s.mem, roots, s.harts[i])
  }

  // ---------- stores elsewhere ----------

  lemma ApartKeepsWord(m: Mem, addr: nat, bs: seq<bv8>, protected: bool, a: nat)
    requires Apart(a, addr, |bs|)
    ensures PteAt(WriteBytes(m, addr, bs, protected), a) == PteAt(m, a)
  {
    hide Join32, WriteBytes, ByteAt, Canon;
    WriteByteAt(m, addr, bs, protected, a);
    WriteByteAt(m, addr, bs, protected, a + 1);
    WriteByteAt(m, addr, bs, protected, a + 2);
    WriteByteAt(m, addr, bs, protected, a + 3);
  }

  /** A store outside the page tables leaves every walk as it was. */
  lemma StoreKeepsWalks(m: Mem, roots: Roots, addr: nat, bs: seq<bv8>, protected: bool, asid: nat, virt: nat)
    requires LeavesTables(m, roots, addr, |bs|) && asid in roots
    ensures FindLeaf(WriteBytes(m, addr, bs, protected), roots[asid], virt) == FindLeaf(m, roots[asid], virt)
  {
    hide PteAt, Ppn, IsLeaf, IsValid, Misaligned, G, Apart, WriteBytes;
    var trigger := FindLeaf(m, roots[asid], virt);
    var addr1 := Level1Addr(roots[asid], virt);
    ApartKeepsWord(m, addr, bs, protected, addr1);
    if IsValid(PteAt(m, addr1)) && !IsLeaf(PteAt(m, addr1)) {
      ApartKeepsWord(m, addr, bs, protected, Level0Addr(PteAt(m, addr1), virt));
    }
  }

  lemma StoreKeepsGood(s: Machine, roots: Roots, addr: nat, bs: seq<bv8>, protected: bool)
    requires Good(s, roots) && LeavesTables(s.mem, roots, addr, |bs|)
    ensures Good(s.(mem := WriteBytes(s.mem, addr, bs, protected)), roots)
  {
    hide FindLeaf, LeavesTables, WellFormed, SameButAD, ADWithin;
    var m, n := s.mem, WriteBytes(s.mem, addr, bs, protected);
    WriteKeepsShape(m, addr, bs, protected);
    WriteByteAt(m, addr, bs, protected, 0);
    hide WriteBytes;
    forall asid: nat, virt: nat | asid in roots
      ensures FindLeaf(n, roots[asid], virt) == FindLeaf(m, roots[asid], virt)
    {
      StoreKeepsWalks(m, roots, addr, bs, protected, asid, virt);
    }
    forall i, e | 0 <= i < |s.harts| && e in s.harts[i].tlb
      ensures EntryCoherent(n, roots, e)
    {
      assert HartGood(m, roots, s.harts[i]);
      assert EntryCoherent(m, roots, e);
    }
  }

  // ---------- fences and edits ----------

  /** A fence only removes entries, so a coherent buffer stays coherent. */
  lemma FenceKeepsCoherence(m: Mem, roots: Roots, tlb: seq<Entry>, f: Fence)
    requires Coherent(m, roots, tlb)
    ensures Coherent(m, roots, Flush(tlb, f))
  {}

  /** The full fence makes any buffer coherent with any page tables. */
  lemma {:induction false} FullFenceRestores(m: Mem, roots: Roots, tlb: seq<Entry>)
    ensures Flush(tlb, All) == [] && Coherent(m, roots, Flush(tlb, All))
  {
    if tlb != [] {
      FullFenceRestores(m, roots, tlb[1..]);
    }
  }

  lemma {:induction false} EditKeepsShape(m: Mem, edits: seq<(nat, seq<bv8>)>)
    requires WellFormed(m)
    ensures WellFormed(Edit(m, edits))
    decreases |edits|
  {
    hide WellFormed, WriteBytes;
    if edits != [] {
      WriteKeepsShape(m, edits[0].0, edits[0].1, true);
      EditKeepsShape(WriteBytes(m, edits[0].0, edits[0].1, true), edits[1..]);
    }
  }

  // ---------- the theorem ----------

  lemma TranslateStep(s: Machine, roots: Roots, i: nat, virt: nat, wr: bool, fetch: bool)
    requires Good(s, roots) && i < |s.harts|
    ensures var h := s.harts[i];
            var r := Convert(s.mem, h.tlb, h.capacity, h.csr, virt, wr, fetch, true);
            && Good(Machine(r.mem, s.harts[i := h.(tlb := r.tlb)]), roots)
            && (r.result, r.mem) == Reference(s.mem, h.csr, virt, wr, fetch, true)
  {
    hide Convert, Pagewalk, SharedGlobals, Coherent, WellFormed, Grown;
    var h := s.harts[i];
    var r := Convert(s.mem, h.tlb, h.capacity, h.csr, virt, wr, fetch, true);
    assert HartGood(s.mem, roots, h);
    TranslationTransparent(s.mem, roots, h.tlb, h.capacity, h.csr, virt, wr, fetch);
    if UseSv32(h.csr, fetch) {
      WalkKeepsTables(s.mem, roots, h.csr, virt, wr, fetch);
      PagewalkGrows(s.mem, h.csr, virt, wr, fetch);
      forall j | 0 <= j < |s.harts|
        ensures Coherent(r.mem, roots, s.harts[j].tlb)
      {
        assert HartGood(s.mem, roots, s.harts[j]);
        GrowthKeepsCoherence(s.mem, r.mem, roots, s.harts[j].tlb);
      }
    }
    var s' := Machine(r.mem, s.harts[i := h.(tlb := r.tlb)]);
    forall j | 0 <= j < |s'.harts|
      ensures HartGood(r.mem, roots, s'.harts[j])
    {
      assert HartGood(s.mem, roots, s.harts[j]);
    }
  }

  /** Every event keeps the invariant and has the same effect with and without buffers. */
  lemma StepTransparent(s: Machine, roots: Roots, ev: Event)
    requires Good(s, roots) && Owed(Erase(s), roots, ev)
    ensures var (s', out) := Step(s, ev);
            Good(s', NextRoots(roots, ev)) && FlatStep(Erase(s), ev) == (Erase(s'), out)
  {
    hide Convert, Pagewalk, SharedGlobals, EntryCoherent, WellFormed, WriteBytes, LeavesTables;
    StepSound(s, ev);
    var s' := Step(s, ev).0;
    match ev
    case Translate(i, virt, wr, fetch) =>
      if i < |s.harts| {
        TranslateStep(s, roots, i, virt, wr, fetch);
      }
      assert Erase(s').csrs == Erase(s).csrs;
    case Store(addr, bytes, protected) =>
      StoreKeepsGood(s, roots, addr, bytes, protected);
    case Configure(i, csr) =>
      if i < |s.harts| {
        assert Erase(s').csrs == Erase(s).csrs[i := csr];
        assert HartGood(s.mem, roots, s.harts[i]);
      }
    case Sfence(i, f) =>
      if i < |s.harts| {
        assert HartGood(s.mem, roots, s.harts[i]);
        FenceKeepsCoherence(s.mem, roots, s.harts[i].tlb, f);
      }
      assert Erase(s').csrs == Erase(s).csrs;
    case Resize(i, n) =>
      if i < |s.harts| {
        assert HartGood(s.mem, roots, s.harts[i]);
      }
      assert Erase(s').csrs == Erase(s).csrs;
    case Remap(edits, next) =>
      EditKeepsShape(s.mem, edits);
      forall i | 0 <= i < |s.harts|
        ensures HartGood(s'.mem, next, s'.harts[i])
      {
        FullFenceRestores(s'.mem, next, s.harts[i].tlb);
        assert Configured(Erase(s).csrs[i], next);
      }
      assert Erase(s').csrs == Erase(s).csrs;
  }

  /**
   Transparency over whole runs: the same translations and faults in the same order, and the
   same memory and control registers at the end, with the invariant still in place.
  */
  lemma {:induction false} RunTransparent(s: Machine, roots: Roots, evs: seq<Event>)
    requires Good(s, roots) && Behaved(Erase(s), roots, evs)
    ensures var (s', out) := Run(s, evs);
            FlatRun(Erase(s), evs) == (Erase(s'), out)
    decreases |evs|
  {
    assert Sound(s);
    hide Step, FlatStep, Good, Owed, Erase;
    if evs != [] {
      StepTransparent(s, roots, evs[0]);
      RunTransparent(Step(s, evs[0]).0, NextRoots(roots, evs[0]), evs[1..]);
    }
  }
}
