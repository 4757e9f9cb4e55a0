/**
 Kernels often copy a global mapping into every root table instead of sharing
 its leaf entry.  A buffer then still gives every translation and every fault
 the walks would give; memory may differ from that of a machine without
 buffers, but only in accessed and dirty bits.
*/
module CopiedGlobals {
  import opened Options
  import opened Memory
  import opened Sv32
  import opened Tlb
  import opened Transparency
  import opened MmuRuns

  /** A global translation exists in every root, with the same target and permissions. */
  ghost predicate CommonGlobals(m: Mem, roots: Roots) {
    forall a: nat, b: nat, virt: nat {:trigger FindLeaf(m, roots[a], virt), roots[b]} ::
      a in roots && b in roots && FindLeaf(m, roots[a], virt).Some? && FindLeaf(m, roots[a], virt).value.global ==>
        SameTarget(FindLeaf(m, roots[b], virt), FindLeaf(m, roots[a], virt).value)
  }

  /** The leaf found has the page size, scope, target and permissions of `l`. */
  predicate SameTarget(f: Option<Leaf>, l: Leaf) {
    f.Some? && f.value.mega == l.mega && f.value.global == l.global && SameButAD(f.value.pte, l.pte)
  }

  ghost predicate Resembles(m: Mem, root: nat, virt: nat, e: Entry) {
    SameTarget(FindLeaf(m, root, virt), Leaf(0, e.pte, e.mega, e.global))
  }

  ghost predicate EntryLoose(m: Mem, roots: Roots, e: Entry) {
    forall asid: nat, virt: nat {:trigger roots[asid], MapsVirt(e, virt)} ::
      asid in roots && Serves(e, asid) && MapsVirt(e, virt) ==> Resembles(m, roots[asid], virt, e)
  }

  ghost predicate Loose(m: Mem, roots: Roots, tlb: seq<Entry>) {
    forall e :: e in tlb ==> EntryLoose(m, roots, e)
  }

  ghost predicate SameShape(m: Mem, n: Mem) { m.bytes.Keys == n.bytes.Keys && m.rom == n.rom }

  // ---------- memories that are alike ----------

  lemma SameButADEquivalence(p: Pte, q: Pte, r: Pte)
    ensures SameButAD(p, p)
    ensures SameButAD(p, q) ==> SameButAD(q, p)
    ensures SameButAD(p, q) && SameButAD(q, r) ==> SameButAD(p, r)
  {}

  lemma AlikeTransitive(m: Mem, n: Mem, o: Mem)
    requires Alike(m, n) && Alike(n, o)
    ensures Alike(m, o)
  {
    hide PteAt, SameButAD;
    forall addr: nat | Aligned(addr, 4)
      ensures SameButAD(PteAt(m, addr), PteAt(o, addr))
    {
      assert SameButAD(PteAt(n, addr), PteAt(o, addr));
      SameButADEquivalence(PteAt(m, addr), PteAt(n, addr), PteAt(o, addr));
    }
  }

  lemma AlikeSymmetric(m: Mem, n: Mem)
    requires Alike(m, n)
    ensures Alike(n, m)
  {
    hide PteAt, SameButAD;
    forall addr: nat | Aligned(addr, 4)
      ensures SameButAD(PteAt(n, addr), PteAt(m, addr))
    {
      assert SameButAD(PteAt(m, addr), PteAt(n, addr));
      SameButADEquivalence(PteAt(m, addr), PteAt(n, addr), PteAt(m, addr));
    }
  }

  /** Bytes of words that agree up to accessed and dirty bits: those bits are in the lowest byte. */
  predicate SameBytes(i: nat, b: bv8, c: bv8) { if i == 0 then b | 0xC0 == c | 0xC0 else b == c }

  lemma WordsFromBytes(b0: bv8, b1: bv8, b2: bv8, b3: bv8, c0: bv8, c1: bv8, c2: bv8, c3: bv8)
    requires SameBytes(0, b0, c0) && SameBytes(1, b1, c1) && SameBytes(2, b2, c2) && SameBytes(3, b3, c3)
    ensures SameButAD(Join32(b0, b1, b2, b3), Join32(c0, c1, c2, c3))
  {
    LowByte(b0, b1, b2, b3);
    LowByte(c0, b1, b2, b3);
    hide Join32;
  }

  lemma LowByte(b0: bv8, b1: bv8, b2: bv8, b3: bv8)
    ensures Join32(b0, b1, b2, b3) | 0xC0 == Join32(b0 | 0xC0, b1, b2, b3)
  {}

  lemma BytesFromWords(b0: bv8, b1: bv8, b2: bv8, b3: bv8, c0: bv8, c1: bv8, c2: bv8, c3: bv8)
    requires SameButAD(Join32(b0, b1, b2, b3), Join32(c0, c1, c2, c3))
    ensures SameBytes(0, b0, c0) && SameBytes(1, b1, c1) && SameBytes(2, b2, c2) && SameBytes(3, b3, c3)
  {
    ByteOfWord(b0, b1, b2, b3);
    ByteOfWord(c0, c1, c2, c3);
  }

  lemma ByteOfWord(b0: bv8, b1: bv8, b2: bv8, b3: bv8)
    ensures var w := Join32(b0, b1, b2, b3) | 0xC0;
            && (w & 0xFF) as bv8 == b0 | 0xC0
            && ((w >> 8) & 0xFF) as bv8 == b1 && ((w >> 16) & 0xFF) as bv8 == b2 && (w >> 24) as bv8 == b3
  {}

  lemma WriteKeepsByte(m: Mem, n: Mem, addr: nat, bs: seq<bv8>, protected: bool, i: nat, x: nat)
    requires SameShape(m, n) && SameBytes(i, ByteAt(m, x), ByteAt(n, x))
    ensures SameBytes(i, ByteAt(WriteBytes(m, addr, bs, protected), x), ByteAt(WriteBytes(n, addr, bs, protected), x))
  {
    WriteByteAt(m, addr, bs, protected, x);
    WriteByteAt(n, addr, bs, protected, x);
    hide WriteBytes, ByteAt;
  }

  /** The same store keeps memories alike, whatever it overwrites. */
  lemma WriteKeepsAlike(m: Mem, n: Mem, addr: nat, bs: seq<bv8>, protected: bool)
    requires Alike(m, n) && SameShape(m, n)
    ensures Alike(WriteBytes(m, addr, bs, protected), WriteBytes(n, addr, bs, protected))
    ensures SameShape(WriteBytes(m, addr, bs, protected), WriteBytes(n, addr, bs, protected))
  {
    var m', n' := WriteBytes(m, addr, bs, protected), WriteBytes(n, addr, bs, protected);
    WriteByteAt(m, addr, bs, protected, 0);
    WriteByteAt(n, addr, bs, protected, 0);
    hide WriteBytes, ByteAt, Join32, SameBytes, SameButAD;
    forall x: nat | Aligned(x, 4)
      ensures SameButAD(PteAt(m', x), PteAt(n', x))
    {
      assert SameButAD(PteAt(m, x), PteAt(n, x));
      BytesFromWords(ByteAt(m, x), ByteAt(m, x + 1), ByteAt(m, x + 2), ByteAt(m, x + 3),
                     ByteAt(n, x), ByteAt(n, x + 1), ByteAt(n, x + 2), ByteAt(n, x + 3));
      WriteKeepsByte(m, n, addr, bs, protected, 0, x);
      WriteKeepsByte(m, n, addr, bs, protected, 1, x + 1);
      WriteKeepsByte(m, n, addr, bs, protected, 2, x + 2);
      WriteKeepsByte(m, n, addr, bs, protected, 3, x + 3);
      WordsFromBytes(ByteAt(m', x), ByteAt(m', x + 1), ByteAt(m', x + 2), ByteAt(m', x + 3),
                     ByteAt(n', x), ByteAt(n', x + 1), ByteAt(n', x + 2), ByteAt(n', x + 3));
    }
  }

  lemma {:induction false} EditKeepsAlike(m: Mem, n: Mem, edits: seq<(nat, seq<bv8>)>)
    requires Alike(m, n) && SameShape(m, n)
    ensures Alike(Edit(m, edits), Edit(n, edits)) && SameShape(Edit(m, edits), Edit(n, edits))
    decreases |edits|
  {
    hide Alike, WriteBytes, SameShape;
    if edits != [] {
      WriteKeepsAlike(m, n, edits[0].0, edits[0].1, true);
      EditKeepsAlike(WriteBytes(m, edits[0].0, edits[0].1, true), WriteBytes(n, edits[0].0, edits[0].1, true),
        edits[1..]);
    }
  }

  // ---------- what depends on the leaf only up to the bits ----------

  lemma LooseInAlike(m: Mem, n: Mem, roots: Roots, tlb: seq<Entry>)
    requires Alike(m, n) && Loose(m, roots, tlb)
    ensures Loose(n, roots, tlb)
  {
    hide FindLeaf, PteAt, SameButAD, Alike;
    forall e, asid: nat, virt: nat | e in tlb && asid in roots && Serves(e, asid) && MapsVirt(e, virt)
      ensures Resembles(n, roots[asid], virt, e)
    {
      assert EntryLoose(m, roots, e);
      assert Resembles(m, roots[asid], virt, e);
      AlikeWalks(m, n, roots[asid], virt);
      var l := FindLeaf(m, roots[asid], virt).value;
      SameButADEquivalence(l.pte, PteAt(n, l.addr), e.pte);
      SameButADEquivalence(PteAt(n, l.addr), l.pte, e.pte);
    }
  }

  lemma CommonInAlike(m: Mem, n: Mem, roots: Roots)
    requires Alike(m, n) && CommonGlobals(m, roots)
    ensures CommonGlobals(n, roots)
  {
    hide FindLeaf, PteAt, SameButAD, Alike;
    forall a: nat, b: nat, virt: nat | a in roots && b in roots &&
        FindLeaf(n, roots[a], virt).Some? && FindLeaf(n, roots[a], virt).value.global
      ensures SameTarget(FindLeaf(n, roots[b], virt), FindLeaf(n, roots[a], virt).value)
    {
      AlikeWalks(m, n, roots[a], virt);
      AlikeWalks(m, n, roots[b], virt);
      var l, k := FindLeaf(m, roots[a], virt).value, FindLeaf(m, roots[b], virt).value;
      SameButADEquivalence(k.pte, PteAt(n, k.addr), l.pte);
      SameButADEquivalence(PteAt(n, k.addr), k.pte, l.pte);
      SameButADEquivalence(PteAt(n, k.addr), l.pte, PteAt(n, l.addr));
    }
  }

  /** Walks in memories that are alike answer alike and cache entries that are alike. */
  lemma AlikePagewalks(m: Mem, n: Mem, c: Csr, virt: nat, wr: bool, fetch: bool)
    requires Alike(m, n)
    ensures var v, w := Pagewalk(m, c, virt, wr, fetch, true), Pagewalk(n, c, virt, wr, fetch, true);
            && v.result == w.result
            && v.leaf.Some? == w.leaf.Some?
            && (v.leaf.Some? ==> SameTarget(FindLeaf(n, c.root, virt), v.leaf.value))
  {
    hide FindLeaf, PteAt, SameButAD, Alike, Updated, UpdateNeeded, AccessAllowed, MakePhys, Write32, PageFault;
    AlikeWalks(m, n, c.root, virt);
    if FindLeaf(m, c.root, virt).Some? {
      var l := FindLeaf(m, c.root, virt).value;
      AlikeUpdates(l.pte, PteAt(n, l.addr), wr);
      AlikeAnswers(l.pte, PteAt(n, l.addr), c, virt, l.mega, wr, fetch);
    }
  }

  /** Entries alike up to their A and D bits stay so when those are set. */
  lemma AlikeUpdates(p: Pte, q: Pte, wr: bool)
    requires SameButAD(p, q)
    ensures SameButAD(q, p) && SameButAD(q, Updated(p, wr))
  {
    hide SameButAD, Updated;
    UpdateSetsAD(p, wr);
    SameButADEquivalence(p, q, q);
    SameButADEquivalence(q, p, Updated(p, wr));
  }

  lemma AlikeAnswers(p: Pte, q: Pte, c: Csr, virt: nat, mega: bool, wr: bool, fetch: bool)
    requires SameButAD(p, q)
    ensures AccessAllowed(c, p, wr, fetch) == AccessAllowed(c, q, wr, fetch)
    ensures MakePhys(virt, p, mega) == MakePhys(virt, q, mega)
    ensures MakePhys(virt, Updated(p, wr), mega) == MakePhys(virt, p, mega)
    ensures MakePhys(virt, Updated(q, wr), mega) == MakePhys(virt, q, mega)
  {
    hide SameButAD, Updated, R, W, X, U, G, Ppn, IsValid, IsLeaf, EffectivePriv;
    ADIrrelevant(p, q);
    UpdateSetsAD(p, wr);
    UpdateSetsAD(q, wr);
    ADIrrelevant(p, Updated(p, wr));
    ADIrrelevant(q, Updated(q, wr));
  }

  /** A usable hit answers as the walk does. */
  lemma LooseHit(n: Mem, c: Csr, virt: nat, wr: bool, fetch: bool, e: Entry)
    requires Resembles(n, c.root, virt, e)
    ensures IsValid(e.pte) && !(e.mega && Misaligned(e.pte))
    ensures Pagewalk(n, c, virt, wr, fetch, true).result ==
            if AccessAllowed(c, e.pte, wr, fetch) then Phys(MakePhys(virt, e.pte, e.mega))
            else Fault(PageFault(wr, fetch))
  {
    hide FindLeaf, PteAt, SameButAD, Updated, UpdateNeeded, R, W, X, U, Ppn, Write32, IsValid;
    LeafInMemory(n, c.root, virt);
    var l := FindLeaf(n, c.root, virt).value;
    ADIrrelevant(l.pte, e.pte);
    UpdateSetsAD(l.pte, wr);
    ADIrrelevant(l.pte, Updated(l.pte, wr));
  }

  lemma NewEntryLoose(m: Mem, n: Mem, roots: Roots, c: Csr, virt: nat, wr: bool, fetch: bool)
    requires Alike(m, n) && CommonGlobals(n, roots) && c.asid in roots && roots[c.asid] == c.root
    requires Pagewalk(m, c, virt, wr, fetch, true).leaf.Some?
    ensures EntryLoose(n, roots, EntryOf(Pagewalk(m, c, virt, wr, fetch, true).leaf.value, c.asid, virt))
  {
    hide FindLeaf, Pagewalk, SameButAD, Alike;
    AlikePagewalks(m, n, c, virt, wr, fetch);
    var x := Pagewalk(m, c, virt, wr, fetch, true).leaf.value;
    var e := EntryOf(x, c.asid, virt);
    var l := FindLeaf(n, c.root, virt).value;
    forall asid: nat, v: nat | asid in roots && Serves(e, asid) && MapsVirt(e, v)
      ensures Resembles(n, roots[asid], v, e)
    {
      assert FindLeaf(n, roots[c.asid], virt) == FindLeaf(n, c.root, virt);
      SameButADEquivalence(l.pte, l.pte, l.pte);
      assert SameTarget(FindLeaf(n, roots[asid], virt), l);
      var k := FindLeaf(n, roots[asid], virt).value;
      SameButADEquivalence(k.pte, l.pte, x.pte);
      SamePage(n, roots[asid], virt, v);
    }
  }

  lemma LooseWalk(m: Mem, n: Mem, roots: Roots, tlb: seq<Entry>, capacity: nat, c: Csr, virt: nat, wr: bool,
                  fetch: bool)
    requires Alike(m, n) && CommonGlobals(n, roots) && Loose(n, roots, tlb)
    requires c.asid in roots && roots[c.asid] == c.root && |tlb| <= capacity && 0 < capacity
    ensures var r := WalkAndFill(m, tlb, capacity, c, virt, wr, fetch, true);
            r.result == Pagewalk(n, c, virt, wr, fetch, true).result && Loose(n, roots, r.tlb)
  {
    hide Pagewalk, EntryLoose, Alike, CommonGlobals;
    AlikePagewalks(m, n, c, virt, wr, fetch);
    if Pagewalk(m, c, virt, wr, fetch, true).leaf.Some? {
      NewEntryLoose(m, n, roots, c, virt, wr, fetch);
    }
  }

  lemma EntryResembles(n: Mem, roots: Roots, e: Entry, c: Csr, virt: nat)
    requires EntryLoose(n, roots, e) && c.asid in roots && roots[c.asid] == c.root && Matches(e, c.asid, virt)
    ensures Resembles(n, c.root, virt, e)
  {
    hide Resembles;
  }

  /** The answer through the buffer in `m` is the answer of the walk in `n`. */
  lemma LooseAnswer(m: Mem, n: Mem, roots: Roots, tlb: seq<Entry>, capacity: nat, c: Csr, virt: nat, wr: bool,
                    fetch: bool)
    requires Alike(m, n) && CommonGlobals(n, roots) && Loose(n, roots, tlb) && Configured(c, roots)
    requires |tlb| <= capacity && 0 < capacity
    ensures var r := Convert(m, tlb, capacity, c, virt, wr, fetch, true);
            r.result == Reference(n, c, virt, wr, fetch, true).0 && Loose(n, roots, r.tlb)
  {
    hide Pagewalk, EntryLoose, Alike, CommonGlobals, Resembles, MakePhys, AccessAllowed, IsValid, Misaligned,
         UpdateNeeded;
    if UseSv32(c, fetch) {
      var k := FirstMatch(tlb, c.asid, virt);
      if k == |tlb| {
        LooseWalk(m, n, roots, tlb, capacity, c, virt, wr, fetch);
      } else {
        var e := tlb[k];
        var used := ToFront(tlb, k);
        assert forall x :: x in used ==> x in tlb;
        assert e in tlb;
        EntryResembles(n, roots, e, c, virt);
        LooseHit(n, c, virt, wr, fetch, e);
        if AccessAllowed(c, e.pte, wr, fetch) && UpdateNeeded(e.pte, wr) {
          RemoveShrinks(used, c.asid, virt);
          LooseWalk(m, n, roots, Remove(used, c.asid, virt), capacity, c, virt, wr, fetch);
        }
      }
    }
  }

  /** What one translation does to memory, with a buffer or without: bits grow, the shape stays. */
  lemma ReferenceGrows(m: Mem, c: Csr, virt: nat, wr: bool, fetch: bool)
    requires WellFormed(m)
    ensures var n := Reference(m, c, virt, wr, fetch, true).1;
            WellFormed(n) && Alike(m, n) && SameShape(m, n)
  {
    AlikeAfterWalk(m, c, virt, wr, fetch);
    hide Pagewalk, Alike, WellFormed;
  }

  lemma AlikeAfterWalk(m: Mem, c: Csr, virt: nat, wr: bool, fetch: bool)
    requires WellFormed(m)
    ensures var n := Pagewalk(m, c, virt, wr, fetch, true).mem;
            WellFormed(n) && Alike(m, n) && SameShape(m, n)
    ensures Alike(m, m)
  {
    PagewalkGrows(m, c, virt, wr, fetch);
    hide Pagewalk, PteAt, ADWithin, SameButAD, WellFormed;
    forall addr: nat | Aligned(addr, 4) ensures SameButAD(PteAt(m, addr), PteAt(m, addr)) {
      Reflexive(PteAt(m, addr));
    }
  }

  lemma ConvertGrows(m: Mem, tlb: seq<Entry>, capacity: nat, c: Csr, virt: nat, wr: bool, fetch: bool)
    requires WellFormed(m) && |tlb| <= capacity && 0 < capacity
    ensures var n := Convert(m, tlb, capacity, c, virt, wr, fetch, true).mem;
            WellFormed(n) && Alike(m, n) && SameShape(m, n)
  {
    AlikeAfterWalk(m, c, virt, wr, fetch);
    hide Convert, Pagewalk, Alike, WellFormed;
    ConvertMemory(m, tlb, capacity, c, virt, wr, fetch);
  }

  /** A translation writes memory only by its walk. */
  lemma ConvertMemory(m: Mem, tlb: seq<Entry>, capacity: nat, c: Csr, virt: nat, wr: bool, fetch: bool)
    requires |tlb| <= capacity && 0 < capacity
    ensures var n := Convert(m, tlb, capacity, c, virt, wr, fetch, true).mem;
            n == m || n == Pagewalk(m, c, virt, wr, fetch, true).mem
  {
    hide Pagewalk, AccessAllowed, IsValid, Misaligned, UpdateNeeded, MakePhys, FirstMatch, Remove, ToFront, Add;
    var k := FirstMatch(tlb, c.asid, virt);
    if k < |tlb| {
      RemoveShrinks(ToFront(tlb, k), c.asid, virt);
    }
  }

  // ---------- whole runs ----------

  /** The machine with buffers and the flat one agree up to accessed and dirty bits. */
  ghost predicate Matched(s: Machine, f: Flat, roots: Roots) {
    && Sound(s) && WellFormed(s.mem) && WellFormed(f.mem)
    && Erase(s).csrs == f.csrs
    && Alike(s.mem, f.mem) && SameShape(s.mem, f.mem)
    && CommonGlobals(f.mem, roots)
    && forall i :: 0 <= i < |s.harts| ==> Loose(f.mem, roots, s.harts[i].tlb) && Configured(s.harts[i].csr, roots)
  }

  /** As `Owed`, but global translations need only be common. */
  ghost predicate LooselyOwed(s: Flat, roots: Roots, ev: Event) {
    match ev
    case Remap(edits, next) =>
      && CommonGlobals(Edit(s.mem, edits), next)
      && forall i :: 0 <= i < |s.csrs| ==> Configured(s.csrs[i], next)
    case _ => Owed(s, roots, ev)
  }

  ghost predicate LooselyBehaved(s: Flat, roots: Roots, evs: seq<Event>)
    decreases |evs|
  {
    evs == [] ||
    (LooselyOwed(s, roots, evs[0]) && LooselyBehaved(FlatStep(s, evs[0]).0, NextRoots(roots, evs[0]), evs[1..]))
  }

  lemma LooseTranslate(s: Machine, f: Flat, roots: Roots, i: nat, virt: nat, wr: bool, fetch: bool)
    requires Matched(s, f, roots) && i < |s.harts|
    ensures var (s', out) := Step(s, Translate(i, virt, wr, fetch));
            var (f', ref) := FlatStep(f, Translate(i, virt, wr, fetch));
            Matched(s', f', roots) && out == ref
  {
    StepSound(s, Translate(i, virt, wr, fetch));
    var h := s.harts[i];
    var m, n := s.mem, f.mem;
    assert f.csrs[i] == h.csr;
    assert Sound(s) && Loose(n, roots, h.tlb);
    hide Convert, Reference, CommonGlobals, Loose, WellFormed, Alike;
    LooseAnswer(m, n, roots, h.tlb, h.capacity, h.csr, virt, wr, fetch);
    ConvertGrows(m, h.tlb, h.capacity, h.csr, virt, wr, fetch);
    ReferenceGrows(n, h.csr, virt, wr, fetch);
    var m' := Convert(m, h.tlb, h.capacity, h.csr, virt, wr, fetch, true).mem;
    var n' := Reference(n, h.csr, virt, wr, fetch, true).1;
    AlikeSymmetric(m, m');
    AlikeTransitive(m', m, n);
    AlikeTransitive(m', n, n');
    CommonInAlike(n, n', roots);
    var s' := Step(s, Translate(i, virt, wr, fetch)).0;
    assert Erase(s').csrs == Erase(s).csrs;
    forall j | 0 <= j < |s'.harts| ensures Loose(n', roots, s'.harts[j].tlb) {
      LooseInAlike(n, n', roots, s'.harts[j].tlb);
    }
  }

  lemma LooseStore(s: Machine, f: Flat, roots: Roots, addr: nat, bs: seq<bv8>, protected: bool)
    requires Matched(s, f, roots) && LeavesTables(f.mem, roots, addr, |bs|)
    ensures Matched(s.(mem := WriteBytes(s.mem, addr, bs, protected)),
                    f.(mem := WriteBytes(f.mem, addr, bs, protected)), roots)
  {
    var n, n' := f.mem, WriteBytes(f.mem, addr, bs, protected);
    WriteKeepsAlike(s.mem, n, addr, bs, protected);
    WriteKeepsShape(s.mem, addr, bs, protected);
    WriteKeepsShape(n, addr, bs, protected);
    hide WriteBytes, FindLeaf, Alike, LeavesTables, WellFormed, SameShape, SameTarget;
    forall asid: nat, virt: nat | asid in roots
      ensures FindLeaf(n', roots[asid], virt) == FindLeaf(n, roots[asid], virt)
    {
      StoreKeepsWalks(n, roots, addr, bs, protected, asid, virt);
    }
    forall i, e | 0 <= i < |s.harts| && e in s.harts[i].tlb
      ensures EntryLoose(n', roots, e)
    {
      assert Loose(n, roots, s.harts[i].tlb);
      assert EntryLoose(n, roots, e);
    }
    assert CommonGlobals(n', roots);
    assert Erase(s.(mem := WriteBytes(s.mem, addr, bs, protected))).csrs == Erase(s).csrs;
  }

  lemma LooseRemap(s: Machine, f: Flat, roots: Roots, edits: seq<(nat, seq<bv8>)>, next: Roots)
    requires Matched(s, f, roots) && LooselyOwed(f, roots, Remap(edits, next))
    ensures Matched(Machine(Edit(s.mem, edits), FencedAll(s.harts)), f.(mem := Edit(f.mem, edits)), next)
  {
    StepSound(s, Remap(edits, next));
    hide WellFormed, CommonGlobals, Alike, EntryLoose, Edit;
    EditKeepsShape(s.mem, edits);
    EditKeepsShape(f.mem, edits);
    EditKeepsAlike(s.mem, f.mem, edits);
    var s' := Machine(Edit(s.mem, edits), FencedAll(s.harts));
    assert Erase(s').csrs == Erase(s).csrs;
    forall i | 0 <= i < |s.harts|
      ensures Loose(Edit(f.mem, edits), next, s'.harts[i].tlb) && Configured(s'.harts[i].csr, next)
    {
      FullFenceRestores(s.mem, next, s.harts[i].tlb);
      assert f.csrs[i] == s.harts[i].csr;
    }
  }

  lemma LooseStep(s: Machine, f: Flat, roots: Roots, ev: Event)
    requires Matched(s, f, roots) && LooselyOwed(f, roots, ev)
    ensures var (s', out) := Step(s, ev);
            var (f', ref) := FlatStep(f, ev);
            Matched(s', f', NextRoots(roots, ev)) && out == ref
  {
    StepSound(s, ev);
    var s' := Step(s, ev).0;
    assert |f.csrs| == |s.harts|;
    match ev
    case Translate(i, virt, wr, fetch) =>
      hide Convert, Reference, CommonGlobals, WellFormed, Alike, Loose;
      if i < |s.harts| {
        LooseTranslate(s, f, roots, i, virt, wr, fetch);
      }
    case Store(addr, bytes, protected) =>
      hide Convert, Reference, CommonGlobals, WellFormed, Alike, Loose, WriteBytes;
      LooseStore(s, f, roots, addr, bytes, protected);
    case Configure(i, csr) =>
      hide CommonGlobals, WellFormed, Alike, Loose;
      if i < |s.harts| {
        assert Erase(s').csrs == f.csrs[i := csr];
      }
    case Sfence(i, fence) =>
      hide CommonGlobals, WellFormed, Alike, EntryLoose;
      assert Erase(s').csrs == f.csrs;
    case Resize(i, n) =>
      hide CommonGlobals, WellFormed, Alike, EntryLoose;
      assert Erase(s').csrs == f.csrs;
    case Remap(edits, next) =>
      hide CommonGlobals, WellFormed, Alike, Loose;
      LooseRemap(s, f, roots, edits, next);
  }

  /**
   With copied globals, whole runs still give the same translations and faults in the same
   order; memory ends up the same except for accessed and dirty bits.
  */
  lemma {:induction false} RunLooselyTransparent(s: Machine, f: Flat, roots: Roots, evs: seq<Event>)
    requires Matched(s, f, roots) && LooselyBehaved(f, roots, evs)
    ensures var (s', out) := Run(s, evs);
            var (f', ref) := FlatRun(f, evs);
            out == ref && Alike(s'.mem, f'.mem) && Erase(s').csrs == f'.csrs
    decreases |evs|
  {
    assert Sound(s) && Alike(s.mem, f.mem) && Erase(s).csrs == f.csrs;
    hide Step, FlatStep, Matched, LooselyOwed, Erase, Alike;
    if evs != [] {
      LooseStep(s, f, roots, evs[0]);
      RunLooselyTransparent(Step(s, evs[0]).0, FlatStep(f, evs[0]).0, NextRoots(roots, evs[0]), evs[1..]);
    }
  }

  // ---------- how far memory can differ ----------

  lemma UpdateChanges(p: Pte, wr: bool)
    requires UpdateNeeded(p, wr)
    ensures Updated(p, wr) != p
  {}

  /** What the walk would write, and when it would write at all. */
  lemma WalkWritesIff(m: Mem, c: Csr, virt: nat, wr: bool, fetch: bool)
    requires WellFormed(m) && UseSv32(c, fetch) && FindLeaf(m, c.root, virt).Some?
    requires AccessAllowed(c, FindLeaf(m, c.root, virt).value.pte, wr, fetch)
    ensures var l := FindLeaf(m, c.root, virt).value;
            Reference(m, c, virt, wr, fetch, true).1 == m <==> !UpdateNeeded(l.pte, wr) || !Accepts(m, l.addr, true)
  {
    hide PteAt, AccessAllowed, UpdateNeeded, Updated, FindLeaf, MakePhys, Split32, Accepts;
    var l := FindLeaf(m, c.root, virt).value;
    LeafInMemory(m, c.root, virt);
    if UpdateNeeded(l.pte, wr) {
      UpdateChanges(l.pte, wr);
      WriteBack(m, l.addr, wr, l.addr);
    }
  }

  /**
   A hit that has nothing to record answers without touching memory, so memory
   agrees with that of a machine without a buffer exactly when the leaf in the
   current tables has nothing to record either, or cannot be written.
  */
  lemma HitMemoryIff(m: Mem, tlb: seq<Entry>, capacity: nat, c: Csr, virt: nat, wr: bool, fetch: bool)
    requires WellFormed(m) && UseSv32(c, fetch) && FindLeaf(m, c.root, virt).Some? && |tlb| <= capacity && 0 < capacity
    requires AccessAllowed(c, FindLeaf(m, c.root, virt).value.pte, wr, fetch)
    requires var k := FirstMatch(tlb, c.asid, virt); k < |tlb| && !UpdateNeeded(tlb[k].pte, wr)
    ensures var l := FindLeaf(m, c.root, virt).value;
            Convert(m, tlb, capacity, c, virt, wr, fetch, true).mem == Reference(m, c, virt, wr, fetch, true).1 <==>
            !UpdateNeeded(l.pte, wr) || !Accepts(m, l.addr, true)
  {
    hide PteAt, AccessAllowed, UpdateNeeded, Updated, FindLeaf, MakePhys, Accepts, Pagewalk, FirstMatch, IsValid,
         Misaligned;
    WalkWritesIff(m, c, virt, wr, fetch);
  }

  // ---------- a pair of tables that shows it ----------

  /**
   Two root tables in the frames 0 and 1, each with its own copy of one global,
   readable, not yet accessed superpage.
  */
  const TABLES: Mem := Mem(map x: nat | 0 <= x < 8192 :: if x == 0 || x == 4096 then 0x23 else 0, {}, {})

  const FIRST: Csr := Csr(1, false, 0, false, false, false, 0, 0)
  const SECOND: Csr := Csr(1, false, 0, false, false, false, 1, 1)

  lemma CopyBits()
    ensures Join32(0x23, 0, 0, 0) == 0x23
    ensures IsValid(0x23) && IsLeaf(0x23) && G(0x23) && R(0x23) && !U(0x23) && UpdateNeeded(0x23, false)
    ensures !UpdateNeeded(Updated(0x23, false), false)
  {}

  lemma CopyPpn()
    ensures !Misaligned(0x23)
  {
    assert (0x23 as bv32) >> 10 == 0;
  }

  lemma TablesAre()
    ensures WellFormed(TABLES) && PteAt(TABLES, 0) == 0x23 && PteAt(TABLES, 4096) == 0x23
    ensures Accepts(TABLES, 0, true) && Accepts(TABLES, 4096, true)
  {
    hide Join32;
    CopyBits();
  }

  lemma CopiesFound()
    ensures FindLeaf(TABLES, 0, 0) == Some(Leaf(0, 0x23, true, true))
    ensures FindLeaf(TABLES, 1, 0) == Some(Leaf(4096, 0x23, true, true))
  {
    hide PteAt, Ppn, V, R, W, X, G, Misaligned, IsValid, IsLeaf;
    TablesAre();
    CopyBits();
    CopyPpn();
  }

  /** The first translation records itself in the first copy only. */
  lemma FirstTranslation()
    ensures var r := Convert(TABLES, [], 4, FIRST, 0, false, false, true);
            && r.mem == Memory.Write32(TABLES, 0, Updated(0x23, false), true)
            && r.mem == Reference(TABLES, FIRST, 0, false, false, true).1
            && r.tlb == [EntryOf(Leaf(0, Updated(0x23, false), true, true), 0, 0)]
    ensures AccessAllowed(FIRST, 0x23, false, false) && AccessAllowed(SECOND, 0x23, false, false)
  {
    hide FindLeaf, Memory.Write32, PteAt, V, R, W, X, U, G, A, D, Updated, UpdateNeeded, MakePhys;
    CopiesFound();
    CopyBits();
  }

  lemma SecondCopyUntouched()
    ensures var m := Memory.Write32(TABLES, 0, Updated(0x23, false), true);
            && WellFormed(m) && Accepts(m, 4096, true)
            && FindLeaf(m, 1, 0) == Some(Leaf(4096, 0x23, true, true))
  {
    hide FindLeaf, PteAt, WellFormed, Updated, Split32, Grown, WriteBytes;
    TablesAre();
    CopiesFound();
    var m := Memory.Write32(TABLES, 0, Updated(0x23, false), true);
    WriteKeepsShape(TABLES, 0, Split32(Updated(0x23, false)), true);
    WriteByteAt(TABLES, 0, Split32(Updated(0x23, false)), true, 0);
    WriteBackGrows(TABLES, 0, false);
    WriteBack(TABLES, 0, false, 4096);
    GrowthKeepsWalks(TABLES, m, 1, 0);
  }

  /**
   So with copied globals exact equality of memory fails: after the first
   address space used the page, the second gets its answer from the buffer and
   its own copy stays unaccessed, where a walk would have marked it.
  */
  lemma CopiedLeafDiverges()
    ensures var r := Convert(TABLES, [], 4, FIRST, 0, false, false, true);
            && r.mem == Reference(TABLES, FIRST, 0, false, false, true).1 && |r.tlb| <= 4
            && Convert(r.mem, r.tlb, 4, SECOND, 0, false, false, true).mem !=
               Reference(r.mem, SECOND, 0, false, false, true).1
  {
    hide FindLeaf, Memory.Write32, PteAt, UpdateNeeded, Updated, AccessAllowed, WellFormed, Accepts, Convert, Reference;
    FirstTranslation();
    SecondCopyUntouched();
    CopyBits();
    var r := Convert(TABLES, [], 4, FIRST, 0, false, false, true);
    assert Matches(r.tlb[0], 1, 0);
    assert FirstMatch(r.tlb, 1, 0) == 0;
    HitMemoryIff(r.mem, r.tlb, 4, SECOND, 0, false, false);
  }

  /** A quiet translation caches the accessed bit without writing it, and so leaves an entry memory disagrees with. */
  lemma QuietLeavesStale()
    ensures SharedGlobals(TABLES, map[0 := 0]) && Coherent(TABLES, map[0 := 0], [])
    ensures !Coherent(TABLES, map[0 := 0], Convert(TABLES, [], 4, FIRST, 0, false, false, false).tlb)
  {
    hide FindLeaf, PteAt, UpdateNeeded, AccessAllowed, WellFormed, Accepts, Convert, Reference;
    TablesAre();
    CopiesFound();
    CopyBits();
    FirstTranslation();
    QuietTranslation(TABLES, map[0 := 0], [], 4, FIRST, 0, false, false);
  }
}
