/**
 The translation buffer is transparent: one translation through a coherent
 buffer gives the physical address, the fault and the memory of a walk of the
 page tables, and leaves the buffer coherent.
*/
module Transparency {
  import opened Options
  import opened Memory
  import opened Sv32
  import opened Tlb

  /** Address-space identifiers and the page-table root of each. */
  type Roots = map<nat, nat>

  /**
   Entry `e` agrees with the leaf a walk finds.  Its accessed and dirty bits may lag behind
   memory; they run ahead only where memory refuses the write-back anyway.
  */
  ghost predicate Backs(m: Mem, root: nat, virt: nat, e: Entry) {
    match FindLeaf(m, root, virt)
    case None => false
    case Some(l) =>
      && l.mega == e.mega && l.global == e.global
      && SameButAD(l.pte, e.pte)
      && (Accepts(m, l.addr, true) ==> ADWithin(e.pte, l.pte))
  }

  ghost predicate EntryCoherent(m: Mem, roots: Roots, e: Entry) {
    forall asid: nat, virt: nat {:trigger roots[asid], MapsVirt(e, virt)} ::
      asid in roots && Serves(e, asid) && MapsVirt(e, virt) ==> Backs(m, roots[asid], virt, e)
  }

  ghost predicate Coherent(m: Mem, roots: Roots, tlb: seq<Entry>) {
    forall e :: e in tlb ==> EntryCoherent(m, roots, e)
  }

  /** A global translation is reached through the same leaf entry from every root. */
  ghost predicate SharedGlobals(m: Mem, roots: Roots) {
    forall a: nat, b: nat, virt: nat {:trigger FindLeaf(m, roots[a], virt), roots[b]} ::
      a in roots && b in roots && FindLeaf(m, roots[a], virt).Some? && FindLeaf(m, roots[a], virt).value.global ==>
        FindLeaf(m, roots[b], virt) == FindLeaf(m, roots[a], virt)
  }

  /** The address space a hart is in uses the root of its identifier. */
  predicate Configured(c: Csr, roots: Roots) { c.bare || (c.asid in roots && roots[c.asid] == c.root) }

  /** Translation without a buffer. */
  function Reference(m: Mem, c: Csr, virt: nat, wr: bool, fetch: bool, noisy: bool): (Translation, Mem) {
    if !UseSv32(c, fetch) then (Phys(virt), m)
    else var w := Pagewalk(m, c, virt, wr, fetch, noisy); (w.result, w.mem)
  }

  // ---------- what a page shares ----------

  /** All addresses of a page are translated by the same leaf. */
  lemma SamePage(m: Mem, root: nat, v: nat, w: nat)
    requires FindLeaf(m, root, v).Some?
    requires VpnOf(v, FindLeaf(m, root, v).value.mega) == VpnOf(w, FindLeaf(m, root, v).value.mega)
    ensures FindLeaf(m, root, w) == FindLeaf(m, root, v)
  {
    hide PteAt, Ppn, V, R, W, X, G;
    PageInMegapage(v);
    PageInMegapage(w);
  }

  lemma PageInMegapage(v: nat)
    ensures v / MEGAPAGE == v / 4096 / 1024
  {}

  // ---------- growth of accessed and dirty bits keeps coherence ----------

  lemma ADTransitive(e: Pte, p: Pte, q: Pte)
    requires SameButAD(p, e) && SameButAD(p, q)
    ensures SameButAD(q, e)
    ensures ADWithin(e, p) && ADWithin(p, q) ==> ADWithin(e, q)
  {}

  lemma GrowthKeepsBacks(m: Mem, n: Mem, root: nat, virt: nat, e: Entry)
    requires Grown(m, n) && n.bytes.Keys == m.bytes.Keys && n.rom == m.rom
    requires Backs(m, root, virt, e)
    ensures Backs(n, root, virt, e)
  {
    GrowthKeepsWalks(m, n, root, virt);
    hide FindLeaf, PteAt, SameButAD, ADWithin, Grown;
    var l := FindLeaf(m, root, virt).value;
    ADTransitive(e.pte, l.pte, PteAt(n, l.addr));
  }

  lemma GrowthKeepsCoherence(m: Mem, n: Mem, roots: Roots, tlb: seq<Entry>)
    requires Grown(m, n) && n.bytes.Keys == m.bytes.Keys && n.rom == m.rom
    requires Coherent(m, roots, tlb)
    ensures Coherent(n, roots, tlb)
  {
    hide Backs, Grown;
    forall e, asid: nat, virt: nat | e in tlb && asid in roots && Serves(e, asid) && MapsVirt(e, virt)
      ensures Backs(n, roots[asid], virt, e)
    {
      assert EntryCoherent(m, roots, e);
      GrowthKeepsBacks(m, n, roots[asid], virt, e);
    }
  }

  lemma GrowthKeepsSharing(m: Mem, n: Mem, roots: Roots)
    requires Grown(m, n) && SharedGlobals(m, roots)
    ensures SharedGlobals(n, roots)
  {
    hide FindLeaf, PteAt, Grown;
    forall a: nat, b: nat, virt: nat | a in roots && b in roots &&
        FindLeaf(n, roots[a], virt).Some? && FindLeaf(n, roots[a], virt).value.global
      ensures FindLeaf(n, roots[b], virt) == FindLeaf(n, roots[a], virt)
    {
      GrowthKeepsWalks(m, n, roots[a], virt);
      GrowthKeepsWalks(m, n, roots[b], virt);
    }
  }

  // ---------- one translation ----------

  lemma NoUpdateNeeded(e: Pte, p: Pte, wr: bool)
    requires ADWithin(e, p) && !UpdateNeeded(e, wr)
    ensures !UpdateNeeded(p, wr)
  {}

  /** A hit whose bits need no update: the walk would find the same and write nothing. */
  lemma HitIsWalk(m: Mem, c: Csr, virt: nat, wr: bool, fetch: bool, e: Entry)
    requires Backs(m, c.root, virt, e) && !UpdateNeeded(e.pte, wr) && AccessAllowed(c, e.pte, wr, fetch)
    ensures var w := Pagewalk(m, c, virt, wr, fetch, true);
            w.result == Phys(MakePhys(virt, e.pte, e.mega)) && w.mem == m
  {
    hide FindLeaf, SameButAD, ADWithin, Updated, UpdateNeeded, R, W, X, U, V, G, A, D, Ppn, Split32;
    var l := FindLeaf(m, c.root, virt).value;
    ADIrrelevant(l.pte, e.pte);
    UpdateSetsAD(l.pte, wr);
    ADIrrelevant(l.pte, Updated(l.pte, wr));
    if Accepts(m, l.addr, true) {
      NoUpdateNeeded(e.pte, l.pte, wr);
    } else {
      assert Write32(m, l.addr, Updated(l.pte, wr), true) == m;
    }
  }

  /** A hit that may not be used: the walk faults too. */
  lemma DeniedIsWalk(m: Mem, c: Csr, virt: nat, wr: bool, fetch: bool, e: Entry)
    requires Backs(m, c.root, virt, e) && !AccessAllowed(c, e.pte, wr, fetch)
    ensures var w := Pagewalk(m, c, virt, wr, fetch, true);
            w.result == Fault(PageFault(wr, fetch)) && w.mem == m
  {
    var l := FindLeaf(m, c.root, virt).value;
    ADIrrelevant(l.pte, e.pte);
    hide FindLeaf, SameButAD, ADWithin, Updated, R, W, X, U, V, G, A, D, Ppn;
  }

  /** A coherent entry is valid and aligned. */
  lemma BackedIsUsable(m: Mem, root: nat, virt: nat, e: Entry)
    requires Backs(m, root, virt, e)
    ensures IsValid(e.pte) && !(e.mega && Misaligned(e.pte))
  {
    LeafInMemory(m, root, virt);
    hide FindLeaf, ADWithin, PteAt;
    ADIrrelevant(FindLeaf(m, root, virt).value.pte, e.pte);
    hide SameButAD, Ppn, IsValid;
  }

  /** The leaf the walk caches is the one later walks will find. */
  lemma NewEntryBacked(m: Mem, c: Csr, virt: nat, wr: bool, fetch: bool, root: nat, v: nat)
    requires WellFormed(m) && Pagewalk(m, c, virt, wr, fetch, true).leaf.Some?
    requires var l := Pagewalk(m, c, virt, wr, fetch, true).leaf.value;
             FindLeaf(m, root, virt) == FindLeaf(m, c.root, virt) && VpnOf(v, l.mega) == VpnOf(virt, l.mega)
    ensures var w := Pagewalk(m, c, virt, wr, fetch, true);
            Backs(w.mem, root, v, EntryOf(w.leaf.value, c.asid, virt))
  {
    var w := Pagewalk(m, c, virt, wr, fetch, true);
    var l := FindLeaf(m, c.root, virt).value;
    SamePage(m, root, virt, v);
    PagewalkKeepsWalks(m, c, virt, wr, fetch, root, v);
    PagewalkGrows(m, c, virt, wr, fetch);
    LeafInMemory(m, c.root, virt);
    WriteBack(m, l.addr, wr, l.addr);
    UpdateSetsAD(l.pte, wr);
    Reflexive(l.pte);
    Reflexive(Updated(l.pte, wr));
    hide FindLeaf, SameButAD, ADWithin, Updated, Write32, PteAt, UpdateNeeded, AccessAllowed, Grown;
  }

  lemma NewEntryCoherent(m: Mem, roots: Roots, c: Csr, virt: nat, wr: bool, fetch: bool)
    requires WellFormed(m) && SharedGlobals(m, roots) && c.asid in roots && roots[c.asid] == c.root
    requires Pagewalk(m, c, virt, wr, fetch, true).leaf.Some?
    ensures var w := Pagewalk(m, c, virt, wr, fetch, true);
            EntryCoherent(w.mem, roots, EntryOf(w.leaf.value, c.asid, virt))
  {
    var w := Pagewalk(m, c, virt, wr, fetch, true);
    var e := EntryOf(w.leaf.value, c.asid, virt);
    var l := FindLeaf(m, c.root, virt).value;
    assert w.leaf.value.global == l.global && w.leaf.value.mega == l.mega;
    hide FindLeaf, Backs, Pagewalk;
    forall asid: nat, v: nat | asid in roots && Serves(e, asid) && MapsVirt(e, v)
      ensures Backs(w.mem, roots[asid], v, e)
    {
      assert FindLeaf(m, roots[c.asid], virt) == FindLeaf(m, c.root, virt);
      assert FindLeaf(m, roots[asid], virt) == FindLeaf(m, c.root, virt);
      NewEntryBacked(m, c, virt, wr, fetch, roots[asid], v);
    }
  }

  /** A walk keeps every buffer coherent, the one it fills included. */
  lemma WalkKeepsCoherence(m: Mem, roots: Roots, tlb: seq<Entry>, capacity: nat, c: Csr, virt: nat, wr: bool,
                           fetch: bool)
    requires WellFormed(m) && SharedGlobals(m, roots) && Coherent(m, roots, tlb)
    requires c.asid in roots && roots[c.asid] == c.root && |tlb| <= capacity && 0 < capacity
    ensures var r := WalkAndFill(m, tlb, capacity, c, virt, wr, fetch, true);
            Coherent(r.mem, roots, r.tlb) && |r.tlb| <= capacity
  {
    var w := Pagewalk(m, c, virt, wr, fetch, true);
    PagewalkGrows(m, c, virt, wr, fetch);
    GrowthKeepsCoherence(m, w.mem, roots, tlb);
    if w.leaf.Some? {
      NewEntryCoherent(m, roots, c, virt, wr, fetch);
    }
    hide Pagewalk, EntryCoherent, SharedGlobals, Grown;
  }

  /** The effect of a walk on everything the runs below depend on. */
  lemma WalkKeepsTables(m: Mem, roots: Roots, c: Csr, virt: nat, wr: bool, fetch: bool)
    requires WellFormed(m) && SharedGlobals(m, roots)
    ensures var n := Pagewalk(m, c, virt, wr, fetch, true).mem;
            WellFormed(n) && SharedGlobals(n, roots)
  {
    PagewalkGrows(m, c, virt, wr, fetch);
    hide Pagewalk, Grown, SharedGlobals, WellFormed;
    GrowthKeepsSharing(m, Pagewalk(m, c, virt, wr, fetch, true).mem, roots);
  }

  /** One noisy translation through a coherent buffer is a walk, and the buffer stays coherent. */
  lemma TranslationTransparent(m: Mem, roots: Roots, tlb: seq<Entry>, capacity: nat, c: Csr, virt: nat, wr: bool,
                               fetch: bool)
    requires WellFormed(m) && SharedGlobals(m, roots) && Coherent(m, roots, tlb) && Configured(c, roots)
    requires |tlb| <= capacity && 0 < capacity
    ensures var r := Convert(m, tlb, capacity, c, virt, wr, fetch, true);
            && (r.result, r.mem) == Reference(m, c, virt, wr, fetch, true)
            && Coherent(r.mem, roots, r.tlb) && |r.tlb| <= capacity
  {
    hide Pagewalk, EntryCoherent, SharedGlobals, WellFormed, Backs, MakePhys, AccessAllowed, IsValid, Misaligned,
         UpdateNeeded;
    if UseSv32(c, fetch) {
      var k := FirstMatch(tlb, c.asid, virt);
      if k == |tlb| {
        WalkKeepsCoherence(m, roots, tlb, capacity, c, virt, wr, fetch);
      } else {
        var e := tlb[k];
        var used := ToFront(tlb, k);
        assert forall x :: x in used ==> x in tlb;
        assert e in tlb;
        EntryBacks(m, roots, e, c, virt);
        BackedIsUsable(m, c.root, virt, e);
        if !AccessAllowed(c, e.pte, wr, fetch) {
          DeniedIsWalk(m, c, virt, wr, fetch, e);
        } else if !UpdateNeeded(e.pte, wr) {
          HitIsWalk(m, c, virt, wr, fetch, e);
        } else {
          RemoveShrinks(used, c.asid, virt);
          WalkKeepsCoherence(m, roots, Remove(used, c.asid, virt), capacity, c, virt, wr, fetch);
        }
      }
    }
  }

  lemma EntryBacks(m: Mem, roots: Roots, e: Entry, c: Csr, virt: nat)
    requires EntryCoherent(m, roots, e) && c.asid in roots && roots[c.asid] == c.root && Matches(e, c.asid, virt)
    ensures Backs(m, c.root, virt, e)
  {
    hide Backs;
  }

  // ---------- quiet translations ----------

  /** The walk would set a bit of a leaf that memory lets it set. */
  predicate BitsOutstanding(m: Mem, c: Csr, virt: nat, wr: bool, fetch: bool) {
    UseSv32(c, fetch) &&
    match FindLeaf(m, c.root, virt)
    case None => false
    case Some(l) => AccessAllowed(c, l.pte, wr, fetch) && UpdateNeeded(l.pte, wr) && Accepts(m, l.addr, true)
  }

  /** With nothing outstanding, a quiet walk is a noisy one. */
  lemma QuietWalk(m: Mem, c: Csr, virt: nat, wr: bool, fetch: bool)
    requires UseSv32(c, fetch) && !BitsOutstanding(m, c, virt, wr, fetch)
    ensures Pagewalk(m, c, virt, wr, fetch, false) == Pagewalk(m, c, virt, wr, fetch, true)
  {
    hide FindLeaf, AccessAllowed, UpdateNeeded, Split32, MakePhys, Updated;
  }

  /** An entry that claims bits memory does not hold, and could hold, is not coherent. */
  lemma RunsAhead(m: Mem, c: Csr, roots: Roots, virt: nat, wr: bool, fetch: bool)
    requires BitsOutstanding(m, c, virt, wr, fetch) && c.asid in roots && roots[c.asid] == c.root
    ensures var w := Pagewalk(m, c, virt, wr, fetch, false);
            w.leaf.Some? && !EntryCoherent(m, roots, EntryOf(w.leaf.value, c.asid, virt))
  {
    var l := FindLeaf(m, c.root, virt).value;
    var e := EntryOf(Pagewalk(m, c, virt, wr, fetch, false).leaf.value, c.asid, virt);
    assert e.pte == Updated(l.pte, wr);
    hide FindLeaf, AccessAllowed, SameButAD, Pagewalk;
    assert !ADWithin(e.pte, l.pte);
    assert !Backs(m, roots[c.asid], virt, e);
    assert MapsVirt(e, virt);
  }

  /** A coherent entry for a leaf with outstanding bits asks for the walk. */
  lemma OutstandingMissesHit(m: Mem, c: Csr, virt: nat, wr: bool, fetch: bool, e: Entry)
    requires BitsOutstanding(m, c, virt, wr, fetch) && Backs(m, c.root, virt, e)
    ensures UpdateNeeded(e.pte, wr) && AccessAllowed(c, e.pte, wr, fetch)
  {
    hide FindLeaf, SameButAD;
    var l := FindLeaf(m, c.root, virt).value;
    ADIrrelevant(l.pte, e.pte);
    hide R, W, X, U;
  }

  /** Without outstanding bits the `noisy` flag makes no difference. */
  lemma QuietConvert(m: Mem, tlb: seq<Entry>, capacity: nat, c: Csr, virt: nat, wr: bool, fetch: bool)
    requires |tlb| <= capacity && 0 < capacity && !BitsOutstanding(m, c, virt, wr, fetch)
    ensures Convert(m, tlb, capacity, c, virt, wr, fetch, false) == Convert(m, tlb, capacity, c, virt, wr, fetch, true)
  {
    if UseSv32(c, fetch) {
      QuietWalk(m, c, virt, wr, fetch);
      hide BitsOutstanding, Pagewalk, AccessAllowed, UpdateNeeded, IsValid, Misaligned, MakePhys;
    }
  }

  /** With bits outstanding, a quiet translation walks and caches an entry that runs ahead of memory. */
  lemma OutstandingConvert(m: Mem, roots: Roots, tlb: seq<Entry>, capacity: nat, c: Csr, virt: nat, wr: bool,
                           fetch: bool)
    requires Coherent(m, roots, tlb) && c.asid in roots && roots[c.asid] == c.root
    requires |tlb| <= capacity && 0 < capacity && BitsOutstanding(m, c, virt, wr, fetch)
    ensures var r := Convert(m, tlb, capacity, c, virt, wr, fetch, false);
            !Coherent(m, roots, r.tlb) && r.mem == m && r.result == Reference(m, c, virt, wr, fetch, false).0
  {
    var w := Pagewalk(m, c, virt, wr, fetch, false);
    assert w.mem == m;
    RunsAhead(m, c, roots, virt, wr, fetch);
    assert UseSv32(c, fetch);
    hide BitsOutstanding, Pagewalk, AccessAllowed, UpdateNeeded, IsValid, Misaligned, MakePhys, Backs, EntryCoherent;
    var k := FirstMatch(tlb, c.asid, virt);
    if k < |tlb| {
      var e := tlb[k];
      assert e in tlb;
      EntryBacks(m, roots, e, c, virt);
      BackedIsUsable(m, c.root, virt, e);
      OutstandingMissesHit(m, c, virt, wr, fetch, e);
      RemoveShrinks(ToFront(tlb, k), c.asid, virt);
    }
    var r := Convert(m, tlb, capacity, c, virt, wr, fetch, false);
    assert r.tlb[0] == EntryOf(w.leaf.value, c.asid, virt);
    assert r.tlb[0] in r.tlb;
  }

  /**
   Exactly when a quiet translation keeps the buffer coherent: when no accessed or dirty bit is
   outstanding.  Its answer is right either way, and it never writes memory.
  */
  lemma QuietTranslation(m: Mem, roots: Roots, tlb: seq<Entry>, capacity: nat, c: Csr, virt: nat, wr: bool, fetch: bool)
    requires WellFormed(m) && SharedGlobals(m, roots) && Coherent(m, roots, tlb) && Configured(c, roots)
    requires |tlb| <= capacity && 0 < capacity
    ensures var r := Convert(m, tlb, capacity, c, virt, wr, fetch, false);
            && r.result == Reference(m, c, virt, wr, fetch, true).0
            && r.mem == m
            && (Coherent(m, roots, r.tlb) <==> !BitsOutstanding(m, c, virt, wr, fetch))
  {
    QuietResult(m, c, virt, wr, fetch);
    hide Pagewalk, EntryCoherent, SharedGlobals, WellFormed, Convert;
    if BitsOutstanding(m, c, virt, wr, fetch) {
      assert !c.bare;
      hide BitsOutstanding;
      OutstandingConvert(m, roots, tlb, capacity, c, virt, wr, fetch);
    } else {
      hide BitsOutstanding;
      QuietConvert(m, tlb, capacity, c, virt, wr, fetch);
      TranslationTransparent(m, roots, tlb, capacity, c, virt, wr, fetch);
    }
  }

  lemma QuietResult(m: Mem, c: Csr, virt: nat, wr: bool, fetch: bool)
    ensures Reference(m, c, virt, wr, fetch, false).0 == Reference(m, c, virt, wr, fetch, true).0
    ensures !BitsOutstanding(m, c, virt, wr, fetch) ==> Reference(m, c, virt, wr, fetch, true).1 == m
  {
    hide FindLeaf, AccessAllowed, UpdateNeeded, Split32, MakePhys, Updated;
  }

  lemma UpdateSettles(p: Pte, wr: bool)
    ensures !UpdateNeeded(Updated(p, wr), wr)
    ensures UpdateNeeded(p, wr) ==> Updated(p, wr) != p
  {}

  /** After a write-back the walk finds the updated leaf. */
  lemma LeafWritten(m: Mem, c: Csr, virt: nat, wr: bool, fetch: bool)
    requires WellFormed(m) && FindLeaf(m, c.root, virt).Some?
    requires var l := FindLeaf(m, c.root, virt).value; UpdateNeeded(l.pte, wr) && Accepts(m, l.addr, true)
    ensures var l := FindLeaf(m, c.root, virt).value;
            FindLeaf(Write32(m, l.addr, Updated(l.pte, wr), true), c.root, virt) == Some(l.(pte := Updated(l.pte, wr)))
  {
    hide FindLeaf, UpdateNeeded, Updated, PteAt, Write32, WellFormed, Accepts, Canon, Grown, SameButAD, ADWithin;
    var l := FindLeaf(m, c.root, virt).value;
    LeafInMemory(m, c.root, virt);
    WriteBackGrows(m, l.addr, wr);
    WriteBack(m, l.addr, wr, l.addr);
    GrowthKeepsWalks(m, Write32(m, l.addr, Updated(l.pte, wr), true), c.root, virt);
  }

  /** A walk that was written back finds nothing more to write, and the same address. */
  lemma RepeatWritten(m: Mem, c: Csr, virt: nat, wr: bool, fetch: bool)
    requires WellFormed(m) && UseSv32(c, fetch) && FindLeaf(m, c.root, virt).Some?
    requires var l := FindLeaf(m, c.root, virt).value;
             AccessAllowed(c, l.pte, wr, fetch) && UpdateNeeded(l.pte, wr) && Accepts(m, l.addr, true)
    ensures var n := Reference(m, c, virt, wr, fetch, true).1;
            && !BitsOutstanding(n, c, virt, wr, fetch)
            && Reference(n, c, virt, wr, fetch, true) == (Reference(m, c, virt, wr, fetch, true).0, n)
  {
    hide FindLeaf, UpdateNeeded, Updated, Write32, WellFormed, Accepts, AccessAllowed, MakePhys, UseSv32;
    var l := FindLeaf(m, c.root, virt).value;
    LeafWritten(m, c, virt, wr, fetch);
    UpdateSettles(l.pte, wr);
    UpdatedAllows(c, l.pte, wr, fetch);
  }

  lemma UpdatedAllows(c: Csr, p: Pte, wr: bool, fetch: bool)
    ensures AccessAllowed(c, Updated(p, wr), wr, fetch) == AccessAllowed(c, p, wr, fetch)
  {
    hide Updated, R, W, X, U, V, G, A, D, Ppn, SameButAD, ADWithin, UpdateNeeded;
    UpdateSetsAD(p, wr);
    ADIrrelevant(p, Updated(p, wr));
  }

  /**
   The load-reserved instruction translates quietly right after a noisy load of the same address:
   by then nothing is outstanding, so the second translation repeats the first and harms nothing.
  */
  lemma QuietAfterNoisy(m: Mem, c: Csr, virt: nat, wr: bool, fetch: bool)
    requires WellFormed(m)
    ensures var n := Reference(m, c, virt, wr, fetch, true).1;
            && !BitsOutstanding(n, c, virt, wr, fetch)
            && Reference(n, c, virt, wr, fetch, true) == (Reference(m, c, virt, wr, fetch, true).0, n)
  {
    hide FindLeaf, UpdateNeeded, Updated, WellFormed, AccessAllowed, MakePhys, UseSv32, Accepts, Split32;
    if UseSv32(c, fetch) && FindLeaf(m, c.root, virt).Some? {
      var l := FindLeaf(m, c.root, virt).value;
      if AccessAllowed(c, l.pte, wr, fetch) && UpdateNeeded(l.pte, wr) && Accepts(m, l.addr, true) {
        RepeatWritten(m, c, virt, wr, fetch);
      }
    }
  }

  // ---------- several matching entries ----------

  /** In a coherent buffer all entries that match an address are of one page size, scope and target. */
  lemma MatchesAgree(m: Mem, roots: Roots, tlb: seq<Entry>, asid: nat, virt: nat, e: Entry, f: Entry)
    requires Coherent(m, roots, tlb) && asid in roots && e in tlb && f in tlb
    requires Matches(e, asid, virt) && Matches(f, asid, virt)
    ensures e.mega == f.mega && e.global == f.global && SameButAD(e.pte, f.pte)
  {
    hide FindLeaf, SameButAD, Accepts;
    assert EntryCoherent(m, roots, e) && EntryCoherent(m, roots, f);
    assert Backs(m, roots[asid], virt, e) && Backs(m, roots[asid], virt, f);
    SameTwice(FindLeaf(m, roots[asid], virt).value.pte, e.pte, f.pte);
  }

  lemma SameTwice(p: Pte, e: Pte, f: Pte)
    requires SameButAD(p, e) && SameButAD(p, f)
    ensures SameButAD(e, f)
  {}

  /** So there the most recently used match is a megapage exactly when any match is. */
  lemma PriorityIsMoot(m: Mem, roots: Roots, tlb: seq<Entry>, asid: nat, virt: nat)
    requires Coherent(m, roots, tlb) && asid in roots && FirstMatch(tlb, asid, virt) < |tlb|
    ensures tlb[FirstMatch(tlb, asid, virt)].mega <==> exists e :: e in tlb && Matches(e, asid, virt) && e.mega
  {
    hide Coherent, Matches;
    var k := FirstMatch(tlb, asid, virt);
    assert tlb[k] in tlb;
    forall e | e in tlb && Matches(e, asid, virt) ensures e.mega == tlb[k].mega {
      MatchesAgree(m, roots, tlb, asid, virt, e, tlb[k]);
    }
  }
}
