/**
 What the translation buffer is for: a translation once made is answered again
 from the buffer, without a look at memory, for every address of its page and
 every address space it serves; and no translation is ever held twice.
*/
module Retention {
  import opened Options
  import opened Memory
  import opened Sv32
  import opened Tlb
  import opened Transparency
  import opened Translation
  import PT = PageTable

  // ---------- the entry just used ----------

  /** An entry that answers for the leaf of this address. */
  predicate Answers(e: Entry, l: Leaf, asid: nat, virt: nat, wr: bool) {
    && e.vpn == VpnOf(virt, e.mega) && (e.global || e.asid == asid)
    && e.mega == l.mega && e.global == l.global && SameButAD(l.pte, e.pte) && !UpdateNeeded(e.pte, wr)
  }

  lemma WalkLeavesFront(m: Mem, tlb: seq<Entry>, capacity: nat, c: Csr, virt: nat, wr: bool, fetch: bool)
    requires |tlb| <= capacity && 0 < capacity && FindLeaf(m, c.root, virt).Some?
    requires AccessAllowed(c, FindLeaf(m, c.root, virt).value.pte, wr, fetch)
    ensures var r := WalkAndFill(m, tlb, capacity, c, virt, wr, fetch, true);
            r.tlb != [] && Answers(r.tlb[0], FindLeaf(m, c.root, virt).value, c.asid, virt, wr)
  {
    hide FindLeaf, AccessAllowed, UpdateNeeded, Updated, MakePhys, Write32, SameButAD, VpnOf;
    var l := FindLeaf(m, c.root, virt).value;
    UpdateSetsAD(l.pte, wr);
    SameItself(l.pte);
  }

  lemma HitLeavesFront(m: Mem, c: Csr, virt: nat, wr: bool, e: Entry)
    requires Backs(m, c.root, virt, e) && Matches(e, c.asid, virt) && !UpdateNeeded(e.pte, wr)
    ensures FindLeaf(m, c.root, virt).Some? && Answers(e, FindLeaf(m, c.root, virt).value, c.asid, virt, wr)
  {
    hide FindLeaf, UpdateNeeded, SameButAD, VpnOf;
  }

  /** After a translation through a coherent buffer the entry in front answers for its leaf. */
  lemma FrontAnswers(m: Mem, roots: Roots, tlb: seq<Entry>, capacity: nat, c: Csr, virt: nat, wr: bool, fetch: bool)
    requires Coherent(m, roots, tlb) && c.asid in roots && roots[c.asid] == c.root
    requires |tlb| <= capacity && 0 < capacity && UseSv32(c, fetch) && FindLeaf(m, c.root, virt).Some?
    requires AccessAllowed(c, FindLeaf(m, c.root, virt).value.pte, wr, fetch)
    ensures var r := Convert(m, tlb, capacity, c, virt, wr, fetch, true);
            r.tlb != [] && Answers(r.tlb[0], FindLeaf(m, c.root, virt).value, c.asid, virt, wr)
  {
    hide FindLeaf, AccessAllowed, UpdateNeeded, MakePhys, Answers, EntryCoherent, Backs, UseSv32, IsValid, Misaligned,
         WalkAndFill, Matches;
    var k := FirstMatch(tlb, c.asid, virt);
    if k == |tlb| {
      WalkLeavesFront(m, tlb, capacity, c, virt, wr, fetch);
    } else {
      var e := tlb[k];
      assert e in tlb;
      EntryBacks(m, roots, e, c, virt);
      BackedIsUsable(m, c.root, virt, e);
      SameAccess(m, c, virt, wr, fetch, e);
      if UpdateNeeded(e.pte, wr) {
        RemoveShrinks(ToFront(tlb, k), c.asid, virt);
        WalkLeavesFront(m, Remove(ToFront(tlb, k), c.asid, virt), capacity, c, virt, wr, fetch);
      } else {
        HitLeavesFront(m, c, virt, wr, e);
      }
    }
  }

  lemma SameAccess(m: Mem, c: Csr, virt: nat, wr: bool, fetch: bool, e: Entry)
    requires Backs(m, c.root, virt, e) && FindLeaf(m, c.root, virt).Some?
    ensures AccessAllowed(c, e.pte, wr, fetch) == AccessAllowed(c, FindLeaf(m, c.root, virt).value.pte, wr, fetch)
  {
    hide FindLeaf, SameButAD, R, W, X, U, V, G, Ppn, EffectivePriv;
    ADIrrelevant(FindLeaf(m, c.root, virt).value.pte, e.pte);
  }

  /** An entry in front that answers is used as it is, whatever memory holds. */
  lemma FrontIsUsed(n: Mem, tlb: seq<Entry>, capacity: nat, c: Csr, v: nat, wr: bool, fetch: bool, noisy: bool)
    requires 0 < |tlb| <= capacity && UseSv32(c, fetch) && Matches(tlb[0], c.asid, v)
    requires var e := tlb[0];
             && IsValid(e.pte) && AccessAllowed(c, e.pte, wr, fetch) && !(e.mega && Misaligned(e.pte))
             && !UpdateNeeded(e.pte, wr)
    ensures Convert(n, tlb, capacity, c, v, wr, fetch, noisy) ==
            Converted(Phys(MakePhys(v, tlb[0].pte, tlb[0].mega)), n, tlb)
  {
    hide AccessAllowed, UpdateNeeded, MakePhys, UseSv32, IsValid, Misaligned, WalkAndFill, Matches;
    assert FirstMatch(tlb, c.asid, v) == 0;
    assert ToFront(tlb, 0) == tlb;
  }

  /**
   A translation once made through a coherent buffer is remembered: any later
   one of the same kind for an address of the same page, in the same address
   space or, if it is global, in any, gives its address at once, with whatever
   memory and root table, and changes neither memory nor buffer.
  */
  lemma Remembered(m: Mem, roots: Roots, tlb: seq<Entry>, capacity: nat, st: PT.Status, asid: nat, virt: nat,
                   access: PT.Access, n: Mem, space: nat, root: nat, v: nat, noisy: bool)
    requires Coherent(m, roots, tlb) && asid in roots && |tlb| <= capacity && 0 < capacity && !Misgoverned(st, access)
    requires PT.Resolve(Reader(m), SCHEME, st, roots[asid], virt, access).Through?
    requires var f := PT.Resolve(Reader(m), SCHEME, st, roots[asid], virt, access).leaf;
             && (space == asid || f.global)
             && (if f.level == 0 then v / 0x1000 == virt / 0x1000 else v / 0x40_0000 == virt / 0x40_0000)
    ensures var f := PT.Resolve(Reader(m), SCHEME, st, roots[asid], virt, access).leaf;
            var wr, fetch := access == PT.Store, access == PT.Fetch;
            var r := Convert(m, tlb, capacity, CsrOf(st, asid, roots[asid]), virt, wr, fetch, true);
            && |r.tlb| <= capacity
            && Convert(n, r.tlb, capacity, CsrOf(st, space, root), v, wr, fetch, noisy) ==
               Converted(Phys(PT.PhysicalAddress(SCHEME, f, v)), n, r.tlb)
  {
    hide FindLeaf, AccessAllowed, UpdateNeeded, MakePhys, Coherent, Reader, PT.Lookup, PT.PhysicalAddress, PT.Permitted,
         Convert, IsValid, Misaligned, IsLeaf, V, R, W, X, U, G, A, D, Ppn, SameButAD;
    var wr, fetch := access == PT.Store, access == PT.Fetch;
    var c, c' := CsrOf(st, asid, roots[asid]), CsrOf(st, space, root);
    WalkIsReference(m, c.root, virt);
    var l := FindLeaf(m, c.root, virt).value;
    AccessIsReference(c, l.pte, wr, fetch);
    ConvertFits(m, tlb, capacity, c, virt, wr, fetch);
    FrontAnswers(m, roots, tlb, capacity, c, virt, wr, fetch);
    var r := Convert(m, tlb, capacity, c, virt, wr, fetch, true);
    var e := r.tlb[0];
    LeafInMemory(m, c.root, virt);
    SameUse(c, c', l.pte, e.pte, wr, fetch, e.mega);
    FrontIsUsed(n, r.tlb, capacity, c', v, wr, fetch, noisy);
    AddressOfLeaf(l, e.pte, v);
  }

  lemma ConvertFits(m: Mem, tlb: seq<Entry>, capacity: nat, c: Csr, virt: nat, wr: bool, fetch: bool)
    requires |tlb| <= capacity && 0 < capacity
    ensures |Convert(m, tlb, capacity, c, virt, wr, fetch, true).tlb| <= capacity
  {
    hide Pagewalk, AccessAllowed, IsValid, Misaligned, UpdateNeeded, MakePhys, FirstMatch, Remove;
    var k := FirstMatch(tlb, c.asid, virt);
    if k < |tlb| {
      RemoveShrinks(ToFront(tlb, k), c.asid, virt);
    }
  }

  lemma SameUse(c: Csr, c': Csr, p: Pte, q: Pte, wr: bool, fetch: bool, mega: bool)
    requires SameButAD(p, q) && c' == c.(asid := c'.asid, root := c'.root)
    ensures AccessAllowed(c', q, wr, fetch) == AccessAllowed(c, p, wr, fetch)
    ensures IsValid(q) == IsValid(p) && Misaligned(q) == Misaligned(p)
  {
    hide SameButAD, V, R, W, X, U, G, Ppn, IsLeaf, IsValid;
    ADIrrelevant(p, q);
  }

  lemma AddressOfLeaf(l: Leaf, q: Pte, v: nat)
    requires SameButAD(l.pte, q)
    ensures MakePhys(v, q, l.mega) ==
            PT.PhysicalAddress(SCHEME, PT.Found(l.addr, View(l.pte), if l.mega then 1 else 0, l.global), v)
  {
    hide SameButAD, V, R, W, X, U, G, A, D, Ppn, IsLeaf, IsValid, PT.Span, PT.Pow;
    ADIrrelevant(l.pte, q);
    MakePhysIsStep8(v, q, l.mega);
    Spans();
  }

  // ---------- no translation is held twice ----------

  /** Both entries hold the translation of some address of some address space. */
  ghost predicate Overlapping(roots: Roots, e: Entry, f: Entry) {
    exists asid: nat, virt: nat :: asid in roots && Held(e, asid, virt) && Held(f, asid, virt)
  }

  predicate Held(e: Entry, asid: nat, virt: nat) { Contains(e, virt) && (e.global || e.asid == asid) }

  ghost predicate Single(roots: Roots, tlb: seq<Entry>) {
    forall i, j :: 0 <= i < j < |tlb| ==> !Overlapping(roots, tlb[i], tlb[j])
  }

  lemma HeldIsMatch(e: Entry, asid: nat, virt: nat)
    ensures Held(e, asid, virt) <==> Matches(e, asid, virt)
  {
    hide Contains, MapsVirt;
    MapsVirtIff(e, virt);
  }

  lemma OverlappingSymmetric(roots: Roots, e: Entry, f: Entry)
    requires Overlapping(roots, e, f)
    ensures Overlapping(roots, f, e)
  {}

  lemma SingleAnyOrder(roots: Roots, tlb: seq<Entry>, i: nat, j: nat)
    requires Single(roots, tlb) && i < |tlb| && j < |tlb| && i != j
    ensures !Overlapping(roots, tlb[i], tlb[j])
  {
    hide Overlapping;
    if Overlapping(roots, tlb[i], tlb[j]) {
      OverlappingSymmetric(roots, tlb[i], tlb[j]);
    }
  }

  lemma SingleToFront(roots: Roots, tlb: seq<Entry>, k: nat)
    requires Single(roots, tlb) && k < |tlb|
    ensures Single(roots, Without(tlb, k)) && Single(roots, ToFront(tlb, k))
  {
    hide Overlapping;
    var s := ToFront(tlb, k);
    forall j | 0 < j < |s| ensures !Overlapping(roots, s[0], s[j]) {
      SingleAnyOrder(roots, tlb, k, if j <= k then j - 1 else j);
    }
  }

  /** An entry that overlaps the one just made would have been found by the lookup. */
  lemma OverlapIsFound(m: Mem, roots: Roots, tlb: seq<Entry>, asid: nat, virt: nat, e: Entry, f: Entry)
    requires Coherent(m, roots, tlb) && e in tlb && f in tlb && Overlapping(roots, e, f)
    requires e.asid == asid && e.vpn == VpnOf(virt, e.mega)
    ensures Matches(f, asid, virt)
  {
    hide Coherent, Contains, SameButAD;
    var a: nat, v: nat :| a in roots && Held(e, a, v) && Held(f, a, v);
    HeldIsMatch(e, a, v);
    HeldIsMatch(f, a, v);
    MatchesAgree(m, roots, tlb, a, v, e, f);
  }

  lemma FillKeepsSingle(m: Mem, roots: Roots, tlb: seq<Entry>, capacity: nat, c: Csr, virt: nat, wr: bool, fetch: bool)
    requires WellFormed(m) && SharedGlobals(m, roots) && Coherent(m, roots, tlb) && Single(roots, tlb)
    requires c.asid in roots && roots[c.asid] == c.root && |tlb| <= capacity && 0 < capacity
    requires forall i :: 0 <= i < |tlb| ==> !Matches(tlb[i], c.asid, virt)
    ensures Single(roots, WalkAndFill(m, tlb, capacity, c, virt, wr, fetch, true).tlb)
  {
    hide Pagewalk, Overlapping, Matches, Coherent, SharedGlobals, WellFormed, VpnOf;
    WalkKeepsCoherence(m, roots, tlb, capacity, c, virt, wr, fetch);
    var r := WalkAndFill(m, tlb, capacity, c, virt, wr, fetch, true);
    if Pagewalk(m, c, virt, wr, fetch, true).leaf.Some? {
      forall j | 0 < j < |r.tlb| ensures !Overlapping(roots, r.tlb[0], r.tlb[j]) {
        assert r.tlb[j] == tlb[j - 1] && r.tlb[0] in r.tlb && r.tlb[j] in r.tlb;
        if Overlapping(roots, r.tlb[0], r.tlb[j]) {
          OverlapIsFound(r.mem, roots, r.tlb, c.asid, virt, r.tlb[0], r.tlb[j]);
        }
      }
    }
  }

  /** The entry found is the only one there was to find. */
  lemma FoundOnce(roots: Roots, tlb: seq<Entry>, asid: nat, virt: nat, k: nat)
    requires Single(roots, tlb) && asid in roots && k < |tlb| && Matches(tlb[k], asid, virt)
    ensures forall i :: 0 <= i < |tlb| - 1 ==> !Matches(Without(tlb, k)[i], asid, virt)
  {
    hide Matches, Held;
    forall i | 0 <= i < |tlb| - 1 ensures !Matches(Without(tlb, k)[i], asid, virt) {
      var j := if i < k then i else i + 1;
      SingleAnyOrder(roots, tlb, k, j);
      HeldIsMatch(tlb[k], asid, virt);
      HeldIsMatch(tlb[j], asid, virt);
    }
  }

  /** Translating keeps the buffer free of second entries for the same translation. */
  lemma ConvertKeepsSingle(m: Mem, roots: Roots, tlb: seq<Entry>, capacity: nat, c: Csr, virt: nat, wr: bool,
                           fetch: bool)
    requires WellFormed(m) && SharedGlobals(m, roots) && Coherent(m, roots, tlb) && Single(roots, tlb)
    requires Configured(c, roots) && |tlb| <= capacity && 0 < capacity
    ensures Single(roots, Convert(m, tlb, capacity, c, virt, wr, fetch, true).tlb)
  {
    hide Single, Matches, EntryCoherent, SharedGlobals, WellFormed, WalkAndFill, AccessAllowed, IsValid, Misaligned,
         UpdateNeeded, MakePhys;
    var k := FirstMatch(tlb, c.asid, virt);
    if !UseSv32(c, fetch) {
    } else if k == |tlb| {
      FillKeepsSingle(m, roots, tlb, capacity, c, virt, wr, fetch);
    } else {
      SingleToFront(roots, tlb, k);
      var used := ToFront(tlb, k);
      assert FirstMatch(used, c.asid, virt) == 0;
      assert Remove(used, c.asid, virt) == Without(tlb, k);
      FoundOnce(roots, tlb, c.asid, virt, k);
      FillKeepsSingle(m, roots, Without(tlb, k), capacity, c, virt, wr, fetch);
    }
  }
}
