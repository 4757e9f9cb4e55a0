/**
 Page-table edits and fences as separate events.  Software edits the tables;
 every hart fences in its own time and with whichever form suffices, and until
 then keeps away from the translations the edit has changed.
*/
module Shootdown {
  import opened Memory
  import opened Sv32
  import opened Tlb
  import opened Transparency
  import opened MmuRuns

  /** Translations that a buffer may hold outdated: address space, address, and whether the entry is global. */
  type Stale = iset<(nat, nat, bool)>

  ghost predicate EntryFresh(m: Mem, roots: Roots, e: Entry, stale: Stale) {
    forall asid: nat, virt: nat {:trigger roots[asid], MapsVirt(e, virt)} ::
      asid in roots && Serves(e, asid) && MapsVirt(e, virt) && (asid, virt, e.global) !in stale ==>
        Backs(m, roots[asid], virt, e)
  }

  /** The buffer is coherent but for what is stale. */
  ghost predicate Fresh(m: Mem, roots: Roots, tlb: seq<Entry>, stale: Stale) {
    forall e :: e in tlb ==> EntryFresh(m, roots, e, stale)
  }

  lemma FreshIsCoherent(m: Mem, roots: Roots, tlb: seq<Entry>)
    ensures Fresh(m, roots, tlb, iset{}) <==> Coherent(m, roots, tlb)
  {
    hide Backs;
    if Fresh(m, roots, tlb, iset{}) {
      forall e | e in tlb ensures EntryCoherent(m, roots, e) {
        assert EntryFresh(m, roots, e, iset{});
      }
    }
    if Coherent(m, roots, tlb) {
      forall e | e in tlb ensures EntryFresh(m, roots, e, iset{}) {
        assert EntryCoherent(m, roots, e);
      }
    }
  }

  // ---------- fences ----------

  predicate OnPage(virt: nat, v: nat) { virt / 4096 == v / 4096 }

  /** What stays stale after a fence. */
  ghost function Cleared(stale: Stale, f: Fence): Stale {
    match f
    case All => iset{}
    case ByAsid(x) => iset t | t in stale && !(t.0 == x && !t.2)
    case ByAddr(v) => iset t | t in stale && !OnPage(t.1, v)
    case ByAsidAndAddr(x, v) => iset t | t in stale && !(t.0 == x && !t.2 && OnPage(t.1, v))
  }

  lemma PageShared(e: Entry, virt: nat, v: nat)
    requires MapsVirt(e, virt) && OnPage(virt, v)
    ensures MapsVirt(e, v)
  {
    PageInMegapage(virt);
    PageInMegapage(v);
  }

  /** Each form of the fence removes every outdated entry of the translations it clears. */
  lemma FenceClears(m: Mem, roots: Roots, tlb: seq<Entry>, stale: Stale, f: Fence)
    requires Fresh(m, roots, tlb, stale)
    ensures Fresh(m, roots, Flush(tlb, f), Cleared(stale, f))
  {
    hide Backs, OnPage, VpnOf;
    forall e, asid: nat, virt: nat | e in Flush(tlb, f) && asid in roots && Serves(e, asid) && MapsVirt(e, virt)
        && (asid, virt, e.global) !in Cleared(stale, f)
      ensures Backs(m, roots[asid], virt, e)
    {
      assert e in tlb && !Hits(f, e) && EntryFresh(m, roots, e, stale);
      if f.ByAddr? && OnPage(virt, f.virt) {
        PageShared(e, virt, f.virt);
      }
      if f.ByAsidAndAddr? && OnPage(virt, f.virt) {
        PageShared(e, virt, f.virt);
      }
    }
  }

  // ---------- edits ----------

  /** An edit changes no translation but those named; an address space that is new counts as changed throughout. */
  ghost predicate Confined(m: Mem, roots: Roots, n: Mem, next: Roots, changed: Stale) {
    && n.bytes.Keys == m.bytes.Keys && n.rom == m.rom
    && forall a: nat, virt: nat, g: bool {:trigger (a, virt, g) in changed} ::
         a in next && (a, virt, g) !in changed ==>
           a in roots && Unchanged(m, roots[a], n, next[a], virt, g)
  }

  /** A translation of this scope is found as before. */
  ghost predicate Unchanged(m: Mem, root: nat, n: Mem, next: nat, virt: nat, global: bool) {
    FindLeaf(m, root, virt).Some? && FindLeaf(m, root, virt).value.global == global ==>
      FindLeaf(n, next, virt) == FindLeaf(m, root, virt)
  }

  lemma EditKeepsFresh(m: Mem, roots: Roots, n: Mem, next: Roots, changed: Stale, tlb: seq<Entry>, stale: Stale)
    requires Fresh(m, roots, tlb, stale) && Confined(m, roots, n, next, changed)
    ensures Fresh(n, next, tlb, stale + changed)
  {
    hide FindLeaf, SameButAD, ADWithin, VpnOf;
    forall e, asid: nat, virt: nat | e in tlb && asid in next && Serves(e, asid) && MapsVirt(e, virt)
        && (asid, virt, e.global) !in stale + changed
      ensures Backs(n, next[asid], virt, e)
    {
      assert EntryFresh(m, roots, e, stale);
      assert (asid, virt, e.global) !in changed;
      assert Unchanged(m, roots[asid], n, next[asid], virt, e.global);
      assert Backs(m, roots[asid], virt, e);
    }
  }

  /** So a fence that covers what an edit changed makes any coherent buffer coherent with the edited tables. */
  lemma FenceSuffices(m: Mem, roots: Roots, n: Mem, next: Roots, changed: Stale, tlb: seq<Entry>, f: Fence)
    requires Coherent(m, roots, tlb) && Confined(m, roots, n, next, changed) && Cleared(changed, f) == iset{}
    ensures Coherent(n, next, Flush(tlb, f))
  {
    hide Coherent, Fresh, Confined, Cleared;
    FreshIsCoherent(m, roots, tlb);
    EditKeepsFresh(m, roots, n, next, changed, tlb, iset{});
    assert iset{} + changed == changed;
    FenceClears(n, next, tlb, changed, f);
    FreshIsCoherent(n, next, Flush(tlb, f));
  }

  // ---------- translation through a buffer that is partly stale ----------

  lemma GrowthKeepsFresh(m: Mem, n: Mem, roots: Roots, tlb: seq<Entry>, stale: Stale)
    requires Grown(m, n) && n.bytes.Keys == m.bytes.Keys && n.rom == m.rom
    requires Fresh(m, roots, tlb, stale)
    ensures Fresh(n, roots, tlb, stale)
  {
    hide Backs, Grown;
    forall e, asid: nat, virt: nat | e in tlb && asid in roots && Serves(e, asid) && MapsVirt(e, virt)
        && (asid, virt, e.global) !in stale
      ensures Backs(n, roots[asid], virt, e)
    {
      assert EntryFresh(m, roots, e, stale);
      GrowthKeepsBacks(m, n, roots[asid], virt, e);
    }
  }

  lemma NewEntryFresh(m: Mem, roots: Roots, c: Csr, virt: nat, wr: bool, fetch: bool, stale: Stale)
    requires WellFormed(m) && SharedGlobals(m, roots) && c.asid in roots && roots[c.asid] == c.root
    requires Pagewalk(m, c, virt, wr, fetch, true).leaf.Some?
    ensures var w := Pagewalk(m, c, virt, wr, fetch, true);
            EntryFresh(w.mem, roots, EntryOf(w.leaf.value, c.asid, virt), stale)
  {
    hide Backs, Pagewalk, SharedGlobals, WellFormed;
    NewEntryCoherent(m, roots, c, virt, wr, fetch);
  }

  lemma WalkKeepsFresh(m: Mem, roots: Roots, tlb: seq<Entry>, stale: Stale, capacity: nat, c: Csr, virt: nat,
                       wr: bool, fetch: bool)
    requires WellFormed(m) && SharedGlobals(m, roots) && Fresh(m, roots, tlb, stale)
    requires c.asid in roots && roots[c.asid] == c.root && |tlb| <= capacity && 0 < capacity
    ensures var r := WalkAndFill(m, tlb, capacity, c, virt, wr, fetch, true);
            Fresh(r.mem, roots, r.tlb, stale)
  {
    hide Pagewalk, EntryFresh, SharedGlobals, Grown, WellFormed;
    var w := Pagewalk(m, c, virt, wr, fetch, true);
    PagewalkGrows(m, c, virt, wr, fetch);
    GrowthKeepsFresh(m, w.mem, roots, tlb, stale);
    if w.leaf.Some? {
      NewEntryFresh(m, roots, c, virt, wr, fetch, stale);
    }
  }

  /** Nothing about this translation is stale. */
  predicate Current(stale: Stale, asid: nat, virt: nat) {
    (asid, virt, false) !in stale && (asid, virt, true) !in stale
  }

  lemma EntryCurrent(m: Mem, roots: Roots, e: Entry, stale: Stale, c: Csr, virt: nat)
    requires EntryFresh(m, roots, e, stale) && c.asid in roots && roots[c.asid] == c.root
    requires Matches(e, c.asid, virt) && Current(stale, c.asid, virt)
    ensures Backs(m, c.root, virt, e)
  {
    hide Backs;
    assert (c.asid, virt, e.global) !in stale;
  }

  /** A translation that is not stale is a walk, whatever else is stale. */
  lemma CurrentTransparent(m: Mem, roots: Roots, tlb: seq<Entry>, stale: Stale, capacity: nat,
                           c: Csr, virt: nat, wr: bool, fetch: bool)
    requires WellFormed(m) && SharedGlobals(m, roots) && Fresh(m, roots, tlb, stale) && Configured(c, roots)
    requires |tlb| <= capacity && 0 < capacity && (UseSv32(c, fetch) ==> Current(stale, c.asid, virt))
    ensures var r := Convert(m, tlb, capacity, c, virt, wr, fetch, true);
            (r.result, r.mem) == Reference(m, c, virt, wr, fetch, true) && Fresh(r.mem, roots, r.tlb, stale)
  {
    hide Pagewalk, EntryFresh, SharedGlobals, WellFormed, Backs, MakePhys, AccessAllowed, IsValid, Misaligned,
         UpdateNeeded;
    if UseSv32(c, fetch) {
      var k := FirstMatch(tlb, c.asid, virt);
      if k == |tlb| {
        WalkKeepsFresh(m, roots, tlb, stale, capacity, c, virt, wr, fetch);
      } else {
        var e := tlb[k];
        var used := ToFront(tlb, k);
        assert forall x :: x in used ==> x in tlb;
        assert e in tlb;
        EntryCurrent(m, roots, e, stale, c, virt);
        BackedIsUsable(m, c.root, virt, e);
        if !AccessAllowed(c, e.pte, wr, fetch) {
          DeniedIsWalk(m, c, virt, wr, fetch, e);
        } else if !UpdateNeeded(e.pte, wr) {
          HitIsWalk(m, c, virt, wr, fetch, e);
        } else {
          RemoveShrinks(used, c.asid, virt);
          WalkKeepsFresh(m, roots, Remove(used, c.asid, virt), stale, capacity, c, virt, wr, fetch);
        }
      }
    }
  }

  // ---------- runs ----------

  /** The events of a run, and edits that fence nothing. */
  datatype Happening = Usual(event: Event) | Rewrite(edits: seq<(nat, seq<bv8>)>, roots: Roots, changed: Stale)

  function Proceed(s: Machine, ev: Happening): (Machine, seq<Translation>)
    requires Sound(s)
  {
    match ev
    case Usual(e) => Step(s, e)
    case Rewrite(edits, _, _) => (s.(mem := Edit(s.mem, edits)), [])
  }

  function FlatProceed(s: Flat, ev: Happening): (Flat, seq<Translation>) {
    match ev
    case Usual(e) => FlatStep(s, e)
    case Rewrite(edits, _, _) => (s.(mem := Edit(s.mem, edits)), [])
  }

  function RootsAfter(roots: Roots, ev: Happening): Roots {
    match ev
    case Usual(e) => NextRoots(roots, e)
    case Rewrite(_, next, _) => next
  }

  /** What is stale in the buffer of hart i after an event. */
  ghost function StaleAfter(stale: Stale, i: nat, ev: Happening): Stale {
    match ev
    case Rewrite(_, _, changed) => stale + changed
    case Usual(e) =>
      match e
      case Sfence(j, f) => if i == j then Cleared(stale, f) else stale
      case Resize(j, n) => if i == j && 0 < n then iset{} else stale
      case Remap(_, _) => iset{}
      case _ => stale
  }

  ghost function StalesAfter(stales: seq<Stale>, ev: Happening): (r: seq<Stale>)
    ensures |r| == |stales|
  {
    seq(|stales|, i requires 0 <= i < |stales| => StaleAfter(stales[i], i, ev))
  }

  /**
   What software owes: a hart translates only what is not stale in its own
   buffer, stores leave the tables alone, and an edit names what it changes
   and leaves global translations shared.
  */
  ghost predicate Due(s: Flat, roots: Roots, stales: seq<Stale>, ev: Happening) {
    match ev
    case Usual(e) =>
      && Owed(s, roots, e)
      && (e.Translate? && e.hart < |s.csrs| && e.hart < |stales| && UseSv32(s.csrs[e.hart], e.fetch) ==>
            Current(stales[e.hart], s.csrs[e.hart].asid, e.virt))
    case Rewrite(edits, next, changed) =>
      && Confined(s.mem, roots, Edit(s.mem, edits), next, changed) && SharedGlobals(Edit(s.mem, edits), next)
      && forall i :: 0 <= i < |s.csrs| ==> Configured(s.csrs[i], next)
  }

  ghost predicate Dutiful(s: Flat, roots: Roots, stales: seq<Stale>, evs: seq<Happening>)
    decreases |evs|
  {
    evs == [] ||
    (Due(s, roots, stales, evs[0]) &&
     Dutiful(FlatProceed(s, evs[0]).0, RootsAfter(roots, evs[0]), StalesAfter(stales, evs[0]), evs[1..]))
  }

  ghost predicate HartFresh(m: Mem, roots: Roots, h: Hart, stale: Stale) {
    Fresh(m, roots, h.tlb, stale) && Configured(h.csr, roots)
  }

  ghost predicate Kept(s: Machine, roots: Roots, stales: seq<Stale>) {
    && Sound(s) && WellFormed(s.mem) && SharedGlobals(s.mem, roots) && |stales| == |s.harts|
    && forall i :: 0 <= i < |s.harts| ==> HartFresh(s.mem, roots, s.harts[i], stales[i])
  }

  lemma ProceedSound(s: Machine, ev: Happening)
    requires Sound(s)
    ensures Sound(Proceed(s, ev).0)
  {
    hide Step;
    if ev.Usual? {
      StepSound(s, ev.event);
    }
  }

  function RunAll(s: Machine, evs: seq<Happening>): (r: (Machine, seq<Translation>))
    requires Sound(s)
    decreases |evs|
  {
    if evs == [] then (s, [])
    else
      ProceedSound(s, evs[0]);
      var (s1, out) := Proceed(s, evs[0]);
      var (s2, rest) := RunAll(s1, evs[1..]);
      (s2, out + rest)
  }

  function FlatRunAll(s: Flat, evs: seq<Happening>): (Flat, seq<Translation>)
    decreases |evs|
  {
    if evs == [] then (s, [])
    else
      var (s1, out) := FlatProceed(s, evs[0]);
      var (s2, rest) := FlatRunAll(s1, evs[1..]);
      (s2, out + rest)
  }

  lemma TranslateKept(s: Machine, roots: Roots, stales: seq<Stale>, i: nat, virt: nat, wr: bool, fetch: bool)
    requires Kept(s, roots, stales) && i < |s.harts|
    requires UseSv32(s.harts[i].csr, fetch) ==> Current(stales[i], s.harts[i].csr.asid, virt)
    ensures var h := s.harts[i];
            var r := Convert(s.mem, h.tlb, h.capacity, h.csr, virt, wr, fetch, true);
            && (r.result, r.mem) == Reference(s.mem, h.csr, virt, wr, fetch, true)
            && WellFormed(r.mem) && SharedGlobals(r.mem, roots)
            && forall j :: 0 <= j < |s.harts| ==>
                 HartFresh(r.mem, roots, if j == i then h.(tlb := r.tlb) else s.harts[j], stales[j])
  {
    hide Convert, Pagewalk, SharedGlobals, Fresh, WellFormed, Grown, Current;
    var h := s.harts[i];
    var r := Convert(s.mem, h.tlb, h.capacity, h.csr, virt, wr, fetch, true);
    assert HartFresh(s.mem, roots, h, stales[i]);
    CurrentTransparent(s.mem, roots, h.tlb, stales[i], h.capacity, h.csr, virt, wr, fetch);
    if UseSv32(h.csr, fetch) {
      WalkKeepsTables(s.mem, roots, h.csr, virt, wr, fetch);
      PagewalkGrows(s.mem, h.csr, virt, wr, fetch);
    }
    forall j | 0 <= j < |s.harts|
      ensures HartFresh(r.mem, roots, if j == i then h.(tlb := r.tlb) else s.harts[j], stales[j])
    {
      assert HartFresh(s.mem, roots, s.harts[j], stales[j]);
      if UseSv32(h.csr, fetch) && j != i {
        GrowthKeepsFresh(s.mem, r.mem, roots, s.harts[j].tlb, stales[j]);
      }
    }
  }

  /** Memories in which all walks and all permissions are the same. */
  lemma SameWalksKeepFresh(m: Mem, n: Mem, roots: Roots, tlb: seq<Entry>, stale: Stale)
    requires n.bytes.Keys == m.bytes.Keys && n.rom == m.rom && Fresh(m, roots, tlb, stale)
    requires forall a: nat, virt: nat :: a in roots ==> FindLeaf(n, roots[a], virt) == FindLeaf(m, roots[a], virt)
    ensures Fresh(n, roots, tlb, stale)
  {
    hide FindLeaf, SameButAD, ADWithin, VpnOf;
    forall e, asid: nat, virt: nat | e in tlb && asid in roots && Serves(e, asid) && MapsVirt(e, virt)
        && (asid, virt, e.global) !in stale
      ensures Backs(n, roots[asid], virt, e)
    {
      assert EntryFresh(m, roots, e, stale);
      assert Backs(m, roots[asid], virt, e);
    }
  }

  lemma StoreKept(s: Machine, roots: Roots, stales: seq<Stale>, addr: nat, bs: seq<bv8>, protected: bool)
    requires Kept(s, roots, stales) && LeavesTables(s.mem, roots, addr, |bs|)
    ensures Kept(s.(mem := WriteBytes(s.mem, addr, bs, protected)), roots, stales)
  {
    hide FindLeaf, LeavesTables, WellFormed, Fresh;
    var m, n := s.mem, WriteBytes(s.mem, addr, bs, protected);
    WriteKeepsShape(m, addr, bs, protected);
    WriteByteAt(m, addr, bs, protected, 0);
    hide WriteBytes;
    forall asid: nat, virt: nat | asid in roots
      ensures FindLeaf(n, roots[asid], virt) == FindLeaf(m, roots[asid], virt)
    {
      StoreKeepsWalks(m, roots, addr, bs, protected, asid, virt);
    }
    forall i | 0 <= i < |s.harts| ensures HartFresh(n, roots, s.harts[i], stales[i]) {
      assert HartFresh(m, roots, s.harts[i], stales[i]);
      SameWalksKeepFresh(m, n, roots, s.harts[i].tlb, stales[i]);
    }
  }

  /** Every event keeps each buffer coherent but for what is stale in it, and acts as without buffers. */
  lemma ProceedTransparent(s: Machine, roots: Roots, stales: seq<Stale>, ev: Happening)
    requires Kept(s, roots, stales) && Due(Erase(s), roots, stales, ev)
    ensures var (s', out) := Proceed(s, ev);
            && Kept(s', RootsAfter(roots, ev), StalesAfter(stales, ev))
            && FlatProceed(Erase(s), ev) == (Erase(s'), out)
  {
    hide Convert, Pagewalk, SharedGlobals, Fresh, WellFormed, WriteBytes, LeavesTables, Cleared, Confined;
    ProceedSound(s, ev);
    var s' := Proceed(s, ev).0;
    var next := StalesAfter(stales, ev);
    match ev
    case Rewrite(edits, roots', changed) =>
      EditKeepsShape(s.mem, edits);
      forall i | 0 <= i < |s.harts| ensures HartFresh(s'.mem, roots', s'.harts[i], next[i]) {
        assert HartFresh(s.mem, roots, s.harts[i], stales[i]);
        EditKeepsFresh(s.mem, roots, s'.mem, roots', changed, s.harts[i].tlb, stales[i]);
        assert Configured(Erase(s).csrs[i], roots');
      }
      assert Erase(s').csrs == Erase(s).csrs;
    case Usual(e) => UsualTransparent(s, roots, stales, e);
  }

  lemma UsualTransparent(s: Machine, roots: Roots, stales: seq<Stale>, e: Event)
    requires Kept(s, roots, stales) && Due(Erase(s), roots, stales, Usual(e))
    ensures var (s', out) := Step(s, e);
            && Kept(s', NextRoots(roots, e), StalesAfter(stales, Usual(e)))
            && FlatStep(Erase(s), e) == (Erase(s'), out)
  {
    hide Convert, Pagewalk, SharedGlobals, Fresh, WellFormed, WriteBytes, LeavesTables, Cleared, Current;
    StepSound(s, e);
    var s' := Step(s, e).0;
    var next := StalesAfter(stales, Usual(e));
    match e
    case Translate(i, virt, wr, fetch) =>
      if i < |s.harts| {
        TranslateKept(s, roots, stales, i, virt, wr, fetch);
      }
      assert Erase(s').csrs == Erase(s).csrs && next == stales;
    case Store(addr, bytes, protected) =>
      StoreKept(s, roots, stales, addr, bytes, protected);
      assert next == stales;
    case Configure(i, csr) =>
      if i < |s.harts| {
        assert Erase(s').csrs == Erase(s).csrs[i := csr];
        assert HartFresh(s.mem, roots, s.harts[i], stales[i]);
      }
      assert next == stales;
    case Sfence(i, f) =>
      forall j | 0 <= j < |s.harts| ensures HartFresh(s.mem, roots, s'.harts[j], next[j]) {
        assert HartFresh(s.mem, roots, s.harts[j], stales[j]);
        FenceClears(s.mem, roots, s.harts[j].tlb, stales[j], f);
      }
      assert Erase(s').csrs == Erase(s).csrs;
    case Resize(i, n) =>
      forall j | 0 <= j < |s.harts| ensures HartFresh(s.mem, roots, s'.harts[j], next[j]) {
        assert HartFresh(s.mem, roots, s.harts[j], stales[j]);
        FreshIsCoherent(s.mem, roots, []);
      }
      assert Erase(s').csrs == Erase(s).csrs;
    case Remap(edits, roots') =>
      EditKeepsShape(s.mem, edits);
      forall j | 0 <= j < |s.harts| ensures HartFresh(s'.mem, roots', s'.harts[j], next[j]) {
        FullFenceRestores(s'.mem, roots', s.harts[j].tlb);
        FreshIsCoherent(s'.mem, roots', Flush(s.harts[j].tlb, All));
        assert Configured(Erase(s).csrs[j], roots');
      }
      assert Erase(s').csrs == Erase(s).csrs;
  }

  /**
   Transparency without simultaneous fences: harts fence when they come to it,
   each with the form that covers what was changed, and as long as none uses a
   translation that is stale in its own buffer, all translations, faults and
   memory are those of a machine without buffers.
  */
  lemma {:induction false} ShootdownTransparent(s: Machine, roots: Roots, stales: seq<Stale>, evs: seq<Happening>)
    requires Kept(s, roots, stales) && Dutiful(Erase(s), roots, stales, evs)
    ensures var (s', out) := RunAll(s, evs);
            FlatRunAll(Erase(s), evs) == (Erase(s'), out)
    decreases |evs|
  {
    assert Sound(s);
    hide Proceed, FlatProceed, Kept, Due, Erase, StalesAfter, RootsAfter;
    if evs != [] {
      ProceedTransparent(s, roots, stales, evs[0]);
      ProceedSound(s, evs[0]);
      ShootdownTransparent(Proceed(s, evs[0]).0, RootsAfter(roots, evs[0]), StalesAfter(stales, evs[0]), evs[1..]);
    }
  }
}
