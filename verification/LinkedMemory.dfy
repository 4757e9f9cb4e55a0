/**
 Memory together with the tracking of links: every accepted write first breaks
 the links it hits.  A link that still holds means that the bytes it protects
 are the bytes that were there when it was made.
*/
module LinkedMemory {
  import opened Memory
  import PhysMem
  import opened ScTracker

  datatype Machine = Machine(mem: Mem, links: State)

  datatype Action =
    | Load(cpu: nat, addr: nat, width: nat)
    | Cancel(cpu: nat)
    | Store(addr: nat, bytes: seq<bv8>, protected: bool)

  /** A link instruction, the end of a link, or a write by any processor or device. */
  function Act(s: Machine, a: Action): Machine
    requires Sound(s.links)
  {
    match a
    case Load(c, addr, width) => s.(links := Step(s.links, Link(c, addr, width)))
    case Cancel(c) => s.(links := Step(s.links, Unlink(c)))
    case Store(addr, bytes, protected) =>
      if Accepts(s.mem, addr, protected) then
        Machine(WriteBytes(s.mem, addr, bytes, protected), Control(s.links, addr, |bytes|))
      else s
  }

  /** Stores are aligned accesses to physical addresses. */
  predicate Proper(a: Action) { a.Store? ==> Width(|a.bytes|) && Aligned(a.addr, |a.bytes|) && a.addr < SPACE }

  lemma ActSound(s: Machine, a: Action)
    requires Sound(s.links)
    ensures Sound(Act(s, a).links)
  {
    hide Sound, Step, Control, Accepts, WriteBytes;
    match a
    case Load(c, addr, width) => StepSound(s.links, Link(c, addr, width));
    case Cancel(c) => StepSound(s.links, Unlink(c));
    case Store(addr, bytes, _) => StepSound(s.links, Write(addr, |bytes|)); ControlIsStep(s.links, addr, |bytes|);
  }

  lemma ControlIsStep(s: State, addr: nat, size: nat)
    requires Sound(s)
    ensures Step(s, Write(addr, size)) == Control(s, addr, size)
  {}

  ghost function Run(s: Machine, actions: seq<Action>): (r: Machine)
    requires Sound(s.links)
    ensures Sound(r.links)
    decreases |actions|
  {
    if actions == [] then s
    else
      ActSound(s, actions[0]);
      Run(Act(s, actions[0]), actions[1..])
  }

  /** The processor neither links anew nor gives up its link. */
  predicate Leaves(a: Action, c: nat) {
    match a
    case Load(d, _, _) => d != c
    case Cancel(d) => d != c
    case Store(_, _, _) => true
  }

  /** Processor c holds the link that k describes. */
  predicate Holds(s: Machine, c: nat, k: Cpu) { c < |s.links.cpus| && s.links.cpus[c] == k && k.linked }

  /** The bytes a link protects are the same in both memories. */
  ghost predicate SameProtected(m: Mem, n: Mem, k: Cpu) {
    forall x: nat :: x < SPACE && Protected(k, x) ==> ByteAt(n, x) == ByteAt(m, x)
  }

  /** A store that spares a trackable link spares the bytes it protects. */
  lemma StoreSpares(m: Mem, addr: nat, bytes: seq<bv8>, protected: bool, k: Cpu)
    requires Trackable(k) && Width(|bytes|) && Aligned(addr, |bytes|) && addr < SPACE && !Hit(k, addr, |bytes|)
    ensures SameProtected(m, WriteBytes(m, addr, bytes, protected), k)
  {
    hide Hit, Trackable, WriteBytes, ByteAt;
    forall x: nat | x < SPACE && Protected(k, x)
      ensures ByteAt(WriteBytes(m, addr, bytes, protected), x) == ByteAt(m, x)
    {
      WriteByteAt(m, addr, bytes, protected, x);
      if Within(addr, |bytes|, x) {
        assert Touches(k, addr, |bytes|);
        HitSound(k, addr, |bytes|);
      }
    }
  }

  /** One action: if the link is still held afterwards it was held before, and its bytes are as they were. */
  lemma ActKeeps(s: Machine, a: Action, c: nat, k: Cpu)
    requires Sound(s.links) && Proper(a) && Leaves(a, c) && c < |s.links.cpus| && Trackable(k)
    requires Holds(Act(s, a), c, k)
    ensures Holds(s, c, k) && SameProtected(s.mem, Act(s, a).mem, k)
  {
    hide Hit, Trackable, WriteBytes, Accepts, Spared, ByteAt, Protected;
    match a
    case Load(_, _, _) =>
    case Cancel(_) =>
    case Store(addr, bytes, protected) =>
      ControlExact(s.links, addr, |bytes|, c);
      if Accepts(s.mem, addr, protected) {
        assert c in s.links.list;
        StoreSpares(s.mem, addr, bytes, protected, k);
      }
  }

  /**
   Store-conditional safety: over every run in which a processor keeps its
   link, if the link still holds at the end, then every byte it protects is
   what it was when the run began.
  */
  lemma {:induction false} HeldLinkMeansUnchanged(s: Machine, actions: seq<Action>, c: nat, k: Cpu)
    requires Sound(s.links) && c < |s.links.cpus| && Trackable(k)
    requires forall i :: 0 <= i < |actions| ==> Proper(actions[i]) && Leaves(actions[i], c)
    requires Holds(Run(s, actions), c, k)
    ensures Holds(s, c, k) && SameProtected(s.mem, Run(s, actions).mem, k)
    decreases |actions|
  {
    hide Act, Trackable, ByteAt, Protected, Proper, Leaves, Sound;
    if actions != [] {
      ActSound(s, actions[0]);
      ActCount(s, actions[0]);
      HeldLinkMeansUnchanged(Act(s, actions[0]), actions[1..], c, k);
      assert Proper(actions[0]) && Leaves(actions[0], c);
      ActKeeps(s, actions[0], c, k);
    }
  }

  lemma ActCount(s: Machine, a: Action)
    requires Sound(s.links)
    ensures |Act(s, a).links.cpus| == |s.links.cpus|
  {}

  /** The converse half for one write: an accepted write that hits a listed processor always breaks its link. */
  lemma HitBreaksLink(s: Machine, addr: nat, bytes: seq<bv8>, protected: bool, c: nat)
    requires Sound(s.links) && c < |s.links.cpus| && s.links.cpus[c].linked
    ensures Act(s, Store(addr, bytes, protected)).links.cpus[c].linked <==>
            !(Accepts(s.mem, addr, protected) && Hit(s.links.cpus[c], addr, |bytes|))
  {
    hide Hit, Accepts, WriteBytes, Spared;
    ControlExact(s.links, addr, |bytes|, c);
  }

  // ---------- the frame table and the list ----------

  /** The frame table with the list of links beside it. */
  class Board {
    const space: PhysMem.Space
    const tracker: Tracker

    constructor (space: PhysMem.Space, tracker: Tracker)
      ensures this.space == space && this.tracker == tracker
    {
      this.space, this.tracker := space, tracker;
    }

    /** The link flags are not among the memory contents. */
    ghost predicate Apart()
      reads space
    {
      forall d :: d in space.stores ==> (d as object) != (tracker.cpus as object)
    }

    ghost function View(): Machine
      requires space.Valid() && tracker.Valid()
      reads space, space.stores, tracker.cpus, tracker.list, tracker.list.items
    {
      Machine(space.View(), tracker.View())
    }

    /** `physmem_write8` to `physmem_write64` with their call of `sc_control`. */
    method Write(addr: nat, bs: seq<bv8>, protected: bool) returns (ok: bool)
      requires space.Valid() && tracker.Valid() && Apart() && Width(|bs|) && Aligned(addr, |bs|)
      modifies space`ftl0, space.stores, tracker.list, tracker.list.items, tracker.cpus
      ensures space.Valid() && tracker.Valid() && Apart() && Sound(old(tracker.View()))
      ensures View() == Act(old(View()), Store(addr, bs, protected))
      ensures ok == Accepts(old(space.View()), addr, protected)
    {
      hide PhysMem.Space.Valid, PhysMem.Space.View, Control, WriteBytes, Accepts, Sound;
      var f := space.FindFrame(addr);
      space.Lets(addr, protected);
      if f.None? || (!f.value.area.writable && protected) {
        return false;
      }
      tracker.ControlAll(addr, |bs|);
      ok := space.Write(addr, bs, protected);
    }
  }
}
