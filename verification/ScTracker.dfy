/**
 Load-linked / store-conditional tracking: a list of the processors that hold a
 link, consulted on every accepted write to memory.
*/
module ScTracker {
  import opened Memory
  import opened LinkedList

  datatype Kind = R4000 | Riscv

  /** The link state of a processor; `width` is the number of bytes its link instruction loaded. */
  datatype Cpu = Cpu(kind: Kind, linked: bool, addr: nat, width: nat)

  function Line(addr: nat): nat { addr / 64 * 64 }

  /** `cpu_sc_access`: does the processor regard a write as hitting its link? */
  predicate Hit(c: Cpu, addr: nat, size: nat) {
    match c.kind
    case R4000 => c.addr == Line(addr)
    case Riscv => Overlap(c.addr, 4, addr, size)
  }

  predicate Overlap(base1: nat, size1: nat, base2: nat, size2: nat) {
    (base1 >= base2 && base1 < base2 + size2) || (base2 >= base1 && base2 < base1 + size1)
  }

  /** What the link is meant to protect: the 64-byte line on the R4000, the loaded bytes on RISC-V. */
  ghost predicate Touches(c: Cpu, addr: nat, size: nat) {
    exists x: nat :: Within(addr, size, x) && Protected(c, x)
  }

  predicate Within(addr: nat, size: nat, x: nat) { addr <= x < addr + size }

  predicate Protected(c: Cpu, x: nat) {
    match c.kind
    case R4000 => Line(x) == Line(c.addr)
    case Riscv => Within(c.addr, c.width, x)
  }

  /** The link addresses the hit test is right for. */
  predicate Trackable(c: Cpu) {
    match c.kind
    case R4000 => c.addr % 64 == 0
    case Riscv => c.width <= 4
  }

  // ---------- the hit test ----------

  lemma LineOfAccess(addr: nat, size: nat, x: nat)
    requires Width(size) && Aligned(addr, size) && Within(addr, size, x)
    ensures Line(x) == Line(addr)
  {
    LowBits64(addr, size);
    var q, r := addr / 64, addr % 64;
    assert x == 64 * q + (r + (x - addr)) && r + (x - addr) < 64;
  }

  lemma LowBits64(addr: nat, size: nat)
    requires Width(size) && Aligned(addr, size)
    ensures addr % 64 + size <= 64
  {
    var q, r := addr / 64, addr % 64;
    if size == 2 {
      assert r == 2 * (addr / 2 - 32 * q);
    } else if size == 4 {
      assert r == 4 * (addr / 4 - 16 * q);
    } else if size == 8 {
      assert r == 8 * (addr / 8 - 8 * q);
    }
  }

  /** The hit test never misses a write to what it protects, exactly for the trackable links. */
  lemma HitSoundIff(c: Cpu)
    requires c.width > 0 && (c.kind == Riscv ==> c.width == 4 || c.width == 8) && Aligned(c.addr, c.width)
    ensures (forall addr: nat, size: nat :: Width(size) && Aligned(addr, size) && Touches(c, addr, size) ==>
               Hit(c, addr, size))
            <==> Trackable(c)
  {
    if Trackable(c) {
      forall addr: nat, size: nat | Width(size) && Aligned(addr, size) && Touches(c, addr, size)
        ensures Hit(c, addr, size)
      {
        HitSound(c, addr, size);
      }
    } else {
      var addr := if c.kind == R4000 then c.addr else c.addr + 4;
      assert Width(1) && Aligned(addr, 1);
      assert Within(addr, 1, addr) && Protected(c, addr);
      assert Touches(c, addr, 1);
      assert !Hit(c, addr, 1);
    }
  }

  lemma HitSound(c: Cpu, addr: nat, size: nat)
    requires Trackable(c) && Width(size) && Aligned(addr, size) && Touches(c, addr, size)
    ensures Hit(c, addr, size)
  {
    var x: nat :| Within(addr, size, x) && Protected(c, x);
    if c.kind == R4000 {
      LineOfAccess(addr, size, x);
      assert Line(c.addr) == c.addr;
    }
  }

  /** For a trackable link the test is exact: it hits when a write touches what is protected, and only then. */
  lemma HitExact(c: Cpu, addr: nat, size: nat)
    requires Trackable(c) && Width(size) && Aligned(addr, size) && (c.kind == Riscv ==> c.width == 4)
    ensures Hit(c, addr, size) <==> Touches(c, addr, size)
  {
    if Touches(c, addr, size) {
      HitSound(c, addr, size);
    }
    if Hit(c, addr, size) {
      var x := if c.kind == Riscv && c.addr > addr then c.addr else addr;
      assert c.kind == R4000 ==> Line(c.addr) == c.addr;
      assert Within(addr, size, x) && Protected(c, x);
    }
  }

  /** A link that cannot be tracked: on the R4000 nothing hits it, on RISC-V only its first four bytes count. */
  lemma HitUntracked(c: Cpu, addr: nat, size: nat)
    requires !Trackable(c) && 0 < size
    ensures Hit(c, addr, size) <==>
            c.kind == Riscv && exists x: nat :: Within(addr, size, x) && Within(c.addr, 4, x)
  {
    if c.kind == R4000 {
      assert Line(addr) % 64 == 0;
    } else {
      var x := if c.addr > addr then c.addr else addr;
      if Hit(c, addr, size) {
        assert Within(addr, size, x) && Within(c.addr, 4, x);
      }
    }
  }

  // ---------- the tracker on values ----------

  datatype State = State(cpus: seq<Cpu>, list: seq<nat>)

  /** Listed processors exist and are listed once; a processor that holds a link is listed. */
  ghost predicate Sound(s: State) {
    && (forall i :: 0 <= i < |s.list| ==> s.list[i] < |s.cpus|)
    && (forall i, j :: 0 <= i < j < |s.list| ==> s.list[i] != s.list[j])
    && (forall c :: 0 <= c < |s.cpus| && s.cpus[c].linked ==> c in s.list)
  }

  function Registered(list: seq<nat>, c: nat): seq<nat> { if c in list then list else list + [c] }

  function Unregistered(list: seq<nat>, c: nat): (r: seq<nat>)
    ensures forall x :: x in r ==> x in list
    ensures forall x :: x in list && x != c ==> x in r
  {
    if list == [] then [] else if list[0] == c then list[1..] else [list[0]] + Unregistered(list[1..], c)
  }

  /** The processors of `list` that a write does not hit, in order. */
  function Spared(cpus: seq<Cpu>, list: seq<nat>, addr: nat, size: nat): (r: seq<nat>)
    requires Known(cpus, list)
    ensures forall x :: x in r <==> x in list && x < |cpus| && !Hit(cpus[x], addr, size)
  {
    if list == [] then []
    else (if Hit(cpus[list[0]], addr, size) then [] else [list[0]]) + Spared(cpus, list[1..], addr, size)
  }

  /** The link flags after the processors of `list` have seen a write. */
  function Notified(cpus: seq<Cpu>, list: seq<nat>, addr: nat, size: nat): (r: seq<Cpu>)
    ensures |r| == |cpus|
  {
    seq(|cpus|, i requires 0 <= i < |cpus| =>
      if i in list && Hit(cpus[i], addr, size) then cpus[i].(linked := false) else cpus[i])
  }

  /** `sc_control` */
  function Control(s: State, addr: nat, size: nat): State
    requires Sound(s)
  {
    State(Notified(s.cpus, s.list, addr, size), Spared(s.cpus, s.list, addr, size))
  }

  datatype Event = Link(cpu: nat, addr: nat, width: nat) | Unlink(cpu: nat) | Write(addr: nat, size: nat)

  function Step(s: State, ev: Event): State
    requires Sound(s)
  {
    match ev
    case Link(c, addr, width) =>
      if c < |s.cpus| then
        State(s.cpus[c := s.cpus[c].(linked := true, addr := addr, width := width)], Registered(s.list, c))
      else s
    case Unlink(c) =>
      if c < |s.cpus| then State(s.cpus[c := s.cpus[c].(linked := false)], Unregistered(s.list, c)) else s
    case Write(addr, size) => Control(s, addr, size)
  }

  lemma {:induction false} UnregisteredUnique(list: seq<nat>, c: nat)
    requires forall i, j :: 0 <= i < j < |list| ==> list[i] != list[j]
    ensures var r := Unregistered(list, c); forall i, j :: 0 <= i < j < |r| ==> r[i] != r[j]
    ensures c !in Unregistered(list, c)
  {
    if list != [] && list[0] != c {
      UnregisteredUnique(list[1..], c);
      var rest := Unregistered(list[1..], c);
      assert list[0] !in list[1..];
      assert list[0] !in rest;
    }
  }

  lemma {:induction false} SparedUnique(cpus: seq<Cpu>, list: seq<nat>, addr: nat, size: nat)
    requires forall i :: 0 <= i < |list| ==> list[i] < |cpus|
    requires forall i, j :: 0 <= i < j < |list| ==> list[i] != list[j]
    ensures var r := Spared(cpus, list, addr, size); forall i, j :: 0 <= i < j < |r| ==> r[i] != r[j]
  {
    hide Hit;
    if list != [] {
      SparedUnique(cpus, list[1..], addr, size);
      assert list[0] !in list[1..];
      assert list[0] !in Spared(cpus, list[1..], addr, size);
    }
  }

  lemma LinkSound(s: State, c: nat, addr: nat, width: nat)
    requires Sound(s)
    ensures Sound(Step(s, Link(c, addr, width)))
  {}

  lemma UnlinkSound(s: State, c: nat)
    requires Sound(s)
    ensures Sound(Step(s, Unlink(c)))
  {
    UnregisteredUnique(s.list, c);
    var s' := Step(s, Unlink(c));
    forall i | 0 <= i < |s'.list| ensures s'.list[i] < |s'.cpus| {
      assert s'.list[i] in s'.list;
    }
  }

  lemma WriteSound(s: State, addr: nat, size: nat)
    requires Sound(s)
    ensures Sound(Step(s, Write(addr, size)))
  {
    hide Hit, Spared, Notified;
    SparedUnique(s.cpus, s.list, addr, size);
    var s' := Control(s, addr, size);
    forall i | 0 <= i < |s'.list| ensures s'.list[i] < |s'.cpus| {
      assert s'.list[i] in s'.list;
    }
    forall c | 0 <= c < |s'.cpus| && s'.cpus[c].linked ensures c in s'.list {
      ControlExact(s, addr, size, c);
    }
    assert s'.list == Spared(s.cpus, s.list, addr, size);
    assert forall i, j :: 0 <= i < j < |s'.list| ==> s'.list[i] != s'.list[j];
    assert Sound(s');
  }

  /** The list never holds a processor twice and always holds those with a link. */
  lemma StepSound(s: State, ev: Event)
    requires Sound(s)
    ensures Sound(Step(s, ev))
  {
    hide Sound, Step;
    match ev
    case Link(c, addr, width) => LinkSound(s, c, addr, width);
    case Unlink(c) => UnlinkSound(s, c);
    case Write(addr, size) => WriteSound(s, addr, size);
  }

  /** One write drops exactly the processors it hits and keeps the others, in order, untouched. */
  lemma ControlExact(s: State, addr: nat, size: nat, c: nat)
    requires Sound(s) && c < |s.cpus|
    ensures var s' := Control(s, addr, size);
            && (c in s'.list <==> c in s.list && !Hit(s.cpus[c], addr, size))
            && (c in s.list && Hit(s.cpus[c], addr, size) ==> !s'.cpus[c].linked)
            && (!(c in s.list && Hit(s.cpus[c], addr, size)) ==> s'.cpus[c] == s.cpus[c])
  {
    hide Hit;
  }

  ghost predicate Known(cpus: seq<Cpu>, list: seq<nat>) { forall i :: 0 <= i < |list| ==> list[i] < |cpus| }

  lemma SparedUnfold(cpus: seq<Cpu>, list: seq<nat>, addr: nat, size: nat)
    requires Known(cpus, list) && list != []
    ensures Known(cpus, list[1..]) && list[0] < |cpus|
    ensures Spared(cpus, list, addr, size) ==
            (if Hit(cpus[list[0]], addr, size) then [] else [list[0]]) + Spared(cpus, list[1..], addr, size)
  {
    hide Hit;
  }

  lemma KnownParts(cpus: seq<Cpu>, s: seq<nat>, t: seq<nat>)
    requires Known(cpus, s + t)
    ensures Known(cpus, s) && Known(cpus, t)
  {
    assert forall i :: 0 <= i < |s| ==> s[i] == (s + t)[i];
    assert forall i :: 0 <= i < |t| ==> t[i] == (s + t)[|s| + i];
  }

  /** The spared processors of a list are those of its parts, in order. */
  lemma {:induction false} SparedKeepsOrder(cpus: seq<Cpu>, s: seq<nat>, t: seq<nat>, addr: nat, size: nat)
    requires Known(cpus, s + t)
    ensures Known(cpus, s) && Known(cpus, t)
    ensures Spared(cpus, s + t, addr, size) == Spared(cpus, s, addr, size) + Spared(cpus, t, addr, size)
  {
    hide Spared, Hit, Known;
    KnownParts(cpus, s, t);
    if s == [] {
      SparedNone(cpus, addr, size);
      assert s + t == t && [] + Spared(cpus, t, addr, size) == Spared(cpus, t, addr, size);
    } else {
      assert (s + t)[1..] == s[1..] + t && (s + t)[0] == s[0];
      SparedUnfold(cpus, s + t, addr, size);
      SparedUnfold(cpus, s, addr, size);
      SparedKeepsOrder(cpus, s[1..], t, addr, size);
    }
  }

  lemma SparedNone(cpus: seq<Cpu>, addr: nat, size: nat)
    ensures Known(cpus, []) && Spared(cpus, [], addr, size) == []
  {}

  // ---------- whole runs ----------

  /** The state together with, for every processor, the accepted writes since it last linked. */
  datatype Watched = Watched(state: State, since: seq<seq<(nat, nat)>>)

  ghost predicate ProperEvent(ev: Event) { ev.Write? ==> Width(ev.size) && Aligned(ev.addr, ev.size) }

  function Watch(w: Watched, ev: Event): Watched
    requires Sound(w.state) && |w.since| == |w.state.cpus|
  {
    Watched(Step(w.state, ev),
            match ev
            case Link(c, _, _) => if c < |w.since| then w.since[c := []] else w.since
            case Unlink(_) => w.since
            case Write(addr, size) =>
              seq(|w.since|, i requires 0 <= i < |w.since| => w.since[i] + [(addr, size)]))
  }

  /** A processor that still holds its link has been hit by no write since it linked. */
  ghost predicate Unhit(w: Watched) {
    && Sound(w.state) && |w.since| == |w.state.cpus|
    && forall c, i :: 0 <= c < |w.since| && 0 <= i < |w.since[c]| && w.state.cpus[c].linked ==>
         !Hit(w.state.cpus[c], w.since[c][i].0, w.since[c][i].1)
  }

  lemma WatchUnhit(w: Watched, ev: Event)
    requires Unhit(w)
    ensures Unhit(Watch(w, ev))
  {
    hide Hit;
    StepSound(w.state, ev);
    var w' := Watch(w, ev);
    forall c, i | 0 <= c < |w'.since| && 0 <= i < |w'.since[c]| && w'.state.cpus[c].linked
      ensures !Hit(w'.state.cpus[c], w'.since[c][i].0, w'.since[c][i].1)
    {
      match ev
      case Link(k, _, _) =>
      case Unlink(k) =>
      case Write(addr, size) =>
        ControlExact(w.state, addr, size, c);
        assert Same(w'.state.cpus[c], w.state.cpus[c]);
        assert i < |w.since[c]| ==> w'.since[c][i] == w.since[c][i];
    }
  }

  predicate Same(a: Cpu, b: Cpu) { a == b }

  ghost function WatchAll(w: Watched, evs: seq<Event>): (r: Watched)
    requires Unhit(w)
    ensures Unhit(r)
    decreases |evs|
  {
    if evs == [] then w
    else
      WatchUnhit(w, evs[0]);
      WatchAll(Watch(w, evs[0]), evs[1..])
  }

  /** All recorded writes are aligned accesses. */
  ghost predicate Recorded(w: Watched) {
    forall c, i :: 0 <= c < |w.since| && 0 <= i < |w.since[c]| ==>
      Width(w.since[c][i].1) && Aligned(w.since[c][i].0, w.since[c][i].1)
  }

  lemma {:induction false} AllRecorded(w: Watched, evs: seq<Event>)
    requires Unhit(w) && Recorded(w) && forall i :: 0 <= i < |evs| ==> ProperEvent(evs[i])
    ensures Recorded(WatchAll(w, evs))
    decreases |evs|
  {
    hide Hit, Step, Width, Aligned;
    if evs != [] {
      WatchUnhit(w, evs[0]);
      assert ProperEvent(evs[0]);
      assert Recorded(Watch(w, evs[0]));
      AllRecorded(Watch(w, evs[0]), evs[1..]);
    }
  }

  /**
   Store-conditional safety over whole runs: if a processor still holds a trackable link, no
   accepted write since it linked has touched what the link protects.
  */
  lemma LinkIntact(w: Watched, evs: seq<Event>, c: nat, i: nat)
    requires Unhit(w) && Recorded(w) && forall j :: 0 <= j < |evs| ==> ProperEvent(evs[j])
    requires var r := WatchAll(w, evs);
             c < |r.since| && i < |r.since[c]| && r.state.cpus[c].linked && Trackable(r.state.cpus[c])
    ensures var r := WatchAll(w, evs);
            !Touches(r.state.cpus[c], r.since[c][i].0, r.since[c][i].1)
  {
    hide WatchAll, Hit, Touches, Trackable;
    var r := WatchAll(w, evs);
    AllRecorded(w, evs);
    if Touches(r.state.cpus[c], r.since[c][i].0, r.since[c][i].1) {
      HitSound(r.state.cpus[c], r.since[c][i].0, r.since[c][i].1);
    }
  }

  /** A lone processor that links; a write it does not regard as a hit leaves it linked. */
  lemma LoneLink(k: Cpu, addr: nat, size: nat)
    requires !Hit(k, addr, size)
    ensures var s := State([k.(linked := false)], []);
            && Sound(s) && Sound(Step(s, Link(0, k.addr, k.width)))
            && var linked := Step(s, Link(0, k.addr, k.width));
            linked.cpus == [k.(linked := true)] && Step(linked, Write(addr, size)).cpus == linked.cpus
  {
    hide Spared, Notified;
    var s := State([k.(linked := false)], []);
    LinkSound(s, 0, k.addr, k.width);
    var linked := Step(s, Link(0, k.addr, k.width));
    assert linked == State([k.(linked := true)], [0]);
    ControlExact(linked, addr, size, 0);
    assert |Step(linked, Write(addr, size)).cpus| == 1;
  }

  /** A byte that an untrackable link protects and its hit test overlooks. */
  function Overlooked(k: Cpu): nat { if k.kind == R4000 then k.addr else k.addr + 4 }

  /** The converse: every link that cannot be tracked survives a write to a byte it protects. */
  lemma UntrackableMissed(k: Cpu)
    requires k.width > 0 && (k.kind == Riscv ==> k.width == 4 || k.width == 8) && !Trackable(k)
    ensures var s := State([k.(linked := false)], []);
            && Sound(s) && Sound(Step(s, Link(0, k.addr, k.width)))
            && var linked := Step(s, Link(0, k.addr, k.width));
            && linked.cpus == [k.(linked := true)] && Touches(k, Overlooked(k), 1)
            && Step(linked, Write(Overlooked(k), 1)).cpus == linked.cpus
  {
    hide Step, Sound;
    assert Within(Overlooked(k), 1, Overlooked(k)) && Protected(k, Overlooked(k));
    assert !Hit(k, Overlooked(k), 1);
    LoneLink(k, Overlooked(k), 1);
  }

  /** An R4000 link to the second word of a line survives a write to the very word it loaded. */
  lemma LinkMissed()
    ensures var s := State([Cpu(R4000, false, 4, 4)], []);
            && Sound(s) && Sound(Step(s, Link(0, 4, 4)))
            && var linked := Step(s, Link(0, 4, 4));
            && linked.cpus == [Cpu(R4000, true, 4, 4)] && Touches(linked.cpus[0], 4, 4)
            && Step(linked, Write(4, 4)).cpus == linked.cpus
  {
    hide Step, Sound;
    var k := Cpu(R4000, true, 4, 4);
    assert Within(4, 4, 4) && Protected(k, 4);
    LoneLink(k, 4, 4);
  }

  // ---------- the tracker on its linked list ----------

  class Tracker {
    const cpus: array<Cpu>
    const list: List<nat>

    ghost function Listed(): seq<nat>
      reads list, list.items
    {
      seq(|list.items|, i requires 0 <= i < |list.items| reads list, list.items => list.items[i].data)
    }

    ghost function View(): State
      reads cpus, list, list.items
    {
      State(cpus[..], Listed())
    }

    ghost predicate Valid()
      reads cpus, list, list.items
    {
      list.Valid() && Sound(View())
    }

    constructor (cpus: array<Cpu>)
      ensures this.cpus == cpus && list.Valid() && Listed() == [] && fresh(list)
    {
      this.cpus := cpus;
      list := new List();
    }

    /** The search loops of `sc_register` and `sc_unregister`. */
    method Find(c: nat) returns (x: Item?<nat>, ghost k: nat)
      requires list.Valid()
      ensures k <= |list.items| && c !in Listed()[..k]
      ensures if k < |list.items| then x == list.items[k] && x.data == c else x == null
    {
      x, k := list.head, 0;
      while x != null
        invariant k <= |list.items| && x == List.At(list.items, k)
        invariant c !in Listed()[..k]
        decreases |list.items| - k
      {
        assert list.LinkedAt(k) && Listed()[k] == x.data;
        if x.data == c {
          return;
        }
        assert Listed()[..k + 1] == Listed()[..k] + [x.data];
        x, k := x.next, k + 1;
      }
    }

    /** `sc_register` */
    method Register(c: nat)
      requires list.Valid()
      modifies list, list.items
      ensures list.Valid() && Listed() == Registered(old(Listed()), c)
      ensures forall y :: y in list.items ==> y in old(list.items) || fresh(y)
    {
      var x, k := Find(c);
      if x != null {
        assert Listed()[k] == c;
        return;
      }
      assert Listed()[..k] == Listed();
      var item := new Item(c);
      list.Append(item);
    }

    /** `sc_unregister` */
    method Unregister(c: nat)
      requires list.Valid()
      modifies list, list.items
      ensures list.Valid() && Listed() == Unregistered(old(Listed()), c)
      ensures forall y :: y in list.items ==> y in old(list.items)
    {
      var x, k := Find(c);
      UnregisteredAt(Listed(), c, k);
      if x != null {
        list.Remove(x, k);
      }
    }

    static lemma {:induction false} UnregisteredAt(s: seq<nat>, c: nat, k: nat)
      requires k <= |s| && c !in s[..k] && (k < |s| ==> s[k] == c)
      ensures Unregistered(s, c) == if k < |s| then s[..k] + s[k + 1..] else s
    {
      hide Unregistered;
      UnregisteredHead(s, c);
      if k > 0 {
        assert s[0] in s[..k];
        assert s[1..][..k - 1] == s[..k][1..];
        UnregisteredAt(s[1..], c, k - 1);
        Rejoined(s, k);
      }
    }

    static lemma UnregisteredHead(s: seq<nat>, c: nat)
      ensures s == [] ==> Unregistered(s, c) == s
      ensures s != [] ==>
                Unregistered(s, c) == if s[0] == c then s[1..] else [s[0]] + Unregistered(s[1..], c)
    {}

    static lemma Rejoined(s: seq<nat>, k: nat)
      requires 0 < k <= |s|
      ensures [s[0]] + s[1..] == s
      ensures k < |s| ==> [s[0]] + (s[1..][..k - 1] + s[1..][k..]) == s[..k] + s[k + 1..]
    {}

    /** One turn of the loop of `sc_control`, at position `k` of the list. */
    method Notify(x: Item<nat>, ghost k: nat, addr: nat, size: nat) returns (next: Item?<nat>, ghost dropped: bool)
      requires list.Valid() && k < |list.items| && list.items[k] == x && x.data < cpus.Length
      modifies list, list.items, cpus
      ensures list.Valid() && dropped == Hit(old(cpus[x.data]), addr, size)
      ensures list.items == if dropped then old(list.items)[..k] + old(list.items)[k + 1..] else old(list.items)
      ensures forall y :: y in old(list.items) ==> y.data == old(y.data)
      ensures next == List.At(list.items, if dropped then k else k + 1)
      ensures Listed() == if dropped then old(Listed())[..k] + old(Listed())[k + 1..] else old(Listed())
      ensures var c := old(x.data);
              cpus[..] == if dropped then old(cpus[..])[c := old(cpus[c]).(linked := false)] else old(cpus[..])
    {
      hide Hit;
      assert list.LinkedAt(k);
      ghost var listed := Listed();
      next := x.next;
      dropped := Hit(cpus[x.data], addr, size);
      if Hit(cpus[x.data], addr, size) {
        cpus[x.data] := cpus[x.data].(linked := false);
        list.Remove(x, k);
      }
      assert Listed() == if dropped then listed[..k] + listed[k + 1..] else listed;
    }

    static lemma SparedStep(cs: seq<Cpu>, was: seq<nat>, j: nat, addr: nat, size: nat)
      requires j < |was| && forall i :: 0 <= i < |was| ==> was[i] < |cs|
      ensures Spared(cs, was[..j + 1], addr, size) ==
              Spared(cs, was[..j], addr, size) + if Hit(cs[was[j]], addr, size) then [] else [was[j]]
    {
      hide Hit;
      assert was[..j + 1] == was[..j] + [was[j]];
      SparedKeepsOrder(cs, was[..j], [was[j]], addr, size);
      assert [was[j]][1..] == [];
    }

    static lemma NotifiedStep(cs: seq<Cpu>, was: seq<nat>, j: nat, addr: nat, size: nat)
      requires j < |was| && was[j] < |cs| && was[j] !in was[..j]
      ensures Notified(cs, was[..j], addr, size)[was[j]] == cs[was[j]]
      ensures Notified(cs, was[..j + 1], addr, size) ==
              if Hit(cs[was[j]], addr, size) then
                Notified(cs, was[..j], addr, size)[was[j] := cs[was[j]].(linked := false)]
              else Notified(cs, was[..j], addr, size)
    {
      hide Hit;
      assert was[..j + 1] == was[..j] + [was[j]];
    }

    /** Where the loop of `sc_control` stands: `j` processors asked, `k` of them kept. */
    ghost predicate Underway(cs: seq<Cpu>, was: seq<nat>, j: nat, k: nat, addr: nat, size: nat)
      reads cpus, list, list.items
    {
      && j <= |was| && k <= |list.items| && (forall i :: 0 <= i < |was| ==> was[i] < |cs|)
      && Listed() == Spared(cs, was[..j], addr, size) + was[j..]
      && k == |Spared(cs, was[..j], addr, size)|
      && cpus[..] == Notified(cs, was[..j], addr, size)
    }

    method Turn(x: Item<nat>, ghost cs: seq<Cpu>, ghost was: seq<nat>, ghost j: nat, ghost k: nat, addr: nat, size: nat)
      returns (next: Item?<nat>, ghost k': nat)
      requires list.Valid() && Underway(cs, was, j, k, addr, size) && j < |was| && was[j] !in was[..j]
      requires x == List.At(list.items, k)
      modifies list, list.items, cpus
      ensures list.Valid() && Underway(cs, was, j + 1, k', addr, size)
      ensures next == List.At(list.items, k')
      ensures forall i :: 0 <= i < |list.items| ==> list.items[i] in old(list.items)
    {
      hide Hit, List.Valid, List.LinkedAt, Spared, Notified;
      SparedStep(cs, was, j, addr, size);
      NotifiedStep(cs, was, j, addr, size);
      Advance(Spared(cs, was[..j], addr, size), was, j);
      ghost var listed := Listed();
      assert listed[k] == was[j] == x.data;
      ghost var dropped;
      next, dropped := Notify(x, k, addr, size);
      k' := if dropped then k else k + 1;
    }

    static lemma Advance(kept: seq<nat>, was: seq<nat>, j: nat)
      requires j < |was|
      ensures var listed, k := kept + was[j..], |kept|;
              && listed[k] == was[j]
              && listed[..k] + listed[k + 1..] == kept + [] + was[j + 1..]
              && listed == kept + [was[j]] + was[j + 1..]
    {}

    /** `sc_control` */
    method ControlAll(addr: nat, size: nat)
      requires Valid()
      modifies list, list.items, cpus
      ensures Valid() && View() == Control(old(View()), addr, size)
      ensures forall y :: y in list.items ==> y in old(list.items)
    {
      hide Hit, Spared, Notified, Sound, List.Valid, List.LinkedAt, Underway;
      ghost var s := View();
      ghost var cs, was, j, k := cpus[..], Listed(), 0, 0;
      Start(addr, size);
      WriteSound(s, addr, size);
      var x := list.head;
      while x != null
        invariant list.Valid() && Underway(cs, was, j, k, addr, size)
        invariant x == List.At(list.items, k)
        invariant forall i :: 0 <= i < |list.items| ==> list.items[i] in old(list.items)
        decreases |was| - j
      {
        Pending(cs, was, j, k, addr, size);
        x, k := Turn(x, cs, was, j, k, addr, size);
        j := j + 1;
      }
      Finish(cs, was, j, k, addr, size);
    }

    lemma Start(addr: nat, size: nat)
      requires Valid()
      ensures Underway(cpus[..], Listed(), 0, 0, addr, size)
      ensures list.head == List.At(list.items, 0)
      ensures forall j :: 0 <= j < |Listed()| ==> Listed()[j] !in Listed()[..j]
    {
      assert Listed()[..0] == [] && Listed()[0..] == Listed();
    }

    lemma Pending(cs: seq<Cpu>, was: seq<nat>, j: nat, k: nat, addr: nat, size: nat)
      requires Underway(cs, was, j, k, addr, size)
      ensures k < |list.items| <==> j < |was|
    {
      hide Hit, Spared, Notified;
      assert |Listed()| == k + (|was| - j);
    }

    lemma Finish(cs: seq<Cpu>, was: seq<nat>, j: nat, k: nat, addr: nat, size: nat)
      requires Underway(cs, was, j, k, addr, size) && k >= |list.items|
      ensures Listed() == Spared(cs, was, addr, size) && cpus[..] == Notified(cs, was, addr, size)
    {
      hide Hit, Spared, Notified;
      Pending(cs, was, j, k, addr, size);
      assert was[..j] == was && was[j..] == [];
    }
  }
}
