/**
 The disk with direct memory access: one command moves one 512-byte sector
 between the image and memory, one word a step.
*/
module Disk {
  import opened Memory

  const SECTOR: nat := 128
  const PTR_SPACE: nat := 0x1_0000_0000_0000_0000
  const WORD: nat := 0x1_0000_0000

  datatype Action = Idle | Reading | Writing

  datatype Status = Status(interrupt: bool, error: bool, busy: bool)

  /**
   The image is counted in words.  `polled` disks report through the busy bit
   and never interrupt.  `pending` is the interrupt the disk remembers raising.
  */
  datatype Disk = Disk(
    polled: bool,
    configured: bool,
    image: seq<bv32>,
    ptr: nat,
    secno: nat,
    status: Status,
    action: Action,
    sector: nat,
    cnt: nat,
    pending: bool,
    interrupts: nat,
    readCommands: nat,
    writeCommands: nat,
    errors: nat)

  function CleanUp(d: Disk): Disk {
    d.(action := Idle, ptr := 0, cnt := 0, image := [], configured := false)
  }

  /** A memory disk of some size; refused sizes change nothing. */
  function Generic(d: Disk, size: nat): Disk {
    if size == 0 || size % 512 != 0 then d
    else CleanUp(d).(image := seq(size / 4, i => 0), configured := true)
  }

  /** A disk mapped to a file with this content; an incomplete last sector is cut off. */
  function Mapped(d: Disk, content: seq<bv32>): Disk {
    var n := |content| / SECTOR * SECTOR;
    if n == 0 then d else CleanUp(d).(image := content[..n], configured := true)
  }

  /** Rejecting a command does not stop the action in progress. */
  function Reject(d: Disk): Disk {
    d.(status := Status(!d.polled, true, false),
       pending := d.pending || !d.polled,
       interrupts := d.interrupts + (if d.polled then 0 else 1),
       errors := d.errors + 1)
  }

  function Acknowledge(d: Disk): Disk { d.(status := d.status.(interrupt := false), pending := false) }

  predicate InBounds(d: Disk) { (d.secno + 1) * 512 <= 4 * |d.image| }

  function Begin(d: Disk, read: bool, write: bool): Disk {
    var d1 := if read then d.(action := Reading, readCommands := d.readCommands + 1) else d;
    var d2 := if write then d1.(action := Writing, writeCommands := d1.writeCommands + 1) else d1;
    if read || write then d2.(cnt := 0, sector := d.secno, status := d2.status.(busy := true)) else d2
  }

  /** The command register, bit by bit. */
  function Command(d: Disk, read: bool, write: bool, ack: bool): Disk {
    var d1 := if ack then Acknowledge(d) else d;
    if read && write then Reject(d1)
    else if (read || write) && d1.action != Idle then Reject(d1)
    else if !InBounds(d1) then Reject(d1)
    else Begin(d1, read, write)
  }

  function Unsigned(v: bv32): (n: nat)
    ensures n < WORD
  {
    v as nat
  }

  predicate Asked(v: bv32, bit: bv32) { v & bit != 0 }

  function WithLow(p: nat, low: nat): nat { p / WORD * WORD + low }

  function WithHigh(p: nat, high: nat): nat { p % WORD + high * WORD }

  /** `ddisk_write32`, by register offset. */
  function Write32(d: Disk, offset: nat, val: bv32): Disk {
    if !d.configured then d
    else if offset == 0 then d.(ptr := WithLow(d.ptr, Unsigned(val)))
    else if offset == 16 then d.(ptr := WithHigh(d.ptr, Unsigned(val)))
    else if offset == 4 then d.(secno := Unsigned(val))
    else if offset == 8 then Command(d, Asked(val, 1), Asked(val, 2), Asked(val, 4))
    else d
  }

  function Complete(d: Disk): Disk {
    if d.cnt != SECTOR then d
    else d.(action := Idle,
            status := d.status.(busy := false, interrupt := d.status.interrupt || !d.polled),
            pending := d.pending || !d.polled,
            interrupts := d.interrupts + (if d.polled then 0 else 1))
  }

  function Position(d: Disk): nat { d.sector * 128 + d.cnt }

  /** Whatever happens to the disk, between one command and the next. */
  ghost predicate Inv(d: Disk) {
    && |d.image| % 128 == 0 && d.ptr < PTR_SPACE && d.secno < WORD
    && (!d.configured ==> d.action == Idle)
    && (d.action != Idle ==> d.cnt < SECTOR && (d.sector + 1) * 128 <= |d.image|)
    && d.pending == d.status.interrupt
    && (d.polled ==> !d.pending)
  }

  /** `ddisk_step`: one word. */
  function Step(d: Disk, m: Mem): (Disk, Mem)
    requires Inv(d)
  {
    var next := d.(ptr := (d.ptr + 4) % PTR_SPACE, cnt := d.cnt + 1);
    match d.action
    case Idle => (d, m)
    case Reading => (Complete(next), Memory.Write32(m, d.ptr, d.image[Position(d)], true))
    case Writing => (Complete(next.(image := d.image[Position(d) := Memory.Read32(m, d.ptr)])), m)
  }

  // ---------- what every run keeps ----------

  datatype Event =
    | SetGeneric(size: nat)
    | SetMapped(content: seq<bv32>)
    | Register(offset: nat, val: bv32)
    | Word(mem: Mem)

  function Happen(d: Disk, e: Event): Disk
    requires Inv(d)
  {
    match e
    case SetGeneric(size) => Generic(d, size)
    case SetMapped(content) => Mapped(d, content)
    case Register(offset, val) => Write32(d, offset, val)
    case Word(m) => Step(d, m).0
  }

  lemma CommandKeeps(d: Disk, read: bool, write: bool, ack: bool)
    requires Inv(d) && d.configured
    ensures Inv(Command(d, read, write, ack))
  {}

  lemma PointerFits(p: nat, v: nat)
    requires p < PTR_SPACE && v < WORD
    ensures WithLow(p, v) < PTR_SPACE && WithHigh(p, v) < PTR_SPACE
  {}

  lemma Write32Keeps(d: Disk, offset: nat, val: bv32)
    requires Inv(d)
    ensures Inv(Write32(d, offset, val))
  {
    hide Command, WithLow, WithHigh, Unsigned, Asked;
    PointerFits(d.ptr, Unsigned(val));
    if d.configured {
      CommandKeeps(d, Asked(val, 1), Asked(val, 2), Asked(val, 4));
    }
  }

  lemma StepKeeps(d: Disk, m: Mem)
    requires Inv(d)
    ensures Inv(Step(d, m).0)
  {
    hide Memory.Write32, Memory.Read32;
  }

  lemma ConfigureKeeps(d: Disk, size: nat, content: seq<bv32>)
    requires Inv(d)
    ensures Inv(Generic(d, size)) && Inv(Mapped(d, content))
  {
    if size % 512 == 0 {
      assert size == 4 * (128 * (size / 512));
    }
  }

  lemma HappenKeeps(d: Disk, e: Event)
    requires Inv(d)
    ensures Inv(Happen(d, e))
  {
    hide Inv, Step, Write32, Generic, Mapped;
    match e
    case SetGeneric(size) => ConfigureKeeps(d, size, []);
    case SetMapped(content) => ConfigureKeeps(d, 0, content);
    case Register(offset, val) => Write32Keeps(d, offset, val);
    case Word(m) => StepKeeps(d, m);
  }

  ghost function Run(d: Disk, events: seq<Event>): (r: Disk)
    requires Inv(d)
    ensures Inv(r)
    decreases |events|
  {
    HappenKeeps(d, if events == [] then Register(0, 0) else events[0]);
    if events == [] then d else Run(Happen(d, events[0]), events[1..])
  }

  function Fresh(polled: bool): Disk {
    Disk(polled, false, [], 0, 0, Status(false, false, false), Idle, 0, 0, false, 0, 0, 0, 0)
  }

  /** In every reachable state an action in progress stays inside its sector and inside the image. */
  lemma ReachableInBounds(polled: bool, events: seq<Event>)
    ensures var d := Run(Fresh(polled), events);
            Inv(d) && (d.action != Idle ==> d.cnt < SECTOR && Position(d) < |d.image|)
  {}

  /** Acknowledging silences the disk exactly when its sector register is in range. */
  lemma AckSilencesIff(d: Disk)
    requires Inv(d) && d.configured && !d.polled
    ensures Command(d, false, false, true).pending <==> !InBounds(d)
  {}

  /**
   A disk of one sector whose sector register asks for a second one: acknowledging it
   rejects and interrupts again.
  */
  lemma AckInterrupts(d: Disk)
    requires Inv(d) && d.configured && !d.polled && d.pending && |d.image| == 128 && d.secno == 1
    ensures var e := Command(d, false, false, true);
            e.pending && e.status.interrupt && e.status.error && e.interrupts == d.interrupts + 1
  {}

  /** A command to a busy disk is refused, and the action in progress goes on as if it had not come. */
  lemma BusyRefuses(d: Disk, read: bool, write: bool)
    requires d.action != Idle && (read || write)
    ensures var e := Command(d, read, write, false);
            && e == d.(status := e.status, pending := e.pending, interrupts := e.interrupts, errors := d.errors + 1)
            && e.status.error && !e.status.busy && (e.pending <==> d.pending || !d.polled)
            && e.interrupts == d.interrupts + (if d.polled then 0 else 1)
  {}

  /** An idle disk takes a command exactly when it is one of the two and its sector exists. */
  lemma TakesIff(d: Disk, read: bool, write: bool, ack: bool)
    requires Inv(d) && d.configured && d.action == Idle
    ensures var e := Command(d, read, write, ack);
            && (e.action == Reading <==> read && !write && (d.secno + 1) * 128 <= |d.image|)
            && (e.action == Writing <==> write && !read && (d.secno + 1) * 128 <= |d.image|)
            && (e.action != Idle ==> e.status.busy && e.sector == d.secno && e.cnt == 0 && e.ptr == d.ptr)
  {}

  // ---------- one sector ----------

  /** The disk left alone for some steps. */
  ghost function Steps(d: Disk, m: Mem, n: nat): (r: (Disk, Mem))
    requires Inv(d)
    ensures Inv(r.0)
  {
    if n == 0 then (d, m)
    else
      var (d1, m1) := Steps(d, m, n - 1);
      StepKeeps(d1, m1);
      Step(d1, m1)
  }

  /** The address of the k-th word. */
  function Addr(p: nat, k: nat): nat { (p + 4 * k) % PTR_SPACE }

  lemma AddrStep(p: nat, k: nat)
    ensures (Addr(p, k) + 4) % PTR_SPACE == Addr(p, k + 1)
  {
    var x := p + 4 * k;
    var q, r := x / PTR_SPACE, (x % PTR_SPACE + 4) / PTR_SPACE;
    assert x + 4 == PTR_SPACE * (q + r) + (x % PTR_SPACE + 4) % PTR_SPACE;
  }

  /** Memory after the first k of these words have been written. */
  function Spilled(m: Mem, p: nat, words: seq<bv32>, k: nat): Mem
    requires k <= |words|
  {
    if k == 0 then m else Memory.Write32(Spilled(m, p, words, k - 1), Addr(p, k - 1), words[k - 1], true)
  }

  /** The first k words at p. */
  function Gathered(m: Mem, p: nat, k: nat): (words: seq<bv32>)
    ensures |words| == k
  {
    seq(k, i requires 0 <= i < k => Memory.Read32(m, Addr(p, i)))
  }

  function SectorOf(image: seq<bv32>, n: nat): (words: seq<bv32>)
    requires (n + 1) * 128 <= |image|
    ensures |words| == SECTOR
  {
    image[n * 128..(n + 1) * 128]
  }

  /** The image with the first words of a sector replaced. */
  function Stored(image: seq<bv32>, n: nat, words: seq<bv32>): (r: seq<bv32>)
    requires |words| <= SECTOR && (n + 1) * 128 <= |image|
    ensures |r| == |image|
  {
    image[..n * 128] + words + image[n * 128 + |words|..]
  }

  /** The disk has just accepted a command. */
  ghost predicate Started(d: Disk) { Inv(d) && d.configured && d.action != Idle && d.cnt == 0 }

  /** Where the disk is after k words of a sector. */
  function After(d: Disk, k: nat): Disk {
    Complete(d.(ptr := Addr(d.ptr, k), cnt := k))
  }

  lemma WordOfSector(image: seq<bv32>, n: nat, k: nat)
    requires (n + 1) * 128 <= |image| && k < SECTOR
    ensures n * 128 + k < |image| && image[n * 128 + k] == SectorOf(image, n)[k]
  {}

  lemma AfterKeeps(d: Disk, k: nat)
    requires Started(d) && k < SECTOR
    ensures Inv(After(d, k)) && After(d, k) == d.(ptr := Addr(d.ptr, k), cnt := k)
  {}

  lemma ReadStep(d: Disk, m: Mem, k: nat)
    requires Started(d) && d.action == Reading && k < SECTOR
    ensures Inv(After(d, k))
    ensures Step(After(d, k), m) ==
            (After(d, k + 1), Memory.Write32(m, Addr(d.ptr, k), SectorOf(d.image, d.sector)[k], true))
  {
    hide Inv, Memory.Write32, Memory.Read32, Addr, SectorOf, After;
    AfterKeeps(d, k);
    AddrStep(d.ptr, k);
    assert (d.sector + 1) * 128 <= |d.image| by { StartedInBounds(d); }
    WordOfSector(d.image, d.sector, k);
    AfterNext(d, k);
  }

  lemma StartedInBounds(d: Disk)
    requires Started(d)
    ensures (d.sector + 1) * 128 <= |d.image| && d.ptr < PTR_SPACE
  {}

  lemma AfterNext(d: Disk, k: nat)
    requires k < SECTOR
    ensures After(d, k + 1) == Complete(d.(ptr := Addr(d.ptr, k + 1), cnt := k + 1))
  {}

  lemma {:induction false} ReadSteps(d: Disk, m: Mem, k: nat)
    requires Started(d) && d.action == Reading && k <= SECTOR
    ensures Steps(d, m, k) == (After(d, k), Spilled(m, d.ptr, SectorOf(d.image, d.sector), k))
  {
    hide Inv, Memory.Write32, Memory.Read32, Addr, Step, SectorOf, After;
    StartedInBounds(d);
    if k == 0 {
      AfterKeeps(d, 0);
      AddrZero(d.ptr);
    } else {
      ReadSteps(d, m, k - 1);
      ReadStep(d, Spilled(m, d.ptr, SectorOf(d.image, d.sector), k - 1), k - 1);
    }
  }

  lemma AddrZero(p: nat)
    requires p < PTR_SPACE
    ensures Addr(p, 0) == p
  {}

  lemma WriteStep(d: Disk, m: Mem, k: nat)
    requires Started(d) && d.action == Writing && k < SECTOR
    ensures var t := After(d, k).(image := Stored(d.image, d.sector, Gathered(m, d.ptr, k)));
            Inv(t) && Step(t, m) == (After(d, k + 1).(image := Stored(d.image, d.sector, Gathered(m, d.ptr, k + 1))), m)
  {
    hide Inv, Memory.Write32, Memory.Read32, Addr, Stored, Gathered, After;
    AfterKeeps(d, k);
    AddrStep(d.ptr, k);
    StartedInBounds(d);
    AfterNext(d, k);
    ImageKeeps(After(d, k), Stored(d.image, d.sector, Gathered(m, d.ptr, k)));
    StoreNext(d.image, d.sector, m, d.ptr, k);
  }

  lemma ImageKeeps(d: Disk, image: seq<bv32>)
    requires Inv(d) && |image| == |d.image|
    ensures Inv(d.(image := image))
  {}

  lemma {:induction false} WriteSteps(d: Disk, m: Mem, k: nat)
    requires Started(d) && d.action == Writing && k <= SECTOR
    ensures Steps(d, m, k) == (After(d, k).(image := Stored(d.image, d.sector, Gathered(m, d.ptr, k))), m)
  {
    hide Inv, Memory.Write32, Memory.Read32, Addr, Step, Stored, After;
    StartedInBounds(d);
    if k == 0 {
      AfterKeeps(d, 0);
      AddrZero(d.ptr);
      StoreNone(d.image, d.sector, Gathered(m, d.ptr, 0));
    } else {
      WriteSteps(d, m, k - 1);
      WriteStep(d, m, k - 1);
    }
  }

  lemma StoreNone(image: seq<bv32>, n: nat, words: seq<bv32>)
    requires words == [] && (n + 1) * 128 <= |image|
    ensures Stored(image, n, words) == image
  {}

  lemma StoreNext(image: seq<bv32>, n: nat, m: Mem, p: nat, k: nat)
    requires k < SECTOR && (n + 1) * 128 <= |image|
    ensures Stored(image, n, Gathered(m, p, k))[n * 128 + k := Memory.Read32(m, Addr(p, k))] ==
            Stored(image, n, Gathered(m, p, k + 1))
  {
    hide Memory.Read32, Addr;
    var a, b := Gathered(m, p, k), Gathered(m, p, k + 1);
    assert b == a + [Memory.Read32(m, Addr(p, k))];
  }

  // ---------- what memory and the image then hold ----------

  lemma AddrCanon(p: nat, k: nat)
    requires p % 4 == 0
    ensures Canon(Addr(p, k)) == (p + 4 * k) % SPACE && Addr(p, k) % 4 == 0
  {
    WordsOn(p, k);
    WrapTwice(p + 4 * k);
  }

  lemma WordsOn(p: nat, k: nat)
    requires p % 4 == 0
    ensures (p + 4 * k) % 4 == 0
  {
    assert p + 4 * k == 4 * (p / 4 + k);
  }

  lemma WrapTwice(x: nat)
    ensures x % PTR_SPACE % SPACE == x % SPACE
    ensures x % 4 == 0 ==> x % PTR_SPACE % 4 == 0
  {
    var q, y := x / PTR_SPACE, x % PTR_SPACE;
    NestedWrap(x, q, y, y / SPACE, y % SPACE);
    if x % 4 == 0 {
      WholeWords(x, q, y);
    }
  }

  lemma NestedWrap(x: nat, q: nat, y: nat, a: nat, b: nat)
    requires x == PTR_SPACE * q + y && y == SPACE * a + b && b < SPACE
    ensures x % SPACE == b
  {
    SpaceDivMod(x, 0x1000_0000 * q + a, b);
  }

  lemma WholeWords(x: nat, q: nat, y: nat)
    requires x % 4 == 0 && x == PTR_SPACE * q + y
    ensures y % 4 == 0
  {
    assert y == 4 * (x / 4 - 0x4000_0000_0000_0000 * q);
  }

  lemma AddrsDiffer(p: nat, j: nat, k: nat)
    requires p % 4 == 0 && j < k <= j + 128
    ensures Canon(Addr(p, j)) != Canon(Addr(p, k))
  {
    hide Canon, Addr;
    AddrCanon(p, j);
    AddrCanon(p, k);
    var x, y := p + 4 * j, p + 4 * k;
    assert x == SPACE * (x / SPACE) + x % SPACE && y == SPACE * (y / SPACE) + y % SPACE;
  }

  lemma SpilledShape(m: Mem, p: nat, words: seq<bv32>, k: nat)
    requires k <= |words| && WellFormed(m)
    ensures var m' := Spilled(m, p, words, k); WellFormed(m') && m'.bytes.Keys == m.bytes.Keys && m'.rom == m.rom
  {
    hide WellFormed, Split32, Addr;
    if k > 0 {
      SpilledShape(m, p, words, k - 1);
      WriteKeepsShape(Spilled(m, p, words, k - 1), Addr(p, k - 1), Split32(words[k - 1]), true);
      WriteByteAt(Spilled(m, p, words, k - 1), Addr(p, k - 1), Split32(words[k - 1]), true, 0);
    }
  }

  /** One more word: it lands if the frame is writable, and nothing else changes. */
  lemma SpillNext(m: Mem, p: nat, words: seq<bv32>, k: nat, x: nat)
    requires k < |words| && WellFormed(m) && p % 4 == 0 && x % 4 == 0
    ensures Memory.Read32(Spilled(m, p, words, k + 1), x) ==
            if Canon(x) == Canon(Addr(p, k)) && Writable(m, x) then words[k]
            else Memory.Read32(Spilled(m, p, words, k), x)
  {
    hide Memory.Read32, Memory.Write32, WellFormed, Addr, Canon;
    SpilledShape(m, p, words, k);
    AddrCanon(p, k);
    Read32AfterWrite32(Spilled(m, p, words, k), Addr(p, k), words[k], true, x);
  }

  lemma {:induction false} SpilledElsewhere(m: Mem, p: nat, words: seq<bv32>, k: nat, x: nat)
    requires k <= |words| && WellFormed(m) && p % 4 == 0 && x % 4 == 0
    requires forall j :: 0 <= j < k ==> Canon(Addr(p, j)) != Canon(x)
    ensures Memory.Read32(Spilled(m, p, words, k), x) == Memory.Read32(m, x)
  {
    hide Memory.Read32, Memory.Write32, WellFormed, Addr, Canon, Writable;
    if k > 0 {
      SpilledElsewhere(m, p, words, k - 1, x);
      SpillNext(m, p, words, k - 1, x);
    }
  }

  lemma {:induction false} SpilledAt(m: Mem, p: nat, words: seq<bv32>, k: nat, j: nat)
    requires j < k <= |words| <= SECTOR && WellFormed(m) && p % 4 == 0
    ensures Memory.Read32(Spilled(m, p, words, k), Addr(p, j)) ==
            if Writable(m, Addr(p, j)) then words[j] else Memory.Read32(m, Addr(p, j))
  {
    hide Memory.Read32, Memory.Write32, WellFormed, Addr, Canon, Writable;
    AddrCanon(p, j);
    SpillNext(m, p, words, k - 1, Addr(p, j));
    if j < k - 1 {
      AddrsDiffer(p, j, k - 1);
      SpilledAt(m, p, words, k - 1, j);
    } else {
      forall i | 0 <= i < j ensures Canon(Addr(p, i)) != Canon(Addr(p, j)) { AddrsDiffer(p, i, j); }
      SpilledElsewhere(m, p, words, j, Addr(p, j));
    }
  }

  /** After its 128 steps the disk is idle, its pointer 512 bytes on, and it has reported. */
  ghost predicate Finished(d: Disk, d': Disk) {
    && d'.action == Idle && d'.ptr == (d.ptr + 512) % PTR_SPACE && !d'.status.busy
    && d'.pending == (d.pending || !d.polled) && d'.status.error == d.status.error
    && d'.interrupts == d.interrupts + (if d.polled then 0 else 1)
  }

  /** A read command brings its sector to memory, word by word where memory can be written, and changes nothing else. */
  lemma ReadSector(d: Disk, m: Mem)
    requires Started(d) && d.action == Reading && d.ptr % 4 == 0 && WellFormed(m)
    ensures var (d', m') := Steps(d, m, SECTOR);
            && Finished(d, d') && d'.image == d.image
            && (forall j :: 0 <= j < SECTOR ==>
                  Memory.Read32(m', Addr(d.ptr, j)) ==
                  if Writable(m, Addr(d.ptr, j)) then SectorOf(d.image, d.sector)[j]
                  else Memory.Read32(m, Addr(d.ptr, j)))
            && (forall x: nat :: x % 4 == 0 && (forall j :: 0 <= j < SECTOR ==> Canon(Addr(d.ptr, j)) != Canon(x)) ==>
                  Memory.Read32(m', x) == Memory.Read32(m, x))
  {
    hide Memory.Read32, Memory.Write32, WellFormed, Addr, Canon, Writable, Steps, Inv, SectorOf, Spilled;
    StartedInBounds(d);
    ReadSteps(d, m, SECTOR);
    FinishedAfter(d);
    var words := SectorOf(d.image, d.sector);
    var m' := Spilled(m, d.ptr, words, SECTOR);
    forall j | 0 <= j < SECTOR
      ensures Memory.Read32(m', Addr(d.ptr, j)) ==
              if Writable(m, Addr(d.ptr, j)) then words[j] else Memory.Read32(m, Addr(d.ptr, j))
    {
      SpilledAt(m, d.ptr, words, SECTOR, j);
    }
    forall x: nat | x % 4 == 0 && (forall j :: 0 <= j < SECTOR ==> Canon(Addr(d.ptr, j)) != Canon(x))
      ensures Memory.Read32(m', x) == Memory.Read32(m, x)
    {
      SpilledElsewhere(m, d.ptr, words, SECTOR, x);
    }
  }

  lemma FinishedAfter(d: Disk)
    requires Started(d)
    ensures Finished(d, After(d, SECTOR)) && After(d, SECTOR).image == d.image && After(d, SECTOR).secno == d.secno
    ensures After(d, SECTOR).polled == d.polled && After(d, SECTOR).configured == d.configured
  {}

  /** No word of a sector's block at this address crosses the end of a frame. */
  predicate Unbroken(p: nat) { p % 4 == 0 || p % FRAME_SIZE + 512 <= FRAME_SIZE }

  lemma UnbrokenIff(p: nat)
    ensures Unbroken(p) <==> forall k: nat :: k < SECTOR ==> Addr(p, k) % FRAME_SIZE <= FRAME_SIZE - 4
  {
    hide Addr;
    FrameLowBits(p);
    if Unbroken(p) {
      forall k: nat | k < SECTOR ensures Addr(p, k) % FRAME_SIZE <= FRAME_SIZE - 4 {
        InFrame(p, k);
      }
    } else {
      var k := (FRAME_SIZE - p % FRAME_SIZE) / 4;
      InFrame(p, k);
      assert k < SECTOR && Addr(p, k) % FRAME_SIZE > FRAME_SIZE - 4;
    }
  }

  /** Where in its frame the k-th word is. */
  lemma InFrame(p: nat, k: nat)
    requires k < SECTOR
    ensures var r := p % FRAME_SIZE + 4 * k;
            Addr(p, k) % FRAME_SIZE == if r < FRAME_SIZE then r else r - FRAME_SIZE
  {
    FrameWrap(p + 4 * k);
    FrameRest(p, 4 * k);
  }

  lemma FrameRest(p: nat, d: nat)
    requires d < FRAME_SIZE
    ensures var r := p % FRAME_SIZE + d;
            (p + d) % FRAME_SIZE == if r < FRAME_SIZE then r else r - FRAME_SIZE
  {
    var r, i := p % FRAME_SIZE + d, p / FRAME_SIZE;
    if r < FRAME_SIZE {
      FrameDivMod(p + d, i, r);
    } else {
      FrameDivMod(p + d, i + 1, r - FRAME_SIZE);
    }
  }

  lemma FrameLowBits(p: nat)
    ensures p % 4 == p % FRAME_SIZE % 4
  {}

  lemma FrameWrap(x: nat)
    ensures x % PTR_SPACE % FRAME_SIZE == x % FRAME_SIZE
  {
    var q, y := x / PTR_SPACE, x % PTR_SPACE;
    FrameDivMod(x, 0x10_0000_0000_0000 * q + y / FRAME_SIZE, y % FRAME_SIZE);
  }

  /** A write command stores memory's block in its sector; memory and every other sector stay as they were. */
  lemma WriteSector(d: Disk, m: Mem)
    requires Started(d) && d.action == Writing && Unbroken(d.ptr)
    ensures var (d', m') := Steps(d, m, SECTOR);
            && Finished(d, d') && m' == m && |d'.image| == |d.image|
            && d'.secno == d.secno && d'.polled == d.polled && d'.configured == d.configured
            && (d.sector + 1) * 128 <= |d.image| && SectorOf(d'.image, d.sector) == Gathered(m, d.ptr, SECTOR)
            && (forall n: nat :: n != d.sector && (n + 1) * 128 <= |d.image| ==>
                  SectorOf(d'.image, n) == SectorOf(d.image, n))
  {
    hide Memory.Read32, Addr, Steps, Inv, After, Gathered;
    StartedInBounds(d);
    WriteSteps(d, m, SECTOR);
    FinishedAfter(d);
    var words := Gathered(m, d.ptr, SECTOR);
    StoredSector(d.image, d.sector, words, d.sector);
    forall n: nat | n != d.sector && (n + 1) * 128 <= |d.image|
      ensures SectorOf(Stored(d.image, d.sector, words), n) == SectorOf(d.image, n)
    {
      StoredSector(d.image, d.sector, words, n);
    }
  }

  lemma StoredSector(image: seq<bv32>, s: nat, words: seq<bv32>, n: nat)
    requires |words| == SECTOR && (s + 1) * 128 <= |image| && (n + 1) * 128 <= |image|
    ensures SectorOf(Stored(image, s, words), n) == if n == s then words else SectorOf(image, n)
  {
    if n == s {
      assert SectorOf(Stored(image, s, words), n) == words;
    } else {
      assert forall i :: 0 <= i < 128 ==> SectorOf(Stored(image, s, words), n)[i] == SectorOf(image, n)[i];
    }
  }

  /** Programming the pointer takes two register writes. */
  function Aimed(d: Disk, low: bv32, high: bv32): Disk { Write32(Write32(d, 0, low), 16, high) }

  lemma AimedAt(d: Disk, low: bv32, high: bv32)
    requires Inv(d) && d.configured
    ensures Inv(Aimed(d, low, high))
    ensures Aimed(d, low, high) == d.(ptr := Unsigned(low) + Unsigned(high) * WORD)
  {
    hide Command, Unsigned;
    Write32Keeps(d, 0, low);
    Write32Keeps(Write32(d, 0, low), 16, high);
    LowThenHigh(d.ptr, Unsigned(low), Unsigned(high));
  }

  lemma LowThenHigh(p: nat, low: nat, high: nat)
    requires low < WORD
    ensures WithHigh(WithLow(p, low), high) == low + high * WORD
  {
    var q := p / WORD;
    assert (WORD * q + low) % WORD == low;
  }

  lemma StartWrite(d: Disk, ack: bool)
    requires Inv(d) && d.configured && d.action == Idle && InBounds(d)
    ensures var c := Command(d, false, true, ack);
            && Started(c) && c.action == Writing && c.sector == d.secno && c.secno == d.secno && c.ptr == d.ptr
            && c.image == d.image
  {}

  lemma StartRead(d: Disk, ack: bool)
    requires Inv(d) && d.configured && d.action == Idle && InBounds(d)
    ensures var c := Command(d, true, false, ack);
            && Started(c) && c.action == Reading && c.sector == d.secno && c.ptr == d.ptr && c.image == d.image
  {}

  /** Then the sector register. */
  function Filed(d: Disk, sector: bv32, low: bv32, high: bv32): Disk { Write32(Aimed(d, low, high), 4, sector) }

  function Pointer(low: bv32, high: bv32): nat { Unsigned(low) + Unsigned(high) * WORD }

  lemma FiledAt(d: Disk, sector: bv32, low: bv32, high: bv32)
    requires Inv(d) && d.configured
    ensures Inv(Filed(d, sector, low, high))
    ensures Filed(d, sector, low, high) == d.(ptr := Pointer(low, high), secno := Unsigned(sector))
  {
    hide Command, Unsigned, Inv, Aimed;
    AimedAt(d, low, high);
    Write32Keeps(Aimed(d, low, high), 4, sector);
  }

  /** The registers are written, then the command, and the disk is left alone for a sector. */
  ghost function Ordered(d: Disk, m: Mem, sector: bv32, low: bv32, high: bv32, command: bv32): (r: (Disk, Mem))
    requires Inv(d)
    ensures Inv(r.0)
  {
    Write32Keeps(d, 0, low);
    Write32Keeps(Write32(d, 0, low), 16, high);
    Write32Keeps(Aimed(d, low, high), 4, sector);
    Write32Keeps(Filed(d, sector, low, high), 8, command);
    Steps(Write32(Filed(d, sector, low, high), 8, command), m, SECTOR)
  }

  /** Write and acknowledge, read and acknowledge. */
  const STORE: bv32 := 6
  const LOAD: bv32 := 5

  lemma CommandBits(d: Disk)
    requires d.configured
    ensures Write32(d, 8, STORE) == Command(d, false, true, true)
    ensures Write32(d, 8, LOAD) == Command(d, true, false, true)
  {
    hide Command;
  }

  /** A disk ready for a command, of this many sectors. */
  ghost predicate Free(d: Disk, sectors: nat) {
    Inv(d) && d.configured && d.action == Idle && |d.image| == sectors * 128
  }

  lemma InRange(d: Disk, sector: nat, sectors: nat)
    requires d.secno == sector < sectors && |d.image| == sectors * 128
    ensures InBounds(d) && (sector + 1) * 128 <= |d.image|
  {}

  /** Storing to sector a replaces that sector and no other. */
  lemma Stores(d: Disk, m: Mem, sectors: nat, a: bv32, low: bv32, high: bv32, n: nat)
    requires Free(d, sectors) && Unsigned(a) < sectors && n < sectors && Unbroken(Pointer(low, high))
    ensures var (d', m') := Ordered(d, m, a, low, high, STORE);
            && Free(d', sectors) && m' == m
            && (n + 1) * 128 <= |d.image|
            && SectorOf(d'.image, n) ==
               if n == Unsigned(a) then Gathered(m, Pointer(low, high), SECTOR) else SectorOf(d.image, n)
  {
    hide Memory.Read32, Addr, Steps, Inv, Command, SectorOf, Unsigned, InBounds, Canon, Write32, Filed, Gathered,
         Pointer, Unbroken;
    var f := Filed(d, a, low, high);
    FiledAt(d, a, low, high);
    InRange(f, Unsigned(a), sectors);
    CommandBits(f);
    StartWrite(f, true);
    WriteSector(Command(f, false, true, true), m);
    EnoughSectors(n, sectors);
  }

  lemma EnoughSectors(n: nat, sectors: nat)
    requires n < sectors
    ensures (n + 1) * 128 <= sectors * 128
  {}

  /** Loading sector a leaves it in memory. */
  lemma Loads(d: Disk, m: Mem, sectors: nat, a: bv32, low: bv32, high: bv32)
    requires Free(d, sectors) && Unsigned(a) < sectors && WellFormed(m)
    requires Pointer(low, high) % 4 == 0 && forall j :: 0 <= j < SECTOR ==> Writable(m, Addr(Pointer(low, high), j))
    ensures var (d', m') := Ordered(d, m, a, low, high, LOAD);
            && d'.action == Idle && d'.image == d.image && (Unsigned(a) + 1) * 128 <= |d.image|
            && Gathered(m', Pointer(low, high), SECTOR) == SectorOf(d.image, Unsigned(a))
  {
    hide Memory.Read32, WellFormed, Addr, Writable, Steps, Inv, Command, SectorOf, Unsigned, InBounds, Canon, Write32,
         Filed, Pointer;
    var f := Filed(d, a, low, high);
    FiledAt(d, a, low, high);
    InRange(f, Unsigned(a), sectors);
    CommandBits(f);
    StartRead(f, true);
    var r := Command(f, true, false, true);
    ReadSector(r, m);
    var (d', m') := Steps(r, m, SECTOR);
    var words := SectorOf(d.image, Unsigned(a));
    forall j | 0 <= j < SECTOR ensures Gathered(m', r.ptr, SECTOR)[j] == words[j] {
      assert Gathered(m', r.ptr, SECTOR)[j] == Memory.Read32(m', Addr(r.ptr, j));
    }
    assert Gathered(m', r.ptr, SECTOR) == words;
  }

  /**
   A block stored to sector a from one place, then one stored to sector b from
   another, and sector a loaded to a third: the first block is back, unless b
   is the same sector, and then the second.  Memory may be different each time.
  */
  lemma SectorRoundTrip(d: Disk, sectors: nat, a: bv32, b: bv32, m: Mem, n: Mem, o: Mem,
                        low: bv32, high: bv32, low': bv32, high': bv32, low'': bv32, high'': bv32)
    requires Free(d, sectors) && Unsigned(a) < sectors && Unsigned(b) < sectors && WellFormed(o)
    requires Unbroken(Pointer(low, high)) && Unbroken(Pointer(low', high'))
    requires Pointer(low'', high'') % 4 == 0
    requires forall j :: 0 <= j < SECTOR ==> Writable(o, Addr(Pointer(low'', high''), j))
    ensures var d1 := Ordered(d, m, a, low, high, STORE).0;
            var d2 := Ordered(d1, n, b, low', high', STORE).0;
            var (d3, r) := Ordered(d2, o, a, low'', high'', LOAD);
            && d3.action == Idle
            && Gathered(r, Pointer(low'', high''), SECTOR) ==
               if Unsigned(a) == Unsigned(b) then Gathered(n, Pointer(low', high'), SECTOR)
               else Gathered(m, Pointer(low, high), SECTOR)
  {
    hide Memory.Read32, WellFormed, Addr, Writable, Inv, SectorOf, Unsigned, Canon, Ordered, Pointer, Unbroken,
         Gathered;
    Stores(d, m, sectors, a, low, high, Unsigned(a));
    var d1 := Ordered(d, m, a, low, high, STORE).0;
    Stores(d1, n, sectors, b, low', high', Unsigned(a));
    var d2 := Ordered(d1, n, b, low', high', STORE).0;
    Loads(d2, o, sectors, a, low'', high'');
  }
}
