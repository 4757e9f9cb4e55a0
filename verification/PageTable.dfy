/**
 The address-translation algorithm of section 4.3.2 of the RISC-V Privileged
 Architecture, stated once for any number of levels.  Sv32 and Sv39 are two
 instances of it.  It is the reference the unrolled page walks are compared with.
*/
module PageTable {
  import opened Options

  const PAGE: nat := 4096

  /** A page-table entry with its page number as a natural number. */
  datatype Entry = Entry(v: bool, r: bool, w: bool, x: bool, u: bool, g: bool, a: bool, d: bool, ppn: nat)

  /** One level of a table holds `fan` entries of `pteSize` bytes. */
  datatype Scheme = Scheme(levels: nat, fan: nat, pteSize: nat)

  /** A leaf: where its entry is, what the entry holds, its level, and whether the translation is global. */
  datatype Found = Found(addr: nat, entry: Entry, level: nat, global: bool)

  function Pow(b: nat, e: nat): (r: nat)
    ensures b > 0 ==> r > 0
  {
    if e == 0 then 1 else b * Pow(b, e - 1)
  }

  /** Bytes mapped by a leaf at `level`. */
  function Span(s: Scheme, level: nat): (r: nat)
    ensures s.fan > 0 ==> r > 0
  {
    PAGE * Pow(s.fan, level)
  }

  /** The virtual page number field for `level`. */
  function Vpn(s: Scheme, virt: nat, level: nat): nat
    requires s.fan > 0
  {
    virt / Span(s, level) % s.fan
  }

  /** Steps 2 to 5: descend from the table at `base`; `None` is a page fault. */
  function Descend(read: nat -> Entry, s: Scheme, base: nat, level: nat, virt: nat, global: bool): Option<Found>
    requires s.fan > 0
    decreases level
  {
    var addr := base + Vpn(s, virt, level) * s.pteSize;
    var e := read(addr);
    if !e.v || (!e.r && e.w) then None
    else if e.r || e.x then
      if e.ppn % Pow(s.fan, level) != 0 then None
      else Some(Found(addr, e, level, global || e.g))
    else if level == 0 then None
    else Descend(read, s, e.ppn * PAGE, level - 1, virt, global || e.g)
  }

  function Lookup(read: nat -> Entry, s: Scheme, root: nat, virt: nat): Option<Found>
    requires s.fan > 0 && s.levels > 0
  {
    Descend(read, s, root * PAGE, s.levels - 1, virt, false)
  }

  /** Step 8: the page number supplies the upper part of the address, the virtual address the rest. */
  function PhysicalAddress(s: Scheme, f: Found, virt: nat): nat
    requires s.fan > 0
  {
    f.entry.ppn / Pow(s.fan, f.level) * Span(s, f.level) + virt % Span(s, f.level)
  }

  datatype Privilege = User | Supervisor

  datatype Access = Load | Store | Fetch

  /**
   Step 6: is the access allowed?  The permission bit of the access must be set
   (an executable page also serves loads under MXR); user mode reaches only U
   pages; supervisor mode never executes U pages and touches them only under SUM.
  */
  predicate Permitted(e: Entry, access: Access, priv: Privilege, sum: bool, mxr: bool) {
    && (match access
        case Load => e.r || (mxr && e.x)
        case Store => e.w
        case Fetch => e.x)
    && (priv == User ==> e.u)
    && (priv == Supervisor && e.u ==> sum && access != Fetch)
  }

  // ---------- a whole translation ----------

  datatype Mode = UserMode | SupervisorMode | MachineMode

  /** The mode a hart is in and the status bits that govern translation. */
  datatype Status = Status(mode: Mode, mprv: bool, mpp: Mode, sum: bool, mxr: bool, bare: bool)

  /** MPRV makes loads and stores, but never fetches, use the previous mode. */
  function Governing(st: Status, access: Access): Mode {
    if st.mprv && access != Fetch then st.mpp else st.mode
  }

  /** What becomes of an access: its address is physical, it is refused, or it goes through a leaf. */
  datatype Resolution = Untranslated | Refused | Through(leaf: Found)

  function Resolve(read: nat -> Entry, s: Scheme, st: Status, root: nat, virt: nat, access: Access): Resolution
    requires s.fan > 0 && s.levels > 0
  {
    var mode := Governing(st, access);
    if mode == MachineMode || st.bare then Untranslated
    else
      var priv := if mode == UserMode then User else Supervisor;
      match Lookup(read, s, root, virt)
      case None => Refused
      case Some(f) => if Permitted(f.entry, access, priv, st.sum, st.mxr) then Through(f) else Refused
  }

  /** A physical address, or the page fault of the access. */
  datatype Answer = Address(phys: nat) | PageFault(access: Access)

  function Translate(read: nat -> Entry, s: Scheme, st: Status, root: nat, virt: nat, access: Access): Answer
    requires s.fan > 0 && s.levels > 0
  {
    match Resolve(read, s, st, root, virt, access)
    case Untranslated => Address(virt)
    case Refused => PageFault(access)
    case Through(f) => Address(PhysicalAddress(s, f, virt))
  }

  /** Step 7: the leaf is marked accessed, and by a store dirty. */
  function Marked(e: Entry, access: Access): Entry { e.(a := true, d := e.d || access == Store) }
}
