/** The TLB as the simulator keeps it: an array of entries, a hint that lookups move, and the CP0 registers. */
module R4kTlbDevice {
  import opened R4kTlb

  class Unit {
    const entries: array<Entry>
    var hint: nat
    var cp0: Cp0

    ghost predicate Valid()
      reads this, entries
    {
      entries.Length == ENTRIES && Inv(View())
    }

    ghost function View(): Cpu
      reads this, entries
    {
      Cpu(entries[..], cp0)
    }

    constructor ()
      ensures Valid() && hint == 0 && cp0 == Cp0(0, false, 47, 0, 0, 0, 0, 0) && fresh(entries)
    {
      var blank := Page(0, 0, false, false);
      entries := new Entry[48](i => Entry(0, 0, false, 0, blank, blank));
      hint, cp0 := 0, Cp0(0, false, 47, 0, 0, 0, 0, 0);
      new;
      ResetIsGood(entries[..]);
    }

    /** `tlb_look`: the hint moves only on success, to the number of entries tried. */
    method Lookup(virt: bv32, asid: bv32, write: bool) returns (r: Look)
      requires Valid()
      modifies this`hint
      ensures Valid() && r == LookFrom(entries[..], old(hint), virt, asid, write)
      ensures hint == if r.Found? then FirstFrom(entries[..], old(hint), 0, virt, asid) else old(hint)
    {
      hide Matches, Verdict, Slot, Inv;
      var start := hint;
      for i := 0 to 48
        invariant hint == start
        invariant FirstFrom(entries[..], start, 0, virt, asid) == FirstFrom(entries[..], start, i, virt, asid)
      {
        var e := entries[Slot(start, i)];
        if Matches(e, virt, asid) {
          r := Verdict(e, virt, write);
          if r.Found? {
            hint := i;
          }
          return;
        }
      }
      r := Refill;
    }

    method ProbeTlb()
      requires Valid()
      modifies this`cp0
      ensures Valid() && View() == Execute(old(View()), ProbeEntry)
    {
      hide Matches, Slot, Inv, Part, Asid;
      ExecuteKeeps(View(), ProbeEntry);
      var virt, asid := Part(cp0.entryHi, VPN2), Asid(cp0.entryHi);
      cp0 := cp0.(index := 0, missed := true);
      for i := 0 to 48
        invariant cp0 == old(cp0).(index := 0, missed := true)
        invariant FirstFrom(entries[..], 0, 0, virt, asid) == FirstFrom(entries[..], 0, i, virt, asid)
      {
        SlotZero(i);
        if Matches(entries[i], virt, asid) {
          assert Hit(entries[..], 0, i, virt, asid);
          cp0 := cp0.(index := i, missed := false);
          break;
        }
      }
    }

    method WriteTlb(random: bool)
      requires Valid()
      modifies entries
      ensures Valid() && View() == Execute(old(View()), if random then WriteRandom else WriteIndexed)
    {
      hide EntryFrom, Inv;
      ExecuteKeeps(View(), if random then WriteRandom else WriteIndexed);
      var index := if random then cp0.random else cp0.index;
      if index <= 47 {
        entries[index] := EntryFrom(cp0);
      }
    }

    method ReadTlb()
      requires Valid()
      modifies this`cp0
      ensures Valid() && View() == Execute(old(View()), ReadIndexed)
    {
      hide ReadInto, Inv;
      ExecuteKeeps(View(), ReadIndexed);
      if cp0.index > 47 {
        cp0 := cp0.(pageMask := 0, entryHi := 0, entryLo0 := 0, entryLo1 := 0);
      } else {
        cp0 := ReadInto(cp0, entries[cp0.index]);
      }
    }

    /** MTC0 to the registers of the TLB; Wired and Index keep six bits, and Wired restarts Random. */
    method MoveTo(i: Instr)
      requires Valid() && (i.MoveToWired? || i.MoveToEntry? || i.MoveToIndex?)
      modifies this`cp0
      ensures Valid() && View() == Execute(old(View()), i)
    {
      hide Inv;
      ExecuteKeeps(View(), i);
      match i
      case MoveToWired(v) =>
        cp0 := cp0.(random := 47);
        cp0 := cp0.(wired := v % 64);
      case MoveToEntry(p, h, l0, l1) => cp0 := cp0.(pageMask := p, entryHi := h, entryLo0 := l0, entryLo1 := l1);
      case MoveToIndex(v) => cp0 := cp0.(index := v % 64, missed := false);
    }

    /** The part of `manage` that counts Random down, to Wired and then again from the last entry. */
    method CountDown()
      requires Valid()
      modifies this`cp0
      ensures Valid() && cp0 == Manage(old(cp0))
      ensures cp0.random == if old(cp0).random > old(cp0).wired then old(cp0).random - 1 else 47
      ensures cp0.wired <= 47 ==> cp0.wired <= cp0.random <= 47
    {
      hide Masked;
      ManageKeeps(View());
      if cp0.random == 0 {
        cp0 := cp0.(random := 47);
      } else {
        cp0 := cp0.(random := cp0.random - 1);
      }
      if cp0.random < cp0.wired {
        cp0 := cp0.(random := 47);
      }
    }

    /** One instruction and the bookkeeping after it. */
    method Step(i: Instr)
      requires Valid()
      modifies this`cp0, entries
      ensures Valid() && View() == R4kTlb.Step(old(View()), i)
    {
      hide Inv, Execute, Manage;
      match i {
        case WriteRandom => WriteTlb(true);
        case WriteIndexed => WriteTlb(false);
        case ReadIndexed => ReadTlb();
        case ProbeEntry => ProbeTlb();
        case Other => Nothing(View());
        case _ => MoveTo(i);
      }
      CountDown();
    }
  }

  lemma Nothing(cpu: Cpu)
    requires |cpu.tlb| == ENTRIES
    ensures Execute(cpu, Other) == cpu
  {}
}
