/** The disk as the simulator keeps it: an object with its image in an array, written one word a step. */
module DiskDevice {
  import opened Memory
  import opened D = Disk

  class Drive {
    const polled: bool
    var configured: bool
    var image: array<bv32>
    var ptr: nat
    var secno: nat
    var status: Status
    var action: Action
    var sector: nat
    var cnt: nat
    var pending: bool
    var interrupts: nat
    var readCommands: nat
    var writeCommands: nat
    var errors: nat
    var ram: Mem

    ghost function View(): Disk
      reads this, image
    {
      D.Disk(polled, configured, image[..], ptr, secno, status, action, sector, cnt, pending,
             interrupts, readCommands, writeCommands, errors)
    }

    constructor (withoutInterrupts: bool, memory: Mem)
      ensures View() == Fresh(withoutInterrupts) && Inv(View()) && ram == memory && fresh(image)
    {
      polled, configured, image, ptr, secno := withoutInterrupts, false, new bv32[0], 0, 0;
      status, action, sector, cnt, pending := Status(false, false, false), Idle, 0, 0, false;
      interrupts, readCommands, writeCommands, errors, ram := 0, 0, 0, 0, memory;
    }

    /** A new memory disk, all zero. */
    method Configure(size: nat) returns (ok: bool)
      modifies this
      ensures View() == Generic(old(View()), size) && ram == old(ram)
      ensures ok <==> size != 0 && size % 512 == 0
      ensures ok ==> fresh(image)
    {
      if size == 0 || size % 512 != 0 {
        return false;
      }
      action, ptr, cnt := Idle, 0, 0;
      image := new bv32[size / 4](i => 0);
      configured := true;
      assert image[..] == seq(size / 4, i => 0);
      ok := true;
    }

    method Fail()
      modifies this`status, this`pending, this`interrupts, this`errors
      ensures View() == Reject(old(View()))
    {
      status := Status(false, true, false);
      if !polled {
        status := status.(interrupt := true);
        pending := true;
        interrupts := interrupts + 1;
      }
      errors := errors + 1;
    }

    method Execute(read: bool, write: bool, ack: bool)
      modifies this
      ensures View() == Command(old(View()), read, write, ack) && ram == old(ram) && image == old(image)
    {
      hide Reject, Begin;
      if ack {
        status := status.(interrupt := false);
        pending := false;
      }
      if read && write {
        Fail();
        return;
      }
      if (read || write) && action != Idle {
        Fail();
        return;
      }
      if (secno + 1) * 512 > 4 * image.Length {
        Fail();
        return;
      }
      Start(read, write);
    }

    method Start(read: bool, write: bool)
      modifies this`action, this`cnt, this`sector, this`status, this`readCommands, this`writeCommands
      ensures View() == Begin(old(View()), read, write)
    {
      if read {
        action, cnt, sector := Reading, 0, secno;
        status := status.(busy := true);
        readCommands := readCommands + 1;
      }
      if write {
        action, cnt, sector := Writing, 0, secno;
        status := status.(busy := true);
        writeCommands := writeCommands + 1;
      }
    }

    method WriteRegister(offset: nat, val: bv32)
      modifies this
      ensures View() == D.Write32(old(View()), offset, val) && ram == old(ram) && image == old(image)
    {
      hide Command, WithLow, WithHigh, Unsigned, Asked;
      if !configured {
        return;
      }
      match offset
      case 0 => ptr := WithLow(ptr, Unsigned(val));
      case 16 => ptr := WithHigh(ptr, Unsigned(val));
      case 4 => secno := Unsigned(val);
      case 8 => Execute(Asked(val, 1), Asked(val, 2), Asked(val, 4));
      case _ =>
    }

    method Advance()
      modifies this`ptr, this`cnt, this`action, this`status, this`pending, this`interrupts
      ensures View() == Complete(old(View()).(ptr := (old(ptr) + 4) % PTR_SPACE, cnt := old(cnt) + 1))
    {
      ptr := (ptr + 4) % PTR_SPACE;
      cnt := cnt + 1;
      if cnt == SECTOR {
        action := Idle;
        status := status.(busy := false);
        if !polled {
          status := status.(interrupt := true);
          pending := true;
          interrupts := interrupts + 1;
        }
      }
    }

    /** `ddisk_step` */
    method StepWord()
      requires Inv(View())
      modifies this, image
      ensures (View(), ram) == D.Step(old(View()), old(ram)) && image == old(image) && Inv(View())
    {
      hide Memory.Read32, Memory.Write32, Complete;
      StepKeeps(View(), ram);
      match action
      case Idle =>
      case Reading =>
        ram := Memory.Write32(ram, ptr, image[sector * 128 + cnt], true);
        Advance();
      case Writing =>
        image[sector * 128 + cnt] := Memory.Read32(ram, ptr);
        Advance();
    }
  }
}
