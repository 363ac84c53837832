/** The register functions of fpga_API.c and the enable, disable and reset functions of
    J1708_task.c as code over the registers.  The result of every I2C transfer is an argument. */
module J1708Board {
  import opened MachineInt
  import opened Bits
  import opened J1708Reset

  datatype Address = IrqMask | Control

  class Board {
    var control: word
    var mask: word
    var pinHigh: bool
    var enabled: bool
    var priority: nat

    /** The write index of the UART receive ring, which disabling clears. */
    var ringWrite: nat

    ghost function View(): Registers
      reads this
    {
      Registers(control, mask, pinHigh, enabled, priority)
    }

    /** A failed transfer returns no data. */
    method GetData(address: Address, transferOk: bool) returns (ok: bool, data: word)
      ensures ok == transferOk
      ensures ok ==> data == if address == IrqMask then mask else control
    {
      ok, data := transferOk, 0;
      if ok {
        data := if address == IrqMask then mask else control;
      }
    }

    method SetData(address: Address, data: word, transferOk: bool) returns (ok: bool)
      modifies this`control, this`mask
      ensures ok == transferOk
      ensures mask == if ok && address == IrqMask then data else old(mask)
      ensures control == if ok && address == Control then data else old(control)
    {
      ok := transferOk;
      if ok {
        if address == IrqMask {
          mask := data;
        } else {
          control := data;
        }
      }
    }

    method SetIrq(readOk: bool, writeOk: bool) returns (ok: bool)
      modifies this`control, this`mask
      ensures ok == (readOk && writeOk)
      ensures View() == old(View()).(mask := if ok then On(old(mask)) else old(mask))
    {
      hide Or, And;
      var data;
      ok, data := GetData(IrqMask, readOk);
      if !ok {
        return false;
      }
      OnIs(data);
      data := Or(data, RX_IRQ);
      ok := SetData(IrqMask, data, writeOk);
    }

    method ClearIrq(readOk: bool, writeOk: bool) returns (ok: bool)
      modifies this`control, this`mask
      ensures ok == (readOk && writeOk)
      ensures View() == old(View()).(mask := if ok then Off(old(mask)) else old(mask))
    {
      hide Or, And;
      var data;
      ok, data := GetData(IrqMask, readOk);
      if !ok {
        return false;
      }
      OffIs(data);
      data := And(data, Not32(RX_IRQ));
      ok := SetData(IrqMask, data, writeOk);
    }

    method EnableLink(readOk: bool, writeOk: bool) returns (ok: bool)
      modifies this`control, this`mask
      ensures ok == (readOk && writeOk)
      ensures View() == old(View()).(control := if ok then On(old(control)) else old(control))
    {
      hide Or, And;
      var data;
      ok, data := GetData(Control, readOk);
      if !ok {
        return false;
      }
      OnIs(data);
      data := Or(data, ENABLE);
      ok := SetData(Control, data, writeOk);
    }

    /** Clears the ring's write index, twice, as soon as the register has been read. */
    method DisableLink(readOk: bool, writeOk: bool) returns (ok: bool)
      modifies this`control, this`mask, this`ringWrite
      ensures ok == (readOk && writeOk)
      ensures ringWrite == if readOk then 0 else old(ringWrite)
      ensures View() == old(View()).(control := if ok then Off(old(control)) else old(control))
    {
      hide Or, And;
      var data;
      ok, data := GetData(Control, readOk);
      if !ok {
        return false;
      }
      ringWrite := 0;
      ringWrite := 0;
      OffIs(data);
      data := And(data, Not32(ENABLE));
      ok := SetData(Control, data, writeOk);
    }

    method WritePriority(prio: nat, readOk: bool, writeOk: bool) returns (ok: bool)
      modifies this`control, this`mask
      ensures ok == (readOk && writeOk)
      ensures View() == old(View()).(control := if ok then WithPriority(old(control), prio) else old(control))
    {
      hide Or, And;
      var data;
      ok, data := GetData(Control, readOk);
      if !ok {
        return false;
      }
      WithPriorityIs(data, prio);
      data := And(data, ENABLE);
      data := Or(data, Prio(prio));
      ok := SetData(Control, data, writeOk);
    }

    /** J1708_enable.  Transfer results are ignored: the state is set whatever happened. */
    method Enable(prio: nat, oks: seq<bool>)
      requires |oks| == LAST
      modifies this
      ensures View() == Registers(
                var given := if oks[9] && oks[10] then WithPriority(old(control), prio) else old(control);
                if oks[11] && oks[12] then On(given) else given,
                if oks[7] && oks[8] then On(old(mask)) else old(mask), false, true, prio)
      ensures ringWrite == old(ringWrite)
    {
      hide On, Off, WithPriority;
      var ok := SetIrq(oks[7], oks[8]);
      ok := WritePriority(prio, oks[9], oks[10]);
      ok := EnableLink(oks[11], oks[12]);
      pinHigh := false;
      enabled := true;
      priority := prio;
    }

    /** J1708_disable. */
    method Disable(oks: seq<bool>)
      requires |oks| == LAST
      modifies this
      ensures View() == Registers(
                if oks[3] && oks[4] then Off(old(control)) else old(control),
                if oks[1] && oks[2] then Off(old(mask)) else old(mask), true, false, old(priority))
      ensures View() == AloneUntil(old(View()), Begin(), oks, 6).regs
      ensures ringWrite == if oks[3] then 0 else old(ringWrite)
    {
      hide On, Off, WithPriority;
      ResetTrace(View(), oks, 6);
      OffMeans(control);
      OffMeans(mask);
      pinHigh := true;
      var ok := ClearIrq(oks[1], oks[2]);
      ok := DisableLink(oks[3], oks[4]);
      enabled := false;
    }

    /** J1708_reset, and what the single steps make of it when nothing interferes. */
    method ResetLink(oks: seq<bool>)
      requires |oks| == LAST
      modifies this
      ensures View() == Alone(old(View()), Begin(), oks)
      ensures ringWrite == if oks[3] then 0 else old(ringWrite)
    {
      hide On, Off, WithPriority;
      AloneIs(View(), oks);
      Disable(oks);
      Enable(priority, oks);
    }
  }
}
