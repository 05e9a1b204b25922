/** The emergency producer of the C stack: one ring array that is at once the queue of
    messages still to be sent and the error history of object 0x1003. */
module Emergency {
  import opened Wire

  const BUFFER_FULL: Byte := 0x20
  const WRONG_ERROR_REPORT: Byte := 0x28
  const STATUS_BITS: nat := 80
  const NO_ERROR: U16 := 0
  const GENERIC: U16 := 0x1000
  const SOFTWARE_INTERNAL: U16 := 0x6100

  /** An emergency message; the error register is filled in when it is sent. */
  datatype Message = Message(errorBit: Byte, register: bv8, errorCode: U16, info: U32)

  datatype Answer = Count(n: nat) | Entry(m: Message) | NoEntry | Incompatible | BadValue | Cleared

  // ----- the ring -----

  function Next(i: nat, size: nat): nat { if i + 1 >= size then 0 else i + 1 }

  /** The slot `k` steps before `i`. */
  function Back(i: nat, k: nat, size: nat): nat
    requires i < size && k <= size
  {
    if k <= i then i - k else i + size - k
  }

  /** The ring holds the latest messages of the log, newest just behind `wr`. */
  ghost predicate Holds(ring: seq<Message>, wr: nat, log: seq<Message>)
    requires wr < |ring|
  {
    forall k: nat :: 1 <= k < |ring| && k <= |log| ==> ring[Back(wr, k, |ring|)] == log[|log| - k]
  }

  lemma HoldsPush(ring: seq<Message>, wr: nat, log: seq<Message>, m: Message)
    requires 2 <= |ring| && wr < |ring| && Holds(ring, wr, log)
    ensures Holds(ring[wr := m], Next(wr, |ring|), log + [m])
  {
    var wr', log', n := Next(wr, |ring|), log + [m], |ring|;
    forall k: nat | 1 <= k < n && k <= |log'|
      ensures ring[wr := m][Back(wr', k, n)] == log'[|log'| - k]
    {
      if k > 1 {
        assert Back(wr', k, n) == Back(wr, k - 1, n);
      }
    }
  }

  /** Changing one entry in place changes it in the log. */
  lemma HoldsStamp(ring: seq<Message>, wr: nat, log: seq<Message>, j: nat, m: Message)
    requires 2 <= |ring| && wr < |ring| && Holds(ring, wr, log) && 1 <= j < |ring| && j <= |log|
    ensures Holds(ring[Back(wr, j, |ring|) := m], wr, log[|log| - j := m])
  {
  }

  // ----- the object -----

  /** The message the sender itself adds about a queue that overflowed. */
  ghost function OverflowNews(overflow: nat, emptied: bool, marked: bool): seq<Message> {
    if overflow == 1 && !marked then [Message(0x20, 0, 0x1000, 0)]
    else if overflow == 2 && emptied && marked then [Message(0x20, 0, 0, 0)]
    else []
  }

  class Producer {
    const fifo: array<Message>
    const inhibitTime: U32
    var wrPtr: nat
    var ppPtr: nat
    var overflow: nat
    var count: nat
    var inhibitTimer: U32
    var status: set<nat>

    /** Every message accepted into the ring, oldest first. */
    ghost var log: seq<Message>
    /** Every message sent, in order. */
    ghost var wire: seq<Message>
    /** Length of the log when the history was last cleared. */
    ghost var clearedAt: nat
    /** Time since the last message was sent, or since the start. */
    ghost var sinceSend: nat
    /** The part of it that passed in calls that could have sent, and whether the 32-bit
        timer wrapped around in it. */
    ghost var ready: nat
    ghost var wrapped: bool

    ghost predicate Valid()
      reads this, fifo
    {
      && overflow <= 2 && inhibitTimer <= sinceSend && ready <= sinceSend && (forall b <- status :: b < STATUS_BITS)
      && (!wrapped ==> if ready < inhibitTime then inhibitTimer == ready else inhibitTime <= inhibitTimer <= ready)
      && |wire| <= |log| && clearedAt <= |log| && wire == log[..|wire|]
      && (fifo.Length < 2 ==> log == [] && count == 0)
      && (fifo.Length >= 2 ==>
        && wrPtr < fifo.Length && Pending() < fifo.Length && ppPtr == Back(wrPtr, Pending(), fifo.Length)
        && Holds(fifo[..], wrPtr, log) && count == Least(|log| - clearedAt, fifo.Length - 1)
        && (forall i: nat :: |wire| <= i < |log| ==> log[i].register == 0))
    }

    ghost function Pending(): nat
      reads this
    {
      if |wire| <= |log| then |log| - |wire| else 0
    }

    constructor (fifoSize: nat, inhibitTime: U32)
      requires fifoSize <= 255
      ensures Valid() && fresh(fifo) && fifo.Length == fifoSize && this.inhibitTime == inhibitTime
      ensures log == [] && wire == [] && status == {} && overflow == 0 && ready == 0 && !wrapped
    {
      fifo := new Message[fifoSize](_ => Message(0, 0, 0, 0));
      this.inhibitTime := inhibitTime;
      wrPtr, ppPtr, overflow, count, inhibitTimer, status := 0, 0, 0, 0, 0, {};
      log, wire, clearedAt, sinceSend, ready, wrapped := [], [], 0, 0, 0, false;
    }

    /** Reports or clears an error condition. A message is accepted exactly when the
        condition changes and the queue has room; a full queue loses the message, not the
        condition, and raises the overflow mark. */
    method Error(setError: bool, errorBit: Byte, errorCode: U16, infoCode: U32)
      requires Valid()
      modifies this`status, this`wrPtr, this`count, this`overflow, this`log, fifo
      ensures Valid()
      ensures var bit := if errorBit < 80 then errorBit else 0x28;
              var changes := setError != (bit in old(status));
              var fits := fifo.Length >= 2 && old(Pending()) < fifo.Length - 1;
              && status == (if setError then old(status) + {bit} else old(status) - {bit})
              && overflow == (if changes && fifo.Length >= 2 && !fits then 1 else old(overflow))
              && log == old(log) + if !(changes && fits) then [] else
                [Message(errorBit, 0,
                         if !setError then 0 else if errorBit < 80 then errorCode else 0x6100,
                         if errorBit < 80 then infoCode else errorBit)]
    {
      hide Holds;
      var bit, code, info := errorBit, errorCode, infoCode;
      if errorBit / 8 >= STATUS_BITS / 8 {
        bit, code, info := WRONG_ERROR_REPORT, SOFTWARE_INTERNAL, errorBit;
      }
      if setError {
        if bit in status {
          return;
        }
      } else {
        if bit !in status {
          return;
        }
        code := NO_ERROR;
      }
      status := if setError then status + {bit} else status - {bit};
      if fifo.Length >= 2 {
        Accept(Message(errorBit, 0, code, info));
      }
    }

    /** Puts a message into the ring, unless it is full. */
    method Accept(m: Message)
      requires Valid() && fifo.Length >= 2 && m.register == 0
      modifies this`wrPtr, this`count, this`overflow, this`log, fifo
      ensures Valid()
      ensures var fits := old(Pending()) < fifo.Length - 1;
              && log == (if fits then old(log) + [m] else old(log))
              && overflow == (if fits then old(overflow) else 1)
    {
      hide Holds;
      var next := Next(wrPtr, fifo.Length);
      if next == ppPtr {
        overflow := 1;
      } else {
        HoldsPush(fifo[..], wrPtr, log, m);
        fifo[wrPtr] := m;
        wrPtr := next;
        if count < fifo.Length - 1 {
          count := count + 1;
        }
        log := log + [m];
      }
    }

    /** One pass of the sender: the oldest message not yet sent goes out, with the error
        register, if and only if the driver is free and the inhibit time is over; a timer
        that wraps around starts again from what is left. Then the overflow mark is worked
        off; neither of its own messages can be lost for want of room. */
    method Process(operational: bool, bufferFull: bool, errorRegister: bv8, elapsed: U32)
      returns (sent: Option<Message>)
      requires Valid()
      modifies this`status, this`wrPtr, this`ppPtr, this`overflow, this`count, this`inhibitTimer, this`log, this`wire,
        this`sinceSend, this`ready, this`wrapped, fifo
      ensures Valid()
      ensures !old(wrapped) && old(ready) + elapsed < 0x1_0000_0000 ==>
        (sent.Some? <==>
           fifo.Length >= 2 && operational && !bufferFull && old(Pending()) > 0 && old(ready) + elapsed >= inhibitTime)
      ensures old(inhibitTimer) < inhibitTime && old(inhibitTimer) as int + elapsed >= 0x1_0000_0000 ==>
        (sent.Some? <==>
           && fifo.Length >= 2 && operational && !bufferFull && old(Pending()) > 0
           && old(inhibitTimer) as int + elapsed - 0x1_0000_0000 >= inhibitTime)
      ensures old(inhibitTimer) >= inhibitTime ==>
        (sent.Some? <==> fifo.Length >= 2 && operational && !bufferFull && old(Pending()) > 0)
      ensures var counts := operational && fifo.Length >= 2;
              var wraps := old(inhibitTimer) < inhibitTime && old(inhibitTimer) as int + elapsed >= 0x1_0000_0000;
              && ready == (if sent.Some? then 0 else if counts then old(ready) + elapsed else old(ready))
              && wrapped == (sent.None? && (old(wrapped) || (counts && wraps)))
      ensures sent.None? ==> wire == old(wire) && log == old(log) && overflow == old(overflow) && status == old(status)
      ensures sent.Some? ==> old(sinceSend) + elapsed >= inhibitTime && sinceSend == 0
      ensures sent.Some? ==>
        && |old(wire)| < |old(log)|
        && sent.value == old(log)[|old(wire)|].(register := errorRegister)
        && wire == old(wire) + [sent.value]
      ensures sent.Some? && old(overflow) == 1 ==>
        && overflow == 2
        && status == old(status) + {0x20}
        && (0x20 !in old(status) ==> |log| == |old(log)| + 1 && log[|old(log)|] == Message(0x20, 0, 0x1000, 0))
      ensures sent.Some? && old(overflow) == 2 && old(Pending()) == 1 ==>
        && overflow == 0
        && status == old(status) - {0x20}
        && (0x20 in old(status) ==> |log| == |old(log)| + 1 && log[|old(log)|] == Message(0x20, 0, 0, 0))
      ensures sent.Some? ==> WasSent(sent.value, errorRegister, old(log), old(wire), old(overflow), old(status))
    {
      hide Holds;
      sent := None;
      sinceSend := sinceSend + elapsed;
      if !operational || fifo.Length < 2 {
        return;
      }
      Tick(elapsed);
      if !bufferFull && ppPtr != wrPtr && inhibitTimer >= inhibitTime {
        inhibitTimer, ready, wrapped := 0, 0, false;
        var m := SendOldest(errorRegister);
        sent := Some(m);
      }
    }

    /** The inhibit timer stops at its time; the sum is a 32-bit one. */
    method Tick(elapsed: U32)
      requires !wrapped ==> if ready < inhibitTime then inhibitTimer == ready else inhibitTime <= inhibitTimer <= ready
      modifies this`inhibitTimer, this`ready, this`wrapped
      ensures !wrapped ==> if ready < inhibitTime then inhibitTimer == ready else inhibitTime <= inhibitTimer <= ready
      ensures ready == old(ready) + elapsed
      ensures var sum := old(inhibitTimer) as int + elapsed;
              if old(inhibitTimer) >= inhibitTime then inhibitTimer == old(inhibitTimer) && wrapped == old(wrapped)
              else if sum < 0x1_0000_0000 then inhibitTimer == sum && wrapped == old(wrapped)
              else inhibitTimer == sum - 0x1_0000_0000 && wrapped
    {
      ready := ready + elapsed;
      if inhibitTimer < inhibitTime {
        var sum := inhibitTimer as int + elapsed;
        wrapped := wrapped || sum >= 0x1_0000_0000;
        inhibitTimer := sum % 0x1_0000_0000;
      }
    }

    /** What a send did: the oldest message not yet sent went out, with the register, and the
        overflow mark moved on, with its own message if its condition changed. */
    ghost predicate WasSent(m: Message, errorRegister: bv8, log0: seq<Message>, wire0: seq<Message>, overflow0: nat,
                            status0: set<nat>)
      reads this
    {
      && |wire0| < |log0| && m == log0[|wire0|].(register := errorRegister) && wire == wire0 + [m]
      && var emptied := |wire0| + 1 == |log0|;
         && log == log0[|wire0| := m] + OverflowNews(overflow0, emptied, BUFFER_FULL in status0)
         && overflow == (if overflow0 == 1 then 2 else if overflow0 == 2 && emptied then 0 else overflow0)
         && status == (if overflow0 == 1 then status0 + {BUFFER_FULL}
                       else if overflow0 == 2 && emptied then status0 - {BUFFER_FULL} else status0)
    }

    method SendOldest(errorRegister: bv8) returns (m: Message)
      requires Valid() && fifo.Length >= 2 && ppPtr != wrPtr && inhibitTimer == 0 && ready == 0
      modifies this`status, this`wrPtr, this`ppPtr, this`overflow, this`count, this`log, this`wire, this`sinceSend, fifo
      ensures Valid() && sinceSend == 0
      ensures WasSent(m, errorRegister, old(log), old(wire), old(overflow), old(status))
    {
      hide Holds;
      m := Send(errorRegister);
      WorkOffOverflow();
    }

    /** After a send there is a free slot, so the message about the overflow, or about its
        end once the queue is empty, is accepted whenever its condition changes. */
    method WorkOffOverflow()
      requires Valid() && fifo.Length >= 2 && Pending() < fifo.Length - 1
      modifies this`status, this`wrPtr, this`count, this`overflow, this`log, fifo
      ensures Valid()
      ensures log == old(log) + OverflowNews(old(overflow), old(Pending()) == 0, BUFFER_FULL in old(status))
      ensures var over := old(overflow) == 2 && old(Pending()) == 0;
              && overflow == (if old(overflow) == 1 then 2 else if over then 0 else old(overflow))
              && status == (if old(overflow) == 1 then old(status) + {BUFFER_FULL}
                            else if over then old(status) - {BUFFER_FULL} else old(status))
    {
      hide Holds;
      if overflow == 1 {
        overflow := 2;
        Error(true, BUFFER_FULL, GENERIC, 0);
      } else if overflow == 2 && ppPtr == wrPtr {
        overflow := 0;
        Error(false, BUFFER_FULL, NO_ERROR, 0);
      }
    }

    /** Fills in the register of the oldest pending message and sends it. */
    method Send(errorRegister: bv8) returns (m: Message)
      requires Valid() && fifo.Length >= 2 && ppPtr != wrPtr && inhibitTimer == 0 && ready == 0
      modifies this`ppPtr, this`log, this`wire, this`sinceSend, fifo
      ensures Valid() && old(Pending()) > 0 && m == old(log)[|old(wire)|].(register := errorRegister)
      ensures wire == old(wire) + [m] && log == old(log)[|old(wire)| := m] && sinceSend == 0
      ensures (ppPtr == wrPtr) == (old(Pending()) == 1)
    {
      hide Holds;
      ghost var j := Pending();
      HoldsAt(fifo[..], wrPtr, log, j);
      m := fifo[ppPtr].(register := fifo[ppPtr].register | errorRegister);
      HoldsStamp(fifo[..], wrPtr, log, j, m);
      fifo[ppPtr] := m;
      ppPtr := Next(ppPtr, fifo.Length);
      log := log[|log| - j := m];
      wire, sinceSend := wire + [m], 0;
    }

    /** Reads object 0x1003: the count, or the k-th newest message since the last clear. */
    method ReadHistory(subIndex: Byte, size: nat) returns (a: Answer)
      requires Valid()
      ensures a == Incompatible <==> size < 1 || (size < 4 && subIndex > 0) || fifo.Length < 2
      ensures a != Incompatible ==>
        var known := Least(|log| - clearedAt, fifo.Length - 1);
        && (subIndex == 0 ==> a == Count(known))
        && (1 <= subIndex <= known ==> a == Entry(log[|log| - subIndex]) && |log| - subIndex >= clearedAt)
        && (subIndex > known ==> a == NoEntry)
    {
      if (size < 4 && subIndex > 0) || size < 1 {
        return Incompatible;
      }
      if fifo.Length < 2 {
        return Incompatible;
      }
      if subIndex == 0 {
        a := Count(count);
      } else if subIndex <= count {
        var index: int := wrPtr - subIndex;
        if index < 0 {
          index := index + fifo.Length;
        }
        HoldsAt(fifo[..], wrPtr, log, subIndex);
        a := Entry(fifo[index]);
      } else {
        a := NoEntry;
      }
    }

    /** Writes object 0x1003: a zero at sub-index 0 empties the history; the queue stays. */
    method WriteHistory(subIndex: Byte, data: seq<Byte>) returns (a: Answer)
      requires Valid()
      modifies this`count, this`clearedAt
      ensures Valid() && (a == Cleared <==> subIndex == 0 && data == [0])
      ensures a == Cleared ==> clearedAt == |log|
      ensures a != Cleared ==> clearedAt == old(clearedAt) && (a == BadValue <==> subIndex == 0 && |data| == 1)
    {
      if subIndex != 0 || |data| != 1 {
        return Incompatible;
      }
      if data[0] != 0 {
        return BadValue;
      }
      count, clearedAt := 0, |log|;
      a := Cleared;
    }
  }

  lemma HoldsAt(ring: seq<Message>, wr: nat, log: seq<Message>, k: nat)
    requires wr < |ring| && Holds(ring, wr, log) && 1 <= k < |ring| && k <= |log|
    ensures ring[Back(wr, k, |ring|)] == log[|log| - k]
  {
  }
}
