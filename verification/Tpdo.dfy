/** When a transmit PDO goes out: on every n-th SYNC, on request at a SYNC, or on events
    kept apart by the inhibit time. */
module Tpdo {
  import opened Wire

  const SYNC_240: nat := 0xF0
  const EVENT_LO: nat := 0xFE

  function Remaining(time: nat, elapsed: nat): nat { if time > elapsed then time - elapsed else 0 }

  /** The SYNC number of frame `k` of a cyclic PDO, counted from zero. */
  function Nth(first: nat, k: nat, n: nat): nat { first + k * n }

  lemma NthStep(first: nat, k: nat, n: nat)
    ensures Nth(first, 0, n) == first && Nth(first, k + 1, n) == Nth(first, k, n) + n
  {
  }

  class Schedule {
    /** The node has a SYNC object, and whether its messages are numbered. */
    const hasSync: bool
    const numbered: bool
    const syncStartValue: Byte
    const inhibitTime: U32
    const eventTime: U32
    var transmissionType: Byte
    var sendRequest: bool
    var syncCounter: Byte
    var inhibitTimer: U32
    var eventTimer: U32

    /** Since the PDO last became active or changed its type: SYNCs seen, frames sent, the
        SYNC of the first frame, and SYNCs and time since the latest frame. */
    ghost var syncs: nat
    ghost var sends: nat
    ghost var first: nat
    ghost var syncsSince: nat
    ghost var quiet: nat

    ghost predicate Cyclic()
      reads this
    {
      1 <= transmissionType <= SYNC_240
    }

    ghost predicate EventDriven()
      reads this
    {
      transmissionType >= EVENT_LO
    }

    ghost predicate StartsByNumber() { numbered && syncStartValue != 0 }

    /** The SYNC counter is what is left until the next frame. */
    ghost predicate CountsDown()
      reads this
    {
      if sends > 0 then syncsSince < transmissionType && syncCounter == transmissionType - syncsSince
      else if syncs == 0 then syncCounter == 255
      else if StartsByNumber() then syncCounter == 254
      else syncs < transmissionType / 2 + 1 && syncCounter == transmissionType / 2 + 1 - syncs
    }

    ghost predicate Valid()
      reads this
    {
      && (transmissionType <= SYNC_240 || EventDriven())
      && (!Cyclic() ==> syncCounter == 255)
      && (Cyclic() ==> CountsDown() && (sends > 0 ==> syncs == Nth(first, sends - 1, transmissionType) + syncsSince))
      && (Cyclic() && sends > 0 && !StartsByNumber() ==> first == transmissionType / 2 + 1)
      && (EventDriven() ==> inhibitTimer == if sends == 0 then 0 else Remaining(inhibitTime, quiet))
      && (!Cyclic() ==> eventTimer == if sends == 0 then 0 else Remaining(eventTime, quiet))
    }

    constructor (transmissionType: Byte, hasSync: bool, numbered: bool, syncStartValue: Byte, inhibitTime: U32,
                 eventTime: U32)
      ensures Valid() && sendRequest && sends == 0 && syncs == 0
      ensures this.transmissionType == (if 240 < transmissionType < 254 then 254 else transmissionType)
      ensures this.hasSync == hasSync && this.numbered == numbered && this.syncStartValue == syncStartValue
      ensures this.inhibitTime == inhibitTime && this.eventTime == eventTime
    {
      this.hasSync, this.numbered, this.syncStartValue := hasSync, numbered, syncStartValue;
      this.inhibitTime, this.eventTime := inhibitTime, eventTime;
      this.transmissionType := if SYNC_240 < transmissionType < EVENT_LO then EVENT_LO else transmissionType;
      sendRequest, syncCounter, inhibitTimer, eventTimer := true, 255, 0, 0;
      syncs, sends, first, syncsSince, quiet := 0, 0, 0, 0, 0;
    }

    /** The application asks for a frame. */
    method Request()
      requires Valid()
      modifies this`sendRequest
      ensures Valid() && sendRequest
    {
      sendRequest := true;
    }

    /** A new transmission type starts the schedule over. */
    method WriteType(newType: Byte) returns (ok: bool)
      requires Valid()
      modifies this
      ensures Valid() && (ok <==> newType <= 240 || newType >= 254)
      ensures if ok then transmissionType == newType && sendRequest && sends == 0 && syncs == 0
              else unchanged(this)
    {
      ok := newType <= SYNC_240 || newType >= EVENT_LO;
      if ok {
        transmissionType, sendRequest := newType, true;
        Restart();
      }
    }

    method Restart()
      requires transmissionType <= SYNC_240 || EventDriven()
      modifies this`syncCounter, this`inhibitTimer, this`eventTimer, this`syncs, this`sends, this`first,
        this`syncsSince, this`quiet
      ensures Valid() && sends == 0 && syncs == 0
    {
      syncCounter, inhibitTimer, eventTimer := 255, 0, 0;
      syncs, sends, first, syncsSince, quiet := 0, 0, 0, 0, 0;
    }

    /** The frame goes out. */
    method Send()
      modifies this`sendRequest, this`eventTimer, this`inhibitTimer, this`sends, this`first, this`syncsSince, this`quiet
      ensures !sendRequest && eventTimer == eventTime && inhibitTimer == inhibitTime
      ensures sends == old(sends) + 1 && syncsSince == 0 && quiet == 0
      ensures first == if old(sends) == 0 then syncs else old(first)
    {
      sendRequest, eventTimer, inhibitTimer := false, eventTime, inhibitTime;
      first := if sends == 0 then syncs else first;
      sends, syncsSince, quiet := sends + 1, 0, 0;
    }

    /** One pass. An inactive PDO only resets its triggers. An event-driven one sends if and
        only if a frame is wanted and the inhibit time has passed since the last. A cyclic
        one sends on SYNC number first, first + n, first + 2n, and on no other. */
    method Process(active: bool, elapsed: U32, flagged: bool, syncWas: bool, syncNumber: Byte) returns (sent: bool)
      requires Valid()
      modifies this
      ensures Valid() && transmissionType == old(transmissionType)
      ensures !active ==> !sent && sends == 0 && syncs == 0 && sendRequest
      ensures active ==> sends == old(sends) + (if sent then 1 else 0)
      ensures active && transmissionType >= 254 ==>
        var wait := old(quiet) + elapsed;
        var wanted := old(sendRequest) || flagged || (eventTime != 0 && (old(sends) == 0 || wait >= eventTime));
        && (sent <==> wanted && (old(sends) == 0 || wait >= inhibitTime))
        && quiet == (if sent then 0 else wait) && sendRequest == (wanted && !sent)
      ensures active && transmissionType == 0 ==>
        var wait := old(quiet) + elapsed;
        var wanted := old(sendRequest) || flagged || (eventTime != 0 && (old(sends) == 0 || wait >= eventTime));
        && (sent <==> hasSync && syncWas && wanted)
        && quiet == (if sent then 0 else wait) && sendRequest == (wanted && !sent)
      ensures active && 1 <= transmissionType <= 240 ==>
        && syncs == old(syncs) + (if hasSync && syncWas then 1 else 0)
        && (old(sends) > 0 ==> first == old(first))
        && (sent <==>
             && hasSync && syncWas
             && (if old(sends) > 0 then syncs == Nth(old(first), old(sends), transmissionType)
                 else if StartsByNumber() then syncNumber == syncStartValue
                 else syncs == transmissionType / 2 + 1))
    {
      hide Nth;
      sent := false;
      if !active {
        sendRequest := true;
        Restart();
        return;
      }
      quiet := quiet + elapsed;
      if transmissionType == 0 || transmissionType >= EVENT_LO {
        Trigger(elapsed, flagged);
      }
      if transmissionType >= EVENT_LO {
        inhibitTimer := Remaining(inhibitTimer, elapsed);
        if sendRequest && inhibitTimer == 0 {
          Send();
          sent := true;
        }
      } else if hasSync && syncWas {
        if transmissionType == 0 {
          if sendRequest {
            Send();
            sent := true;
          }
        } else {
          sent := OnSync(syncNumber);
        }
      }
    }

    /** The event timer runs; it or a flagged variable asks for a frame. */
    method Trigger(elapsed: U32, flagged: bool)
      modifies this`eventTimer, this`sendRequest
      ensures eventTimer == (if eventTime == 0 then old(eventTimer) else Remaining(old(eventTimer), elapsed))
      ensures sendRequest == (old(sendRequest) || flagged || (eventTime != 0 && eventTimer == 0))
    {
      if eventTime != 0 {
        eventTimer := Remaining(eventTimer, elapsed);
        if eventTimer == 0 {
          sendRequest := true;
        }
      }
      if flagged {
        sendRequest := true;
      }
    }

    /** A SYNC for a cyclic PDO. */
    method OnSync(syncNumber: Byte) returns (sent: bool)
      requires Cyclic() && CountsDown() && (sends > 0 ==> syncs == Nth(first, sends - 1, transmissionType) + syncsSince)
      requires sends > 0 && !StartsByNumber() ==> first == transmissionType / 2 + 1
      modifies this`sendRequest, this`eventTimer, this`inhibitTimer, this`syncCounter, this`syncs, this`sends,
        this`first,
        this`syncsSince, this`quiet
      ensures Valid() && syncs == old(syncs) + 1
      ensures sends == old(sends) + (if sent then 1 else 0) && (old(sends) > 0 ==> first == old(first))
      ensures sent <==>
        if old(sends) > 0 then syncs == Nth(old(first), old(sends), transmissionType)
        else if StartsByNumber() then syncNumber == syncStartValue
        else syncs == transmissionType / 2 + 1
    {
      hide Nth;
      sent := false;
      NthStep(first, if sends > 0 then sends - 1 else 0, transmissionType);
      NthStep(syncs + 1, 0, transmissionType);
      syncs, syncsSince := syncs + 1, syncsSince + 1;
      if syncCounter == 255 {
        if numbered && syncStartValue != 0 {
          syncCounter := 254;
        } else {
          syncCounter := transmissionType / 2 + 1;
        }
      }
      if syncCounter == 254 {
        if syncNumber == syncStartValue {
          syncCounter := transmissionType;
          Send();
          sent := true;
        }
      } else {
        syncCounter := syncCounter - 1;
        if syncCounter == 0 {
          syncCounter := transmissionType;
          Send();
          sent := true;
        }
      }
    }
  }
}
