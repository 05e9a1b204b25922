/** Process data objects of the C stack: up to eight mapped variables share one frame.
    The mapping can be rewritten at run time, entry by entry, while the PDO is off. */
module Pdo {
  import opened Wire
  import OdAccess

  const MAX_SIZE: nat := 8
  const MAX_ENTRIES: nat := 8

  // ----- the dictionary as far as PDOs see it -----

  type Key = (U16, Byte)

  datatype Object = Object(data: seq<Byte>, rpdo: bool, tpdo: bool)

  type Objects = map<Key, Object>

  class Dictionary {
    var objects: Objects
  }

  // ----- mapping entries -----

  /** What an entry gives access to; `Missing` when it was never set up. */
  datatype Target = Missing | Dummy | Variable(key: Key)

  /** An entry: length of the variable, and length mapped into the frame. */
  datatype Slot = Slot(target: Target, size: nat, mapped: nat)

  datatype Code = Done | MapLen | NotFound | NoMap | UnsuppAccess | BadValue | DevIncompat

  function KeyOf(m: U32): Key { (m / 0x1_0000, m / 0x100 % 0x100) }

  function LengthOf(m: U32): nat { m % 0x100 / 8 }

  function Judge(objects: Objects, isRpdo: bool, m: U32): Code {
    if LengthOf(m) > MAX_SIZE then MapLen
    else if KeyOf(m).0 < 0x20 && KeyOf(m).1 == 0 then Done
    else if KeyOf(m) !in objects then NotFound
    else
      var o := objects[KeyOf(m)];
      if !(if isRpdo then o.rpdo else o.tpdo) || m % 8 != 0 || |o.data| < LengthOf(m) then NoMap else Done
  }

  function SlotFor(objects: Objects, isRpdo: bool, m: U32): Slot
    requires Judge(objects, isRpdo, m) == Done
  {
    if KeyOf(m).0 < 0x20 && KeyOf(m).1 == 0 then Slot(Dummy, LengthOf(m), LengthOf(m))
    else Slot(Variable(KeyOf(m)), |objects[KeyOf(m)].data|, LengthOf(m))
  }

  /** Which entries are taken, by the fields of the parameter: index in the top sixteen bits,
      sub-index in the next eight, length in bits in the last eight. At most eight bytes; a
      dummy needs nothing more; a variable must exist, allow mapping in this direction, and be
      mapped in whole bytes it has. */
  lemma EntryByFields(objects: Objects, isRpdo: bool, index: U16, subIndex: Byte, bits: Byte)
    ensures var m: U32 := (index as int) * 0x1_0000 + (subIndex as int) * 0x100 + bits;
            var key := (index, subIndex);
            var dummy := index < 0x20 && subIndex == 0;
            var mappable := key in objects && if isRpdo then objects[key].rpdo else objects[key].tpdo;
            && (Judge(objects, isRpdo, m) == MapLen <==> bits >= 72)
            && (Judge(objects, isRpdo, m) == NotFound <==> bits < 72 && !dummy && key !in objects)
            && (Judge(objects, isRpdo, m) == NoMap <==>
                 && bits < 72 && !dummy && key in objects
                 && (!mappable || bits % 8 != 0 || |objects[key].data| < bits / 8))
            && (Judge(objects, isRpdo, m) == Done <==>
                 && bits < 72
                 && (dummy || (mappable && bits % 8 == 0 && bits / 8 <= |objects[key].data|)))
            && (Judge(objects, isRpdo, m) == Done ==>
                  SlotFor(objects, isRpdo, m) ==
                    if dummy then Slot(Dummy, bits / 8, bits / 8)
                    else Slot(Variable(key), |objects[key].data|, bits / 8))
  {
    var m := (index as int) * 0x1_0000 + (subIndex as int) * 0x100 + bits;
    assert m / 0x1_0000 == index && m / 0x100 % 0x100 == subIndex && m % 0x100 == bits;
  }

  /** An entry that sending and receiving can work with. */
  ghost predicate Usable(objects: Objects, isRpdo: bool, s: Slot) {
    && s.mapped <= s.size && s.mapped <= MAX_SIZE
    && match s.target
       case Missing => false
       case Dummy => s.size == s.mapped
       case Variable(key) =>
         key in objects && |objects[key].data| == s.size && if isRpdo then objects[key].rpdo else objects[key].tpdo
  }

  ghost predicate AllUsable(objects: Objects, isRpdo: bool, slots: seq<Slot>) {
    forall i: nat :: i < |slots| ==> Usable(objects, isRpdo, slots[i])
  }

  /** An entry marked as erroneous at start-up. */
  ghost predicate Marked(s: Slot) { s.size == 0 && s.mapped == 0xFF }

  function Total(slots: seq<Slot>): nat {
    if slots == [] then 0 else Total(slots[..|slots| - 1]) + slots[|slots| - 1].mapped
  }

  lemma TotalStep(slots: seq<Slot>, n: nat)
    requires n < |slots|
    ensures Total(slots[..n + 1]) == Total(slots[..n]) + slots[n].mapped
  {
    assert slots[..n + 1][..n] == slots[..n];
  }

  lemma {:induction false} TotalGrows(slots: seq<Slot>, i: nat, n: nat)
    requires i <= n <= |slots|
    ensures Total(slots[..i]) <= Total(slots[..n])
    decreases n - i
  {
    if i < n {
      TotalGrows(slots, i, n - 1);
      TotalStep(slots, n - 1);
    }
  }

  /** The mapping in force: the frame length is the sum of its entries, and fits. */
  ghost predicate Sound(objects: Objects, isRpdo: bool, slots: seq<Slot>, count: nat, dataLength: nat) {
    && |slots| == MAX_ENTRIES && count <= MAX_ENTRIES
    && (forall i: nat :: i < |slots| ==> Usable(objects, isRpdo, slots[i]) || Marked(slots[i]))
    && AllUsable(objects, isRpdo, slots[..count])
    && dataLength == Total(slots[..count]) <= MAX_SIZE
  }

  // ----- frames -----

  /** The bytes an entry contributes to a frame. */
  ghost function Piece(objects: Objects, isRpdo: bool, s: Slot): (p: seq<Byte>)
    requires Usable(objects, isRpdo, s)
    ensures |p| == s.mapped
  {
    match s.target
    case Dummy => Zeros(s.mapped)
    case Variable(key) => objects[key].data[..s.mapped]
  }

  ghost function FrameOf(objects: Objects, isRpdo: bool, slots: seq<Slot>): (f: seq<Byte>)
    requires AllUsable(objects, isRpdo, slots)
    ensures |f| == Total(slots)
  {
    if slots == [] then []
    else FrameOf(objects, isRpdo, slots[..|slots| - 1]) + Piece(objects, isRpdo, slots[|slots| - 1])
  }

  /** What reading the variable behind an entry into `n` bytes gives. */
  function Fetched(objects: Objects, s: Slot, n: nat): seq<Byte>
    requires s.target.Variable? ==> s.target.key in objects
  {
    match s.target
    case Missing => []
    case Dummy => Zeros(Least(n, s.size))
    case Variable(key) => OdAccess.Reading(OdAccess.Cell(objects[key].data, 0), n).2
  }

  lemma FetchedHoldsThePiece(objects: Objects, isRpdo: bool, s: Slot)
    requires Usable(objects, isRpdo, s)
    ensures var n := Least(s.size, MAX_SIZE);
            && |Fetched(objects, s, n)| == n >= s.mapped
            && Fetched(objects, s, n)[..s.mapped] == Piece(objects, isRpdo, s)
  {
  }

  /** Writing `slice` to the variable behind an entry, filled up with zeros. */
  function Deliver(objects: Objects, s: Slot, slice: seq<Byte>): Objects
    requires s.target.Variable? ==> s.target.key in objects
  {
    match s.target
    case Missing => objects
    case Dummy => objects
    case Variable(key) =>
      var n := Least(s.size, MAX_SIZE);
      var padded := if n > |slice| then slice + Zeros(n - |slice|) else slice;
      objects[key := objects[key].(data := OdAccess.Writing(OdAccess.Cell(objects[key].data, 0), padded).0.data)]
  }

  ghost function Delivered(objects: Objects, isRpdo: bool, slots: seq<Slot>, frame: seq<Byte>): (after: Objects)
    requires AllUsable(objects, isRpdo, slots) && Total(slots) <= |frame|
    ensures after.Keys == objects.Keys
    ensures forall k <- objects ::
      && |after[k].data| == |objects[k].data| && after[k].rpdo == objects[k].rpdo && after[k].tpdo == objects[k].tpdo
  {
    if slots == [] then objects
    else
      var front, s := slots[..|slots| - 1], slots[|slots| - 1];
      Deliver(Delivered(objects, isRpdo, front, frame), s, frame[Total(front)..Total(slots)])
  }

  /** A variable no entry names keeps its value. */
  lemma {:induction false} OthersKeepTheirValue(objects: Objects, isRpdo: bool, slots: seq<Slot>, frame: seq<Byte>,
                                                k: Key)
    requires AllUsable(objects, isRpdo, slots) && Total(slots) <= |frame| && k in objects
    requires forall j: nat :: j < |slots| ==> slots[j].target != Variable(k)
    ensures Delivered(objects, isRpdo, slots, frame)[k] == objects[k]
    decreases |slots|
  {
    if slots != [] {
      var front := slots[..|slots| - 1];
      OthersKeepTheirValue(objects, isRpdo, front, frame, k);
    }
  }

  /** The variable behind an entry that nothing later overwrites holds the entry's bytes of
      the frame, then zeros, then what it held beyond the first eight bytes. */
  lemma {:induction false} EntryGetsItsBytes(objects: Objects, isRpdo: bool, slots: seq<Slot>, frame: seq<Byte>,
                                             i: nat, k: Key)
    requires AllUsable(objects, isRpdo, slots) && Total(slots) <= |frame|
    requires i < |slots| && slots[i].target == Variable(k)
    requires forall j: nat :: j < |slots| && j != i ==> slots[j].target != Variable(k)
    ensures Total(slots[..i]) + slots[i].mapped <= Total(slots)
    ensures var n, at, m := Least(slots[i].size, MAX_SIZE), Total(slots[..i]), slots[i].mapped;
            Delivered(objects, isRpdo, slots, frame)[k].data ==
              frame[at..at + m] + Zeros(n - m) + objects[k].data[n..]
    decreases |slots|
  {
    hide Deliver, Usable, FrameOf, Delivered, Total;
    var last := |slots| - 1;
    var front := slots[..last];
    DeliveredStep(objects, isRpdo, slots, frame);
    var before := Delivered(objects, isRpdo, front, frame);
    var slice := frame[Total(front)..Total(slots)];
    UsableSize(objects, isRpdo, slots[i]);
    if i == last {
      OthersKeepTheirValue(objects, isRpdo, front, frame, k);
      LandsPadded(before, slots[i], k, slice);
    } else {
      EntryGetsItsBytes(objects, isRpdo, front, frame, i, k);
      assert front[..i] == slots[..i];
      UsableSize(objects, isRpdo, slots[last]);
      LandsElsewhere(before, slots[last], k, slice);
    }
  }

  lemma DeliveredStep(objects: Objects, isRpdo: bool, slots: seq<Slot>, frame: seq<Byte>)
    requires AllUsable(objects, isRpdo, slots) && Total(slots) <= |frame| && slots != []
    ensures var front, s := slots[..|slots| - 1], slots[|slots| - 1];
            && Total(slots) == Total(front) + s.mapped && (s.target.Variable? ==> s.target.key in objects)
            && Delivered(objects, isRpdo, slots, frame) ==
               Deliver(Delivered(objects, isRpdo, front, frame), s, frame[Total(front)..Total(slots)])
  {
  }

  lemma UsableSize(objects: Objects, isRpdo: bool, s: Slot)
    requires Usable(objects, isRpdo, s)
    ensures s.mapped <= s.size && s.mapped <= MAX_SIZE
    ensures s.target.Variable? ==> s.target.key in objects && |objects[s.target.key].data| == s.size
  {
  }

  lemma LandsElsewhere(objects: Objects, s: Slot, k: Key, slice: seq<Byte>)
    requires s.target != Variable(k) && k in objects && (s.target.Variable? ==> s.target.key in objects)
    ensures k in Deliver(objects, s, slice) && Deliver(objects, s, slice)[k] == objects[k]
  {
  }

  lemma LandsPadded(objects: Objects, s: Slot, k: Key, slice: seq<Byte>)
    requires s.target == Variable(k) && k in objects && |objects[k].data| == s.size && |slice| == s.mapped
    requires s.mapped <= s.size && s.mapped <= MAX_SIZE
    ensures var n := Least(s.size, MAX_SIZE);
            Deliver(objects, s, slice)[k].data == slice + Zeros(n - s.mapped) + objects[k].data[n..]
  {
    var n := Least(s.size, MAX_SIZE);
    var padded := if n > |slice| then slice + Zeros(n - |slice|) else slice;
    assert padded == slice + Zeros(n - s.mapped);
    assert n == s.size ==> padded == padded + objects[k].data[n..];
    assert objects[k].data[..0] + padded + objects[k].data[0 + n..] == padded + objects[k].data[n..];
  }

  lemma SliceOfFirst<T>(a: seq<T>, b: seq<T>, i: nat, j: nat)
    requires i <= j <= |a|
    ensures (a + b)[i..j] == a[i..j]
  {
  }

  lemma SliceOfSecond<T>(a: seq<T>, b: seq<T>)
    ensures (a + b)[|a|..|a| + |b|] == b
  {
  }

  /** Each entry's bytes stand in the frame behind those of the entries before it. */
  lemma {:induction false} FrameSlice(objects: Objects, isRpdo: bool, slots: seq<Slot>, i: nat)
    requires AllUsable(objects, isRpdo, slots) && i < |slots|
    ensures Total(slots[..i]) + slots[i].mapped <= Total(slots)
    ensures var at := Total(slots[..i]);
            FrameOf(objects, isRpdo, slots)[at..at + slots[i].mapped] == Piece(objects, isRpdo, slots[i])
    decreases |slots|
  {
    hide Usable, Piece, Total;
    TotalStep(slots, |slots| - 1);
    assert slots[..|slots|] == slots;
    var last := |slots| - 1;
    var front := slots[..last];
    var f, p := FrameOf(objects, isRpdo, front), Piece(objects, isRpdo, slots[last]);
    if i < last {
      FrameSlice(objects, isRpdo, front, i);
      assert front[..i] == slots[..i];
      var at := Total(slots[..i]);
      SliceOfFirst(f, p, at, at + slots[i].mapped);
    } else {
      SliceOfSecond(f, p);
    }
  }

  lemma {:induction false} SameTotals(a: seq<Slot>, b: seq<Slot>)
    requires |a| == |b| && forall i: nat :: i < |a| ==> a[i].mapped == b[i].mapped
    ensures Total(a) == Total(b)
    decreases |a|
  {
    if a != [] {
      SameTotals(a[..|a| - 1], b[..|b| - 1]);
    }
  }

  /** From node to node: what one side's mapping packs, the other side's unpacks. Each
      receiving variable ends up with the bytes its counterpart contributed, zero-filled. */
  lemma TransportIsFaithful(theirs: Objects, sending: seq<Slot>,
                            mine: Objects, receiving: seq<Slot>, padding: seq<Byte>, i: nat, k: Key)
    requires AllUsable(theirs, false, sending)
    requires AllUsable(mine, true, receiving)
    requires |sending| == |receiving| && forall j: nat :: j < |sending| ==> sending[j].mapped == receiving[j].mapped
    requires i < |receiving| && receiving[i].target == Variable(k)
    requires forall j: nat :: j < |receiving| && j != i ==> receiving[j].target != Variable(k)
    ensures Total(receiving) <= |FrameOf(theirs, false, sending) + padding|
    ensures var n := Least(receiving[i].size, MAX_SIZE);
            && n >= receiving[i].mapped
            && Delivered(mine, true, receiving, FrameOf(theirs, false, sending) + padding)[k].data ==
               Piece(theirs, false, sending[i]) + Zeros(n - receiving[i].mapped) + mine[k].data[n..]
  {
    hide Delivered, FrameOf, Piece, Total;
    var frame := FrameOf(theirs, false, sending) + padding;
    SameTotals(sending, receiving);
    SameTotals(sending[..i], receiving[..i]);
    EntryGetsItsBytes(mine, true, receiving, frame, i, k);
    FrameSlice(theirs, false, sending, i);
    var at := Total(sending[..i]);
    assert frame[at..at + sending[i].mapped] == FrameOf(theirs, false, sending)[at..at + sending[i].mapped];
  }

  // ----- the object -----

  /** Reading one mapping sub-entry of the dictionary at start-up. */
  datatype Lookup = Found(map_: U32) | NotThere | Refused

  datatype Started = Failed | Started(erroneousMap: U32)

  /** The documented set-up: at most eight mapped objects, every sub-entry present. */
  ghost predicate Provisioned(count: Byte, maps: seq<Lookup>) {
    count <= MAX_ENTRIES && forall i: nat :: i < |maps| ==> maps[i] != NotThere
  }

  /** What the code checks of a count before it takes it. */
  ghost predicate Acceptable(slots: seq<Slot>, n: nat)
    requires |slots| == MAX_ENTRIES
  {
    && n <= MAX_ENTRIES && (forall j: nat :: j < n ==> slots[j].mapped <= slots[j].size)
    && (n == 0 || 1 <= Total(slots[..n]) <= MAX_SIZE)
  }

  predicate Restricted(id: nat) {
    || id <= 0x7F
    || 0x101 <= id <= 0x180
    || 0x581 <= id <= 0x5FF
    || 0x601 <= id <= 0x67F
    || 0x6E0 <= id <= 0x6FF
    || id >= 0x701
  }

  /** The identifiers a PDO may use. */
  lemma AllowedIdentifiers(id: nat)
    requires id < 0x800
    ensures !Restricted(id) <==>
      0x80 <= id <= 0x100 || 0x181 <= id <= 0x580 || id == 0x600 || 0x680 <= id <= 0x6DF || id == 0x700
  {
  }

  /** What start-up makes of one sub-entry. */
  ghost function Initial(objects: Objects, isRpdo: bool, l: Lookup): Slot {
    if l.Found? then
      if Judge(objects, isRpdo, l.map_) == Done then SlotFor(objects, isRpdo, l.map_) else Slot(Missing, 0, 0xFF)
    else Slot(Missing, 0, 0)
  }

  ghost predicate Initialised(objects: Objects, isRpdo: bool, maps: seq<Lookup>, slots: seq<Slot>)
    requires |maps| == |slots|
  {
    forall j: nat :: j < |maps| ==> slots[j] == Initial(objects, isRpdo, maps[j])
  }

  /** The answer to a count: an entry in force marked erroneous comes before a sum too long. */
  ghost function CountCode(slots: seq<Slot>, n: nat): Code
    requires |slots| == MAX_ENTRIES
  {
    if n > 8 then MapLen
    else if exists j: nat :: j < n && slots[j].mapped > slots[j].size then NoMap
    else if Total(slots[..n]) > 8 then MapLen
    else if Total(slots[..n]) == 0 && n > 0 then BadValue
    else Done
  }

  /** Entry `j`, of parameter `m`, is the first one marked as erroneous. */
  ghost predicate FirstMarked(maps: seq<Lookup>, slots: seq<Slot>, j: nat, m: U32) {
    && |maps| == |slots|
    && j < |slots|
    && maps[j] == Found(m)
    && Marked(slots[j])
    && forall i: nat :: i < j ==> !Marked(slots[i])
  }

  class ProcessData {
    const od: Dictionary
    const isRpdo: bool
    /** The identifier of the pre-defined set, with the node's number in its low bits. */
    const preDefinedCanId: U16
    const txData: array<Byte>
    /** The sub-entries of the mapping parameter as the dictionary stores them. */
    var stored: seq<U32>
    var slots: seq<Slot>
    var valid: bool
    var dataLength: nat
    var mappedCount: nat
    var canId: nat
    /** Length the transmit buffer was set up with. */
    var txLength: nat

    /** The entries are those the stored parameters describe. */
    ghost predicate Recorded()
      reads this, od
    {
      && |slots| == MAX_ENTRIES && |stored| == MAX_ENTRIES + 1
      && forall i: nat :: i < MAX_ENTRIES ==> slots[i] == Initial(od.objects, isRpdo, Found(stored[i + 1]))
    }

    /** No entry below the count is missing or too long, the length is the sum, an enabled
        PDO sends frames of that length, and the dictionary stores what is in force. */
    ghost predicate Valid()
      reads this, od
    {
      && Sound(od.objects, isRpdo, slots, mappedCount, dataLength) && Recorded()
      && (mappedCount == 0 || mappedCount == stored[0]) && txData.Length == MAX_SIZE
      && (mappedCount > 0 ==> dataLength > 0) && (valid ==> mappedCount > 0)
      && (valid && !isRpdo ==> txLength == dataLength)
      && (!valid && !isRpdo ==> canId == 0)
    }

    constructor (od: Dictionary, isRpdo: bool, preDefinedCanId: U16, stored: seq<U32>)
      ensures this.od == od && this.isRpdo == isRpdo && this.preDefinedCanId == preDefinedCanId && this.stored == stored
      ensures fresh(txData) && txData.Length == MAX_SIZE && canId == 0
      ensures slots == seq(MAX_ENTRIES, _ => Slot(Missing, 0, 0)) && !valid && dataLength == 0 && mappedCount == 0
    {
      this.od, this.isRpdo, this.preDefinedCanId, this.stored := od, isRpdo, preDefinedCanId, stored;
      txData := new Byte[MAX_SIZE](_ => 0);
      slots := seq(MAX_ENTRIES, _ => Slot(Missing, 0, 0));
      valid, dataLength, mappedCount, canId, txLength := false, 0, 0, 0, 0;
    }

    /** Sets an entry up if the dictionary allows it, else leaves it. */
    method ConfigMap(m: U32, i: nat) returns (code: Code)
      requires i < |slots|
      modifies this`slots
      ensures code == Judge(od.objects, isRpdo, m)
      ensures code == Done ==> slots == old(slots)[i := SlotFor(od.objects, isRpdo, m)]
                               && Usable(od.objects, isRpdo, slots[i])
      ensures code != Done ==> slots == old(slots) && m != 0
    {
      hide Usable;
      JudgedIsUsable(od.objects, isRpdo, m);
      var index, subIndex, lengthBits := m / 0x1_0000, m / 0x100 % 0x100, m % 0x100;
      var length := lengthBits / 8;
      if length > MAX_SIZE {
        return MapLen;
      }
      if index < 0x20 && subIndex == 0 {
        slots := slots[i := Slot(Dummy, length, length)];
        return Done;
      }
      if (index, subIndex) !in od.objects {
        return NotFound;
      }
      var o := od.objects[(index, subIndex)];
      var mappable := if isRpdo then o.rpdo else o.tpdo;
      if !mappable || lengthBits % 8 != 0 || |o.data| < length {
        return NoMap;
      }
      slots := slots[i := Slot(Variable((index, subIndex)), |o.data|, length)];
      code := Done;
    }

    /** Sets one entry up at start-up, or marks it as erroneous. */
    method LoadEntry(l: Lookup, i: nat) returns (erroneous: bool)
      requires i < |slots| && slots[i] == Slot(Missing, 0, 0) && l != Refused
      modifies this`slots
      ensures slots == old(slots)[i := Initial(od.objects, isRpdo, l)]
      ensures erroneous <==> Marked(slots[i])
      ensures erroneous ==> l.Found? && l.map_ != 0
    {
      erroneous := false;
      if l.Found? {
        var code := ConfigMap(l.map_, i);
        if code != Done {
          slots := slots[i := slots[i].(size := 0, mapped := 0xFF)];
          erroneous := true;
        }
      }
    }

    /** Sets all entries up, adding up the lengths of those that count. */
    method LoadAll(count: Byte, maps: seq<Lookup>) returns (r: Option<(nat, U32)>)
      requires |maps| == MAX_ENTRIES && slots == seq(MAX_ENTRIES, _ => Slot(Missing, 0, 0))
      modifies this`slots
      ensures r.None? <==> exists i: nat :: i < |maps| && maps[i].Refused?
      ensures r.Some? ==>
        && |slots| == MAX_ENTRIES && Initialised(od.objects, isRpdo, maps, slots)
        && (r.value.1 == 0 <==> forall j: nat :: j < MAX_ENTRIES ==> !Marked(slots[j]))
        && (r.value.1 != 0 ==> exists j: nat :: FirstMarked(maps, slots, j, r.value.1))
        && r.value.0 == Total(slots[..if MAX_ENTRIES < count then MAX_ENTRIES else count])
    {
      hide Judge, SlotFor, Initial, Usable, Marked;
      var length, erroneousMap: U32 := 0, 0;
      ghost var wrong := 0;
      var i := 0;
      while i < MAX_ENTRIES
        invariant i <= MAX_ENTRIES && |slots| == MAX_ENTRIES
        invariant forall j: nat :: j < i ==> !maps[j].Refused? && slots[j] == Initial(od.objects, isRpdo, maps[j])
        invariant forall j: nat :: i <= j < MAX_ENTRIES ==> slots[j] == Slot(Missing, 0, 0)
        invariant erroneousMap == 0 <==> forall j: nat :: j < i ==> !Marked(slots[j])
        invariant length == Total(slots[..if i < count then i else count])
        invariant erroneousMap != 0 ==> wrong < i && FirstMarked(maps, slots, wrong, erroneousMap)
      {
        if maps[i].Refused? {
          return None;
        }
        ghost var before := slots;
        var erroneous := LoadEntry(maps[i], i);
        if erroneous && erroneousMap == 0 {
          erroneousMap := maps[i].map_;
          wrong := i;
        }
        assert i >= count ==> slots[..count] == before[..count];
        if i < count {
          assert slots[..i] == before[..i];
          TotalStep(slots, i);
          length := length + slots[i].mapped;
        }
        i := i + 1;
      }
      r := Some((length, erroneousMap));
    }

    /** Takes the mapping over from the dictionary at start-up. The mapping is sound if and
        only if at most eight objects are mapped and no sub-entry is absent: the code checks
        neither, and either one lets sending run past the entries it set up. */
    method InitMapping(count: Byte, maps: seq<Lookup>) returns (r: Started)
      requires !valid && mappedCount == 0 && dataLength == 0 && canId == 0 && txData.Length == MAX_SIZE
      requires slots == seq(MAX_ENTRIES, _ => Slot(Missing, 0, 0))
      requires |maps| == MAX_ENTRIES && |stored| == MAX_ENTRIES + 1 && stored[0] == count
      requires forall i: nat :: i < MAX_ENTRIES && maps[i].Found? ==> maps[i].map_ == stored[i + 1]
      modifies this`slots, this`dataLength, this`mappedCount
      ensures r == Failed <==> exists i: nat :: i < |maps| && maps[i].Refused?
      ensures r.Started? ==> |slots| == MAX_ENTRIES && Initialised(od.objects, isRpdo, maps, slots)
      ensures r.Started? ==>
        var length := Total(slots[..if MAX_ENTRIES < count then MAX_ENTRIES else count]);
        r == Started(0) <==>
          && (forall j: nat :: j < MAX_ENTRIES ==> !Marked(slots[j])) && length <= MAX_SIZE
          && (length == 0 ==> count == 0)
      ensures r.Started? && r != Started(0) ==>
        || (exists j: nat :: FirstMarked(maps, slots, j, r.erroneousMap))
        || (r.erroneousMap == 1 && forall j: nat :: j < MAX_ENTRIES ==> !Marked(slots[j]))
      ensures r == Started(0) ==>
        mappedCount == count && (Valid() <==> Provisioned(count, maps))
      ensures r.Started? && r != Started(0) ==>
        mappedCount == 0 && dataLength == 0 && (Valid() <==> Provisioned(0, maps))
    {
      hide Judge, SlotFor, Initial, Usable;
      var loaded := LoadAll(count, maps);
      if loaded.None? {
        return Failed;
      }
      var (length, erroneousMap) := loaded.value;
      if (length > MAX_SIZE || (length == 0 && count > 0)) && erroneousMap == 0 {
        erroneousMap := 1;
      }
      InitialSoundness(od.objects, isRpdo, maps, slots, count, length);
      if erroneousMap == 0 {
        dataLength, mappedCount := length, count;
      }
      r := Started(erroneousMap);
    }

    /** Enables the PDO at start-up, if it has a mapping and an identifier, and reports a
        wrong mapping. Without a CAN buffer it stays off. */
    method Start(cobId: U32, erroneousMap: U32, bufferOk: bool) returns (ok: bool, report: Option<U32>)
      requires Valid() && !valid
      modifies this`valid, this`canId, this`txLength
      ensures Valid() && ok == bufferOk
      ensures valid <==> bufferOk && cobId < 0x8000_0000 && mappedCount > 0 && cobId % 0x800 != 0
      ensures bufferOk ==>
        canId == if !valid then 0
                 else if cobId % 0x800 == preDefinedCanId / 0x80 * 0x80 then preDefinedCanId else cobId % 0x800
      ensures !bufferOk ==> canId == old(canId)
      ensures report.Some? <==> erroneousMap != 0 || (cobId < 0x8000_0000 && (mappedCount == 0 || cobId % 0x800 == 0))
      ensures report.Some? ==> report.value == if erroneousMap > 1 then erroneousMap else cobId
    {
      var id, wrong := cobId % 0x800, erroneousMap;
      var enable := cobId < 0x8000_0000;
      if enable && (mappedCount == 0 || id == 0) {
        enable := false;
        if wrong == 0 {
          wrong := 1;
        }
      }
      report := if wrong == 0 then None else Some(if wrong != 1 then wrong else cobId);
      if !enable {
        id := 0;
      }
      if id != 0 && id == preDefinedCanId - preDefinedCanId % 0x80 {
        id := preDefinedCanId;
      }
      ok := bufferOk;
      if ok {
        canId, txLength, valid := id, dataLength, enable;
      }
    }

    /** A write to the mapping parameter. An enabled PDO refuses it, and single entries
        change only while none is in force; a new count is taken only if no entry it puts in
        force is erroneous and together they fit a frame. What is taken is stored. */
    method WriteMapping(subIndex: Byte, value: U32) returns (code: Code)
      requires |slots| == MAX_ENTRIES && |stored| == MAX_ENTRIES + 1
      modifies this`slots, this`stored, this`dataLength, this`mappedCount
      ensures |slots| == MAX_ENTRIES && |stored| == MAX_ENTRIES + 1 && (old(Valid()) ==> Valid())
      ensures code ==
        if subIndex > 8 then DevIncompat
        else if valid || (old(mappedCount) != 0 && subIndex > 0) then UnsuppAccess
        else if subIndex == 0 then CountCode(old(slots), value % 0x100)
        else Judge(od.objects, isRpdo, value)
      ensures code != Done ==>
        slots == old(slots) && stored == old(stored) && mappedCount == old(mappedCount) && dataLength == old(dataLength)
      ensures code == Done && subIndex > 0 ==>
        && subIndex <= MAX_ENTRIES && old(mappedCount) == 0 && Judge(od.objects, isRpdo, value) == Done
        && slots == old(slots)[subIndex - 1 := SlotFor(od.objects, isRpdo, value)]
        && stored == old(stored)[subIndex := value]
      ensures subIndex == 0 && !valid ==> (code == Done <==> Acceptable(slots, value % 0x100))
      ensures subIndex == 0 && code == Done ==>
        mappedCount == value % 0x100 && slots == old(slots) && stored == old(stored)[0 := value % 0x100]
    {
      if subIndex > MAX_ENTRIES {
        return DevIncompat;
      }
      if valid || (mappedCount != 0 && subIndex > 0) {
        return UnsuppAccess;
      }
      if subIndex == 0 {
        code := WriteCount(value % 0x100);
      } else {
        code := WriteEntry(value, subIndex - 1);
      }
    }

    method WriteEntry(value: U32, i: nat) returns (code: Code)
      requires |slots| == MAX_ENTRIES && |stored| == MAX_ENTRIES + 1 && i < MAX_ENTRIES && !valid && mappedCount == 0
      modifies this`slots, this`stored
      ensures old(Valid()) ==> Valid()
      ensures code == Judge(od.objects, isRpdo, value)
      ensures code != Done ==> slots == old(slots) && stored == old(stored)
      ensures code == Done ==>
        slots == old(slots)[i := SlotFor(od.objects, isRpdo, value)] && stored == old(stored)[i + 1 := value]
    {
      hide Judge, SlotFor, Usable, Total;
      code := ConfigMap(value, i);
      if code == Done {
        InitialIsTheSlot(od.objects, isRpdo, value);
        TotalNothing(slots);
        TotalNothing(old(slots));
        stored := stored[i + 1 := value];
      }
    }

    /** A new count. A mapping in order stays in order; what passes is exactly what the code
        checks, which an entry never set up also passes. */
    method WriteCount(n: Byte) returns (code: Code)
      requires |slots| == MAX_ENTRIES && |stored| == MAX_ENTRIES + 1 && !valid
      modifies this`stored, this`dataLength, this`mappedCount
      ensures old(Valid()) ==> Valid()
      ensures code != Done ==> mappedCount == old(mappedCount) && dataLength == old(dataLength) && stored == old(stored)
      ensures code == CountCode(slots, n)
      ensures code == Done <==> Acceptable(slots, n)
      ensures code == Done ==> mappedCount == n && dataLength == Total(slots[..n]) && stored == old(stored)[0 := n]
    {
      hide Usable, Total;
      if n > MAX_ENTRIES {
        return MapLen;
      }
      var length := 0;
      TotalNothing(slots);
      for i := 0 to n
        invariant length == Total(slots[..i]) && forall j: nat :: j < i ==> slots[j].mapped <= slots[j].size
        invariant mappedCount == old(mappedCount) && dataLength == old(dataLength) && stored == old(stored)
      {
        TotalStep(slots, i);
        if slots[i].mapped > slots[i].size {
          return NoMap;
        }
        length := length + slots[i].mapped;
      }
      if length > MAX_SIZE {
        return MapLen;
      }
      if length == 0 && n > 0 {
        return BadValue;
      }
      CountIsSound(od.objects, isRpdo, slots, mappedCount, dataLength, n);
      dataLength, mappedCount, stored := length, n, stored[0 := n];
      code := Done;
    }

    /** A write to the identifier: switches the PDO on or off. It can be switched on only
        with a mapping in force, and the transmit buffer then gets the mapping's length.
        Without a CAN buffer a TPDO stays as it was and an RPDO goes off. */
    method WriteCobId(cobId: U32, bufferOk: bool) returns (code: Code)
      requires Valid()
      modifies this`valid, this`canId, this`txLength
      ensures Valid()
      ensures var on, id := cobId < 0x8000_0000, cobId % 0x800;
              && (code == BadValue <==>
                   || cobId / 0x800 % 0x8_0000 != 0
                   || (on && (mappedCount == 0 || Restricted(id) || (old(valid) && id != old(canId)))))
              && (code == DevIncompat <==> code != BadValue && !bufferOk && (on != old(valid) || id != old(canId)))
              && (code == Done <==> code !in {BadValue, DevIncompat})
              && valid == (if code == Done then on else old(valid) && !(code == DevIncompat && isRpdo))
              && canId == (if code != Done then old(canId) else if on then id else if isRpdo then old(canId) else 0)
    {
      var on, id := cobId < 0x8000_0000, cobId % 0x800;
      if cobId / 0x800 % 0x8_0000 != 0 || (on && valid && id != canId) || (on && Restricted(id))
        || (on && mappedCount == 0)
      {
        return BadValue;
      }
      if on != valid || id != canId {
        if isRpdo {
          if on && bufferOk {
            valid, canId := true, id;
          } else {
            valid := false;
            if !bufferOk {
              return DevIncompat;
            }
          }
        } else {
          if !bufferOk {
            return DevIncompat;
          }
          txLength, valid := dataLength, on;
          canId := if on then id else 0;
        }
      }
      code := Done;
    }

    /** Builds the frame from the mapped variables. The internal length check cannot fail,
        and the bytes are those of the entries, one behind the other. */
    method Send() returns (code: Code)
      requires Valid() && valid && !isRpdo
      modifies txData
      ensures code == Done && txLength == Total(slots[..mappedCount])
      ensures txData[..txLength] == FrameOf(od.objects, isRpdo, slots[..mappedCount])
    {
      hide Usable, Total, Piece, FrameOf;
      var verify, at := 0, 0;
      TotalNothing(slots);
      FrameNothing(od.objects, isRpdo, slots);
      for i := 0 to mappedCount
        invariant at == verify == Total(slots[..i]) <= MAX_SIZE
        invariant txData[..at] == FrameOf(od.objects, isRpdo, slots[..i])
      {
        TotalStep(slots, i);
        TotalGrows(slots, i + 1, mappedCount);
        var s := slots[i];
        assert Usable(od.objects, isRpdo, slots[..mappedCount][i]);
        UsableSize(od.objects, isRpdo, s);
        FetchedHoldsThePiece(od.objects, isRpdo, s);
        FrameStep(od.objects, isRpdo, slots, i);
        verify := verify + s.mapped;
        if verify > MAX_SIZE {
          break;
        }
        var n := Least(s.size, MAX_SIZE);
        var got := Fetched(od.objects, s, n);
        Put(at, got[..s.mapped]);
        at := at + s.mapped;
      }
      if verify > MAX_SIZE || verify != dataLength {
        return DevIncompat;
      }
      code := Done;
    }

    method Put(at: nat, bytes: seq<Byte>)
      requires at + |bytes| <= txData.Length
      modifies txData
      ensures txData[..at + |bytes|] == old(txData[..at]) + bytes
    {
      forall i | 0 <= i < |bytes| {
        txData[at + i] := bytes[i];
      }
    }

    /** Hands a received frame to the mapped variables; again the length check cannot fail. */
    method Receive(frame: Payload) returns (code: Code)
      requires Valid() && valid && isRpdo
      modifies od
      ensures Valid() && code == Done
      ensures od.objects == Delivered(old(od.objects), isRpdo, slots[..mappedCount], frame)
    {
      hide Usable, Total, Delivered, Deliver;
      ghost var before := od.objects;
      var verify, at := 0, 0;
      TotalNothing(slots);
      DeliveredNothing(before, isRpdo, slots, frame);
      for i := 0 to mappedCount
        invariant at == verify == Total(slots[..i]) <= MAX_SIZE
        invariant AllUsable(before, isRpdo, slots[..i]) && od.objects == Delivered(before, isRpdo, slots[..i], frame)
      {
        TotalStep(slots, i);
        TotalGrows(slots, i + 1, mappedCount);
        var s := slots[i];
        assert Usable(before, isRpdo, slots[..mappedCount][i]);
        UsableSize(before, isRpdo, s);
        DeliveredStep(before, isRpdo, slots[..i + 1], frame);
        assert slots[..i + 1][..i] == slots[..i];
        verify := verify + s.mapped;
        if verify > MAX_SIZE {
          break;
        }
        od.objects := Deliver(od.objects, s, frame[at..at + s.mapped]);
        at := at + s.mapped;
      }
      if verify > MAX_SIZE || verify != dataLength {
        code := DevIncompat;
      } else {
        code := Done;
      }
      SoundSurvives(before, od.objects, isRpdo, slots, mappedCount, dataLength);
      forall i: nat | i < MAX_ENTRIES
        ensures slots[i] == Initial(od.objects, isRpdo, Found(stored[i + 1]))
      {
        InitialSurvives(before, od.objects, isRpdo, stored[i + 1]);
      }
    }
  }

  /** In an ordered mapping that is enough. */
  lemma CountIsSound(objects: Objects, isRpdo: bool, slots: seq<Slot>, count: nat, dataLength: nat, n: nat)
    requires |slots| == MAX_ENTRIES && Acceptable(slots, n)
    ensures Sound(objects, isRpdo, slots, count, dataLength) ==> Sound(objects, isRpdo, slots, n, Total(slots[..n]))
  {
    hide Usable, Total;
    TotalNothing(slots);
    if Sound(objects, isRpdo, slots, count, dataLength) {
      forall i: nat | i < n
        ensures Usable(objects, isRpdo, slots[i])
      {
        MarkedIsNotUsable(objects, isRpdo, slots[i]);
      }
    }
  }

  /** One byte of a dummy object, eight bits long. */
  const DUMMY_BYTE: U32 := 0x0005_0008

  lemma {:induction false} DummiesAddUp(slots: seq<Slot>, n: nat)
    requires n <= |slots| && forall i: nat :: i < n ==> slots[i] == Slot(Dummy, 1, 1)
    ensures Total(slots[..n]) == n
  {
    if n > 0 {
      DummiesAddUp(slots, n - 1);
      TotalStep(slots, n - 1);
    }
  }

  lemma EntriesAtStart(objects: Objects, isRpdo: bool)
    ensures Initial(objects, isRpdo, Found(DUMMY_BYTE)) == Slot(Dummy, 1, 1)
    ensures Initial(objects, isRpdo, NotThere) == Slot(Missing, 0, 0)
    ensures !Usable(objects, isRpdo, Slot(Missing, 0, 0))
  {
  }

  /** Start-up accepts nine mapped objects: the eight entries fill a frame, and sending
      would go on to a ninth that does not exist. */
  method NineMappedObjects(od: Dictionary, isRpdo: bool) returns (p: ProcessData, r: Started)
    ensures r == Started(0) && p.mappedCount == 9 && |p.slots| == 8 && !p.Valid()
  {
    hide Total, Usable, Initial, Judge, SlotFor;
    var maps := seq(MAX_ENTRIES, _ => Found(DUMMY_BYTE));
    EntriesAtStart(od.objects, isRpdo);
    p := new ProcessData(od, isRpdo, 0, [9] + seq(MAX_ENTRIES, _ => DUMMY_BYTE));
    r := p.InitMapping(9, maps);
    assert forall i: nat :: i < MAX_ENTRIES ==> p.slots[i] == Slot(Dummy, 1, 1);
    DummiesAddUp(p.slots, MAX_ENTRIES);
  }

  /** An entry whose sub-entry the dictionary lacks passes every check of a count write: it
      comes into force with nothing behind it to read or write. */
  method AbsentEntryComesIntoForce(od: Dictionary, isRpdo: bool) returns (p: ProcessData, r: Started, code: Code)
    ensures r == Started(0) && code == Done && p.mappedCount == 2 && |p.slots| == 8
    ensures p.slots[1] == Slot(Missing, 0, 0) && !p.Valid()
  {
    hide Total, Usable, Initial, Judge, SlotFor;
    var maps := [Found(DUMMY_BYTE)] + seq(MAX_ENTRIES - 1, _ => NotThere);
    EntriesAtStart(od.objects, isRpdo);
    p := new ProcessData(od, isRpdo, 0, [1] + seq(MAX_ENTRIES, _ => DUMMY_BYTE));
    r := p.InitMapping(1, maps);
    assert p.slots[0] == Initial(od.objects, isRpdo, maps[0]) == Slot(Dummy, 1, 1);
    assert p.slots[1] == Initial(od.objects, isRpdo, maps[1]) == Slot(Missing, 0, 0);
    assert forall j: nat :: 1 <= j < MAX_ENTRIES ==> p.slots[j] == Initial(od.objects, isRpdo, maps[j]);
    DummiesAddUp(p.slots, 1);
    TotalStep(p.slots, 1);
    code := p.WriteMapping(0, 2);
  }

  lemma JudgedIsUsable(objects: Objects, isRpdo: bool, m: U32)
    ensures if Judge(objects, isRpdo, m) == Done then Usable(objects, isRpdo, SlotFor(objects, isRpdo, m)) else m != 0
  {
  }

  lemma InitialIsTheSlot(objects: Objects, isRpdo: bool, m: U32)
    requires Judge(objects, isRpdo, m) == Done
    ensures Initial(objects, isRpdo, Found(m)) == SlotFor(objects, isRpdo, m)
  {
  }

  /** An entry depends on lengths and rights, not on values. */
  lemma InitialSurvives(objects: Objects, objects': Objects, isRpdo: bool, m: U32)
    requires objects'.Keys == objects.Keys
    requires forall k <- objects ::
      && |objects'[k].data| == |objects[k].data| && objects'[k].rpdo == objects[k].rpdo
      && objects'[k].tpdo == objects[k].tpdo
    ensures Initial(objects', isRpdo, Found(m)) == Initial(objects, isRpdo, Found(m))
  {
  }

  /** Starting again from the stored parameters: the entries come back as they are, so with
      none of them erroneous the same mapping is in force again. */
  method RestartKeepsTheMapping(p: ProcessData) returns (q: ProcessData, r: Started)
    requires p.Valid() && p.mappedCount == p.stored[0]
    ensures q.slots == p.slots
    ensures (forall j: nat :: j < MAX_ENTRIES ==> !Marked(p.slots[j])) ==>
      r == Started(0) && q.mappedCount == p.mappedCount && q.dataLength == p.dataLength && q.Valid()
  {
    hide Usable, Total, Initial;
    var stored := p.stored;
    var maps := seq(MAX_ENTRIES, i requires 0 <= i < MAX_ENTRIES => Found(stored[i + 1]));
    q := new ProcessData(p.od, p.isRpdo, p.preDefinedCanId, p.stored);
    r := q.InitMapping(p.mappedCount, maps);
    assert forall j: nat :: j < MAX_ENTRIES ==> q.slots[j] == p.slots[j];
  }

  lemma TotalNothing(slots: seq<Slot>)
    ensures Total(slots[..0]) == 0
  {
  }

  lemma FrameNothing(objects: Objects, isRpdo: bool, slots: seq<Slot>)
    ensures FrameOf(objects, isRpdo, slots[..0]) == []
  {
  }

  lemma FrameStep(objects: Objects, isRpdo: bool, slots: seq<Slot>, n: nat)
    requires n < |slots| && AllUsable(objects, isRpdo, slots[..n]) && Usable(objects, isRpdo, slots[n])
    ensures AllUsable(objects, isRpdo, slots[..n + 1])
    ensures FrameOf(objects, isRpdo, slots[..n + 1]) == FrameOf(objects, isRpdo, slots[..n]) +
      Piece(objects, isRpdo, slots[n])
  {
    assert slots[..n + 1][..n] == slots[..n];
  }

  lemma DeliveredNothing(objects: Objects, isRpdo: bool, slots: seq<Slot>, frame: Payload)
    ensures Total(slots[..0]) == 0 && Delivered(objects, isRpdo, slots[..0], frame) == objects
  {
  }

  lemma MarkedIsNotUsable(objects: Objects, isRpdo: bool, s: Slot)
    requires Usable(objects, isRpdo, s) || Marked(s)
    ensures Usable(objects, isRpdo, s) <==> s.mapped <= s.size
  {
  }

  /** Writing values through a mapping cannot upset a mapping: lengths and rights stay. */
  lemma SoundSurvives(objects: Objects, objects': Objects, isRpdo: bool, slots: seq<Slot>, count: nat, dataLength: nat)
    requires Sound(objects, isRpdo, slots, count, dataLength) && objects'.Keys == objects.Keys
    requires forall k <- objects ::
      && |objects'[k].data| == |objects[k].data| && objects'[k].rpdo == objects[k].rpdo
      && objects'[k].tpdo == objects[k].tpdo
    ensures Sound(objects', isRpdo, slots, count, dataLength)
  {
    forall i: nat | i < |slots| && Usable(objects, isRpdo, slots[i])
      ensures Usable(objects', isRpdo, slots[i])
    {
    }
  }

  lemma InitialKinds(objects: Objects, isRpdo: bool, l: Lookup)
    ensures var s := Initial(objects, isRpdo, l);
            && (l.Found? ==> Usable(objects, isRpdo, s) || Marked(s))
            && (!l.Found? ==> !Usable(objects, isRpdo, s) && !Marked(s))
  {
  }

  lemma InitialSoundness(objects: Objects, isRpdo: bool, maps: seq<Lookup>, slots: seq<Slot>, count: Byte, length: nat)
    requires |maps| == |slots| == MAX_ENTRIES && Initialised(objects, isRpdo, maps, slots)
    requires forall j: nat :: j < MAX_ENTRIES ==> !maps[j].Refused?
    ensures Sound(objects, isRpdo, slots, 0, 0) <==> Provisioned(0, maps)
    ensures (count <= 8 && length == Total(slots[..count]) <= MAX_SIZE
             && forall j: nat :: j < MAX_ENTRIES ==> !Marked(slots[j])) ==>
      (Sound(objects, isRpdo, slots, count, length) <==> Provisioned(count, maps))
  {
    hide Initial, Usable;
    forall j: nat | j < MAX_ENTRIES
      ensures (maps[j].Found? ==> Usable(objects, isRpdo, slots[j]) || Marked(slots[j]))
      ensures (!maps[j].Found? ==> !Usable(objects, isRpdo, slots[j]) && !Marked(slots[j]))
    {
      InitialKinds(objects, isRpdo, maps[j]);
    }
    assert Total(slots[..0]) == 0;
  }
}
