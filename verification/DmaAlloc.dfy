// DMA requests: the multiplexed initiator slots with their two-bit register fields, and the channels.
module BitFields {
  function Get(reg: bv32, mask: bv32): bv32 { reg & mask }

  function Put(reg: bv32, bits: bv32, mask: bv32): bv32 { (reg & !mask) | bits }

  predicate Inside(bits: bv32, mask: bv32) { bits & !mask == 0 }

  predicate Apart(a: bv32, b: bv32) { a & b == 0 }

  /** Two different two-bit fields share no bit. */
  lemma Disjoint(k: bv6, m: bv6)
    requires k < 32 && m < 32 && k & 1 == 0 && m & 1 == 0 && k != m
    ensures Apart(3 << k, 3 << m)
  {
  }

  /** Storing bits under a mask leaves what is under another mask. */
  lemma Other(reg: bv32, bits: bv32, mask: bv32, other: bv32)
    requires Apart(other, mask) && Inside(bits, mask)
    ensures Get(Put(reg, bits, mask), other) == Get(reg, other)
  {
  }

  lemma Same(reg: bv32, bits: bv32, mask: bv32)
    requires Inside(bits, mask)
    ensures Get(Put(reg, bits, mask), mask) == Get(bits, mask)
  {
  }
}

module DmaAlloc {
  import opened BitFields

  const SLOTS: nat := 32
  const NCHANNELS: nat := 16

  // ----- requestors -----

  const DMA_PSC1_TX: int := 13
  const DMA_FEC0_RX: int := 16
  const DMA_FEC0_TX: int := 17
  const DMA_FEC1_RX: int := 18
  const DMA_FEC1_TX: int := 19
  const DMA_DREQ1: int := 20
  const DMA_CTM0: int := 21
  const DMA_CTM1: int := 22
  const DMA_CTM2: int := 23
  const DMA_CTM3: int := 24
  const DMA_CTM4: int := 25
  const DMA_CTM5: int := 26
  const DMA_CTM6: int := 27
  const DMA_CTM7: int := 28
  const DMA_USBEP4: int := 29
  const DMA_USBEP5: int := 30
  const DMA_USBEP6: int := 31
  const DMA_PSC2_RX: int := 32
  const DMA_PSC2_TX: int := 33
  const DMA_PSC3_RX: int := 34
  const DMA_PSC3_TX: int := 35

  /** The slots a multiplexed requestor is given, in this order. */
  function Choices(r: int): seq<nat>
  {
    if r == DMA_FEC0_RX then [16] else if r == DMA_FEC0_TX then [17] else if r == DMA_FEC1_RX then [20]
    else if r == DMA_FEC1_TX then [21, 25, 31] else if r == DMA_DREQ1 then [29, 21]
    else if DMA_CTM0 <= r <= DMA_CTM7 then [r + 3] else if DMA_USBEP4 <= r <= DMA_USBEP6 then [r - 3]
    else if DMA_PSC2_RX <= r <= DMA_PSC3_TX then [r - 4] else []
  }

  /** Requestors that always have their own slot. */
  predicate Direct(r: int) { 0 <= r < 16 && r != DMA_PSC1_TX }

  /** The requestors that can be routed to a slot, in the order of the values of its register field. */
  function Sources(slot: nat): seq<int>
  {
    match slot
    case 16 => [DMA_FEC0_RX] case 17 => [DMA_FEC0_TX] case 18 => [-1, -1, DMA_FEC0_RX] case 19 => [-1, -1, DMA_FEC0_TX]
    case 20 => [-1, DMA_FEC1_RX] case 21 => [DMA_DREQ1, DMA_FEC1_TX] case 22 => [-1, DMA_FEC0_RX] case 23 => [-1, DMA_FEC0_TX]
    case 24 => [-1, DMA_CTM0, DMA_FEC1_RX] case 25 => [-1, DMA_CTM1, DMA_FEC1_TX] case 26 => [DMA_USBEP4, -1, DMA_CTM2]
    case 27 => [DMA_USBEP5, -1, DMA_CTM3] case 28 => [DMA_USBEP6, DMA_CTM4, DMA_DREQ1, DMA_PSC2_RX]
    case 29 => [-1, DMA_DREQ1, DMA_CTM5, DMA_PSC2_TX] case 30 => [DMA_FEC1_RX, DMA_CTM6, -1, DMA_PSC3_RX]
    case 31 => [DMA_FEC1_TX, -1, DMA_CTM7, DMA_PSC3_TX]
    case _ => []
  }

  // ----- the register -----

  /** The slot whose field starts at a bit. */
  function SlotAt(k: bv6): nat
  {
    if k == 0 then 16 else if k == 2 then 17 else if k == 4 then 18 else if k == 6 then 19
    else if k == 8 then 20 else if k == 10 then 21 else if k == 12 then 22 else if k == 14 then 23
    else if k == 16 then 24 else if k == 18 then 25 else if k == 20 then 26 else if k == 22 then 27
    else if k == 24 then 28 else if k == 26 then 29 else if k == 28 then 30 else 31
  }

  /** Where a slot's field starts. */
  function Pos(slot: nat): (k: bv6)
    requires 16 <= slot < 32
    ensures k < 32 && k & 1 == 0 && SlotAt(k) == slot
  {
    match slot
    case 16 => 0 case 17 => 2 case 18 => 4 case 19 => 6 case 20 => 8 case 21 => 10 case 22 => 12 case 23 => 14
    case 24 => 16 case 25 => 18 case 26 => 20 case 27 => 22 case 28 => 24 case 29 => 26 case 30 => 28 case _ => 30
  }

  /** The mask of a slot's field. */
  function Mask(slot: nat): bv32
    requires 16 <= slot < 32
  {
    3 << Pos(slot)
  }

  /** The bits of a slot's field. */
  function Field(imcr: bv32, slot: nat): bv32
    requires 16 <= slot < 32
  {
    Get(imcr, Mask(slot))
  }

  /** The requestor the register routes to a slot, or -1. */
  function Routed(imcr: bv32, slot: nat): int
    requires 16 <= slot < 32
  {
    Source(slot, Field(imcr, slot))
  }

  /** The requestor the bits of a field select. */
  function Source(slot: nat, f: bv32): int
    requires 16 <= slot < 32
  {
    var s, k := Sources(slot), Pos(slot);
    if f == 0 && |s| > 0 then s[0] else if f == 1 << k && |s| > 1 then s[1]
    else if f == 2 << k && |s| > 2 then s[2] else if f == 3 << k && |s| > 3 then s[3] else -1
  }

  function With(imcr: bv32, slot: nat, bits: bv32): bv32
    requires 16 <= slot < 32
  {
    Put(imcr, bits, Mask(slot))
  }

  lemma OnePos(a: nat, b: nat)
    requires 16 <= a < 32 && 16 <= b < 32
    ensures Pos(a) == Pos(b) ==> a == b
  {
    hide Pos, SlotAt;
  }

  lemma MasksApart(a: nat, b: nat)
    requires 16 <= a < 32 && 16 <= b < 32 && a != b
    ensures Apart(Mask(a), Mask(b))
  {
    hide Pos, SlotAt, Apart;
    OnePos(a, b);
    Disjoint(Pos(a), Pos(b));
  }

  /** Storing bits of a slot's own field sets that field and no other. */
  lemma FieldSet(imcr: bv32, slot: nat, bits: bv32, other: nat)
    requires 16 <= slot < 32 && 16 <= other < 32 && Inside(bits, Mask(slot))
    ensures Field(With(imcr, slot, bits), other) == if other == slot then Field(bits, slot) else Field(imcr, other)
  {
    hide Mask, Get, Put, Inside, Apart;
    if other == slot {
      Same(imcr, bits, Mask(slot));
    } else {
      MasksApart(other, slot);
      Other(imcr, bits, Mask(slot), Mask(other));
    }
  }

  /** The bits are those of the slot's field and select the requestor. */
  predicate Selects(slot: nat, bits: bv32, r: int)
    requires 16 <= slot < 32
  {
    Inside(bits, Mask(slot)) && Source(slot, Field(bits, slot)) == r && slot in Choices(r)
  }

  lemma FieldsSet(imcr: bv32, slot: nat, bits: bv32, r: int)
    requires 16 <= slot < 32 && Selects(slot, bits, r)
    ensures Routed(With(imcr, slot, bits), slot) == r && slot in Choices(r)
    ensures forall i :: 16 <= i < 32 && i != slot ==> Field(With(imcr, slot, bits), i) == Field(imcr, i)
  {
    hide Mask, Field, With, Source, Choices, Inside;
    Selected(slot, bits, r);
    FieldSet(imcr, slot, bits, slot);
    forall i | 16 <= i < 32 && i != slot ensures Field(With(imcr, slot, bits), i) == Field(imcr, i) {
      FieldSet(imcr, slot, bits, i);
    }
  }

  lemma Selected(slot: nat, bits: bv32, r: int)
    requires 16 <= slot < 32 && Selects(slot, bits, r)
    ensures Inside(bits, Mask(slot)) && Source(slot, Field(bits, slot)) == r && slot in Choices(r)
  {
  }

  // ----- the allocator -----

  datatype Channel = Channel(req: int, handler: nat)

  datatype Op = SetInitiator(r: int) | FreeInitiator(r: int) | SetChannel(r: int, handler: nat) | FreeChannel(r: int)
    | ClearChannel(c: int)

  /** Nobody gives back channel k, which r has. */
  predicate Held(ops: seq<Op>, k: int, r: int)
  {
    r != -1 && FreeChannel(r) !in ops && ClearChannel(k) !in ops
  }

  class Allocator {
    const used: array<int>            // used_reqs; 0 is a free slot from 16 on
    var imcr: bv32
    const channels: array<Channel>

    /** Every slot in use is routed by the register to its requestor. */
    ghost predicate Coherent()
      reads this, used
    {
      && used.Length == SLOTS
      && (forall i :: 0 <= i < 16 ==> used[i] == i)
      && (forall i :: 16 <= i < SLOTS && used[i] != 0 ==> Routed(imcr, i) == used[i] && i in Choices(used[i]))
    }

    /** No requestor holds two channels. */
    ghost predicate Unique()
      reads channels
    {
      && channels.Length == NCHANNELS
      && forall i, j :: 0 <= i < j < NCHANNELS && channels[i].req == channels[j].req ==> channels[i].req == -1
    }

    constructor (reset: bv32)
      ensures Coherent() && Unique() && forall i :: 16 <= i < SLOTS ==> used[i] == 0
    {
      used := new int[SLOTS](i => if i < 16 then i else 0);
      imcr := reset;
      channels := new Channel[NCHANNELS](_ => Channel(-1, 0));
    }

    /** What a request may change: one slot that was free or its own, together with that slot's field. */
    twostate predicate Claimed(slot: nat, r: int)
      requires 16 <= slot < SLOTS && used.Length == SLOTS
      reads this, used
    {
      && used[slot] == r && (old(used[slot]) == 0 || old(used[slot]) == r) && slot in Choices(r)
      && (forall i :: 0 <= i < SLOTS && i != slot ==> used[i] == old(used[i]))
      && (forall i :: 16 <= i < SLOTS && i != slot ==> Field(imcr, i) == old(Field(imcr, i)))
    }

    twostate predicate Untouched()
      reads this, used
    {
      imcr == old(imcr) && used[..] == old(used[..])
    }

    /** Route the slot to the requestor. */
    method Assign(slot: nat, bits: bv32, r: int)
      requires Coherent() && 16 <= slot < SLOTS && Selects(slot, bits, r) && (used[slot] == 0 || used[slot] == r)
      modifies `imcr, used
      ensures Coherent() && Claimed(slot, r)
    {
      hide Choices, Source, Field, Mask, Sources, Pos, With, Selects;
      FieldsSet(imcr, slot, bits, r);
      imcr := With(imcr, slot, bits);
      used[slot] := r;
    }

    /** A slot that must be free. */
    method Claim(slot: nat, bits: bv32, r: int) returns (ok: bool)
      requires Coherent() && 16 <= slot < SLOTS && Selects(slot, bits, r)
      modifies `imcr, used
      ensures Coherent() && (ok <==> old(used[slot]) == 0)
      ensures if ok then Claimed(slot, r) else Untouched()
    {
      hide Choices, Source, Field, Mask, Sources, Selects;
      if used[slot] != 0 { return false; }
      Assign(slot, bits, r);
      return true;
    }

    /** The requestor has nothing to fall back on: it is unknown, or all its slots are taken. */
    ghost predicate Refused(r: int)
      reads used
      requires used.Length == SLOTS
    {
      !Direct(r) && r !in {DMA_FEC0_RX, DMA_FEC0_TX, DMA_FEC1_RX} &&
      forall s :: s in Choices(r) && 16 <= s < SLOTS ==> used[s] != 0
    }

    lemma RefusedIs(r: int)
      requires used.Length == SLOTS
      ensures Refused(r) <==>
        if Direct(r) || DMA_FEC0_RX <= r <= DMA_FEC1_RX then false
        else if r == DMA_FEC1_TX then used[21] != 0 && used[25] != 0 && used[31] != 0
        else if r == DMA_DREQ1 then used[29] != 0 && used[21] != 0
        else if DMA_CTM0 <= r <= DMA_CTM7 then used[r + 3] != 0
        else if DMA_USBEP4 <= r <= DMA_USBEP6 then used[r - 3] != 0
        else if DMA_PSC2_RX <= r <= DMA_PSC3_TX then used[r - 4] != 0
        else true
    {
      assert forall k :: 0 <= k < |Choices(r)| ==> Choices(r)[k] in Choices(r);
    }

    /** The slots of the second Ethernet transmitter, in order. */
    method ClaimFec1Tx() returns (ok: bool, ghost slot: nat)
      requires Coherent()
      modifies `imcr, used
      ensures Coherent() && (ok <==> old(used[21]) == 0 || old(used[25]) == 0 || old(used[31]) == 0)
      ensures ok ==> slot == if old(used[21]) == 0 then 21 else if old(used[25]) == 0 then 25 else 31
      ensures if ok then 16 <= slot < SLOTS && Claimed(slot, DMA_FEC1_TX) else Untouched()
    {
      hide Source, Field, Mask, Sources, Selects, Choices, Pos;
      Values();
      slot := 21;
      ok := Claim(21, 0x0000_0400, DMA_FEC1_TX);
      if ok { return; }
      slot := 25;
      ok := Claim(25, 0x0008_0000, DMA_FEC1_TX);
      if ok { return; }
      slot := 31;
      ok := Claim(31, 0x0000_0000, DMA_FEC1_TX);
    }

    /** The slots of the second external request. */
    method ClaimDreq1() returns (ok: bool, ghost slot: nat)
      requires Coherent()
      modifies `imcr, used
      ensures Coherent() && (ok <==> old(used[29]) == 0 || old(used[21]) == 0)
      ensures ok ==> slot == if old(used[29]) == 0 then 29 else 21
      ensures if ok then 16 <= slot < SLOTS && Claimed(slot, DMA_DREQ1) else Untouched()
    {
      hide Source, Field, Mask, Sources, Selects, Choices, Pos;
      Values();
      slot := 29;
      ok := Claim(29, 0x0400_0000, DMA_DREQ1);
      if ok { return; }
      slot := 21;
      ok := Claim(21, 0x0000_0000, DMA_DREQ1);
    }

    lemma CoherentSize()
      requires Coherent()
      ensures used.Length == SLOTS
    {
    }

    twostate lemma Unmoved()
      requires imcr == old(imcr) && used[..] == old(used[..])
      ensures Untouched()
    {
    }

    /** Three slots have one possible owner. */
    lemma SoleOwners()
      requires Coherent()
      ensures used[16] in {0, DMA_FEC0_RX} && used[17] in {0, DMA_FEC0_TX} && used[20] in {0, DMA_FEC1_RX}
    {
      hide Routed;
    }

    /** The slot for a requestor: the first free one where there is a choice. */
    function FirstChoice(r: int): int
      reads used
      requires used.Length == SLOTS
    {
      if r == 16 then 16 else if r == 17 then 17 else if r == 18 then 20
      else if r == 19 then (if used[21] == 0 then 21 else if used[25] == 0 then 25 else 31)
      else if r == 20 then (if used[29] == 0 then 29 else 21)
      else if r <= 28 then 24 + (r - 21) else if r <= 31 then 26 + (r - 29) else 28 + (r - 32)
    }

    /** dma_set_initiator: 0 when the requestor has a slot; slot is the one it was given, if it was given one. */
    method SetInitiator(r: int) returns (res: nat, ghost slot: nat)
      requires Coherent()
      modifies `imcr, used
      ensures Coherent()
      ensures res == if old(Refused(r)) then 1 else 0
      ensures res == 1 || Direct(r) ==> Untouched()
      // the slot, by requestor: the first free one where there is a choice
      ensures res == 0 && !Direct(r) ==> slot == old(FirstChoice(r))
      ensures res == 0 && !Direct(r) ==> 16 <= slot < SLOTS && Claimed(slot, r)
    {
      hide Source, Field, Mask, Sources, Selects, Choices, Refused, Pos, Coherent, Claimed, Untouched;
      SoleOwners();
      CoherentSize();
      Unmoved();
      res, slot := 0, 16;
      var ok := true;
      Values();
      RefusedIs(r);
      match r {
        case 0 | 1 | 2 | 3 | 4 | 5 | 6 | 7 | 8 | 9 | 10 | 11 | 12 | 14 | 15 =>
        case DMA_FEC0_RX => Assign(16, 0x0000_0000, r);
        case DMA_FEC0_TX => slot := 17; Assign(17, 0x0000_0000, r);
        case DMA_FEC1_RX => slot := 20; Assign(20, 0x0000_0100, r);
        case DMA_FEC1_TX =>
          ok, slot := ClaimFec1Tx();
        case DMA_DREQ1 =>
          ok, slot := ClaimDreq1();
        case DMA_CTM0 => slot := 24; ok := Claim(24, 0x0001_0000, r);
        case DMA_CTM1 => slot := 25; ok := Claim(25, 0x0004_0000, r);
        case DMA_CTM2 => slot := 26; ok := Claim(26, 0x0020_0000, r);
        case DMA_CTM3 => slot := 27; ok := Claim(27, 0x0080_0000, r);
        case DMA_CTM4 => slot := 28; ok := Claim(28, 0x0100_0000, r);
        case DMA_CTM5 => slot := 29; ok := Claim(29, 0x0800_0000, r);
        case DMA_CTM6 => slot := 30; ok := Claim(30, 0x1000_0000, r);
        case DMA_CTM7 => slot := 31; ok := Claim(31, 0x8000_0000, r);
        case DMA_USBEP4 => slot := 26; ok := Claim(26, 0x0000_0000, r);
        case DMA_USBEP5 => slot := 27; ok := Claim(27, 0x0000_0000, r);
        case DMA_USBEP6 => slot := 28; ok := Claim(28, 0x0000_0000, r);
        case DMA_PSC2_RX => slot := 28; ok := Claim(28, 0x0300_0000, r);
        case DMA_PSC2_TX => slot := 29; ok := Claim(29, 0x0C00_0000, r);
        case DMA_PSC3_RX => slot := 30; ok := Claim(30, 0x3000_0000, r);
        case DMA_PSC3_TX => slot := 31; ok := Claim(31, 0xC000_0000, r);
        case _ => ok := false;
      }
      res := if ok then 0 else 1;
    }

    /** dma_get_initiator: the first slot of the requestor; 0 when it has none. */
    method GetInitiator(r: int) returns (i: nat)
      requires used.Length == SLOTS
      ensures i < SLOTS && (used[i] == r || i == 0)
      ensures if exists k :: 0 <= k < SLOTS && used[k] == r
              then used[i] == r && forall k :: 0 <= k < i ==> used[k] != r else i == 0
    {
      i := 0;
      while i < SLOTS
        invariant i <= SLOTS && forall k :: 0 <= k < i ==> used[k] != r
      {
        if used[i] == r { return; }
        i := i + 1;
      }
      i := 0;
    }

    /** dma_free_initiator: the requestor gives back the first of its multiplexed slots. */
    method FreeInitiator(r: int) returns (ghost slot: nat)
      requires Coherent()
      modifies used
      ensures Coherent()
      ensures 16 <= slot <= SLOTS && (forall i :: 16 <= i < slot ==> old(used[i]) != r)
      ensures slot < SLOTS ==> old(used[slot]) == r
      ensures forall i :: 0 <= i < SLOTS ==> used[i] == if i == slot then 0 else old(used[i])
    {
      hide Choices, Routed;
      var i := 16;
      while i < SLOTS
        invariant 16 <= i <= SLOTS && forall k :: 16 <= k < i ==> used[k] != r
      {
        if used[i] == r { break; }
        i := i + 1;
      }
      slot := i;
      if i < SLOTS { used[i] := 0; }
    }

    /** A requestor that was accepted is found at a slot that the register routes to it. */
    method SetAndGet(r: int) returns (res: nat, i: nat)
      requires Coherent()
      modifies `imcr, used
      ensures Coherent() && i < SLOTS
      ensures res == 0 ==> used[i] == r && (i >= 16 ==> r != 0 && Routed(imcr, i) == r)
    {
      hide Choices, Routed, Field;
      ghost var slot;
      res, slot := SetInitiator(r);
      i := GetInitiator(r);
      assert res == 0 ==> used[if Direct(r) then r else slot] == r;
    }

    // ----- channels -----

    /** dma_get_channel: the channel of the requestor, or -1. */
    method GetChannel(r: int) returns (c: int)
      requires channels.Length == NCHANNELS
      ensures -1 <= c < NCHANNELS && (c >= 0 ==> channels[c].req == r && forall k :: 0 <= k < c ==> channels[k].req != r)
      ensures c == -1 ==> forall k :: 0 <= k < NCHANNELS ==> channels[k].req != r
    {
      c := 0;
      while c < NCHANNELS
        invariant 0 <= c <= NCHANNELS && forall k :: 0 <= k < c ==> channels[k].req != r
      {
        if channels[c].req == r { return; }
        c := c + 1;
      }
      c := -1;
    }

    /**
     * dma_set_channel: the channel the requestor has, or else the first free one; -1 when there is none.
     * The requestor -1 is told of a free channel that it does not get.
     */
    method SetChannel(r: int, handler: nat) returns (c: int)
      requires Unique()
      modifies channels
      ensures Unique() && -1 <= c < NCHANNELS
      ensures c >= 0 ==> channels[c].req == r && (old(channels[c].req) == r || old(channels[c].req) == -1)
      // the first channel of the requestor, or else the first free one
      ensures c >= 0 ==> forall k :: 0 <= k < c ==> old(channels[k].req) != old(channels[c].req)
      ensures (exists k :: 0 <= k < NCHANNELS && old(channels[k].req) == r) ==> c >= 0 && old(channels[c].req) == r
      ensures c == -1 <==> old(forall k :: 0 <= k < NCHANNELS ==> channels[k].req != -1 && channels[k].req != r)
      ensures forall k :: 0 <= k < NCHANNELS ==>
        channels[k] == if k == c && old(channels[k].req) != r then Channel(r, handler) else old(channels[k])
    {
      c := GetChannel(r);
      if c != -1 { return; }
      c := 0;
      while c < NCHANNELS
        invariant 0 <= c <= NCHANNELS && forall k :: 0 <= k < c ==> channels[k].req != -1
      {
        if channels[c].req == -1 {
          channels[c] := Channel(r, handler);
          return;
        }
        c := c + 1;
      }
      c := -1;
    }

    method ClearChannel(c: int)
      requires Unique()
      modifies channels
      ensures Unique()
      ensures forall k :: 0 <= k < NCHANNELS ==> channels[k] == if k == c then Channel(-1, 0) else old(channels[k])
    {
      if 0 <= c < NCHANNELS { channels[c] := Channel(-1, 0); }
    }

    /** dma_free_channel: the one channel of the requestor becomes free. */
    method FreeChannel(r: int)
      requires Unique()
      modifies channels
      ensures Unique()
      ensures r != -1 ==> forall k :: 0 <= k < NCHANNELS ==>
        channels[k] == if old(channels[k].req) == r then Channel(-1, 0) else old(channels[k])
      ensures forall k :: 0 <= k < NCHANNELS ==> old(channels[k].req) != r ==> channels[k] == old(channels[k])
    {
      var c := GetChannel(r);
      if c != -1 { channels[c] := Channel(-1, 0); }
    }

    // ----- runs -----

    /** One request. */
    method Perform(op: Op)
      requires Coherent() && Unique()
      modifies `imcr, used, channels
      ensures Coherent() && Unique()
      ensures forall i :: 16 <= i < SLOTS && old(used[i]) != 0 && op != Op.FreeInitiator(old(used[i])) ==>
        used[i] == old(used[i])
      ensures forall k :: 0 <= k < NCHANNELS && Held([op], k, old(channels[k].req)) ==> channels[k] == old(channels[k])
    {
      hide Field, Choices, Refused, Direct, Routed;
      match op {
        case SetInitiator(r) =>
          var res;
          ghost var slot;
          res, slot := SetInitiator(r);
          if res == 1 || Direct(r) { Kept(); }
        case FreeInitiator(r) => ghost var _ := FreeInitiator(r);
        case SetChannel(r, h) => var _ := SetChannel(r, h);
        case FreeChannel(r) => FreeChannel(r);
        case ClearChannel(c) => ClearChannel(c);
      }
    }

    /** Whatever is asked for, in any order: slots and channels stay with whoever has them until they are given back. */
    method Run(ops: seq<Op>)
      requires Coherent() && Unique()
      modifies `imcr, used, channels
      ensures Coherent() && Unique()
      ensures forall i :: 16 <= i < SLOTS && old(used[i]) != 0 && Op.FreeInitiator(old(used[i])) !in ops ==>
        used[i] == old(used[i])
      ensures forall k :: 0 <= k < NCHANNELS && Held(ops, k, old(channels[k].req)) ==> channels[k] == old(channels[k])
    {
      hide Field, Choices, Refused, Direct, Routed;
      var n := 0;
      while n < |ops|
        invariant n <= |ops| && Coherent() && Unique()
        invariant forall i :: 16 <= i < SLOTS && old(used[i]) != 0 && Op.FreeInitiator(old(used[i])) !in ops ==>
          used[i] == old(used[i])
        invariant forall k :: 0 <= k < NCHANNELS && Held(ops, k, old(channels[k].req)) ==> channels[k] == old(channels[k])
      {
        assert ops[n] in ops;
        assert forall k, r :: Held(ops, k, r) ==> Held([ops[n]], k, r);
        Perform(ops[n]);
        n := n + 1;
      }
    }

    twostate lemma Kept()
      requires Untouched() && used.Length == SLOTS
      ensures forall i :: 0 <= i < SLOTS ==> used[i] == old(used[i])
    {
      forall i | 0 <= i < SLOTS ensures used[i] == old(used[i]) { assert used[..][i] == old(used[..])[i]; }
    }
  }

  /** Each constant lies in its slot's field and has the value that selects its requestor. */
  lemma Values()
    ensures Selects(16, 0x0000_0000, DMA_FEC0_RX) && Selects(17, 0x0000_0000, DMA_FEC0_TX)
    ensures Selects(20, 0x0000_0100, DMA_FEC1_RX)
    ensures Selects(21, 0x0000_0400, DMA_FEC1_TX) && Selects(25, 0x0008_0000, DMA_FEC1_TX)
    ensures Selects(31, 0x0000_0000, DMA_FEC1_TX)
    ensures Selects(29, 0x0400_0000, DMA_DREQ1) && Selects(21, 0x0000_0000, DMA_DREQ1)
    ensures Selects(24, 0x0001_0000, DMA_CTM0) && Selects(25, 0x0004_0000, DMA_CTM1) && Selects(26, 0x0020_0000, DMA_CTM2)
    ensures Selects(27, 0x0080_0000, DMA_CTM3) && Selects(28, 0x0100_0000, DMA_CTM4) && Selects(29, 0x0800_0000, DMA_CTM5)
    ensures Selects(30, 0x1000_0000, DMA_CTM6) && Selects(31, 0x8000_0000, DMA_CTM7)
    ensures Selects(26, 0x0000_0000, DMA_USBEP4) && Selects(27, 0x0000_0000, DMA_USBEP5) && Selects(28, 0x0000_0000, DMA_USBEP6)
    ensures Selects(28, 0x0300_0000, DMA_PSC2_RX) && Selects(29, 0x0C00_0000, DMA_PSC2_TX)
    ensures Selects(30, 0x3000_0000, DMA_PSC3_RX) && Selects(31, 0xC000_0000, DMA_PSC3_TX)
  {
    hide Selects;
    EthernetValues();
    TimerValues();
    SerialValues();
  }

  lemma EthernetValues()
    ensures Selects(16, 0x0000_0000, DMA_FEC0_RX) && Selects(17, 0x0000_0000, DMA_FEC0_TX)
    ensures Selects(20, 0x0000_0100, DMA_FEC1_RX)
    ensures Selects(21, 0x0000_0400, DMA_FEC1_TX) && Selects(25, 0x0008_0000, DMA_FEC1_TX)
    ensures Selects(31, 0x0000_0000, DMA_FEC1_TX)
    ensures Selects(29, 0x0400_0000, DMA_DREQ1) && Selects(21, 0x0000_0000, DMA_DREQ1)
  {
  }

  lemma TimerValues()
    ensures Selects(24, 0x0001_0000, DMA_CTM0) && Selects(25, 0x0004_0000, DMA_CTM1) && Selects(26, 0x0020_0000, DMA_CTM2)
    ensures Selects(27, 0x0080_0000, DMA_CTM3) && Selects(28, 0x0100_0000, DMA_CTM4) && Selects(29, 0x0800_0000, DMA_CTM5)
    ensures Selects(30, 0x1000_0000, DMA_CTM6) && Selects(31, 0x8000_0000, DMA_CTM7)
  {
  }

  lemma SerialValues()
    ensures Selects(26, 0x0000_0000, DMA_USBEP4) && Selects(27, 0x0000_0000, DMA_USBEP5) && Selects(28, 0x0000_0000, DMA_USBEP6)
    ensures Selects(28, 0x0300_0000, DMA_PSC2_RX) && Selects(29, 0x0C00_0000, DMA_PSC2_TX)
    ensures Selects(30, 0x3000_0000, DMA_PSC3_RX) && Selects(31, 0xC000_0000, DMA_PSC3_TX)
  {
  }

  /** The numbers of the requestors, and those that always have a slot. */
  lemma Requestors(r: int)
    ensures Direct(r) <==> 0 <= r < 16 && r != 13
    ensures DMA_FEC0_RX == 16 && DMA_FEC0_TX == 17 && DMA_FEC1_RX == 18 && DMA_FEC1_TX == 19 && DMA_DREQ1 == 20
    ensures DMA_CTM0 == 21 && DMA_CTM7 == 28 && DMA_USBEP4 == 29 && DMA_USBEP6 == 31 && DMA_PSC2_RX == 32 && DMA_PSC3_TX == 35
  {
  }
}
