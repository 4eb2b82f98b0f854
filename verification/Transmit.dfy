/** The transmit rings of the Ethernet driver: the driver queues frames, the device
    sends them, the interrupt handler frees their buffers. Every method here is one
    step of that protocol: the driver's are serialised by its lock, and the device
    sees a frame only once the producer index has been written, at the end of the
    step. */
module Transmit {
  import opened Basics
  import opened Rings

  const TX_QUEUES := 4
  const TX_BDS_PER_Q := 32
  const GENET_DESC_INDEX := 16
  const GENET_Q16_TX_BD_CNT := TOTAL_DESC - TX_QUEUES * TX_BDS_PER_Q
  const TX_RING_INDEX := 1
  const ETH_ZLEN := 60
  const ENET_MAX_MTU_SIZE := 1536

  /** A frame padded to the shortest length Ethernet allows. */
  function Padded(frame: seq<Byte>): (r: seq<Byte>)
    ensures |frame| >= 60 ==> r == frame
    ensures |frame| < 60 ==> |r| == 60 && frame <= r && forall i | |frame| <= i < 60 :: r[i] == 0
  {
    if |frame| < ETH_ZLEN then frame + seq(ETH_ZLEN - |frame|, _ => 0) else frame
  }

  /** The part of a transmit buffer that was filled. */
  class Buffer {
    const bytes: seq<Byte>

    constructor (frame: seq<Byte>)
      ensures bytes == Padded(frame)
    {
      bytes := Padded(frame);
    }
  }

  datatype Descriptor = Empty | Filled(address: Buffer, length: nat)

  /** Every buffer is queued once, goes out as it was queued, and is deleted once, in the
      order of queueing. */
  ghost predicate InTurn(queued: seq<Buffer>, wire: seq<seq<Byte>>, deleted: seq<Buffer>) {
    && Distinct(queued)
    && deleted <= queued
    && |wire| <= |queued| && forall k | 0 <= k < |wire| :: wire[k] == queued[k].bytes
  }

  lemma QueuedMore(queued: seq<Buffer>, wire: seq<seq<Byte>>, deleted: seq<Buffer>, buffer: Buffer)
    requires InTurn(queued, wire, deleted) && buffer !in queued
    ensures InTurn(queued + [buffer], wire, deleted)
  {
  }

  lemma SentMore(queued: seq<Buffer>, wire: seq<seq<Byte>>, deleted: seq<Buffer>)
    requires InTurn(queued, wire, deleted) && |wire| < |queued| && |deleted| <= |wire|
    ensures InTurn(queued, wire + [queued[|wire|].bytes], deleted) && queued[|wire|] !in deleted
  {
  }

  lemma DeletedMore(queued: seq<Buffer>, wire: seq<seq<Byte>>, deleted: seq<Buffer>)
    requires InTurn(queued, wire, deleted) && |deleted| < |queued|
    ensures InTurn(queued, wire, deleted + [queued[|deleted|]])
  {
    assert queued[..|deleted| + 1] == queued[..|deleted|] + [queued[|deleted|]];
  }

  class TxRing {
    /** The control blocks and the device's descriptors, shared by all rings. */
    const cbs: array<Buffer?>
    const descriptors: array<Descriptor>

    // the driver's registers
    const size: nat
    const cbPtr: nat
    const endPtr: nat
    var cleanPtr: nat
    var cIndex: nat
    var freeBds: nat
    var writePtr: nat
    var prodIndex: nat

    // the device's registers
    var deviceProdIndex: nat
    var deviceConsIndex: nat
    var readPtr: nat

    // history: the buffers queued, what went out on the wire, the buffers deleted
    ghost var queued: seq<Buffer>
    ghost var wire: seq<seq<Byte>>
    ghost var deleted: seq<Buffer>

    /** `init_tx_ring`. */
    constructor (cbs: array<Buffer?>, descriptors: array<Descriptor>, size: nat, startPtr: nat, endPtr: nat)
      requires 2 <= size <= TOTAL_DESC && endPtr == startPtr + size
      requires endPtr <= cbs.Length && cbs.Length == descriptors.Length
      requires forall j | startPtr <= j < endPtr :: cbs[j] == null
      ensures Valid() && queued == [] && wire == [] && deleted == []
      ensures this.cbs == cbs && this.descriptors == descriptors
      ensures this.size == size && cbPtr == startPtr
    {
      this.cbs, this.descriptors := cbs, descriptors;
      this.size := size;
      cleanPtr := startPtr;
      cIndex := 0;
      freeBds := size;
      writePtr := startPtr;
      cbPtr := startPtr;
      this.endPtr := endPtr - 1;
      prodIndex := 0;
      deviceProdIndex, deviceConsIndex, readPtr := 0, 0, startPtr;
      queued, wire, deleted := [], [], [];
    }

    /** The ring's geometry. */
    ghost predicate Shape()
    {
      && 2 <= size <= TOTAL_DESC && endPtr + 1 == cbPtr + size
      && endPtr < cbs.Length && cbs.Length == descriptors.Length
    }

    /** Buffers are deleted only after they went out, and go out only after they were
        queued; a slot always stays free. */
    ghost predicate Ordered()
      reads this`queued, this`wire, this`deleted
    {
      |deleted| <= |wire| <= |queued| && |queued| - |deleted| < size
    }

    /** The registers say how many buffers were queued, sent and deleted, of which some
        may have been deleted by a reclaim still under way. */
    ghost predicate Counters(processed: nat)
      requires Shape()
      reads this
    {
      && processed <= |deleted| && freeBds == size - (|queued| - (|deleted| - processed))
      && prodIndex == deviceProdIndex == |queued| % INDEX_SPAN
      && deviceConsIndex == |wire| % INDEX_SPAN
      && cIndex == (|deleted| - processed) % INDEX_SPAN
      && writePtr == cbPtr + Position(size, |queued|)
      && readPtr == cbPtr + Position(size, |wire|)
      && cleanPtr == cbPtr + Position(size, |deleted|)
    }

    /** The slot for buffer k holds it until it is deleted, and the slots between the
        last queued buffer and the first one to delete are empty. */
    ghost predicate SlotRight(k: nat)
      requires Shape()
      reads this`queued, cbs, descriptors
    {
      var slot := cbPtr + Position(size, k);
      if k < |queued|
      then cbs[slot] == queued[k] && descriptors[slot] == Filled(queued[k], |queued[k].bytes|)
      else cbs[slot] == null
    }

    ghost predicate Slots()
      requires Shape()
      reads this`queued, this`deleted, cbs, descriptors
    {
      forall k | |deleted| <= k < |deleted| + size :: SlotRight(k)
    }

    ghost predicate History()
      reads this`queued, this`wire, this`deleted
    {
      InTurn(queued, wire, deleted)
    }

    /** All that holds while `tx_reclaim` runs, before it stores the consumer index. */
    ghost predicate Reclaiming(processed: nat)
      reads this, cbs, descriptors
    {
      Shape() && Ordered() && Counters(processed) && Slots() && History()
    }

    ghost predicate Valid()
      reads this, cbs, descriptors
    {
      Reclaiming(0)
    }

    /** What the driver's registers say in every reachable state. */
    lemma Registers()
      requires Valid()
      ensures freeBds + Between(cIndex, prodIndex) == size
      ensures Between(cIndex, prodIndex) < size
      ensures writePtr == if cleanPtr + Between(cIndex, prodIndex) <= endPtr
                          then cleanPtr + Between(cIndex, prodIndex)
                          else cleanPtr + Between(cIndex, prodIndex) - size
      ensures Between(cIndex, deviceConsIndex) + Between(deviceConsIndex, prodIndex) == Between(cIndex, prodIndex)
    {
      hide Position, Between, TxRing.Slots, TxRing.History;
      BetweenIsDifference(|deleted|, |queued|);
      BetweenIsDifference(|deleted|, |wire|);
      BetweenIsDifference(|wire|, |queued|);
      Ahead(size, |deleted|, |queued| - |deleted|);
    }

    /** A slot holds a buffer exactly in the window from the clean pointer to the write
        pointer. */
    lemma Window(d: nat)
      requires Valid() && d < size
      ensures var slot := if cleanPtr + d <= endPtr then cleanPtr + d else cleanPtr + d - size;
              cbPtr <= slot <= endPtr && (cbs[slot] != null <==> d < Between(cIndex, prodIndex))
    {
      hide Position, Between, TxRing.History;
      BetweenIsDifference(|deleted|, |queued|);
      Ahead(size, |deleted|, d);
      assert SlotRight(|deleted| + d);
    }

    /** `get_txcb`: the slot for the next frame. */
    method GetTxcb() returns (slot: nat)
      requires Shape() && cbPtr <= writePtr <= endPtr
      modifies this`writePtr
      ensures slot == old(writePtr)
      ensures writePtr == if old(writePtr) == endPtr then cbPtr else old(writePtr) + 1
    {
      slot := cbPtr + (writePtr - cbPtr);
      if writePtr == endPtr {
        writePtr := cbPtr;
      } else {
        writePtr := writePtr + 1;
      }
    }

    /** Puts a filled buffer on the ring and shows it to the device. */
    method Enqueue(buffer: Buffer)
      requires Valid() && freeBds >= 2 && buffer !in queued
      modifies this`writePtr, this`freeBds, this`prodIndex, this`deviceProdIndex, this`queued, cbs, descriptors
      ensures Valid()
      ensures queued == old(queued) + [buffer]
      ensures forall j | 0 <= j < cbs.Length && !(cbPtr <= j <= endPtr) ::
                cbs[j] == old(cbs[j]) && descriptors[j] == old(descriptors[j])
    {
      hide Position, InTurn, TxRing.Slots;
      OneStep(size, |queued|);
      QueuedMore(queued, wire, deleted, buffer);
      var slot := GetTxcb();
      cbs[slot] := buffer;
      descriptors[slot] := Filled(buffer, |buffer.bytes|);
      CountQueued(buffer);
      EnqueuedSlots(buffer);
    }

    /** The producer's registers once a buffer is in its slot. */
    method CountQueued(buffer: Buffer)
      requires 0 < freeBds && prodIndex == |queued| % INDEX_SPAN
      modifies this`freeBds, this`prodIndex, this`deviceProdIndex, this`queued
      ensures freeBds == old(freeBds) - 1 && queued == old(queued) + [buffer]
      ensures prodIndex == deviceProdIndex == |queued| % INDEX_SPAN
    {
      OneStep(2, |queued|);
      freeBds := freeBds - 1;
      prodIndex := (prodIndex + 1) % INDEX_SPAN;
      deviceProdIndex := prodIndex;
      queued := queued + [buffer];
    }

    /** The slot after the last one in use has been filled. */
    twostate lemma EnqueuedSlots(buffer: Buffer)
      requires Shape() && old(Slots()) && deleted == old(deleted) && queued == old(queued) + [buffer]
      requires |deleted| <= |old(queued)| && |queued| - |deleted| <= size
      requires var slot := cbPtr + Position(size, |old(queued)|);
               && cbs[slot] == buffer && descriptors[slot] == Filled(buffer, |buffer.bytes|)
               && forall j | 0 <= j < cbs.Length && j != slot ::
                    cbs[j] == old(cbs[j]) && descriptors[j] == old(descriptors[j])
      ensures Slots()
    {
      hide Position;
      var n := |old(queued)|;
      forall k | |deleted| <= k < |deleted| + size
        ensures SlotRight(k)
      {
        assert old(SlotRight(k));
        if k < n {
          OtherSlot(size, k, n);
        } else if n < k {
          OtherSlot(size, n, k);
        }
      }
    }

    method SendFrame(frame: seq<Byte>) returns (ok: bool)
      requires Valid() && 0 < |frame| <= ENET_MAX_MTU_SIZE
      modifies this`writePtr, this`freeBds, this`prodIndex, this`deviceProdIndex, this`queued, cbs, descriptors
      ensures Valid()
      ensures ok <==> old(freeBds) >= 2
      ensures !ok ==> queued == old(queued)
      ensures ok ==> |queued| == |old(queued)| + 1 && old(queued) <= queued
                     && queued[|old(queued)|].bytes == Padded(frame) && fresh(queued[|old(queued)|])
      ensures forall j | 0 <= j < cbs.Length && !(cbPtr <= j <= endPtr) ::
                cbs[j] == old(cbs[j]) && descriptors[j] == old(descriptors[j])
    {
      hide TxRing.Counters, TxRing.Slots, TxRing.History, Padded;
      if freeBds < 2 {
        return false;
      }
      var buffer := new Buffer(frame);
      Enqueue(buffer);
      return true;
    }

    /** The descriptor the device reads next. */
    lemma NextDescriptor(processed: nat)
      requires Reclaiming(processed)
      ensures deviceConsIndex != deviceProdIndex <==> |wire| < |queued|
      ensures |wire| < |queued| ==>
                cbPtr <= readPtr <= endPtr < descriptors.Length
                && descriptors[readPtr] == Filled(queued[|wire|], |queued[|wire|].bytes|)
    {
      hide Position, InTurn;
      BetweenIsDifference(|wire|, |queued|);
      if |wire| < |queued| {
        assert SlotRight(|wire|);
      }
    }

    /** The device sends the next frame, if the producer index says there is one. */
    method Transmit(ghost processed: nat)
      requires Reclaiming(processed)
      modifies this`deviceConsIndex, this`readPtr, this`wire
      ensures Reclaiming(processed)
      ensures wire == if |old(wire)| == |queued| then old(wire) else old(wire) + [queued[|old(wire)|].bytes]
      ensures |old(wire)| < |queued| ==> queued[|old(wire)|] !in deleted
    {
      hide Position, InTurn, TxRing.Slots;
      NextDescriptor(processed);
      OneStep(size, |wire|);
      if deviceConsIndex != deviceProdIndex {
        SentMore(queued, wire, deleted);
        var descriptor := descriptors[readPtr];
        assert descriptor.address.bytes[..descriptor.length] == queued[|wire|].bytes;
        wire := wire + [descriptor.address.bytes[..descriptor.length]];
        readPtr := if readPtr == endPtr then cbPtr else readPtr + 1;
        deviceConsIndex := (deviceConsIndex + 1) % INDEX_SPAN;
      }
    }

    /** `free_tx_cb`. */
    method FreeTxCb(slot: nat)
      requires slot < cbs.Length
      modifies cbs, this`deleted
      ensures cbs[slot] == null && forall j | 0 <= j < cbs.Length && j != slot :: cbs[j] == old(cbs[j])
      ensures deleted == if old(cbs[slot]) == null then old(deleted) else old(deleted) + [old(cbs[slot])]
    {
      var buffer := cbs[slot];
      if buffer != null {
        cbs[slot] := null;
        deleted := deleted + [buffer];
      }
    }

    method FreeNext(ghost processed: nat)
      requires Reclaiming(processed) && |deleted| < |wire|
      modifies this`cleanPtr, this`deleted, cbs
      ensures Reclaiming(processed + 1)
      ensures |deleted| == |old(deleted)| + 1
      ensures forall j | 0 <= j < cbs.Length && !(cbPtr <= j <= endPtr) :: cbs[j] == old(cbs[j])
    {
      hide Position, InTurn, TxRing.Slots;
      OneStep(size, |deleted|);
      DeletedMore(queued, wire, deleted);
      NextToDelete();
      FreeTxCb(cleanPtr);
      if cleanPtr < endPtr {
        cleanPtr := cleanPtr + 1;
      } else {
        cleanPtr := cbPtr;
      }
      FreedSlots(old(cleanPtr));
    }

    lemma NextToDelete()
      requires Shape() && Slots() && |deleted| < |queued|
      ensures cbs[cbPtr + Position(size, |deleted|)] == queued[|deleted|]
    {
      hide Position;
      assert SlotRight(|deleted|);
    }

    /** The slot of the last buffer deleted has been emptied. */
    twostate lemma FreedSlots(slot: nat)
      requires Shape() && old(Slots()) && |deleted| == |old(deleted)| + 1 && queued == old(queued)
      requires |deleted| <= |queued| && |queued| < |deleted| + size
      requires slot == cbPtr + Position(size, |old(deleted)|) && cbs[slot] == null
      requires forall j | 0 <= j < cbs.Length && j != slot :: cbs[j] == old(cbs[j])
      requires forall j | 0 <= j < cbs.Length :: descriptors[j] == old(descriptors[j])
      ensures Slots()
    {
      hide Position;
      var f := |old(deleted)|;
      forall k | |deleted| <= k < |deleted| + size
        ensures SlotRight(k)
      {
        if k < f + size {
          assert old(SlotRight(k));
          OtherSlot(size, f, k);
        } else {
          Ahead(size, f, size);
        }
      }
    }

    /** The device sends up to n frames. */
    method TransmitSome(n: nat, ghost processed: nat)
      requires Reclaiming(processed)
      modifies this`deviceConsIndex, this`readPtr, this`wire
      ensures Reclaiming(processed) && old(wire) <= wire
    {
      for i := 0 to n
        invariant Reclaiming(processed) && old(wire) <= wire
      {
        Transmit(processed);
      }
    }

    /** `tx_reclaim`: deletes the buffers of exactly the frames the device had sent when
        the reclaim began; `device` says how many more it sends after each deletion. */
    method Reclaim(device: seq<nat>) returns (processed: nat)
      requires Valid()
      modifies this`cleanPtr, this`cIndex, this`freeBds, this`deleted, cbs
      modifies this`deviceConsIndex, this`readPtr, this`wire
      ensures Valid() && old(wire) <= wire
      ensures |deleted| == |old(wire)| && processed == |old(wire)| - |old(deleted)|
      ensures forall j | 0 <= j < cbs.Length && !(cbPtr <= j <= endPtr) :: cbs[j] == old(cbs[j])
    {
      hide Position, Between, TxRing.Slots, TxRing.History, TxRing.Reclaiming;
      var consumed := deviceConsIndex % INDEX_SPAN;
      var ready := (consumed - cIndex) % INDEX_SPAN;
      ReadyIsSent(consumed);
      ghost var before := |deleted|;
      processed := 0;
      while processed < ready
        invariant processed <= ready == |old(wire)| - before && |deleted| == before + processed
        invariant Reclaiming(processed) && old(wire) <= wire
        invariant forall j | 0 <= j < cbs.Length && !(cbPtr <= j <= endPtr) :: cbs[j] == old(cbs[j])
      {
        SomeSent(processed);
        FreeNext(processed);
        processed := processed + 1;
        TransmitSome(if processed <= |device| then device[processed - 1] else 0, processed);
      }
      FinishReclaim(processed, consumed);
    }

    /** `consumed` less the index stored before is what has been sent and not deleted. */
    lemma ReadyIsSent(consumed: nat)
      requires Valid() && consumed == deviceConsIndex % INDEX_SPAN
      ensures (consumed - cIndex) % INDEX_SPAN == |wire| - |deleted| && consumed == |wire| % INDEX_SPAN
      ensures Reclaiming(0) && |deleted| <= |wire|
    {
      hide Position, TxRing.Slots, TxRing.History;
      BetweenIsDifference(|deleted|, |wire|);
    }

    lemma SomeSent(processed: nat)
      requires Reclaiming(processed)
      ensures |deleted| <= |wire|
    {
    }

    method FinishReclaim(processed: nat, consumed: nat)
      requires Reclaiming(processed) && consumed == |deleted| % INDEX_SPAN
      modifies this`freeBds, this`cIndex
      ensures Valid()
    {
      hide Position, TxRing.Slots, TxRing.History;
      freeBds := freeBds + processed;
      cIndex := consumed;
    }

    /** A ring does not notice steps on slots that are not its own. */
    twostate lemma OthersSlots()
      requires old(Valid()) && unchanged(this)
      requires forall j | cbPtr <= j <= endPtr :: cbs[j] == old(cbs[j]) && descriptors[j] == old(descriptors[j])
      ensures Valid()
    {
      forall k | |deleted| <= k < |deleted| + size
        ensures SlotRight(k)
      {
        assert old(SlotRight(k));
      }
    }
  }

  /** The rings in use, and which of the shared slots are theirs. */
  predicate IsRing(index: nat) { index < TX_QUEUES || index == GENET_DESC_INDEX }

  function StartOf(index: nat): nat
    requires IsRing(index)
  {
    if index == GENET_DESC_INDEX then TX_QUEUES * TX_BDS_PER_Q else index * TX_BDS_PER_Q
  }

  function SizeOf(index: nat): nat
    requires IsRing(index)
  {
    if index == GENET_DESC_INDEX then GENET_Q16_TX_BD_CNT else TX_BDS_PER_Q
  }

  predicate Owns(index: nat, slot: nat) {
    IsRing(index) && StartOf(index) <= slot < StartOf(index) + SizeOf(index)
  }

  /** The layout: 32 descriptors for each of the four priority rings, the other half of the
      256 for the default ring. */
  lemma OwnsByNumbers(index: nat, slot: nat)
    ensures Owns(index, slot) <==>
            if index < 4 then 32 * index <= slot < 32 * index + 32 else index == 16 && 128 <= slot < 256
  {
  }

  /** Every descriptor belongs to exactly one ring. */
  lemma EveryDescriptorOnce(slot: nat)
    requires slot < 256
    ensures exists index :: Owns(index, slot)
    ensures forall i, j | Owns(i, slot) && Owns(j, slot) :: i == j
  {
    assert Owns(if slot < TX_QUEUES * TX_BDS_PER_Q then slot / TX_BDS_PER_Q else GENET_DESC_INDEX, slot);
  }

  /** The ring that carries the frames of a queue. */
  function RingOf(queue: nat): nat { if queue == 0 then GENET_DESC_INDEX else queue - 1 }

  class Transmitter {
    const cbs: array<Buffer?>
    const descriptors: array<Descriptor>
    const rings: map<nat, TxRing>

    ghost predicate Valid()
      reads this, cbs, descriptors, rings.Values
    {
      && cbs.Length == TOTAL_DESC
      && (forall i :: i in rings <==> IsRing(i))
      && (forall i | i in rings :: Placed(i) && rings[i].Valid())
      && (forall i, j | i in rings && j in rings && i != j :: rings[i] != rings[j])
    }

    ghost predicate Placed(index: nat)
      requires index in rings
    {
      && IsRing(index)
      && rings[index].cbs == cbs && rings[index].descriptors == descriptors
      && rings[index].cbPtr == StartOf(index) && rings[index].size == SizeOf(index)
    }

    /** `init_tx_queues`. */
    constructor ()
      ensures Valid() && fresh(cbs) && fresh(descriptors) && fresh(rings.Values)
      ensures forall i | i in rings :: rings[i].queued == [] && rings[i].wire == [] && rings[i].deleted == []
    {
      hide TxRing.Valid;
      var blocks := new Buffer?[TOTAL_DESC](_ => null);
      var slots := new Descriptor[TOTAL_DESC](_ => Empty);
      var made: map<nat, TxRing> := map[];
      for i := 0 to TX_QUEUES
        invariant forall k | k in made :: fresh(made[k])
        invariant forall k: nat :: k in made <==> k < i
        invariant forall k | k in made :: Made(made[k], blocks, slots, k)
        invariant forall j, k | j in made && k in made && j != k :: made[j] != made[k]
        invariant forall j | 0 <= j < TOTAL_DESC :: blocks[j] == null
      {
        var ring := new TxRing(blocks, slots, TX_BDS_PER_Q, i * TX_BDS_PER_Q, (i + 1) * TX_BDS_PER_Q);
        made := made[i := ring];
      }
      var last := new TxRing(blocks, slots, GENET_Q16_TX_BD_CNT, TX_QUEUES * TX_BDS_PER_Q, TOTAL_DESC);
      made := made[GENET_DESC_INDEX := last];
      cbs, descriptors, rings := blocks, slots, made;
    }

    static ghost predicate Made(ring: TxRing, blocks: array<Buffer?>, slots: array<Descriptor>, index: nat)
      reads ring, ring.cbs, ring.descriptors
    {
      && IsRing(index) && ring.cbs == blocks && ring.descriptors == slots
      && ring.cbPtr == StartOf(index) && ring.size == SizeOf(index)
      && ring.Valid() && ring.queued == [] && ring.wire == [] && ring.deleted == []
    }

    /** After a step on one ring, the others are as they were. */
    twostate lemma OtherRings(index: nat)
      requires old(Valid()) && IsRing(index) && rings[index].Valid()
      requires forall i | i in rings && i != index :: unchanged(rings[i])
      requires forall j | 0 <= j < TOTAL_DESC && !Owns(index, j) ::
                 cbs[j] == old(cbs[j]) && descriptors[j] == old(descriptors[j])
      ensures Valid()
    {
      forall i | i in rings && i != index
        ensures rings[i].Valid()
      {
        assert Placed(i);
        forall j | rings[i].cbPtr <= j <= rings[i].endPtr
          ensures cbs[j] == old(cbs[j]) && descriptors[j] == old(descriptors[j])
        {
          EveryDescriptorOnce(j);
          assert Owns(i, j);
        }
        rings[i].OthersSlots();
      }
    }

    method IsSendFrameAdvisable() returns (advisable: bool)
      requires Valid()
      ensures 0 in rings && (advisable <==> |rings[0].queued| - |rings[0].deleted| <= 30)
    {
      var index := RingOf(TX_RING_INDEX);
      assert Placed(index);
      advisable := rings[index].freeBds >= 2;
    }

    /** A frame is queued, padded, on the first priority ring, unless fewer than two of its
        32 slots are free. */
    method SendFrame(frame: seq<Byte>) returns (ok: bool)
      requires Valid() && 0 < |frame| <= ENET_MAX_MTU_SIZE
      modifies rings[0], cbs, descriptors
      ensures Valid()
      ensures var ring := rings[0];
              && ring.wire == old(ring.wire) && ring.deleted == old(ring.deleted)
              && (ok <==> |old(ring.queued)| - |ring.deleted| <= 30)
              && (!ok ==> ring.queued == old(ring.queued))
              && (ok ==> |ring.queued| == |old(ring.queued)| + 1 && old(ring.queued) <= ring.queued
                         && ring.queued[|old(ring.queued)|].bytes == Padded(frame))
    {
      var index := RingOf(TX_RING_INDEX);
      assert Placed(index);
      ok := rings[index].SendFrame(frame);
      OtherRings(index);
    }

    /** The device sends a frame from one of the rings. */
    method Transmit(index: nat)
      requires Valid() && IsRing(index)
      modifies rings[index]
      ensures Valid()
      ensures var ring := rings[index];
              && ring.queued == old(ring.queued) && ring.deleted == old(ring.deleted)
              && ring.wire == if |old(ring.wire)| == |ring.queued| then old(ring.wire)
                              else old(ring.wire) + [ring.queued[|old(ring.wire)|].bytes]
    {
      rings[index].Transmit(0);
      OtherRings(index);
    }

    method Reclaim(index: nat, device: seq<nat>)
      requires Valid() && IsRing(index)
      modifies rings[index], cbs
      ensures Valid()
      ensures Reclaimed(index)
    {
      assert Placed(index);
      var _ := rings[index].Reclaim(device);
      OtherRings(index);
    }

    /** The buffers of the frames that were sent before are deleted; the device may have
        sent more since. */
    twostate predicate Reclaimed(index: nat)
      requires index in rings
      reads rings[index]
    {
      var ring := rings[index];
      && ring.queued == old(ring.queued) && old(ring.wire) <= ring.wire
      && |old(ring.wire)| <= |ring.queued| && ring.deleted == ring.queued[..|old(ring.wire)|]
    }

    /** `InterruptHandler0`: the default ring. */
    method InterruptHandler0(done: bool, device: seq<nat>)
      requires Valid()
      modifies rings[16], cbs
      ensures Valid()
      ensures if done then Reclaimed(16) else unchanged(rings[16])
    {
      if done {
        Reclaim(GENET_DESC_INDEX, device);
      }
    }

    /** `InterruptHandler1`: the priority rings named in the interrupt status. */
    method InterruptHandler1(status: seq<bool>, device: seq<seq<nat>>)
      requires Valid() && |status| == 4 == |device|
      modifies rings.Values, cbs
      ensures Valid()
      ensures forall i | i in rings :: if i < 4 && status[i] then Reclaimed(i) else unchanged(rings[i])
    {
      for index := 0 to TX_QUEUES
        invariant Valid()
        invariant forall i | i in rings :: if i < index && status[i] then Reclaimed(i) else unchanged(rings[i])
      {
        if status[index] {
          Reclaim(index, device[index]);
        }
      }
    }
  }
}
