/** The receive ring of the Ethernet driver: the device fills buffers, the driver
    takes the frames out and puts new buffers in. Every method is one step. */
module Receive {
  import opened Basics
  import opened Rings

  const RX_BUF_LENGTH := 2048
  const LEADING_PAD := 2
  const ETH_FCS_LEN := 4
  const FRAME_BUFFER_SIZE := 1600

  /** The length and status word of a descriptor; `errors` is set if any error bit is. */
  datatype Status = Status(length: nat, startOfPacket: bool, endOfPacket: bool, errors: bool)

  predicate Good(s: Status) { s.startOfPacket && s.endOfPacket && !s.errors }

  /** What the device puts into one buffer. */
  datatype Arrival = Arrival(bytes: seq<Byte>, status: Status)

  /** What a frame's length must be for the driver's assertions on it to hold. */
  predicate Deliverable(a: Arrival, crcForward: bool) {
    && a.status.length == |a.bytes| <= RX_BUF_LENGTH
    && (Good(a.status) ==> 0 < |a.bytes| - LEADING_PAD - (if crcForward then ETH_FCS_LEN else 0) <= FRAME_BUFFER_SIZE)
  }

  /** The frame without the alignment bytes and the checksum. */
  function Payload(a: Arrival, crcForward: bool): seq<Byte>
    requires Deliverable(a, crcForward) && Good(a.status)
  {
    a.bytes[LEADING_PAD..|a.bytes| - if crcForward then ETH_FCS_LEN else 0]
  }

  /** Which frames are delivered, and as what: without the first two bytes, and without the
      last four if the device passes the checksum on. */
  lemma DeliveredBytes(a: Arrival, crcForward: bool)
    requires Deliverable(a, crcForward)
    ensures Good(a.status) <==> a.status.startOfPacket && a.status.endOfPacket && !a.status.errors
    ensures Good(a.status) ==>
              var p := Payload(a, crcForward);
              && |p| == |a.bytes| - (if crcForward then 6 else 2)
              && forall i | 0 <= i < |p| :: p[i] == a.bytes[i + 2]
  {
  }

  class RxRing {
    /** The buffers in existence, by address. */
    var memory: map<Address, seq<Byte>>
    const crcForward: bool

    // control blocks and descriptors
    const buffers: array<Address>
    const addresses: array<Address>
    const statuses: array<Status>

    // the driver's registers
    var cIndex: nat
    var readPtr: nat
    const cbPtr: nat := 0
    const endPtr: nat := TOTAL_DESC - 1

    // the device's registers
    var deviceProdIndex: nat
    var deviceConsIndex: nat
    var writePtr: nat

    // history: what came in, and how much of it the driver has taken
    ghost var arrived: seq<Arrival>
    ghost var taken: nat

    /** A ring whose every slot has a buffer. */
    constructor (newBuffers: seq<Address>, crcForward: bool)
      requires |newBuffers| == TOTAL_DESC && Distinct(newBuffers) && NULL !in newBuffers
      ensures Valid() && arrived == [] && taken == 0 && buffers[..] == newBuffers
      ensures this.crcForward == crcForward && fresh(buffers) && fresh(addresses) && fresh(statuses)
    {
      this.crcForward := crcForward;
      memory := map a | a in newBuffers :: Blank();
      buffers := new Address[TOTAL_DESC](i requires 0 <= i < TOTAL_DESC => newBuffers[i]);
      addresses := new Address[TOTAL_DESC](i requires 0 <= i < TOTAL_DESC => newBuffers[i]);
      statuses := new Status[TOTAL_DESC](_ => Status(0, false, false, false));
      cIndex, readPtr := 0, 0;
      deviceProdIndex, deviceConsIndex, writePtr := 0, 0, 0;
      arrived, taken := [], 0;
      new;
      assert buffers[..] == newBuffers;
      forall j | 0 <= j < TOTAL_DESC
        ensures HasBuffer(j)
      {
        assert newBuffers[j] in newBuffers;
      }
    }

    ghost predicate Shape() {
      && buffers.Length == addresses.Length == statuses.Length == TOTAL_DESC
      && buffers != addresses
    }

    ghost predicate Counters()
      reads this`cIndex, this`readPtr, this`deviceProdIndex, this`deviceConsIndex, this`writePtr, this`arrived,
            this`taken
    {
      && taken <= |arrived| <= taken + TOTAL_DESC
      && cIndex == deviceConsIndex == taken % INDEX_SPAN
      && deviceProdIndex == |arrived| % INDEX_SPAN
      && readPtr == Position(TOTAL_DESC, taken)
      && writePtr == Position(TOTAL_DESC, |arrived|)
      && forall k | 0 <= k < |arrived| :: Deliverable(arrived[k], crcForward)
    }

    /** Every slot has a buffer of its own, which the device knows; no other buffers
        exist. */
    ghost predicate Owned()
      requires Shape()
      reads this`memory, buffers, addresses
    {
      && (forall j | 0 <= j < TOTAL_DESC :: HasBuffer(j))
      && (forall i, j | 0 <= i < j < TOTAL_DESC :: buffers[i] != buffers[j])
      && (forall a | a in memory :: a in buffers[..])
    }

    ghost predicate HasBuffer(j: nat)
      requires Shape() && j < TOTAL_DESC
      reads this`memory, buffers, addresses
    {
      && buffers[j] != NULL && addresses[j] == buffers[j]
      && buffers[j] in memory && |memory[buffers[j]]| == RX_BUF_LENGTH
    }

    /** Frame k waits, as it came in, in its slot. */
    ghost predicate Waits(k: nat)
      requires Shape() && k < |arrived|
      reads this`memory, this`arrived, buffers, statuses
    {
      var slot := Position(TOTAL_DESC, k);
      && statuses[slot] == arrived[k].status
      && buffers[slot] in memory && arrived[k].bytes <= memory[buffers[slot]]
    }

    ghost predicate Waiting()
      requires Shape()
      reads this`memory, this`arrived, this`taken, buffers, statuses
    {
      forall k | taken <= k < |arrived| :: Waits(k)
    }

    ghost predicate Valid()
      reads this, buffers, addresses, statuses
    {
      Shape() && Counters() && Owned() && Waiting()
    }

    /** The difference of the indices is the number of frames that wait. */
    lemma HowManyWait()
      requires Counters()
      ensures (deviceProdIndex - deviceConsIndex) % 0x1_0000 == |arrived| - taken <= 256
      ensures cIndex == deviceConsIndex && readPtr < 256 && writePtr < 256
    {
      hide Position;
      BetweenIsDifference(taken, |arrived|);
    }

    /** A frame comes in; the device drops it if the driver has left it no slot. */
    method Arrive(frame: Arrival)
      requires Valid() && Deliverable(frame, crcForward)
      modifies this`memory, this`deviceProdIndex, this`writePtr, this`arrived, statuses
      ensures Valid()
      ensures arrived == if |old(arrived)| - taken == 256 then old(arrived) else old(arrived) + [frame]
    {
      hide RxRing.Counters, RxRing.Owned, RxRing.Waiting;
      HowManyWait();
      if (deviceProdIndex - deviceConsIndex) % INDEX_SPAN == TOTAL_DESC {
        return;
      }
      HasOne(writePtr);
      var address := addresses[writePtr];
      memory := memory[address := frame.bytes + memory[address][|frame.bytes|..]];
      statuses[writePtr] := frame.status;
      CountArrived(frame);
      StillOwned(old(writePtr));
      FramesWait(frame);
    }

    lemma HasOne(slot: nat)
      requires Shape() && Owned() && slot < TOTAL_DESC
      ensures HasBuffer(slot)
    {
    }

    /** The device's registers once a frame is in its buffer. */
    method CountArrived(frame: Arrival)
      requires Counters() && |arrived| - taken < TOTAL_DESC && Deliverable(frame, crcForward)
      modifies this`deviceProdIndex, this`writePtr, this`arrived
      ensures Counters() && arrived == old(arrived) + [frame]
    {
      hide Position, Deliverable;
      OneStep(TOTAL_DESC, |arrived|);
      writePtr := if writePtr == endPtr then cbPtr else writePtr + 1;
      deviceProdIndex := (deviceProdIndex + 1) % INDEX_SPAN;
      arrived := arrived + [frame];
    }

    /** Writing into a slot's buffer changes nothing about who owns what. */
    twostate lemma StillOwned(slot: nat)
      requires Shape() && old(Owned()) && slot < TOTAL_DESC && old(HasBuffer(slot))
      requires memory.Keys == old(memory).Keys && buffers[slot] in memory && |memory[buffers[slot]]| == RX_BUF_LENGTH
      requires forall a | a in memory && a != buffers[slot] :: memory[a] == old(memory)[a]
      requires forall j | 0 <= j < TOTAL_DESC :: buffers[j] == old(buffers[j]) && addresses[j] == old(addresses[j])
      ensures Owned()
    {
      forall j | 0 <= j < TOTAL_DESC
        ensures HasBuffer(j)
      {
        assert old(HasBuffer(j));
      }
      assert buffers[..] == old(buffers[..]);
    }

    /** The new frame waits in its slot, and the others still wait in theirs. */
    twostate lemma FramesWait(frame: Arrival)
      requires Shape() && old(Valid()) && arrived == old(arrived) + [frame] && taken == old(taken)
      requires |arrived| <= taken + TOTAL_DESC
      requires forall j | 0 <= j < TOTAL_DESC :: buffers[j] == old(buffers[j])
      requires var slot := old(writePtr);
               && slot < TOTAL_DESC && statuses[slot] == frame.status && buffers[slot] in memory
               && frame.bytes <= memory[buffers[slot]]
               && (forall j | 0 <= j < TOTAL_DESC && j != slot :: statuses[j] == old(statuses[j]))
               && memory.Keys == old(memory).Keys
               && forall a | a in memory && a != buffers[slot] :: memory[a] == old(memory)[a]
      ensures Waiting()
    {
      hide Position;
      var n := |old(arrived)|;
      forall k | taken <= k < |arrived|
        ensures Waits(k)
      {
        if k < n {
          assert old(Waits(k));
          OtherSlot(TOTAL_DESC, k, n);
          assert buffers[Position(TOTAL_DESC, k)] != buffers[old(writePtr)];
        }
      }
    }

    /** `rx_refill`: puts a new buffer on the ring and gives the caller the old one.
        `newBuffer` is the allocator's answer, NULL if there is no memory. */
    method RxRefill(slot: nat, newBuffer: Address) returns (rxBuffer: Address)
      requires Shape() && Owned() && slot < TOTAL_DESC && newBuffer !in memory
      modifies this`memory, buffers, addresses
      ensures newBuffer == NULL ==>
                && rxBuffer == NULL && memory == old(memory)
                && forall j | 0 <= j < TOTAL_DESC :: buffers[j] == old(buffers[j]) && addresses[j] == old(addresses[j])
      ensures newBuffer != NULL ==>
                && rxBuffer == old(buffers[slot]) && rxBuffer in memory
                && memory == old(memory)[newBuffer := Blank()]
                && buffers[slot] == addresses[slot] == newBuffer
                && forall j | 0 <= j < TOTAL_DESC && j != slot ::
                     buffers[j] == old(buffers[j]) && addresses[j] == old(addresses[j])
    {
      if newBuffer == NULL {
        return NULL;
      }
      assert HasBuffer(slot);
      memory := memory[newBuffer := Blank()];
      rxBuffer := buffers[slot];
      buffers[slot] := newBuffer;
      addresses[slot] := newBuffer;
    }

    /** `delete []` of a buffer, which must exist. */
    method Delete(buffer: Address)
      requires buffer in memory
      modifies this`memory
      ensures memory == old(memory) - {buffer}
    {
      memory := memory - {buffer};
    }

    /** Replacing a slot's buffer and deleting the old one keeps every slot's buffer its
        own, and the frames waiting in the other slots. */
    twostate lemma Replaced(slot: nat)
      requires Shape() && old(Owned()) && slot < TOTAL_DESC && buffers[slot] !in old(memory) && buffers[slot] != NULL
      requires addresses[slot] == buffers[slot]
      requires forall j | 0 <= j < TOTAL_DESC && j != slot ::
                 buffers[j] == old(buffers[j]) && addresses[j] == old(addresses[j])
      requires memory == old(memory)[buffers[slot] := Blank()] - {old(buffers[slot])}
      ensures Owned()
    {
      forall j | 0 <= j < TOTAL_DESC
        ensures HasBuffer(j)
      {
        assert old(HasBuffer(j)) && old(HasBuffer(slot));
        assert j != slot ==> old(buffers[j]) != old(buffers[slot]);
      }
      forall i, j | 0 <= i < j < TOTAL_DESC
        ensures buffers[i] != buffers[j]
      {
        assert old(HasBuffer(i)) && old(HasBuffer(j));
      }
      forall a | a in memory
        ensures a in buffers[..]
      {
        if a == buffers[slot] {
          assert buffers[..][slot] == a;
        } else {
          assert a in old(buffers[..]);
          var j :| 0 <= j < TOTAL_DESC && old(buffers[j]) == a;
          assert buffers[..][j] == a;
        }
      }
    }

    /** Without a new buffer nothing moves. */
    twostate lemma NotReplaced()
      requires Shape() && old(Owned()) && memory == old(memory)
      requires forall j | 0 <= j < TOTAL_DESC :: buffers[j] == old(buffers[j]) && addresses[j] == old(addresses[j])
      ensures Owned()
    {
      forall j | 0 <= j < TOTAL_DESC
        ensures HasBuffer(j)
      {
        assert old(HasBuffer(j));
      }
      assert buffers[..] == old(buffers[..]);
    }

    twostate lemma KeptWaiting()
      requires old(Valid()) && Shape() && arrived == old(arrived) && taken == old(taken)
      requires forall j | 0 <= j < TOTAL_DESC :: statuses[j] == old(statuses[j])
      requires Owned() && readPtr == old(readPtr)
      requires forall j | 0 <= j < TOTAL_DESC && j != readPtr :: buffers[j] == old(buffers[j])
      requires forall a | a in memory && a in old(memory) :: memory[a] == old(memory)[a]
      ensures forall k | taken < k < |arrived| :: Waits(k)
    {
      hide Position;
      forall k | taken < k < |arrived|
        ensures Waits(k)
      {
        OtherSlot(TOTAL_DESC, taken, k);
        assert old(Waits(k)) && HasBuffer(Position(TOTAL_DESC, k));
      }
    }

    /** The part of ReceiveFrame before `out`: takes the frame out of the next slot. */
    method TakeFrame(newBuffer: Address) returns (result: Option<seq<Byte>>)
      requires Valid() && newBuffer !in memory && taken < |arrived|
      modifies this`memory, buffers, addresses
      ensures Owned()
      ensures forall k | taken < k < |arrived| :: Waits(k)
      ensures result == if newBuffer != NULL && Good(arrived[taken].status)
                        then Some(Payload(arrived[taken], crcForward)) else None
    {
      hide Position, Good;
      assert Waits(taken);
      var rxBuffer := RxRefill(readPtr, newBuffer);
      if newBuffer == NULL {
        NotReplaced();
        KeptWaiting();
        return None;
      }
      var status, bytes := statuses[readPtr], memory[rxBuffer];
      ghost var frame := arrived[taken].bytes;
      assert bytes[..|frame|] == frame;
      assert Good(status) ==>
        bytes[LEADING_PAD..status.length - if crcForward then ETH_FCS_LEN else 0]
        == bytes[..|frame|][LEADING_PAD..|frame| - if crcForward then ETH_FCS_LEN else 0];
      Delete(rxBuffer);
      Replaced(readPtr);
      KeptWaiting();
      result := if Good(status) then Some(bytes[LEADING_PAD..status.length - if crcForward then ETH_FCS_LEN else 0])
        else None;
    }

    /** The next frame, if one waits, its status is good and there is memory; a frame
        that is not delivered is gone all the same. */
    method ReceiveFrame(newBuffer: Address) returns (result: Option<seq<Byte>>)
      requires Valid() && newBuffer !in memory
      modifies this`memory, this`cIndex, this`readPtr, this`deviceConsIndex, this`taken, buffers, addresses
      ensures Valid()
      ensures taken == if old(taken) < |arrived| then old(taken) + 1 else old(taken)
      ensures result == if old(taken) < |arrived| && newBuffer != NULL && Good(arrived[old(taken)].status)
                        then Some(Payload(arrived[old(taken)], crcForward)) else None
    {
      hide Position, Payload, Good, RxRing.Owned, RxRing.Counters, RxRing.Waits;
      HowManyWait();
      result := None;
      var waiting := (deviceProdIndex - cIndex) % INDEX_SPAN;
      if waiting > 0 {
        result := TakeFrame(newBuffer);
        CountTaken();
      }
    }

    /** The driver's registers once a frame is taken. */
    method CountTaken()
      requires Counters() && taken < |arrived|
      modifies this`readPtr, this`cIndex, this`deviceConsIndex, this`taken
      ensures Counters() && taken == old(taken) + 1
    {
      hide Position, Deliverable;
      OneStep(TOTAL_DESC, taken);
      if readPtr < endPtr {
        readPtr := readPtr + 1;
      } else {
        readPtr := cbPtr;
      }
      cIndex := (cIndex + 1) % INDEX_SPAN;
      deviceConsIndex := cIndex;
      taken := taken + 1;
    }
  }

  /** `init_rx_ring`: fails if one of the allocator's answers is NULL. */
  method InitRxRing(newBuffers: seq<Address>, crcForward: bool) returns (ring: RxRing?)
    requires |newBuffers| == TOTAL_DESC
    requires forall i, j | 0 <= i < j < TOTAL_DESC && newBuffers[i] != NULL :: newBuffers[i] != newBuffers[j]
    ensures ring == null <==> NULL in newBuffers
    ensures ring != null ==>
              && fresh(ring) && ring.Valid() && ring.arrived == [] && ring.taken == 0
              && ring.buffers[..] == newBuffers && ring.crcForward == crcForward
  {
    for i := 0 to TOTAL_DESC
      invariant NULL !in newBuffers[..i]
    {
      if newBuffers[i] == NULL {
        return null;
      }
      assert newBuffers[..i + 1] == newBuffers[..i] + [newBuffers[i]];
    }
    assert newBuffers[..TOTAL_DESC] == newBuffers;
    ring := new RxRing(newBuffers, crcForward);
  }

  function Blank(): (r: seq<Byte>)
    ensures |r| == RX_BUF_LENGTH
  {
    seq(RX_BUF_LENGTH, _ => 0)
  }
}
