/** The consumer as an object: the code of the receiving threads and of
    `getEvent`, cut at the points where another thread can come in between. Each
    method is one atomic step of the ring. */
module ServerConsumer {
  import opened ConsumerRing

  class ServerConsumer {
    var sources: map<nat, Source>
    var queue: seq<Ref>
    var queueSize: int
    var user: User

    ghost function State(): Ring
      reads this
    {
      Ring(sources, queue, queueSize, user)
    }

    ghost predicate Valid()
      reads this
    {
      Inv(State())
    }

    constructor (ids: set<nat>)
      ensures Valid() && State() == Start(ids)
    {
      sources := map src | src in ids :: Source(seq(VECTOR_SIZE, _ => EMPTY_ITEM), 0, Filling);
      queue, queueSize, user := [], 0, Outside;
      new;
      StartInv(ids);
    }

    /** Reassembly writes into the buffer of the thread's current slot, event
        bytes at a time; the slot's other fields still describe its last event. */
    method WriteBuffer(srcId: nat, event: seq<int>)
      requires Valid() && At(State(), srcId, Filling)
      modifies this
      ensures var s := old(sources)[srcId];
              && s.current < |s.slots|
              && State() == Step(old(State()), Assign(srcId, s.slots[s.current].(event := event)))
      ensures Valid()
    {
      hide Owned, Pushing;
      SlotCount(State(), srcId);
      var s := sources[srcId];
      var item := s.slots[s.current].(event := event);
      StepKeepsInv(State(), Assign(srcId, item));
      sources := sources[srcId := s.(slots := s.slots[s.current := item])];
    }

    /** The assignments that complete the thread's current slot. */
    method StoreItem(srcId: nat, dataBuf: seq<int>, bufSize: nat, nBytes: nat, tick: nat)
      requires Valid() && At(State(), srcId, Filling)
      modifies this
      ensures Valid()
      ensures State() == Step(old(State()), Fill(srcId, QItem(srcId, tick, bufSize, nBytes, dataBuf)))
    {
      hide Owned, Pushing;
      var item := QItem(srcId, tick, bufSize, nBytes, dataBuf);
      SlotCount(State(), srcId);
      StepKeepsInv(State(), Fill(srcId, item));
      var s := sources[srcId];
      sources := sources[srcId := s.(slots := s.slots[s.current := item], phase := Filled)];
    }

    /** `queue->push`; on success the thread moves on to its next slot, otherwise
        it keeps the slot and drops the event. */
    method PushItem(srcId: nat) returns (ok: bool)
      requires Valid() && At(State(), srcId, Filled)
      modifies this
      ensures Valid() && State() == Step(old(State()), Push(srcId))
      ensures ok <==> RingShows(old(State()), Push(srcId)) == Accepted
    {
      hide Owned, Pushing;
      StepKeepsInv(State(), Push(srcId));
      var s := sources[srcId];
      ok := |queue| < QSIZE;
      if ok {
        queue := queue + [Ref(srcId, s.current)];
        sources := sources[srcId := s.(current := (s.current + 1) % VECTOR_SIZE, phase := Pushed)];
      } else {
        sources := sources[srcId := s.(phase := Filling)];
      }
    }

    method CountItem(srcId: nat)
      requires Valid() && At(State(), srcId, Pushed)
      modifies this
      ensures Valid() && State() == Step(old(State()), Count(srcId))
    {
      hide Owned, Pushing;
      StepKeepsInv(State(), Count(srcId));
      sources := sources[srcId := sources[srcId].(phase := Filling)];
      queueSize := queueSize + 1;
    }

    /** The first half of `getEvent`: false when the queue is empty. */
    method PopItem() returns (ok: bool)
      requires Valid() && user.Outside?
      modifies this
      ensures Valid() && State() == Step(old(State()), Pop)
      ensures ok <==> old(queue) != []
      ensures ok ==> user == Popped(old(queue)[0])
    {
      hide Owned, Pushing;
      StepKeepsInv(State(), Pop);
      ok := queue != [];
      if ok {
        user := Popped(queue[0]);
        queue := queue[1..];
      }
    }

    /** The second half of `getEvent`: counts down and reads the popped slot. The
        size passed back is that of the slot's buffer. */
    method ReadItem() returns (event: seq<int>, bytes: nat, eventNum: nat, srcId: nat)
      requires Valid() && user.Popped?
      modifies this
      ensures Valid() && State() == Step(old(State()), Uncount)
      ensures RingShows(old(State()), Uncount) == Took(Item(old(State()), old(user).ref))
      ensures var item := Item(old(State()), old(user).ref);
              event == item.event && bytes == item.bufBytes && eventNum == item.tick && srcId == item.srcId
    {
      hide Owned, Pushing;
      StepKeepsInv(State(), Uncount);
      var item := Item(Ring(sources, queue, queueSize, user), user.ref);
      queueSize := queueSize - 1;
      user := Outside;
      event, bytes, eventNum, srcId := item.event, item.bufBytes, item.tick, item.srcId;
    }
  }
}
