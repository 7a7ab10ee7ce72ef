/** The producer as an object: `addToSendQueue`, cut before its push, and the
    turns of the sending thread. */
module ServerProducer {
  import opened ProducerRing

  class ServerProducer {
    var qItemArray: seq<QItem>
    var currentQItem: nat
    var queue: seq<nat>
    var adding: bool
    var sender: Sender

    ghost function State(): Ring
      reads this
    {
      Ring(qItemArray, currentQItem, queue, adding, sender)
    }

    ghost predicate Valid()
      reads this
    {
      Inv(State())
    }

    constructor (items: seq<QItem>)
      requires |items| == ARRAYSIZE
      ensures Valid() && State() == Start(items)
    {
      qItemArray, currentQItem, queue, adding, sender := items, 0, [], false, Idle;
    }

    /** `addToSendQueue` up to its push. The item keeps 32 bits of the size. */
    method BeginAdd(event: seq<int>, bytes: nat, eventNumber: nat, callback: nat, cbArg: nat)
      requires Valid() && !adding
      modifies this
      ensures Valid()
      ensures State() == Step(old(State()), Write(QItem(bytes % 0x1_0000_0000, eventNumber, event, callback, cbArg)))
    {
      ghost var a := Write(QItem(bytes % 0x1_0000_0000, eventNumber, event, callback, cbArg));
      StepKeepsInv(State(), a);
      qItemArray := qItemArray[currentQItem := QItem(bytes % 0x1_0000_0000, eventNumber, event, callback, cbArg)];
      adding := true;
    }

    /** The push of `addToSendQueue` and its answer. */
    method FinishAdd() returns (ok: bool)
      requires Valid() && adding
      modifies this
      ensures Valid() && State() == Step(old(State()), Enqueue)
      ensures RingShows(old(State()), Enqueue) == Added(ok)
    {
      StepKeepsInv(State(), Enqueue);
      ok := |queue| < QSIZE;
      if ok {
        queue := queue + [currentQItem];
        currentQItem := (currentQItem + 1) % ARRAYSIZE;
      }
      adding := false;
    }

    method PopItem() returns (ok: bool)
      requires Valid() && sender.Idle?
      modifies this
      ensures Valid() && State() == Step(old(State()), Take)
      ensures ok <==> old(queue) != []
    {
      StepKeepsInv(State(), Take);
      ok := queue != [];
      if ok {
        sender, queue := Taken(queue[0]), queue[1..];
      }
    }

    method SendItem() returns (event: seq<int>, bytes: nat, eventNumber: nat)
      requires Valid() && sender.Taken?
      modifies this
      ensures Valid() && State() == Step(old(State()), Transmit)
      ensures RingShows(old(State()), Transmit) == Data(event, bytes, eventNumber)
      ensures old(sender).slot < |old(qItemArray)|
      ensures var item := old(qItemArray[sender.slot]);
              event == item.event && bytes == item.bytes && eventNumber == item.tick
    {
      StepKeepsInv(State(), Transmit);
      var item := qItemArray[sender.slot];
      event, bytes, eventNumber := item.event, item.bytes, item.tick;
      sender := Sent(sender.slot);
    }

    /** The callback to run, 0 standing for none. */
    method Finish() returns (callback: nat, cbArg: nat)
      requires Valid() && sender.Sent?
      modifies this
      ensures Valid() && State() == Step(old(State()), RunCallback)
      ensures RingShows(old(State()), RunCallback) == if callback == 0 then Nothing else Called(callback, cbArg)
      ensures old(sender).slot < |old(qItemArray)|
      ensures callback == old(qItemArray[sender.slot]).callback && cbArg == old(qItemArray[sender.slot]).cbArg
    {
      StepKeepsInv(State(), RunCallback);
      var item := qItemArray[sender.slot];
      callback, cbArg := item.callback, item.cbArg;
      sender := Idle;
    }
  }
}
