/** The gateway's bounded FIFO topics. */
module Bus {
  import opened Bytes

  /** A capacity of zero means no limit. */
  predicate HasRoom<T>(queue: seq<T>, capacity: nat) {
    capacity == 0 || |queue| < capacity
  }

  class GatewayBus<T> {
    const queueSize: nat
    var topics: map<string, seq<T>>

    constructor (queueSize: nat)
      ensures this.queueSize == queueSize
      ensures topics.Keys == {"requests", "responses", "events", "management"}
      ensures forall name :: Queue(name) == []
    {
      this.queueSize := queueSize;
      topics := map["requests" := [], "responses" := [], "events" := [], "management" := []];
    }

    /** A topic that was never used is empty. */
    function Queue(name: string): seq<T>
      reads this
    {
      if name in topics then topics[name] else []
    }

    /** Puts the message if there is room; otherwise the publisher has to wait and try again. */
    method Publish(topic: string, message: T) returns (accepted: bool)
      modifies this
      ensures accepted == HasRoom(old(Queue(topic)), queueSize)
      ensures accepted <==> (queueSize > 0 ==> |old(Queue(topic))| < queueSize)
      ensures Queue(topic) == if accepted then old(Queue(topic)) + [message] else old(Queue(topic))
      ensures forall name | name != topic :: Queue(name) == old(Queue(name))
    {
      if topic !in topics {
        topics := topics[topic := []];
      }
      accepted := queueSize == 0 || |topics[topic]| < queueSize;
      if accepted {
        topics := topics[topic := topics[topic] + [message]];
      }
    }

    /** Takes the oldest message, or None when the consumer has to wait. */
    method Get(topic: string) returns (message: Option<T>)
      modifies this
      ensures old(Queue(topic)) == [] ==> message == None && Queue(topic) == []
      ensures old(Queue(topic)) != [] ==>
                message == Some(old(Queue(topic))[0]) && Queue(topic) == old(Queue(topic))[1..]
      ensures forall name | name != topic :: Queue(name) == old(Queue(name))
    {
      if topic !in topics {
        topics := topics[topic := []];
      }
      if topics[topic] == [] {
        return None;
      }
      message := Some(topics[topic][0]);
      topics := topics[topic := topics[topic][1..]];
    }
  }
}
