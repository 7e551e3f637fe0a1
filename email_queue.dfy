/**
 * The broker side of `email_queue` as the producer and the consumer use it
 * through their channels: declaring the queue, publishing to it through the
 * default exchange, the prefetch window, deliveries with their delivery tags,
 * and acknowledgements.
 *
 * Ready messages form a FIFO sequence of bodies. The consumer's channel is
 * the only consumer, so every delivery goes to it, numbered from 1 in
 * delivery order.
 */
module EmailQueue {

  const QueueName: string := "email_queue"

  /** A message handed to the consumer, with the tag it must acknowledge it by. */
  datatype Delivery = Delivery(tag: nat, body: string)

  /**
   * `declared`: whether `queue_declare` has created the queue; `ready`: the
   * messages waiting in it, oldest first; `unacked`: delivered to the consumer
   * and not yet acknowledged; `acked`: the tags acknowledged so far, in order;
   * `prefetch`: the consumer channel's `prefetch_count` (0 means no limit);
   * `nextTag`: the tag the next delivery gets.
   */
  datatype QueueState = QueueState(
    declared: bool,
    ready: seq<string>,
    unacked: seq<Delivery>,
    acked: seq<nat>,
    prefetch: nat,
    nextTag: nat)

  /** Nothing declared, nothing delivered, delivery tags starting at 1. */
  const Initial: QueueState := QueueState(false, [], [], [], 0, 1)

  predicate WellFormed(q: QueueState) {
    && (!q.declared ==> q.ready == [] && q.unacked == [])
    && q.nextTag >= 1
  }

  /** `queue_declare(queue='email_queue')`: creates the queue if it is missing; nothing else changes. */
  function Declare(q: QueueState): (r: QueueState)
    ensures r.declared && r.(declared := q.declared) == q
    ensures q.declared ==> r == q
    ensures WellFormed(q) ==> WellFormed(r)
  {
    q.(declared := true)
  }

  /** `basic_qos(prefetch_count=n)` */
  function Qos(q: QueueState, n: nat): (r: QueueState)
    ensures r.prefetch == n && r.(prefetch := q.prefetch) == q
    ensures WellFormed(q) ==> WellFormed(r)
  {
    q.(prefetch := n)
  }

  /**
   * `basic_publish(exchange='', routing_key='email_queue', body=...)`: the
   * default exchange routes to the queue of that name and drops the message
   * when no such queue has been declared.
   */
  function Publish(q: QueueState, body: string): (r: QueueState)
    ensures q.declared ==> r.ready == q.ready + [body] && r.(ready := q.ready) == q
    ensures !q.declared ==> r == q
    ensures WellFormed(q) ==> WellFormed(r)
  {
    if q.declared then q.(ready := q.ready + [body]) else q
  }

  /** The broker may push a message: one is ready and the prefetch window has room. */
  predicate CanDeliver(q: QueueState) {
    q.ready != [] && (q.prefetch == 0 || |q.unacked| < q.prefetch)
  }

  /** The broker pushes the oldest ready message to the consumer with the next tag. */
  function Push(q: QueueState): (r: (Delivery, QueueState))
    requires CanDeliver(q)
    ensures r.0 == Delivery(q.nextTag, q.ready[0])
    ensures r.1.ready == q.ready[1..] && r.1.unacked == q.unacked + [r.0] && r.1.nextTag == q.nextTag + 1
    ensures r.1.declared == q.declared && r.1.acked == q.acked && r.1.prefetch == q.prefetch
    ensures WellFormed(q) ==> WellFormed(r.1)
  {
    var d := Delivery(q.nextTag, q.ready[0]);
    (d, q.(ready := q.ready[1..], unacked := q.unacked + [d], nextTag := q.nextTag + 1))
  }

  /** Whether `tag` names a delivery still awaiting acknowledgement. */
  predicate Outstanding(q: QueueState, tag: nat) {
    exists i :: 0 <= i < |q.unacked| && q.unacked[i].tag == tag
  }

  /** The deliveries still awaiting acknowledgement once `tag` is acknowledged. */
  function Without(ds: seq<Delivery>, tag: nat): (r: seq<Delivery>)
    ensures forall d :: d in r <==> d in ds && d.tag != tag
    ensures |r| <= |ds|
    ensures (exists i :: 0 <= i < |ds| && ds[i].tag == tag) ==> |r| < |ds|
  {
    if ds == [] then []
    else if ds[0].tag == tag then Without(ds[1..], tag)
    else
      assert (exists i :: 0 <= i < |ds| && ds[i].tag == tag) ==> exists i :: 0 <= i < |ds[1..]| && ds[1..][i].tag == tag by {
        if exists i :: 0 <= i < |ds| && ds[i].tag == tag {
          var i :| 0 <= i < |ds| && ds[i].tag == tag;
          assert ds[1..][i - 1].tag == tag;
        }
      }
      [ds[0]] + Without(ds[1..], tag)
  }

  /** `basic_ack(delivery_tag=tag)`: the tag must name an outstanding delivery. */
  function Ack(q: QueueState, tag: nat): (r: QueueState)
    requires Outstanding(q, tag)
    ensures r.acked == q.acked + [tag] && |r.unacked| < |q.unacked|
    ensures forall d :: d in r.unacked <==> d in q.unacked && d.tag != tag
    ensures r.(acked := q.acked, unacked := q.unacked) == q
    ensures WellFormed(q) ==> WellFormed(r)
  {
    q.(acked := q.acked + [tag], unacked := Without(q.unacked, tag))
  }

  /** Declaring twice is the same as declaring once. */
  lemma DeclareIdempotent(q: QueueState)
    ensures Declare(Declare(q)) == Declare(q)
  {
  }

  /** Publishing right after declaring always enqueues the body at the tail. */
  lemma PublishAfterDeclare(q: QueueState, body: string)
    ensures Publish(Declare(q), body).ready == q.ready + [body]
  {
  }

  /** With prefetch 1, a second message cannot be delivered before the first is acknowledged. */
  lemma PrefetchOneHoldsOneMessage(q: QueueState)
    requires q.prefetch == 1 && CanDeliver(q)
    ensures |Push(q).1.unacked| == 1 && !CanDeliver(Push(q).1)
  {
  }

  /** The email_queue on the broker, changed in place by the channel operations. */
  class Broker {
    var q: QueueState

    ghost predicate Valid()
      reads this
    {
      WellFormed(q)
    }

    constructor ()
      ensures Valid() && q == Initial
    {
      q := Initial;
    }

    method QueueDeclare()
      requires Valid()
      modifies this
      ensures Valid() && q == Declare(old(q))
    {
      q := q.(declared := true);
    }

    method BasicQos(n: nat)
      requires Valid()
      modifies this
      ensures Valid() && q == Qos(old(q), n)
    {
      q := q.(prefetch := n);
    }

    method BasicPublish(body: string)
      requires Valid()
      modifies this
      ensures Valid() && q == Publish(old(q), body)
    {
      if q.declared {
        q := q.(ready := q.ready + [body]);
      }
    }

    method Deliver() returns (d: Delivery)
      requires Valid() && CanDeliver(q)
      modifies this
      ensures Valid() && (d, q) == Push(old(q))
    {
      d := Delivery(q.nextTag, q.ready[0]);
      q := q.(ready := q.ready[1..], unacked := q.unacked + [d], nextTag := q.nextTag + 1);
    }

    method BasicAck(tag: nat)
      requires Valid() && Outstanding(q, tag)
      modifies this
      ensures Valid() && q == Ack(old(q), tag)
    {
      q := Ack(q, tag);
    }
  }
}
