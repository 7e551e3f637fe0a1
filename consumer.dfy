/**
 * The consumer of `email_queue`: for each delivered message it reads the
 * contact id from the body, looks the contact up, "sends" the email, marks
 * the contact as sent, and acknowledges the delivery.
 *
 * As written, the callback does not look at `is_sent` before sending, so a
 * redelivered message sends the email again, and it acknowledges whether or
 * not a contact was found. A body that is not an ObjectId string makes the
 * id lookup raise, so that delivery is never acknowledged and the exception
 * ends the consuming loop.
 */
module Consumer {
  import opened Wrappers
  import opened ObjectIds
  import opened Contacts
  import opened EmailQueue

  /** The `prefetch_count` the consumer asks for. */
  const PrefetchCount: nat := 1

  /** `send_email`: prints a line and reports success, for every contact. */
  function SendEmail(c: Contact): (ok: bool)
    ensures ok
  {
    true
  }

  /**
   * The result of one callback: the contact table afterwards, the contact the
   * email was sent to (if any), and whether the delivery was acknowledged
   * (false exactly when the callback raised).
   */
  datatype Effect = Effect(table: seq<Contact>, emailed: Option<Contact>, acked: bool)

  /** `callback(ch, method, properties, body)` as a function of the stored contacts and the body. */
  function HandleMessage(table: seq<Contact>, body: string): (e: Effect)
    ensures |e.table| == |table|
  {
    match ParseObjectId(body)
    case None => Effect(table, None, false)
    case Some(id) =>
      match FindById(table, id)
      case None => Effect(table, None, true)
      case Some(c) =>
        if SendEmail(c) then Effect(MarkSent(table, id), Some(c), true)
        else Effect(table, Some(c), true)
  }

  /** The delivery is acknowledged exactly when the body is an ObjectId string, found or not. */
  lemma HandleAcksWellFormedBodies(table: seq<Contact>, body: string)
    ensures HandleMessage(table, body).acked <==> ParseObjectId(body).Some?
    ensures !HandleMessage(table, body).acked ==> HandleMessage(table, body) == Effect(table, None, false)
  {
  }

  /**
   * A body that reads as an id no contact has, whatever the case of its hex
   * digits: nothing is sent, nothing changes, and the delivery is still
   * acknowledged.
   */
  lemma HandleUnknownId(table: seq<Contact>, body: string, id: ObjectId)
    requires ParseObjectId(body) == Some(id)
    requires forall j :: 0 <= j < |table| ==> table[j].id != id
    ensures HandleMessage(table, body) == Effect(table, None, true)
  {
  }

  /**
   * A body naming a stored contact: the email goes to that contact, its
   * `is_sent` becomes true, its name and email stay, and every other contact
   * is unchanged.
   */
  lemma HandleKnownId(table: seq<Contact>, body: string, i: nat)
    requires TableValid(table) && i < |table|
    requires ParseObjectId(body) == Some(table[i].id)
    ensures var e := HandleMessage(table, body);
      && e.acked
      && e.emailed == Some(table[i])
      && e.table == table[i := AsSent(table[i])]
      && TableValid(e.table)
  {
    var e := HandleMessage(table, body);
    forall j | 0 <= j < |table| ensures e.table[j] == table[i := AsSent(table[i])][j] {
    }
  }

  /**
   * Handling the same message a second time leaves the table as the first
   * time left it, yet sends the email again: `is_sent` is not consulted.
   */
  lemma HandleTwice(table: seq<Contact>, body: string)
    requires TableValid(table)
    ensures var once := HandleMessage(table, body);
      var twice := HandleMessage(once.table, body);
      && twice.table == once.table
      && twice.acked == once.acked
      && twice.emailed.Some? == once.emailed.Some?
  {
    var once := HandleMessage(table, body);
    match ParseObjectId(body)
    case None =>
    case Some(id) =>
      match IndexOfId(table, id)
      case None =>
      case Some(i) =>
        HandleKnownId(table, body, i);
        HandleKnownId(once.table, body, i);
        assert once.table[i := AsSent(once.table[i])] == once.table;
  }

  /** The run of the consuming loop over a sequence of message bodies. */
  datatype Run = Run(table: seq<Contact>, emailed: seq<Contact>, handled: nat, crashed: bool)

  function OptionToSeq(o: Option<Contact>): seq<Contact> {
    match o
    case None => []
    case Some(c) => [c]
  }

  /**
   * Messages handled one at a time in delivery order until the queue is empty
   * or a callback raises; `handled` counts the acknowledged ones.
   */
  function ConsumeAll(table: seq<Contact>, bodies: seq<string>): (r: Run)
    ensures |r.table| == |table|
    ensures r.handled <= |bodies|
    ensures !r.crashed ==> r.handled == |bodies|
    ensures r.crashed ==> r.handled < |bodies| && ParseObjectId(bodies[r.handled]).None?
    ensures forall k :: 0 <= k < r.handled ==> ParseObjectId(bodies[k]).Some?
    decreases |bodies|
  {
    if bodies == [] then Run(table, [], 0, false)
    else
      var e := HandleMessage(table, bodies[0]);
      if !e.acked then Run(table, [], 0, true)
      else
        var rest := ConsumeAll(e.table, bodies[1..]);
        Run(rest.table, OptionToSeq(e.emailed) + rest.emailed, rest.handled + 1, rest.crashed)
  }

  /** The loop keeps the table valid and never changes an id, a name or an email. */
  lemma {:induction false} ConsumeAllFrame(table: seq<Contact>, bodies: seq<string>)
    requires TableValid(table)
    ensures var r := ConsumeAll(table, bodies);
      && TableValid(r.table)
      && forall i :: 0 <= i < |table| ==>
           r.table[i].id == table[i].id && r.table[i].name == table[i].name && r.table[i].email == table[i].email
    decreases |bodies|
  {
    if bodies != [] {
      var e := HandleMessage(table, bodies[0]);
      if e.acked {
        ConsumeAllFrame(e.table, bodies[1..]);
      }
    }
  }

  /** `is_sent` is never set back to false: the callback only ever assigns true. */
  lemma {:induction false} ConsumeAllNeverClearsSent(table: seq<Contact>, bodies: seq<string>, i: nat)
    requires i < |table| && table[i].isSent
    ensures ConsumeAll(table, bodies).table[i].isSent
    decreases |bodies|
  {
    if bodies != [] {
      var e := HandleMessage(table, bodies[0]);
      if e.acked {
        ConsumeAllNeverClearsSent(e.table, bodies[1..], i);
      }
    }
  }

  /** A contact named by the first message, when that message is acknowledged, ends marked sent. */
  lemma ConsumeAllMarksFirstNamed(table: seq<Contact>, bodies: seq<string>, i: nat)
    requires TableValid(table) && bodies != [] && i < |table|
    requires ParseObjectId(bodies[0]) == Some(table[i].id)
    ensures ConsumeAll(table, bodies).table[i].isSent
  {
    var e := HandleMessage(table, bodies[0]);
    HandleKnownId(table, bodies[0], i);
    ConsumeAllNeverClearsSent(e.table, bodies[1..], i);
    assert ConsumeAll(table, bodies).table == ConsumeAll(e.table, bodies[1..]).table;
  }

  /** After the loop, every stored contact named by an acknowledged message is marked sent. */
  lemma {:induction false} ConsumeAllMarksNamedContacts(table: seq<Contact>, bodies: seq<string>, k: nat, i: nat)
    requires TableValid(table)
    requires k < ConsumeAll(table, bodies).handled && i < |table|
    requires ParseObjectId(bodies[k]) == Some(table[i].id)
    ensures ConsumeAll(table, bodies).table[i].isSent
    decreases |bodies|
  {
    if k == 0 {
      ConsumeAllMarksFirstNamed(table, bodies, i);
    } else {
      var e := HandleMessage(table, bodies[0]);
      assert e.acked;
      var rest := ConsumeAll(e.table, bodies[1..]);
      assert ConsumeAll(table, bodies).table == rest.table;
      HandleStepFrame(table, bodies[0]);
      assert k - 1 < rest.handled && bodies[1..][k - 1] == bodies[k];
      ConsumeAllMarksNamedContacts(e.table, bodies[1..], k - 1, i);
    }
  }

  /** One acknowledged step keeps the table valid and the ids in place. */
  lemma HandleStepFrame(table: seq<Contact>, body: string)
    requires TableValid(table)
    ensures var e := HandleMessage(table, body);
      TableValid(e.table) && forall j :: 0 <= j < |table| ==> e.table[j].id == table[j].id
  {
  }

  /**
   * A contact whose id no message names keeps its `is_sent` value, so the
   * loop changes only the contacts it was told about.
   */
  lemma {:induction false} ConsumeAllLeavesOthers(table: seq<Contact>, bodies: seq<string>, i: nat)
    requires TableValid(table) && i < |table|
    requires forall k :: 0 <= k < |bodies| ==> ParseObjectId(bodies[k]) != Some(table[i].id)
    ensures ConsumeAll(table, bodies).table[i] == table[i]
    decreases |bodies|
  {
    if bodies != [] {
      var e := HandleMessage(table, bodies[0]);
      if e.acked {
        assert e.table[i] == table[i];
        HandleStepFrame(table, bodies[0]);
        ConsumeAllLeavesOthers(e.table, bodies[1..], i);
      }
    }
  }

  /** A contact already marked sent leaves the loop exactly as it entered it. */
  lemma ConsumeAllKeepsSent(table: seq<Contact>, bodies: seq<string>, i: nat)
    requires TableValid(table) && i < |table| && table[i].isSent
    ensures ConsumeAll(table, bodies).table[i] == table[i]
  {
    ConsumeAllNeverClearsSent(table, bodies, i);
    ConsumeAllFrame(table, bodies);
    var c := ConsumeAll(table, bodies).table[i];
    assert c == Contact(table[i].id, table[i].name, table[i].email, true);
  }

  /** The messages name distinct stored contacts, one each, in order. */
  predicate NamesDistinct(table: seq<Contact>, bodies: seq<string>, idx: seq<nat>) {
    && |idx| == |bodies|
    && (forall k :: 0 <= k < |idx| ==> idx[k] < |table| && ParseObjectId(bodies[k]) == Some(table[idx[k]].id))
    && (forall k, m :: 0 <= k < m < |idx| ==> idx[k] != idx[m])
  }

  /** Handling the first such message emails its contact and leaves the others for the rest. */
  lemma DeliverHead(table: seq<Contact>, bodies: seq<string>, idx: seq<nat>)
    requires TableValid(table) && bodies != [] && NamesDistinct(table, bodies, idx)
    ensures var e := HandleMessage(table, bodies[0]);
      && e.acked
      && e.emailed == Some(table[idx[0]])
      && TableValid(e.table)
      && e.table[idx[0]] == AsSent(table[idx[0]])
      && NamesDistinct(e.table, bodies[1..], idx[1..])
      && forall k :: 0 <= k < |idx[1..]| ==> e.table[idx[1..][k]] == table[idx[1..][k]]
  {
    HandleKnownId(table, bodies[0], idx[0]);
    HandleStepFrame(table, bodies[0]);
    var e := HandleMessage(table, bodies[0]);
    forall k | 0 <= k < |idx[1..]|
      ensures e.table[idx[1..][k]] == table[idx[1..][k]]
    {
      assert idx[1..][k] == idx[k + 1] != idx[0];
    }
  }

  /**
   * Messages naming distinct stored contacts, one each: every message is
   * acknowledged and each named contact is emailed once, in message order,
   * as it was stored.
   */
  lemma {:induction false} ConsumeAllEmailsEach(table: seq<Contact>, bodies: seq<string>, idx: seq<nat>)
    requires TableValid(table) && NamesDistinct(table, bodies, idx)
    ensures var r := ConsumeAll(table, bodies);
      && !r.crashed
      && |r.emailed| == |idx|
      && (forall k :: 0 <= k < |idx| ==> r.emailed[k] == table[idx[k]])
    decreases |bodies|
  {
    if bodies != [] {
      DeliverHead(table, bodies, idx);
      var e := HandleMessage(table, bodies[0]);
      ConsumeAllEmailsEach(e.table, bodies[1..], idx[1..]);
      var r := ConsumeAll(table, bodies);
      var rest := ConsumeAll(e.table, bodies[1..]);
      assert r.emailed == [table[idx[0]]] + rest.emailed;
      forall k | 1 <= k < |idx|
        ensures r.emailed[k] == table[idx[k]]
      {
        var j := idx[1..][k - 1];
        assert idx[k] == j && e.table[j] == table[j];
        assert r.emailed[k] == rest.emailed[k - 1];
      }
    }
  }

  /** Under the same conditions, each named contact ends marked sent and otherwise as stored. */
  lemma {:induction false} ConsumeAllMarksEach(table: seq<Contact>, bodies: seq<string>, idx: seq<nat>)
    requires TableValid(table) && NamesDistinct(table, bodies, idx)
    ensures var r := ConsumeAll(table, bodies);
      forall k :: 0 <= k < |idx| ==> r.table[idx[k]] == AsSent(table[idx[k]])
    decreases |bodies|
  {
    if bodies != [] {
      DeliverHead(table, bodies, idx);
      var e := HandleMessage(table, bodies[0]);
      ConsumeAllMarksEach(e.table, bodies[1..], idx[1..]);
      ConsumeAllKeepsSent(e.table, bodies[1..], idx[0]);
      var r := ConsumeAll(table, bodies);
      var rest := ConsumeAll(e.table, bodies[1..]);
      assert r.table == rest.table;
      forall k | 1 <= k < |idx|
        ensures r.table[idx[k]] == AsSent(table[idx[k]])
      {
        var j := idx[1..][k - 1];
        assert idx[k] == j && e.table[j] == table[j];
        assert rest.table[j] == AsSent(e.table[j]);
      }
    }
  }

  /**
   * A redelivered message sends the email a second time, while the table ends
   * as after a single delivery.
   */
  lemma RedeliverySendsAgain(table: seq<Contact>, i: nat)
    requires TableValid(table) && i < |table|
    ensures var body := IdString(table[i].id);
      var once := ConsumeAll(table, [body]);
      var twice := ConsumeAll(table, [body, body]);
      && |once.emailed| == 1
      && |twice.emailed| == 2
      && twice.table == once.table
      && twice.handled == 2
  {
    var body := IdString(table[i].id);
    var e := HandleMessage(table, body);
    ParseIdString(table[i].id);
    HandleKnownId(table, body, i);
    HandleTwice(table, body);
    assert [body, body][1..] == [body];
    assert ConsumeAll(e.table, [body]).emailed == OptionToSeq(HandleMessage(e.table, body).emailed);
  }

  /** `callback(ch, method, properties, body)` on the consumer's channel. */
  method Callback(store: ContactStore, ch: Broker, d: Delivery) returns (emailed: Option<Contact>, raised: bool)
    requires store.Valid() && ch.Valid()
    requires Outstanding(ch.q, d.tag)
    modifies store, ch
    ensures store.Valid() && ch.Valid()
    ensures var e := HandleMessage(old(store.contacts), d.body);
      && store.contacts == e.table
      && emailed == e.emailed
      && raised == !e.acked
      && ch.q == if raised then old(ch.q) else Ack(old(ch.q), d.tag)
  {
    emailed, raised := None, false;
    var contactId := ParseObjectId(d.body);
    if contactId.None? {
      // The id query raises before anything is read or acknowledged.
      raised := true;
      return;
    }
    var contact := store.Lookup(contactId.value);
    if contact.Some? {
      if SendEmail(contact.value) {
        emailed := contact;
        store.SaveSent(contactId.value);
      }
    }
    ch.BasicAck(d.tag);
  }

  /** Tags `from`, `from + 1`, ..., `from + n - 1`. */
  function TagRange(from: nat, n: nat): (r: seq<nat>)
    ensures |r| == n
  {
    if n == 0 then [] else TagRange(from, n - 1) + [from + n - 1]
  }

  /** The k-th acknowledgement of the loop carries the k-th delivery's tag. */
  lemma {:induction false} TagRangeAt(from: nat, n: nat, k: nat)
    requires k < n
    ensures TagRange(from, n)[k] == from + k
  {
    if k < n - 1 {
      TagRangeAt(from, n - 1, k);
    }
  }

  /**
   * The queue after the loop has acknowledged `n` deliveries, each with the
   * tag it was delivered with, and, if `crashed`, has one more delivery
   * outstanding whose callback raised.
   */
  function Drained(q: QueueState, n: nat, crashed: bool): (r: QueueState)
    requires n + (if crashed then 1 else 0) <= |q.ready|
  {
    var c := if crashed then 1 else 0;
    q.(ready := q.ready[n + c..],
       acked := q.acked + TagRange(q.nextTag, n),
       unacked := q.unacked + (if crashed then [Delivery(q.nextTag + n, q.ready[n])] else []),
       nextTag := q.nextTag + n + c)
  }

  /**
   * With nothing outstanding and prefetch 1, the broker can push the next
   * message; acknowledging it restores the same shape one message further on.
   */
  lemma DrainedStep(q: QueueState, n: nat)
    requires q.unacked == [] && q.prefetch == PrefetchCount && n < |q.ready|
    ensures CanDeliver(Drained(q, n, false))
    ensures Push(Drained(q, n, false)) == (Delivery(q.nextTag + n, q.ready[n]), Drained(q, n, true))
    ensures Outstanding(Drained(q, n, true), q.nextTag + n)
    ensures Ack(Drained(q, n, true), q.nextTag + n) == Drained(q, n + 1, false)
  {
    var before := Drained(q, n, false);
    var d := Delivery(q.nextTag + n, q.ready[n]);
    assert before.ready[1..] == q.ready[n + 1..];
    assert Drained(q, n, true).unacked == [d];
    assert Drained(q, n, true).unacked[0].tag == q.nextTag + n;
    assert Without([d], d.tag) == [];
  }

  /**
   * `whole` is what the loop over all bodies gives when `handled` messages
   * have been acknowledged, sending `emailed`, and `rest` is still to come
   * against the current `table`.
   */
  ghost predicate Resumes(whole: Run, table: seq<Contact>, rest: seq<string>, emailed: seq<Contact>, handled: nat) {
    var r := ConsumeAll(table, rest);
    whole == Run(r.table, emailed + r.emailed, handled + r.handled, r.crashed)
  }

  lemma ResumesAfterAck(whole: Run, table: seq<Contact>, rest: seq<string>, emailed: seq<Contact>, handled: nat)
    requires Resumes(whole, table, rest, emailed, handled) && rest != []
    requires HandleMessage(table, rest[0]).acked
    ensures var e := HandleMessage(table, rest[0]);
      Resumes(whole, e.table, rest[1..], emailed + OptionToSeq(e.emailed), handled + 1)
  {
    var e := HandleMessage(table, rest[0]);
    var r := ConsumeAll(e.table, rest[1..]);
    assert emailed + (OptionToSeq(e.emailed) + r.emailed) == (emailed + OptionToSeq(e.emailed)) + r.emailed;
  }

  lemma ResumesAtEnd(whole: Run, table: seq<Contact>, emailed: seq<Contact>, handled: nat)
    requires Resumes(whole, table, [], emailed, handled)
    ensures whole == Run(table, emailed, handled, false)
  {
    assert emailed + [] == emailed;
  }

  lemma ResumesAfterRaise(whole: Run, table: seq<Contact>, rest: seq<string>, emailed: seq<Contact>, handled: nat)
    requires Resumes(whole, table, rest, emailed, handled) && rest != []
    requires !HandleMessage(table, rest[0]).acked
    ensures whole == Run(table, emailed, handled, true)
  {
    assert emailed + [] == emailed;
  }

  /**
   * `main`: declare the queue, set prefetch to 1, and consume. The endless
   * `start_consuming` loop is modelled as draining the messages now in the
   * queue; it stops early when a callback raises.
   */
  method ConsumeQueue(store: ContactStore, ch: Broker) returns (emailed: seq<Contact>, crashed: bool)
    requires store.Valid() && ch.Valid()
    requires ch.q.unacked == []
    modifies store, ch
    ensures store.Valid() && ch.Valid()
    ensures var r := ConsumeAll(old(store.contacts), old(ch.q.ready));
      && store.contacts == r.table
      && emailed == r.emailed
      && crashed == r.crashed
      && ch.q == Drained(Qos(Declare(old(ch.q)), PrefetchCount), r.handled, r.crashed)
  {
    ch.QueueDeclare();
    ch.BasicQos(PrefetchCount);
    emailed, crashed := StartConsuming(store, ch);
  }

  /** The broker pushes the oldest ready message to the consumer. */
  method DeliverNext(ch: Broker, ghost q0: QueueState, ghost handled: nat) returns (d: Delivery)
    requires ch.Valid()
    requires q0.unacked == [] && q0.prefetch == PrefetchCount && handled < |q0.ready|
    requires ch.q == Drained(q0, handled, false)
    modifies ch
    ensures ch.Valid() && ch.q == Drained(q0, handled, true)
    ensures d == Delivery(q0.nextTag + handled, q0.ready[handled])
    ensures Outstanding(ch.q, d.tag) && Ack(ch.q, d.tag) == Drained(q0, handled + 1, false)
  {
    DrainedStep(q0, handled);
    d := ch.Deliver();
  }

  /**
   * One turn of `start_consuming`: the broker pushes the oldest ready message
   * and `callback` handles it; the loop's bookkeeping moves on by one message.
   */
  method PullOne(store: ContactStore, ch: Broker, ghost q0: QueueState, ghost whole: Run,
                 ghost emailed: seq<Contact>, ghost handled: nat)
    returns (sent: Option<Contact>, raised: bool)
    requires store.Valid() && ch.Valid()
    requires q0.unacked == [] && q0.prefetch == PrefetchCount && handled < |q0.ready|
    requires ch.q == Drained(q0, handled, false)
    requires Resumes(whole, store.contacts, q0.ready[handled..], emailed, handled)
    modifies store, ch
    ensures store.Valid() && ch.Valid()
    ensures raised ==> ch.q == Drained(q0, handled, true) && whole == Run(store.contacts, emailed, handled, true)
    ensures !raised ==> ch.q == Drained(q0, handled + 1, false)
    ensures !raised ==> Resumes(whole, store.contacts, q0.ready[handled + 1..], emailed + OptionToSeq(sent), handled + 1)
  {
    ghost var table := store.contacts;
    var d := DeliverNext(ch, q0, handled);
    assert q0.ready[handled..][0] == d.body;
    sent, raised := Callback(store, ch, d);
    if raised {
      ResumesAfterRaise(whole, table, q0.ready[handled..], emailed, handled);
    } else {
      ResumesAfterAck(whole, table, q0.ready[handled..], emailed, handled);
      assert q0.ready[handled..][1..] == q0.ready[handled + 1..];
    }
  }

  /** `start_consuming` with prefetch 1: one delivery at a time, each handled by `Callback`. */
  method StartConsuming(store: ContactStore, ch: Broker) returns (emailed: seq<Contact>, crashed: bool)
    requires store.Valid() && ch.Valid()
    requires ch.q.unacked == [] && ch.q.prefetch == PrefetchCount
    modifies store, ch
    ensures store.Valid() && ch.Valid()
    ensures var r := ConsumeAll(old(store.contacts), old(ch.q.ready));
      && store.contacts == r.table
      && emailed == r.emailed
      && crashed == r.crashed
      && ch.q == Drained(old(ch.q), r.handled, r.crashed)
  {
    ghost var q0 := ch.q;
    ghost var whole := ConsumeAll(store.contacts, q0.ready);
    ghost var handled: nat := 0;
    emailed, crashed := [], false;
    assert Resumes(whole, store.contacts, q0.ready[handled..], emailed, handled);
    assert Drained(q0, 0, false) == q0;
    while ch.q.ready != []
      invariant store.Valid() && ch.Valid()
      invariant handled <= |q0.ready| && ch.q == Drained(q0, handled, false)
      invariant Resumes(whole, store.contacts, q0.ready[handled..], emailed, handled)
      decreases |ch.q.ready|
    {
      var sent, raised := PullOne(store, ch, q0, whole, emailed, handled);
      if raised {
        crashed := true;
        break;
      }
      emailed := emailed + OptionToSeq(sent);
      handled := handled + 1;
    }
    if !crashed {
      assert q0.ready[handled..] == [];
      ResumesAtEnd(whole, store.contacts, emailed, handled);
    }
  }
}
