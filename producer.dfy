/**
 * The producer: `main(n)` creates `n` fake contacts and, right after saving
 * each one, publishes its id to `email_queue`. Each publish declares the
 * queue first. A save that raises (a name over 200 characters, a repeated id
 * or email) ends the loop with the contacts saved so far.
 *
 * Faker's name and email and the ObjectId the driver generates for a new
 * document are inputs here (`FakeIdentity`).
 */
module Producer {
  import opened Wrappers
  import opened ObjectIds
  import opened Contacts
  import opened EmailQueue

  /** What Faker and the ObjectId generator supply for one new contact. */
  datatype FakeIdentity = FakeIdentity(id: ObjectId, name: string, email: string)

  /** `mm.Contact(name=fake.name(), email=fake.email())`: `is_sent` is not supplied. */
  function FakeFields(f: FakeIdentity): ContactFields {
    ContactFields(Some(f.name), Some(f.email), None)
  }

  /** The contact that saving a fake identity stores. */
  function FakeContact(f: FakeIdentity): (c: Contact)
    ensures !c.isSent
    ensures Validate(f.id, FakeFields(f)).Ok? ==> Validate(f.id, FakeFields(f)).value == c
  {
    Contact(f.id, f.name, f.email, false)
  }

  /**
   * The message bodies for a sequence of contacts: the string form of each
   * id, one per contact, each of which the consumer's query reads back as
   * that contact's id.
   */
  function Bodies(cs: seq<Contact>): (r: seq<string>)
    ensures |r| == |cs|
    ensures forall k :: 0 <= k < |cs| ==> ParseObjectId(r[k]) == Some(cs[k].id)
  {
    var r := seq(|cs|, k requires 0 <= k < |cs| => IdString(cs[k].id));
    assert forall k :: 0 <= k < |cs| ==> ParseObjectId(r[k]) == Some(cs[k].id) by {
      forall k | 0 <= k < |cs| ensures ParseObjectId(r[k]) == Some(cs[k].id) {
        ParseIdString(cs[k].id);
      }
    }
    r
  }

  /** `create_fake_contact()`: build the contact and save it. */
  method CreateFakeContact(store: ContactStore, fake: FakeIdentity) returns (r: Result<Contact, SaveError>)
    requires store.Valid()
    modifies store
    ensures store.Valid()
    ensures r.Ok? <==> Insert(old(store.contacts), fake.id, FakeFields(fake)).Ok?
    ensures r.Ok? ==> r.value == FakeContact(fake) && store.contacts == old(store.contacts) + [r.value]
    ensures r.Err? ==> r.error == Insert(old(store.contacts), fake.id, FakeFields(fake)).error
    ensures r.Err? ==> store.contacts == old(store.contacts)
  {
    r := store.Save(fake.id, FakeFields(fake));
  }

  /** `send_contact_to_queue(contact_id)`: declare `email_queue`, then publish `str(contact_id)`. */
  method SendContactToQueue(ch: Broker, id: ObjectId)
    requires ch.Valid()
    modifies ch
    ensures ch.Valid() && ch.q == Publish(Declare(old(ch.q)), IdString(id))
  {
    ch.QueueDeclare();
    ch.BasicPublish(IdString(id));
  }

  /** Publishing each body in turn, declaring the queue before each one. */
  function PublishAll(q: QueueState, bodies: seq<string>): (r: QueueState)
    decreases |bodies|
  {
    if bodies == [] then q else PublishAll(Publish(Declare(q), bodies[0]), bodies[1..])
  }

  /** The bodies land at the tail of the queue in publishing order; nothing else moves. */
  lemma {:induction false} PublishAllEnqueues(q: QueueState, bodies: seq<string>)
    ensures PublishAll(q, bodies).ready == q.ready + bodies
    ensures PublishAll(q, bodies).(ready := q.ready, declared := q.declared) == q
    ensures bodies != [] ==> PublishAll(q, bodies).declared
    decreases |bodies|
  {
    if bodies != [] {
      var q1 := Publish(Declare(q), bodies[0]);
      PublishAllEnqueues(q1, bodies[1..]);
      assert q.ready + bodies == q1.ready + bodies[1..];
    }
  }

  lemma {:induction false} PublishAllSnoc(q: QueueState, bodies: seq<string>, b: string)
    ensures PublishAll(q, bodies + [b]) == Publish(Declare(PublishAll(q, bodies)), b)
    decreases |bodies|
  {
    if bodies != [] {
      assert (bodies + [b])[1..] == bodies[1..] + [b];
      PublishAllSnoc(Publish(Declare(q), bodies[0]), bodies[1..], b);
    }
  }

  /** The contacts `main` saves before the first save that raises, and that error if any. */
  datatype Produced = Produced(table: seq<Contact>, created: seq<Contact>, failure: Option<SaveError>)

  function Produce(table: seq<Contact>, fakes: seq<FakeIdentity>): (p: Produced)
    decreases |fakes|
  {
    if fakes == [] then Produced(table, [], None)
    else
      match Insert(table, fakes[0].id, FakeFields(fakes[0]))
      case Err(e) => Produced(table, [], Some(e))
      case Ok(t) =>
        var rest := Produce(t, fakes[1..]);
        Produced(rest.table, [FakeContact(fakes[0])] + rest.created, rest.failure)
  }

  /**
   * `main` only appends: the existing contacts stay as they were, the k-th new
   * contact is the k-th fake identity with `is_sent` false, all `n` are created
   * unless a save raised, and the table stays valid.
   */
  lemma {:induction false} ProduceAppends(table: seq<Contact>, fakes: seq<FakeIdentity>)
    requires TableValid(table)
    ensures var p := Produce(table, fakes);
      && p.table == table + p.created
      && TableValid(p.table)
      && |p.created| <= |fakes|
      && (p.failure.None? <==> |p.created| == |fakes|)
      && forall k :: 0 <= k < |p.created| ==> p.created[k] == FakeContact(fakes[k]) && !p.created[k].isSent
    decreases |fakes|
  {
    if fakes != [] {
      match Insert(table, fakes[0].id, FakeFields(fakes[0]))
      case Err(e) =>
      case Ok(t) =>
        ProduceAppends(t, fakes[1..]);
        var rest := Produce(t, fakes[1..]);
        assert table + ([FakeContact(fakes[0])] + rest.created) == t + rest.created;
    }
  }

  /**
   * Every enqueued body names a contact already saved: the k-th body reads
   * back as the id of the k-th created contact, which the table holds.
   */
  lemma EnqueuedIdsResolve(table: seq<Contact>, fakes: seq<FakeIdentity>, k: nat)
    requires TableValid(table)
    requires k < |Produce(table, fakes).created|
    ensures var p := Produce(table, fakes);
      && ParseObjectId(Bodies(p.created)[k]) == Some(p.created[k].id)
      && FindById(p.table, p.created[k].id) == Some(p.created[k])
  {
    var p := Produce(table, fakes);
    ProduceAppends(table, fakes);
    ParseIdString(p.created[k].id);
    var j := |table| + k;
    assert p.table[j] == p.created[k];
    var i := IndexOfId(p.table, p.created[k].id).value;
    assert i == j;
  }

  /** After `created`, what is left of the run from `table` over `rest` completes `whole`. */
  ghost predicate Resumes(whole: Produced, table: seq<Contact>, rest: seq<FakeIdentity>, created: seq<Contact>) {
    var r := Produce(table, rest);
    whole == Produced(r.table, created + r.created, r.failure)
  }

  lemma ResumesAfterSave(whole: Produced, table: seq<Contact>, rest: seq<FakeIdentity>, created: seq<Contact>)
    requires rest != [] && Resumes(whole, table, rest, created)
    requires Insert(table, rest[0].id, FakeFields(rest[0])).Ok?
    ensures Resumes(whole, Insert(table, rest[0].id, FakeFields(rest[0])).value, rest[1..], created + [FakeContact(rest[0])])
  {
    var r := Produce(Insert(table, rest[0].id, FakeFields(rest[0])).value, rest[1..]);
    assert created + ([FakeContact(rest[0])] + r.created) == (created + [FakeContact(rest[0])]) + r.created;
  }

  lemma ResumesAfterRaise(whole: Produced, table: seq<Contact>, rest: seq<FakeIdentity>, created: seq<Contact>)
    requires rest != [] && Resumes(whole, table, rest, created)
    requires Insert(table, rest[0].id, FakeFields(rest[0])).Err?
    ensures whole == Produced(table, created, Some(Insert(table, rest[0].id, FakeFields(rest[0])).error))
  {
    assert created + [] == created;
  }

  lemma ResumesAtEnd(whole: Produced, table: seq<Contact>, created: seq<Contact>)
    requires Resumes(whole, table, [], created)
    ensures whole == Produced(table, created, None)
  {
    assert created + [] == created;
  }

  /** One iteration of `main`'s loop: create a contact and, if it was saved, publish its id. */
  method ProduceOne(store: ContactStore, ch: Broker, fake: FakeIdentity, ghost q0: QueueState, ghost created: seq<Contact>)
    returns (c: Result<Contact, SaveError>)
    requires store.Valid() && ch.Valid()
    requires ch.q == PublishAll(q0, Bodies(created))
    modifies store, ch
    ensures store.Valid() && ch.Valid()
    ensures c.Ok? <==> Insert(old(store.contacts), fake.id, FakeFields(fake)).Ok?
    ensures c.Ok? ==> c.value == FakeContact(fake)
    ensures c.Err? ==> c.error == Insert(old(store.contacts), fake.id, FakeFields(fake)).error
    ensures c.Ok? ==> store.contacts == Insert(old(store.contacts), fake.id, FakeFields(fake)).value
    ensures c.Ok? ==> ch.q == PublishAll(q0, Bodies(created + [c.value]))
    ensures c.Err? ==> store.contacts == old(store.contacts) && ch.q == old(ch.q)
  {
    c := CreateFakeContact(store, fake);
    if c.Ok? {
      SendContactToQueue(ch, c.value.id);
      PublishAllSnoc(q0, Bodies(created), IdString(c.value.id));
      assert Bodies(created + [c.value]) == Bodies(created) + [IdString(c.value.id)];
    }
  }

  /**
   * `main(n)`: `for _ in range(n)` create a contact and publish its id. A
   * negative `n` runs no iteration. Stops at the first save that raises.
   */
  method ProducerMain(store: ContactStore, ch: Broker, n: int, fakes: seq<FakeIdentity>)
    returns (created: seq<Contact>, failure: Option<SaveError>)
    requires store.Valid() && ch.Valid()
    requires n <= |fakes|
    modifies store, ch
    ensures store.Valid() && ch.Valid()
    ensures var p := Produce(old(store.contacts), fakes[..if n < 0 then 0 else n]);
      && store.contacts == p.table
      && created == p.created
      && failure == p.failure
    ensures ch.q == PublishAll(old(ch.q), Bodies(created))
  {
    var count := if n < 0 then 0 else n;
    ghost var q0 := ch.q;
    ghost var whole := Produce(store.contacts, fakes[..count]);
    assert fakes[..count] == fakes[0..count];
    created, failure := [], None;
    assert Resumes(whole, store.contacts, fakes[0..count], created);
    var i := 0;
    while i < count
      invariant 0 <= i <= count && store.Valid() && ch.Valid()
      invariant ch.q == PublishAll(q0, Bodies(created))
      invariant Resumes(whole, store.contacts, fakes[i..count], created)
    {
      ghost var rest := fakes[i..count];
      assert rest[0] == fakes[i] && rest[1..] == fakes[i + 1..count];
      ghost var before := store.contacts;
      var contact := ProduceOne(store, ch, fakes[i], q0, created);
      if contact.Err? {
        ResumesAfterRaise(whole, before, rest, created);
        failure := Some(contact.error);
        break;
      }
      ResumesAfterSave(whole, before, rest, created);
      created := created + [contact.value];
      i := i + 1;
    }
    if failure.None? {
      ResumesAtEnd(whole, store.contacts, created);
    }
  }
}
