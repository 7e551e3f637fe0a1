/**
 * The `Contact` document of the dispatch pipeline and the collection that
 * stores it: a required `name` of at most 200 characters, a required and
 * unique `email`, and an `is_sent` flag that defaults to false.
 *
 * The collection is a sequence of documents in insertion (natural) order.
 * The email address is an opaque string: its format check is not modelled.
 */
module Contacts {
  import opened Wrappers
  import opened ObjectIds

  /** `max_length` of the `name` field. */
  const NameMaxLength: nat := 200

  /** A stored contact. */
  datatype Contact = Contact(id: ObjectId, name: string, email: string, isSent: bool)

  /** The keyword arguments given to `Contact(...)`; `None` means not supplied. */
  datatype ContactFields = ContactFields(name: Option<string>, email: Option<string>, isSent: Option<bool>)

  /** What `save()` can raise: a field that fails validation, or a unique index violation. */
  datatype SaveError = ValidationError | NotUniqueError

  /** Field validation done by `save()` on a new document, with the `is_sent` default applied. */
  function Validate(id: ObjectId, f: ContactFields): (r: Result<Contact, SaveError>)
    ensures r.Ok? <==> f.name.Some? && |f.name.value| <= NameMaxLength && f.email.Some?
    ensures r.Err? ==> r.error == ValidationError
    ensures r.Ok? ==> r.value.id == id && r.value.name == f.name.value && r.value.email == f.email.value
    ensures r.Ok? ==> (r.value.isSent <==> f.isSent == Some(true))
  {
    if f.name.None? || |f.name.value| > NameMaxLength || f.email.None? then Err(ValidationError)
    else Ok(Contact(id, f.name.value, f.email.value, f.isSent.GetOr(false)))
  }

  predicate WellFormed(c: Contact) {
    |c.name| <= NameMaxLength
  }

  predicate IdsUnique(t: seq<Contact>) {
    forall i, j :: 0 <= i < j < |t| ==> t[i].id != t[j].id
  }

  predicate EmailsUnique(t: seq<Contact>) {
    forall i, j :: 0 <= i < j < |t| ==> t[i].email != t[j].email
  }

  /** What the schema and the collection's indexes guarantee of the stored contacts. */
  predicate TableValid(t: seq<Contact>) {
    && (forall i :: 0 <= i < |t| ==> WellFormed(t[i]))
    && IdsUnique(t)
    && EmailsUnique(t)
  }

  predicate EmailTaken(t: seq<Contact>, email: string) {
    exists i :: 0 <= i < |t| && t[i].email == email
  }

  /** Position of the first contact with the given id (`objects(id=...).first()`). */
  function IndexOfId(t: seq<Contact>, id: ObjectId): (r: Option<nat>)
    ensures r.Some? ==> r.value < |t| && t[r.value].id == id
    ensures r.Some? ==> forall j :: 0 <= j < r.value ==> t[j].id != id
    ensures r.None? <==> forall j :: 0 <= j < |t| ==> t[j].id != id
  {
    if t == [] then None
    else if t[0].id == id then Some(0)
    else
      match IndexOfId(t[1..], id)
      case None => None
      case Some(k) => Some(k + 1)
  }

  function FindById(t: seq<Contact>, id: ObjectId): (r: Option<Contact>)
    ensures r.Some? <==> exists j :: 0 <= j < |t| && t[j].id == id
    ensures r.Some? ==> r.value.id == id && r.value in t
  {
    match IndexOfId(t, id)
    case None => None
    case Some(i) => Some(t[i])
  }

  /** `save()` of a new contact: validate, then insert unless the id or the email is already stored. */
  function Insert(t: seq<Contact>, id: ObjectId, f: ContactFields): (r: Result<seq<Contact>, SaveError>)
    ensures r.Ok? <==> Validate(id, f).Ok? && IndexOfId(t, id).None? && !EmailTaken(t, f.email.value)
    ensures r.Err? && Validate(id, f).Ok? ==> r.error == NotUniqueError
    ensures r.Ok? ==> r.value == t + [Validate(id, f).value]
    ensures r.Ok? && TableValid(t) ==> TableValid(r.value)
  {
    match Validate(id, f)
    case Err(e) => Err(e)
    case Ok(c) =>
      if IndexOfId(t, id).Some? || EmailTaken(t, c.email) then Err(NotUniqueError)
      else Ok(t + [c])
  }

  /** A contact with its `is_sent` flag set. */
  function AsSent(c: Contact): Contact {
    Contact(c.id, c.name, c.email, true)
  }

  /** `contact.is_sent = True; contact.save()` on the stored contact with this id. */
  function MarkSent(t: seq<Contact>, id: ObjectId): (r: seq<Contact>)
    ensures |r| == |t|
    ensures forall i :: 0 <= i < |t| ==>
      r[i].id == t[i].id && r[i].name == t[i].name && r[i].email == t[i].email
    ensures forall i :: 0 <= i < |t| && t[i].isSent ==> r[i].isSent
    ensures IdsUnique(t) ==> forall i :: 0 <= i < |t| ==> r[i].isSent == (t[i].isSent || t[i].id == id)
    ensures TableValid(t) ==> TableValid(r)
  {
    match IndexOfId(t, id)
    case None => t
    case Some(i) => t[i := AsSent(t[i])]
  }

  /** The contacts collection, updated in place by `save()`. */
  class ContactStore {
    var contacts: seq<Contact>

    ghost predicate Valid()
      reads this
    {
      TableValid(contacts)
    }

    constructor ()
      ensures Valid() && contacts == []
    {
      contacts := [];
    }

    /** `Contact.objects(id=id).first()` */
    function Lookup(id: ObjectId): (r: Option<Contact>)
      reads this
      ensures r.Some? ==> r.value in contacts && r.value.id == id
      ensures r.None? ==> forall j :: 0 <= j < |contacts| ==> contacts[j].id != id
    {
      FindById(contacts, id)
    }

    /** `Contact(...).save()` of a new document with the given (client-generated) id. */
    method Save(id: ObjectId, f: ContactFields) returns (r: Result<Contact, SaveError>)
      requires Valid()
      modifies this
      ensures Valid()
      ensures r.Ok? <==> Insert(old(contacts), id, f).Ok?
      ensures r.Ok? ==> r == Validate(id, f) && contacts == old(contacts) + [r.value]
      ensures r.Err? ==> r.error == Insert(old(contacts), id, f).error && contacts == old(contacts)
    {
      var inserted := Insert(contacts, id, f);
      match inserted {
        case Err(e) =>
          r := Err(e);
        case Ok(t) =>
          r := Validate(id, f);
          contacts := t;
      }
    }

    /** `contact.is_sent = True; contact.save()` for a contact that was just looked up. */
    method SaveSent(id: ObjectId)
      requires Valid()
      modifies this
      ensures Valid()
      ensures contacts == MarkSent(old(contacts), id)
    {
      contacts := MarkSent(contacts, id);
    }
  }
}
