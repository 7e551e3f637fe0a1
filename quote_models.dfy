/**
 * The quotes database schema: `Authors` (a required `fullname` and three
 * optional strings) and `Quotes` (a list of tags, a required reference to an
 * author and the required quote text).
 *
 * Documents are told apart by the id the database gives them when they are
 * first saved; here a counter supplies it.
 */
module QuoteModels {
  import opened Wrappers

  type AuthorId = nat

  datatype Author = Author(
    id: AuthorId,
    fullname: string,
    bornDate: Option<string>,
    bornLocation: Option<string>,
    description: Option<string>)

  /** `author` is the id of the referenced `Authors` document. */
  datatype Quote = Quote(tags: seq<string>, author: AuthorId, text: string)

  predicate AuthorIdsUnique(authors: seq<Author>) {
    forall i, j :: 0 <= i < j < |authors| ==> authors[i].id != authors[j].id
  }

  predicate IdsBelow(authors: seq<Author>, nextId: nat) {
    forall i :: 0 <= i < |authors| ==> authors[i].id < nextId
  }

  predicate HasAuthorId(authors: seq<Author>, id: AuthorId) {
    exists i :: 0 <= i < |authors| && authors[i].id == id
  }

  /** Every quote's `author` reference points at a stored author. */
  predicate ReferencesValid(authors: seq<Author>, quotes: seq<Quote>) {
    forall k :: 0 <= k < |quotes| ==> HasAuthorId(authors, quotes[k].author)
  }

  /** What the schema guarantees of the two collections, and that the next id is fresh. */
  predicate Consistent(authors: seq<Author>, quotes: seq<Quote>, nextId: nat) {
    && AuthorIdsUnique(authors)
    && IdsBelow(authors, nextId)
    && ReferencesValid(authors, quotes)
  }

  /** No two authors share a full name. */
  predicate FullnamesUnique(authors: seq<Author>) {
    forall i, j :: 0 <= i < j < |authors| ==> authors[i].fullname != authors[j].fullname
  }

  predicate HasFullname(authors: seq<Author>, name: string) {
    exists i :: 0 <= i < |authors| && authors[i].fullname == name
  }

  /** `Authors.objects(fullname=name).first()`: the position of the first author so named. */
  function FirstByName(authors: seq<Author>, name: string): (r: Option<nat>)
    ensures r.Some? ==> r.value < |authors| && authors[r.value].fullname == name
    ensures r.Some? ==> forall j :: 0 <= j < r.value ==> authors[j].fullname != name
    ensures r.None? <==> !HasFullname(authors, name)
  {
    if authors == [] then None
    else if authors[0].fullname == name then Some(0)
    else
      match FirstByName(authors[1..], name)
      case None =>
        assert forall j :: 1 <= j < |authors| ==> authors[j] == authors[1..][j - 1];
        None
      case Some(i) => Some(i + 1)
  }

  /** A prefix keeps the answer it gave. */
  lemma {:induction false} FirstByNameExtend(authors: seq<Author>, more: seq<Author>, name: string)
    requires FirstByName(authors, name).Some?
    ensures FirstByName(authors + more, name) == FirstByName(authors, name)
  {
    var i := FirstByName(authors, name).value;
    var t := authors + more;
    assert t[i].fullname == name;
    var j := FirstByName(t, name).value;
    assert j <= i;
    assert j < |authors| && t[j] == authors[j];
  }

  /** The authors and quotes collections, updated in place by `save()`. */
  class QuoteDb {
    var authors: seq<Author>
    var quotes: seq<Quote>
    var nextId: nat

    ghost predicate Valid()
      reads this
    {
      Consistent(authors, quotes, nextId)
    }

    constructor ()
      ensures Valid() && authors == [] && quotes == []
    {
      authors, quotes, nextId := [], [], 0;
    }

    /** `Authors(...).save()` of a new document: it gets a fresh id and goes at the end. */
    method SaveAuthor(fullname: string, bornDate: Option<string>, bornLocation: Option<string>, description: Option<string>)
      returns (a: Author)
      requires Valid()
      modifies this
      ensures Valid()
      ensures a == Author(old(nextId), fullname, bornDate, bornLocation, description)
      ensures authors == old(authors) + [a] && quotes == old(quotes) && nextId == old(nextId) + 1
      ensures forall i :: 0 <= i < |old(authors)| ==> authors[i].id != a.id
    {
      a := Author(nextId, fullname, bornDate, bornLocation, description);
      authors := authors + [a];
      nextId := nextId + 1;
      assert forall k :: 0 <= k < |quotes| ==> HasAuthorId(old(authors), quotes[k].author) ==> HasAuthorId(authors, quotes[k].author) by {
        forall k | 0 <= k < |quotes| && HasAuthorId(old(authors), quotes[k].author)
          ensures HasAuthorId(authors, quotes[k].author)
        {
          var i :| 0 <= i < |old(authors)| && old(authors)[i].id == quotes[k].author;
          assert authors[i] == old(authors)[i];
        }
      }
    }

    /** `Quotes(...).save()`: the quote goes at the end; its author must be stored. */
    method SaveQuote(q: Quote)
      requires Valid() && HasAuthorId(authors, q.author)
      modifies this
      ensures Valid()
      ensures quotes == old(quotes) + [q] && authors == old(authors) && nextId == old(nextId)
    {
      quotes := quotes + [q];
    }
  }
}
