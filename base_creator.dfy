/**
 * Populating the quotes database from `authors.json` and `quotes.json`.
 *
 * Each file is a list of JSON objects, read here as a sequence of records; a
 * key the object does not have is `None`. Indexing a missing key raises
 * `KeyError`, which ends the loader: what was saved before stays saved, and
 * the script stops.
 */
module BaseCreator {
  import opened Wrappers
  import opened QuoteModels

  datatype AuthorRecord = AuthorRecord(
    fullname: Option<string>,
    bornDate: Option<string>,
    bornLocation: Option<string>,
    description: Option<string>)

  /** `text` is the object's `"quote"` key. */
  datatype QuoteRecord = QuoteRecord(author: Option<string>, text: Option<string>, tags: Option<seq<string>>)

  /** The authors collection and the next fresh id while `load_authors` runs; `aborted` after a `KeyError`. */
  datatype AuthorsLoad = AuthorsLoad(authors: seq<Author>, nextId: nat, aborted: bool)

  /**
   * One pass of `load_authors`' loop: a record without `fullname` raises; an
   * author whose full name is already stored is skipped; otherwise a new
   * author with the record's optional fields (absent ones `None`) is saved.
   */
  function AddAuthor(s: AuthorsLoad, rec: AuthorRecord): (r: AuthorsLoad)
    ensures s.aborted ==> r == s
    ensures !s.aborted && rec.fullname.None? ==> r == s.(aborted := true)
    ensures !s.aborted && rec.fullname.Some? && HasFullname(s.authors, rec.fullname.value) ==> r == s
    ensures !s.aborted && rec.fullname.Some? && !HasFullname(s.authors, rec.fullname.value) ==>
      && r.authors == s.authors + [Author(s.nextId, rec.fullname.value, rec.bornDate, rec.bornLocation, rec.description)]
      && r.nextId == s.nextId + 1 && !r.aborted
  {
    if s.aborted then s
    else
      match rec.fullname
      case None => s.(aborted := true)
      case Some(name) =>
        match FirstByName(s.authors, name)
        case Some(_) => s
        case None =>
          var a := Author(s.nextId, name, rec.bornDate, rec.bornLocation, rec.description);
          AuthorsLoad(s.authors + [a], s.nextId + 1, false)
  }

  /** `load_authors` over the records, one pass of the loop per record. */
  function LoadAuthorsSpec(s: AuthorsLoad, recs: seq<AuthorRecord>): AuthorsLoad
    decreases |recs|
  {
    if recs == [] then s else AddAuthor(LoadAuthorsSpec(s, recs[..|recs| - 1]), recs[|recs| - 1])
  }

  /** Once a `KeyError` is raised, later records are never read. */
  lemma {:induction false} LoadAuthorsAfterAbort(s: AuthorsLoad, recs: seq<AuthorRecord>, more: seq<AuthorRecord>)
    requires LoadAuthorsSpec(s, recs).aborted
    ensures LoadAuthorsSpec(s, recs + more) == LoadAuthorsSpec(s, recs)
    decreases |more|
  {
    if more == [] {
      assert recs + more == recs;
    } else {
      var init := more[..|more| - 1];
      assert (recs + more)[..|recs + more| - 1] == recs + init;
      LoadAuthorsAfterAbort(s, recs, init);
    }
  }

  /**
   * `load_authors` only appends: the stored authors stay as they were, each
   * new author gets the next fresh id, and an aborted load stays aborted.
   */
  lemma {:induction false} LoadAuthorsExtends(s: AuthorsLoad, recs: seq<AuthorRecord>)
    ensures var r := LoadAuthorsSpec(s, recs);
      && |s.authors| <= |r.authors|
      && r.authors[..|s.authors|] == s.authors
      && r.nextId == s.nextId + (|r.authors| - |s.authors|)
      && (forall j :: |s.authors| <= j < |r.authors| ==> r.authors[j].id == s.nextId + (j - |s.authors|))
      && (s.aborted ==> r == s)
    decreases |recs|
  {
    if recs != [] {
      var p := LoadAuthorsSpec(s, recs[..|recs| - 1]);
      LoadAuthorsExtends(s, recs[..|recs| - 1]);
      var r := AddAuthor(p, recs[|recs| - 1]);
      assert r.authors[..|p.authors|] == p.authors;
      assert r.authors[..|s.authors|] == p.authors[..|s.authors|];
    }
  }

  /** The load stops exactly when some record lacks `fullname`. */
  lemma {:induction false} LoadAuthorsAborts(s: AuthorsLoad, recs: seq<AuthorRecord>)
    ensures LoadAuthorsSpec(s, recs).aborted <==> s.aborted || exists k :: 0 <= k < |recs| && recs[k].fullname.None?
    decreases |recs|
  {
    if recs != [] {
      var init := recs[..|recs| - 1];
      LoadAuthorsAborts(s, init);
      if exists k :: 0 <= k < |recs| && recs[k].fullname.None? {
        var k :| 0 <= k < |recs| && recs[k].fullname.None?;
        if k < |recs| - 1 {
          assert init[k] == recs[k];
        }
      }
      assert forall k :: 0 <= k < |init| ==> init[k] == recs[k];
    }
  }

  /** Saving new authors keeps ids unique, below the next id, and the quotes' references valid. */
  lemma {:induction false} LoadAuthorsConsistent(s: AuthorsLoad, quotes: seq<Quote>, recs: seq<AuthorRecord>)
    requires Consistent(s.authors, quotes, s.nextId)
    ensures var r := LoadAuthorsSpec(s, recs);
      Consistent(r.authors, quotes, r.nextId)
    decreases |recs|
  {
    if recs != [] {
      var p := LoadAuthorsSpec(s, recs[..|recs| - 1]);
      LoadAuthorsConsistent(s, quotes, recs[..|recs| - 1]);
      var r := AddAuthor(p, recs[|recs| - 1]);
      if r != p {
        forall k | 0 <= k < |quotes|
          ensures HasAuthorId(r.authors, quotes[k].author)
        {
          var i :| 0 <= i < |p.authors| && p.authors[i].id == quotes[k].author;
          assert r.authors[i] == p.authors[i];
        }
      }
    }
  }

  /** `load_authors` never adds a second author with a full name already stored or already loaded. */
  lemma {:induction false} LoadAuthorsNoNewDuplicates(s: AuthorsLoad, recs: seq<AuthorRecord>)
    requires FullnamesUnique(s.authors)
    ensures FullnamesUnique(LoadAuthorsSpec(s, recs).authors)
    decreases |recs|
  {
    if recs != [] {
      var p := LoadAuthorsSpec(s, recs[..|recs| - 1]);
      LoadAuthorsNoNewDuplicates(s, recs[..|recs| - 1]);
      var r := AddAuthor(p, recs[|recs| - 1]);
      if r.authors != p.authors {
        var name := recs[|recs| - 1].fullname.value;
        forall i, j | 0 <= i < j < |r.authors|
          ensures r.authors[i].fullname != r.authors[j].fullname
        {
          if j == |p.authors| {
            assert r.authors[i] == p.authors[i];
          }
        }
      }
    }
  }

  /** After a load that did not abort, every full name in the file is stored. */
  lemma {:induction false} LoadAuthorsAllPresent(s: AuthorsLoad, recs: seq<AuthorRecord>)
    requires !LoadAuthorsSpec(s, recs).aborted
    ensures forall k :: 0 <= k < |recs| ==>
      recs[k].fullname.Some? && HasFullname(LoadAuthorsSpec(s, recs).authors, recs[k].fullname.value)
    decreases |recs|
  {
    if recs != [] {
      var init := recs[..|recs| - 1];
      var p := LoadAuthorsSpec(s, init);
      var r := AddAuthor(p, recs[|recs| - 1]);
      LoadAuthorsAllPresent(s, init);
      forall k | 0 <= k < |recs|
        ensures recs[k].fullname.Some? && HasFullname(r.authors, recs[k].fullname.value)
      {
        var name := recs[k].fullname.value;
        if k < |recs| - 1 {
          assert init[k] == recs[k];
          var i :| 0 <= i < |p.authors| && p.authors[i].fullname == name;
          assert r.authors[i] == p.authors[i];
        } else if !HasFullname(p.authors, name) {
          assert r.authors[|p.authors|].fullname == name;
        }
      }
    }
  }

  /**
   * Every author `load_authors` adds comes from a record with that full name
   * and the record's optional fields, and no author had that name when it was saved.
   */
  lemma {:induction false} LoadAuthorsNewFromRecords(s: AuthorsLoad, recs: seq<AuthorRecord>, j: nat)
    requires |s.authors| <= j < |LoadAuthorsSpec(s, recs).authors|
    ensures var a := LoadAuthorsSpec(s, recs).authors[j];
      && !HasFullname(LoadAuthorsSpec(s, recs).authors[..j], a.fullname)
      && exists k :: 0 <= k < |recs| && recs[k] == AuthorRecord(Some(a.fullname), a.bornDate, a.bornLocation, a.description)
    decreases |recs|
  {
    var init := recs[..|recs| - 1];
    var p := LoadAuthorsSpec(s, init);
    var r := AddAuthor(p, recs[|recs| - 1]);
    LoadAuthorsExtends(s, init);
    if j < |p.authors| {
      LoadAuthorsNewFromRecords(s, init, j);
      var a := p.authors[j];
      assert r.authors[..j] == p.authors[..j];
      var k :| 0 <= k < |init| && init[k] == AuthorRecord(Some(a.fullname), a.bornDate, a.bornLocation, a.description);
      assert recs[k] == init[k];
    } else {
      assert r.authors[..j] == p.authors;
      assert recs[|recs| - 1].fullname.Some?;
    }
  }

  /** The quotes collection while `load_quotes` runs; `aborted` after a `KeyError`. */
  datatype QuotesLoad = QuotesLoad(quotes: seq<Quote>, aborted: bool)

  /**
   * The quote a record becomes when its author is stored: it references the
   * first author with the record's `author` full name, carries the record's
   * text, and its tags default to the empty list.
   */
  function QuoteFor(authors: seq<Author>, rec: QuoteRecord): (q: Option<Quote>)
    ensures q.Some? <==> rec.author.Some? && rec.text.Some? && HasFullname(authors, rec.author.value)
    ensures q.Some? ==>
      && q.value.author == authors[FirstByName(authors, rec.author.value).value].id
      && q.value.text == rec.text.value
      && q.value.tags == (if rec.tags.Some? then rec.tags.value else [])
  {
    if rec.author.None? || rec.text.None? then None
    else
      match FirstByName(authors, rec.author.value)
      case None => None
      case Some(i) => Some(Quote(rec.tags.GetOr([]), authors[i].id, rec.text.value))
  }

  /**
   * One pass of `load_quotes`' loop: a record without `author` or without
   * `quote` raises (the message for an unknown author reads `quote` too); a
   * record whose author is stored adds one quote; any other is skipped.
   */
  function AddQuote(authors: seq<Author>, s: QuotesLoad, rec: QuoteRecord): (r: QuotesLoad)
    ensures s.aborted ==> r == s
    ensures !s.aborted ==> (r.aborted <==> rec.author.None? || rec.text.None?)
    ensures !r.aborted ==> r.quotes == s.quotes + (if QuoteFor(authors, rec).Some? then [QuoteFor(authors, rec).value] else [])
    ensures r.aborted ==> r.quotes == s.quotes
  {
    if s.aborted then s
    else if rec.author.None? || rec.text.None? then s.(aborted := true)
    else
      match QuoteFor(authors, rec)
      case None => s
      case Some(q) => s.(quotes := s.quotes + [q])
  }

  function LoadQuotesSpec(authors: seq<Author>, s: QuotesLoad, recs: seq<QuoteRecord>): QuotesLoad
    decreases |recs|
  {
    if recs == [] then s else AddQuote(authors, LoadQuotesSpec(authors, s, recs[..|recs| - 1]), recs[|recs| - 1])
  }

  lemma {:induction false} LoadQuotesAfterAbort(authors: seq<Author>, s: QuotesLoad, recs: seq<QuoteRecord>, more: seq<QuoteRecord>)
    requires LoadQuotesSpec(authors, s, recs).aborted
    ensures LoadQuotesSpec(authors, s, recs + more) == LoadQuotesSpec(authors, s, recs)
    decreases |more|
  {
    if more == [] {
      assert recs + more == recs;
    } else {
      var init := more[..|more| - 1];
      assert (recs + more)[..|recs + more| - 1] == recs + init;
      LoadQuotesAfterAbort(authors, s, recs, init);
    }
  }

  /** The quotes the records become, in file order, one for each record whose author is stored. */
  function QuotesFor(authors: seq<Author>, recs: seq<QuoteRecord>): (qs: seq<Quote>)
    ensures |qs| <= |recs|
  {
    if recs == [] then []
    else
      (if QuoteFor(authors, recs[0]).Some? then [QuoteFor(authors, recs[0]).value] else [])
        + QuotesFor(authors, recs[1..])
  }

  lemma {:induction false} QuotesForSnoc(authors: seq<Author>, recs: seq<QuoteRecord>, rec: QuoteRecord)
    ensures QuotesFor(authors, recs + [rec])
      == QuotesFor(authors, recs) + (if QuoteFor(authors, rec).Some? then [QuoteFor(authors, rec).value] else [])
  {
    if recs != [] {
      assert (recs + [rec])[1..] == recs[1..] + [rec];
      QuotesForSnoc(authors, recs[1..], rec);
    }
  }

  /** Number of records whose author is stored. */
  function KnownAuthorCount(authors: seq<Author>, recs: seq<QuoteRecord>): nat {
    if recs == [] then 0
    else
      (if recs[0].author.Some? && HasFullname(authors, recs[0].author.value) then 1 else 0)
        + KnownAuthorCount(authors, recs[1..])
  }

  /** The load stops exactly when some record lacks `author` or `quote`. */
  lemma {:induction false} LoadQuotesAborts(authors: seq<Author>, s: QuotesLoad, recs: seq<QuoteRecord>)
    requires !s.aborted
    ensures LoadQuotesSpec(authors, s, recs).aborted
      <==> exists k :: 0 <= k < |recs| && (recs[k].author.None? || recs[k].text.None?)
    decreases |recs|
  {
    if recs != [] {
      var init := recs[..|recs| - 1];
      LoadQuotesAborts(authors, s, init);
      assert forall k :: 0 <= k < |init| ==> init[k] == recs[k];
    }
  }

  /**
   * A load that does not abort appends exactly the quotes the records become
   * (no duplicate check: one per record with a stored author, every run).
   * An aborted load keeps the quotes it saved before the error.
   */
  lemma {:induction false} LoadQuotesAppends(authors: seq<Author>, s: QuotesLoad, recs: seq<QuoteRecord>)
    requires !s.aborted
    ensures var r := LoadQuotesSpec(authors, s, recs);
      && (!r.aborted ==> r.quotes == s.quotes + QuotesFor(authors, recs))
      && |s.quotes| <= |r.quotes| && r.quotes[..|s.quotes|] == s.quotes
    decreases |recs|
  {
    if recs != [] {
      var init := recs[..|recs| - 1];
      var last := recs[|recs| - 1];
      LoadQuotesAppends(authors, s, init);
      var p := LoadQuotesSpec(authors, s, init);
      var r := AddQuote(authors, p, last);
      assert recs == init + [last];
      if !r.aborted {
        QuotesForSnoc(authors, init, last);
      }
      assert r.quotes[..|s.quotes|] == p.quotes[..|s.quotes|];
    }
  }

  /** When every record has both keys, the number of quotes saved is the number of records with a stored author. */
  lemma {:induction false} QuotesForCount(authors: seq<Author>, recs: seq<QuoteRecord>)
    requires forall k :: 0 <= k < |recs| ==> recs[k].author.Some? && recs[k].text.Some?
    ensures |QuotesFor(authors, recs)| == KnownAuthorCount(authors, recs)
  {
    if recs != [] {
      QuotesForCount(authors, recs[1..]);
    }
  }

  /** Every quote saved references a stored author. */
  lemma {:induction false} QuotesForReferences(authors: seq<Author>, recs: seq<QuoteRecord>)
    ensures ReferencesValid(authors, QuotesFor(authors, recs))
  {
    if recs != [] {
      QuotesForReferences(authors, recs[1..]);
      var q := QuoteFor(authors, recs[0]);
      if q.Some? {
        assert HasAuthorId(authors, q.value.author);
      }
    }
  }

  /** `load_authors()`. */
  method LoadAuthors(db: QuoteDb, recs: seq<AuthorRecord>) returns (aborted: bool)
    requires db.Valid()
    modifies db
    ensures db.Valid()
    ensures var r := LoadAuthorsSpec(AuthorsLoad(old(db.authors), old(db.nextId), false), recs);
      db.authors == r.authors && db.nextId == r.nextId && aborted == r.aborted
    ensures db.quotes == old(db.quotes)
  {
    ghost var s0 := AuthorsLoad(db.authors, db.nextId, false);
    aborted := false;
    var i := 0;
    while i < |recs| && !aborted
      invariant 0 <= i <= |recs| && db.Valid() && db.quotes == old(db.quotes)
      invariant AuthorsLoad(db.authors, db.nextId, aborted) == LoadAuthorsSpec(s0, recs[..i])
    {
      assert recs[..i + 1][..i] == recs[..i];
      var rec := recs[i];
      if rec.fullname.None? {
        aborted := true;
      } else {
        var author := FirstByName(db.authors, rec.fullname.value);
        if author.None? {
          var a := db.SaveAuthor(rec.fullname.value, rec.bornDate, rec.bornLocation, rec.description);
        }
      }
      i := i + 1;
    }
    if aborted {
      assert recs == recs[..i] + recs[i..];
      LoadAuthorsAfterAbort(s0, recs[..i], recs[i..]);
    } else {
      assert recs[..i] == recs;
    }
  }

  /** `load_quotes()`. */
  method LoadQuotes(db: QuoteDb, recs: seq<QuoteRecord>) returns (aborted: bool)
    requires db.Valid()
    modifies db
    ensures db.Valid()
    ensures var r := LoadQuotesSpec(old(db.authors), QuotesLoad(old(db.quotes), false), recs);
      db.quotes == r.quotes && aborted == r.aborted
    ensures db.authors == old(db.authors) && db.nextId == old(db.nextId)
  {
    ghost var s0 := QuotesLoad(db.quotes, false);
    aborted := false;
    var i := 0;
    while i < |recs| && !aborted
      invariant 0 <= i <= |recs| && db.Valid()
      invariant db.authors == old(db.authors) && db.nextId == old(db.nextId)
      invariant QuotesLoad(db.quotes, aborted) == LoadQuotesSpec(db.authors, s0, recs[..i])
    {
      assert recs[..i + 1][..i] == recs[..i];
      var rec := recs[i];
      if rec.author.None? {
        aborted := true;
      } else {
        var author := FirstByName(db.authors, rec.author.value);
        if rec.text.None? {
          aborted := true;
        } else if author.Some? {
          var quote := Quote(rec.tags.GetOr([]), db.authors[author.value].id, rec.text.value);
          db.SaveQuote(quote);
        }
      }
      i := i + 1;
    }
    if aborted {
      assert recs == recs[..i] + recs[i..];
      LoadQuotesAfterAbort(db.authors, s0, recs[..i], recs[i..]);
    } else {
      assert recs[..i] == recs;
    }
  }

  /** Running the script: `load_authors()`, then `load_quotes()` unless the first raised. */
  method CreateBase(db: QuoteDb, authorRecs: seq<AuthorRecord>, quoteRecs: seq<QuoteRecord>) returns (aborted: bool)
    requires db.Valid()
    modifies db
    ensures db.Valid()
    ensures var a := LoadAuthorsSpec(AuthorsLoad(old(db.authors), old(db.nextId), false), authorRecs);
      && db.authors == a.authors
      && db.nextId == a.nextId
      && (a.aborted ==> aborted && db.quotes == old(db.quotes))
      && (!a.aborted ==> var q := LoadQuotesSpec(a.authors, QuotesLoad(old(db.quotes), false), quoteRecs);
            db.quotes == q.quotes && aborted == q.aborted)
  {
    aborted := LoadAuthors(db, authorRecs);
    if !aborted {
      aborted := LoadQuotes(db, quoteRecs);
    }
  }

  /**
   * Loading both files into an empty database without a `KeyError` saves one
   * quote for every quote record whose author appears in the authors file.
   */
  lemma LoadedAuthorsResolveQuotes(authorRecs: seq<AuthorRecord>, quoteRecs: seq<QuoteRecord>)
    requires var a := LoadAuthorsSpec(AuthorsLoad([], 0, false), authorRecs);
      !a.aborted && !LoadQuotesSpec(a.authors, QuotesLoad([], false), quoteRecs).aborted
    requires forall k :: 0 <= k < |quoteRecs| ==>
      quoteRecs[k].author.Some? && exists m :: 0 <= m < |authorRecs| && authorRecs[m].fullname == quoteRecs[k].author
    ensures var a := LoadAuthorsSpec(AuthorsLoad([], 0, false), authorRecs);
      |LoadQuotesSpec(a.authors, QuotesLoad([], false), quoteRecs).quotes| == |quoteRecs|
  {
    var a := LoadAuthorsSpec(AuthorsLoad([], 0, false), authorRecs);
    LoadAuthorsAllPresent(AuthorsLoad([], 0, false), authorRecs);
    LoadQuotesAppends(a.authors, QuotesLoad([], false), quoteRecs);
    LoadQuotesAborts(a.authors, QuotesLoad([], false), quoteRecs);
    forall k | 0 <= k < |quoteRecs|
      ensures quoteRecs[k].text.Some? && HasFullname(a.authors, quoteRecs[k].author.value)
    {
      var m :| 0 <= m < |authorRecs| && authorRecs[m].fullname == quoteRecs[k].author;
    }
    QuotesForCount(a.authors, quoteRecs);
    AllKnownCount(a.authors, quoteRecs);
  }

  lemma {:induction false} AllKnownCount(authors: seq<Author>, recs: seq<QuoteRecord>)
    requires forall k :: 0 <= k < |recs| ==> recs[k].author.Some? && HasFullname(authors, recs[k].author.value)
    ensures KnownAuthorCount(authors, recs) == |recs|
  {
    if recs != [] {
      AllKnownCount(authors, recs[1..]);
    }
  }
}
