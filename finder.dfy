/**
 * The quote finder: three searches over the quotes collection and the
 * command loop that reads `command:argument` lines and runs them.
 */
module Finder {
  import opened Wrappers
  import opened QuoteModels
  import opened Text

  /**
   * `[quote.quote for quote in Quotes.objects(<filter>)]`: the texts of the
   * quotes the filter keeps, in stored order.
   */
  function Select(quotes: seq<Quote>, keep: Quote -> bool): (r: seq<string>)
    ensures |r| <= |quotes|
    ensures r == [] <==> forall k :: 0 <= k < |quotes| ==> !keep(quotes[k])
  {
    if quotes == [] then []
    else (if keep(quotes[0]) then [quotes[0].text] else []) + Select(quotes[1..], keep)
  }

  /** Selecting from two stretches of the collection is selecting from each, in order. */
  lemma {:induction false} SelectAppend(a: seq<Quote>, b: seq<Quote>, keep: Quote -> bool)
    ensures Select(a + b, keep) == Select(a, keep) + Select(b, keep)
  {
    if a == [] {
      assert a + b == b;
    } else {
      assert (a + b)[1..] == a[1..] + b;
      SelectAppend(a[1..], b, keep);
    }
  }

  /** A text is in the result exactly when some kept quote has it. */
  lemma {:induction false} SelectMember(quotes: seq<Quote>, keep: Quote -> bool, t: string)
    ensures t in Select(quotes, keep) <==> exists k :: 0 <= k < |quotes| && keep(quotes[k]) && quotes[k].text == t
  {
    if quotes != [] {
      SelectMember(quotes[1..], keep, t);
      if exists k :: 0 <= k < |quotes| && keep(quotes[k]) && quotes[k].text == t {
        var k :| 0 <= k < |quotes| && keep(quotes[k]) && quotes[k].text == t;
        if k > 0 {
          assert quotes[1..][k - 1] == quotes[k];
        }
      }
      if exists k :: 0 <= k < |quotes[1..]| && keep(quotes[1..][k]) && quotes[1..][k].text == t {
        var k :| 0 <= k < |quotes[1..]| && keep(quotes[1..][k]) && quotes[1..][k].text == t;
        assert quotes[k + 1] == quotes[1..][k];
      }
    }
  }

  /** Filters that agree on every stored quote select the same texts. */
  lemma {:induction false} SelectCongruent(quotes: seq<Quote>, keep1: Quote -> bool, keep2: Quote -> bool)
    requires forall k :: 0 <= k < |quotes| ==> keep1(quotes[k]) == keep2(quotes[k])
    ensures Select(quotes, keep1) == Select(quotes, keep2)
  {
    if quotes != [] {
      assert forall k :: 0 <= k < |quotes[1..]| ==> quotes[1..][k] == quotes[k + 1];
      SelectCongruent(quotes[1..], keep1, keep2);
    }
  }

  /** `a` is `b` with some elements left out, the rest in the same order. */
  predicate IsSubsequence<T(==)>(a: seq<T>, b: seq<T>)
    decreases |b|
  {
    if a == [] then true
    else if b == [] then false
    else (a[0] == b[0] && IsSubsequence(a[1..], b[1..])) || IsSubsequence(a, b[1..])
  }

  lemma {:induction false} SubsequenceAppend<T>(a: seq<T>, b: seq<T>, x: T)
    requires IsSubsequence(a, b)
    ensures IsSubsequence(a, [x] + b) && IsSubsequence([x] + a, [x] + b)
  {
    assert ([x] + b)[1..] == b;
    assert ([x] + a)[1..] == a;
  }

  /** A narrower filter selects a subsequence of what a wider one selects. */
  lemma {:induction false} SelectNarrower(quotes: seq<Quote>, narrow: Quote -> bool, wide: Quote -> bool)
    requires forall k :: 0 <= k < |quotes| ==> narrow(quotes[k]) ==> wide(quotes[k])
    ensures IsSubsequence(Select(quotes, narrow), Select(quotes, wide))
  {
    if quotes != [] {
      assert forall k :: 0 <= k < |quotes[1..]| ==> quotes[1..][k] == quotes[k + 1];
      SelectNarrower(quotes[1..], narrow, wide);
      var a := Select(quotes[1..], narrow);
      var b := Select(quotes[1..], wide);
      var x := quotes[0].text;
      if wide(quotes[0]) {
        SubsequenceAppend(a, b, x);
        assert Select(quotes, wide) == [x] + b;
        if narrow(quotes[0]) {
          assert Select(quotes, narrow) == [x] + a;
        } else {
          assert Select(quotes, narrow) == a;
        }
      } else {
        assert Select(quotes, narrow) == a && Select(quotes, wide) == b;
      }
    }
  }

  /** `Quotes.objects(author=author)` */
  function AuthoredBy(id: AuthorId): Quote -> bool {
    (q: Quote) => q.author == id
  }

  /** `Quotes.objects(tags=tag)` on a list field: the list holds `tag`. */
  function Tagged(tag: string): Quote -> bool {
    (q: Quote) => tag in q.tags
  }

  /** `Quotes.objects(tags__in=tags)`: the list shares at least one tag with `tags`. */
  function TaggedAny(tags: seq<string>): Quote -> bool {
    (q: Quote) => exists t :: t in tags && t in q.tags
  }

  /** `search_by_author(name)`: the quotes of the first author so named, or none if there is no such author. */
  function SearchByAuthor(authors: seq<Author>, quotes: seq<Quote>, name: string): (r: seq<string>)
    ensures !HasFullname(authors, name) ==> r == []
    ensures HasFullname(authors, name) ==>
      var id := authors[FirstByName(authors, name).value].id;
      r == Select(quotes, AuthoredBy(id))
  {
    match FirstByName(authors, name)
    case None => []
    case Some(i) => Select(quotes, AuthoredBy(authors[i].id))
  }

  /** `search_by_tag(tag)` */
  function SearchByTag(quotes: seq<Quote>, tag: string): seq<string> {
    Select(quotes, Tagged(tag))
  }

  /** `search_by_tags(tags)` */
  function SearchByTags(quotes: seq<Quote>, tags: seq<string>): seq<string> {
    Select(quotes, TaggedAny(tags))
  }

  /** The texts found for an author are exactly the texts of the quotes referencing the first author with that name. */
  lemma SearchByAuthorExactly(authors: seq<Author>, quotes: seq<Quote>, name: string, t: string)
    requires HasFullname(authors, name)
    ensures var id := authors[FirstByName(authors, name).value].id;
      t in SearchByAuthor(authors, quotes, name) <==>
        exists k :: 0 <= k < |quotes| && quotes[k].author == id && quotes[k].text == t
  {
    var id := authors[FirstByName(authors, name).value].id;
    SelectMember(quotes, AuthoredBy(id), t);
  }

  /** The texts found for a tag are exactly the texts of the quotes carrying it. */
  lemma SearchByTagExactly(quotes: seq<Quote>, tag: string, t: string)
    ensures t in SearchByTag(quotes, tag) <==> exists k :: 0 <= k < |quotes| && tag in quotes[k].tags && quotes[k].text == t
  {
    SelectMember(quotes, Tagged(tag), t);
  }

  /** An empty tag list finds nothing. */
  lemma SearchByNoTags(quotes: seq<Quote>)
    ensures SearchByTags(quotes, []) == []
  {
    assert forall k :: 0 <= k < |quotes| ==> !TaggedAny([])(quotes[k]);
  }

  /** Searching for a one-tag list is searching for that tag. */
  lemma SearchByOneTag(quotes: seq<Quote>, tag: string)
    ensures SearchByTags(quotes, [tag]) == SearchByTag(quotes, tag)
  {
    SelectCongruent(quotes, TaggedAny([tag]), Tagged(tag));
  }

  /** What one tag of a list finds is found, in the same order, by the whole list. */
  lemma SearchByTagWithinTags(quotes: seq<Quote>, tag: string, tags: seq<string>)
    requires tag in tags
    ensures IsSubsequence(SearchByTag(quotes, tag), SearchByTags(quotes, tags))
  {
    SelectNarrower(quotes, Tagged(tag), TaggedAny(tags));
  }

  /** `com, arg = text.split(":")`; when that raises `ValueError`, `com = text` and `arg` stays unbound. */
  datatype Command = Command(com: string, arg: Option<string>)

  function ParseCommand(text: string): Command {
    var parts := Split(text, ':');
    if |parts| == 2 then Command(parts[0], Some(parts[1])) else Command(text, None)
  }

  /**
   * Text with exactly one colon is split around it into two colon-free
   * parts; any other text is the command itself, with `arg` unbound.
   */
  lemma ParseCommandSplits(text: string)
    ensures var c := ParseCommand(text);
      && (Count(text, ':') == 1 ==> c.arg.Some? && ':' !in c.com && ':' !in c.arg.value && c.com + [':'] + c.arg.value == text)
      && (Count(text, ':') != 1 ==> c == Command(text, None))
  {
    var parts := Split(text, ':');
    SplitCount(text, ':');
    JoinSplit(text, ':');
    if |parts| == 2 {
      assert parts[1..] == [parts[1]];
    }
  }

  datatype Search = ByName | ByTag | ByTags

  /**
   * What one pass of `main` does: exit with status 0, list the texts a search
   * found (the "No quotes ... finded." message when there are none), report a
   * wrong command, or stop the program with `UnboundLocalError` (status 1).
   */
  datatype Reply = Bye | Found(search: Search, arg: string, texts: seq<string>) | WrongCommand | Unbound

  predicate Ends(r: Reply) {
    r.Bye? || r.Unbound?
  }

  function ExitStatus(r: Reply): int {
    if r.Bye? then 0 else 1
  }

  /** The `match com:` of `main`, once the line is split. */
  function DispatchCommand(authors: seq<Author>, quotes: seq<Quote>, c: Command): Reply {
    if c.com == "exit" then Bye
    else if c.com == "name" then
      if c.arg.None? then Unbound else Found(ByName, c.arg.value, SearchByAuthor(authors, quotes, c.arg.value))
    else if c.com == "tag" then
      if c.arg.None? then Unbound else Found(ByTag, c.arg.value, SearchByTag(quotes, c.arg.value))
    else if c.com == "tags" then
      if c.arg.None? then Unbound else Found(ByTags, c.arg.value, SearchByTags(quotes, Split(c.arg.value, ',')))
    else WrongCommand
  }

  /** One pass of `main` on one input line. */
  function Dispatch(authors: seq<Author>, quotes: seq<Quote>, line: string): Reply {
    DispatchCommand(authors, quotes, ParseCommand(Strip(line)))
  }

  /** Text without a colon is the command, with `arg` unbound. */
  lemma ParseNoColon(text: string)
    requires ':' !in text
    ensures ParseCommand(text) == Command(text, None)
  {
    CountAbsent(text, ':');
    ParseCommandSplits(text);
  }

  lemma OnlyColonSplits(a: string, b: string, c: string, d: string)
    requires ':' !in a && ':' !in c && a + [':'] + b == c + [':'] + d
    ensures a == c && b == d
  {
    var s := a + [':'] + b;
    assert forall i :: 0 <= i < |a| ==> s[i] == a[i];
    assert forall i :: 0 <= i < |c| ==> s[i] == c[i];
    assert s[|a|] == ':' && s[|c|] == ':';
    assert |a| == |c|;
    assert a == s[..|a|] && c == s[..|c|];
    assert b == s[|a| + 1..] && d == s[|c| + 1..];
  }

  /** Text with exactly one colon is split around it. */
  lemma ParseOneColon(com: string, arg: string)
    requires ':' !in com && ':' !in arg
    ensures ParseCommand(com + [':'] + arg) == Command(com, Some(arg))
  {
    var text := com + [':'] + arg;
    CountAppend(com + [':'], arg, ':');
    CountAppend(com, [':'], ':');
    CountAbsent(com, ':');
    CountAbsent(arg, ':');
    var c := ParseCommand(text);
    ParseCommandSplits(text);
    OnlyColonSplits(c.com, c.arg.value, com, arg);
  }

  /** A search command without its colon reaches the unbound `arg`, and that is the only way to. */
  lemma DispatchUnbound(authors: seq<Author>, quotes: seq<Quote>, line: string)
    ensures Dispatch(authors, quotes, line) == Unbound <==> Strip(line) in ["name", "tag", "tags"]
  {
    TextUnbound(authors, quotes, Strip(line));
  }

  lemma TextUnbound(authors: seq<Author>, quotes: seq<Quote>, text: string)
    ensures DispatchCommand(authors, quotes, ParseCommand(text)) == Unbound <==> text in ["name", "tag", "tags"]
  {
    CommandUnbound(authors, quotes, ParseCommand(text));
    if text == "name" || text == "tag" || text == "tags" {
      assert ':' !in "name" && ':' !in "tag" && ':' !in "tags";
      ParseNoColon(text);
    }
  }

  lemma CommandUnbound(authors: seq<Author>, quotes: seq<Quote>, c: Command)
    ensures DispatchCommand(authors, quotes, c) == Unbound <==> c.arg.None? && c.com in ["name", "tag", "tags"]
  {
  }

  /** `exit` ends the program with status 0, whatever follows a colon. */
  lemma DispatchExit(authors: seq<Author>, quotes: seq<Quote>, line: string, rest: string)
    requires Strip(line) == "exit" || (Strip(line) == "exit:" + rest && ':' !in rest)
    ensures Dispatch(authors, quotes, line) == Bye
  {
    if Strip(line) == "exit" {
      ParseNoColon("exit");
    } else {
      assert "exit:" + rest == "exit" + [':'] + rest;
      ParseOneColon("exit", rest);
    }
  }

  /** `tags:a,b,...` searches for the comma-separated tags. */
  lemma DispatchTags(authors: seq<Author>, quotes: seq<Quote>, line: string, arg: string)
    requires Strip(line) == "tags:" + arg && ':' !in arg
    ensures Dispatch(authors, quotes, line) == Found(ByTags, arg, SearchByTags(quotes, Split(arg, ',')))
  {
    assert "tags:" + arg == "tags" + [':'] + arg;
    ParseOneColon("tags", arg);
  }

  /** Anything that is not one of the four commands is reported as wrong and searches nothing. */
  lemma DispatchWrong(authors: seq<Author>, quotes: seq<Quote>, c: Command)
    ensures DispatchCommand(authors, quotes, c) == WrongCommand <==> c.com !in ["exit", "name", "tag", "tags"]
  {
  }

  /** What a run of the finder shows and how it ends. */
  datatype Outcome = Outcome(replies: seq<Reply>, status: int)

  /**
   * The reply `main` would give to each line typed, taken on its own: a line
   * that strips to `exit` says goodbye, and a line crashes on the unbound
   * `arg` exactly when it strips to a bare search word.
   */
  function Answers(authors: seq<Author>, quotes: seq<Quote>, lines: seq<string>): (rs: seq<Reply>)
    ensures |rs| == |lines|
    ensures forall k :: 0 <= k < |lines| && Strip(lines[k]) == "exit" ==> rs[k] == Bye
    ensures forall k :: 0 <= k < |lines| ==> (rs[k] == Unbound <==> Strip(lines[k]) in ["name", "tag", "tags"])
  {
    var rs := seq(|lines|, k requires 0 <= k < |lines| => Dispatch(authors, quotes, lines[k]));
    assert forall k :: 0 <= k < |lines| ==>
      && (Strip(lines[k]) == "exit" ==> rs[k] == Bye)
      && (rs[k] == Unbound <==> Strip(lines[k]) in ["name", "tag", "tags"])
    by {
      forall k | 0 <= k < |lines|
        ensures Strip(lines[k]) == "exit" ==> rs[k] == Bye
        ensures rs[k] == Unbound <==> Strip(lines[k]) in ["name", "tag", "tags"]
      {
        DispatchUnbound(authors, quotes, lines[k]);
        if Strip(lines[k]) == "exit" {
          DispatchExit(authors, quotes, lines[k], []);
        }
      }
    }
    rs
  }

  /**
   * `while True: main()` given the reply to each line in turn: replies are
   * shown until one that ends the program (`exit`, status 0, or an unbound
   * `arg`, status 1); when the input runs out first, `input()` raises
   * `EOFError` (status 1).
   */
  function Run(rs: seq<Reply>): (o: Outcome)
    ensures |o.replies| <= |rs|
    ensures o.status == 0 || o.status == 1
  {
    if rs == [] then Outcome([], 1)
    else if Ends(rs[0]) then Outcome([], ExitStatus(rs[0]))
    else
      var rest := Run(rs[1..]);
      Outcome([rs[0]] + rest.replies, rest.status)
  }

  /** The finder over the lines typed. */
  function Session(authors: seq<Author>, quotes: seq<Quote>, lines: seq<string>): Outcome {
    Run(Answers(authors, quotes, lines))
  }

  /**
   * A run shows every reply up to the first one that ends the program, and
   * its status is that reply's (0 after `exit`), or 1 when the input runs out.
   */
  lemma {:induction false} RunShowsPrefix(rs: seq<Reply>)
    ensures var o := Run(rs);
      && o.replies == rs[..|o.replies|]
      && (forall k :: 0 <= k < |o.replies| ==> !Ends(rs[k]))
      && (|o.replies| < |rs| ==> Ends(rs[|o.replies|]) && o.status == ExitStatus(rs[|o.replies|]))
      && (|o.replies| == |rs| ==> o.status == 1)
  {
    if rs != [] && !Ends(rs[0]) {
      RunShowsPrefix(rs[1..]);
      var rest := Run(rs[1..]);
      var o := Run(rs);
      assert o.replies == [rs[0]] + rest.replies;
      assert rest.replies == rs[1..][..|rest.replies|];
      assert o.replies == rs[..|o.replies|];
      forall k | 0 <= k < |o.replies|
        ensures !Ends(rs[k])
      {
        if k > 0 {
          assert rs[k] == rs[1..][k - 1];
        }
      }
      if |o.replies| < |rs| {
        assert rs[|o.replies|] == rs[1..][|rest.replies|];
      }
    }
  }

  /** Replies that do not end the program do not change how the later ones are handled. */
  lemma {:induction false} RunAppend(before: seq<Reply>, after: seq<Reply>)
    requires forall k :: 0 <= k < |before| ==> !Ends(before[k])
    ensures Run(before + after) == Outcome(before + Run(after).replies, Run(after).status)
  {
    if before == [] {
      assert before + after == after;
    } else {
      var rs := before + after;
      assert rs[0] == before[0];
      assert rs[1..] == before[1..] + after;
      RunAppend(before[1..], after);
      assert [before[0]] + (before[1..] + Run(after).replies) == before + Run(after).replies;
    }
  }

  /** `exit`, alone on its line, says goodbye. */
  lemma DispatchExitWord(authors: seq<Author>, quotes: seq<Quote>)
    ensures Dispatch(authors, quotes, "exit") == Bye
  {
    assert LeadingSpaces("exit") == 0 && TrailingSpaces("exit") == 0;
    assert Strip("exit") == "exit";
    assert ':' !in "exit";
    ParseNoColon("exit");
  }

  /**
   * Once every reply before it has been shown, a goodbye ends the run with
   * status 0, and nothing after it is read.
   */
  lemma RunStopsAtBye(before: seq<Reply>, after: seq<Reply>)
    requires forall k :: 0 <= k < |before| ==> !Ends(before[k])
    ensures Run(before + [Bye] + after) == Outcome(before, 0)
  {
    assert before + [Bye] + after == before + ([Bye] + after);
    RunAppend(before, [Bye] + after);
    assert ([Bye] + after)[0] == Bye;
    assert before + [] == before;
  }

  /** The finder's loop over the lines typed, against `Session`. */
  method RunFinder(db: QuoteDb, lines: seq<string>) returns (replies: seq<Reply>, status: int)
    ensures Outcome(replies, status) == Session(db.authors, db.quotes, lines)
  {
    var authors, quotes := db.authors, db.quotes;
    ghost var rs := Answers(authors, quotes, lines);
    replies := [];
    status := 1;
    var i := 0;
    while i < |lines|
      invariant i <= |lines|
      invariant Run(rs) == Outcome(replies + Run(rs[i..]).replies, Run(rs[i..]).status)
    {
      var reply := Dispatch(authors, quotes, lines[i]);
      assert rs[i..][0] == reply;
      assert rs[i..][1..] == rs[i + 1..];
      if Ends(reply) {
        status := ExitStatus(reply);
        return;
      }
      replies := replies + [reply];
      i := i + 1;
    }
    assert rs[i..] == [];
  }
}
