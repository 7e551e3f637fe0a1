# Contact mailing queue and quote finder, modelled in Dafny

This project models two small MongoDB-backed programs and proves properties
of the model.

**Contact mailing pipeline (`rabbit_hw`)**
- `producer.py` creates fake `Contact` documents. Each has a name, a unique
  email and an `is_sent` flag.
- After saving each contact, it publishes the contact's id to the RabbitMQ
  queue `email_queue`.
- `consumer.py` consumes that queue with a prefetch of 1. For each message it:
  - reads the id from the body;
  - looks the contact up;
  - "sends" the email;
  - sets `is_sent`;
  - acknowledges the delivery.

**Quote database (`mongo_hw`)**
- `base_creator.py` loads `Authors` and `Quotes` documents from two JSON
  files.
- `finder.py` is an interactive loop. It reads `command:argument` lines and
  searches the quotes by author name, by one tag or by any of several tags.
  It stops on `exit`.

Modules:

| module | what it models |
|---|---|
| `Wrappers` | `Option` and `Result` |
| `ObjectIds` | ObjectIds, their 24-digit hexadecimal string form, and parsing that form |
| `Contacts` | the `Contact` schema, `save()` validation with the unique index, and the contacts collection as a class |
| `EmailQueue` | the broker's view of `email_queue`: declare, prefetch, publish, push with delivery tags, ack; also the channel as a class |
| `Producer` | `create_fake_contact`, `send_contact_to_queue` and `main(n)` |
| `Consumer` | `send_email`, `callback`, and `main` with its `start_consuming` loop |
| `Pipeline` | what the consumer does with what the producer enqueued |
| `Text` | Python's `str.strip()` and `str.split(sep)` |
| `QuoteModels` | the `Authors`/`Quotes` schema and the two collections as a class |
| `BaseCreator` | `load_authors`, `load_quotes` and the script's main block |
| `Finder` | the three searches, the parsing and dispatch of one input line, and the `while True: main()` loop |

Collections are sequences in insertion (natural) order. A query's `.first()`
is the first match in that order.

The state-changing code is modelled as methods, each proved against a pure
specification function:
- a class's methods update its fields: `ContactStore.contacts`, `Broker.q`,
  `QuoteDb.authors`/`quotes`;
- the loops of `producer.main`, `start_consuming`, `load_authors`,
  `load_quotes` and the finder's `while True` are `while` loops with
  invariants.

The properties are lemmas about those functions.

What the consumer's code does, and the model with it:
- The consumer does not check `is_sent` before sending, so a redelivered
  message sends the email again (`Consumer.RedeliverySendsAgain`).
- It acknowledges whether or not the contact was found.
- A body that is not an ObjectId string makes `objects(id=...)` raise. That
  delivery stays unacknowledged and the exception ends the consuming loop.
- No conditional update, retry counter or dead-letter routing exists in the
  code, so none is modelled.

Python behaviours modelled:

- **`text.split(":")`**
  - With exactly one colon, it gives `com` and `arg`.
  - With any other number of colons, the unpacking raises `ValueError`.
    `com` is then the whole text and `arg` stays unbound.
- **`name`, `tag` or `tags` without a colon** reach the unbound `arg`.
  The resulting `UnboundLocalError` ends the program with status 1.
- **`exit`** ends the program with status 0.
- **End of input** makes `input()` raise `EOFError`, which also gives status 1.
- **`strip()`** removes Python's white-space characters.
- **A JSON key indexed with `[...]` that is missing** raises `KeyError`, which
  ends the loader.
  - In `load_quotes`, the `"quote"` key is read even when the author is
    unknown, by the message printed in that branch.
  - So a record without it always raises.

## Model

| member | source | states |
|---|---|---|
| ObjectIds.IdSpaceDigits | rabbit_hw/consumer.py:43-44 | 24 hexadecimal digits cover exactly the 2^96 twelve-byte ObjectIds |
| ObjectIds.DigitValue | rabbit_hw/consumer.py:43-44 | a character is a hexadecimal digit (either case) exactly when it has a value, and that value is below 16 |
| ObjectIds.ToHexLowerCase | rabbit_hw/producer.py:62 | every digit `str(ObjectId)` writes is a lower-case hexadecimal digit |
| ObjectIds.FromHex | rabbit_hw/consumer.py:43-44 | a string has a hexadecimal value exactly when every character is a hex digit, and the value fits its number of digits; which value is pinned in both directions by `FromHexToHex` and `ToHexFromHex` |
| ObjectIds.FromHexToHex | rabbit_hw/consumer.py:43-44 | reading back the digits written for a number that fits the width gives that number |
| ObjectIds.LowerCase | rabbit_hw/consumer.py:43-44 | `lower()` on a hexadecimal string keeps its length and lowers each digit without changing its value |
| ObjectIds.ToHexFromHex | rabbit_hw/consumer.py:43-44 | writing back the value of any string of hexadecimal digits, at its own width, gives the string in lower case |
| ObjectIds.IdString | rabbit_hw/producer.py:62 | `str(contact_id)` is 24 characters long |
| ObjectIds.ParseObjectId | rabbit_hw/consumer.py:43-44 | the id query accepts a body exactly when it is 24 hexadecimal digits; which id it names is pinned by `ParseIdString` and `IdStringOfParsed` |
| ObjectIds.ParseIdString | rabbit_hw/consumer.py:43-44 | the body the producer writes for an id is read back by the consumer as that same id |
| ObjectIds.IdStringOfParsed | rabbit_hw/consumer.py:43-44 | the id the query reads from a body prints back as that body in lower case, so the body determines the id |
| ObjectIds.ParseIgnoresCase | rabbit_hw/consumer.py:43-44 | a body in upper, lower or mixed case names the same id as its lower-case spelling, and is accepted exactly when that spelling is |
| ObjectIds.IdStringLowerCase | rabbit_hw/producer.py:62 | the message body is lower-case hexadecimal |
| ObjectIds.IdStringInjective | rabbit_hw/consumer.py:44 | distinct ids give distinct bodies, so a message names exactly one contact |
| Contacts.Validate | rabbit_hw/model.py:34-36 | `save()` validation succeeds exactly when a name of at most 200 characters and an email are given; the stored contact carries them, and `is_sent` is true only when given as true (default false) |
| Contacts.IndexOfId | rabbit_hw/consumer.py:44 | `objects(id=...).first()` finds the first contact with that id, and finds none exactly when no contact has it |
| Contacts.FindById | rabbit_hw/consumer.py:44 | the lookup returns a stored contact with that id exactly when one exists |
| Contacts.Insert | rabbit_hw/model.py:34-36 | saving a new contact succeeds exactly when validation passes and neither the id nor the email is already stored (otherwise validation error or not-unique error); it appends the contact and keeps the table valid |
| Contacts.MarkSent | rabbit_hw/consumer.py:47-48 | setting `is_sent` and saving changes only that flag, only on the contact with that id, never clears a flag, and keeps the table valid |
| Contacts.ContactStore.Lookup | rabbit_hw/consumer.py:44 | the lookup on the stored collection returns a stored contact with the id, or none when no contact has it |
| Contacts.ContactStore.Save | rabbit_hw/producer.py:32 | `save()` appends exactly the validated contact when the insert succeeds, and otherwise reports the insert's error and changes nothing |
| Contacts.ContactStore.SaveSent | rabbit_hw/consumer.py:47-48 | the collection afterwards is the old one with that contact marked sent |
| EmailQueue.Declare | rabbit_hw/consumer.py:75 | `queue_declare` creates the queue and changes nothing else; on an existing queue it changes nothing |
| EmailQueue.DeclareIdempotent | rabbit_hw/producer.py:58 | declaring the queue again, as every publish does, is harmless |
| EmailQueue.Qos | rabbit_hw/consumer.py:76 | `basic_qos` sets the prefetch count and nothing else |
| EmailQueue.Publish | rabbit_hw/producer.py:59-63 | publishing through the default exchange appends the body to a declared queue and drops it when the queue does not exist |
| EmailQueue.PublishAfterDeclare | rabbit_hw/producer.py:58-63 | publishing right after declaring always enqueues the body at the tail |
| EmailQueue.Push | rabbit_hw/consumer.py:77-82 | the broker delivers the oldest ready message with the next delivery tag and holds it as unacknowledged |
| EmailQueue.PrefetchOneHoldsOneMessage | rabbit_hw/consumer.py:76 | with prefetch 1, no second message is delivered before the first is acknowledged |
| EmailQueue.Without | rabbit_hw/consumer.py:55 | acknowledging a tag removes exactly the deliveries with that tag and shrinks the outstanding list when one had it |
| EmailQueue.Ack | rabbit_hw/consumer.py:55 | `basic_ack` records the tag, removes its delivery from the outstanding ones, and changes nothing else |
| EmailQueue.Broker.QueueDeclare | rabbit_hw/consumer.py:75 | the channel's `queue_declare` on the broker state |
| EmailQueue.Broker.BasicQos | rabbit_hw/consumer.py:76 | the channel's `basic_qos` on the broker state |
| EmailQueue.Broker.BasicPublish | rabbit_hw/producer.py:59-63 | the channel's `basic_publish` on the broker state |
| EmailQueue.Broker.Deliver | rabbit_hw/consumer.py:82 | the broker's push of the next message to the consumer |
| EmailQueue.Broker.BasicAck | rabbit_hw/consumer.py:55 | the channel's `basic_ack` on the broker state |
| Consumer.SendEmail | rabbit_hw/consumer.py:16-27 | `send_email` reports success for every contact |
| Consumer.HandleMessage | rabbit_hw/consumer.py:29-55 | a callback never adds or removes contacts |
| Consumer.HandleAcksWellFormedBodies | rabbit_hw/consumer.py:43-55 | a delivery is acknowledged exactly when its body is an ObjectId string; otherwise nothing is sent or changed |
| Consumer.HandleUnknownId | rabbit_hw/consumer.py:43-45 | a body that reads as an id no contact has, in either case of hex digits, sends nothing and changes nothing, and the delivery is still acknowledged |
| Consumer.HandleKnownId | rabbit_hw/consumer.py:44-55 | a body naming a stored contact emails that contact as stored, marks it sent, leaves every other contact unchanged and acknowledges |
| Consumer.HandleTwice | rabbit_hw/consumer.py:45-48 | handling a message again leaves the table as the first time left it, but sends the email again, because `is_sent` is not consulted |
| Consumer.HandleStepFrame | rabbit_hw/consumer.py:44-48 | one callback keeps the table valid and every id in place |
| Consumer.ConsumeAll | rabbit_hw/consumer.py:82 | the consuming loop handles messages in delivery order, all of them unless a callback raises, and it raises exactly at the first body that is not an ObjectId string |
| Consumer.ConsumeAllFrame | rabbit_hw/consumer.py:47-48 | the loop changes no contact's id, name or email, and keeps the table valid |
| Consumer.ConsumeAllNeverClearsSent | rabbit_hw/consumer.py:47 | the loop never clears an `is_sent` flag |
| Consumer.ConsumeAllMarksFirstNamed | rabbit_hw/consumer.py:44-48 | the contact named by the first message ends marked sent |
| Consumer.ConsumeAllMarksNamedContacts | rabbit_hw/consumer.py:44-48 | every contact named by an acknowledged message ends marked sent |
| Consumer.ConsumeAllLeavesOthers | rabbit_hw/consumer.py:44-48 | a contact that no message names ends exactly as it was |
| Consumer.ConsumeAllKeepsSent | rabbit_hw/consumer.py:47-48 | a contact already marked sent ends exactly as it was |
| Consumer.DeliverHead | rabbit_hw/consumer.py:44-55 | handling the first of several messages that name distinct contacts emails and marks its contact and leaves the others for the rest |
| Consumer.ConsumeAllEmailsEach | rabbit_hw/consumer.py:44-55 | messages that name distinct stored contacts are all acknowledged, and each contact is emailed once, in message order, as stored |
| Consumer.ConsumeAllMarksEach | rabbit_hw/consumer.py:47-48 | each of those contacts ends as stored with `is_sent` set |
| Consumer.RedeliverySendsAgain | rabbit_hw/consumer.py:45-48 | a redelivered message sends the email a second time, while the table ends as after one delivery |
| Consumer.Callback | rabbit_hw/consumer.py:29-55 | the callback on the store and channel does what `HandleMessage` says, and acknowledges the delivery exactly when it does not raise |
| Consumer.TagRangeAt | rabbit_hw/consumer.py:55 | the k-th acknowledgement of the loop carries the k-th delivery's tag |
| Consumer.DrainedStep | rabbit_hw/consumer.py:76-82 | with nothing outstanding and prefetch 1, the broker can push the next message, and acknowledging it moves the queue on by exactly one message |
| Consumer.ResumesAfterAck | rabbit_hw/consumer.py:82 | after an acknowledged message, the rest of the loop still produces the whole run |
| Consumer.ResumesAtEnd | rabbit_hw/consumer.py:82 | when the queue is empty, the loop's state is the whole run |
| Consumer.ResumesAfterRaise | rabbit_hw/consumer.py:82 | a callback that raises ends the run where it stands |
| Consumer.ConsumeQueue | rabbit_hw/consumer.py:57-82 | `main` declares the queue, sets prefetch 1 and consumes; store, emails, crash and queue end as `ConsumeAll` says |
| Consumer.DeliverNext | rabbit_hw/consumer.py:82 | one push of the loop delivers the next ready message with the next tag |
| Consumer.PullOne | rabbit_hw/consumer.py:82 | one turn of `start_consuming` either acknowledges and moves on by one message, or raises and ends the run |
| Consumer.StartConsuming | rabbit_hw/consumer.py:77-82 | the loop over the queued messages ends with store, emails, crash flag and queue state equal to the `ConsumeAll` run |
| Producer.FakeContact | rabbit_hw/producer.py:28-31 | the contact built from Faker's name and email has `is_sent` false and is what validation stores |
| Producer.Bodies | rabbit_hw/producer.py:62 | one message body per contact, in order, and the consumer's id query reads each body back as its contact's id |
| Producer.CreateFakeContact | rabbit_hw/producer.py:19-33 | `create_fake_contact` appends the fake contact when the save succeeds, and otherwise raises the save's error and changes nothing |
| Producer.SendContactToQueue | rabbit_hw/producer.py:35-64 | `send_contact_to_queue` declares the queue and publishes the id's string |
| Producer.PublishAll | rabbit_hw/producer.py:76-79 | the queue after one `send_contact_to_queue` per body, in order (stated by `PublishAllEnqueues` and `PublishAllSnoc`) |
| Producer.PublishAllEnqueues | rabbit_hw/producer.py:76-79 | publishing a sequence of bodies appends them, in order, to the ready messages, and changes nothing else |
| Producer.PublishAllSnoc | rabbit_hw/producer.py:76-79 | publishing one more body is one more declare-and-publish |
| Producer.Produce | rabbit_hw/producer.py:66-79 | `main(n)` over the fake identities: create and save a contact per identity, stopping at the first save that raises (stated by `ProduceAppends` and `EnqueuedIdsResolve`) |
| Producer.ProduceAppends | rabbit_hw/producer.py:66-79 | `main(n)` only appends; the k-th new contact is the k-th fake with `is_sent` false; all are created unless a save raised; the table stays valid |
| Producer.EnqueuedIdsResolve | rabbit_hw/producer.py:77-78 | every enqueued body parses back to its contact's id, and the lookup finds exactly that contact |
| Producer.ResumesAfterSave | rabbit_hw/producer.py:76-79 | after a successful save, the rest of the loop still produces the whole result |
| Producer.ResumesAfterRaise | rabbit_hw/producer.py:76-79 | a save that raises ends `main` with what was created so far and that error |
| Producer.ResumesAtEnd | rabbit_hw/producer.py:76-79 | after the last fake identity, the loop's state is the whole result |
| Producer.ProduceOne | rabbit_hw/producer.py:77-78 | one turn of `main`: save, then publish the id; a save that raises changes neither store nor queue |
| Producer.ProducerMain | rabbit_hw/producer.py:66-79 | `main(n)` over `range(n)` (none when n is not positive) ends as `Produce` says, with the created ids published in creation order |
| Pipeline.AppendedPositions | rabbit_hw/producer.py:76-79 | the producer's bodies name the appended contacts, one each, in order |
| Pipeline.ConsumeAppendedEmails | rabbit_hw/consumer.py:29-55 | consuming the bodies for appended contacts emails each of them once, in order, as stored, with no crash |
| Pipeline.MarksByPosition | rabbit_hw/consumer.py:47-48 | the per-message marks, re-indexed by position among the appended contacts |
| Pipeline.ConsumeAppendedMarks | rabbit_hw/consumer.py:47-48 | each appended contact ends as stored, marked sent |
| Pipeline.ConsumeAppendedLeavesBefore | rabbit_hw/consumer.py:44-48 | the contacts that were there before are left unchanged |
| Pipeline.ProducedContactsAreEmailed | rabbit_hw/producer.py:76-79 | after the producer's `main` and a drain of its messages, every message is acknowledged, each new contact is emailed once in creation order and ends marked sent, and the old contacts are untouched |
| Text.LeadingSpaces | mongo_hw/finder.py:112-114 | counts the white space `strip()` removes at the front |
| Text.TrailingSpaces | mongo_hw/finder.py:112-114 | counts the white space `strip()` removes at the back |
| Text.Strip | mongo_hw/finder.py:112-114 | `strip()` never lengthens the line; what it cuts is stated by `StripTrims` |
| Text.StripTrims | mongo_hw/finder.py:112-114 | `strip()` gives a slice of the line with only white space cut on either side; it neither starts nor ends with white space, and it is empty exactly when the line is all white space |
| Text.StripIdempotent | mongo_hw/finder.py:112-114 | stripping twice is stripping once |
| Text.IndexOf | mongo_hw/finder.py:116 | finds the first occurrence of the separator, and none exactly when it is absent |
| Text.Split | mongo_hw/finder.py:116 | `split(sep)` gives at least one part, and no part holds the separator |
| Text.CountAppend | mongo_hw/finder.py:116 | separator counts add up over a concatenation |
| Text.CountAbsent | mongo_hw/finder.py:116 | a text without the separator counts none |
| Text.JoinSplit | mongo_hw/finder.py:141 | joining the parts of `split(sep)` with the separator gives back the text |
| Text.SplitCount | mongo_hw/finder.py:116 | `split(sep)` gives one part more than there are separators |
| QuoteModels.FirstByName | mongo_hw/finder.py:63 | `Authors.objects(fullname=name).first()` is the first author so named, and none exactly when no author has the name |
| QuoteModels.FirstByNameExtend | mongo_hw/base_creator.py:62-70 | saving more authors never changes which author a name already resolves to |
| QuoteModels.QuoteDb.SaveAuthor | mongo_hw/base_creator.py:64-70 | `Authors(...).save()` appends an author with the given fields and a fresh id, and keeps the collections consistent |
| QuoteModels.QuoteDb.SaveQuote | mongo_hw/base_creator.py:93-98 | `Quotes(...).save()` with a stored author appends the quote and keeps every reference valid |
| BaseCreator.AddAuthor | mongo_hw/base_creator.py:61-73 | one record: a missing `fullname` raises; a name already stored is skipped; otherwise a new author with the record's optional fields is saved |
| BaseCreator.LoadAuthorsSpec | mongo_hw/base_creator.py:47-73 | `load_authors` as one `AddAuthor` per record, in file order (stated by the `LoadAuthors...` lemmas) |
| BaseCreator.LoadAuthorsAfterAbort | mongo_hw/base_creator.py:61-73 | after a `KeyError`, no later record is read |
| BaseCreator.LoadAuthorsExtends | mongo_hw/base_creator.py:61-73 | loading authors only appends, with consecutive fresh ids |
| BaseCreator.LoadAuthorsAborts | mongo_hw/base_creator.py:62 | loading raises exactly when some record lacks `fullname` |
| BaseCreator.LoadAuthorsConsistent | mongo_hw/base_creator.py:61-73 | loading keeps ids unique, below the next id, and every quote reference valid |
| BaseCreator.LoadAuthorsNoNewDuplicates | mongo_hw/base_creator.py:62-63 | loading never stores two authors with the same full name |
| BaseCreator.LoadAuthorsAllPresent | mongo_hw/base_creator.py:61-73 | after a complete load, every record's full name is stored |
| BaseCreator.LoadAuthorsNewFromRecords | mongo_hw/base_creator.py:63-70 | every author the load adds comes from a record and was not stored under that name before |
| BaseCreator.QuoteFor | mongo_hw/base_creator.py:90-98 | a quote is saved exactly when the record has `author` and `quote` and the author is stored; it references the first author so named, and its tags default to `[]` |
| BaseCreator.AddQuote | mongo_hw/base_creator.py:89-105 | one record: a missing `author` or `quote` key raises; otherwise the quote is appended when its author is known and skipped when not |
| BaseCreator.LoadQuotesSpec | mongo_hw/base_creator.py:75-105 | `load_quotes` as one `AddQuote` per record, in file order (stated by the `LoadQuotes...` and `QuotesFor...` lemmas) |
| BaseCreator.LoadQuotesAfterAbort | mongo_hw/base_creator.py:89-105 | after a `KeyError`, no later record is read |
| BaseCreator.QuotesFor | mongo_hw/base_creator.py:89-98 | at most one quote is saved per record |
| BaseCreator.QuotesForSnoc | mongo_hw/base_creator.py:89-98 | one more record adds at most its own quote, at the end |
| BaseCreator.LoadQuotesAborts | mongo_hw/base_creator.py:90-104 | loading raises exactly when some record lacks `author` or `quote`, even when its author is unknown |
| BaseCreator.LoadQuotesAppends | mongo_hw/base_creator.py:89-105 | loading quotes only appends, and a complete load appends exactly the records' quotes with known authors, in order |
| BaseCreator.QuotesForCount | mongo_hw/base_creator.py:91-92 | the number of quotes saved is the number of records whose author is stored |
| BaseCreator.QuotesForReferences | mongo_hw/base_creator.py:93-97 | every saved quote references a stored author |
| BaseCreator.LoadAuthors | mongo_hw/base_creator.py:47-73 | `load_authors` changes the authors as the record-by-record specification says, and leaves the quotes alone |
| BaseCreator.LoadQuotes | mongo_hw/base_creator.py:75-105 | `load_quotes` changes the quotes as the record-by-record specification says, and leaves the authors alone |
| BaseCreator.CreateBase | mongo_hw/base_creator.py:108-110 | the script loads authors and then quotes; a `KeyError` while loading authors stops it before any quote is read |
| BaseCreator.LoadedAuthorsResolveQuotes | mongo_hw/base_creator.py:108-110 | on an empty database, when every quote's author appears in the authors file, every quote is saved |
| BaseCreator.AllKnownCount | mongo_hw/base_creator.py:91-92 | when every record's author is stored, every record counts |
| Finder.Select | mongo_hw/finder.py:65-66 | a query's texts are at most one per stored quote, and none exactly when no quote matches |
| Finder.SelectAppend | mongo_hw/finder.py:79-80 | a query over two stretches of the collection is the query over each, in order |
| Finder.SelectMember | mongo_hw/finder.py:79-80 | a text is found exactly when some matching quote has it |
| Finder.SelectCongruent | mongo_hw/finder.py:92-93 | filters that agree on every stored quote find the same texts |
| Finder.SubsequenceAppend | mongo_hw/finder.py:92-93 | a subsequence stays one when both sides gain the same head |
| Finder.SelectNarrower | mongo_hw/finder.py:92-93 | a narrower filter finds a subsequence of what a wider one finds |
| Finder.SearchByAuthor | mongo_hw/finder.py:53-67 | `search_by_author` finds nothing when no author has the name, and otherwise the texts of the quotes referencing the first author so named |
| Finder.SearchByAuthorExactly | mongo_hw/finder.py:63-66 | a text is found for a name exactly when a quote of the first author so named has it |
| Finder.SearchByTag | mongo_hw/finder.py:69-80 | `search_by_tag`: the texts of the stored quotes whose tags contain the tag, in stored order (stated by `SearchByTagExactly`) |
| Finder.SearchByTagExactly | mongo_hw/finder.py:69-80 | a text is found for a tag exactly when a quote carrying the tag has it |
| Finder.SearchByTags | mongo_hw/finder.py:82-93 | `search_by_tags`: the texts of the stored quotes carrying any listed tag, in stored order (stated by the three lemmas below) |
| Finder.SearchByNoTags | mongo_hw/finder.py:82-93 | an empty tag list finds nothing |
| Finder.SearchByOneTag | mongo_hw/finder.py:82-93 | searching a one-tag list is searching that tag |
| Finder.SearchByTagWithinTags | mongo_hw/finder.py:82-93 | what one tag of a list finds is found, in the same order, by the whole list |
| Finder.ParseCommand | mongo_hw/finder.py:115-118 | the `try`/`except ValueError` split of the stripped line (stated by `ParseCommandSplits`) |
| Finder.ParseCommandSplits | mongo_hw/finder.py:115-118 | text with exactly one colon splits into two colon-free parts around it; any other text is the command, with `arg` unbound |
| Finder.ParseNoColon | mongo_hw/finder.py:115-118 | text without a colon is the command, with `arg` unbound |
| Finder.OnlyColonSplits | mongo_hw/finder.py:116 | a text with one colon has only one split around it |
| Finder.ParseOneColon | mongo_hw/finder.py:115-116 | `com:arg` with colon-free parts parses to that command and argument |
| Finder.DispatchCommand | mongo_hw/finder.py:120-150 | the `match com:` of `main` (stated by `CommandUnbound`, `DispatchWrong` and the lemmas below) |
| Finder.Dispatch | mongo_hw/finder.py:112-150 | one pass of `main` on one input line: strip, split, match (stated by `DispatchUnbound`, `DispatchExit` and `DispatchTags`) |
| Finder.DispatchUnbound | mongo_hw/finder.py:115-148 | a line reaches the unbound `arg` exactly when, stripped, it is `name`, `tag` or `tags` |
| Finder.TextUnbound | mongo_hw/finder.py:115-148 | the same for an already stripped text |
| Finder.CommandUnbound | mongo_hw/finder.py:120-148 | the three search commands are the only ones that read `arg`, and they fail only when it is unbound |
| Finder.DispatchExit | mongo_hw/finder.py:120-123 | `exit`, or `exit:` followed by anything without a colon, ends the program |
| Finder.DispatchTags | mongo_hw/finder.py:140-148 | `tags:a,b,...` searches for the comma-separated tags |
| Finder.DispatchWrong | mongo_hw/finder.py:149-150 | a line is a wrong command exactly when its command is none of the four |
| Finder.Answers | mongo_hw/finder.py:112-150 | one reply per line; a line that strips to `exit` says goodbye, and a line crashes on the unbound `arg` exactly when it strips to `name`, `tag` or `tags` |
| Finder.Run | mongo_hw/finder.py:153-155 | a run shows at most one reply per line and exits with status 0 or 1 |
| Finder.RunShowsPrefix | mongo_hw/finder.py:153-155 | a run shows every reply up to the first one that ends the program; its status is that reply's (0 after `exit`, 1 after an unbound `arg`), or 1 when the input runs out (`EOFError`) |
| Finder.RunAppend | mongo_hw/finder.py:153-155 | lines that do not end the program do not change how later lines are handled |
| Finder.DispatchExitWord | mongo_hw/finder.py:121-123 | the line `exit` says goodbye |
| Finder.RunStopsAtBye | mongo_hw/finder.py:121-123 | once every earlier line is answered, `exit` ends the run with status 0, and nothing after it is read |
| Finder.Session | mongo_hw/finder.py:153-155 | the finder over the lines typed: `Run` of each line's reply (stated by `RunShowsPrefix` and `RunStopsAtBye`) |
| Finder.RunFinder | mongo_hw/finder.py:153-155 | the `while True: main()` loop over the lines typed shows the replies and ends with the status that `Session` gives |

## Left out

- Connections, environment variables and credentials are not modelled. This covers MongoDB's `connect(...)`, RabbitMQ's `BlockingConnection` with its retry settings, `connection.close()` and `load_dotenv`. They are I/O with no state the programs read back.
- `print` output is left out: the per-contact and per-quote messages, the finder's headings and the "No quotes ... finded." lines. A finder reply records what would be printed (the search, its argument and the texts found), not the text itself.
- Faker's `name()` and `email()`, and the ObjectId that a new document receives, are inputs (`Producer.FakeIdentity`). The ids of `Authors` documents come from a counter in `QuoteDb`. Random and clock-based id generation is not modelled.
- Message bodies are modelled after `body.decode()`, as strings. A body that is not valid UTF-8 would raise `UnicodeDecodeError` before the id query, leaving the delivery unacknowledged and ending the consuming loop; the producer only writes ASCII bodies.
- The ObjectId string check is modelled as exactly 24 hexadecimal digits. `bson`'s `ObjectId(str)` checks the length and then calls `bytes.fromhex`, which skips ASCII white space between digit pairs, so a 24-character body holding white space is not rejected at once, and what follows is library-internal. The producer never writes such a body.
- `EmailField`'s address-format check is not modelled. Emails are opaque strings that must be present and unique.
- `start_consuming` runs forever. The model drains the messages queued when it starts and stops early when a callback raises. Messages published while it runs, and `KeyboardInterrupt` with its exit status 0, are not modelled.
- The producer opens a new connection for every contact. The model uses one broker state for all of them. The producer's script-level `int(input(...))` parse is not modelled: on a non-integer it prints and then fails on the unbound `task`. `main(n)` takes `n` directly, with one fake identity supplied per iteration.
- The JSON files are read as sequences of records whose fields are strings or absent. A JSON `null`, a non-string value, a missing file and malformed JSON are not modelled.
- `input()` is modelled as the sequence of lines typed. Running out of lines is `EOFError`.
- Only one consumer runs, so competing consumers, redelivery after a lost connection and broker durability are not modelled.
- `rabbit_hw/models.py` repeats the `Contact` schema of `rabbit_hw/model.py` and is not part of this model.
- Consumer.HandleMessage: its own contract states only that the table keeps its length. What it does is stated by `HandleAcksWellFormedBodies`, `HandleUnknownId`, `HandleKnownId` and `HandleTwice`.
- Finder.Run: its own contract bounds the replies and the status only. What it shows is stated by `RunShowsPrefix`, `RunAppend` and `RunStopsAtBye`.
