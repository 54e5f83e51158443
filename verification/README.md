# KantanDB: a verified model

KantanDB keeps JSON documents in one ordered space of byte keys. This project models the parts of it that are hard
to get right and proves what they promise:

- **Order-preserving encodings** (`Bytes`, `Sizes`, `Digits`, `Decimals`, `SortableNumber`, `Utf8`, `SortableString`, `IndexValue`,
  `Parts`, `Keys`, `IndexEntry`). Exact decimals and strings become bytes that sort as the values do, that are never a prefix of
  one another, and that can be cut out of a longer key again. Ranges of keys made with `prefixEnd` hold exactly the
  records they are meant to hold.
- **The store** (`KeyValue`, `Catalog`, `Definitions`, `IndexUpdates`, `Operations`, `Drawing`, `Engine`). `Represents` ties the key space to
  a store free of bytes: a record for each database, document and definition, and an index entry for exactly the
  values that recomputing the index would give. `Storage` is the engine with its seven writing operations; each fills one
  batch that takes the representation of a store to that of the next.
- **Concurrency** (`Stripes`, `Programs`, `Locking`, `Machine`, `Refinement`, `Runs`, `Batches`, `Progress`, `Readers`). Any number of operations,
  readers among them, run one instruction at a time in any interleaving, under striped readers-writer locks on databases and striped
  mutexes on documents. Every run is a sequence of atomic operations on the store, the index is exact in every state, no
  state is deadlocked, conditional writes do not overtake one another, and every query of a named index answers for one store of
  the run. A path query plans under one lock and runs under a later one; through an index it answers for the later store exactly if
  the name of that index still stands for the path there.
- **Queries** (`Bounds`, `Answers`, `Scan`, `QueryIndex`, `Cursors`, `Listing`, `Paging`, `IndexPages`, `ListingPages`, `Pointer`,
  `QueryNodes`, `JsonPath`, `PathQuery`, `Plans`, `WorkScan`, `PathScan`, `PathExecute`, `PathPages`). Operators become iterator bounds, a
  JSONPath scan is replaced by an index, a scan is bounded in its work, pages are joined by sealed cursors. Each is
  proved to give what filtering all documents would give, also while the store changes between the pages.
- **Bulk data and identifiers** (`Bulk`, `Exports`, `Ids`, `Picks`, `Names`).

The model takes the form of the code. What the source computes by expressions is a function; a loop over a buffer, an iterator, a
stack or a batch is a method with its invariants, proved against such a function; the engine, the iterator and the export stream
are classes.

## How to read it

`Represents(kv, a)` is the invariant of the store. Methods that read or write the key space take the store it represents as a ghost
parameter `a`, and promise what they promise for every `a` with `Represents(kv, a)`; `RepresentsUnique` shows that there is at most
one. `Runs.RunRefines` supplies it for every state of every run, so the query results below hold of every
reachable store.

`Machine.Step` is one step of one thread. A thread's program is given by `Programs.At`; reads look at the key space as it is at
that moment, and a commit applies one batch that fits what the thread has read (`Operations.BatchFor`), not what the store
holds. That these are the same is `Refinement.CommitRefines`. Failures of the disk and of the random source may
happen at every instruction but the taking of a lock.

Random draws (identifiers, revisions, keys, nonces) are arbitrary values. `Storage` takes what the generator yields as a list, and
fails where the list runs out; in the machine a new revision is any that differs from the one it replaces. Sealing a document is an injective pairing of key, place and content that only
opens under the same key and place; the cursor cipher and base64 are functions that undo one another, with the sizes of the
real ones, and the cipher opens nothing that was not sealed (`Cursors.Ideal`).

Where the code and expectation differ, the code is followed:

- `readPart` accepts lengths that are spelled longer than needed: every part has a second encoding (`Parts.NonMinimalLength`), so
  decoding is not injective on bytes. A key is the encoding of what is read from it exactly if its length takes one byte or does not
  end in a zero byte (`Parts.ReadExact`), and among such keys decoding is injective (`Parts.MinimalInjective`). The round trips hold.
- `validSortableNumber` accepts more than `encodeIndexValue` makes, because the length test on the fraction is stricter.
  `SortableNumber.ValidNumberExact` says what it accepts and `IndexValue.NumberAccepted` what can be indexed. Values with an exponent
  at either end of the range are accepted and never made (`IndexValue.AcceptedNeverMade`), `0.1 * 10^4096` for one
  (`IndexValue.LargestPower`). On strings both are the same (`IndexValue.ValidStringExact`).
- `executePathQuery` checks the planned index by name only. If the database was deleted and made anew after planning, with an index of that
  name on another pointer, the query succeeds with the documents of that pointer (`Plans.PlanGoesStale`). The planned index is right,
  whatever is stored and asked, exactly if its definition at the time of the query is that of the path (`Plans.PlanExact`);
  without a new database in between it is (`Readers.PlannedAnswers`).
- A carriage return at the end of a full read buffer counts towards the line limit. `Bulk.ReadBulk` states exactly when reading
  succeeds for every way of cutting a stream, and `Bulk.AnyCut` that without carriage returns the cut does not matter. The buffer of
  4096 bytes that the reader has cuts a line only at multiples of 4096 from its own start, so a stream within all limits is refused
  exactly if one of its lines ends in a carriage return and a newline, has exactly as many bytes as a line may have, and that number
  is one less than a multiple of 4096 (`Bulk.BufferedReads`). `Bulk.FullLineRefused` is such a stream, with an object of 4095 bytes under a
  limit of 4095 as the smallest case.
- With an identifier but no value as cursor, `queryRangePage` skips to the first entry of that document; `QueryIndex.QueryRange`
  covers this mode, the paging results use the cursors that clients get, which have both.

## Model

| member | source | states |
|---|---|---|
| `Bytes.PrefixEndExact` | storage.go:953-964 | the keys from a prefix up to `prefixEnd` of it are exactly the keys that start with it, also for trailing 0xff bytes and with no upper bound |
| `Bytes.ComputePrefixEnd` | storage.go:953-964 | the loop editing a copy of the prefix computes that bound |
| `SortableNumber.NumberOrder` | index.go:188-239 | for all finite decimals, byte order of the encodings is numeric order, encodings are equal exactly for equal numbers, and different ones are never prefixes of one another |
| `SortableNumber.EncodeSortableNumber` | index.go:188-239 | counting factors, scaling, dropping zeros and complementing in place produce the specified encoding |
| `SortableNumber.CountFactors` | index.go:196-208 | the division loops take out all factors of two or five |
| `SortableNumber.DropTrailingZeros` | index.go:218-221 | stripping zeros from the digits lowers the scale by as many |
| `SortableNumber.ComplementInPlace` | index.go:234-236 | each byte of the buffer is complemented in place |
| `Decimals.NormalFormCorrect` | index.go:193-223 | the digits and exponent found are a normal form and denote the fraction |
| `Decimals.NormalFormUnique` | index.go:193-223 | a normal form denotes the fraction exactly if it is the one found |
| `SortableNumber.ValidNumberExact` | query_cursor.go:155-187 | a byte string is accepted exactly when it encodes some finite decimal within the size limits |
| `SortableNumber.CheckSortableNumber` | query_cursor.go:155-187 | the checking loop decides that predicate |
| `SortableString.StringOrder` | index.go:241-252 | byte order of encoded strings is byte order of the strings, embedded zero bytes included, and different encodings are never prefixes of one another |
| `SortableString.EncodeSortableString` | index.go:241-252 | the escaping loop produces the specified encoding |
| `SortableString.ValidExact` | query_cursor.go:189-211 | accepted exactly when it encodes a well-formed UTF-8 string of at most 4095 bytes |
| `SortableString.CheckSortableString` | query_cursor.go:189-211 | the decoding loop decides that predicate |
| `IndexValue.NumberAccepted` | index.go:149-166 | which numbers can be indexed, both size tests included |
| `IndexValue.IntegerAccepted` | index.go:149-166 | a whole number can be indexed exactly if it has at most 4095 digits, or 4094 behind a minus sign |
| `IndexValue.FractionAccepted` | index.go:149-166 | any other number exactly if the parts of its fraction in lowest terms, the slash and the sign fit 4095 characters and it has at most 4096 significant digits |
| `IndexValue.AcceptedNeverMade` | query_cursor.go:155-187 | values with an exponent of -4095 or less or of 4096 are accepted and are the encoding of no JSON value |
| `IndexValue.StringAccepted` | index.go:167-174 | every well-formed string of at most 4095 bytes can be indexed, and no other |
| `IndexValue.ValidStringExact` | query_cursor.go:138-153 | values accepted under the string tag are exactly the encodings of indexable strings |
| `IndexValue.CapIsTight` | index.go:26-31 | the cap on encoded values is reached by an indexable string |
| `IndexValue.PrefixFree` | query_cursor.go:138-153 | no accepted value is a prefix of another |
| `IndexValue.ScalarOrder` | index.go:137-186 | between scalars of one type, encodings compare as the scalars do |
| `Parts.ReadPartBack` | index.go:271-286 | a length-prefixed part is read back whatever follows it |
| `Parts.ReadExact` | index.go:277-286 | a key is the encoding of the part and rest read from it exactly if its length takes one byte or does not end in a zero byte |
| `Parts.MinimalInjective` | index.go:277-286 | two keys with such lengths and the same part and rest are equal |
| `Parts.NonMinimalLength` | index.go:277-286 | every part that fits a slice has an encoding with a longer length that is read the same |
| `Keys.EncodeInjective` | storage.go:919-938 | different records have different keys |
| `Keys.EntryOrder` | index.go:306-314 | keys of one index sort by value and then by identifier |
| `Keys.TypeRange` | index.go:300-304 | the type prefix covers exactly the entries of the index with values of that type |
| `IndexEntry.SplitIndexKey` | index.go:619-675 | splitting an index key under its type prefix gives back value and identifier |
| `IndexEntry.Split` | index.go:619-675 | the scanning loops compute the specified split |
| `Names.ValidateName` | validation.go:30-44 | the scan accepts exactly the valid names |
| `Names.NameGrows` | validation.go:30-44 | valid names are one lower-case letter followed by lower-case letters, digits, underscores and hyphens, 63 characters at most |
| `Names.ValidateId` | validation.go:46-64 | the scan accepts exactly the valid identifiers |
| `Ids.ValidExact` | validation.go:46-64 | the valid identifiers are exactly those that can be made |
| `Pointer.ValidatePointer` | index.go:60-76 | accepted exactly when it starts with a slash, is short, well-formed UTF-8 and correctly escaped |
| `Pointer.ValidExact` | index.go:60-76 | the accepted texts are exactly those of non-empty lists of well-formed names, escaped, in at most 256 bytes |
| `Utf8.ValidExact` | index.go:60-76 | well-formed are exactly the texts of Unicode scalar values |
| `Pointer.TwoPassesAgree` | index.go:110-113 | replacing in two passes decodes a token as reading it from left to right does |
| `Pointer.NamesRoundTrip` | query.go:270-278 | escaping any list of names and splitting and decoding the pointer gives the list back |
| `Pointer.PointersOneToOne` | index.go:60-76 | accepted pointers and lists of names correspond one to one |
| `Pointer.CanonicalExact` | index.go:123-125 | a token is an array index exactly if it is the decimal text of one |
| `Pointer.ItoaDigits` | index.go:123-125 | that text is the decimal digits of the number |
| `Pointer.PointerValue` | index.go:110-135 | the loop over the tokens finds the value they select |
| `Pointer.SelectsMember` | index.go:115-121 | in an object a pointer selects what its rest selects in the member of its first name, and nothing if there is none |
| `Pointer.SelectsElement` | index.go:122-130 | in an array the decimal text of a number leads to the element with that number, counted from zero, and to nothing behind the last |
| `Pointer.SelectsNothing` | index.go:122-133 | no other name leads to an element, and nothing is selected in a scalar |
| `QueryNodes.CheckQueryNodes` | query.go:471-495 | succeeds exactly when the tree has no more nodes than the limit, in whatever order children are pushed |
| `QueryNodes.SizeIsPlaces` | query.go:471-495 | the nodes counted are the places in the document, each once |
| `KeyValue.Iterator.StartAfter` | storage.go:537-544 | seeking a cursor and stepping over it leaves exactly the keys behind it |
| `Definitions.ValidateIndexes` | index.go:38-58 | accepts exactly the lists of at most 16 valid definitions with different names |
| `Definitions.IndexValues` | index.go:78-108 | fails exactly when an index refuses the document and otherwise returns its entries |
| `Definitions.Indexes` | index.go:333-367 | on a represented store, the definitions of the database by name, and never corruption |
| `IndexUpdates.SetIndexEntries` | index.go:379-387 | the batch sets the entries of the values and leaves all other keys as they were |
| `IndexUpdates.ChangeIndexEntries` | index.go:389-409 | the batch deletes exactly the entries lost and sets exactly those gained |
| `IndexUpdates.DeleteIndexEntries` | index.go:411-419 | the batch deletes exactly the entries of the values |
| `Catalog.RepresentsUnique` | storage.go:93-135 | the key space determines the store |
| `Catalog.UpdateRepresents` | storage.go:279-293 | writing a document with its index delta keeps the index what recomputing it gives |
| `Catalog.IndexedMeans` | index.go:78-108 | a document is refused exactly if some index path selects a number or string that cannot be indexed, and has an entry for exactly the other scalars selected |
| `Engine.DeletesExactly` | storage.go:195-209 | the four writes of a database deletion remove every key of that database and none of any other |
| `Operations.CommitRepresents` | storage.go:236-296 | committing the batch of an operation takes the representation of a store to that of the store after it |
| `Operations.DocumentWritten` | storage.go:564-628 | create and replace leave the document they are given under the new revision, patch the patched one, delete none |
| `Operations.DatabaseWritten` | storage.go:93-135 | a new database has exactly the definitions given and no documents, a deleted one is gone |
| `Operations.RefusedExactly` | storage.go:564-612 | for every operation, when each error is the answer, with wildcard and absent conditions and unfit index values spelled out |
| `Operations.PostFrame` | storage.go:564-628 | operations on documents leave other databases, keys, definitions and other documents alone |
| `Operations.PutAllAdds` | storage.go:400-425 | an import puts each input under its identifier |
| `Engine.Storage.CreateDb` | storage.go:93-135 | refused for the reason the store gives, else the new database is there without documents |
| `Engine.Storage.DeleteDb` | storage.go:175-215 | refused if there is no such database, else the store without it |
| `Engine.Storage.CreateDoc` | storage.go:236-296 | refused with the first reason in the order of the checks, else the document and its entries are added unless there is no revision to draw |
| `Engine.Storage.ReplaceDoc` | storage.go:564-628 | refused with the first reason, revision mismatch included, else the document is replaced under a drawn revision that differs, unless all draws equal the current one |
| `Engine.Storage.PatchDoc` | storage.go:630-699 | the same with the document computed from the current one |
| `Engine.Storage.DeleteDoc` | storage.go:701-752 | refused with the first reason, else the document and its entries are gone |
| `Engine.Storage.ImportDocs` | storage.go:355-434 | fails for a missing database, if and only if the generator runs out of identifiers, for a document that is refused or for a batch over the limit, and then changes nothing; else one document for each input is added under identifiers that were free |
| `Engine.Storage.DrawIds` | storage.go:372-393 | different valid identifiers none of which is in use, unless every attempt collides until the generator runs out |
| `Drawing.DrawsSuffice` | storage.go:372-393 | if `h` of different draws are in use, draws for `h + 1` attempts are enough |
| `Drawing.MakeImportIds` | storage.go:436-460 | the identifiers of the shortest stretch of draws with enough different ones, each once and with the next revision; fails exactly if the draws have too few |
| `Engine.FillImport` | storage.go:400-425 | the batch is the concatenation of one part for each document up to the first that is refused or makes it too large, and of all if there is none |
| `Drawing.MakeRevision` | storage.go:907-917 | the first of the draws that differs from the previous revision; fails exactly if all of them equal it |
| `Stripes.LockDocs` | storage.go:476-494 | the stripes of the documents, each once, in ascending order |
| `Stripes.StripeOfNames` | storage.go:758-771 | the stripes are the low six and eight bits of one hash over the names, with a zero byte between them |
| `Stripes.HashConcat` | storage.go:773-780 | the hash takes the bytes one after the other |
| `Stripes.XorBits` | storage.go:773-780 | the exclusive or of the hash goes bit by bit |
| `Programs.LocksAscend` | storage.go:52-54 | every operation takes its database lock first and then document locks in ascending order |
| `Programs.AtGuarded` | storage.go:236-275 | nothing is read without the lock that guards it |
| `Locking.FindRunnable` | storage.go:758-780 | following who waits for whom, announced writers included, ends at a thread that is not blocked |
| `Locking.TakeExclusive` | storage.go:758-764 | taking a lock nobody obstructs keeps conflicting locks with different threads apart |
| `Locking.WaitsForConflict` | storage.go:758-780 | a reader waits only for a writer of its stripe, a writer for a user of its stripe, a document for an operation on its stripe; readers do not wait for one another |
| `Locking.BlockedExactly` | storage.go:758-780 | a new reader or writer waits exactly while another writer is in or announced, an announced writer while a reader is in, a document lock while it is held |
| `Refinement.CurrentAfter` | storage.go:564-628 | what a thread has read under its locks outlives the commit of any other thread |
| `Refinement.CommitRefines` | storage.go:564-628 | a commit made from what a thread has read is the atomic operation on the store as it is then |
| `Refinement.RefuseJustified` | storage.go:564-612 | a refusal has a reason that holds of the store at that moment, and is never corruption |
| `Refinement.StepRefines` | storage.go:93-752 | each step of any thread is one atomic operation on the store or leaves it unchanged, and keeps the invariant |
| `Runs.RunRefines` | storage.go:93-752 | every interleaving from a store at rest has the effect of its commits in order, and every state represents the store reached |
| `Runs.IndexAlwaysExact` | index.go:379-419 | in every state of every run the index entries are exactly those of the stored documents and definitions, and every key belongs to a database that exists |
| `Runs.SeenIsStored` | storage.go:564-628 | in every state of every run, what a thread has found in a document's place under its locks is what is stored there |
| `Runs.WriteIsStored` | storage.go:564-628 | in any interleaving, the content and revision stored after a committed write are those it was given |
| `Runs.AtMostOneSucceeds` | storage.go:584-586 | two writes conditioned on the same revision succeed only with another write of the document in between that draws it again |
| `Runs.ConditionalWrites` | storage.go:754-756 | the same of the interleaved machine and the revisions it stores |
| `Runs.ImportAddsAll` | storage.go:355-434 | a committed import has added exactly one document for each input under different identifiers that were free, and nothing else |
| `Runs.ImportAllOrNothing` | storage.go:355-474 | in any interleaving an import adds all its documents or, failing, leaves the key space unchanged |
| `Batches.BatchExists` | storage.go:269-293 | for everything an operation can have read of a valid store there is a batch for it to commit |
| `Progress.CanCommit` | storage.go:564-628 | a thread that has read everything and found no reason to stop can commit |
| `Progress.CanDraw` | storage.go:436-460 | an import about to draw finds as many different valid identifiers as it needs outside any set of fewer than 2^63, such as those in use |
| `Progress.SomeThreadSteps` | storage.go:476-494 | if an operation is under way, one that is under way can take a lock, read, draw identifiers, commit, unlock or refuse for a reason of the store |
| `Progress.NeverDeadlocked` | storage.go:758-780 | so in every state of every run |
| `Readers.ReaderSeesOneStore` | index.go:425-453 | the database record and the definitions a query has read are those of the store its later snapshot represents, whatever is written in between |
| `Readers.QueryAnswers` | index.go:425-485 | in any interleaving a query answers for one store of the run: its check for the index is right and what its iterator reads is the answer |
| `Readers.ReaderRefused` | index.go:430-436 | a query is refused for a missing database only if there is none at that moment |
| `Readers.PlannedAnswers` | query.go:155-181 | in any interleaving, a path query that planned in an earlier reader reads exactly the documents the path matches in the later store if the index is still for the path there, and it is if the database was not made anew in between |
| `Bounds.BoundsExact` | index.go:542-554 | the keys between the bounds of a query are exactly the entries of its index whose value is of its type and compares as asked |
| `Answers.KeysGiveAnswer` | index.go:557-609 | the keys from a cursor on give the matching entries behind it, by value and identifier |
| `Answers.AnswerUnique` | index.go:516-617 | the answer to a query is determined |
| `Answers.MatchingMeans` | index.go:137-186 | a document is in the answer exactly if the scalar under the index path compares as asked, numbers by value and strings by bytes |
| `Answers.BeforeMeans` | index.go:557-609 | the order of an answer is that of the scalars, and of the identifiers where those are the same |
| `Scan.Collect` | index.go:573-609 | the page loop returns the items behind the cursor up to one more than the limit, and without a cursor to skip to it fails exactly if one of those is broken, on any key space |
| `Scan.BehindItemExact` | index.go:573-609 | skipping to a cursor leaves what follows the first item at it |
| `QueryIndex.QueryDocs` | index.go:425-502 | the error the store gives, else the first documents with the value behind the cursor, by identifier, and whether there are more; never corruption |
| `QueryIndex.RefusedExactly` | index.go:430-450 | when a query is refused for a missing database, a missing index or its value |
| `QueryIndex.IntactIsReadable` | index.go:460-500 | on any key space, the entries of a page are read exactly if each has no content, ends in an identifier and has its document |
| `QueryIndex.QueryRange` | index.go:516-617 | the same for comparisons, by value and identifier, with the value of the last entry |
| `Cursors.IdealExists` | query_cursor.go:45-51 | there is a cipher and a text encoding with the properties assumed of them |
| `Cursors.EncodeQueryCursor` | query_cursor.go:32-52 | succeeds exactly on valid cursors, and the token decodes to the cursor |
| `Cursors.DecodeQueryCursor` | query_cursor.go:54-109 | consuming the fields one by one gives the specified cursor, and only valid ones |
| `Cursors.QueryPayloadFits` | query_cursor.go:15-19 | a valid cursor fits the declared size and is read back |
| `Cursors.EncodePathCursor` | path_cursor.go:42-65 | succeeds exactly on valid cursors, and the token decodes to the cursor |
| `Cursors.DecodePathCursor` | path_cursor.go:67-134 | consuming the fields one by one gives the specified cursor, and only valid ones |
| `Cursors.PathPayloadFits` | path_cursor.go:12-16 | a valid cursor fits the declared size and is read back |
| `Cursors.QueryTokenExact` | query_cursor.go:54-78 | a token is accepted exactly if it seals a payload of the right version and size that reads as a valid cursor |
| `Cursors.PathTokenExact` | path_cursor.go:67-134 | the same for path tokens |
| `Cursors.KindsApart` | path_cursor.go:12-16 | no token is good for both kinds of query |
| `Listing.QueryStart` | server.go:562-577 | the value and identifier handed to the store are the place the token was made for, or the token is refused |
| `Listing.ListIndexed` | server.go:392-464 | a response holds the first entries of the answer from the request's token on, and its token takes the query up behind the last of them |
| `Listing.TokenGoodExactly` | server.go:571-574 | a token is taken exactly if database, index, operator and value in it are those of the request |
| `Listing.ForeignTokenRefused` | server.go:571-574 | the token of a response is refused by every request that differs in one of them |
| `Paging.ExactlyOnePage` | server.go:451-461 | what is there for every page is on exactly one page, whatever else changes between the pages |
| `Paging.PagesAreAll` | server.go:451-461 | on contents that do not change the pages put together are all of them in order |
| `IndexPages.DocumentOnOnePage` | index.go:573-616 | a matching document not written in the meantime is on exactly one page, and there once |
| `IndexPages.PagesAreAnswer` | index.go:573-616 | on a fixed store the pages put together are the whole answer |
| `IndexPages.LessIsLeft` | index.go:573-616 | on a fixed store each page leaves exactly the rest of the answer, which is shorter |
| `ListingPages.DocumentInOneResponse` | server.go:451-461 | a client that follows the tokens to the end finds a document whose scalar compares as asked, and that is not written, in exactly one response, and only such documents in any |
| `ListingPages.ResponseInOrder` | index.go:557-609 | within a response the scalars ascend, and the identifiers where they are the same |
| `JsonPath.PathPointer` | query.go:261-289 | a pointer exactly for non-empty paths of single names that no array takes for an index, and then that of the names |
| `JsonPath.PathIsPointer` | query.go:261-289 | such a path selects what its pointer selects |
| `JsonPath.SingleIsPointer` | query.go:261-289 | a path of names and indices selects what the pointer of their texts selects if every container is of the kind asked for, and nothing otherwise |
| `JsonPath.SelectsMore` | query.go:447-469 | a segment more selects what any of its selectors picks in any value selected so far |
| `JsonPath.PickFromEnd` | query.go:447-469 | a negative index counts from the end |
| `JsonPath.PathMatches` | query.go:447-469 | fails exactly when the document has too many nodes, else tells whether any of the values selected can be indexed and compares as asked, numbers by value and strings by bytes |
| `PathQuery.PlanPathQuery` | query.go:142-184 | an index is chosen exactly if one stands for the path, and then the first by name |
| `PathQuery.PlanSound` | query.go:173-181 | the documents found through the planned index are exactly those the scan would match |
| `PathQuery.PathMatchingMeans` | query.go:447-469 | the documents a path query is after are those with a selected scalar that compares as asked |
| `Plans.PlanExact` | index.go:441-447 | the index of a plan finds exactly the documents the path matches, whatever is stored and asked, if and only if its definition when the query runs is that of the path |
| `Plans.PlanGoesStale` | query.go:414-424 | whenever the name goes to another pointer, deleting, making anew and adding one document lead to a store where the planned index misses a document the path matches |
| `PathScan.ScanDocs` | query.go:325-381 | the scan stops at the end, at the work bound, or at one hit too many and then goes back to the last it shows |
| `PathScan.QueryPathDocs` | query.go:291-381 | a page shows the matching documents up to where it stopped, gets further than its cursor, stops short only when full or after looking at as many documents as it may, and fails exactly if it comes to a document that is too large, with fewer documents before it than the work bound and no more hits than the limit |
| `PathExecute.ExecutePathQuery` | query.go:383-445 | by scan or by index, the page of the answer from the request's token on, and a token that takes the query up where the page left off |
| `PathExecute.TokenGoodExactly` | path_cursor.go:170-180 | a token is taken exactly if all it says of the query is so, field by field, the hash of the path and the plan included |
| `PathExecute.ForeignTokenRefused` | path_cursor.go:170-180 | a token is refused by every query with another database, path, operator, value or plan |
| `PathPages.ScansAreFilter` | query.go:325-381 | on a fixed store the pages of a scan put together are the matching documents in the order of their identifiers |
| `PathPages.FewerAhead` | query.go:325-337 | for every work bound, each page with more to come leaves fewer documents to look at, even an empty one |
| `PathPages.DocumentScannedOnce` | query.go:399-444 | a client following the tokens of a scan finds a document with a selected scalar that compares as asked, and that is not written, in exactly one response |
| `PathPages.DocumentIndexedOnce` | query.go:399-444 | the same when the planned index answers under definitions that stay, and the responses hold only documents with such a scalar |
| `Bulk.ReadBulk` | bulk.go:60-122 | for every way the reader cuts the stream, succeeds exactly when all limits hold, every line is a document and no full buffer leaves too long a partial line, and returns the documents in order; otherwise the error is true of the stream and the line it names is the first at fault |
| `Bulk.ImportableExact` | bulk.go:60-122 | for a stream of texts ended by a newline, by a return and a newline, or by its end, that all limits hold and every line is a document means so of the texts |
| `Bulk.PiecesExist` | bulk.go:137-158 | every stream is made of such texts |
| `Bulk.AnyCut` | bulk.go:60-122 | without carriage returns the way of cutting does not matter |
| `Bulk.BufferedReads` | bulk.go:61-79 | with the 4096 byte buffer of the reader, succeeds exactly when all limits hold, every line is a document and no line of the full length has a carriage return that fills up a buffer |
| `Bulk.FullLineRefused` | bulk.go:73-76 | whenever the line limit is one less than a multiple of 4096, an object of that length ended by a carriage return and a newline keeps to all limits and is refused |
| `Bulk.FullLineCut` | bulk.go:68-76 | how the reader cuts that stream when the limit is 4095 |
| `Bulk.LineLen` | bulk.go:137-147 | the length of the content of a complete line, and of all of a partial one |
| `Bulk.ExportReadsBack` | bulk.go:171-190 | reading a non-empty export within the limits gives back the documents exported |
| `Bulk.BulkStream.Write` | bulk.go:171-190 | the output grows by the document and a newline, and less than a buffer stays pending |
| `Bulk.Export` | storage.go:327-347 | writing documents one after the other and flushing sends each on a line of its own, in order |
| `Exports.ExportDocs` | storage.go:298-353 | all documents of the database in the order of their identifiers, and never corruption |
| `Ids.MakeId` | id.go:10-37 | filling the bytes and writing the text in place gives a valid identifier with the specified layout |
| `Ids.BitsKept` | id.go:10-25 | identifiers are the same only if the time and all 74 random bits are |
| `Ids.EnoughIds` | storage.go:436-460 | there are as many different valid identifiers as are asked for outside any set of taken ones, up to 2^64 in all |
| `Ids.LaterSortsLater` | id.go:16-22 | an identifier made in a later millisecond sorts later, whatever was drawn at random |

## Left out

- HTTP routing, handlers, status codes, timeouts, cancellation and shutdown: plumbing around the operations modelled here.
- AES-GCM, HKDF, Zstandard and the record formats in crypto.go and document.go: a sealed document opens only under its key and place, and the cursor cipher is ideal.
- Pebble: only the ordered map, atomic batches, snapshots and bounded iterators; what is on disk after a failed sync is not modelled.
- JSON text: documents are JSON values with exact decimals. That validated text is canonical is an assumption of `Bulk.ExportReadsBack`, stated as `Bulk.Storable`.
- The JSONPath parser, `safePath` and `validatePathText`: paths start as segments, and what selectors other than names and indices select is left open.
- JSON Patch and Merge Patch: in a patch operation the change is an arbitrary partial function.
- Plain listing of documents and databases, reading one document, configuration, ETag parsing: they would only add easy members.
- The store's own metadata record under the key 0x00 (crypto.go): the key space of the model holds databases, documents, definitions and index entries only, and no operation modelled here reads or writes that key.
- The iteration of a query after its snapshot as steps of the machine: it reads the snapshot alone, so the query methods run on the state the snapshot was taken in.
- The key for cursors is read before the query takes its lock (storage.go:892, query.go:384): `Listing.ListIndexed` and `PathExecute.ExecutePathQuery` run on one key space, so a database deleted or made anew between the two is not covered by them.
- What operations and path queries return on a key space that represents no store: index queries, exports and the reading of definitions find broken records there, the others promise only to leave it as it is when they refuse.
- Programs.LocksAscend: liveness is freedom from deadlock, not from starvation.
- SortableNumber.NumberOrder: asks for exponents that fit 64 bits, as those of all numbers that fit in memory do.
- Refinement.StepRefines: a thread whose import collides draws again as often as it takes; that this ends is claimed of the draws (`Drawing.DrawsSuffice`), not of the machine.
- Scan.Collect: the page loops of `queryDocsCtx` and `queryRangePage` are one method with the reading of an entry as a parameter, and `Scan.CollectAll` is that of `exportDocs` and `indexes`.
