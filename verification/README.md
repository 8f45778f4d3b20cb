# Verified models of the SQL engine, its ledgers and its web stack

The repository is a small SQL engine over a key-value store, with a double-entry journal and a hash-chained ledger
written as scripts on top of it, served by an HTTP, JSON, template and token stack that it carries in source form. This
project models the parts of it that keep state, transform data or have to undo one another, and proves what they promise.
Methods and classes stand where the original works step by step: they have its fields, loops and branches, and each is
proved against a function. What that function means is then said a second time without it, in the terms of a caller or of a
standard (the modules named Meaning, Instances, Grammar, Text, Strings, Docs, Events, Answer), and the two are proved to agree.

| part | files | main results |
|---|---|---|
| route trie | RoutePattern, RouteInstances, TrieNodes, TrieCompression, TrieRules, Trie | `Trie.Trie.Find`: every URL gets the first rule whose pattern, with the returned arguments written in, is the URL, before and after compression |
| HTTP requests | HttpControl, HttpRun, HttpParser, HttpFraming, HttpHeaders, HttpUrls, HttpRequest, HttpMessages, HttpMeaning | `HttpRun.CutsDoNotMatter`, `HttpParser.HTTPParser.Execute`, `HttpMessages.HandleConnection`, `HttpMeaning.WrittenRequestIsHandled` |
| JSON values | PicoText, PicoParse, PicoRoundTrip, PicoStrings, PicoGrammar, PicoJson | `PicoGrammar.ParseIff`: exactly the texts of JSON are parsed, each as its value; `PicoRoundTrip.RoundTrip` |
| templates | MustacheTemplate, MustacheContext, MustacheMeaning, MustacheLayout, MustacheLines, MustacheRender, MustacheDocs, MustacheRoundTrip, MustacheTags | `MustacheRender.Template.RenderInternal`, `MustacheRoundTrip.CompileAndRender`, `MustacheDocs.SaysIsPage`, `MustacheLines.PassDropsLines` |
| store, index, queries | Database, Multimaps, Indexing, IndexManager, Selecting, Pushdown, Grouping, SelectMeaning, JoinMeaning, SelectAnswer, QueryExecutor | `QueryExecutor.HandleSelect`, `SelectAnswer.SelectMeans`, `Pushdown.PushdownIff`, `Selecting.IndexAgreesWithScanIff`, `Indexing.EveryRunMirrors`, `Grouping.GroupsAddUp` |
| base64url | Base64, Base64Text | `Base64Text.EncodedIsRfc`, `Base64.RoundTrip`, `Base64.PaddedDecodesIff`, `Base64.CanonicalIff` |
| JSON strings in place | CrowJsonText, CrowStrings, CrowJson | `CrowJson.StringValue.Unescape`, `CrowStrings.StringIff`, `CrowStrings.DecodedIff`, `CrowJson.DumpAndRead` |
| event streams | Sse, SseEvents | `Sse.FrameAppend`, `SseEvents.ReceiveEvents` |
| block ledger | LedgerIds, LedgerChain, LedgerRules, RuleMeaning, LedgerBalance, Ledger | `LedgerChain.Codec.TamperEvidence`, `Ledger.LedgerState.AddTransaction`, `Ledger.LedgerState.Serve`, `LedgerBalance.Conservation`, `LedgerBalance.ConservationIff` |
| journal and reports | Accounting, SheetMeaning, Books, JournalTables, JournalQueries, JournalReports | `Books.Journal.BalanceSheet`, `Accounting.AccountingEquation`, `Accounting.EquationIff`, `JournalReports.SheetSelect` |

Bytes, BitStrings, Decimals, Utf8, JsonStrings, Options and Sequences hold what several parts share: searching, ordering and trimming
of byte strings, their bits, decimal notation, UTF-8, the units of JSON strings, optional values and regrouping of concatenations.

## How the parts fit together

- **Route trie.** A pattern is a list of tokens and a trie is a finite map from token lists to rule indices. The search is
  defined on the nodes (`FindFrom`); on a freshly built trie it is the declarative best match (`TrieRules.FindIsBest`), and
  every merge of `optimizeNode` leaves it as it was (`TrieCompression.MergePreservesFind`). The class `Trie` carries both:
  its validity says that the current nodes route as the built ones do, and that the built ones represent the rules.
  `RouteInstances` says of pattern and URL as texts when one is the other with arguments written in.
- **HTTP requests.** One pure step reads one byte. `Execute` has the marks, bulk reads and callbacks of the C code; its
  callbacks, with data events of one kind joined, are those of the pure run. What the framing and header lemmas say of
  the run therefore holds of the parser under every cut into reads. `HttpMeaning` starts from the text of a request instead.
- **JSON.** The parser over positions is what the cursor-based one computes; `PicoGrammar` has the texts of JSON as trees with all
  their white space, and the parser accepts exactly their written forms. `JsonStrings` has the units of strings for both readers.
- **Templates.** A compiled template is a list of actions with stored positions. `Covers` reads it as nested blocks, in
  exactly one way, and `Denote` says what that nesting means in a stack of contexts. `RenderInternal`, which jumps between
  positions and pushes and pops in place, writes what is denoted. `MustacheRoundTrip` starts from a document tree instead:
  written out, compiled and rendered it gives the page that `MustacheDocs` defines for the tree, without the lines that
  `MustacheLines` says are dropped.
- **Queries.** `Select` is the statement as scan, joins, filter, grouping and window; the loops of `handleSelect` compute
  it, and the lemmas about pushing conditions down, about indexes and about groups are statements about its parts.
  `SelectAnswer` says what the rows of an answer are, by positions in the stored tables.
- **Ledgers.** The store is a map of texts, the chain, the rules and their loading and saving are functions on it, and
  `LedgerState` has the counter and the store. The journal's tables are sequences of rows, tied by `Valid` to the list of
  posts; `JournalReports` puts the same rows into the engine's tables and shows that its SELECTs give the groups that the
  reports are built from, and `SheetMeaning` what the reports show of the posted lines.

## Where the code does less than one would think

Each of these is a lemma with a concrete case or an exact condition.

- `createTransaction` asks only that a posting has a type. One of a type other than debit and credit enters neither total, and
  balances take it for a credit, so money is conserved exactly on chains without such postings (`LedgerBalance.FeeIsCreated`,
  `LedgerBalance.CreatedNetIff`, `LedgerBalance.ConservationIff`). `createPosting`, which the api uses, refuses them.
- The last trailer field of a chunked request never reaches the handler, and a header with an empty value does so only as the
  last header (`HttpMessages.TrailerIsLost`, `HttpMessages.EmptyIsLost`; exactly when the message is handled as sent:
  `HttpMessages.SentIsHandledIff`).
- The hex table of the HTTP parser has 128 initialisers for 256 entries, so in a chunk size every byte from 128 on counts as
  the digit 0 (`HttpFraming.HighByteCounterexample`; exactly when a size is hex: `HttpFraming.SizeLineIsHexIff`).
- Filtering the base table before a join is filtering after it only when every base row carries the tested column or the
  condition is constant (`Pushdown.PushdownIff`, `Pushdown.Disagrees`).
- For an empty join value the index branch and the scan branch differ unless every right row has the field
  (`Selecting.IndexAgreesWithScanIff`), and a rebuilt index is what `add` and `remove` keep only when no row has the indexed
  field empty (`Indexing.RebuiltMirrorsIff`).
- The gate for journal entries rounds each line, so an accepted entry can miss zero by up to a cent for each line
  (`Accounting.AcceptedUnbalanced`; exactly when it balances: `Accounting.AcceptedImbalance`). In whole cents it cannot.
- `addAccount` accepts any type; the balance sheet balances exactly when the balances of accounts outside the five types
  cancel (`Accounting.AccountingEquation`), and after every run exactly when a project has no account of the five types
  beside one outside them, or the report ends before the first day (`Accounting.EquationIff`, `Accounting.OtherTypeUnbalances`,
  and as a run of the journal `Books.MixedRun`).
- `addAccount` accepts a code twice. Of two accounts of one code the last in key order, that of their random uuids, gives the
  code its name and type, so the reports depend on chance exactly when the two differ (`Books.AccountOrderIff`).
- `isValidChain` does not recompute the genesis hash (`LedgerChain.Codec.GenesisIsNotCovered`), so tamper evidence starts
  at the second block.
- picojson's depth limit of 100 counts arrays only (`PicoRoundTrip.RoundTrip`).
- Decoding base64 ignores the unused bits of the last letter (`Base64.CanonicalIff`).

## Parameters

Functions that the C, C++ or JavaScript libraries supply are parameters of the model, and the theorems hold for all of them:
`strtod` and `stod`, `printf` and `to_string` of doubles, regular expressions, conversion of dates, hash and JSON writer of
the ledger. The tamper evidence asks that the hash of written blocks is injective, and loading after saving that a written
block reads back, for amounts that are numbers of the language. Amounts are reals; a new uuid is an id not used before, without
the character that line ids add. What the engine stores and shows as numbers is read back, for the amounts and sums at hand.

## Model

| member | source | states |
|---|---|---|
| Trie.Trie.Find | third-party/crow/include/crow/routing.h:634-755 | for every trie built by `Add`, before and after `Validate`, and every URL: the rule is the first of those whose pattern, with the returned arguments put in for its `<...>` parts, is the URL, and 0 exactly when no pattern and arguments give it |
| Trie.Trie.FindAt | third-party/crow/include/crow/routing.h:634-755 | one level of the search over parameter and static edges returns the best outcome below the node, and `*params` comes back as it was |
| Trie.Trie.FindByText | third-party/crow/include/crow/routing.h:742-752 | the loop over all static edges gives what the one edge that can match gives |
| Trie.Trie.FindByParams | third-party/crow/include/crow/routing.h:657-740 | the five parameter branches, each only when the node has that edge, keep the smallest non-zero index |
| Trie.Trie.TryInt | third-party/crow/include/crow/routing.h:657-673 | an `<int>` edge is tried on a sign or digit, takes the maximal number, refuses values outside 64 bits, and its pushed value is popped again |
| Trie.Trie.TryUint | third-party/crow/include/crow/routing.h:675-691 | the same for `<uint>`, where no minus sign starts a number |
| Trie.Trie.TryDouble | third-party/crow/include/crow/routing.h:693-709 | the same for `<float>` and `<double>`, the number conversion being a parameter |
| Trie.Trie.TryText | third-party/crow/include/crow/routing.h:711-740 | `<string>` takes the non-empty segment up to the next slash and `<path>` the whole rest; what either accepts as text of the URL is `RouteInstances.MatchIsInstance` |
| RouteInstances.MatchIsInstance | third-party/crow/include/crow/routing.h:634-755 | a pattern matches a URL with given arguments exactly when the URL is the pattern with these arguments written in: a decimal number for int and uint, text without a slash and up to one for string, any rest for a path, what `strtod` takes for float |
| RouteInstances.InstanceMatches | third-party/crow/include/crow/routing.h:634-755 | for every pattern and argument list, the URL written from them is matched with exactly those arguments |
| RouteInstances.SlashesAgree | third-party/crow/include/crow/routing.h:711-727 | without a path part a URL has as many slashes as its pattern, so no other parameter reaches across one |
| RouteInstances.SlotIsRead | third-party/crow/include/crow/routing.h:657-740 | an argument written into a URL is what its edge reads there |
| RouteInstances.ReadIsSlot | third-party/crow/include/crow/routing.h:657-740 | and whatever an edge reads is an argument written there |
| RouteInstances.TokensOfPattern | third-party/crow/include/crow/routing.h:757-783 | the tokens of a pattern text are those of its pieces, plain characters and `<...>` parts |
| RoutePattern.DigitsEnd | third-party/crow/include/crow/routing.h:659-670 | the digits taken by a number parameter are the maximal run |
| RoutePattern.SegmentEnd | third-party/crow/include/crow/routing.h:711-727 | a segment ends at the next slash or at the end of the URL |
| RoutePattern.DirectoryTokens | third-party/crow/include/crow/routing.h:906-918 | a rule for a directory consists of the tokens of the rule without the trailing slash and one more slash |
| TrieNodes.AtMostOneStaticMatch | third-party/crow/include/crow/routing.h:742-752 | when the static edges of a node have one length, at most one of them occurs at a position of the URL |
| TrieNodes.TreeIsWellLinked | third-party/crow/include/crow/routing.h:554-569 | the tree invariant gives everything a search needs: edges lead to later nodes and no static edge is empty |
| TrieNodes.AncestorsFormAChain | third-party/crow/include/crow/routing.h:576-619 | two nodes above the same node are above one another, so subtrees are nested or disjoint |
| TrieNodes.UnrelatedBelow | third-party/crow/include/crow/routing.h:576-619 | subtrees of unrelated nodes share no node, so optimizing one leaves the other alone |
| TrieCompression.MergePreservesFind | third-party/crow/include/crow/routing.h:597-610 | replacing the static edges of a node by the joined edges changes the result of no search, from any node, at any position, with any parameters |
| TrieCompression.MergedStaticStep | third-party/crow/include/crow/routing.h:597-610 | at the merged node itself one joined edge finds what the two edges in a row found |
| TrieCompression.SimpleNodeSearch | third-party/crow/include/crow/routing.h:560-568 | a node without rule and parameter edges only passes on what its static edge finds |
| TrieCompression.MergePreservesRouting | third-party/crow/include/crow/routing.h:597-610 | a merge in a well-formed tree keeps the routing of the whole trie |
| TrieCompression.MergeKeepsTree | third-party/crow/include/crow/routing.h:597-608 | after a merge every node still has one parent and static edges of one length, although keys are joined |
| TrieCompression.ConcatInjective | third-party/crow/include/crow/routing.h:605 | joined keys of equal-length parts do not collide |
| TrieCompression.MergedEdgesUnrelated | third-party/crow/include/crow/routing.h:603-606 | different joined edges lead to unrelated subtrees |
| TrieCompression.MergeIsOptimized | third-party/crow/include/crow/routing.h:597-610 | a merge is an optimization step: routing kept, nothing outside the subtree touched |
| TrieCompression.MergeIsReady | third-party/crow/include/crow/routing.h:608-609 | after a merge the node is ready for the next round, and every static edge leads strictly further down: the measure by which the recursion on the same node ends |
| TrieCompression.EdgeOptimized | third-party/crow/include/crow/routing.h:578-584 | optimizing below one edge undoes nothing that was done at the node or below its other edges |
| TrieCompression.OptimizedThenBelow | third-party/crow/include/crow/routing.h:576-619 | optimization steps at a node and then below it compose |
| Trie.Trie.MergedChildren | third-party/crow/include/crow/routing.h:599-607 | the two nested loops build exactly the joined edges: every pair of edges in a row, and nothing else |
| Trie.Trie.AllChildrenSimple | third-party/crow/include/crow/routing.h:587-596 | the test whether the static edges may be merged |
| Trie.Trie.OptimizeNode | third-party/crow/include/crow/routing.h:576-619 | terminates, keeps the routing and the tree, touches only the node's subtree, and leaves it fully compressed: no node below can still be merged |
| Trie.Trie.OptimizeParams | third-party/crow/include/crow/routing.h:578-584 | the loop over the parameter children compresses each and keeps the node itself |
| Trie.Trie.OptimizeChildren | third-party/crow/include/crow/routing.h:611-618 | the loop over the static children, when they cannot be merged away, ends with the node compressed |
| Trie.Trie.Validate | third-party/crow/include/crow/routing.h:627-632 | refuses exactly a root with a rule or a parameter edge, and otherwise compresses the trie without changing any route |
| Trie.Trie.Add | third-party/crow/include/crow/routing.h:757-812 | registers the token list of the pattern under the index, and fails exactly when that list is registered already; all other rules stay |
| Trie.Trie.MakePath | third-party/crow/include/crow/routing.h:759-808 | after the loop the current node is the end of the pattern's path |
| Trie.Trie.Descend | third-party/crow/include/crow/routing.h:783-806 | one token: the edge is made when missing, and no other path changes |
| Trie.Router.InternalAddRuleObject | third-party/crow/include/crow/routing.h:906-919 | the rule gets the next index, its directory form also catches the URL without the slash, and it fails exactly when one of the two is taken |
| TrieRules.FindReachesEveryMatch | third-party/crow/include/crow/routing.h:634-755 | a rule that matches is found, or a smaller one |
| TrieRules.FindNamesAMatch | third-party/crow/include/crow/routing.h:634-755 | a result that is not 0 is the index of a registered pattern that matches, with that pattern's parse |
| TrieRules.FindIsBest | third-party/crow/include/crow/routing.h:634-755 | the search in an unoptimized trie is the declarative best match |
| TrieRules.WalkIsInjective | third-party/crow/include/crow/routing.h:757-812 | no two token lists lead to one node |
| TrieRules.NewRule | third-party/crow/include/crow/routing.h:809-811 | naming a rule at the end of a path adds that rule and changes no other |
| TrieRules.NewEdgeKeepsAll | third-party/crow/include/crow/routing.h:785-805 | a new node and edge keep the tree, every rule and every existing path |
| HttpControl.ControlFits | third-party/crow/include/crow/http_parser_merged.h:957-2207 | in every state and for every byte: the next parser state keeps the invariant, and the callbacks and marks follow the discipline on which the last flush relies |
| HttpControl.BulkOwes | third-party/crow/include/crow/http_parser_merged.h:2041-2042 | the assertion of the two body states: the bytes still owed are neither 0 nor the "no length" mark |
| HttpControl.CountKeeps | third-party/crow/include/crow/http_parser_merged.h:960-977 | the header byte count keeps the invariant, and the assertion `nread == 1` at a chunk start holds |
| HttpControl.SizeStaysBelow | third-party/crow/include/crow/http_parser_merged.h:2123-2133 | an accepted chunk size never equals the "no length" mark |
| HttpRun.RunAppend | third-party/crow/include/crow/http_parser_merged.h:957-2231 | reading a and then b is reading ab: same callbacks, same state |
| HttpRun.RunStops | third-party/crow/include/crow/http_parser_merged.h:957-2239 | what follows an error or an exit is never looked at |
| HttpRun.CutsDoNotMatter | third-party/crow/include/crow/http_parser_merged.h:934-955 | for every byte stream and every way of cutting it into reads, the joined callback stream and the final state are those of one read, and the reads succeed exactly when the one read does |
| HttpRun.FedAsOne | third-party/crow/include/crow/parser.h:95-111 | feeding the reads is feeding them at once, while the whole runs on |
| HttpRun.RunBulk | third-party/crow/include/crow/http_parser_merged.h:2036-2070 | up to the owed number of body bytes are delivered unchanged and the rest stays owed |
| HttpParser.DeliverTwice | third-party/crow/include/crow/parser.h:28-77 | two data callbacks of one kind in a row do what one with the joined bytes does, also in the two header building states |
| HttpParser.DeliverJoined | third-party/crow/include/crow/parser.h:16-88 | the message that the callbacks build depends on the joined callback stream only |
| HttpParser.ControlJoins | third-party/crow/include/crow/http_parser_merged.h:957-2207 | mark, flush and callbacks of one byte add up to the data event of a byte-by-byte parser |
| HttpParser.BulkJoins | third-party/crow/include/crow/http_parser_merged.h:2036-2070 | so does taking many body bytes at once |
| HttpParser.OneMarkAtMost | third-party/crow/include/crow/http_parser_merged.h:2219-2223 | the assertion before the last callbacks: at most one mark is set |
| HttpParser.LastPending | third-party/crow/include/crow/http_parser_merged.h:2225-2229 | after the last callbacks the next read can set its mark again |
| HttpParser.HTTPParser.OnData | third-party/crow/include/crow/parser.h:22-77 | the four data callbacks, with the switch of `header_building_state` |
| HttpParser.HTTPParser.OnNotice | third-party/crow/include/crow/parser.h:16-88 | message begin, headers complete and message complete |
| HttpParser.HTTPParser.CallbackData | third-party/crow/include/crow/http_parser_merged.h:2209-2229 | reports the bytes from a mark on and clears the mark |
| HttpParser.HTTPParser.Act | third-party/crow/include/crow/http_parser_merged.h:957-2207 | runs the callbacks of one byte in the order of the code |
| HttpParser.HTTPParser.ControlByte | third-party/crow/include/crow/http_parser_merged.h:957-2207 | one turn of the loop outside the body states refines the byte-by-byte step |
| HttpParser.HTTPParser.BulkBytes | third-party/crow/include/crow/http_parser_merged.h:2036-2186 | one turn in a body state takes min(owed, available) bytes and refines a run over these bytes |
| HttpParser.HTTPParser.FlushRest | third-party/crow/include/crow/http_parser_merged.h:2209-2231 | reports what is still marked at the end of a read |
| HttpParser.HTTPParser.Execute | third-party/crow/include/crow/http_parser_merged.h:907-2239 | the mutable parser, with marks and bulk reads, refines the pure byte-by-byte run: same outcome, same byte count, same errno, same joined callbacks; nothing happens after an error; an empty read is an error except between messages |
| HttpParser.HTTPParser.Feed | third-party/crow/include/crow/parser.h:95-111 | true exactly when all bytes were taken: the run goes on, or it exits with the last byte; with its state, errno and joined callbacks |
| HttpParser.HTTPParser.FeedReads | third-party/crow/include/crow/parser.h:95-111 | true exactly when every read is taken, with the state, the callbacks and the message of feeding them one after the other; and these are those of their concatenation while that runs on |
| HttpFraming.LengthDigitExact | third-party/crow/include/crow/http_parser_merged.h:1830-1840 | the overflow test is exact: a digit is refused just when the number would pass 2^64 - 7, so the arithmetic never wraps and never gives the "no length" mark |
| HttpFraming.ContentLengthIsRead | third-party/crow/include/crow/http_parser_merged.h:1821-1842 | a Content-Length text of digits and spaces is accepted exactly up to 2^64 - 7, and then the length is the number it writes; otherwise the parser fails with the length error |
| HttpFraming.SizeDigitExact | third-party/crow/include/crow/http_parser_merged.h:2123-2133 | the same for hex digits, with the bound 2^64 - 17 |
| HttpFraming.ChunkSizeIsRead | third-party/crow/include/crow/http_parser_merged.h:2084-2135 | a chunk-size text is accepted exactly up to 2^64 - 17, and then the chunk has the size it writes |
| HttpFraming.HighBytesPassAsZero | third-party/crow/include/crow/http_parser_merged.h:885-894 | the hex table has 128 initialisers for 256 entries: it accepts exactly the hex digits and every byte from 128 on, these as 0 |
| HttpFraming.SizeLineIsHexIff | third-party/crow/include/crow/http_parser_merged.h:885-894 | an accepted size text is hex notation (section 4.1 of RFC 7230) exactly when it has no byte from 128 on |
| HttpFraming.HighByteCounterexample | third-party/crow/include/crow/http_parser_merged.h:885-894 | the byte 0x80 alone is no hex number and is accepted as a size of 0 |
| HttpFraming.ParametersAreSkipped | third-party/crow/include/crow/http_parser_merged.h:2137-2146 | chunk parameters are skipped up to the carriage return |
| HttpFraming.SizeLineIsRead | third-party/crow/include/crow/http_parser_merged.h:2084-2162 | a whole size line, in any letter case, with leading zeros and parameters, leaves the parser owing the size |
| HttpFraming.ChunkIsRead | third-party/crow/include/crow/http_parser_merged.h:2084-2200 | one chunk delivers its data and the parser is at the start of the next |
| HttpFraming.ChunksAreRead | third-party/crow/include/crow/http_parser_merged.h:2084-2200 | the chunked encoding of any list of non-empty chunks delivers exactly their concatenation |
| HttpFraming.IdentityMessage | third-party/crow/include/crow/http_parser_merged.h:1993-2082 | with Content-Length N the next N bytes are the body, followed by one message-complete; N = 0 included |
| HttpFraming.MessageWithoutLength | third-party/crow/include/crow/http_parser_merged.h:2020-2025 | a request without any length is complete at its blank line |
| HttpHeaders.NameIsRead | third-party/crow/include/crow/http_parser_merged.h:1546-1725 | a header name, any text of `tchar` (section 3.2.6 of RFC 7230), is reported whole, and the matcher ends in the state its lower-case form stands for |
| HttpHeaders.TokenIsTchar | third-party/crow/include/crow/http_parser_merged.h:843-882 | the bytes taken for header names are exactly the letters, the digits and the fifteen marks of `tchar`; a letter reads as its lower case, every other one as itself |
| HttpHeaders.NameStep | third-party/crow/include/crow/http_parser_merged.h:1596-1700 | each character keeps the incremental matcher in step with the name read so far |
| HttpHeaders.NamesRecognised | third-party/crow/include/crow/http_parser_merged.h:1596-1725 | the framing headers are recognised by exactly their names, in any letter case |
| HttpHeaders.ValueIsRead | third-party/crow/include/crow/http_parser_merged.h:1741-1889 | the value of any header but Content-Length and Upgrade is reported whole, and the matcher ends in the state its lower-case form stands for |
| HttpHeaders.ValuesRecognised | third-party/crow/include/crow/http_parser_merged.h:1741-1889 | "chunked", "keep-alive" and "close" are recognised exactly for their headers, in any case, spaces after them ignored |
| HttpRequest.MethodIsRead | third-party/crow/include/crow/http_parser_merged.h:1225-1349 | each of the 27 methods, although many are reached through guesses of others, is read as itself |
| HttpRequest.OnlyMethodsAreRead | third-party/crow/include/crow/http_parser_merged.h:1225-1349 | what the parser takes for a method, up to its space, is the name of one: a text is accepted exactly when it is |
| HttpRequest.UrlIsRead | third-party/crow/include/crow/http_parser_merged.h:1351-1423 | every text that the URL states accept, with schema, server, path, query or fragment, is reported whole |
| HttpRequest.PathIsUrlIff | third-party/crow/include/crow/http_parser_merged.h:641-829 | a text that starts with a slash or an asterisk is read as a URL exactly when its bytes are visible ASCII |
| HttpUrls.UrlTextIff | third-party/crow/include/crow/http_parser_merged.h:641-829 | a text is read as a URL exactly when it is visible characters from a slash or an asterisk on, or a schema, a server and possibly such a path or a query |
| HttpRequest.VersionIsRead | third-party/crow/include/crow/http_parser_merged.h:1424-1545 | the version text of HTTP/1.0 or HTTP/1.1 sets major and minor |
| HttpRequest.RequestLineIsRead | third-party/crow/include/crow/http_parser_merged.h:1225-1545 | a request line of any method but CONNECT reports message begin and the URL, and leaves method and version |
| HttpRequest.LineIsRead | third-party/crow/include/crow/http_parser_merged.h:1546-1944 | a header line reports field and value, whatever its name, case and spaces; flags and length are what it says; a value that is empty is reported with the next byte and says nothing |
| HttpRequest.HeadersAreRead | third-party/crow/include/crow/http_parser_merged.h:1546-1944 | any number of header lines: all fields and values in order, the flags of all of them, the length of the last Content-Length that is not empty |
| HttpMessages.SizedIsRead | third-party/crow/include/crow/http_parser_merged.h:1993-2082 | the blank line and a body of the announced length |
| HttpMessages.ChunkedMessage | third-party/crow/include/crow/http_parser_merged.h:1993-2200 | a chunked message (section 4.1 of RFC 7230): headers complete, the concatenated data of any list of non-empty chunks, any trailer fields, one message-complete, and the state for the next message |
| HttpMessages.RequestIsParsed | third-party/crow/include/crow/http_parser_merged.h:957-2231 | a request of any method but CONNECT, with any headers but Upgrade whose names are `tchar` texts, with values or without, unsized, sized or chunked with trailers, is parsed back into its parts, and the connection stays open exactly when it is to |
| HttpMessages.EventsBuildMessage | third-party/crow/include/crow/parser.h:16-88 | the callbacks build the message: its headers in order, those with empty values dropped but for the last header; of the trailer fields all with values but the last |
| HttpMessages.SentIsHandledIff | third-party/crow/include/crow/parser.h:16-88 | the handler is given the message with all its header and trailer fields exactly when there is no trailer field and no header but the last has an empty value |
| HttpMessages.TrailerIsLost | third-party/crow/include/crow/parser.h:16-88 | a chunked request with one trailer field, which is handled without it |
| HttpMessages.EmptyIsLost | third-party/crow/include/crow/parser.h:25-58 | a request with a header without a value, which is handled without it |
| HttpMessages.RequestIsHandled | third-party/crow/include/crow/parser.h:16-88 | the handler is given exactly one message, that of `EventsBuildMessage`, whatever was handled before |
| HttpMessages.PipelineIsHandled | third-party/crow/include/crow/parser.h:95-111 | requests sent in a row are handled in order, each of them once |
| HttpMessages.HandleConnection | third-party/crow/include/crow/parser.h:95-111 | the mutable parser, fed the bytes of requests in any cut, hands over exactly their messages |
| HttpMeaning.FlagsSay | third-party/crow/include/crow/http_parser_merged.h:1741-1889 | after any headers each flag is set exactly when some header names it: chunked coding, keep-alive, close |
| HttpMeaning.LengthSays | third-party/crow/include/crow/http_parser_merged.h:1821-1842 | and the length is the one that the last Content-Length with a value writes |
| HttpMeaning.KeepsAliveIff | third-party/crow/include/crow/http_parser_merged.h:2266-2290 | the connection is kept exactly when an HTTP/1.1 request does not ask to close or an HTTP/1.0 request asks to keep it |
| HttpMeaning.WrittenLengthIsRead | third-party/crow/include/crow/http_parser_merged.h:1821-1842 | a length in decimal notation is read as that length |
| HttpMeaning.WrittenSizeIsRead | third-party/crow/include/crow/http_parser_merged.h:2084-2135 | a chunk size in hexadecimal notation, in any letter case, is read as that size |
| HttpMeaning.WrittenRequestIsHandled | third-party/crow/include/crow/parser.h:16-111 | the request as text, method, URL, `name: value` lines, Content-Length and body, hands over exactly the message of these parts |
| PicoText.Ordered | include/picojson/picojson.h:614-627 | the members of an object are written once each, in the order of their keys |
| PicoRoundTrip.EscapedTextIsRead | include/picojson/picojson.h:529-564 | every byte string, escaped as in section 7 of RFC 8259, reads back as itself |
| PicoRoundTrip.IntIsRead | include/picojson/picojson.h:899-915 | the text of every 64-bit integer is converted back to it |
| PicoRoundTrip.BodyIsRead | include/picojson/picojson.h:876-928 | at any position of any text, the serialized form of a value parses to the value exactly when its containers fit the depth left, and fails otherwise |
| PicoRoundTrip.ArrayIsRead | include/picojson/picojson.h:820-835 | the array case, where each level uses up one of the depth |
| PicoRoundTrip.ItemsAreRead | include/picojson/picojson.h:828-834 | the item loop from the i-th item on |
| PicoRoundTrip.ObjectIsRead | include/picojson/picojson.h:837-854 | the object case, where a level uses up none |
| PicoRoundTrip.MembersAreRead | include/picojson/picojson.h:844-853 | the member loop from any key on; every member is read once |
| PicoRoundTrip.RoundTrip | include/picojson/picojson.h:581-644 | for every value without doubles, compact or pretty: parsing its serialization gives the value back when every container has fewer than 100 arrays around it, and fails for all other values |
| PicoJson.Output.SerializeString | include/picojson/picojson.h:559-564 | appends the quoted, escaped string |
| PicoJson.Output.Serialize | include/picojson/picojson.h:581-644 | appends the text of a value at an indentation, with a final newline at indentation 0 only |
| PicoJson.Output.SerializeArray | include/picojson/picojson.h:586-608 | the array case, with its separators and line breaks |
| PicoJson.Output.SerializeObject | include/picojson/picojson.h:609-636 | the object case |
| PicoJson.Output.PutMembers | include/picojson/picojson.h:614-627 | the loop over the sorted members |
| PicoJson.Input.Getc | include/picojson/picojson.h:661-674 | a byte that was read is consumed at the next read only; -1 at the end, where nothing is consumed |
| PicoJson.Input.Ungetc | include/picojson/picojson.h:675-677 | the last byte is read again, once |
| PicoJson.Input.SkipWhite | include/picojson/picojson.h:689-697 | stops before the first byte that is no white space |
| PicoJson.Input.ExpectByte | include/picojson/picojson.h:698-705 | skips white space and takes the byte only when it is the expected one |
| PicoJson.Input.Match | include/picojson/picojson.h:706-714 | true exactly when the text continues with the pattern |
| PicoJson.Input.GetQuadHex | include/picojson/picojson.h:717-736 | four hex digits or nothing |
| PicoJson.ReadCodepoint | include/picojson/picojson.h:738-777 | `\u` with surrogate pairs joined, in UTF-8 |
| PicoJson.ReadString | include/picojson/picojson.h:779-818 | the string loop over the cursor follows the parser over positions, on every input |
| PicoJson.ReadNumber | include/picojson/picojson.h:856-923 | the longest run of number characters, as an integer when it is one that fits, as a double otherwise |
| PicoJson.ReadValue | include/picojson/picojson.h:876-928 | the cursor-based parser with its contexts gives what the parser over positions gives, on every input, also the malformed |
| PicoJson.ReadArray | include/picojson/picojson.h:820-835 | the array loop |
| PicoJson.ReadObject | include/picojson/picojson.h:837-854 | the object loop; of equal keys the last value stays |
| PicoJson.SerializeAndParse | include/picojson/picojson.h:1122-1131 | serializing with the output object and parsing with the input object returns the value, exactly up to the depth limit |
| PicoGrammar.ParseIff | include/picojson/picojson.h:876-928 | at any position of any text: the parser accepts exactly the texts of JSON, with any white space, escapes and number forms, each as the value it writes, its containers within the depth left |
| PicoGrammar.TreeIsRead | include/picojson/picojson.h:876-928 | a text written from its tree is parsed as its value exactly when its containers fit the depth |
| PicoGrammar.ReadTree | include/picojson/picojson.h:876-928 | whatever is parsed was written from such a tree |
| PicoGrammar.NumberIff | include/picojson/picojson.h:856-923 | a number text is read as the integer it writes when that fits in 64 bits, as what `strtod` makes of all of it otherwise, and refused where that is nothing |
| PicoGrammar.ItemsAreRead | include/picojson/picojson.h:828-834 | the items of an array, each within the depth left |
| PicoGrammar.MembersAreRead | include/picojson/picojson.h:844-853 | the members of an object; of equal keys the last value stays |
| PicoStrings.CharsAreRead | include/picojson/picojson.h:779-818 | a string of JSON, plain bytes, the eight short escapes and four hex digits in either case, is read as the bytes its characters stand for; surrogate pairs are one code |
| PicoStrings.ReadChars | include/picojson/picojson.h:738-818 | and whatever is read as a string was written so, without control bytes and lone surrogates |
| PicoStrings.CodeIsRead | include/picojson/picojson.h:717-736 | four hex digits, in either case, are read as the number they spell |
| PicoJson.ParseDocument | include/picojson/picojson.h:1127-1131 | a document is accepted exactly when it starts with a text of JSON whose containers have fewer than 100 arrays around them, and as the value it writes |
| Utf8.EncodedIff | include/picojson/picojson.h:756-777 | for every code up to 0x10FFFF the bytes written are those, and only those, that the table of section 3 of RFC 3629 gives: its marker bits, and the bits of the code in order |
| MustacheTemplate.BlocksAfter | third-party/crow/include/crow/mustache.h:338-371 | the blocks reported as open after n tags are opening tags among them |
| MustacheTemplate.PendingIsExcess | third-party/crow/include/crow/mustache.h:338-371 | as many blocks are open as opening tags exceed closing tags |
| MustacheTemplate.NestingIsUnique | third-party/crow/include/crow/mustache.h:360-362 | the stored block positions admit one reading as nested blocks |
| MustacheTemplate.CoversFrame | third-party/crow/include/crow/mustache.h:487-490 | nesting depends only on the actions of its own stretch, not on what partials store |
| MustacheContext.PiecesJoin | third-party/crow/include/crow/mustache.h:87-98 | a dotted name is split into its dot-free pieces |
| MustacheContext.DotPositions | third-party/crow/include/crow/mustache.h:87-94 | the loop collects the positions of all dots, between -1 and the length |
| MustacheContext.SplitName | third-party/crow/include/crow/mustache.h:95-98 | the pieces between neighbouring positions |
| MustacheContext.LookupIsInnermost | third-party/crow/include/crow/mustache.h:76-83 | a name means what it means in the innermost context that has all of its path |
| MustacheContext.FindContext | third-party/crow/include/crow/mustache.h:67-126 | the search over the stack finds that meaning, or the empty string |
| MustacheContext.SectionOrInverted | third-party/crow/include/crow/mustache.h:192-258 | of `{{#name}}` and `{{^name}}` exactly one is rendered |
| MustacheContext.Escape | third-party/crow/include/crow/mustache.h:128-144 | appends the escaped text |
| MustacheContext.UnescapeEscape | third-party/crow/include/crow/mustache.h:128-144 | escaping loses nothing: it can be undone |
| MustacheContext.EscapedIsInert | third-party/crow/include/crow/mustache.h:128-144 | escaped text holds no angle bracket, quote or slash |
| MustacheMeaning.EnterStep | third-party/crow/include/crow/mustache.h:219-248 | a block rendered once may be entered in place, its context pushed until its close |
| MustacheMeaning.BlockStep | third-party/crow/include/crow/mustache.h:221-258 | a block denotes its inside once for each context it pushes, and then what follows its close |
| MustacheMeaning.LeafStep | third-party/crow/include/crow/mustache.h:171-191 | a tag denotes its literal text and its value |
| MustacheMeaning.EachFails | third-party/crow/include/crow/mustache.h:233-242 | one failing item fails the block |
| MustacheMeaning.Run.Skip | third-party/crow/include/crow/mustache.h:206-226 | jumping to the close of a block passes over all of it |
| MustacheMeaning.Run.Enter | third-party/crow/include/crow/mustache.h:243-248 | pushing one context starts the inside of the block |
| MustacheMeaning.Run.Leave | third-party/crow/include/crow/mustache.h:259-261 | at the close the pushed context is on top, and popping it continues outside |
| MustacheMeaning.Run.AtEnd | third-party/crow/include/crow/mustache.h:266-268 | at the end all blocks are left and the stack is the one found |
| MustacheLayout.LevelsClose | third-party/crow/include/crow/mustache.h:347-364 | a closing tag makes the innermost open block and itself point at each other, and the block moves one level out |
| MustacheLayout.MatchingOpen | third-party/crow/include/crow/mustache.h:340-371 | an opening tag starts a new level |
| MustacheLayout.MatchingClose | third-party/crow/include/crow/mustache.h:347-364 | the compiled actions stay those of the scanned tags while blocks are closed |
| MustacheLayout.MatchingEnds | third-party/crow/include/crow/mustache.h:317-323 | after the last literal the actions are the compiled form of the tags, with the unclosed blocks left over |
| MustacheLayout.Standalone | third-party/crow/include/crow/mustache.h:449-486 | the text cut off around a tag alone on its line is blanks and one line end |
| MustacheLayout.StandaloneIff | third-party/crow/include/crow/mustache.h:453-486 | a tag is cut out with its line exactly when only spaces stand between it and the line start before and the line end after, the ends of the template included |
| MustacheLayout.TrimNarrows | third-party/crow/include/crow/mustache.h:446-500 | the standalone pass loses only blanks and line ends, and no tag |
| MustacheLayout.NarrowsKeepsNesting | third-party/crow/include/crow/mustache.h:446-500 | the nesting survives the pass |
| MustacheRender.Template.ScanDelimiters | third-party/crow/include/crow/mustache.h:402-436 | a delimiter change is read as two non-empty delimiters without spaces, or refused |
| MustacheRender.Template.ScanContent | third-party/crow/include/crow/mustache.h:338-443 | the switch on the first character of a tag: kind, name range and the next position, or the error |
| MustacheRender.Template.ScanTag | third-party/crow/include/crow/mustache.h:317-339 | finds the next tag with the delimiters in force |
| MustacheRender.Template.ParseTags | third-party/crow/include/crow/mustache.h:309-444 | parsing succeeds exactly when every tag is well formed and no close is stray or mismatched, and then the actions are the tags with their partners |
| MustacheRender.Template.MatchTag | third-party/crow/include/crow/mustache.h:338-371 | one turn of the block stack |
| MustacheRender.Template.RemoveStandalones | third-party/crow/include/crow/mustache.h:446-500 | the loop from the last tag back is the pass over all tags |
| MustacheRender.Template.FindCut | third-party/crow/include/crow/mustache.h:453-486 | the two scans for blanks around a tag |
| MustacheRender.Template.Parse | third-party/crow/include/crow/mustache.h:307-501 | both loops: a template whose blocks are all closed has properly nested block positions |
| MustacheRender.Template.RenderInternal | third-party/crow/include/crow/mustache.h:146-269 | terminates, writes what the nesting denotes or fails as it does, and leaves the context stack exactly as it found it, on every taken and skipped branch |
| MustacheRender.Template.RenderAction | third-party/crow/include/crow/mustache.h:155-265 | one turn of the loop keeps the reading of the rest |
| MustacheRender.Template.RenderItems | third-party/crow/include/crow/mustache.h:233-241 | a list block renders its inside once for each item, with the item pushed meanwhile |
| MustacheRender.Template.RenderTag | third-party/crow/include/crow/mustache.h:171-191 | a number or string, escaped for a plain tag, and an error for all other kinds |
| MustacheRender.Template.RenderFragment | third-party/crow/include/crow/mustache.h:270-283 | appends the literal text |
| MustacheRender.Template.Render | third-party/crow/include/crow/mustache.h:295-303 | the page is the one meaning of the nesting in the given context |
| MustacheRoundTrip.ScanReads | third-party/crow/include/crow/mustache.h:315-444 | every tag that was written is read back: kind, name, and the text before it |
| MustacheRoundTrip.PrintIsUnparse | third-party/crow/include/crow/mustache.h:315-444 | writing a document is writing its tags in order |
| MustacheRoundTrip.SectionsClose | third-party/crow/include/crow/mustache.h:338-371 | every section of a written document is closed by its own end |
| MustacheRoundTrip.SectionEnd | third-party/crow/include/crow/mustache.h:347-364 | the close that ends a section is the first that can |
| MustacheRoundTrip.DenotesDoc | third-party/crow/include/crow/mustache.h:146-269 | what the compiled actions denote is what the document tree says |
| MustacheRoundTrip.SameTexts | third-party/crow/include/crow/mustache.h:270-283 | with all literals kept the document is the one written |
| MustacheRoundTrip.PrintedCompiles | third-party/crow/include/crow/mustache.h:307-444 | compiling a written document succeeds and leaves no block open |
| MustacheRoundTrip.CompileAndRender | third-party/crow/include/crow/mustache.h:146-501 | the template text of a document, `{{name}}`, `{{&name}}`, `{{#name}}`, `{{^name}}` and `{{/name}}` around its texts, compiles and renders to the page of the document, with exactly the lines dropped on which a tag stands alone |
| MustacheDocs.SaysIsPage | third-party/crow/include/crow/mustache.h:146-269 | the page of a document: values looked up and written, sections once for each item or value, inverted ones where there is nothing, or the error of a value that is neither text nor number |
| MustacheDocs.PrintIsSource | third-party/crow/include/crow/mustache.h:338-443 | the written form has the five tags of the syntax as an author types them |
| MustacheDocs.MeantIff | third-party/crow/include/crow/mustache.h:67-126 | a dot means the innermost context; any other name the value at the end of its dotted path in the innermost context that has all of the path |
| MustacheDocs.LeadsIff | third-party/crow/include/crow/mustache.h:100-119 | following the pieces of a dotted name is going from field to field |
| MustacheDocs.EntitiesAre | third-party/crow/include/crow/mustache.h:128-144 | escaping replaces exactly six characters by their entities |
| MustacheTags.TagIsRead | third-party/crow/include/crow/mustache.h:338-443 | a tag of each of the six kinds with a name, with any spaces around the name, is read as that kind and that name |
| MustacheTags.TripleIsRead | third-party/crow/include/crow/mustache.h:382-395 | a value in three braces is read as one that is not escaped |
| MustacheTags.CommentIsRead | third-party/crow/include/crow/mustache.h:372-375 | a comment is read as one, whatever it says |
| MustacheTags.DelimitersAreRead | third-party/crow/include/crow/mustache.h:402-436 | new delimiters, with spaces around and between them, are read as these two |
| MustacheLines.PassDropsLines | third-party/crow/include/crow/mustache.h:446-500 | the pass from the last tag to the first leaves each text as written but for the lines on which a block, close or comment tag stands alone, judged in the text as written |
| MustacheLines.CutDecision | third-party/crow/include/crow/mustache.h:453-486 | the cuts made before do not change which tags stand alone |
| Database.PutThenGet | src/DBManager.cpp:63-78 | a written key reads back as written, other keys as before, and the key order stays |
| Database.DeleteThenGet | src/DBManager.cpp:91-95 | a deleted key is gone, other keys as before |
| Database.GetRow | src/DBManager.cpp:138-146 | the row stored under the key, if any |
| Database.GetRowAt | src/DBManager.cpp:138-146 | in an ordered table each entry is what its key reads |
| Database.DBManager.Insert | src/DBManager.cpp:63-78 | the key is the id, or else the value of the first field |
| Database.DBManager.Update | src/DBManager.cpp:80-89 | new values over the stored ones |
| Database.DBManager.Remove | src/DBManager.cpp:91-95 | deletes the key |
| Database.DBManager.Scan | src/DBManager.cpp:97-136 | the keys of the passing rows in key order, without the first `skip`, cut at a positive `limit` |
| Database.PassesAll | src/DBManager.cpp:114-129 | the loop over the conditions with its early exit, a missing column read as the empty string |
| Multimaps.InsertKeepsSorted | src/IndexManager.cpp:61-68 | a multimap insertion adds one entry and keeps the value order |
| Multimaps.RangeOfInsert | src/IndexManager.cpp:61-68 | the new entry comes last among those of its value |
| Multimaps.WithoutCounts | src/IndexManager.cpp:86-94 | erasing removes exactly the entries of that value and key |
| Multimaps.WithoutKeepsSorted | src/IndexManager.cpp:86-94 | and keeps the order |
| Multimaps.EqualRange | src/IndexManager.cpp:88-89 | `equal_range` bounds all entries of the value and no others |
| Multimaps.RangeIsSlice | src/QueryExecutor.cpp:147-149 | iterating the range visits the entries of the value in order |
| Indexing.RangeOfRebuilt | src/IndexManager.cpp:27-71 | a rebuilt index lists the rows of a value in key order |
| Indexing.RebuiltCounts | src/IndexManager.cpp:61-68 | it has each pair once for the row with that value, empty or not |
| Indexing.RebuiltMirrorsIff | src/IndexManager.cpp:27-71 | a rebuilt index is coherent, in the sense `add` and `remove` keep, exactly when no row has the field empty |
| Indexing.AddKeepsMirror | src/IndexManager.cpp:81-99 | `add` for one field keeps the index the multiset of (value, key) pairs of rows with a non-empty value |
| Indexing.RemoveKeepsMirror | src/IndexManager.cpp:109-121 | `remove` for one field does too |
| Indexing.EveryRunMirrors | src/IndexManager.cpp:73-122 | from a coherent index every run of adds and removes, on any keys, ends in a coherent index |
| IndexManager.Indexes.EraseKey | src/IndexManager.cpp:86-94 | the erase-while-iterating loop removes the entries of the key in the range, and no others |
| IndexManager.Indexes.Add | src/IndexManager.cpp:73-100 | every index of the table follows the row from its stored to its new form; other tables are untouched; a table without schema changes nothing |
| IndexManager.Indexes.AddField | src/IndexManager.cpp:81-99 | one field of `add` |
| IndexManager.Indexes.Remove | src/IndexManager.cpp:102-122 | every index of the table forgets the row |
| IndexManager.Indexes.RemoveField | src/IndexManager.cpp:109-121 | one field of `remove` |
| IndexManager.Indexes.RebuildAll | src/IndexManager.cpp:27-71 | afterwards each schema's indexes are the rebuilt ones, and there are no others |
| IndexManager.Indexes.RebuildTable | src/IndexManager.cpp:42-69 | the loop over the rows of one table |
| IndexManager.Indexes.RebuildRow | src/IndexManager.cpp:61-68 | the loop over the indexed fields of one row |
| Selecting.JoinSize | src/QueryExecutor.cpp:140-172 | a LEFT join makes max(1, matches) rows of each left row, an INNER join as many as match |
| Selecting.JoinKeepsLeft | src/QueryExecutor.cpp:140-172 | every joined row has the left row's values |
| Selecting.IndexGivesPresent | src/QueryExecutor.cpp:146-154 | the rebuilt index gives the right rows that have the field at the value, in key order |
| Selecting.IndexAgreesWithScanIff | src/QueryExecutor.cpp:146-164 | on a rebuilt index the two branches give the same rows in the same order exactly when the value is not empty or every right row has the field |
| Selecting.IndexIsTransparent | src/QueryExecutor.cpp:140-172 | with fresh indexes a join gives what it gives without |
| Selecting.IndexesAreTransparent | src/QueryExecutor.cpp:140-172 | so does a list of joins, and none fails, when the joined fields are present |
| Pushdown.FilterThenJoin | src/QueryExecutor.cpp:132-172 | filtering the left rows first and joining after is joining first and filtering after |
| Pushdown.FilterThenJoinAll | src/QueryExecutor.cpp:132-172 | for any list of INNER and LEFT joins |
| Pushdown.PushdownPreserves | src/QueryExecutor.cpp:115-190 | without SKIP and LIMIT, the executor's split gives the rows of joining everything and filtering by all conditions, in the same order |
| Pushdown.PushdownIff | src/QueryExecutor.cpp:115-190 | for a condition this holds for all tables, indexes and joins exactly when each base row carries the tested column or the condition is constant |
| Pushdown.DecidingDecides | src/QueryExecutor.cpp:8-20 | a condition that is not constant is decided differently by some value and by the empty string |
| Pushdown.ConstantHolds | src/QueryExecutor.cpp:8-20 | the operators that ignore the column |
| Pushdown.Disagrees | src/QueryExecutor.cpp:115-172 | the join that tells the two orders apart for a row without the column |
| Grouping.BumpAt | src/QueryExecutor.cpp:202-212 | `accs[key]` changes the group of the key and no other |
| Grouping.BumpTotal | src/QueryExecutor.cpp:202-212 | a change adds to the total what it adds to its group |
| Grouping.GroupSum | src/QueryExecutor.cpp:200-212 | one group for each value of the column, in order, and its sum is the sum over exactly its rows |
| Grouping.GroupsAddUp | src/QueryExecutor.cpp:200-220 | the groups partition the rows: their sums add up to the sum without grouping |
| Grouping.GroupCount | src/QueryExecutor.cpp:232-239 | a group's count is the number of its rows |
| Grouping.CountsAddUp | src/QueryExecutor.cpp:232-239 | the counts add up to the number of all rows |
| QueryExecutor.SplitConditions | src/QueryExecutor.cpp:115-131 | unqualified conditions and those of the base table go to the scan, the others are kept |
| QueryExecutor.Fetch | src/QueryExecutor.cpp:134-138 | the fetched rows are those of the scanned keys |
| QueryExecutor.JoinThroughIndex | src/QueryExecutor.cpp:146-154 | the index branch |
| QueryExecutor.JoinThroughScan | src/QueryExecutor.cpp:155-164 | the scan branch, where `rd[field]` adds a missing field |
| QueryExecutor.JoinOne | src/QueryExecutor.cpp:143-169 | one left row: its extensions, or itself in a LEFT join without match |
| QueryExecutor.JoinLoop | src/QueryExecutor.cpp:140-172 | the joins one after the other |
| QueryExecutor.PostFilterLoop | src/QueryExecutor.cpp:174-190 | keeps the rows that pass, with the columns that `row[key]` adds |
| QueryExecutor.SumLoop | src/QueryExecutor.cpp:199-212 | the accumulators are the grouped sums |
| QueryExecutor.CountLoop | src/QueryExecutor.cpp:232-233 | the counters are the group sizes |
| QueryExecutor.HandleSelect | src/QueryExecutor.cpp:115-283 | the statement computes its definition by scan, joins, filter, grouping or projection, and window; and its answer is what the statement asks of the stored rows: which of them, in which order, joined with which, with which columns, sums and counts, and which piece of them |
| SelectAnswer.PlainSelectMeans | src/QueryExecutor.cpp:115-283 | a query of one table without SKIP and LIMIT: every stored row that meets the conditions, once, in key order, with all its columns for `*` and otherwise exactly the asked ones, each with the value stored under the name behind its qualifier |
| SelectAnswer.PlainPieceMeans | src/QueryExecutor.cpp:115-283 | SKIP and LIMIT of such a query give that piece of the rows that meet the conditions |
| SelectAnswer.SelectMeans | src/QueryExecutor.cpp:115-283 | any query: base rows that meet their conditions, joined, kept by the other conditions, grouped or shown, and cut to the piece |
| SelectAnswer.IndexedSelectMeans | src/QueryExecutor.cpp:115-283 | the same with fresh indexes, where no empty value meets a row without the column |
| SelectAnswer.PlainAnswers | src/QueryExecutor.cpp:115-283 | the rows returned for a query of one table, said of what `Get` gives for their keys |
| SelectAnswer.GroupsAreShown | src/QueryExecutor.cpp:199-241 | grouped: one row for each value of the column, in order, with each sum over exactly its rows or with their number |
| SelectAnswer.SliceIsPiece | src/QueryExecutor.cpp:274-283 | after joins SKIP drops so many shown rows and LIMIT keeps at most so many of the rest |
| SelectAnswer.JoinAllMeans | src/QueryExecutor.cpp:140-172 | joins one after the other, each said of the rows before it |
| JoinMeaning.JoinMeans | src/QueryExecutor.cpp:140-172 | a join: each left row with each right row of its value, in order, a LEFT join keeping rows without one, and nothing else |
| JoinMeaning.IndexedJoinMeans | src/QueryExecutor.cpp:146-154 | through a fresh index a join answers the same, where no empty value meets a row without the column |
| SelectMeaning.HoldsIsMeets | src/QueryExecutor.cpp:8-20 | the comparison operators as relations of texts, an unknown operator holding of nothing |
| SelectMeaning.ScanMeans | src/DBManager.cpp:97-136 | a scan gives the rows that meet the conditions, in key order |
| SelectMeaning.NamesIsUnqualified | src/QueryExecutor.cpp:194-196 | a column name is what stands behind the first dot, or the whole name without one |
| SelectMeaning.KeepsMeans | src/QueryExecutor.cpp:174-190 | the filter keeps exactly the joined rows that meet the other conditions |
| Bytes.LessIsBefore | src/DBManager.cpp:109-113 | the order of keys is that of a dictionary: a beginning first, else by the first character that differs |
| Base64.FillsFit | include/jwt-cpp/base.h:32-136 | no fill of the alphabets starts with a letter or is the end of another, so fill and letters, and one fill and another, cannot be mixed up |
| Base64.Alphabet.SextetOfLetter | include/jwt-cpp/base.h:71-99 | each of the 64 letters is read as its own number |
| Base64.Alphabet.LetterOfSextet | include/jwt-cpp/base.h:140-144 | a character with a number is the letter of that number |
| Base64.OctetsMakeQuadruple | include/jwt-cpp/base.h:249-254 | a triple is its three octets |
| Base64.SextetsOfQuadruple | include/jwt-cpp/base.h:193-196 | a quadruple is its four sextets |
| Base64.Encode | include/jwt-cpp/base.h:179-226 | the loops and the switch of `encode` give the letters followed by 0, 1 or 2 fills |
| Base64.EndFill | include/jwt-cpp/base.h:167-173 | the first fill that the text ends with, or none exactly when it ends with no fill |
| Base64.PaddingIsCounted | include/jwt-cpp/base.h:166-177 | of letters followed by any mixture of fills from a list exactly these fills are counted |
| Base64.Pad | include/jwt-cpp/base.h:279-289 | appends the fills up to the next multiple of four |
| Base64.PadCount | include/jwt-cpp/base.h:279-289 | which are at most 3, and 3 exactly for a length of 1 modulo 4 |
| Base64.TrimmedIsLetters | include/jwt-cpp/base.h:291-294 | trimming a written text leaves its letters |
| Base64.Decode | include/jwt-cpp/base.h:228-272 | the loops and the switch of `decode` give the decoded bytes or the three errors, on every input |
| Base64.DecodeQuad | include/jwt-cpp/base.h:243-255 | one group of four letters, or the alphabet error |
| Base64.DecodeTail | include/jwt-cpp/base.h:257-269 | the last group |
| Base64.LettersAreRead | include/jwt-cpp/base.h:242-269 | the letters of any byte string decode to it |
| Base64.FilledDecodes | include/jwt-cpp/base.h:228-272 | letters followed by any fills of a list decode exactly when there are at most two fills and the sizes fit |
| Base64.PaddedDecodesIff | include/jwt-cpp/base.h:279-289 | for text over the alphabet, decode(pad(s)) succeeds exactly when the length of s mod 4 is not 1 (section 5 of RFC 4648, section 2 of RFC 7515) |
| Base64.RoundTrip | include/jwt-cpp/base.h:308-352 | decode(encode(b)) and decode(pad(trim(encode(b)))) are b, for every byte string, every alphabet and every fitting list of fills, whichever of them is written |
| Base64.MixedFills | include/jwt-cpp/base.h:108-136 | two different fills of a list may follow the letters, as the two spellings of the percent-encoded one |
| Base64.CanonicalIff | include/jwt-cpp/base.h:228-272 | decoding and encoding again gives the same letters exactly when the bits that the last letter does not use are zero |
| Base64.EncodeAndDecode | include/jwt-cpp/base.h:308-352 | the three calls made for a part of a JWT return the bytes |
| Base64Text.EncodedIsRfc | include/jwt-cpp/base.h:32-226 | with the standard alphabet and "=", and with the one for URLs and "%3d": the encoded text is that of sections 4 and 5 of RFC 4648, the bits of the bytes six by six as letters of Table 1 or 2, filled with zeros, and fills up to a multiple of four |
| Base64Text.LettersAreBits | include/jwt-cpp/base.h:179-226 | for any table of 64 letters |
| Base64Text.Tables | include/jwt-cpp/base.h:32-100 | the two alphabets are the two tables of the RFC |
| Base64Text.TripleBits | include/jwt-cpp/base.h:193-196 | the 24 bits of three bytes are those of four sextets |
| CrowJsonText.EscapedUnit | third-party/crow/include/crow/json.h:37-70 | an escaped byte is one unit of a JSON string, and the unit stands for the byte |
| CrowJsonText.UnescapedEscaped | third-party/crow/include/crow/json.h:37-70 | unescaping undoes escaping, for every byte string |
| CrowJsonText.ScannedIsDecodable | third-party/crow/include/crow/json.h:717-777 | what the scan accepts consists of whole units, and the flag is right both ways |
| CrowStrings.TextIsScanned | third-party/crow/include/crow/json.h:717-777 | the closing quote of any string of JSON is the one found, and the flag tells whether it has an escape |
| CrowStrings.DecodedIff | third-party/crow/include/crow/json.h:717-777 | a string is decoded exactly when one stands there; where it ends and what it says are determined |
| CrowStrings.StringIff | third-party/crow/include/crow/json.h:340-403 | the inside of a string is accepted exactly when it is written in plain bytes, short escapes and hex escapes, and stands for what they say |
| CrowStrings.TextIsRead | third-party/crow/include/crow/json.h:340-403 | the escapes of any codes below 0x10000, in either letter case, and any other units unescape to their UTF-8 |
| CrowStrings.CodeIsRead | third-party/crow/include/crow/json.h:360-375 | four hex digits, in either case, are read as the number they spell |
| CrowStrings.EscapedSays | third-party/crow/include/crow/json.h:37-70 | a written string has a short escape for each byte that has one but the slash, a hex escape for other control bytes, and all other bytes as they are |
| CrowJsonText.NothingToUnescape | third-party/crow/include/crow/json.h:340-342 | without an escape there is nothing to do |
| CrowJsonText.UnitLength | third-party/crow/include/crow/json.h:346-398 | a unit of a JSON string takes at most six bytes, all within the text |
| CrowJsonText.UnitValue | third-party/crow/include/crow/json.h:346-398 | and never stands for more bytes than it takes, so the write pointer cannot pass the read pointer |
| CrowJson.Escape | third-party/crow/include/crow/json.h:37-70 | the loop appends the escaped text |
| CrowJson.EscapeByte | third-party/crow/include/crow/json.h:42-68 | the switch for one byte, with control bytes as four hex digits |
| CrowJson.DumpString | third-party/crow/include/crow/json.h:1394-1399 | quote, escaped text, quote |
| CrowJson.FindEnd | third-party/crow/include/crow/json.h:719-776 | the loop finds the end the definition gives, or fails, and stays within the buffer |
| CrowJson.DecodeString | third-party/crow/include/crow/json.h:717-777 | accepts exactly a string of JSON between its quotes, writes only the flag and NUL bytes, and the value stands for what the string says |
| CrowJson.StringValue.Unescape | third-party/crow/include/crow/json.h:340-403 | rewrites in place to what the string says: for every text of plain bytes, short escapes and four hex digits the bytes these stand for; changes nothing outside its stretch, and a second call changes no byte because of the flag |
| CrowJson.StringValue.Rewrite | third-party/crow/include/crow/json.h:344-401 | the two-pointer loop: the result is the unescaped text of the old bytes |
| CrowJson.StringValue.Turn | third-party/crow/include/crow/json.h:346-398 | one turn: what is written and what is left make up the whole, and the write pointer stays behind |
| CrowJson.StringValue.UnescapeCode | third-party/crow/include/crow/json.h:360-391 | a `\u` escape as the one to three bytes of its UTF-8 (`Utf8.EncodedIff`) |
| CrowJson.StringValue.Read | third-party/crow/include/crow/json.h:405-413 | a reader gets the same text the first time and every time after |
| CrowJson.FlagMeans | third-party/crow/include/crow/json.h:732-734 | with the flag lowered the text is its own unescaped form |
| CrowJson.DumpAndRead | third-party/crow/include/crow/json.h:717-777 | a dumped string, anywhere in a document, decodes and unescapes to what it was, also when read twice |
| Sse.FirstDelimiterIsFirst | src/llm_mistral.cpp:180-190 | the branch on the two searches picks the first blank line in either form |
| Sse.LeftoverHasNoBlankLine | src/llm_mistral.cpp:179-193 | the leftover contains neither form of a blank line |
| Sse.DelimiterStays | src/llm_mistral.cpp:177-190 | more data neither moves nor completes an earlier delimiter, not even one cut in the middle |
| Sse.FrameAppend | src/llm_mistral.cpp:177-193 | cutting the stream anywhere, also inside a delimiter, changes neither the frames nor the leftover |
| Sse.LineEnd | src/llm_mistral.cpp:198-199 | a line ends at the first of the two line-end characters |
| Sse.LineIsRead | src/llm_mistral.cpp:197-202 | one line and its end, of either of the three forms |
| Sse.LinesAreRead | src/llm_mistral.cpp:196-202 | the lines of a frame are the lines that were sent |
| Sse.Receiver.Write | src/llm_mistral.cpp:174-235 | one call: the completed frames leave the buffer in order and their payloads are examined |
| Sse.Receiver.Receive | src/llm_mistral.cpp:353-410 | a whole stream, however it is cut into chunks, leaves the payloads and the leftover of the uncut stream |
| Sse.Examine | src/llm_mistral.cpp:195-206 | the payloads of a frame are those of its `data:` lines, one leading space dropped |
| SseEvents.ReceiveEvents | src/llm_mistral.cpp:174-206 | of a stream of events, each any lines and a blank one, cut into chunks in any way, exactly the data comes out, in order, and nothing is left over |
| SseEvents.StreamIsFramed | src/llm_mistral.cpp:179-193 | the frames are the events |
| SseEvents.FieldSays | src/llm_mistral.cpp:204-206 | a data line says what stands behind `data:` and one space |
| LedgerIds.NumberOfId | scripts/blockchain/ledger.js:44 | the number of a made id is read back, also beyond six digits |
| LedgerIds.PaddedDigits | scripts/blockchain/ledger.js:70 | padding with zeros keeps the number |
| LedgerIds.NumberOfText | scripts/blockchain/ledger.js:194-201 | a written length is read back |
| Ledger.MaxIsGreatest | scripts/blockchain/ledger.js:39-49 | the recomputed counter is at least the number of every stored id |
| Ledger.RisingGrows | scripts/blockchain/ledger.js:69-70 | the next id is greater than all before it |
| Ledger.RisingHasNoDuplicates | scripts/blockchain/ledger.js:69-70 | rising ids are unique |
| LedgerChain.Codec.IndexIsPosition | scripts/blockchain/ledger.js:109-120 | in a valid chain each block's index is its position |
| LedgerChain.Codec.SameHashSameBlock | scripts/blockchain/ledger.js:112-118 | with an injective hash equal hashes at one position mean equal blocks there, and equal hashes one position before |
| LedgerChain.Codec.SameHashSamePast | scripts/blockchain/ledger.js:109-120 | and so an equal past down to the hash of the genesis block |
| LedgerChain.Codec.TamperEvidence | scripts/blockchain/ledger.js:109-120 | two valid chains of at least two blocks with one last hash have one length, agree on every block after genesis and on every stored hash |
| LedgerChain.Codec.SameChainIff | scripts/blockchain/ledger.js:109-120 | under the same hypotheses the chains are equal exactly when their genesis blocks are |
| LedgerChain.Codec.GenesisIsNotCovered | scripts/blockchain/ledger.js:111-112 | what the check leaves out: the genesis block may carry anything under its hash |
| LedgerChain.Codec.NewBlockFollows | scripts/blockchain/ledger.js:122-129 | appending a created block keeps the chain valid, so the last check of `addBlock` never throws |
| LedgerChain.KeysDiffer | scripts/blockchain/ledger.js:194-195 | the storage keys of the length and of the blocks are distinct |
| LedgerChain.LoadAfterSave | scripts/blockchain/ledger.js:192-206 | loading after saving gives exactly the saved chain, whatever stale keys the store held; other keys stay |
| LedgerRules.SortedByPriority | scripts/blockchain/ledger.js:179 | the active rules in falling priority, none lost |
| LedgerRules.ProcessingKeepsEntry | scripts/blockchain/ledger.js:177-184 | rule processing never changes postings, accounts, id or time; the applied rules are the matching ones, in order |
| LedgerRules.ProcessTransactionWithRules | scripts/blockchain/ledger.js:177-184 | the loop does that |
| LedgerRules.SameMatch | scripts/blockchain/ledger.js:151-164 | whether a rule matches does not depend on what earlier rules changed |
| RuleMeaning.ProcessedIsSaid | scripts/blockchain/ledger.js:166-184 | a new transaction after processing has the tags, the notes, the last category, the approval and the ids of exactly the active rules that meet it, in falling priority and, of one priority, as they are listed |
| RuleMeaning.MatchesIsMeets | scripts/blockchain/ledger.js:151-164 | a rule matches exactly when each condition that it has holds of the transaction |
| RuleMeaning.OrderOf | scripts/blockchain/ledger.js:179 | the order in which the active rules act |
| RuleMeaning.ActingIsOne | scripts/blockchain/ledger.js:177-184 | the acting rules and their order are determined |
| LedgerBalance.PostingsSum | scripts/blockchain/ledger.js:217 | over all accounts a posting list sums to debits minus credits |
| LedgerBalance.BalancesSum | scripts/blockchain/ledger.js:213-219 | the balances of all accounts together are what the included transactions put in |
| LedgerBalance.CreatedNet | scripts/blockchain/ledger.js:60-67 | a created transaction misses zero by at most 0.001 once its postings of kinds other than debit and credit are put back, and so by itself when it has none |
| LedgerBalance.FeeIsCreated | scripts/blockchain/ledger.js:60-67 | a posting of another kind passes every check of `createTransaction` and nets to a whole unit |
| LedgerBalance.CreatedNetIff | scripts/blockchain/ledger.js:60-67 | for given accounts and kinds all accepted amounts net to at most 0.001 exactly when every kind is "debit" or "credit", unless none are accepted |
| LedgerBalance.Conservation | scripts/blockchain/ledger.js:213-219 | for every chain of created transactions, every currency and every cutoff: the balances over all accounts, with what postings of kinds other than debit and credit took out put back, miss zero by at most 0.001 for each included transaction |
| LedgerBalance.ConservationIff | scripts/blockchain/ledger.js:213-219 | on all valid chains of created transactions with kinds from a given set the balances miss zero by at most that, exactly when the set has no kind but "debit", "credit" and the refused empty one |
| LedgerBalance.TransferNet | scripts/blockchain/api.js:32-37 | the two postings of `bc_addTransaction` cancel exactly |
| LedgerBalance.ExactConservation | scripts/blockchain/api.js:32-38 | when all transactions come from `bc_addTransaction` the sum is exactly zero |
| Ledger.GenesisIsGood | scripts/blockchain/ledger.js:107 | a new ledger satisfies the invariant of runs |
| Ledger.ChainGrows | scripts/blockchain/api.js:37-40 | one more transaction keeps the invariant: valid chain, rising ids, exact transfers, plain amounts |
| Ledger.LedgerState.InitializeTransactionCounter | scripts/blockchain/ledger.js:37-51 | the counter becomes the greatest number of a stored id |
| Ledger.LedgerState.CreateTransaction | scripts/blockchain/ledger.js:53-82 | succeeds exactly when every check passes, and then has the next id; otherwise the counter stays |
| Ledger.LedgerState.IsValidChain | scripts/blockchain/ledger.js:109-120 | the loop decides validity |
| Ledger.LedgerState.AddBlock | scripts/blockchain/ledger.js:122-131 | succeeds exactly on a valid chain with transactions, and the longer chain is valid |
| Ledger.LedgerState.SaveChain | scripts/blockchain/ledger.js:192-197 | saves exactly a valid chain |
| Ledger.LedgerState.LoadChain | scripts/blockchain/ledger.js:199-206 | the chain the stored keys spell, or none |
| Ledger.RulesLoadAfterSave | scripts/blockchain/ledger.js:208-209 | the saved rules of a fresh ledger are loaded as they were |
| Ledger.RulesKeepChain | scripts/blockchain/ledger.js:208 | saving rules does not touch the stored chain |
| Ledger.ChainKeepsRules | scripts/blockchain/ledger.js:192-197 | saving a chain does not touch the stored rules |
| Ledger.LedgerState.SaveRules | scripts/blockchain/ledger.js:208 | all rules under one key, and each under its own |
| Ledger.LedgerState.LoadRules | scripts/blockchain/ledger.js:209 | the stored rules, or none when there are none or they do not parse |
| Ledger.LedgerState.EnsureInitialized | scripts/blockchain/ledger.js:230-242 | the stored chain or a new stored one, the stored rules or the stored default ones, the counter recomputed from the chain; nothing changes when both are there |
| Ledger.LedgerState.AddTransaction | scripts/blockchain/api.js:26-43 | keeps the stored chain good; succeeds exactly when there is an amount and the texts are more than white space; then exactly one block follows the unchanged past, with index, previous hash, time and hash of its own, and in it the transfer as it was asked for, out of the source and into the destination, under the next id and as the rules say |
| Ledger.LedgerState.GetAccountBalance | scripts/blockchain/ledger.js:213-219 | the loops compute the balance by currency |
| Ledger.LedgerState.Serve | scripts/blockchain/api.js:26-43 | over every run of requests, with restarts in between, the stored chain stays good (valid, ids rising, exact transfers) and is the old one followed by the accepted transfers |
| Ledger.LedgerState.ServeOne | scripts/blockchain/api.js:26-43 | one request of a run, whatever the counter held before |
| Ledger.IdsOfRun | scripts/blockchain/ledger.js:37-51 | the ids of a run are the next numbers in order, one for each accepted transfer, whatever the restarts in between |
| Ledger.RunsOnlyAppend | scripts/blockchain/api.js:26-43 | no run changes or loses a stored block, and it adds one block for each accepted transfer |
| Ledger.TransferMoves | scripts/blockchain/ledger.js:213-219 | an accepted transfer takes its amount from the source and gives it to the destination, and changes no other balance |
| Ledger.AfterRecords | scripts/blockchain/api.js:26-43 | the chain of the definition is that description |
| Ledger.FreshRulesAct | scripts/blockchain/ledger.js:235-237 | the rules of a fresh ledger: approval from 10000 on, the currency tag for USD, category and tags of office expenses, in this order of priority |
| Ledger.NextIsNext | scripts/blockchain/ledger.js:37-51 | the next number is one more than the greatest number of a stored id, or 1 |
| Ledger.IdIs | scripts/blockchain/ledger.js:69-70 | an id is TX_ and at least six digits, with no more zeros in front than that takes |
| Accounting.RoundOfCents | scripts/sanitize.js:45-46 | `toFixed(2)` leaves whole cents as they are |
| Accounting.RoundingError | scripts/sanitize.js:45-46 | and moves any amount by half a cent at most |
| Accounting.HalfCents | scripts/sanitize.js:45-46 | half a cent is rounded away from zero |
| Accounting.EnsureBalancedLines | scripts/sanitize.js:39-56 | the loop with its throws decides the gate |
| Accounting.CentsGate | scripts/sanitize.js:39-56 | in whole cents exactly the entries of lines with an account and one side, not negative, whose debits are their credits are accepted |
| Accounting.NetAndErrors | scripts/sanitize.js:45-51 | debits minus credits are the rounded difference plus the rounding errors |
| Accounting.AcceptedImbalance | scripts/sanitize.js:39-56 | an accepted entry balances exactly when its rounding errors cancel, and misses by at most a cent for each line |
| Accounting.AcceptedUnbalanced | scripts/sanitize.js:39-56 | an entry that is accepted and does not balance |
| Accounting.CentsHaveNoErrors | scripts/sanitize.js:45-46 | in whole cents there are no errors |
| Accounting.IncludedPosts | scripts/business.js:331-333 | the joined and filtered journal lines are those of the posts of the project up to the date |
| Accounting.GroupsNet | scripts/business.js:331-334 | the grouping by account is a partition: the groups' differences add up to that of all lines |
| Accounting.SumsAreCents | scripts/business.js:331-334 | group sums of whole cents are whole cents |
| Accounting.TrialSum | scripts/business.js:243-247 | rounding the balances of whole-cent groups loses nothing |
| Accounting.SectionsSum | scripts/business.js:339-348 | the sections of the balance sheet and what they leave out are the trial balance |
| Accounting.ReportTotals | scripts/business.js:350-356 | the three totals, with current earnings in equity, add up to the sections |
| Accounting.PostedBalance | scripts/business.js:170-199 | accepted posts in whole cents balance, for every project and date |
| Accounting.AccountingEquation | scripts/business.js:325-358 | after every run of accepted posts in whole cents and for every date: the trial balance is zero, and assets + liabilities + equity is zero exactly when the balances of accounts outside the five types cancel |
| Accounting.BalanceSheetBalances | scripts/business.js:325-358 | with all accounts among the five types, assets + liabilities + equity including current earnings is zero |
| Accounting.EquationIff | scripts/business.js:325-358 | for a chart of accounts the balance sheet balances after every run of accepted posts in whole cents exactly when the accounts of the project are all of the five types, or none is, or the report ends before the first day; entries are dated on days of the calendar |
| Accounting.OtherTypeUnbalances | scripts/business.js:325-358 | one accepted entry of 2024-01-01 on an account of another type, after which the report is off by its amount |
| Accounting.EquationBound | scripts/business.js:325-358 | after every run of accepted posts in whatever amounts, the trial balance misses zero by at most a cent for each line and half a cent for each account, and the three totals with what they leave out by one and a half cents more |
| Books.TrialBalanceIsZero | scripts/business.js:232-250 | the trial balance of a project sums to zero after any run of accepted posts in whole cents |
| Books.ProjectPosts | scripts/business.js:237-239 | reading lines without their entries gives the lines of all posts of the project |
| Books.Journal.EnsureAccountsForProject | scripts/business.js:44-55 | a project without accounts gets exactly those of the project "global", or else the default ones; any other project none |
| Books.SeededOnce | scripts/business.js:44-55 | after seeding a project has accounts, and a second call adds none |
| Books.GlobalIsCopied | scripts/business.js:44-55 | a project seeded from "global" has every account code that "global" has |
| Books.SeedsAreOfKinds | scripts/business.js:20-55 | seeding brings in no type outside the five |
| Bytes.Trim | scripts/business.js:156 | the text without the white space and line ends of ECMAScript at both ends |
| Books.Journal.AddAccount | scripts/business.js:151-160 | adds one account of any type, its code and name trimmed, at any place: in key order that of its uuid |
| Books.AccountOrderIff | scripts/business.js:241-243 | whatever the order of the accounts, a report names a code and its type alike exactly when the accounts of that code agree on both |
| Books.Journal.PostJournal | scripts/business.js:164-202 | seeds the accounts, then posts the entry with its memo, user and time stamp and all its lines exactly when date, gate and accounts are right, and otherwise posts nothing |
| Books.Journal.Record | scripts/business.js:184-199 | the inserts record exactly the post |
| Books.Journal.TrialBalance | scripts/business.js:232-250 | in the order of the codes one row for every account with a line and no others: its own debits and credits, their difference rounded, name and type of the last account of that code; and in whole cents the balances sum to zero |
| Books.Journal.BalanceSheet | scripts/business.js:325-358 | in whole cents: assets, liabilities and equity show exactly the accounts of their types with an included line, earnings that are not zero close the equity, each total is debits less credits of the included lines on accounts of its types, and with all accounts among the five types the three sum to zero |
| SheetMeaning.ReportIsSaid | scripts/business.js:339-356 | the same for any included lines and chart of accounts |
| SheetMeaning.SectionIsSaid | scripts/business.js:343-345 | a section has a row for a code exactly when an included line is on an account of that type, in the order of the codes |
| SheetMeaning.NetOfLines | scripts/business.js:331-348 | the net of groups by type is that of the lines by type |
| SheetMeaning.ByAccountSays | scripts/business.js:331-334 | the groups of a report are the accounts that occur, each with its own debits and credits |
| SheetMeaning.KindIsTyped | scripts/business.js:335-340 | an account has the type of the last of its code in the project, or is unknown |
| Books.TotalOf | scripts/business.js:355 | the total of a section |
| Books.MixedRun | scripts/business.js:151-202 | two accounts added, one of a type of its own, and one entry posted: the balance sheet is off by its amount |
| JournalTables.PostedKeysDiffer | scripts/business.js:187-199 | lines of different posts, and different lines of one, get different keys |
| JournalTables.StoredEntry | src/DBManager.cpp:63-78 | the entry stored under an id is the one that was posted with it |
| JournalTables.WeighLinesTable | src/DBManager.cpp:63-78 | sums over the table of lines, which is in key order, are sums over the lines in the order of posting |
| JournalQueries.SplitConditionsOf | src/QueryExecutor.cpp:115-131 | of the report's conditions the one on the project is pushed down and the one on the entry's date is kept |
| JournalQueries.JoinedByLine | src/QueryExecutor.cpp:132-190 | scan, join and filter treat the lines one after the other |
| JournalQueries.ScanById | src/QueryExecutor.cpp:155-164 | the join finds the entry of a line, once |
| JournalQueries.SheetRowsOf | scripts/business.js:331-333 | a line comes to one row, with its entry's date, exactly when the report includes it |
| JournalQueries.GroupsAgree | src/QueryExecutor.cpp:199-220 | when rows and lines have the same sums and counts for every account, the engine's groups are those of the lines |
| JournalReports.SheetSelect | scripts/business.js:331-334 | the engine answers the query of the balance sheet with the accounts of the included lines and their sums of debits and credits, with fresh indexes or none |
| JournalReports.TrialSelect | scripts/business.js:237-240 | the engine answers the query of the trial balance with those of all lines of the project |
| JournalReports.StorePosts | scripts/business.js:184-199 | the inserts of any number of posts leave these rows in the tables |
| JournalReports.SheetGroups | scripts/business.js:331-341 | after accepted posts were stored, `handleSelect` gives the groups on which the accounting equation rests |
| JournalReports.TrialGroups | scripts/business.js:237-247 | and those of the trial balance, whose balances sum to zero in whole cents |

## Left out

- Trie.Trie.Add: patterns with an unknown `<...>` part are outside its precondition, because on them the loop of the source steps back to the same character for ever; adding after `Validate` is outside too, as the source adds all rules first.
- HttpParser.HTTPParser.Feed: says nothing of the callbacks made before an error.
- HttpParser.HTTPParser.FeedReads: reads are non-empty, as they come from the socket; an empty one is covered by `Execute`.
- HttpMessages.RequestIsHandled: CONNECT and an Upgrade header with a value end HTTP on the connection and are outside its precondition, as are header values continued on another line; headers are a list, so the order within the source's multimap is not modelled, nor are the URL parameters.
- PicoRoundTrip.RoundTrip: doubles are excluded, because their text depends on `printf` and integral ones come back as integers.
- PicoJson.SerializeAndParse: the error text with its line number is not modelled.
- MustacheRender.Template.RenderInternal: partials and their indentation are outside its precondition, because they load other files.
- MustacheRender.Template.Render: needs every block closed; an unclosed block keeps position 0, from which the source would render again without end.
- MustacheRoundTrip.CompileAndRender: texts and names are such that the written form is unambiguous, and the default delimiters are used.
- QueryExecutor.HandleSelect: ORDER BY is left out, both the index-driven path and the final sort, which orders only the rows that LIMIT left over; result columns of sums are texts by parameter.
- Pushdown.PushdownPreserves: without SKIP and LIMIT, which the executor applies before the joins and again after them.
- Selecting.IndexIsTransparent: the indexes are fresh; insert, update, delete and batch statements never update them.
- Indexing.EveryRunMirrors: the row passed as the old one is the stored one, which is what both calls ask of their callers.
- Database.DBManager.Update: the JSON form of rows is left out; a stored row is a map of texts.
- CrowJsonText.UnescapedEscaped: halves of a surrogate pair are not joined, as in the source; JSON values other than strings are left out.
- Sse.Receiver.Write: what is done with a payload (JSON, sending on) is left out; it depends on the payload alone.
- LedgerChain.LoadAfterSave: the JSON text of a block is a parameter that reads back.
- Ledger.LedgerState.AddTransaction: adding a rule is left out; the rules are those of a fresh ledger or whatever the store holds.
- RuleMeaning.ProcessedIsSaid: `approvalStatus` is left out; it is 'pending' exactly when the approval is required.
- Ledger.LedgerState.Serve: number limits of JavaScript are left out; ids are unbounded.
- LedgerBalance.Conservation: amounts are reals, so the rounding of floating-point sums is left out, and so are amounts that are not finite.
- Books.Journal.EnsureAccountsForProject: the seeded rows stand last, in their order, where the table has them in the order of their random uuids; what that order decides is `Books.AccountOrderIff`.
- Books.Journal.BalanceSheet: rows carry code and balance; the name of each account is shown by the trial balance only.
- Accounting.BalanceSheetBalances: sums come exact from the engine, whose six decimals lose nothing of whole cents.
- JournalReports.TrialSelect: the query's ORDER BY is left out; the groups come in the order it asks for.
- The check of the token before each call of the books is left out; the user it finds is a parameter.
- Profit and loss, reports over all projects, account ledgers and the listing of journals only read what is modelled.
- The SQL parser is driven by regular expressions and left out: queries start as parsed statements.
- RocksDB, V8, sockets, timers, curl, file watching, the web user interface and the calls to language models are input and output.
- Signatures, hashes and token claims are left out; only the encoding of token parts is modelled.
- HTTP responses, pausing, and callbacks that return an error are left out: the server only parses requests, with callbacks that return 0.
