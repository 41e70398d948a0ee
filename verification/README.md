# UFA in Dafny

A Dafny model of UFA, a daemon that keeps tags and attributes for the files of a directory, and proofs about the five
places where its logic is hard. `dafny verify dfyconfig.toml` checks the whole project.

**The wire.** The daemon and its clients exchange JSON-RPC 2.0 messages (sections 4 and 5 of its specification) over a
stream. `JsmnSpec` is the tokenizer of `jsmn.h` as a function of one step at a time, in the variant the build selects
(non-strict, without parent links); `JsmnParser` is the same tokenizer in its own form, a class whose methods change
`pos`, `toknext`, `toksuper` and the token array in place, and each method is proved to take the function's step.
`JsmnInvariant` has what holds on every text at every step, `JsmnBrackets` which texts are accepted, `JsonText` and
`JsonTokens` what is read from every JSON value in any layout, `PrefixSafety` what is reported for every text that was
cut. `JsonRpcSpec` and `JsonRpcParser` are the walk over the flat token array in the same two forms, `JsonReads` and
`JsonMessage` what the walk makes of every value and message, and `ReaderLimits` and `UnknownMembers` exactly where it
loses its way. `Wire`, `WireRequests`, `WireLists` and `WireReplies` are the printed texts, character for character, and
their round trips; `ParsedStrings` shows which strings can come back at all, so that the round trips hold if and only if
the values are such strings. `Connection` is the receive loop with its growing buffer, `ClientReplies` the single read of
a client, `ClientErrors` what it reports, and `Endpoint` puts everything together, from a client's call to the rows a
search selects.

**The containers.** `HashSpec` is the chained hash table on values, with the mutual recursion of put and rehash;
`HashLaws` proves that it is a finite map, that it terminates and when it doubles, and that every owned pointer is freed
exactly once; `HashTable` is the table on the heap, with its bucket array and node chains. `ListSpec` and `DList` are
the doubly linked list.

**The store.** `StoreSpec` has the four tables with their keys and the statements that change them, `StoreLaws` what
they mean (files, tags, attributes, vocabulary) and that the operations do to this meaning what they should;
`RenameSpec` does the same for renaming and moving, and `Moves` for runs over several repositories. `Repo` has the
operations as methods of a connection. `Search` and `Listing` are the GROUP BY / HAVING COUNT queries and what they
select; `SqlText` is the text that is generated for them and the values that are bound in separate loops, and `Queries`
reads that text back, executes it on those values and proves that this is the search.

**The monitor.** `Events` and `Monitor` pair the halves of moves by cookie, and `EventPlan` says exactly when a batch is
delivered as it should be; `Watchers` and `Reload` are the tables of watched directories and their change when the
configuration is loaded again.

**Paths.** `Path` is the in-place normaliser, with a stack of components as its meaning.

A C string is a `string` without NUL whose characters stand for bytes. Pointers that may be null are `Option`s, the
free functions a table calls are recorded in a log, and what the operating system, the file system, the SQL operator
LIKE or the network answers is a parameter of the member concerned. Where the code falls short of what it is meant to
do, the code is modelled as it is, and a lemma says for which inputs the two agree:

- a search filter without a value reaches the server as a filter for the value "(null)" (`WireLists.FiltersArrive`);
- an object inside an object costs the reader the next token, arrays inside an array share one list, and what an object
  holds under an unknown name is taken for members of the message (`ReaderLimits.ObjectMemberExact`,
  `ReaderLimits.NestedListsExact`, `UnknownMembers.UnknownExact`);
- a chunk of exactly 1024 bytes is terminated outside its array, and what follows a terminator within a chunk is dropped
  (`Connection.HandleConnection`, `Connection.OneRequestPerChunk`);
- a request without a method is dispatched on a null pointer (`Connection.ServedExactly`);
- a client reads once, so a response of 4096 bytes or more does not arrive, and it uses the message of an error response as
  a format, so one with a percent sign is not reported as it is (`ClientReplies.ListArrives`,
  `ClientErrors.ErrorReported`);
- repeated tags or filter names make a search find nothing, and an attribute clause of 4096 characters or more is cut
  (`Queries.OutcomeExact`, `Endpoint.LongSearchFails`);
- a rename whose file is not known, or whose new name another file has, jumps over the initialisers of four pointers and
  releases them, so it has no defined outcome; that is so for every rename of a file without a row, once it is gone from
  the disk, and for a move to another repository under a new base name (`RenameSpec.RenameReturns`, `Moves.RunLaw`,
  `Moves.FirstRename`, `Moves.TaggedOver`, `Moves.MoveAway`);
- a move between repositories looks for the old base name in the new repository, and one between two directories of the
  same repository that keeps the base name loses the metadata (`RenameSpec.MoveCarries`, `Moves.MoveInside`);
- a callback that stops watching a directory can drop half of a move, or leave a later event of the batch without its
  directory (`EventPlan.TurnExact`);
- a directory that is configured twice and cannot be watched fails an assertion of the reload, and so does one that could
  not be watched at start-up (`Reload.FailsExactly`); two spellings of one directory make the tables of the monitor
  disagree (`Reload.ReloadKeeps`);
- in the root directory a relative path gets a second slash in front, and a component that ends at the end of the buffer
  is terminated outside it (`Path.RelativeInRoot`, `Path.ResolvePath`).

## Model

| member | source | states |
|---|---|---|
| JsmnSpec.ScanString | src/util/jsmn.h:193-263 | the scan of a string ends at a quote inside the text, behind where it began |
| JsmnSpec.LastOpen | src/util/jsmn.h:337-358 | the innermost open container is the last token whose end is -1, which is how the array keeps the bracket stack |
| JsmnParser.Parser.AllocToken | src/util/jsmn.h:106-118 | the in-place allocation appends one empty token, or fails without a change |
| JsmnParser.Parser.ParsePrimitive | src/util/jsmn.h:135-188 | in place, the primitive scan does what the specification's scan does: token, error code, restored position |
| JsmnParser.Parser.ParseString | src/util/jsmn.h:193-263 | the same for strings, escapes and \u sequences included |
| JsmnParser.Parser.CloseBracket | src/util/jsmn.h:308-360 | the two backward loops over the token array find the container to close and the next open one |
| JsmnParser.Parser.Comma | src/util/jsmn.h:379-396 | the backward loop of the comma finds the open container |
| JsmnParser.Parser.OpenBracket | src/util/jsmn.h:281-307 | a bracket appends an open token and counts it as a child of the superior one |
| JsmnParser.Parser.Turn | src/util/jsmn.h:275-441 | one turn of the main loop, on the token array in place, is one step of the specification |
| JsmnParser.Parser.Parse | src/util/jsmn.h:268-453 | the whole loop, on any text and any array, leaves the tokens and returns the code of the specification's run |
| JsmnInvariant.ScanStringBody | src/util/jsmn.h:193-263 | what the string scan accepts is a string body of RFC 8259, section 7 (control characters allowed) |
| JsmnInvariant.RunKeepsInv | src/util/jsmn.h:268-453 | on every text and from every state that meets the invariant: the open tokens are exactly the stack of the brackets read so far, starts increase, spans are nested or disjoint, parents come first, sizes count children, and a token with a child is followed by its first child |
| JsmnInvariant.StepKeepsInv | src/util/jsmn.h:275-441 | the same for a single step |
| JsmnInvariant.StepStacks | src/util/jsmn.h:281-360 | a step pushes the new token on the stack of open tokens at an opening bracket, pops the innermost at a closing one, and leaves it alone otherwise |
| JsmnBrackets.AcceptsBalanced | src/util/jsmn.h:268-453 | every accepted text has brackets that are balanced and match, outside its strings and primitives; with room for a token per character, the accepted texts are exactly these |
| JsmnInvariant.TokenizeUsable | src/util/jsmn.h:443-453 | success means every container is closed, the count is the number of tokens, and every token is a span of the text |
| JsonTokens.TokenizeText | src/util/jsmn.h:268-453 | for every JSON value in any layout (RFC 8259, section 2), the tokens are its nodes in pre-order with exact spans and child counts, and the result is the number of nodes |
| JsonTokens.RunMembers | src/util/jsmn.h:308-396 | members of an open object are tokenized in turn, also when the comma behind a closing brace is missing |
| PrefixSafety.PrefixIsPart | src/util/jsmn.h:143-188 | if the first byte opens the container that closes at the last byte of an accepted text, every non-empty proper prefix, cut anywhere, is partial: never a count, invalid or out of memory |
| PrefixSafety.TextPrefixIsPart | src/util/jsmn.h:203-262 | the same for the text of every object and array |
| JsonRpcParser.Context.ReadArrayToken | src/json/jsonrpc_parser.c:217-269 | the loop over items, on the shared cursor and the shared sublist, does what the function over values does |
| JsonRpcParser.Context.ParseParam | src/json/jsonrpc_parser.c:276-355 | a key and its value, on the shared cursor and the table, in the specification's terms, failures included |
| JsonRpcParser.Context.ParseMessage | src/json/jsonrpc_parser.c:380-477 | the loop over members of the message, the jump over unknown ones included |
| JsonRpcParser.Parse | src/json/jsonrpc_parser.c:61-97 | the parser in its own form returns, for every text, what the specification returns |
| JsonReads.ReadsItems | src/json/jsonrpc_parser.c:217-269 | an array under construction reads all its items, with the list its nested arrays share |
| JsonReads.ReadsArray | src/json/jsonrpc_parser.c:217-269 | an array is read as the list it spells |
| JsonReads.ReadsObject | src/json/jsonrpc_parser.c:359-377 | an object is read into the table it spells in one call, which ends behind its own tokens, plus the overshoot of an object in its last member |
| JsonReads.ReadsMember | src/json/jsonrpc_parser.c:276-355 | a member puts the meaning of its value under its key; an object as value costs one token too many |
| JsonMessage.ParsesMessage | src/json/jsonrpc_parser.c:61-97 | every well-formed message within the limits is parsed to exactly the message it spells (JSON-RPC 2.0, sections 4 and 5) |
| JsonMessage.PartialMessage | src/json/jsonrpc_parser.c:61-97 | every message cut short anywhere is reported as partial |
| JsonMessage.MessagesAreFramed | src/json/jsonrpc_server.c:195-218 | a message is partial until its last character, then read as what it spells, and holds no NUL |
| UnknownMembers.ReadsUnknown | src/json/jsonrpc_parser.c:462-466 | what an object holds under a name the reader does not know is taken for members of the message, and an array there that holds a name of the reader makes the message invalid |
| UnknownMembers.UnknownExact | src/json/jsonrpc_parser.c:462-466 | such a message is read as written exactly when none of these objects holds a method, an identifier or a table with members, at any depth, and no array there holds a name of the reader |
| ReaderLimits.NestedListsExact | src/json/jsonrpc_parser.c:221-245 | an array of lists is read as written exactly when every list but the last is empty, since nested arrays share one list |
| ReaderLimits.ObjectMemberExact | src/json/jsonrpc_parser.c:335-348 | an object with an object member in front of any other members, at the end of a message, is read as written exactly when no member follows the object member |
| ReaderLimits.ObjectMemberSkips | src/json/jsonrpc_parser.c:348-348 | a concrete message whose second member is lost and whose reading runs past the last token |
| ParsedStrings.ParsedIsWire | src/json/jsonrpc_parser.c:134-156 | whatever text is parsed, every key and string in its tables, at any depth, is a string body that fits the reader's buffer |
| Strings.JoinList | src/util/string.c:197-236 | the buffer loop joins the values with delimiters, and always has room |
| Strings.Multiply | src/util/string.c:87-101 | the loop repeats a text |
| WireRequests.ParamsFirstExact | src/json/jsonrpc_api.c:104-112 | a request with its parameters first is read back, and framed, exactly when every value is a wire string: no quote, no backslash that is no escape, no NUL, under 1024 bytes |
| WireRequests.ParamsLastExact | src/json/jsonrpc_api.c:208-216 | the same for requests with their parameters last |
| WireRequests.SetTagRoundTrip | src/json/jsonrpc_api.c:104-112 | the settag request comes back as its method, id and two parameters exactly when both are wire strings |
| WireRequests.ListTagsRoundTrip | src/json/jsonrpc_api.c:135-142 | the listtags request, whose template has no comma behind the parameters |
| WireRequests.GetTagsRoundTrip | src/json/jsonrpc_api.c:170-177 | the gettags request |
| WireRequests.InsertTagRoundTrip | src/json/jsonrpc_api.c:208-216 | the inserttag request |
| WireRequests.ClearTagsRoundTrip | src/json/jsonrpc_api.c:246-254 | the cleartags request |
| WireRequests.UnsetTagRoundTrip | src/json/jsonrpc_api.c:281-290 | the unsettag request |
| WireRequests.SetAttrRoundTrip | src/json/jsonrpc_api.c:318-332 | the setattr request |
| WireRequests.GetAttrRoundTrip | src/json/jsonrpc_api.c:355-363 | the getattr request |
| WireRequests.UnsetAttrRoundTrip | src/json/jsonrpc_api.c:403-413 | the unsetattr request |
| WireLists.StringArray | src/json/jsonrpc_api.c:473-475 | a list of wire strings, printed as an array, is read as that list |
| WireLists.DecimalReads | src/json/jsonrpc_server.c:612-623 | every 32-bit integer, printed in decimal, is read as that integer |
| WireLists.SearchRoundTrip | src/json/jsonrpc_api.c:450-480 | a search with any lists of repositories, filters and tags is framed and read back with exactly these lists |
| WireLists.SearchExact | src/json/jsonrpc_api.c:450-480 | a search within the token limit is read back exactly when all its strings are wire strings |
| WireLists.FiltersArrive | src/json/jsonrpc_server.c:506-517 | the filters the server rebuilds are the client's exactly when each has a value; a filter without one arrives as one for the value "(null)" |
| WireLists.RebuildFilters | src/json/jsonrpc_server.c:506-517 | the loop rebuilds one filter per table, in order |
| WireReplies.ListReplyRoundTrip | src/json/jsonrpc_server.c:554-569 | the list response comes back as its id and exactly its list |
| WireReplies.ListReplyExact | src/json/jsonrpc_server.c:554-569 | the list response is read back exactly when all its strings are wire strings |
| WireReplies.BoolReplyRoundTrip | src/json/jsonrpc_server.c:598-610 | the truth-value response |
| WireReplies.IntReplyRoundTrip | src/json/jsonrpc_server.c:612-623 | the integer response |
| WireReplies.AttrReplyRoundTrip | src/json/jsonrpc_server.c:571-596 | the attribute-object response, an object member in the last place |
| WireReplies.AttrReplyExact | src/json/jsonrpc_server.c:571-596 | the attribute response is read back exactly when all names and values are wire strings |
| WireReplies.ErrorReplyRoundTrip | src/json/jsonrpc_server.c:540-552 | the error response: code and message |
| WireReplies.ErrorReplyExact | src/json/jsonrpc_server.c:540-552 | the error response is read back exactly when its message is a wire string |
| ClientReplies.ArrivesExactly | src/json/jsonrpc_api.c:518-548 | the client gets a response, whatever lies behind its buffer, exactly when the response and its terminator fit the buffer of 4096 bytes |
| ClientReplies.ListArrives | src/json/jsonrpc_api.c:127-158 | the list a client returns is the list the server sent exactly when the response is shorter than 4096 characters |
| ClientReplies.FiveLongTags | src/json/jsonrpc_api.c:531-548 | five tags of 1000 letters do not arrive |
| ClientReplies.AttrsArrive | src/json/jsonrpc_api.c:348-392 | the attributes a client returns are the attributes the server sent exactly when the response is shorter than 4096 characters |
| ClientErrors.FormattedExact | src/util/string.c:115-123 | a text used as a format comes out as itself exactly when it holds no percent sign |
| ClientErrors.ErrorReported | src/json/jsonrpc_api.c:555-579 | a client reports the code and the message of an error response exactly when the message holds no percent sign; every such response fits its buffer |
| ClientErrors.PercentNames | src/json/jsonrpc_api.c:572-572 | two messages with a percent sign: one is reported with the error code in it, the other is not defined |
| Connection.HandleConnection | src/json/jsonrpc_server.c:163-231 | the receive loop with its array for a chunk and its growing buffer ends as the specification says: while what happens is known, it stays inside the array exactly when every chunk is shorter than 1024 bytes, and then every strcat fits and it processes what it is meant to |
| Connection.ServeExact | src/json/jsonrpc_server.c:175-216 | the specification of the loop ends normally exactly when all chunks are small and every text is one whose reading is defined |
| Connection.ServedExactly | src/json/jsonrpc_server.c:201-201 | a framed text is served exactly when it names a method; without one the dispatch compares a null pointer |
| Connection.ReadPart | src/json/jsonrpc_server.c:175-179 | one read, the terminator behind it, and the text it leaves in the array |
| Connection.ShortRequestsInside | src/json/jsonrpc_server.c:175-176 | a request that is there at once stays inside the array exactly when it has less than 1023 characters |
| Connection.Append | src/json/jsonrpc_server.c:184-201 | strcat into the buffer writes the text, the part and a terminator, and nothing else |
| Connection.ReceiveRest | src/json/jsonrpc_server.c:182-218 | from any point inside a request, the remaining chunks complete it once and leave the buffer empty |
| Connection.Reassembly | src/json/jsonrpc_server.c:182-218 | for any run of framed requests, each cut anywhere into chunks below 1024 bytes with its terminator in the last one or alone, each is processed exactly once, in order, from its full text |
| Connection.RunsInside | src/json/jsonrpc_server.c:175-176 | such a run stays inside the array |
| Connection.StreamArrives | src/json/jsonrpc_server.c:175-218 | the same for the whole stream of requests: any cut into chunks below 1024 bytes in which a terminator only ends a chunk |
| Connection.OneRequestPerChunk | src/json/jsonrpc_server.c:176-201 | when chunks hold whole requests, all of them are processed exactly when no chunk holds two: the text behind the first terminator is dropped |
| Connection.StraddlingChunk | src/json/jsonrpc_server.c:176-201 | a chunk that ends one request and begins the next: the first is processed, nothing is left in the buffer, and the next is read without its beginning |
| Endpoint.CallFramed | src/json/jsonrpc_api.c:95-503 | every client call with wire strings is partial until its last character and then read as the client meant it |
| Endpoint.CallsArrive | src/json/jsonrpc_server.c:170-231 | end to end: any run of client calls, printed and cut into any chunks below 1024 bytes, is processed inside the array as exactly these calls, each once and in order |
| Endpoint.LongCallOutside | src/json/jsonrpc_server.c:175-176 | a call on the wire whose path has 1023 letters, sent at once, is read with a full chunk |
| Endpoint.SearchServed | src/json/jsonrpc_server.c:480-538 | the answer of a repository to a search on the wire: exactly the files asked for when the attribute clause fits its buffer and tags and filter names are distinct, nothing when they repeat, and an error or nothing when the clause is cut; a filter without a value counts as one for "(null)" |
| Endpoint.LongSearchFails | src/core/repo_sqlite.c:1449-1480 | a search of 129 distinct filters, every one of them on the wire, is a syntax error; one of 128 or less is not |
| HashSpec.Find | src/util/hashtable.c:306-334 | the first entry with an equal key |
| HashTable.HashTable.NewFull | src/util/hashtable.c:63-84 | an empty table of the given size, threshold computed from the load factor |
| HashTable.HashTable.FindNode | src/util/hashtable.c:306-334 | walking a chain finds the node of the key, its predecessor and the bucket |
| HashTable.HashTable.Get | src/util/hashtable.c:147-156 | get returns what the finite map has, or null |
| HashTable.HashTable.HasKey | src/util/hashtable.c:158-163 | has_key is membership in the finite map |
| HashTable.HashTable.Size | src/util/hashtable.c:195-198 | the element count is the size of the finite map |
| HashTable.HashTable.PutFull | src/util/hashtable.c:102-145 | put on the heap is put on the rows: replace and free, or push in front and rehash past the threshold |
| HashTable.HashTable.Remove | src/util/hashtable.c:165-193 | remove unlinks the node, first or behind a predecessor, and frees what it owns |
| HashTable.HashTable.Clear | src/util/hashtable.c:214-233 | clear frees every entry in order and empties every bucket |
| HashTable.HashTable.Rehash | src/util/hashtable.c:235-259 | rehash puts every node of the old chains into an array of twice the size, in the mutual recursion with put, and terminates |
| HashTable.HashTable.Keys | src/util/hashtable.c:261-273 | keys, prepended and reversed, come in the order of the rows |
| HashTable.HashTable.Values | src/util/hashtable.c:277-289 | values come in the same order |
| HashLaws.GetLaw | src/util/hashtable.c:306-334 | the entry found in the row of the key is the entry of the map |
| HashLaws.PutLaw | src/util/hashtable.c:102-145 | put binds the key in the finite map, keeps every entry at home and keys distinct, frees exactly the replaced entry's pointers, and keeps within the threshold |
| HashLaws.RehashLaw | src/util/hashtable.c:235-259 | rehash keeps the map, frees nothing and ends within the threshold |
| HashLaws.RemoveLaw | src/util/hashtable.c:165-193 | remove takes the key out of the map and frees what its entry owns |
| HashLaws.RehashDoublesOnce | src/util/hashtable.c:250-250 | the open question in rehash: a put inside it rehashes again exactly when the entries exceed the threshold of the doubled table |
| HashLaws.PutDoublesOnce | src/util/hashtable.c:136-141 | with a threshold of at least one, put doubles the table exactly once, and exactly when a new key passes the threshold |
| HashLaws.PutFromZero | src/util/hashtable.c:81-141 | with a threshold of zero the nested rehashes stop at the first doubling that has a threshold |
| HashLaws.PutLedger | src/util/hashtable.c:102-145 | what is handed to put is owned by the table or has been freed, as often as it was handed over |
| HashLaws.RunLaw | src/util/hashtable.c:102-259 | after any run of put, remove, clear and rehash the table is the finite map of the run, within its threshold, with a balanced ledger |
| HashLaws.AllFreed | src/util/hashtable.c:292-299 | a run that ends by clearing has freed every owned pointer exactly as often as it was handed over |
| HashLaws.ListsMatch | src/util/hashtable.c:261-289 | keys and values list each entry of the map once, in matching order |
| ListSpec.ReversedTwice | src/util/list.c:217-236 | reversing twice gives the list back |
| ListSpec.ReversedAt | src/util/list.c:217-236 | where each element of the reversed list comes from |
| DList.GetLast | src/util/list.c:137-142 | the walk ends at the last node |
| DList.Get | src/util/list.c:120-126 | the node at a position, or null behind the end |
| DList.Size | src/util/list.c:144-150 | the number of elements |
| DList.Append | src/util/list.c:51-65 | a new node behind the last one |
| DList.Prepend | src/util/list.c:74-82 | a new node in front |
| DList.LinkBefore | src/util/list.c:283-295 | a lone node is linked in front of any position, both ways |
| DList.Insert | src/util/list.c:84-101 | insert at the position, or behind the end when it is past it |
| DList.Concat | src/util/list.c:103-119 | two lists without common nodes become one |
| DList.UnlinkNode | src/util/list.c:161-181 | a node leaves from any position, its neighbours are linked, and it is linked to nothing; a null pointer leaves the list alone |
| DList.Reverse | src/util/list.c:217-236 | in place, the nodes run the other way and the old last node is returned |
| DList.Clone | src/util/list.c:197-215 | fresh nodes with the copied data in the same order; the list itself is left alone |
| DList.Free | src/util/list.c:238-263 | the data freed are those of the nodes with a free function, or all, in order |
| StoreSpec.IdOf | src/core/repo_sqlite.c:1080-1104 | selecting by a unique name gives the one id, or 0 |
| StoreLaws.GetFileIdLaw | src/core/repo_sqlite.c:1314-1358 | a file on disk that is not in the table is inserted under a fresh id; others are found or refused |
| StoreLaws.ExecuteLaw | src/core/repo_sqlite.c:338-461 | each operation that returns keeps all unique and foreign keys and does to vocabulary, files, tags and attributes what it is meant to, failures included; all return but a rename of an unknown file or to the name of another one |
| StoreLaws.ReplaceAttrLaw | src/core/repo_sqlite.c:588-630 | setting an attribute replaces the one of that name and keeps its id |
| StoreLaws.DeleteFileLaw | src/core/repo_sqlite.c:818-847 | removing a file takes its tags and attributes with it and nothing else |
| StoreLaws.UpdateNameLaw | src/core/repo_sqlite.c:859-878 | renaming a row fails exactly on a name that another row has, and otherwise carries tags and attributes with it |
| StoreLaws.RunLaw | src/core/repo_sqlite.c:35-69 | a run of operations on a repository, with any files appearing on disk, comes to its end exactly when every rename in it meets its guard in its state; then the tables keep their constraints and mean what the operations say |
| Moves.StepLaw | src/core/repo_sqlite.c:850-935 | an operation, a rename or a move on any of several repositories returns exactly when it meets its guard; then it keeps the constraints of all of them and does to their metadata what it is meant to |
| Moves.RunLaw | src/core/repo_sqlite.c:850-935 | a run of operations, renames and moves over any number of repositories comes to its end exactly when every rename and move meets its guard in its state; then the tables of all mean what the requests say |
| Moves.MoveBetween | src/core/repo_sqlite.c:864-926 | between two repositories a move has the outcome that RenameSpec describes, an undefined one included |
| Moves.MoveInside | src/core/repo_sqlite.c:892-921 | between two directories of one repository it is a rename when the base name changes; otherwise the file is copied onto itself and loses all its metadata |
| Moves.UntaggedRename | src/core/repo_sqlite.c:864-866 | renaming a file without a row, which is not on disk any more, has no defined outcome |
| Moves.FirstRename | src/core/repo_sqlite.c:864-866 | so `mv a b` in a new repository has none |
| Moves.RenameOver | src/core/repo_sqlite.c:876-878 | renaming a file to the name of another one that has a row has no defined outcome |
| Moves.TaggedOver | src/core/repo_sqlite.c:876-878 | so `mv a b` has none when both files are tagged |
| Moves.MoveAway | src/core/repo_sqlite.c:864-866 | `mv a/x b/y` between two repositories has no defined outcome after x was tagged |
| Repo.Repository.GetFile | src/core/repo_sqlite.c:1425-1445 | the look-up that inserts a file on disk |
| Repo.Repository.CreateTag | src/core/repo_sqlite.c:338-357 | a tag is created once |
| Repo.Repository.SetTag | src/core/repo_sqlite.c:359-388 | tagging is idempotent; on an unknown file it fails, but the tag exists afterwards |
| Repo.Repository.UnsetTag | src/core/repo_sqlite.c:429-461 | only this tag of this file goes |
| Repo.Repository.ClearTags | src/core/repo_sqlite.c:390-427 | all tags of this file go, and no others |
| Repo.Repository.SetAttr | src/core/repo_sqlite.c:588-630 | the attribute has this value, and only this one |
| Repo.Repository.UnsetAttr | src/core/repo_sqlite.c:634-672 | the attribute goes |
| Repo.Repository.RemoveFile | src/core/repo_sqlite.c:818-847 | the file goes with its tags and attributes |
| Repo.Repository.GetTags | src/core/repo_sqlite.c:293-333 | each tag of the file once, ordered by name |
| Repo.Repository.GetAttrs | src/core/repo_sqlite.c:674-715 | each attribute of the file once |
| Repo.Repository.UpdateFileName | src/core/repo_sqlite.c:864-880 | the look-up and the UPDATE of a rename, on the connection, succeed exactly when the file is known and the new name is free |
| Repo.RenameFile | src/core/repo_sqlite.c:850-935 | the rename returns exactly when the new repository knows the file and no other file there has the new name, since otherwise pointers are released that were not set; then, with its copying loops and the removal, it is the step of the specification on both repositories, or on the one that both directories belong to, and has the outcome of RenameSpec in both |
| Repo.CopyMetadata | src/core/repo_sqlite.c:895-926 | reading tags and attributes, copying them and removing the file, statement by statement, on two repositories or one |
| RenameSpec.RenameReturns | src/core/repo_sqlite.c:864-930 | a rename or a move returns if and only if the new repository knows the file under its old name and no other file there has the new one |
| RenameSpec.RenameConserves | src/core/repo_sqlite.c:850-890 | a rename within a directory returns exactly when the file is known and the name is free; it then moves all metadata and touches no other file |
| RenameSpec.MoveCarries | src/core/repo_sqlite.c:864-926 | a move between repositories does what it is meant to do exactly when the new repository finds the old base name and that is also the new one, or neither is in its table |
| RenameSpec.MoveUnderNewName | src/core/repo_sqlite.c:864-866 | moving a file to another repository under a new base name has no defined outcome |
| Search.TagQueryExact | src/core/repo_sqlite.c:1493-1514 | the tag query selects exactly the files with every tag when the tags are pairwise distinct, and nothing otherwise |
| Search.AttrQueryExact | src/core/repo_sqlite.c:1486-1487 | the attribute query with a complete clause selects exactly the files that satisfy every filter when the filter names are pairwise distinct, and nothing otherwise |
| Search.TagRowsAreTags | src/core/repo_sqlite.c:58-61 | by the unique index, a file contributes one row per query tag it has |
| Search.AttrRowsAreNames | src/core/repo_sqlite.c:62-65 | by the unique index, a file contributes one row per attribute name that matches |
| Search.RowForFilter | src/core/repo_sqlite.c:1462-1485 | with distinct names, the row for a filter's name is there exactly when the filter is satisfied |
| Search.SearchExact | src/core/repo_sqlite.c:509-525 | the query a search means, with a complete clause, selects exactly the files that carry every tag and satisfy every filter, or nothing when tags or filter names repeat |
| Queries.PreparedWritten | src/core/repo_sqlite.c:509-525 | a search statement that is read from a text has that text |
| Queries.WrittenPrepares | src/core/repo_sqlite.c:530-532 | the text of a search statement is read as that statement and no other |
| Queries.QueryMeans | src/core/repo_sqlite.c:534-566 | executed on the values that are bound by position, the statement of a search selects what the search means |
| Queries.AnswerExact | src/core/repo_sqlite.c:504-566 | the text that is generated and the values that are bound select what is meant as long as the clause fits; a clause cut between two conditions selects nothing, and one cut elsewhere is a syntax error |
| Queries.OutcomeExact | src/core/repo_sqlite.c:483-586 | the outcome of a search, for all filters and tags, in terms of files, tags and attributes |
| Queries.TooManyFilters | src/core/repo_sqlite.c:1449-1480 | filters of one kind fail from the 257th presence, the 129th equality or the 118th wildcard on |
| Queries.SearchFiles | src/core/repo_sqlite.c:483-586 | the search puts its statement together, prepares it, binds and steps: each file that is meant once while the clause fits, an error without criteria or with a statement that cannot be prepared |
| Search.Pattern | src/util/string.c:134-141 | the wildcard pattern is the value with every star replaced |
| Listing.Descend | src/core/repo_sqlite.c:1157-1227 | going down into a tag keeps exactly the files that have it; a directory offers a tag exactly when that leaves a file |
| Listing.DescendFromRoot | src/core/repo_sqlite.c:270-291 | below the root, a tag shows the files that have it |
| Listing.FilesWithTagsList | src/core/repo_sqlite.c:1157-1227 | the files of a virtual directory and their other tags, each once |
| Listing.ListFiles | src/core/repo_sqlite.c:270-291 | the root shows all tags, another directory its files and then their other tags; the indicator comes last |
| Listing.TagsLaw | src/core/repo_sqlite.c:1110-1155 | the query for the other tags |
| Strings.SplitAbsolute | src/util/string.c:50-64 | splitting a path gives back its components |
| SqlText.ArgList | src/core/repo_sqlite.c:999-1008 | a placeholder for each value, with commas between them |
| SqlText.GenerateTags | src/core/repo_sqlite.c:1493-1514 | the text of the tag condition |
| SqlText.GenerateAttrs | src/core/repo_sqlite.c:1447-1491 | the text of the attribute condition, cut at the buffer's limit |
| SqlText.SearchText | src/core/repo_sqlite.c:504-531 | the text that is prepared is the one that is meant exactly when the attribute clause is shorter than 4096 characters |
| SqlText.SearchBinds | src/core/repo_sqlite.c:539-566 | the loops bind, in order, the value that belongs at each place of the meant statement |
| SqlText.SearchAligned | src/core/repo_sqlite.c:504-566 | it has as many placeholders as values are bound |
| SqlText.FewFit | src/core/repo_sqlite.c:1449-1468 | up to 117 filters always fit |
| SqlText.FilesStatement | src/core/repo_sqlite.c:1171-1192 | text and values of the query for the files of a directory |
| SqlText.FilesAligned | src/core/repo_sqlite.c:1171-1192 | it has a placeholder for each tag and one for their number |
| SqlText.OthersStatement | src/core/repo_sqlite.c:1118-1142 | text and values of the query for their other tags |
| SqlText.OthersAligned | src/core/repo_sqlite.c:1118-1142 | it has as many placeholders as values |
| Events.StepAccounts | src/core/monitor_inotify.c:519-547 | each event that does not crash the run adds itself to what is delivered, waiting or lost, and nothing else |
| Events.TurnConserves | src/core/monitor_inotify.c:501-605 | in a turn that does not crash, every move event is delivered once, alone or in a pair, or dropped by a callback, and the buffer is empty afterwards |
| Events.TurnPairs | src/core/monitor_inotify.c:501-605 | in such a turn, under a cookie no callback touches, events are delivered in their order: k of them make k/2 pairs, and one alone when k is odd |
| Events.TurnMatches | src/core/monitor_inotify.c:525-537 | both halves of every pair carry the same cookie |
| EventPlan.TurnExact | src/core/monitor_inotify.c:408-605 | a turn delivers what the batch asks for, in that order, and with it every move exactly once, if and only if every directory is still watched when an event of it is delivered and no callback gives up a descriptor that is the number of a waiting cookie |
| EventPlan.QuietPairs | src/core/monitor_inotify.c:209-232 | the same condition delivery by delivery: no earlier callback has given up a directory of a delivery, and none gives up a waiting number |
| EventPlan.CalmBatch | src/core/ufad.c:370-392 | callbacks that only ask for watches never get in the way |
| EventPlan.DroppedHalf | src/core/monitor_inotify.c:227-227 | a waiting number is given up between two halves: the first is lost and the second comes alone |
| EventPlan.LostDirectory | src/core/monitor_inotify.c:474-483 | the directory of a later event is given up in the same batch: the path is built from a null pointer |
| Monitor.EventLoop.ReadEvents | src/core/monitor_inotify.c:501-548 | the loop over the event buffer, in place, with the look-up of every directory |
| Monitor.EventLoop.Process | src/core/monitor_inotify.c:383-460 | the directories are looked up, the callback is invoked, and what it does to tables and buffer is done |
| Monitor.EventLoop.HandleUnpaired | src/core/monitor_inotify.c:591-600 | the leftovers are delivered as moves out or in, unless an earlier one dropped them |
| Monitor.EventLoop.Turns | src/core/monitor_inotify.c:583-605 | a whole turn, in place: exactly-once delivery if and only if it is quiet, conservation and pairing counts otherwise, and an empty buffer |
| Watchers.AddKeeps | src/core/monitor_inotify.c:175-207 | adding keeps the tables inverse exactly when the descriptor is not in use for another path |
| Watchers.RemoveKeeps | src/core/monitor_inotify.c:209-232 | removing always does |
| Watchers.OnlyUnwatch | src/core/monitor_inotify.c:209-232 | requests to give up descriptors give up those that are watched, in any order |
| Monitor.EventLoop.AddWatcher | src/core/monitor_inotify.c:175-207 | a watched path keeps its descriptor; a new one enters all three tables; a failure enters none |
| Monitor.EventLoop.RemoveWatcher | src/core/monitor_inotify.c:209-232 | a descriptor leaves all tables and the event buffer, or none when the system refuses |
| Reload.Daemon.Start | src/core/ufad.c:200-250 | start-up watches the configuration directory and every configured one; its table meets the needs of a reload exactly when every watch succeeded, and the tables are inverse exactly when no two watched paths are one directory |
| Reload.Daemon.Compare | src/core/ufad.c:290-309 | the new table takes over the descriptors that stay, and the others are listed to be added; it fails on a directory without a descriptor |
| Reload.Daemon.Obsolete | src/core/ufad.c:313-323 | the directories that are not configured any more |
| Reload.Daemon.GiveUp | src/core/ufad.c:325-334 | only their watches are given up, each at most once; it fails on a directory without a descriptor |
| Reload.Daemon.Take | src/core/ufad.c:336-354 | the loop over the new ones, up to an assertion that fails |
| Reload.Daemon.ReloadConfig | src/core/ufad.c:274-362 | for every configuration, every table and all answers of the system, the reload ends as the specification says, at a failed assertion or with the new table and watches |
| Reload.WatchesMatch | src/core/ufad.c:274-362 | when every unwanted watch can be given up, the monitor watches the served directories and the configuration directory, before and after |
| Reload.ReloadAgain | src/core/ufad.c:274-362 | reloading an unchanged configuration changes nothing |
| Reload.FailsExactly | src/core/ufad.c:301-353 | a reload fails at an assertion if and only if a directory of the current table has no descriptor, or a new directory is configured twice and cannot be watched |
| Reload.TwinFails | src/core/ufad.c:341-345 | a configuration of one directory that cannot be watched, twice; once, it does not fail |
| Reload.AddAllKeeps | src/core/monitor_inotify.c:175-207 | watching a list of directories keeps the tables inverse exactly when no new one has the descriptor of another path |
| Reload.ReloadKeeps | src/core/ufad.c:274-362 | a reload that does not fail serves the configured directories that were served or can be watched; those that stay keep their descriptors; the tables stay inverse exactly when no new directory has the descriptor of another path, and then callbacks stay |
| Path.ResolvePath | src/util/misc.c:244-307 | the loop writes outside the buffer exactly when a component ends at its end; otherwise it leaves the text of the walk, and the scan back for a slash stays in the buffer |
| Path.CutLast | src/util/misc.c:281-284 | the scan backwards ends at the last slash |
| Path.CountChars | src/util/misc.c:289-297 | the measuring loop ends at the end of the component or reports that it does not fit |
| Path.FullBuffer | src/util/misc.c:289-304 | a name below the root is resolved inside the buffer exactly when its path has not 4096 characters |
| Path.FullName | src/util/misc.c:246-303 | there is such a name |
| Path.WalkResolves | src/util/misc.c:260-304 | walking over the text is following the components with a stack |
| Path.AbsolutePath | src/util/misc.c:244-307 | an absolute path below 4096 characters is resolved to the normal path its components lead to |
| Path.RelativePath | src/util/misc.c:255-258 | a relative path is resolved from a working directory that is normal and not the root |
| Path.RelativeInRoot | src/util/misc.c:255-258 | in the root directory it is resolved as meant exactly when it goes above the root somewhere; otherwise one slash too many stays in front |
| Path.ResolveProper | src/util/misc.c:260-304 | no result has an empty, "." or ".." component |
| Path.ResolvedAgain | src/util/misc.c:244-307 | a normal path that is not empty is a fixed point |

## Left out

- JsonRpcParser.Parse: numbers with a decimal point and everything C leaves undefined (a token index past the last token, a string of 1024 bytes or more, a primitive of 255 or more, a long out of range, a repeated key with a value of another type) give the outcome `Unspecified`.
- UnknownMembers.UnknownExact: unknown members hold scalars, arrays of scalars, or objects of such members, no name is reached twice, and only the last member may overshoot.
- ReaderLimits.ObjectMemberExact: the object ends the message.
- Connection.HandleConnection: replies and the dispatch on the method name are not part of it; nothing is promised after a write outside the array, a request without a method, or a text whose reading is `Unspecified`, which includes one with a decimal fraction that the code would process.
- Connection.OneRequestPerChunk: chunks hold whole requests; for a chunk that ends one request and begins another `Connection.StraddlingChunk` says what is lost, but not what the rest of that request is read as.
- ClientReplies.ArrivesExactly: the read returns the whole response, or as much of it as the buffer takes; a transport that delivers it in pieces is not modelled.
- ClientErrors.ErrorReported: of the conversions of a format only %d, %i and %% are given a text; the others, and one without an argument, count as undefined. The log line, which uses the result as a format again, is not part of it.
- WireLists.SearchExact: at most the tokens that fit the array of 4096; match modes are the two the code defines.
- WireReplies.ListReplyExact: like the other replies, for an id that is a wire string, as every id from a parsed request is one.
- WireLists.FiltersArrive: that a null pointer prints as "(null)" is the behaviour of the GNU C library.
- HashTable.HashTable.PutFull: equal keys are keys with equal contents and the hash is any function of the contents; sizes and counts do not overflow, the load factor is a real number, and released nodes are not tracked.
- HashLaws.PutLedger: a pointer that is put while it is already in the table counts as handed over twice.
- Repo.Repository.SetAttr: values are not null; failures of the database itself, and the order in which it returns rows without an ORDER BY, are not modelled.
- Repo.RenameFile: nothing is promised about a refused rename, because the code releases pointers that it has not set.
- Queries.AnswerExact: of the statements SQLite accepts only those a search can generate are read; limits of SQLite itself are not modelled, LIKE is any relation between a value and a pattern, and a number compared with a text column matches nothing.
- Queries.SearchFiles: a match mode that the code does not define gives the outcome `NoOperator`, where the code reads behind its table of operators.
- Listing.ListFiles: an error of the database that leaves half a list is not modelled.
- Monitor.EventLoop.Turns: an event carries its directory's descriptor, not the path built from it; the mask bits are Booleans; that one of the two watchers of a move is chosen for the callback is not modelled; an event that is used after its entry was released counts as a crash; threads are left out.
- Reload.Daemon.ReloadConfig: the answer to a watch depends on the path alone within one reload; a configuration that cannot be read, after which nothing happens, is not part of it.
- Path.ResolvePath: after a write outside the buffer nothing is promised; the working directory is shorter than the buffer.
- DList.Insert: positions are not bounded by 32 bits; get_first, foreach and find_by_data of `src/util/list.c` would add only easy members.
- Sockets, select and eventfd, signals, daemonizing and logging: plumbing.
- `src/core/config.c` and `src/core/data.c`: reading the configuration and choosing a repository; the list of directories is a parameter.
- The command-line tools, the FUSE file system and the Nautilus extension: user interface.
- `ufa_str_to_double`: decimal fractions.
- The strict variant, the variant with parent links and the counting mode of the tokenizer: the build does not use them.
