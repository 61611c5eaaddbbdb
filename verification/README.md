# A verified model of bmcweb's core

bmcweb is the web server of a baseboard management controller. This project models the parts of it that carry the most
state and branching, and proves what they are for. Every file is Dafny; `dafny verify dfyconfig.toml` checks the
whole.

* **Routing** (`Patterns`, `Captures`, `TrieModel`, `TrieOptimize`, `TrieNormal`, `TrieLayers`, `TrieLoops`,
  `TrieBuild`, `Trie`, `Tags`, `Router`, `Access`). Rules such as `/redfish/<str>/x/` are scanned into tokens and
  stored, per HTTP verb, in a trie whose chains of plain nodes are then merged into longer fragments. The trie is a
  class that is updated in place. The main results: building stores exactly the rules that were added; merging
  preserves every search (the rule found and every captured value), reaches a form with nothing left to merge, gives
  fragments of one length at each node and does nothing when repeated; the backtracking search finds exactly the best
  stored rule; the base-6 parameter tag decodes to the rule's placeholder types exactly when it fits 64 bits; and so
  the whole router, from registration over compression to dispatch, answers every request as a linear scan over the
  registered rules would, with the captured values as the handler's arguments, and lets a user in exactly where the
  rule asks for no privileges or they hold every one of one of its sets.
* **D-Bus to JSON** (`DBusSignature`, `DBusDecode`). Splitting a signature undoes concatenation; the mutually
  recursive readers succeed exactly when the signature describes the next values of the message and no append throws,
  read just those, and give their JSON, which is the tree of the value wherever no dictionary repeats a key, with
  every basic type's own value at its leaves.
* **User roles** (`UserRoles`). Under any stream of signals, with the start-up reply at any point of it, the role
  cache agrees with the user manager, and is its whole table from the reply on.
* **Byte relays** (`Relays`). The out-buffers of the web socket, of the NBD proxy and of the KVM session: over every
  interleaving, what has left the buffer and what is in it make up what was submitted, in order and each once. As long
  as no write fails, all that left was delivered and a write is under way while there is something to write; what
  happens after a failure is stated exactly.
* **Timers and connections** (`Timers`, `Connections`). Many connections share one queue of deadlines and free
  themselves: over every run in which at most 100 deadlines are queued at a time, no connection is freed twice or with
  an operation pending, and no deadline runs for one that is gone or that has handed its request to a handler. The
  limit is sharp: with the 101st deadline the queue drops its oldest one and keys name the wrong timers, and a
  deadline can run for a freed connection.
* **Middlewares** (`Middleware`), **sessions** (`Sessions`), **query strings** (`QueryString`, `QueryLookup`,
  `QueryWriting`), **base64** (`Base64`), **network masks** (`Netmask`) and **static IPv6 addresses**
  (`StaticAddresses`).

Objects whose methods update their fields are classes here, in-place buffers are arrays, and loops are loops; each
such method is proved against a function of its old state, and the theorems are about those functions. Clocks,
`strtod`, the numbers and tokens a random source delivers, D-Bus messages and the outcome of each asynchronous
operation are parameters, so that a theorem holds whatever they are.

Where the code does not have a property one would expect, the code is kept and the exact condition is proved:

* the parameter tag is a 64-bit number, and a handler gets the captured values as its arguments if and only if the tag
  did not wrap (`Tags.TagDecodes`, `Tags.HandlerGetsCaptures`). 24 placeholders always fit. A rule of six integers and
  nineteen strings does not: its tag wraps to one of 24 arguments, and a URL that it matches shows that its handler
  gets other values (`Tags.TagWraps`, `Tags.WrappedRuleMisdelivers`);
* `isParameterTagCompatible` compares numbers of parameters, not types (`Tags.CompatibleIsArity`; it takes `<int>` for
  `<str>`: `Tags.CompatibleMissesTypes`);
* the object made of a dictionary has one member per entry, with its own value, if and only if the keys are distinct
  (`Decoder.DictKeepsEntries`). Reading throws if and only if a struct follows a scalar or an object under one key of
  some dictionary in the value, or is itself read onto a value that takes no elements (`Decoder.IntoThrows`); structs
  under one key are appended to each other (`Decoder.RepeatedKeyAppends`);
* what left a relay's buffer was delivered if and only if no write of a message failed (`Relays.RunDelivers`; a failed
  one is lost: `Relays.FailedMessageIsLost`). With a peer and something to write, no write is under way if and only if
  the last completion failed and nothing has been submitted since (`Relays.RunIdles`; a failed stream stops:
  `Relays.FailedStreamStops`);
* on a kept-alive connection every request is completed by its own handler, or before one is called, if no handler
  ends its response twice (`Middlewares.OwnHandlersAnswer`); an end reaches the next request if and only if its
  handler has ended before and the response has been cleared since (`Middlewares.StraysExactly`,
  `Middlewares.SecondEndStrays`);
* a connection that was upgraded, or whose response was completed on a closed socket, is never freed
  (`Connections.LeavesBy`, `Connections.LeftForEver`);
* a request that is handed over to a web socket runs no after-calls, so the single-request session it made stays,
  unless it made none (`Middlewares.UpgradeSessions`, `Middlewares.UpgradeLeavesSession`);
* removing a user keeps the role cache complete if and only if no other live object has the same last path segment
  (`UserRoles.RemovalExact`);
* a deadline's key is fresh if and only if the queue is not full (`Timers.AddKeyIsFresh`,
  `Timers.FullQueueReusesKey`); from any sound state with a full queue, one more start and the end of the second
  queued connection make a tick run a freed connection's deadline (`Connections.FullQueueFiresFreed`), and 101
  connections get there (`Connections.DeadlineOutlivesConnection`);
* the first cancellation of a new connection hits another one's deadline if and only if nothing has been popped yet
  and the oldest deadline is still armed (`Connections.DefaultKeyHits`); two connections are enough
  (`Connections.SecondTakesDeadline`);
* the KVM session compares a message with the buffer's capacity, not with the space left (`Relays.KvmOut.OnMessage`; a
  full buffer and one byte more: `Relays.KvmOverflows`);
* a query string's pairs are counted right if and only if it has at most 256 `&` (`QueryStrings.CountIsExact`), but
  the pairs counted all have a place in the table if and only if it has at most 255 (`QueryStrings.ReportFitsTable`;
  with 256 the count is 257: `QueryStrings.ReportOutsideTable`), and exactly then the decoding loop stays inside the
  table (`QueryStrings.QsParse`);
* an escape in a value is decoded as the key comparison reads it if and only if its first digit is zero
  (`QueryStrings.EscapesAgree`; not so `%41`: `QueryStrings.EscapesDiffer`). So a key is read back however it was
  written (`QueryWriting.KeyReadsBack`), but a value if and only if none of its characters from 16 on was written as
  an escape (`QueryWriting.ValueReadsBack`);
* a plain rule that ends in a slash accepts the URL without it if and only if the rule has more than two characters
  (`Access.SlashIsOptional`);
* a patch of static addresses is applied as far as the first element that cannot be handled, and no further
  (`StaticAddresses.SucceedsExactly`, `StaticAddresses.PatchIsMerge`);
* an accepted base64 text is the encoding of its bytes if and only if it is made of whole groups that are padded at
  the very end at most (`Base64.AcceptedIsEncoding`; "AA=" is accepted and not one: `Base64.UnshapedIsAccepted`).

## Model

| member | source | states |
|---|---|---|
| Patterns.TokenStep | http/routing.h:896-948 | a rule text made of one more token scans to that token followed by the rest |
| Patterns.DropSlash | http/routing.h:1061-1072 | dropping the final `/` of a rule drops exactly its last token, a literal slash |
| Patterns.SpellingsRead | http/routing.h:904-920 | each of the seven spellings, wherever it stands, is read as a placeholder of its kind, to its end |
| Captures.ScanIntReads | http/routing.h:773-795 | a signed capture reads exactly the longest numeral at the position, for its value, if that fits 64 bits |
| Captures.ScanUintReads | http/routing.h:797-819 | the same for unsigned numbers, which have no minus sign |
| Captures.CaptureDoubleReads | http/routing.h:817-837 | a double capture is what `strtod` reads without a range error, if and only if the first character can begin a number |
| Captures.CaptureStrReads | http/routing.h:839-860 | a string capture is exactly the non-empty text up to the next slash or the end |
| Captures.CapturePathReads | http/routing.h:862-878 | a path capture is exactly the rest of the URL |
| Captures.MatchLits | http/routing.h:875-891 | a run of literal tokens matches exactly where its text stands |
| Captures.SlashExclusive | http/routing.h:1061-1072 | no URL is matched both by a rule and by the rule with a slash added, whatever the placeholders |
| TrieModel.FindSound | http/routing.h:746-894 | what the search returns is stored for a token sequence that matches the URL, with exactly that sequence's captures |
| TrieModel.FindComplete | http/routing.h:746-894 | no matching stored sequence has a smaller index than the result |
| TrieOptimize.MergeWf | http/routing.h:653-697 | a merge keeps fragments non-empty and prefix-free and children above their parent |
| TrieOptimize.MergeFragAt | http/routing.h:672-686 | a merged node leaves by the concatenation of the two fragments that were followed before |
| TrieOptimize.MergeFind | http/routing.h:653-697 | a merge preserves every search, from every node and position: index and captures |
| TrieOptimize.MergeLookup | http/routing.h:653-697 | a merge preserves what is stored for every token sequence below every node |
| TrieNormal.EvolvedMerge | http/routing.h:664-688 | one merge of a mergeable node is a step that keeps meaning and normal nodes |
| TrieNormal.NormalStays | http/routing.h:653-697 | a part with nothing left to merge stays so while other parts are merged |
| TrieLayers.MergeClean | http/routing.h:653-697 | the depth-first order keeps the layers below a node untouched until they are reached |
| TrieLayers.MergeUniform | http/routing.h:672-686 | merging an untouched layer leaves fragments of one length at every node |
| TrieBuild.WalkInjective | http/routing.h:896-948 | two token sequences never lead to the same node |
| TrieBuild.GrownBuilt | http/routing.h:923-924 | adding a node for a missing edge keeps the trie well built |
| TrieBuild.GrownLookup | http/routing.h:939-940 | growing changes nothing that is stored |
| TrieBuild.HeadIsSimple | http/routing.h:633-650 | the head of a built trie is plain if and only if no stored sequence is empty or begins with a placeholder |
| TrieBuild.StoreLookup | http/routing.h:896-948 | storing an index changes what is stored for that token sequence and for no other |
| Tries.FindIsBest | http/routing.h:746-894 | the search is the best match in the table of stored rules |
| Tries.ParamBuffer.Push | http/common.h:52-57 | pushes a capture on the vector of its type |
| Tries.ParamBuffer.Pop | http/routing.h:790-792 | gives back the buffer as it was before the push |
| Tries.Trie.Child | http/routing.h:896-948 | the edge for a token is followed, or made when missing |
| Tries.Trie.MatchTrait | http/routing.h:904-930 | the loop over the placeholder spellings finds the token's kind and length |
| Tries.Trie.Add | http/routing.h:896-948 | exactly one table entry is added, unless the sequence is taken, and then nothing changes |
| Tries.Trie.Merged | http/routing.h:672-686 | the merged children are exactly the two-step fragments with their targets |
| Tries.Trie.OptimizeNode | http/routing.h:653-697 | the recursion terminates and leaves everything below the node merged, with the meaning unchanged |
| Tries.Trie.OptimizeEach | http/routing.h:655-661 | the same for a list of children |
| Tries.Trie.Validate | http/routing.h:699-712 | accepts exactly tries with a plain head; the result means the same, has nothing left to merge, has fragments of one length per node, and a second compression changes nothing |
| Tries.Trie.FindAt | http/routing.h:746-894 | the search from any node, with the shared capture buffer restored |
| Tries.Trie.Descend | http/routing.h:780-793 | one placeholder branch: push, search, keep the better result, pop |
| Tries.Trie.TryFragments | http/routing.h:880-891 | the literal loop gives the same result in any order of the children |
| Tries.Trie.Find | http/routing.h:746-894 | the result is the best match over the stored rules |
| Tags.TagIsEncoding | http/utility.h:231-306 | the tag scanner accepts exactly the scannable rules, and its tag is the base-6 number of the placeholder kinds modulo 2^64 |
| Tags.ArgumentsOfEncoding | http/utility.h:326-366 | decoding an unwrapped tag gives the placeholder types in order |
| Tags.TagFits | http/utility.h:231-272 | 24 placeholders never wrap |
| Tags.WrappedTagDiffers | http/utility.h:326-366 | a wrapped tag never decodes to the right types |
| Tags.TagDecodes | http/utility.h:326-366 | the types are right if and only if the tag fits 64 bits |
| Tags.TagWraps | http/utility.h:231-272 | the tag of six integers and nineteen strings wraps, and decodes to another argument list |
| Tags.WrappedRuleMisdelivers | http/routing.h:614-625 | a rule text of these placeholders and a URL that it matches: the rule has an argument list, and its handler does not get the captured values |
| Tags.CompatibleIsArity | http/utility.h:198-223 | the compatibility test says exactly that the numbers of digits agree |
| Tags.CompatibleMissesTypes | http/utility.h:198-223 | the tags of an integer and of a string placeholder pass as compatible |
| Tags.CallRestores | http/routing.h:122-195 | splitting captures into four vectors and taking them out by type gives them back in order |
| Tags.MatchTypes | http/routing.h:773-870 | captured values have the types of their placeholders |
| Tags.CallTypes | http/routing.h:122-195 | a call gives values of the types it is made with |
| Tags.HandsOverExactly | http/routing.h:122-195 | values of the placeholders' types come back as the arguments if and only if the tag fits 64 bits |
| Tags.HandlerGetsCaptures | http/routing.h:614-625 | a matching rule hands its handler the captures in order if and only if the tag fits 64 bits; 24 placeholders always do |
| Routers.BestIsFirst | http/routing.h:1180-1195 | the best match in a verb's table is its first registered rule that accepts the URL |
| Routers.FilterFirst | http/routing.h:1047-1073 | filtering by verb and taking the first match is taking the first match for the verb |
| Routers.SharedInTable | http/routing.h:1047-1073 | adding a rule meets an existing handler exactly when an earlier rule of the verb shares a token sequence with it |
| Routers.VerbResult | http/routing.h:1184-1190 | a verb's search result indexes the first matching rule and carries its captures |
| Routers.NextMethodBit | http/routing.h:1054-1073 | the shifted verb bit is the next verb's bit, and 0 for the verb past the word |
| Routers.PerMethod.AddRule | http/routing.h:1056-1071 | a verb's table takes the rule and its slash-less twin, and refuses exactly shared sequences |
| Routers.PerMethod.Search | http/routing.h:1184-1190 | a verb's search answers as the first matching registered rule |
| Routers.Router.InternalAddRuleObject | http/routing.h:1047-1073 | every verb of the rule serves it afterwards; fails exactly on a clash |
| Routers.Router.Register | http/routing.h:1075-1087 | registering all rules succeeds if and only if no two clash |
| Routers.PerMethod.Compress | http/routing.h:699-712 | compressing one verb keeps what it serves; succeeds if and only if no rule of the verb is empty or begins with a placeholder |
| Routers.PlainTable | http/routing.h:1047-1073 | the stored sequences begin plainly exactly when the rules' texts do |
| Routers.Router.Compress | http/routing.h:1088-1092 | compressing all verbs keeps what they serve; succeeds if and only if no rule that answers a verb is empty or begins with a placeholder |
| Routers.Router.Handle | http/routing.h:1180-1295 | the decision (no response, not found, not allowed, forbidden or dispatch; never the redirect, the corrupted table or the method mismatch) is that of a linear scan over the registered rules |
| Routers.DispatchArguments | http/routing.h:1180-1295 | a dispatched handler's arguments are the values its rule captured, if and only if the rule's tag fits 64 bits |
| Access.GrantedExactly | redfish-core/include/privileges.hpp:171-174 | a set of privileges is granted if and only if every privilege in it is held |
| Access.RolesHold | redfish-core/include/privileges.hpp:181-203 | which of the five privileges an administrator, an operator, any other role and no session hold |
| Access.RolesHoldNoMore | redfish-core/include/privileges.hpp:181-203 | nobody holds anything beyond the five |
| Access.AnswersItsVerbs | http/routing.h:406-420 | a rule answers exactly the verbs it was declared for |
| Access.AllowedExactly | http/routing.h:71-88 | a rule without privilege sets admits everyone; another one refuses exactly who lacks a privilege of each set |
| Access.DecideExactly | http/routing.h:1180-1295 | every answer of the router, and exactly when it is given, over the rules, verbs and privileges alone |
| Access.SlashIsOptional | http/routing.h:1061-1072 | a plain rule ending in a slash accepts its own text, and the text without the slash if and only if it has more than two characters |
| Signatures.DbusArgSplit | include/openbmc_dbus_rest.hpp:460-506 | the loop computes the split of the signature |
| Signatures.SplitPartitions | include/openbmc_dbus_rest.hpp:460-506 | for every string, the pieces join to it and none is empty |
| Signatures.TakeType | include/openbmc_dbus_rest.hpp:460-506 | a complete type at the top level is one piece, with its array codes |
| Signatures.SplitConcat | include/openbmc_dbus_rest.hpp:460-506 | splitting concatenated complete types gives the types |
| Decoder.ConvertDBusToJSON | include/openbmc_dbus_rest.hpp:1104-1258 | onto any response: succeeds if and only if the signature describes the next values and no append throws; reads just those; gives what they leave there |
| Decoder.ReadType | include/openbmc_dbus_rest.hpp:1117-1252 | the same for one complete type |
| Decoder.ReadVariant | include/openbmc_dbus_rest.hpp:1069-1102 | the same for a variant |
| Decoder.ReadStruct | include/openbmc_dbus_rest.hpp:1028-1067 | the same for a struct |
| Decoder.ReadArray | include/openbmc_dbus_rest.hpp:948-1026 | the same for an array or a dictionary |
| Decoder.ReadDictEntry | include/openbmc_dbus_rest.hpp:889-946 | reads the entry's value onto what the object holds under its key, and changes no other member |
| Decoder.DescribesIsSignature | include/openbmc_dbus_rest.hpp:1104-1258 | describing the next values is being the concatenation of their types |
| Decoder.IntoThrows | include/openbmc_dbus_rest.hpp:889-1258 | reading a value throws if and only if a struct in it follows a scalar or an object under one key, or it is a struct itself and the target takes no elements |
| Decoder.ReadsExactly | include/openbmc_dbus_rest.hpp:1104-1258 | a signature is read onto a response if and only if it describes the next values, none of them throws, and the response takes elements where some are appended |
| Decoder.ScalarsRead | include/openbmc_dbus_rest.hpp:1117-1225 | for every basic type and any target: a boolean is true if and only if its number is not zero, an integer keeps its number, a text its characters, a double its bits |
| Decoder.KeysRead | include/openbmc_dbus_rest.hpp:913-926 | a dictionary key is its own text, or its JSON text when it is no text |
| Decoder.IntoIsTree | include/openbmc_dbus_rest.hpp:889-1258 | where no dictionary repeats a key, nothing throws and the result is the value's JSON tree |
| Decoder.DictKeepsEntries | include/openbmc_dbus_rest.hpp:997-1005 | the object is made if and only if nothing in it throws; it has one member per entry if and only if the keys are distinct, and then each entry's own value under its own key |
| Decoder.RepeatedKeyAppends | include/openbmc_dbus_rest.hpp:932-940 | a repeated key appends one struct to the other, and throws on a text |
| Decoder.ArrayKeepsItems | include/openbmc_dbus_rest.hpp:1006-1016 | elements keep their places |
| UserRoles.NameIsLastSegment | include/sessions.hpp:98-121 | the user name is what follows the last slash of the path |
| UserRoles.RoleIsDeclared | include/sessions.hpp:71-95 | the role extracted is the one the object declares |
| UserRoles.UserRoleMap.UserAdded | include/sessions.hpp:98-133 | a new user's role is cached, an existing one kept |
| UserRoles.UserRoleMap.UserRemoved | include/sessions.hpp:135-168 | the user's entry goes, nothing else changes |
| UserRoles.UserRoleMap.UserPropertiesChanged | include/sessions.hpp:170-217 | a changed privilege updates a cached user's role |
| UserRoles.UserRoleMap.ManagedObjects | include/sessions.hpp:240-269 | the reply's loop adds the users that are missing |
| UserRoles.RunAgrees | include/sessions.hpp:98-269 | the agreement invariant holds over every run of signals and replies |
| UserRoles.CacheFollowsManager | include/sessions.hpp:98-269 | every cached entry is the manager's, and the cache is its whole table from the first reply on |
| UserRoles.RemovalExact | include/sessions.hpp:135-168 | a removal keeps the cache complete if and only if no other object shares the last segment |
| UserRoles.SharedNameLosesEntry | include/sessions.hpp:135-168 | two objects of one name: removing one loses the other's entry |
| Relays.RunConserves | http/websocket.h:116-239 | over every run, what left the buffer followed by what is in it is what was submitted; one write at a time; none missing while no write failed |
| Relays.RunDelivers | http/websocket.h:217-238 | over every run, what left the buffer was delivered if and only if no write of a message failed |
| Relays.RunIdles | include/nbd_proxy.hpp:180-217 | over every run, with a peer and something to write, no write is under way if and only if the last completion failed and nothing was submitted since |
| Relays.StepOffers | http/websocket.h:204-239 | a write that a step starts is of one message, or of everything in the buffer |
| Relays.FailedMessageIsLost | http/websocket.h:217-238 | a message whose write fails leaves the buffer undelivered |
| Relays.FailedStreamStops | include/nbd_proxy.hpp:180-217 | after a failed write the data stay, with a peer and no write |
| Relays.ProgressDrains | http/websocket.h:204-239 | completions that make progress empty the buffer |
| Relays.WebSocketOut.SendMessage | http/websocket.h:116-142 | is the relay's send step |
| Relays.WebSocketOut.OnWritten | http/websocket.h:204-239 | is the relay's completion step for one message |
| Relays.NbdOut.OnAccept | include/nbd_proxy.hpp:72-98 | is the relay's connect step, with the bytes received before |
| Relays.NbdOut.SendData | include/nbd_proxy.hpp:115-121 | is the relay's send step |
| Relays.NbdOut.OnWritten | include/nbd_proxy.hpp:180-217 | is the relay's completion step |
| Relays.KvmOut.OnMessage | include/kvm_websocket.hpp:43-65 | the send step for a message that fits; closes or overflows exactly as stated |
| Relays.KvmOut.OnWritten | include/kvm_websocket.hpp:103-145 | is the relay's completion step, also for a partial write |
| Relays.KvmOverflows | include/kvm_websocket.hpp:43-65 | 1024 bytes and then one more, before the write completes: accepted, then overflow |
| Timers.TimerQueue.CancelTimer | http/timer_queue.h:23-30 | clears the keyed entry's callback if it is queued |
| Timers.TimerQueue.AddTimer | http/timer_queue.h:32-40 | appends the timer, overwriting the oldest of a full queue, and gives its key |
| Timers.TimerQueue.ProcessTimers | http/timer_queue.h:42-62 | pops and runs exactly the due timers at the front |
| Timers.KeyNamesItsEntry | http/timer_queue.h:23-30 | a key finds its own entry while that is queued, and no entry afterwards |
| Timers.AddKeyIsFresh | http/timer_queue.h:32-40 | the key is new if and only if the queue has room |
| Timers.FullQueueReusesKey | http/timer_queue.h:32-40 | a full queue hands out the previous timer's key, which now names the new one |
| Timers.RunIsSound | http/timer_queue.h:14-62 | over every run, timers fire at most once, in order and not early, and of those popped exactly the ones that were not cancelled while queued |
| Timers.CancelledStays | http/timer_queue.h:42-62 | a cancelled timer is popped without firing |
| Timers.FiredStays | http/timer_queue.h:42-62 | a popped timer never fires later |
| Connections.Connection.Start | http/http_connection.h:435-460 | arms the deadline under its key and starts the handshake or the read |
| Connections.Connection.HeaderRead | http/http_connection.h:633-683 | the header step, with its cancellations and its end |
| Connections.Connection.BodyRead | http/http_connection.h:685-723 | the body step |
| Connections.Connection.Completed | http/http_connection.h:569-631 | the completion step |
| Connections.Connection.Written | http/http_connection.h:725-765 | the write step: free, close, or read the next request |
| Connections.EffectKeepsConn | http/http_connection.h:633-783 | every step keeps flags and pending operations in step and frees only an idle connection, after cancelling its deadline |
| Connections.NextPhase | http/http_connection.h:435-783 | what every event leads to, over its arguments and the open or closed socket alone |
| Connections.FreedExactly | http/http_connection.h:633-765 | an event frees its connection if and only if it failed, asked for the close, or ended a read on a closed socket |
| Connections.UndisturbedStays | http/http_connection.h:633-798 | over every run, a connection without such an event is not freed |
| Connections.DeadlinesAreForReceiving | http/http_connection.h:767-798 | in every sound state an armed deadline belongs to a connection in its handshake or reading, under that connection's key |
| Connections.FiredAreLive | http/http_connection.h:785-798 | every deadline that runs belongs to a connection that is not freed |
| Connections.OnKeepsInv | http/http_connection.h:633-798 | any event of any connection keeps the system invariant |
| Connections.TickKeepsInv | http/http_server.h:109-139 | so does a tick of the shared queue |
| Connections.RunsAreSafe | http/http_connection.h:419-798 | over every interleaving: no double free, no free with an operation pending, no deadline for a freed connection |
| Connections.LeavesBy | http/http_connection.h:506-514 | a connection becomes upgraded only by an upgrade, and abandoned only by a response completed on a closed socket |
| Connections.LeftForEver | http/http_connection.h:589-596 | over every run such a connection stays as it is and is never freed |
| Connections.FullQueueFiresFreed | http/http_connection.h:767-798 | from any sound state with a full queue: one more start, then the second entry's connection freed, and a tick runs its deadline |
| Connections.DeadlineOutlivesConnection | http/http_connection.h:767-798 | such a state is reached by a run of 101 connections, and there it happens |
| Connections.CrowdArrives | http/http_connection.h:435-460 | the state after up to 100 arrivals, reached by a run, with every key and deadline |
| Connections.SecondTakesDeadline | http/http_connection.h:778-798 | the run of two starts after which the first connection's deadline is gone |
| Connections.DefaultKeyHits | http/http_connection.h:778-798 | the first cancellation of a new connection hits another deadline exactly as stated |
| Middlewares.ChainExpected | http/http_connection.h:167-237 | the helpers' calls are the expected sequence of a request |
| Middlewares.Exchange.MiddlewareCallHelper | http/http_connection.h:167-202 | calls run in order up to the one that ends, and the after-calls of those run in reverse |
| Middlewares.Exchange.AfterHandlersCallHelper | http/http_connection.h:204-237 | all after-calls run in reverse order |
| Middlewares.Exchange.CompleteRequest | http/http_connection.h:569-631 | the after-calls still due run once, and the response is written once if the socket is open |
| Middlewares.Exchange.End | http/http_response.h:122-136 | the first end completes the request, later ones do nothing |
| Middlewares.Exchange.Handle | http/http_connection.h:462-532 | a request runs exactly the expected calls, waits for its handler, or is handed over to a web socket |
| Middlewares.Exchange.EndLater | http/http_response.h:122-136 | ending later completes the same sequence, once, and leaves no session, if and only if the request was not handed over with one |
| Middlewares.KeptAlive.Arrived | http/http_connection.h:462-532 | the next request on the same response object: its handler is called unless the response is completed by then |
| Middlewares.KeptAlive.End | http/http_response.h:122-136 | an end, by whichever handler |
| Middlewares.KeptAlive.OnWritten | http/http_response.h:109-115 | clearing the response after the write |
| Middlewares.StraysExactly | http/http_response.h:109-136 | an end reaches past its own request if and only if its handler has ended before and the response was cleared since |
| Middlewares.OwnHandlersAnswer | http/http_response.h:109-136 | over every run in which no handler ends twice, requests are completed by their own handlers or before one was called |
| Middlewares.AnswersExactly | http/http_connection.h:462-532 | over every such run, exactly the requests with a valid host that no middleware ended go to their handlers, and each answer is the one its own arrival calls for |
| Middlewares.SecondEndStrays | http/http_response.h:109-136 | two runs in which a second end completes the next request |
| Middlewares.UpgradeSessions | http/http_connection.h:506-514 | a request that is handed over leaves the sessions as they were if and only if it made none |
| Middlewares.UpgradeLeavesSession | http/http_connection.h:506-514 | one middleware, one session, one upgrade: the session stays |
| Middlewares.NoSessionOutlivesRequest | include/token_authorization_middleware.hpp:97-111 | no single-request session is left after its request, whichever middleware ended it |
| Sessions.SessionStore.ApplySessionTimeouts | include/sessions.hpp:535-556 | at most once a minute, removes exactly the sessions idle for 60 minutes |
| Sessions.SessionStore.GenerateUserSession | include/sessions.hpp:395-438 | adds the session unless its token exists, and returns the stored one |
| Sessions.SessionStore.LoginSessionByToken | include/sessions.hpp:440-455 | sweeps, then finds and touches the session of a 20-character token |
| Sessions.SessionStore.GetSessionByUid | include/sessions.hpp:457-471 | sweeps, then finds a session of that identifier if and only if there is one |
| Sessions.SessionStore.RemoveSession | include/sessions.hpp:473-477 | removes that token alone |
| Sessions.RunKeepsInv | include/sessions.hpp:395-556 | over every run with a clock that does not go back, keys are their sessions' tokens and nothing expired survives a sweep |
| Sessions.LookupsAreFresh | include/sessions.hpp:440-471 | no lookup sees a session idle for 61 minutes or more |
| Sessions.ReusedSessionSurvives | include/sessions.hpp:440-455 | a session reused at gaps under 60 minutes is never expired and stays the same session |
| QueryStrings.EscapesAgree | http/query_string.h:202-211 | value and key decoding of an escape agree if and only if its first digit is 0 |
| QueryStrings.EscapesDiffer | http/query_string.h:202-211 | `%41` is `A` in a key and the character 1 in a value |
| QueryStrings.QsDecode | http/query_string.h:191-222 | in-place decoding writes the decoded value and a terminator, never ahead of its read position |
| QueryStrings.DecodeIsLocal | http/query_string.h:191-222 | decoding depends on nothing behind a terminator |
| QueryStrings.InPlaceIsLocal | http/query_string.h:191-222 | in-place decoding changes nothing behind a terminator |
| QueryStrings.FillTable | http/query_string.h:133-167 | the table holds the segment starts in order |
| QueryStrings.CountIsExact | http/query_string.h:155-167 | the count is the number of segments if and only if there are no more `&` than places |
| QueryStrings.ReportFitsTable | http/query_string.h:155-167 | every counted pair has a place if and only if there are fewer `&` than places |
| QueryStrings.ReportOutsideTable | http/query_string.h:155-183 | 256 `&` give 257 pairs for 256 places |
| QueryStrings.DecodeSegment | http/query_string.h:171-183 | one segment is decoded as a function of its own text, the rest of the buffer is unchanged |
| QueryStrings.QsParse | http/query_string.h:133-189 | for every buffer: each segment in the table becomes what its own text gives, everything else is unchanged; the second loop leaves the table if and only if the count exceeds it |
| QueryLookups.QsStrncmp | http/query_string.h:55-129 | the comparison loop |
| QueryLookups.CompareIsEquality | http/query_string.h:55-129 | for a plain name, the comparison is 0 if and only if the entry's key, escapes read, is the name |
| QueryLookups.CompareExactly | http/query_string.h:55-129 | for any name: 0 if and only if the key reads as the name does, as a whole where the name has no escape and otherwise up to the first NUL or broken escape |
| QueryLookups.QsK2v | http/query_string.h:224-259 | the n-th match in order, or none |
| QueryLookups.Collect | http/query_string.h:398-416 | restarted searches collect all matches in order |
| QueryLookups.EntryOfSegment | http/query_string.h:133-189 | an entry's text, value and key depend on its own segment alone |
| QueryLookups.FoundIsFilter | http/query_string.h:224-259 | the matches for a plain name are the in-order filter of the URL's pairs |
| QueryLookups.QueryString.constructor | http/query_string.h:356-369 | a URL is parsed, for lookups that depend on its segments alone, unless the parser leaves its table |
| QueryLookups.QueryString.Get | http/query_string.h:391-396 | the first value the URL gives to a name, if any |
| QueryLookups.QueryString.GetList | http/query_string.h:398-416 | all values the URL gives to `name[]`, in order |
| QueryWriting.DigitsHaveValues | http/query_string.h:46-51 | the sixteen digits, in either case, have the values 0 to 15 |
| QueryWriting.NoOtherDigits | http/query_string.h:46-51 | no other character is a digit |
| QueryWriting.KeyReadsBack | http/query_string.h:55-129 | a key is read back, however each of its characters is written |
| QueryWriting.ValueReadsBack | http/query_string.h:191-222 | a value is read back if and only if none of its characters from 16 on is written as an escape |
| QueryWriting.PairReads | http/query_string.h:133-222 | a written pair gives its key, and its value as far as escapes keep it |
| QueryWriting.KeyAloneReads | http/query_string.h:133-222 | a segment that is only a key gives that key with an empty value |
| QueryWriting.UrlReadsBack | http/query_string.h:133-222 | a URL with a written query has as many segments as pairs, and gives a name the values of its pairs in order |
| QueryWriting.NoMarkNoValues | http/query_string.h:133-153 | a URL without `?` or `#` has no pairs |
| Base64.AlphabetIs | http/utility.h:557-606 | the symbols are the alphabets of sections 4 and 5 of RFC 4648, padded with `=` |
| Base64.GroupsAreDigits | src/base64.cpp:29-62 | the four codes are the base-64 digits of the three bytes |
| Base64.EncodedLength | http/utility.h:562-563 | an encoding has four symbols for every three bytes begun |
| Base64.EncodeString | src/base64.cpp:5-66 | the loop computes the encoding |
| Base64.EncodeBuffer | http/utility.h:557-599 | the buffer encoder computes the same encoding, for either alphabet |
| Base64.DecodeString | src/base64.cpp:68-164 | the loop computes the decoding, with the bytes appended before a failure |
| Base64.RoundTrip | src/base64.cpp:5-164 | decoding an encoding succeeds and gives the bytes back |
| Base64.AcceptedExactly | src/base64.cpp:68-164 | a text is accepted if and only if it is symbols up to the first `=`, does not leave one symbol over, and has no bits to spare before the padding |
| Base64.AcceptedIsEncoding | http/utility.h:610-704 | an accepted text re-encodes to itself if and only if it is shaped |
| Base64.UnshapedIsAccepted | src/base64.cpp:128-135 | "AA=" is accepted, and its byte encodes as "AA==" |
| Base64.EncodingIsShaped | src/base64.cpp:5-66 | every encoding is shaped |
| Netmasks.WordOctets | redfish-core/lib/ethernet.hpp:122-130 | the shifted word's bytes are the octets of the mask |
| Netmasks.CountOnes | redfish-core/lib/ethernet.hpp:637-661 | accepts exactly octets of leading ones, and counts them |
| Netmasks.FieldReads | redfish-core/lib/ethernet.hpp:606-627 | a field has the value of a byte if and only if its text is a numeral for it behind white space, or, for zero, begins with a NUL |
| Netmasks.FieldsOfDotted | redfish-core/lib/ethernet.hpp:586-598 | a text without a dot is one field; a dot ends one field and begins the next |
| Netmasks.VerifyIpAndGetBitcount | redfish-core/lib/ethernet.hpp:586-667 | accepts exactly four byte values, and when counting exactly masks, with their length |
| Netmasks.OctetsInjective | redfish-core/lib/ethernet.hpp:586-667 | a mask's octets determine its length |
| Netmasks.NetmaskValues | redfish-core/lib/ethernet.hpp:122-130 | the text of a mask reads back as its octets |
| Netmasks.NetmaskRoundTrip | redfish-core/lib/ethernet.hpp:122-667 | a written mask counts back to its length and to no other; an accepted text has the written octets |
| StaticAddresses.GetNextStaticIPEntry | redfish-core/lib/ethernet.hpp:1272-1285 | the next static entry, with none skipped |
| StaticAddresses.HandleIPv6StaticAddressesPatch | redfish-core/lib/ethernet.hpp:1491-1605 | the k-th element acts on the k-th static entry until one fails |
| StaticAddresses.ErrorKeepsPrefix | redfish-core/lib/ethernet.hpp:1491-1605 | on an error, exactly the actions of the elements before it have been issued |
| StaticAddresses.SucceedsExactly | redfish-core/lib/ethernet.hpp:1491-1605 | a request succeeds if and only if each of its elements can be handled at its place; otherwise the error is the first failing element's, with its position |
| StaticAddresses.PatchIsMerge | redfish-core/lib/ethernet.hpp:1491-1605 | the actions of every request turn the addresses into the positional merge of the elements before the first that cannot be handled |
| StaticAddresses.OthersStay | redfish-core/lib/ethernet.hpp:1272-1285 | the merge leaves addresses of other origins as they are, all of them and in order |

## Left out

- Redfish resources other than the one above, the other REST handlers, logging, certificates, PAM, file I/O and compression.
- Trie: node and rule indices are unbounded; the 32-bit `unsigned` is not modelled. The order of a `flat_map` is arbitrary, which is more general.
- Captures.ScanDouble: `strtod` is any function that stays inside its text; that it may read on beyond the URL's view is not modelled, nor is the value it gives.
- Tries.Trie.Add: rules whose `<` starts no known placeholder are excluded; the tag scanner rejects them before they are added (`Tags.TagIsEncoding`).
- `findRouteIndexes`, `getRoutes` and `debugPrint` of the trie.
- `handleUpgrade` of the router and web-socket rules: the upgrade path repeats the search of `handle`. Rules' own `validate` (a missing handler) is not modelled.
- Routers.Router.Handle: the session is given by its user's role, for which the privileges are those of `getUserPrivileges`; how the role is found is the subject of `UserRoles`.
- `convertJsonToDbus`, the opposite direction of the D-Bus conversion.
- Decoder.ConvertDBusToJSON: values are as the bus library delivers them, of the types they claim; what is read before a failure is not stated.
- UserRoles.CacheFollowsManager: last path segments are unique, as the user manager's object paths are; `RemovalExact` says what happens otherwise.
- Relays.KvmOut.OnMessage: that preparing the buffer may move bytes a write in flight still refers to is not modelled; the relay is a value.
- Relays.WebSocketOut.SendMessage: likewise that appending a message may reallocate the vector, and with it a short first message that a write in flight refers to.
- The opposite directions of the relays (reading from the peer) and their closing handshakes.
- Timers.RunIsSound: a callback does not add or cancel timers while it runs; the only callback in the repository closes a socket.
- Connections.RunsAreSafe: at most 100 deadlines are queued at a time; beyond that `FullQueueReusesKey` applies. The TLS session of a client certificate is not modelled.
- Middlewares.Exchange.Handle: a middleware is known by whether it ends the response; of its other effects only single-request sessions are modelled.
- Sessions.SessionStore.GenerateUserSession: tokens are parameters, so that two sessions may be given the same token. Loading and saving sessions, and the authentication configuration, are left out.
- Sessions.SessionStore.ApplySessionTimeouts: `needWrite` is stated for this call only; the store clears it elsewhere and overwrites it when it generates a session.
- QueryStrings.QsParse: where the second loop reads behind the table the program's behaviour is not defined; the model reports that and stops there.
- QueryLookups.QsStrncmp: the second digit of an escape is read only when the first is one, so that nothing is read behind the terminator; the result is the same.
- `qsScanvalue`, and the copying and moving of query strings.
- Base64.DecodeString: `char` is unsigned. The decoders of src/base64.cpp and http/utility.h are the same code and are modelled once.
- Netmasks.NetmaskValues: prefix lengths are 1 to 32; for 0 the source shifts a word by its width, which has no defined value.
- `handleIPv4StaticPatch`, whose branch for replacing an entry ends the request.
- StaticAddresses.HandleIPv6StaticAddressesPatch: reading an element's properties is a parameter (read, or malformed); addresses have distinct identifiers where `PatchIsMerge` says so. The daemon's answers are not modelled.
