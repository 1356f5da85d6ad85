# Verified model of the tool-name rewriting plugin

The plugin renames the tools of a request before it goes upstream and restores the
client's names in every response. This project models that machinery, and two
self-contained algorithms of the repository's tooling, in Dafny and proves what
they are relied on for.

* `Identifiers` is the scanner that replaces whole identifiers in response bytes,
  proved equal to one simultaneous substitution on maximal runs of name bytes.
* `ToolNames`, `RewriteMap` and `RoundTrip` build the aliases and the rename map:
  when aliases are distinct, and that the pair-by-pair reversal restores the text.
* `RestoreBytes` and `StaticFallback` are the reversal as the response hooks run it,
  with and without a map; `ArbitraryNames` says what it does for names of any bytes.
* `RequestBody` is the in-place rename of tools, tool choice and history.
* `RewriteStore` is the bounded store, refined to a history of admissions;
  `Interceptors` is the request/response/stream protocol over it, as a class whose
  methods are steps of a state machine, with theorems over all runs.
* `ToolsKey`, `TranslatedRoute` and `SseLines` are the translated routes: the key made
  of aliased names, the restore limited to `tool_use` names, the line handling;
  `TranslatedRuns` says over whole runs whose map a key finds and for how long,
  `TranslatedExits` what the shortcuts of the response hook cost, and
  `TranslatedReplies` what is delivered in the end.
* `XxHash64` is the hash of the recon scripts, against steps 1 to 6 of the XXH64
  algorithm as the xxHash documentation gives them; `Words64` proves the masked integer
  operations to be arithmetic modulo 2^64, and `KnownAnswers` evaluates the algorithm.
* `UaTemplate` is the brace-counting scan of a template literal with nested holes.

Bytes are `char` codes in the text modules: a statement about all strings holds for
all byte strings. Go's random map order appears as an arbitrary order argument or an
arbitrary choice, the seeded shuffle as any function of the names whose results
`ShufflePool` can produce, and SHA-256 as any function that tells apart the lists that
occur. The JSON library is any functions that edit the name of a `tool_use` block in
place (`EditsInPlace`), on its line (`StaysOnLine`), to what the library makes of the
name when it writes it (`written`), and that do not take the empty text for a document.
`OneBlockLibrarySound` shows that this can be met by a library that decodes escapes.

## Where the code and its comments disagree

* `internal/mimicry/normalizers.go:32-34` says that requests sharing a key share the
  map. `SharedKeyExample` gives two requests that do not. `KeysSharedExactly` says when
  two lists of any length share a key, and `SharedKeyMaps` that their maps are then,
  with distinct aliases, equal exactly when the lists are; `AmbiguousExactly` says for which lists of at most
  five names some other list with another map exists, and `OwnMapFound` that no harm is
  done as long as no such list occurs in the run.
* `internal/mimicry/fuzz_test.go:12-16` asks for a round trip over any set of names.
  All aliases come back exactly when they are distinct and no name put back holds the
  alias of a later pair as a whole word (`AllComeBackExactly`, and `ChunkComesBack` for
  many aliases in one chunk). `NotRestoredAcrossSpace` is a request of two names where
  one does. Between identifiers that cannot happen, so they come back exactly when the
  aliases are distinct, which they are up to 600 names (`IdentifiersComeBackExactly`)
  and need not be beyond (`BoundIsTight`, `AliasesDistinctExactly`).
* `internal/mimicry/normalizers.go:82-90` says that the aliases of a response are
  restored. A response that does not spell `"tool_use"`, or without a map no static
  alias, is returned unread (lines 100 and 108), and JSON may write both with escapes:
  `EscapedReplyNotRestored` is such a reply. For a given text the exits cost nothing,
  whatever the map, exactly when the text spells out what they look for
  (`ExitsHarmlessExactly`); for a given map, exactly when they are not taken or there is
  nothing to edit (`DeliveredIsRestored`).
* A second put under a key that is still stored replaces the map but does not renew the
  key's place in the order (`internal/mimicry/interceptors.go:180-192`), so on translated
  routes "2048 requests later" counts from the put that admitted the key
  (`MapKeptExactly`).
* `replaceWholeNames` tests its output slice for nil at the end
  (`internal/mimicry/toolrewrite.go:342`), which is also the case when everything
  written so far was empty. It matters only for an empty replacement, which then drops
  no occurrence if all of them stand back to back at the front; empty names never
  enter a map.

## Model

| member | source | states |
|---|---|---|
| Identifiers.ReplaceWholeNames | internal/mimicry/toolrewrite.go:321-346 | the search loop returns the left-to-right replacement of the occurrences that have no name byte on either side, for every text and every pair; an empty replacement leaves the text alone exactly when all of them lead it |
| Identifiers.ReplaceWholeIsSubst | internal/mimicry/toolrewrite.go:318-346 | for an identifier, that scan equals substitution on maximal runs of name bytes, from any run border on |
| Identifiers.ReplaceBeforeByte | internal/mimicry/toolrewrite.go:348-350 | which bytes belong to a name, one by one: a name followed by one of the 64 listed bytes is another name and left alone, before any other byte it is replaced |
| Identifiers.ReplaceAfterByte | internal/mimicry/toolrewrite.go:348-350 | the same for a byte in front |
| Identifiers.SubstCompose | internal/mimicry/toolrewrite.go:307-309 | two passes equal one pass with the composed map, as long as the first puts identifiers in place of identifiers |
| Identifiers.SubstSplit | internal/mimicry/toolrewrite.go:318-320 | restoring a concatenation is concatenating the restored parts when no identifier runs across the cut |
| Identifiers.SubstChunks | internal/mimicry/interceptors.go:107-128 | the same for any number of chunks |
| Identifiers.TokensOfSubst | internal/mimicry/toolrewrite.go:318-346 | the identifiers after a substitution are exactly the images of those before |
| ToolNames.StaticAliasAnyOrder | internal/mimicry/toolrewrite.go:93-102 | the range order of the static table cannot change an alias |
| ToolNames.StaticAliasCases | internal/mimicry/toolrewrite.go:21-25 | whichever rule applies renames the name, and without one it stays |
| ToolNames.StaticTable | internal/mimicry/toolrewrite.go:93-111 | the alias of every name, by literal prefixes: sessions_, session_, and mcp_ only before one of the 36 characters a-z0-9 |
| ToolNames.NoAliasRefused | internal/mimicry/toolrewrite.go:15-20 | no static alias matches ^mcp_[a-z0-9], and a name that starts with mcp_ otherwise is kept |
| ToolNames.StaticAliasInjective | internal/mimicry/toolrewrite.go:85-103 | two renamed names never share a static alias |
| ToolNames.AliasNotRenamed | internal/mimicry/toolrewrite.go:93-102 | a name that starts like a static alias is never renamed |
| ToolNames.UnaliasAnyOrder | internal/mimicry/normalizers.go:239-246 | the range order cannot change the reversal of a static alias |
| ToolNames.UnaliasInverse | internal/mimicry/normalizers.go:237-246 | the reversal gives back every statically renamed name |
| ToolNames.StaticTableBack | internal/mimicry/normalizers.go:237-246 | what every name is read back as, by literal prefixes |
| ToolNames.AliasShapedInverse | internal/mimicry/normalizers.go:237-246 | and renaming what the reversal reads out of an alias-shaped name gives that name |
| ToolNames.PoolIsArrangement | internal/mimicry/toolrewrite.go:30-35 | the pool is 24 different prefixes whose only underscore ends them |
| ToolNames.ShufflePool | internal/mimicry/toolrewrite.go:72-74 | any sequence of swaps leaves such a pool with the same entries |
| ToolNames.PrefixCode | internal/mimicry/toolrewrite.go:30-35 | what follows a pool prefix can be read back, so no prefix hides another |
| ToolNames.DynamicAliasCollision | internal/mimicry/toolrewrite.go:77-81 | two dynamic aliases are the same text if and only if prefix and head-with-number agree |
| ToolNames.CollisionDistance | internal/mimicry/toolrewrite.go:77-81 | which happens only at positions a multiple of 600 apart |
| ToolNames.TwoDigitsInjective | internal/mimicry/toolrewrite.go:80 | the zero-padded position determines the position |
| ToolNames.TwoDigitsRead | internal/mimicry/toolrewrite.go:80 | the padded position reads as that decimal number, in two digits or, without a leading zero, more |
| ToolNames.DynamicAliasReads | internal/mimicry/toolrewrite.go:77-81 | a dynamic alias is one of the 24 listed prefixes, up to three bytes of the name and digits that read as the position |
| ToolNames.NoDynamicAliasRefused | internal/mimicry/toolrewrite.go:30-35 | no dynamic alias matches ^mcp_[a-z0-9] |
| RewriteMap.BuildDynamicToolMap | internal/mimicry/toolrewrite.go:59-83 | nil up to five names, otherwise every name maps to the alias of its last position |
| RewriteMap.AliasOf | internal/mimicry/toolrewrite.go:37-40 | where dynamic aliases are enabled, lists of six names or more get them, and every other list static ones |
| RewriteMap.BuildToolNameRewrite | internal/mimicry/toolrewrite.go:147-183 | the two maps and the reversal: names whose alias is new and undeclared, later names winning a shared alias, pairs each once and longest alias first |
| RewriteMap.ReverseTakesLast | internal/mimicry/toolrewrite.go:169-171 | an alias is reversed to the last declared name it was given to |
| RewriteMap.OrderedReverse | internal/mimicry/toolrewrite.go:176-182 | whatever order the map is ranged over, the pairs are its entries in descending alias length |
| RoundTrip.AliasesDistinct | internal/mimicry/toolrewrite.go:59-83 | distinct names get distinct aliases in every list of at most 600 names, static or dynamic, under any shuffle |
| RoundTrip.AliasesDistinctExactly | internal/mimicry/toolrewrite.go:77-81 | in any longer list: if and only if no two renamed names meet the stated condition on positions and heads |
| RoundTrip.BoundIsTight | internal/mimicry/toolrewrite.go:77-81 | a list of 601 different names in which two get one alias, whatever the shuffle |
| RoundTrip.AliasWellFormed | internal/mimicry/toolrewrite.go:85-103 | the alias of an identifier is an identifier |
| RoundTrip.ReverseIsInverse | internal/mimicry/toolrewrite.go:158-171 | the reverse map holds exactly the aliases in use, each with a name renamed to it |
| RoundTrip.RestoreIsSubst | internal/mimicry/toolrewrite.go:303-310 | running the pairs in turn is one simultaneous substitution: no pair touches what another has put back |
| RoundTrip.RestoreAnyOrder | internal/mimicry/toolrewrite.go:176-182 | any two orders of the pairs restore every text alike |
| RoundTrip.RoundTrips | internal/mimicry/toolrewrite.go:299-316 | up to 600 identifiers, or any number with distinct aliases: substitute aliases in a text that mentions none, restore, and the text is back |
| RoundTrip.RestoreIdempotent | internal/mimicry/toolrewrite.go:299-316 | restoring twice is restoring once |
| RoundTrip.RestoreKeepsOtherText | internal/mimicry/toolrewrite.go:164-168 | text whose identifiers are declared names or no aliases of the request is unchanged, so names the collision check left alone survive |
| RoundTrip.RestoreChunks | internal/mimicry/toolrewrite.go:299-310 | restoring chunks cut between identifiers restores the stream |
| StaticFallback.FallbackAnyOrder | internal/mimicry/toolrewrite.go:312-315 | all six range orders of the static table give the result of one scan that undoes every alias where it stands, on every text |
| StaticFallback.UndoOneMore | internal/mimicry/toolrewrite.go:312-315 | undoing one more rule afterwards equals undoing it in the same scan |
| StaticFallback.NotCreated | internal/mimicry/toolrewrite.go:312-315 | an alias seen after other rules were undone was in the input |
| RestoreBytes.ReplaceAllBytes | internal/mimicry/toolrewrite.go:352-357 | the early returns do not change what a full leftmost replacement gives |
| RestoreBytes.RestoreToolNamesInBytes | internal/mimicry/toolrewrite.go:299-316 | with a map its pairs in turn, without one the order-free fallback |
| ArbitraryNames.TextKeptExactly | internal/mimicry/toolrewrite.go:299-316 | names of any bytes: the pairs in turn leave a text alone if and only if no alias of the request occurs in it as a whole, so no later pair ever undoes an earlier one |
| ArbitraryNames.AliasComesBackExactly | internal/mimicry/toolrewrite.go:42-46 | names of any bytes: an alias sent alone comes back as the name of its pair if and only if no later alias occurs in that name as a whole; the longest-first order keeps earlier pairs out |
| ArbitraryNames.AllComeBackExactly | internal/mimicry/fuzz_test.go:12-16 | every alias comes back if and only if aliases are distinct and no name put back holds the alias of a later pair |
| ArbitraryNames.IdentifiersComeBackExactly | internal/mimicry/fuzz_test.go:12-16 | identifiers: every alias comes back if and only if aliases are distinct, and so always up to 600 names |
| ArbitraryNames.RestoreJoined | internal/mimicry/toolrewrite.go:318-346 | pieces between bytes that are in no alias and no identifier are restored one by one, whatever the names put back hold |
| ArbitraryNames.ChunkComesBack | internal/mimicry/fuzz_test.go:52-90 | one chunk quoting any number of aliases: all come back and the other pieces stay |
| ArbitraryNames.NotRestoredAcrossSpace | internal/mimicry/toolrewrite.go:303-310 | a request of two names, one holding a space and the other's alias, where the alias does not come back |
| RequestBody.BuildToolNameRewriteFromBody | internal/mimicry/toolrewrite.go:129-145 | the rewrite is built from the non-empty names of nameable tools, in order |
| RequestBody.ApplyToolNameRewriteToBody | internal/mimicry/toolrewrite.go:193-262 | the loops over tools, choice and history produce the renamed body, and the same body for an empty rewrite |
| RequestBody.ReferencesStayDeclared | internal/mimicry/toolrewrite.go:224-257 | if every tool_choice and tool_use name was declared, it still is |
| RequestBody.NamesStayDistinct | internal/mimicry/toolrewrite.go:201-222 | differently named tools stay so if and only if no tool that may not be renamed is named like an alias in use |
| RequestBody.RenameUndone | internal/mimicry/toolrewrite.go:193-262 | renaming back gives the body if and only if its history names no alias of the request |
| RequestBody.OnlyNamesChange | internal/mimicry/toolrewrite.go:193-262 | tools, tool choice, messages and blocks keep number, order, types and all other fields; a tool changes if and only if its type is empty, function or custom and the map gives its name another, and then to that one; tool_choice of type tool and tool_use blocks alike |
| RequestBody.ForwardMapFits | internal/mimicry/toolrewrite.go:152-170 | the built map renames declared names only, to aliases nobody declares |
| RewriteStore.BoundedRewriteStore.Put | internal/mimicry/interceptors.go:177-192 | admits or overwrites and then evicts the oldest while over capacity |
| RewriteStore.BoundedRewriteStore.Get | internal/mimicry/interceptors.go:194-201 | the entry of a non-empty key, without promoting it |
| RewriteStore.StoreReflectsHistory | internal/mimicry/interceptors.go:164-201 | after any calls the order is duplicate-free, lists exactly the stored keys, is the newest admissions up to capacity, and every entry is the latest map put under its key |
| RewriteStore.Retention | internal/mimicry/interceptors.go:18-20 | a newly admitted key is stored if and only if fewer than capacity other keys were admitted since, and then returns its latest map |
| RewriteStore.NeverTwice | internal/mimicry/interceptors.go:183-191 | a key is admitted again only more than capacity admissions later |
| Interceptors.Hex | internal/mimicry/helpers.go:33 | a signature key is non-empty and has only the digits 0-9 and a-f |
| Interceptors.HexReads | internal/mimicry/helpers.go:33 | it reads as the signature in base 16, without leading zeros |
| Interceptors.KeysApart | internal/mimicry/interceptors.go:135-140 | two calls have the same key if and only if they carry the same id, or none and the same signature |
| Interceptors.Plugin.Configure | internal/mimicry/config.go:81-83 | replaces the toggle and nothing else |
| Interceptors.Plugin.InterceptRequestBefore | internal/mimicry/interceptors.go:30-74 | one forward step of the protocol: the body sent upstream and the new store |
| Interceptors.Plugin.InterceptResponse | internal/mimicry/interceptors.go:84-105 | the reply text of the protocol, nothing changed |
| Interceptors.Plugin.InterceptStreamChunk | internal/mimicry/interceptors.go:107-128 | the same for a chunk, header-init and empty chunks left alone |
| Interceptors.UpstreamBodyConsistent | internal/mimicry/interceptors.go:41-73 | in any state, for any number of names: references of the body sent upstream are declared if the client's were; with distinct aliases, so always up to 600 names, different names stay different if and only if no tool left alone is named like an alias in use, and renaming back gives the client's body if and only if its history names no alias |
| Interceptors.UpstreamNames | internal/mimicry/interceptors.go:41-73 | the name of every nameable tool of the body sent upstream, by literal types and counts: its dynamic alias from six names on if there are messages, else its static one, and its own name if somebody declares that alias |
| Interceptors.UpstreamNotRefused | internal/mimicry/toolrewrite.go:15-20 | under any shuffle of the pool, a nameable tool is sent under a name matching ^mcp_[a-z0-9] if and only if the client named it so and also declared its alias |
| Interceptors.ForwardOnlyWhenAsked | internal/mimicry/interceptors.go:37-52 | requests that are not native, or while obfuscation is off, are sent as they are and store nothing; nor does one without messages |
| Interceptors.RunIsHistory | internal/mimicry/interceptors.go:70-72 | a run's store is the store after the puts of its obfuscating forward steps |
| Interceptors.EntriesBelong | internal/mimicry/interceptors.go:70-72 | in every reachable state an entry holds the map of a forward step with that key, and an id's entry that of the very id |
| Interceptors.UnknownIdPassesThrough | internal/mimicry/interceptors.go:89-98 | a reply with an id under which no forward step stored a map is delivered byte for byte, whatever the configuration has become |
| Interceptors.HeaderInitKept | internal/mimicry/interceptors.go:112-115 | the call with index -1, which announces the headers, is delivered as it is |
| Interceptors.ReplyWithoutId | internal/mimicry/interceptors.go:84-140 | in every reachable state a reply without an id is restored by the map of its signature; without one the static aliases are undone if obfuscation is on, and nothing otherwise |
| Interceptors.MapIsKept | internal/mimicry/interceptors.go:13-21 | a request's map is found under its id, or its signature if there is none, exactly while fewer than 2048 keys were admitted since |
| Interceptors.ReplyRestored | internal/mimicry/interceptors.go:84-128 | over every run, for any number of identifiers: a response, or a chunk of any index but -1, that belongs to the request by id or, without ids, by signature is delivered with every alias of its own request, and nothing else, replaced, however other steps, whatever their maps, and reconfigurations interleave; only if nothing was renamed and there is no id does the static fallback apply |
| Interceptors.ReplyAfterEviction | internal/mimicry/interceptors.go:92-98 | after 2048 admissions it is passed through unrestored, but for the static fallback of hosts without ids |
| Interceptors.ClientSeesItsNames | internal/mimicry/interceptors.go:13-21 | a reply that is the client's text under the request's renames is delivered as that text |
| Interceptors.StreamRestored | internal/mimicry/interceptors.go:107-140 | a whole stream, its chunks interleaved with any other steps and cut between identifiers, is delivered as the restored stream |
| Interceptors.ClientSeesStream | internal/mimicry/interceptors.go:107-140 | if that stream is the client's text under the request's renames, the delivered chunks spell the client's text |
| ToolsKey.TranslatedToolsKey | internal/mimicry/normalizers.go:40-59 | the loop hashes the zero-terminated names of nameable tools; no such tool, no key |
| ToolsKey.EncodeInjective | internal/mimicry/normalizers.go:47-54 | different lists of zero-free names are encoded differently |
| ToolsKey.KeyIdentifiesNames | internal/mimicry/normalizers.go:37-59 | if the hash tells their encodings apart, two bodies share a key if and only if their nameable tools are named alike, in order |
| ToolsKey.KeyNamesOfRenamed | internal/mimicry/normalizers.go:73-78 | the key of a rewritten body is made of the aliased names, tools without a name included |
| ToolsKey.AmbiguousExactly | internal/mimicry/normalizers.go:32-35 | for a list of at most five names with a rename, another list with renames shares the key but not the map if and only if a second name is renamed or a declared name reads as the alias of an undeclared one |
| ToolsKey.RevertedLeadsThere | internal/mimicry/normalizers.go:32-35 | every choice among those names is the image of a request that renames exactly the choice |
| ToolsKey.SharedKeyExample | internal/mimicry/normalizers.go:32-35 | mcp_x, mcp_y and cc_mcp_x, mcp_y share a key and have different maps |
| ToolsKey.PlainNamesDecodable | internal/mimicry/normalizers.go:32-35 | with no declared name starting like a static alias, equal aliased lists come from equal lists and maps |
| ToolsKey.KeysSharedExactly | internal/mimicry/normalizers.go:32-35 | two lists of any length under any shuffles share a key if and only if they agree at every entry: in prefix, head and number where both rename, in the name sent elsewhere |
| ToolsKey.SharedKeyMaps | internal/mimicry/normalizers.go:32-35 | lists sharing a key have the same map if they are the same list, and only if when aliases are distinct |
| TranslatedRoute.FirstMatchIsLookup | internal/mimicry/normalizers.go:225-235 | the first-match loop is a lookup in the reverse map, whatever the order of the pairs |
| TranslatedRoute.RestoreToolUseNamesInJSON | internal/mimicry/normalizers.go:193-220 | the closure's edits, the single block first and then the list in order |
| TranslatedRoute.OnlyToolUseNamesChange | internal/mimicry/normalizers.go:146-152 | for whatever map was found: every tool_use name becomes its real name, as the library writes it, unless the client's request spells it, and nothing else in the document changes |
| TranslatedRoute.NameRestored | internal/mimicry/normalizers.go:203-211 | an alias of the map becomes exactly its name, a name the client spells or the map does not hold stays |
| TranslatedRoute.RestoreAgain | internal/mimicry/normalizers.go:193-220 | a second restore changes nothing, whether a map was found or not, where the library writes the names as they are |
| TranslatedRoute.Normalizer.Configure | internal/mimicry/config.go:81-83 | replaces the toggle and nothing else |
| TranslatedRoute.Normalizer.NormalizeRequest | internal/mimicry/normalizers.go:65-80 | the reply body, and one step of the route: the put under the key of the aliased names |
| TranslatedRoute.Normalizer.NormalizeResponseBefore | internal/mimicry/normalizers.go:91-120 | the reply text that `TranslatedReplies` is about, nothing changed |
| TranslatedRuns.RunIsHistory | internal/mimicry/normalizers.go:65-80 | a run's store is the store after the puts of its aliased requests |
| TranslatedRuns.OwnMapFoundExactly | internal/mimicry/normalizers.go:25-35 | over any requests, of any length: what a request finds is the map of the latest one with the same aliased names; it is its own map if that one declared the same names, and only if when aliases are distinct |
| TranslatedRuns.OwnMapFound | internal/mimicry/normalizers.go:25-35 | a request finds its own map, if any, unless a request of the run with other names agrees with it at every entry |
| TranslatedRuns.PlainUnshared | internal/mimicry/normalizers.go:27-35 | up to five names, any number renamed: nobody does if no request of the run declares a name that begins like a static alias |
| TranslatedRuns.UnambiguousUnshared | internal/mimicry/normalizers.go:27-35 | nor for a request that is not ambiguous, whatever the run holds |
| TranslatedRuns.MapKeptExactly | internal/mimicry/normalizers.go:32-35 | a map is found under its key if and only if fewer than 2048 keys were admitted after that key was |
| TranslatedExits.PayloadStaysOnLine | internal/mimicry/normalizers.go:172-191 | a restored payload never breaks its line |
| TranslatedExits.RestoredSameExactly | internal/mimicry/normalizers.go:153-220 | a document or transcript is restored to itself if no tool_use block in it has a name to restore, and only if where the library writes the names as they are |
| TranslatedExits.DeliveredCases | internal/mimicry/normalizers.go:115-119 | past the early exits what is delivered is the restored text: the comparison with the input and the empty reply cannot be seen |
| TranslatedExits.DeliveredIsRestored | internal/mimicry/normalizers.go:96-119 | for a given text and map, what is delivered is the restored text if and only if an early exit is not taken on a text with a name to restore |
| TranslatedExits.ExitsHarmlessExactly | internal/mimicry/normalizers.go:100-110 | for a given text, the early exits never suppress a restore, whatever map is found and whatever the client sent, if and only if the text spells "tool_use" where it has such a block, and one of cc_sess_, cc_ses_, cc_mcp_ where the name of one begins so |
| TranslatedExits.EscapedReplyNotRestored | internal/mimicry/normalizers.go:100-102 | a document whose block type is written with an escape is delivered with its alias, whatever the store holds, although a restore would give the name |
| TranslatedExits.DeliveredByLine | internal/mimicry/normalizers.go:87-90 | one call per line delivers what one call on the transcript would if and only if the transcript is given up on or no line with a name to restore is |
| TranslatedReplies.ReplyRestored | internal/mimicry/normalizers.go:82-90 | over every run: within 2048 admissions and with no other list sharing the key, a document or transcript that spells "tool_use" is delivered with each tool_use name replaced by the real name of its own request, unless the client spells it, and with nothing else changed; any other is delivered as it is, which is right if and only if it has no such name |
| TranslatedReplies.AliasComesBack | internal/mimicry/normalizers.go:82-90 | there the alias of a declared name is delivered as that name as the library writes it, up to 600 names or whenever aliases are distinct |
| TranslatedReplies.AliasDelivered | internal/mimicry/normalizers.go:82-90 | both together, for a message that spells "tool_use" with its quotes: a tool_use block of its content that names an alias is delivered as the same block with the declared name |
| TranslatedReplies.MessageDelivered | internal/mimicry/normalizers.go:91-120 | for every request in service and each of its aliases, the message written as one tool_use block with that alias is delivered as that block with the declared name |
| TranslatedReplies.AliasDeliveredOnLine | internal/mimicry/normalizers.go:172-213 | both together, for a stream: so is the block that a data line starts, on the same line |
| TranslatedReplies.StreamRestored | internal/mimicry/normalizers.go:87-90 | the lines of a transcript delivered one by one at any points of a run spell the transcript as the client should see it, if each line with a name to restore spells "tool_use" |
| TranslatedReplies.ReplyAfterEviction | internal/mimicry/normalizers.go:89-110 | after 2048 other admissions the reply is restored without a map if it spells "tool_use" and one of cc_sess_, cc_ses_, cc_mcp_, and delivered as it is otherwise |
| TranslatedReplies.NameWithoutMap | internal/mimicry/normalizers.go:89-90 | which still brings back every alias of a request of at most five names, and no alias of a longer one |
| SseLines.RestoreToolUseNamesInSSELine | internal/mimicry/normalizers.go:174-191 | the unchanged-payload shortcut does not matter: prefix, restored payload, terminator |
| SseLines.RestoreToolUseNames | internal/mimicry/normalizers.go:153-170 | a valid document is restored as one, any other text line by line; the changed flag does not matter |
| SseLines.SplitIsCut | internal/mimicry/normalizers.go:157 | the lines are the text cut after each newline and nowhere else |
| SseLines.TranscriptIsItsLines | internal/mimicry/normalizers.go:145-170 | restoring a transcript is concatenating the hook's results on its lines |
| SseLines.TranscriptIsItsChompedLines | internal/mimicry/normalizers.go:172-191 | also when the lines are passed without their terminators |
| SseLines.LineStructureKept | internal/mimicry/normalizers.go:172-191 | the restored transcript has the same lines in the same places, each the restored one |
| Words64.MaskIsRemainder | scripts/recon/xxhash64.ts:13 | masking an integer of either sign is taking it modulo 2^64 |
| Words64.Mul | scripts/recon/xxhash64.ts:15-17 | the masked product is the product modulo 2^64 |
| Words64.Add | scripts/recon/xxhash64.ts:19-21 | the masked sum is the sum modulo 2^64, a seed of any size included |
| Words64.Rotl | scripts/recon/xxhash64.ts:23-25 | shifts, or and mask turn a word by n bits: the shifted-out bits return at the low end |
| Words64.U64le | scripts/recon/xxhash64.ts:27-38 | shifts and ors read eight bytes as a little-endian number below 2^64 |
| Words64.U32le | scripts/recon/xxhash64.ts:40-47 | the same for four bytes |
| XxHash64.Hash | scripts/recon/xxhash64.ts:67-121 | the buffer loops compute steps 1 to 6 of XXH64 for every input and every integer seed |
| KnownAnswers.ThreeAnswers | scripts/recon/xxhash64.ts:8-12 | three known answers that together take every step, and so fix every constant, rotation and shift: no bytes, eight zero bytes, and a text of one stripe, a half lane and three bytes |
| KnownAnswers.SeedSpelt | scripts/recon/xxhash64.ts:72-96 | where any seed goes: the four accumulators, or the state before a short input, in literal numbers |
| XxHash64.HashStripes | scripts/recon/xxhash64.ts:72-85 | the stripe loop reads the 32-byte stripes in order and stops where the tail begins |
| XxHash64.HashTail | scripts/recon/xxhash64.ts:98-118 | the three tail loops read the rest in order as lanes, half lane and bytes |
| XxHash64.Avalanche | scripts/recon/xxhash64.ts:61-65 | the mix, masked only at its end, is step 6 |
| XxHash64.FinishInjective | scripts/recon/xxhash64.ts:61-65 | the final mix maps different states to different hashes |
| XxHash64.MixInjective | scripts/recon/xxhash64.ts:49-53 | a round from zero maps different lanes to different values |
| XxHash64.LaneStepInjective | scripts/recon/xxhash64.ts:99-103 | equal results of an 8-byte step: equal states if and only if equal lanes |
| XxHash64.HalfStepInjective | scripts/recon/xxhash64.ts:106-112 | the same for the 4-byte step |
| XxHash64.ByteStepInjective | scripts/recon/xxhash64.ts:115-118 | the same for the single-byte step |
| XxHash64.TailKeepsApart | scripts/recon/xxhash64.ts:98-118 | different states stay different through any tail |
| XxHash64.HashTellsUnitsApart | scripts/recon/xxhash64.ts:67-121 | inputs of one length that agree on all stripes and differ in exactly one tail unit have different hashes, for every seed |
| XxHash64.HashTellsSeedsApart | scripts/recon/xxhash64.ts:92-120 | seeds equal modulo 2^64 give equal hashes, and below 32 bytes only those do |
| UaTemplate.ExtractUaTemplate | scripts/nightly/binary-fingerprint.py:89-133 | template and version of the literal after the first anchor, or nothing |
| UaTemplate.ScanFrom | scripts/nightly/binary-fingerprint.py:100-126 | the loop computes the recursive scan of the remaining text, for every text |
| UaTemplate.MatchInsideHole | scripts/nightly/binary-fingerprint.py:35 | the version pattern cannot match across the end of a hole |
| UaTemplate.VersionExactly | scripts/nightly/binary-fingerprint.py:35 | the pattern matches exactly VERSION:" followed by three decimal numbers with dots between and a quote after, and captures those |
| UaTemplate.ScanOfPrint | scripts/nightly/binary-fingerprint.py:104-122 | scanning a printed template gives its literals, each balanced hole as <>, and the first version in a hole, for any nesting |
| UaTemplate.PrintOfParse | scripts/nightly/binary-fingerprint.py:104-122 | every closed literal is the print of a template, and the scan reads it so |
| UaTemplate.TemplateFound | scripts/nightly/binary-fingerprint.py:96-133 | after the first anchor of the text, spelt out: claude-cli/ followed by the template, and its first version; nothing without the anchor or if the template is empty |

## Left out

- Aliases cut in two by a chunk border: `CleanCut` excludes them, the code does not reassemble them.
- System-prompt blocks, headers, fingerprint fields and the cache breakpoint: constant data and single-branch edits that leave tool names alone.
- Identity of source and target formats (trimming, case folding): the flags `native` and `translated` stand for the outcome.
- The hash of body and headers in `requestSignature`: the signature is an argument of every step, so nothing is claimed about collisions of hosts that send no id.
- The random source and its seed: every swap sequence is allowed, and the shuffle is a function of the names.
- JSON text, base64, YAML and envelopes: request bodies are datatypes, response documents are reached through the `Json` functions; edits are taken to succeed, and `content` is a list when it has tool_use blocks.
- UpstreamBodyConsistent: takes aliases to reach the upstream as they are; the first three bytes of a name (`internal/mimicry/toolrewrite.go:79-80`) can end inside a multi-byte character, and the JSON library then writes U+FFFD for what is left of it.
- AliasDelivered: and the other results on replies therefore say nothing of a request whose own alias was changed that way; the alias the upstream sends back is then not the one in the map.
- The mutex and the decoding errors of the hooks: put and get are atomic steps.
- RestoreToolNamesInBytes: asks for non-empty real names, which every built map has (`BuiltNamesNonEmpty`).
- RoundTrips: and the stream theorems ask for identifiers, since in running text the pieces around a name of other bytes can join with it; names of any bytes are the subject of `ArbitraryNames`.
- OwnMapFoundExactly: and what follows from it ask for names without zero bytes, the terminator of the hashed list, which the code does not check.
- The truncated hexadecimal form of the hash, the rest of the recon and nightly scripts, the C shim and the build files: formatting, input and output.
