# A model of the nginx toolkit modules, with proofs

This project models the stateful and algorithmic parts of an nginx module collection: a configuration that is
read again while the server runs, the locations compiled from it, an ordered map, timers with and without an
owner check, a buffer recycler, a cache of resolved domains and a URL splitter. `dafny verify dfyconfig.toml`
checks everything.

Code that changes things in place is a class whose methods change its fields; every such method is proved
against functions on values, and the promises of the code are lemmas about those functions.

**Locations** (`FilenameOrder`, `LocationSpec`, `LocationCompiler`, `LocationForest`, `LocationTree`,
`LocationTruncation`, `LocationTheorems`, `LocationOrder`, `LocationCost`, `LocationModifiers`, `LocationServer`).
The `location` directives of a server go through five passes: stable sort, cutting off the regexes, joining exact
and inclusive twins, nesting by prefix, and building a tree of name suffixes. `LocationSpec` says without any of
this what a lookup has to answer: the exact location of that name, else the longest inclusive prefix, with `^~`
and the first regex in declaration order that does not fail to match on top. The passes and the search compose to it. The exception is the
stored suffix length, an unsigned char: names whose suffix has 256 bytes or more are cut, and
`LocationTheorems.LookupRightIffSuffixesFit` says for exactly which sets of declarations every static answer is
right, and `LocationServer.DecisionsPrescribedIffSuffixesFit` the same of the whole decision.

**Configuration text** (`TokenSpec`, `TokenText`, `TokenPrint`, `ConfReader`, `TokenTheorems`, `BlockParser`,
`DirectiveRules`, `ConfParser`). The tokenizer reads a file through a sliding window of 4096 bytes, with a scanner of
eight flags and a separate copy loop that decodes escapes; `TokenSpec` is the same tokenizer over the whole file at
once, with the overflow of the window as an explicit rule. `TokenText` is its language as text, without a scanner: blanks,
comments, words without quotes and in either kind of quotes. From every position every file is such a text, and what a
call returns is read off it. The parser recurses through the handlers of block directives; `BlockParser` is the grammar it
follows, with printing (`TokenPrint`) as its inverse, and `DirectiveRules` says of every directive of a tree which
command it runs as and with how many arguments.

**Ordered map** (`MapShape`, `NgxMap`, `MapKeys`). A search tree with parent pointers over nodes that the caller
owns. `MapShape` holds trees and one-hole contexts as values and says how the links of all nodes change when one
subtree is replaced; `NgxMap` is the heap structure. Rebalancing is any list of rotations, so nothing depends on
colours. Deletion clears the node it takes out, and so a node that is to cover itself breaks the map:
`NgxMap.Map.Insert` says exactly when.

**Recyclers** (`FreeList`, `Shelves`, `EventTimer`, `TimerDebug`, `ChainBuf`, `Reload`). Pools whose free lists are
threaded through the very fields that carry data in use. `EventTimer` and `TimerDebug` run scripts in which handlers
add, delete and see other timers expire while they are running; what happened comes out as a log, which is the log
that the script has by definition (`LogOf`), and a small registry has to accept it. `Reload` switches two slots of
configuration.

**Resolver** (`ResolverSpec`, `ResolverTheorems`, `ResolverAnswers`, `ResolverScripts`, `Resolver`). `ResolverSpec` is a machine whose
steps are the calls of the module, the turns of its draining loops and the returns of the callbacks they call; between
a call and its return any steps may come, so a run of the machine is a run of the module with callbacks that do
anything, further drains of the same record included. Records are recycled while results for them are under way and
while they are being drained. `ResolverTheorems` says what holds of every run, and for each promise that fails when
exactly it does; `ResolverAnswers` says which addresses are answered and told; `ResolverScripts` has a script for each
failure. `Resolver` is the module's own hash buckets, chains and
free lists, and the variables of the loops in progress; each method is one step of the machine.

**URL splitter** (`RequestUrl`). A parser that leaves slices in the caller's record, proved against a written
grammar with a printer.

## Assumptions about nginx itself

- `ngx_queue_sort` is stable, `ngx_queue_middle` returns index n/2 rounded down, `ngx_filename_cmp` compares bytes
  with NUL lowest and `/` next. These are modelled by `LocationCompiler.StableSort`, `LocationTree.Middle` and
  `FilenameOrder.FilenameCmp`.
- `ngx_strnstr`, `ngx_strlchr`, `ngx_memn2cmp`, `ngx_hash_key` and `ngx_hash_strlow` are written out.
- The red-black tree inserts by the module's own callback and rebalances by rotations; deletion puts the
  successor in the place of a node with two children. Deleting clears the links and the key of the node that goes.

## Where code and documentation differ

The code is followed in each case.

- `ngx_toolkit_misc.h:15` gives the grammar `scheme://[user@]host[:port]/path[?args][#fragment]`. The code also
  takes a URL without any slash behind the host, a bare trailing slash and an empty host, and sees a fragment only behind
  arguments: in `a://h/p#f` the path is `p#f`. Empty arguments are refused unless a fragment follows.
- `ngx_map.h:71-77` calls the first node the minimum. The order is by unsigned hash first
  (`MapKeys.SignedMapIsInUnsignedOrder`).
- `ngx_dynamic_resolver.c:531-539` walks a bucket by advancing another variable than the one it tests, one that was
  never set. So it does not get past a first record with another name; what it does then is not defined, and the model
  calls it lost. `Resolver.NewIsLostIff` and `Resolver.OneOfTwoIsLost` say which names that befalls.

Callbacks of the resolver may call it again while it drains a record. One that asks for its own domain again is taken
along by the drain that called it; one that deletes the domain makes the deletion tell the others who wait, before the
result that came first; one that has the record used again can make the loop divide by zero or read beyond the
addresses it was given. And a result goes to whatever domain has the record by then, which can be another one than the
one that asked, the same again, or none. Who waits is called before any but the first address of a result is there, so
with several addresses the one it is told can be an empty cell; and a result that comes while an older one is being
handed out of the record ends up mixed with it. `ResolverTheorems` and `ResolverAnswers` have the exact conditions.

Two more behaviours a reader may not expect, kept as they are: a `$` that starts a parameter does not make the
scanner take `${` for a variable, only one inside a parameter does (`TokenTheorems.DollarFirstIsNoVariable`,
`TokenTheorems.DollarLaterIsVariable`); and blanks or a comment count against the window like a parameter, so 4096
bytes of either are an error (`TokenTheorems.BlanksOverflow`, `TokenTheorems.CommentOverflows`).

## Model

| member | source | states |
|---|---|---|
| FilenameOrder.CmpDecidesBefore | ngx_http_dynamic.c:511-512 | the bounded comparison of two NUL-free names decides their total order, NUL lowest and slash next |
| FilenameOrder.PrefixContiguous | ngx_http_dynamic.c:580-592 | in that order the names under a prefix stand together: whatever stands between a name and one it is a prefix of has the prefix too |
| FilenameOrder.BeforeTotal | ngx_http_dynamic.c:511-512 | the order of names is total |
| FilenameOrder.BeforeMeans | ngx_http_dynamic.c:511-512 | a name is before another if it is a proper prefix of it, or has the sooner byte where they first differ: NUL before all, the slash before all but NUL, else the smaller |
| LocationSpec.StaticAnswerUnique | ngx_http_dynamic.c:872-949 | for declarations without duplicates the simple rule has one answer per URI |
| LocationCompiler.NotAfterMeans | ngx_http_dynamic.c:479-518 | what a comparison result of at most zero means: regexes last, then name order, an exact entry not after its inclusive twin |
| LocationCompiler.NotAfterTotalPreorder | ngx_http_dynamic.c:479-518 | `cmp <= 0` is a total preorder on all entries, regexes last |
| LocationCompiler.CmpNotAntisymmetric | ngx_http_dynamic.c:479-518 | the comparator itself is not antisymmetric: for every name, exact against inclusive gives 0 one way and 1 the other |
| LocationCompiler.StableSortIsStable | ngx_http_dynamic.c:720 | sorting gives a permutation in order that keeps the sequence of every class of equals |
| LocationCompiler.StableSortUnique | ngx_http_dynamic.c:720 | stability determines the outcome: any two stable sorts of a queue are the same queue |
| LocationCompiler.SortedQueueSplits | ngx_http_dynamic.c:722-780 | after the sort all regexes stand behind all static entries, in declaration order |
| LocationCompiler.SortedStaticsReadyToJoin | ngx_http_dynamic.c:521-560 | after the sort the names of the static part do not decrease, entries of one name stand together, and among them the exact one stands before its inclusive twin |
| LocationCompiler.JoinCorrect | ngx_http_dynamic.c:521-560 | joining fails exactly on a clash of kind and name; otherwise the names strictly increase, every twin pair is merged and no conf is lost or added |
| LocationCompiler.ClashMeansDuplicate | ngx_http_dynamic.c:521-560 | a clash in the sorted queue is a pair of duplicate declarations, and the other way round |
| LocationForest.NestFlattens | ngx_http_dynamic.c:562-622 | nesting loses nothing: flattening the forest gives the queue back, entry by entry |
| LocationForest.NestLevel | ngx_http_dynamic.c:562-622 | on every level no inclusive name is a prefix of another name, and everything under an entry has its name as a proper prefix |
| LocationTree.SearchFinds | ngx_http_dynamic.c:629-699 | the search in a built tree finds the exact entry or the longest inclusive prefix among all entries of the forest, when every suffix fits |
| LocationTruncation.SearchMisses | ngx_http_dynamic.c:655-666 | wherever a stored suffix is cut there is a URI that the search answers with an entry that does not match it |
| LocationTheorems.BuildsIffDuplicateFree | ngx_http_dynamic.c:701-815 | a server builds if and only if no static location is declared twice, and then the forest holds exactly the declared confs |
| LocationTheorems.AllFitIffSuffixesFit | ngx_http_dynamic.c:655 | the suffixes of a tree fit in a byte if and only if every static name is short, or what it adds to some declared inclusive prefix is |
| LocationTheorems.LookupRightIffSuffixesFit | ngx_http_dynamic.c:872-949 | main result: every URI is answered as declared if and only if every such rest is shorter than 256 bytes |
| LocationTheorems.LongNameMatchesEverything | ngx_http_dynamic.c:655 | the failing case in one line: a lone prefix location of 256 bytes matches every non-empty URI |
| LocationOrder.OrderOfStaticsIrrelevant | ngx_http_dynamic.c:701-815 | permuting the declarations changes neither whether a server builds nor the queue its static tree is built from; if the regexes keep their order, no decision for any URI with any regex engine changes |
| LocationCost.InorderIsLevel | ngx_http_dynamic.c:629-699 | the in-order walk of a level's tree is the level's queue, suffix by suffix |
| LocationCost.LevelHeight | ngx_http_dynamic.c:629-699 | the tree of a level of n entries is at most floor(log2 n) + 1 high |
| LocationCost.LookupCost | ngx_http_dynamic.c:872-949 | a lookup compares at most (length of the URI + 1) times (floor(log2 N) + 1) nodes, unless some name is longer by a multiple of 256 bytes than the longest declared prefix of it |
| LocationCost.FittingNeverVanish | ngx_http_dynamic.c:655 | declarations whose suffixes fit in a byte meet that condition; others may |
| LocationModifiers.GluedModifier | ngx_http_dynamic.c:383-477 | a modifier glued to its name means what it means as an argument of its own, except `~` before a pattern that starts with `*` |
| LocationModifiers.BareMeans | ngx_http_dynamic.c:470-473 | a name that starts with no modifier is an inclusive location of that very name, without `^~` |
| LocationModifiers.ModifierMeans | ngx_http_dynamic.c:397-430 | `=` makes an exact location of the name, `^~` an inclusive one without regexes, `~` and `~*` a regex, if it compiles, case-sensitive and caseless; any other modifier is refused |
| LocationModifiers.LoneAnswers | ngx_http_dynamic.c:872-1019 | what a server with one location answers: a regex location whatever it matches, an exact one its own name, an inclusive one every URI it is a prefix of |
| LocationModifiers.AloneOnServer | ngx_http_dynamic.c:383-477 | so a server with the one directive `location /a` answers exactly the URIs that start with it, and with `location = /a` exactly that one |
| LocationServer.LocationQueue.Sort | ngx_http_dynamic.c:720 | the queue becomes its stable sort |
| LocationServer.LocationQueue.CutRegexes | ngx_http_dynamic.c:722-780 | the regexes leave the sorted queue, in order; the static entries stay |
| LocationServer.LocationQueue.JoinExactLocations | ngx_http_dynamic.c:521-560 | the queue joined in place, or failure exactly when joining fails |
| LocationServer.LocationQueue.CreateLocationsList | ngx_http_dynamic.c:562-622 | the queue from `q` on is nested in place, the part before it untouched |
| LocationServer.LocationQueue.CreateLocationsTree | ngx_http_dynamic.c:629-699 | the queue becomes the tree of its level |
| LocationServer.ServerLocations.AddLocation | ngx_http_dynamic.c:817-868 | one more declaration, at the end of the queue |
| LocationServer.ServerLocations.InitLocations | ngx_http_dynamic.c:701-783 | the regex array is the declared regexes in declaration order and the queue keeps the sorted static entries |
| LocationServer.ServerLocations.InitStaticLocationTrees | ngx_http_dynamic.c:785-815 | succeeds if and only if no static location is declared twice, with the tree of the declarations |
| LocationServer.ServerLocations.FindStaticLocation | ngx_http_dynamic.c:872-949 | the loop over the tree, with its three results and the caller's pointer untouched on a decline; it looks at as many nodes as the cost counts |
| LocationServer.ServerLocations.FindLocation | ngx_http_dynamic.c:958-1019 | the full decision: static search, `^~`, first matching regex in order, regex failure |
| LocationSpec.DecidedIsPrescribed | ngx_http_dynamic.c:981-1018 | what is decided from the static answer and the regexes is what is prescribed, said with indices into the declarations and without the walk |
| LocationSpec.PrescribedIsOne | ngx_http_dynamic.c:958-1019 | without duplicates one decision at most is prescribed for a URI and a regex engine |
| LocationServer.DecisionIsPrescribed | ngx_http_dynamic.c:958-1019 | where every suffix fits in a byte, the decision for a URI with a regex engine is the one the declarations prescribe, and no other is: the exact location; else the longest prefix if it is `^~`; else the first regex location that does not fail to match; else that prefix, or none |
| LocationServer.DecisionsPrescribedIffSuffixesFit | ngx_http_dynamic.c:958-1019 | main result: the decisions for all URIs and all regex engines are the prescribed ones if and only if every such rest is shorter than 256 bytes |
| ConfReader.ConfFile.ReadToken | ngx_dynamic_conf.c:307-612 | reading through the sliding window gives status, arguments, line and position of the one-pass tokenizer on the whole file, overflow of the window included |
| ConfReader.ConfFile.Refill | ngx_dynamic_conf.c:338-412 | a refill keeps the pending bytes and makes unread file bytes available, or there is no room |
| ConfReader.ConfFile.CopyWord | ngx_dynamic_conf.c:566-598 | the copy loop writes the decoded parameter, with the bytes taken from the window |
| TokenTheorems.LargerBufferAgrees | ngx_dynamic_conf.c:338-412 | a call that does not overflow reads the same through any larger window: the 4096 bytes matter to nothing else |
| TokenTheorems.EscapesTrackedAlways | ngx_dynamic_conf.c:414-560 | in every state the scanner reaches, its `quoted` flag is up exactly when the pending bytes end in a backslash that escapes the next byte |
| TokenTheorems.CopyLoopPairs | ngx_dynamic_conf.c:566-598 | on a parameter in which every backslash is paired, the copy loop decodes unit by unit and never writes more than it reads |
| TokenTheorems.PushedParameterDecodes | ngx_dynamic_conf.c:538-606 | for every parameter of every file, scanner and copy loop pair the backslashes alike |
| TokenText.TextReadsBack | ngx_dynamic_conf.c:307-612 | main result: for blanks, comments and words without quotes, in single and in double quotes, with their escapes, and any end, anywhere in a file: a call returns the words they mean, the status of the end, the line and the position, or an error where the end is wrong, and overflows if and only if the window has no room |
| TokenText.EveryCallReadsText | ngx_dynamic_conf.c:307-612 | and from every position every file is such a text, so this is what every call returns |
| TokenText.DecodeUnits | ngx_dynamic_conf.c:566-598 | the copy loop turns escaped quotes and backslashes into themselves, `\t`, `\r` and `\n` into the bytes 9, 13 and 10, and keeps the backslash before any other byte |
| TokenPrint.PrintedWordsReadBack | ngx_dynamic_conf.c:307-612 | words printed in quotes, anywhere in a file, read back as themselves; a call fails on them if and only if one does not fit the window |
| TokenTheorems.DollarFirstIsNoVariable | ngx_dynamic_conf.c:513-606 | a call that meets `${` first returns the start of a block with the one argument `$` |
| TokenTheorems.DollarLaterIsVariable | ngx_dynamic_conf.c:513-532 | behind any byte that means nothing to the scanner `${` is inside the parameter, which goes on |
| TokenTheorems.BlanksOverflow | ngx_dynamic_conf.c:338-412 | as many blanks as the window has bytes, in front of anything, make a call fail at that position |
| TokenTheorems.CommentOverflows | ngx_dynamic_conf.c:338-412 | so does a comment of that length |
| BlockParser.ParsesExactly | ngx_dynamic_conf.c:614-669 | a parse yields a tree if and only if the directive table accepts it and exactly its tokens, its own closing brace or end of file included, were there to be read |
| BlockParser.ParsedIsRead | ngx_dynamic_conf.c:614-669 | a block call returns only at its own closing brace, the top call only at the end of the file |
| BlockParser.TopParseBalances | ngx_dynamic_conf.c:614-669 | a file that parses is read to its end and its braces balance |
| BlockParser.PrintThenParse | ngx_dynamic_conf.c:614-669 | a printed tree parses back to itself if the directive table accepts it, and fails if not |
| BlockParser.TreeBalances | ngx_dynamic_conf.c:614-669 | the tokens of every tree open and close as many blocks, at any depth |
| DirectiveRules.SelectIs | ngx_dynamic_conf.c:193-229 | the command found for a name is the first, module by module, of a module of the right kind, before the empty name of its list, that has the name and is allowed here; none is found if and only if there is none |
| DirectiveRules.AdmitIs | ngx_dynamic_conf.c:231-272 | a directive is let through if and only if its name stands for a command, it ends as that has to, its own code accepts it and the arguments behind the name are one for a flag, at least one or two, or fewer than eight and of the mask |
| DirectiveRules.RefusedForCount | ngx_dynamic_conf.c:240-262 | one that is known, in place, rightly ended and accepted by its own code is refused if and only if the count of its arguments is wrong |
| DirectiveRules.AcceptsIffRuns | ngx_dynamic_conf.c:175-304 | a tree is accepted if and only if every directive of it, at any depth and in the scope its block opens, runs by these rules |
| DirectiveRules.ParsesIffRuns | ngx_dynamic_conf.c:614-669 | main result: a parse yields a tree if and only if every directive of it runs by these rules and its tokens were there to be read |
| ConfParser.Conf.FindCommand | ngx_dynamic_conf.c:193-229 | the walk over modules and command lists finds the first command of the name that is allowed here |
| ConfParser.Conf.Handler | ngx_dynamic_conf.c:175-304 | a directive is run if and only if it is known, in place, properly ended and has the right number of arguments |
| ConfParser.Conf.ParseBlock | ngx_http_dynamic.c:1275-1314 | a nested parse sets its directives in a context of its own, made for it, and every block inside in another; the caller's context, command type and module type are back afterwards, on success and on failure |
| ConfParser.SetInFresh | ngx_http_dynamic.c:1275-1314 | when a tree is parsed, every directive is set in the context around the tree or in one that was not there before |
| ConfParser.BlockIsApart | ngx_http_dynamic.c:1275-1314 | a block is set in the context around it, and everything inside it in contexts that were not there before |
| ConfParser.Conf.Parse | ngx_dynamic_conf.c:614-669 | the recursive parser, reading through the window, is the parser of the whole file; it terminates on the unread bytes |
| NgxMap.LessIsOrder | ngx_map.h:18-22 | hash first, comparator second is a strict total order up to keys the map cannot tell apart, for every lawful comparator |
| NgxMap.Map.Find | ngx_map.c:218-257 | the node with the key, or null exactly when there is none |
| NgxMap.Map.Begin | ngx_map.c:64-84 | the first node in order, null for an empty map |
| NgxMap.Map.RBegin | ngx_map.c:86-106 | the last node in order, null for an empty map |
| NgxMap.Map.Next | ngx_map.c:108-147 | from the i-th node to the next in order, null at the end |
| NgxMap.Map.Prev | ngx_map.c:149-188 | from the i-th node to the one before, null at the start: with `Next` each undoes the other |
| NgxMap.Map.Walk | ngx_timerd.c:264-272 | begin and next visit every node once, in strictly increasing key order |
| NgxMap.Map.WalkBack | t/ngx_map_test_module.c:155-195 | rbegin and prev visit the exact reverse |
| NgxMap.Map.InsertValue | ngx_map.c:9-54 | the node is hung into the place of its key and nothing else moves; the early return is taken if and only if the key is there |
| NgxMap.Map.Add | ngx_map.c:200 | the duplicate-key return is unreachable for an absent key whose hash is stored; the tree stays linked and ordered under any rotations. With another key stored, the map is broken or the node is not in it |
| NgxMap.Map.Insert | ngx_map.c:190-205 | exactly one key changes: an absent one gets the node, a present one keeps its node without `covered` and gets the new one in the same place with it; and that holds if and only if the node is not to cover itself, or its hash is zero |
| NgxMap.Map.CoversItself | ngx_map.c:201-204 | the failing case: a node alone in a map that covers itself is lost or leaves the map broken |
| NgxMap.Map.Delete | ngx_map.c:207-216 | exactly one key goes, if it is there; all others keep their nodes and their order, and the node that goes is cleared |
| NgxMap.Map.Remove | ngx_map.c:214 | taking a node out of the tree, whether it has two children or not, keeps all links and the order of the rest, and clears the links and the key of the node |
| NgxMap.Map.Rebalance | ngx_map.c:200 | rotations at any places make the tree that the same turns make of its shape, and keep nodes, links and order |
| NgxMap.Map.RotateLeft | ngx_map.c:200 | the pointers become those of the left turn at that place of the tree |
| NgxMap.Map.RotateRight | ngx_map.c:200 | the same for the right turn |
| NgxMap.Map.HoldsWith | ngx_map.c:190-205 | adding a node for an absent key updates the finite map at that key and nowhere else |
| NgxMap.Map.HoldsWithout | ngx_map.c:207-216 | taking the i-th node out removes its key from the finite map and no other |
| NgxMap.Map.Covered | ngx_map.c:201-204 | deleting a key and inserting another node with it puts that node in the same place of the order |
| MapShape.LinksOfPlug | ngx_map.c:42-52 | the links of a whole tree are those around a hole and those of the tree in it |
| MapShape.LeftTurnInPlace | ngx_map.c:200 | which links a left rotation changes, in the whole tree, and that it changes no other |
| MapShape.RightTurnInPlace | ngx_map.c:200 | the same for a right rotation |
| MapShape.SpliceInPlace | ngx_map.c:214 | which links change when a node with a child missing is taken out |
| MapShape.SupplantInPlace | ngx_map.c:214 | which links change when one node takes the place of another |
| MapKeys.CmpStrSigns | ngx_map.c:271-289 | comparing byte strings is antisymmetric and gives zero for equal strings only |
| MapKeys.CmpStrMeans | ngx_map.c:271-289 | a string is before another if it is a proper prefix of it or has the smaller byte where they first differ |
| MapKeys.HashStrIs | ngx_map.c:261-269 | the hash of a string is its bytes as digits to the base 31, in a word |
| MapKeys.StringsAreLawful | ngx_map.c:271-289 | the string comparator is a total order with results -1, 0 and 1 |
| MapKeys.WordsAreLawful | ngx_map.c:298-327 | so are the unsigned and the signed one |
| MapKeys.KeysAreToldApart | ngx_map.c:260-327 | with each of the three pairs the map tells all keys apart, whatever the hashes |
| MapKeys.SignedMapIsInUnsignedOrder | ngx_map.c:310-327 | a map of signed keys is ordered by the unsigned word, every negative key behind every other |
| MapKeys.FirstIsLeastWhen | ngx_map.c:64-84 | so the first node has the least signed key if and only if no key is negative or all are |
| RequestUrl.Request.Parse | ngx_toolkit_misc.c:181-297 | succeeds exactly on the URLs that read, and then fills exactly the slices of the components; fields of absent components keep what they held |
| RequestUrl.PrintThenRead | ngx_toolkit_misc.c:181-297 | printing any well-formed components and reading gives those components |
| RequestUrl.ReadThenPrint | ngx_toolkit_misc.c:181-297 | the components of every accepted URL are well-formed and reassemble to the URL, byte by byte |
| RequestUrl.AcceptedIffPrinted | ngx_toolkit_misc.h:15 | a URL is accepted if and only if it is printed from well-formed components, and from one set of them only |
| RequestUrl.SlicesShowComponents | ngx_toolkit_misc.c:204-293 | the slices show the text of the components, host with port and path with arguments and fragment included |
| EventTimer.Timers.ProcessInit | ngx_event_timer_module.c:97-141 | all slots are free, linked from slot 0 on; none for a pool of size zero |
| EventTimer.Timers.GetTimer | ngx_event_timer_module.c:143-161 | a slot from the list, or none exactly when none is free |
| EventTimer.Timers.FreeTimer | ngx_event_timer_module.c:163-173 | a slot that is neither free nor armed becomes the first of the list |
| EventTimer.Timers.AddTimer | ngx_event_timer_module.c:189-217 | an unused id, or -1 exactly without a handler or a free slot |
| EventTimer.Timers.DelTimer | ngx_event_timer_module.c:219-237 | an armed timer is disarmed and its slot freed; any other id changes nothing |
| EventTimer.Timers.EventHandler | ngx_event_timer_module.c:175-187 | a due timer calls its own handler with its own data, then all that the handler does happens, then it returns and its slot is free; a timer that is not due calls nothing |
| EventTimer.Timers.Run | ngx_event_timer_module.c:143-237 | every script, with handlers at any depth that add, delete and see timers expire, has exactly the log its actions have one after the other, the registry accepts it, and the pool is left in the registry's state |
| EventTimer.Timers.Conserved | ngx_event_timer_module.c:143-173 | free, armed and running slots add up to the pool |
| EventTimer.CallHasItsAdd | ngx_event_timer_module.c:175-217 | in an accepted run a call is the first event of its id since one add, and has that add's handler and data |
| EventTimer.CalledOncePerAdd | ngx_event_timer_module.c:175-217 | between two calls of one id there is an add of it with the data of the second: one add, one call at most |
| EventTimer.ExpiryCallsItsAdd | ngx_event_timer_module.c:175-217 | and one at least: at any place of a script that is reached, inside handlers at any depth included, the expiry of a timer that was added and not settled since calls the handler of that add with its data, the handler's own actions follow, and its return |
| FreeList.Counts | ngx_event_timer_module.c:143-173 | a pool partitioned into a list without repetition and two sets has as many slots as these together |
| TimerDebug.Timers.GetNode | ngx_timerd.c:54-75 | a cleared node that nobody holds, from the list before the pool grows |
| TimerDebug.Timers.PutNode | ngx_timerd.c:78-93 | a held node becomes the first of the list |
| TimerDebug.Timers.AddTimer | ngx_timerd.c:132-176 | a first add records the owner's footprint; a later one arms again if and only if the footprint is the same, and is refused otherwise |
| TimerDebug.Timers.DelTimer | ngx_timerd.c:179-213 | the timer goes if and only if it is mapped and the footprint is its own; which of the three outcomes it is follows from the registry |
| TimerDebug.Timers.Wrap | ngx_timerd.c:96-122 | the user's handler is called if and only if the owner's footprint is the recorded one; otherwise the node stays mapped and unarmed |
| TimerDebug.Timers.Run | ngx_timerd.c:54-213 | every script, with reentrant handlers and owners that change their footprints, has exactly the log its actions have one after the other, the registry accepts it, and its state is left |
| TimerDebug.Timers.Conserved | ngx_timerd.c:54-93 | allocated nodes are free, mapped or held by a running handler; every armed node is the node mapped from its own event |
| TimerDebug.CallHasItsOwner | ngx_timerd.c:96-122 | over a whole run: when a handler is called, the owner's footprint is the one it had at the add, and the timer was neither deleted nor called since |
| TimerDebug.ExpiryCallsIffOwner | ngx_timerd.c:96-122 | at any place of a script that is reached, inside handlers at any depth included, the expiry of a timer that was added and not settled or refused since calls the user's handler if and only if the owner's footprint is the one it had at that add |
| TimerDebug.AgainIffOwner | ngx_timerd.c:132-213 | at any such place, a timer that was added and not settled since is armed again if and only if the footprint is the one its owner had at that add, and deleted if and only if that footprint is given |
| ChainBuf.Recycler.Get | ngx_rbuf.c:65-128 | a chain of exactly the size that was not out, with an empty buffer, the last one put back if there is one; none exactly when memory for what is missing is not there |
| ChainBuf.Recycler.Put | ngx_rbuf.c:130-169 | the recycler stays sound if and only if the chain was out; then the chain is the first of its size's list |
| ChainBuf.Recycler.Conserved | ngx_rbuf.c:65-169 | every chain is out or on one list, once, of its own size; allocated minus free is the number that is out |
| ChainBuf.ListedPush | ngx_rbuf.c:152-166 | putting a chain back keeps all lists of all sizes threaded and apart |
| ResolverSpec.StepIsSane | ngx_dynamic_resolver.c:237-593 | every step keeps the invariant of all runs: each record is free, let to one name or being deleted; drains are nested; who waits knows whether a drain was in progress when it came |
| ResolverSpec.InitialIsSane | ngx_dynamic_resolver.c:119-148 | the empty resolver has it |
| ResolverTheorems.StepConserves | ngx_dynamic_resolver.c:237-593 | in one step, of the loop, of a caller or of a running callback, a callback is called or waits as often as it was asked for |
| ResolverTheorems.RunConserves | ngx_dynamic_resolver.c:237-593 | over every run, whatever the callbacks do: as often as asked, called or still waiting |
| ResolverTheorems.TableIsSet | ngx_dynamic_resolver.c:341-593 | every step changes the set of lower-cased names at its own name only, and every other name keeps its record |
| ResolverTheorems.WaitsUntilCalled | ngx_dynamic_resolver.c:257-285 | who waits leaves only by being called, the last come first, and with what the loop tells |
| ResolverTheorems.CalledByLastDrain | ngx_dynamic_resolver.c:252-293 | one who came before the last drain of the record to begin is called by that drain, whichever came before it |
| ResolverTheorems.CalledEarlyIff | ngx_dynamic_resolver.c:252-293 | a drain calls one who came after it began if and only if the record was being drained when it came and no drain of the record began since |
| ResolverTheorems.RunCallsEarlyIff | ngx_dynamic_resolver.c:252-293 | the same over every run from the step that asked to the call: early if and only if the record was being drained then and no result or deletion came for it in between |
| ResolverTheorems.CalledByFirstLaterIff | ngx_dynamic_resolver.c:252-293 | main result: over every run from the step that asked to the call, the first result or deletion that came for the record since is the one that calls if and only if it is the only one |
| ResolverTheorems.DividesByZeroIff | ngx_dynamic_resolver.c:289-290 | the loop divides by zero if and only if the drain hands out addresses and its record was let again after it last got any |
| ResolverTheorems.RunDividesByZeroIff | ngx_dynamic_resolver.c:289-290 | the same over every run: if and only if, of the steps that let the record or gave it addresses, the last one let it |
| ResolverTheorems.ReadsBeyondIff | ngx_dynamic_resolver.c:268-275 | the loop reads beyond the addresses it was given if and only if nobody waits and the record has more of them than that; then another result set them after the drain began |
| ResolverTheorems.RunReadsBeyondIff | ngx_dynamic_resolver.c:268-275 | the same over every run: a loop that is through with the last of its addresses reads beyond them if and only if the last step that let the record or gave it addresses left it with more |
| ResolverTheorems.StaleIffLetAgain | ngx_dynamic_resolver.c:237-293 | over every run through which a query is under way: the record it refers to was let again since the query was asked if and only if it was so before the run or some step of the run let it |
| ResolverTheorems.ReachesLaterLettingIff | ngx_dynamic_resolver.c:237-293 | so, from the step that asked on, a result comes for a later letting of the record, to whatever name, if and only if some step in between let it |
| ResolverTheorems.ReachesOtherDomainIff | ngx_dynamic_resolver.c:237-293 | main result: over every run through which a query is under way, its result reaches another name than the one that asked if and only if the record was last let to another name, and that was not deleted since |
| ResolverTheorems.ReachesAskerOrNobody | ngx_dynamic_resolver.c:237-293 | and if no step let the record, the domain that asked is the only name that has it |
| ResolverTheorems.LetAtIs | ngx_dynamic_resolver.c:341-593 | a record is let by exactly the steps that enter a new name while it is the one freed last |
| ResolverAnswers.OneKeyIff | ngx_dynamic_resolver.c:375-376 | two names have one entry in the table if and only if they differ in the case of letters only |
| ResolverAnswers.CaseIsNothing | ngx_dynamic_resolver.c:341-661 | and then every operation does the same for the one as for the other |
| ResolverAnswers.OtherNamesApart | ngx_dynamic_resolver.c:341-661 | names that differ otherwise never share a record |
| ResolverAnswers.RunKeepsKeys | ngx_dynamic_resolver.c:341-593 | in every run the table has lower-case names of at most 128 bytes only, and none when the resolver is closed |
| ResolverAnswers.StartMeans | ngx_dynamic_resolver.c:484-593 | what becomes of a callback: dropped for an empty name, the literal, the answer that gethostbyname gives, told at once that it cannot be, or it waits at its name's record with a query for that record |
| ResolverAnswers.AsksForItsName | ngx_dynamic_resolver.c:484-593 | every query that a step asks is for the record of the step's own name, and every callback that comes waits there |
| ResolverAnswers.HostMeans | ngx_dynamic_resolver.c:595-661 | a literal is its own answer; a name that is unknown or unresolved has none; any other gets one of the cells in use of its record |
| ResolverAnswers.HostIsGivenIff | ngx_dynamic_resolver.c:265-293 | main result: over every run after a result in which the record gets no other and is not let, when all loops over it are through, a name that has it gets for each random number the address that the number means, of the first eight of that result, if and only if no older result that was being handed out had another one still to copy into that place |
| ResolverAnswers.HostIsGiven | ngx_dynamic_resolver.c:265-293 | so with no older result being handed out it is always one of those, and each of them for some number |
| ResolverAnswers.ToldGivenIff | ngx_dynamic_resolver.c:265-285 | over every such run, who is called next is told the address that the loop's index means if and only if that one was copied already or was in the cell before |
| ResolverAnswers.HandsOutInTurn | ngx_dynamic_resolver.c:276-291 | those who wait are told the cells in turn, around, from the random one on, the last come first |
| ResolverAnswers.ToldOfEnd | ngx_dynamic_resolver.c:252-263 | of a failure or a deletion they are told nothing |
| ResolverScripts.RetryIsToldOfOldFailure | ngx_dynamic_resolver.c:252-263 | the failing script: a callback that asks for its failed domain again is called for the old failure while its own query is under way |
| ResolverScripts.RetryForever | ngx_dynamic_resolver.c:252-263 | a callback that always does so is called any number of times within one drain |
| ResolverScripts.NestedDeletionTellsOther | ngx_dynamic_resolver.c:276-291 | the failing script: two wait outside all drains and an address comes; the one that is called first deletes the domain, and the other is told of the deletion |
| ResolverScripts.LetAgainDividesByZero | ngx_dynamic_resolver.c:278-291 | the failing script: a callback that is told an address deletes its domain and asks for another, which gets the record; its return divides by zero |
| ResolverScripts.LetAgainReadsBeyond | ngx_dynamic_resolver.c:268-291 | the failing script: if a result with two addresses comes for the other domain before that, the loop of the first one reads a second address of its own that it was not given |
| ResolverScripts.ResultReachesOtherDomain | ngx_dynamic_resolver.c:237-293 | the failing script: a domain is asked for and deleted, another gets its record, and then the first one's address is answered for the other |
| ResolverScripts.ComesBackToAsker | ngx_dynamic_resolver.c:237-293 | a domain that was deleted and added again meanwhile can have its own record back: let since, and yet the result reaches the name that asked |
| ResolverScripts.TellsEmptyCell | ngx_dynamic_resolver.c:268-285 | the failing script: two addresses come for one who waits, the random number means the second, and it is told an empty cell |
| ResolverScripts.MixesAddresses | ngx_dynamic_resolver.c:265-293 | the failing script: two addresses come while two others are handed out; the domain ends with the first of the new and the second of the old |
| Resolver.Resolver.FindDomain | ngx_dynamic_resolver.c:636-655 | the walk of a bucket finds a record exactly for the names of the table, and the record before it |
| Resolver.Resolver.AddDomain | ngx_dynamic_resolver.c:341-410 | the machine's step: the table gets the lower-cased name unless it is there, is an address, is too long or no record can be had |
| Resolver.Resolver.DelDomain | ngx_dynamic_resolver.c:412-465 | the machine's step, up to the loop: the record leaves its chain wherever it stands, and its drain begins |
| Resolver.Resolver.OnResult | ngx_dynamic_resolver.c:237-277 | the machine's step, up to the loop: the record gets the count and the first address, or none, and its drain begins |
| Resolver.Resolver.Loop | ngx_dynamic_resolver.c:257-285 | the machine's step: the context of the last who came leaves the record and its callback is called, or the loop ends; then the record of a deleted domain is free, or the next address is copied |
| Resolver.Resolver.Returned | ngx_dynamic_resolver.c:286-291 | the machine's step: the context of the callback is free and the next address is chosen |
| Resolver.Resolver.StartResolver | ngx_dynamic_resolver.c:484-593 | the machine's step: the callback waits and a query is asked, or it is called at once, or for an empty name dropped; lost if and only if the first record of the name's bucket is another name's |
| Resolver.Resolver.OnTimer | ngx_dynamic_resolver.c:295-323 | the walk over all buckets and chains asks again for every domain of the table, once, and for nothing when the worker exits |
| Resolver.NewIsLostIff | ngx_dynamic_resolver.c:531-539 | a name that is not in the table is lost if and only if some name of the table has its bucket |
| Resolver.OneOfTwoIsLost | ngx_dynamic_resolver.c:531-539 | of two names of the table in one bucket one is lost |
| Resolver.Resolver.GetHostByName | ngx_dynamic_resolver.c:595-661 | the address of a literal, or the cell of a resolved domain of the table that the random number means, else nothing (`ResolverAnswers.HostMeans` and `HostIsGivenIff` say which) |
| Resolver.Resolver.Conserved | ngx_dynamic_resolver.c:151-234 | allocated records are free, hold one domain each or are being deleted; allocated contexts are free, hold one waiting callback each or belong to a running one |
| Resolver.TableUnlinked | ngx_dynamic_resolver.c:458-465 | taking a record out of its bucket, wherever it stands, keeps every chain and takes its name from the table |
| Resolver.TableFreed | ngx_dynamic_resolver.c:223-234 | a record that is nobody's can be put on the free list |
| Shelves.ShelvesCountBut | ngx_dynamic_resolver.c:151-234 | if every slot is on a list or in hand, the lists and the hand together are as long as the pool is large |
| Reload.Reloader.LoadConf | ngx_dynamic_conf.c:671-807 | the slots are switched if and only if the whole load succeeds; a failure leaves slots, `used` and pools as they were |
| Reload.Reloader.CheckConf | ngx_dynamic_conf.c:809-861 | a check loads exactly a readable content with another digest, and a failed one changes no slot, no digest and no pool |
| Reload.Reloader.ProcessInit | ngx_dynamic_conf.c:863-912 | the first load and its digest |
| Reload.Reloader.GetDconf | ngx_dynamic_conf.c:950-963 | what is served was built from the content last loaded and lives in a pool that was not destroyed |
| Reload.Reloader.Run | ngx_dynamic_conf.c:809-861 | every sequence of checks ends where the account of loads ends, with one slot in use |
| Reload.ServesLatestGood | ngx_dynamic_conf.c:809-861 | when digests tell the contents apart, the content served is the last one that could be read and built |
| Reload.ServesFirstOfLastRun | ngx_dynamic_conf.c:837-841 | after every history the content served is the first of the last run of good contents with one digest; the latest good one is the last of that run |
| Reload.NeverStaleIff | ngx_dynamic_conf.c:837-841 | no history ends with something served that is built differently from the latest good content if and only if no two contents of one digest are built differently |

## Left out

- LocationServer.LocationQueue.Sort: the queue is a sequence held by an object, nested lists are values; the pointer surgery of `ngx_queue_split` and `ngx_queue_add` on shared heads is not modelled, and the sort inserts from the back.
- LocationServer.ServerLocations.InitLocations: allocation failures of queue entries, tree nodes and the regex array are taken as not happening.
- LocationCost.LookupCost: the condition is sufficient; a bound for the other declarations is not given.
- LocationOrder.OrderOfStaticsIrrelevant: moving regexes past each other does change lookups, which is the rule; which ones is not described.
- LocationServer.ServerLocations.FindLocation: the regex engine is any function of pattern and URI; captures are not modelled.
- ConfReader.ConfFile.ReadToken: read errors and files that change size while they are read are left out; the file is a byte sequence of fixed length.
- BlockParser.PrintThenParse: what simple directives do when they are set, and what a block's own code checks before and after its content, are arbitrary functions of the arguments and the content.
- ConfParser.Conf.ParseBlock: one method stands for the blocks `http`, `server` and `location`; which conf structs they create is not modelled.
- NgxMap.Map.Insert: colours and the balance of the tree are not modelled; rotations are arbitrary. When a node with a cleared key meets an equal key on its way down, it is not hung in and the model stops there; nginx goes on to recolour around a node without a parent.
- NgxMap.Map.Find: comparators that return other values than -1, 0 and 1, against `ngx_map.h`, would loop; they are excluded.
- RequestUrl.Request.Parse: which of the early fields a refused URL leaves filled in is stated only for the last two.
- EventTimer.Timers.Run: when a timer is due is the caller's choice of script, so time itself is not modelled; ids out of range are excluded, as the code indexes its array with them unchecked.
- TimerDebug.Timers.GetNode: the allocation is taken as succeeding, as the code uses its result unchecked; file and line of the caller, posted events and the footprint counter are left out.
- ChainBuf.Recycler.Put: what the lists look like after a chain was put twice is not described, only that they are no longer sound.
- Resolver.Resolver.StartResolver: what an undefined pointer leads to is not described; the method says that it was lost and changes nothing.
- Resolver.Resolver.Loop: what the program does after dividing by zero or reading beyond the addresses is not described; the machine stops there, and so does it in callbacks that never return.
- ResolverSpec.StepIsSane: the queries themselves (`ngx_event_resolver.c`) are steps that come when they like; an answer that is there at once is the step after the one that asked. The timer that refreshes all domains is one step for each domain of the table, in the order of the buckets; a refresh whose chain is changed under it by callbacks (304-316) is not followed through the changed links. Addresses are opaque, without priority and weight.
- Reload.Reloader.LoadConf: the pool for temporaries of a load that succeeds is never destroyed; the model keeps count of such pools and does not ask for their release. Module hooks are part of the function that builds a configuration.
- Virtual servers (`ngx_http_dynamic.c:1021-1222`): name lookup is nginx's own hash and regexes.
- The state reports, `ngx_poold.c`, `ngx_event_resolver.c`, `ngx_http_trace_module.c`, the address and port wrappers of `ngx_toolkit_misc.c`: plumbing, or the same free list as in `ChainBuf` with less to it.
