# Verified models of the ctower tooling

This project models the algorithms and protocols inside the tooling of the repository and proves what
they promise. Each module follows one component.

**The absolute-URI recogniser** (`UriGrammar`, `UriScan`, `UriPython`, `UriTypeScript`, with `Strings`,
`UriLemmas`, `UriHosts`, `UriStructure`). The grammar is the one of section 3 and Appendix A of RFC 3986, written as
derivation trees; `AbsoluteUri(s)` says that some tree spells `s` and, for http and https, has a
non-empty host. Both hand-written renderings split at first delimiters, scan percent triplets by index
and count IPv6 groups; both are proved to accept exactly that language. `UriScan` holds what both spell
alike.

**The lossless JSON parser** (`JsonGrammar`, `JsonSpec`, `JsonParser`, `JsonRoundTrip`). The grammar is
sections 2 to 7 of RFC 8259 over UTF-16 code units, as concrete syntax trees and the node each tree
stands for. The parser is a class with one mutable cursor, which can stand one past the end of the text
after a trailing backslash.

**The schema-directed decoder** (`Schemas`, `SchemaCheck`, `Decoder`, `DecoderLoops`, `DecoderDepth`,
`NeverStuck`, `Conformance`, `Mirror`, `Blame`, `Lexemes`, `FreeFormJson`). Schemas are a heap of mappings with identities, as the
generator walks them. The decoder is followed to a depth of nested schema calls: an outcome is data, a
refusal at a place, or unfinished. `rec` is the decoder one level down. `FreeFormJson` puts the Python
client's validator of free-form data beside it. Three modules say without the decoder what it does:
`Conformance` when a node conforms to a schema, and the decoder succeeds exactly then; `Mirror` what data a
decoded node becomes; `Blame` what each refusal claims of the part of the node that its place leads to, and
no refusal claims anything untrue.

**Duplicated members** (`Duplicates`, `LastMemberWins`, `KeepLastWins`, `LastWinsAnswers`,
`RefusalOrder`, `OrderExactly`, with `SchemaWords`). Merging duplicates in place changes nothing.
Dropping all but the last keeps the data and the fact of a refusal where both decodings end. On a closed
set of schemas with plain references every node has such ends exactly when no cycle is made of
references and branches alone; that neither refusal is a fault of the schema asks for scalar exemplars
too. On a cycle one decoding can refuse where the other never ends. Nor does the removal always keep
*which* refusal is given: a map keeps a repeated name in its first place, so for the members a, b, a
the first fault found is a's before the removal and b's after it. For a node whose numbers are finite
and whose arrays are in order, every refusal stays exactly when its kept objects are in order too.

**Runtime replace, rollback and reconcile** (`Runtime`, `RuntimeCrash`, `RuntimeRestore`,
`RuntimeSpelled`, `RuntimeDirectory`). The directory is a map from
names to directories and links. `Runtime` is a machine of single filesystem operations in which a crash
may end any operation anywhere; `RuntimeDirectory` is the verbs as methods of a class whose ghost trail
is proved to be a run of that machine, and `RuntimeSpelled` says name by name what each verb leaves. Three findings: a replace whose retirement rename fails leaves
the built replacement behind (`installation.py:114` is outside the `try`), until a reconcile; the guard
of the discard compares with the current runtime only, so it relies on the current and the previous
runtime never sharing a target; and a reconcile takes no account of retired names, so wherever a crash
falls between the retirement and the moment the predecessor's name is put back, the exception path
included, it removes a predecessor that was a linked replacement. Before the retirement and after an
undo the predecessor stays; from the exchange on it is freed by design. `RuntimeCrash` proves this for
every state of a replace, and `RuntimeRestore` the whole of it: a reconcile puts the directory back
exactly when the current and the previous runtime are still named as they were.

**Owned-process termination** (`OwnedProtocol`, `Observations`, `Sightings`, `OwnedProcesses`). Process
instances have a fixed pid, environment and session; pids are given again after an exit. Before every
step of the cleanup an arbitrary list of exits and starts happens. A record is *faithful* when each pid
it counts belonged to a process that lived meanwhile and was what it is counted as: owned, read or
unreadable, and asked for by the scope or a marker holder.

**Graph algorithms** (`Graphs`, `Names`, `Ownership`, `SchemaOrder`, `Boundary`) and **the
landing-boundary verdict** (`Landing`). Graphs are finite sets of edges between strings; reachability is
a path of at least one edge. What a fact of the verdict must say is stated from the snapshot: a list of checks,
three of each slot and three of each of its verdicts, each with the finding it gives.

**The checkpoint ledger and the tree digest** (`Ledger`, `Checkpoint`, `TreeDigest`). The digest is a
function; where a result needs it to be injective, it says so. The record codec is assumed lawful:
digests are 64 hexadecimal digits, a record that the validators accept is encoded without a line end and
read back as itself, and no other record is read.

Inputs and outputs that cannot be seen are parameters: which filesystem operation fails, where a crash
happens, what other processes do, the clock, `Number(raw)` for non-integer lexemes, pattern and format
checks, the digest and the record codec.

## Model

| member | source | states |
|---|---|---|
| UriPython.IsAbsoluteUri | tools/codegen/_absolute_uri_codegen.py:72-106 | the Python recogniser accepts a string exactly when it derives from the URI production and, for http and https, has a non-empty host |
| UriTypeScript.IsAbsoluteUri | tools/codegen/_absolute_uri_codegen.py:261-300 | the TypeScript recogniser accepts exactly the same strings |
| UriPython.HierPartAccepted | tools/codegen/_absolute_uri_codegen.py:92-106 | cutting at the first slash after `//` accepts exactly the hier-part production, with a host where the scheme needs one |
| UriTypeScript.HierPartAccepted | tools/codegen/_absolute_uri_codegen.py:283-299 | the same for the TypeScript rendering |
| UriScan.ValidUriToken | tools/codegen/_absolute_uri_codegen.py:126-142 | the index scan, the same in both renderings, accepts exactly the strings that are sequences of allowed characters and percent triplets |
| UriScan.CutFragmentAndQuery | tools/codegen/_absolute_uri_codegen.py:80-91 | cut at the first hash and the first question mark, the rest derives exactly when fragment and query are tokens and what remains is a hier-part |
| UriPython.ParseUriAuthority | tools/codegen/_absolute_uri_codegen.py:145-174 | valid with a host exactly when an authority derivation with that host spells the text; the host is unique |
| UriTypeScript.ParseUriAuthority | tools/codegen/_absolute_uri_codegen.py:339-370 | the same for the TypeScript rendering |
| UriPython.ParseHostPort | tools/codegen/_absolute_uri_codegen.py:156-174 | the text after the at sign is a host and optional port of the grammar, bracketed or not, with that host |
| UriTypeScript.ParseHostPort | tools/codegen/_absolute_uri_codegen.py:350-370 | the same for the TypeScript rendering |
| UriPython.ValidIpLiteral | tools/codegen/_absolute_uri_codegen.py:177-188 | accepts exactly IPvFuture and IPv6address between brackets, the length test of four included |
| UriTypeScript.ValidIpLiteral | tools/codegen/_absolute_uri_codegen.py:372-386 | the same for the TypeScript rendering |
| UriPython.ValidIpv6 | tools/codegen/_absolute_uri_codegen.py:191-204 | counting groups accepts exactly the nine IPv6address alternatives |
| UriTypeScript.ValidIpv6 | tools/codegen/_absolute_uri_codegen.py:388-395 | the same for the TypeScript rendering |
| UriScan.Ipv6SideGroups | tools/codegen/_absolute_uri_codegen.py:207-223 | the count, the same in both renderings, is the number of 16-bit groups the side spells, an IPv4 tail counting two and only where allowed, or none |
| UriHosts.CountingIsNineAlternatives | tools/codegen/_absolute_uri_codegen.py:191-223 | eight groups without a double colon, or fewer than eight around one, is equivalent to the nine alternatives of section 3.2.2 of RFC 3986 |
| UriHosts.ValidIpv4IsGrammar | tools/codegen/_absolute_uri_codegen.py:226-233 | four decimal parts up to 255 without leading zeros are exactly the dec-octet grammar |
| UriStructure.AuthorityCut | tools/codegen/_absolute_uri_codegen.py:145-155 | an authority derives exactly when cutting at the only at sign leaves a userinfo and a host with port |
| UriStructure.BracketsCut | tools/codegen/_absolute_uri_codegen.py:156-163 | a bracketed host derives exactly when the first closing bracket ends a literal and a port follows or nothing |
| UriStructure.PortCut | tools/codegen/_absolute_uri_codegen.py:164-174 | an unbracketed host and port derives exactly when cutting at the only colon leaves a registered name and digits |
| UriStructure.SchemeCut | tools/codegen/_absolute_uri_codegen.py:75-79 | a URI derives exactly when the first colon ends a scheme and the rest derives |
| UriGrammar.TableCharacters | tools/codegen/_absolute_uri_codegen.py:26-28 | the character tables, character by character, are those of Appendix A of RFC 3986 |
| UriGrammar.SchemeCharacters | tools/codegen/_absolute_uri_codegen.py:75-79 | the scheme production, and http and https in either case of each letter |
| JsonParser.ParseJsonResponse | tools/codegen/_typescript_json_codegen.py:37-55 | terminates on every text and returns a node exactly when the text is a JSON-text of RFC 8259 standing for that node |
| JsonParser.JsonResponseParser.Parse | tools/codegen/_typescript_json_codegen.py:49-55 | blanks, one value, blanks, and nothing after |
| JsonParser.JsonResponseParser.ParseValue | tools/codegen/_typescript_json_codegen.py:57-67 | consumes exactly the value that the grammar reads at the cursor, or fails where it reads none |
| JsonParser.JsonResponseParser.ParseObject | tools/codegen/_typescript_json_codegen.py:69-90 | the members in order, duplicates kept |
| JsonParser.JsonResponseParser.ParseArray | tools/codegen/_typescript_json_codegen.py:92-106 | the items in order |
| JsonParser.JsonResponseParser.ParseString | tools/codegen/_typescript_json_codegen.py:108-139 | the decoded string of the token at the cursor, with the cursor at most one past the end on failure |
| JsonParser.JsonResponseParser.ScanEscape | tools/codegen/_typescript_json_codegen.py:119-134 | one escape of the grammar, except that after a backslash at the end of input the cursor moves one past it and the scan fails later |
| JsonParser.JsonResponseParser.ParseNumber | tools/codegen/_typescript_json_codegen.py:141-169 | a number node holds the exact lexeme |
| JsonSpec.ReadTextIsGrammar | tools/codegen/_typescript_json_codegen.py:49-194 | reading left to right with one choice at each place gives a node exactly when some derivation of the text stands for it |
| JsonSpec.ReadValueSpells | tools/codegen/_typescript_json_codegen.py:57-169 | what is read is a well-formed tree whose spelling, followed by the rest, is the input |
| JsonSpec.ReadValueIs | tools/codegen/_typescript_json_codegen.py:57-169 | every well-formed tree, followed by a text that cannot continue it, is read back as itself |
| JsonRoundTrip.WrittenTextHasOneNode | tools/codegen/_typescript_json_codegen.py:37-55 | a printed tree, blanks anywhere the grammar allows them, stands for its own node and no other, number lexemes unchanged |
| JsonRoundTrip.PrintedStandsFor | tools/codegen/_typescript_json_codegen.py:14-35 | every node with legal number lexemes is printed by a well-formed tree that stands for it |
| JsonRoundTrip.LegalNodesArePrintable | tools/codegen/_typescript_json_codegen.py:14-35 | a node has some text exactly when all its lexemes are numbers of the grammar |
| Lexemes.SharedRangeIsNumeric | tools/codegen/_typescript_validation_codegen.py:237-242 | for integer lexemes of any length, comparing lengths and then digit strings holds exactly when the value is within 2^53-1 either way, which is the bound of the Python validator |
| Lexemes.SameLengthOrder | tools/codegen/_typescript_validation_codegen.py:241 | on digit strings of one length, string order is numeric order |
| Lexemes.LongerIsLarger | tools/codegen/_typescript_validation_codegen.py:241 | a longer digit string without a leading zero is the larger number |
| Lexemes.PrintedReads | tools/codegen/_typescript_validation_codegen.py:219-228 | the token printed for an integer, shortest digits and a minus sign when negative, denotes that integer |
| Lexemes.TokenIsPrinted | tools/codegen/_typescript_validation_codegen.py:219-228 | every integer token but -0 is the one printed for what it denotes, and -0 denotes zero |
| Lexemes.TokenIsNumber | tools/codegen/_typescript_validation_codegen.py:219-228 | the integer tokens are exactly the numbers of RFC 8259 without fraction and exponent |
| SchemaCheck.MaterializableWalk.RequireMaterializable | tools/codegen/_typescript_validation_codegen.py:412-427 | the walk terminates on every heap and accepts exactly when the response models lie in some set of schemas closed under what decoding visits and each locally materializable; its marked set is then one |
| SchemaCheck.MaterializableWalk.VisitSchema | tools/codegen/_typescript_validation_codegen.py:430-467 | acceptance settles everything newly marked; rejection means no closed set holds the value |
| SchemaCheck.MaterializableWalk.VisitReference | tools/codegen/_typescript_validation_codegen.py:470-479 | the last part of the reference names a schema that is settled |
| SchemaCheck.MaterializableWalk.VisitBranches | tools/codegen/_typescript_validation_codegen.py:482-489 | every branch is settled |
| SchemaCheck.MaterializableWalk.VisitTypes | tools/codegen/_typescript_validation_codegen.py:447-453 | a missing type has an exemplar, and every declared type is settled |
| SchemaCheck.MaterializableWalk.VisitKind | tools/codegen/_typescript_validation_codegen.py:497-513 | a scalar type, or array items or object members that are settled |
| SchemaCheck.MaterializableWalk.VisitObject | tools/codegen/_typescript_validation_codegen.py:516-532 | all properties are settled, and additional members are free-form, forbidden or settled |
| DecoderLoops.DecodeSchema | tools/codegen/_typescript_validation_codegen.py:101-120 | the decoder's branches in order yield the specified outcome at every depth |
| DecoderLoops.DecodeOneOf | tools/codegen/_typescript_validation_codegen.py:122-137 | the loop over branches succeeds exactly when one branch does, swallowing refusals of every kind |
| DecoderLoops.DecodeTypeUnion | tools/codegen/_typescript_validation_codegen.py:139-154 | the first string type that does not refuse decides |
| DecoderLoops.DecodeTyped | tools/codegen/_typescript_validation_codegen.py:177-191 | one reading per type, and a schema fault for any other type |
| DecoderLoops.DecodeArray | tools/codegen/_typescript_validation_codegen.py:251-264 | data is a list of the same length whose item at each index is the node's item there, decoded; otherwise the outcome is one of four refusals of the array itself or that of the first item not decoded |
| DecoderLoops.DecodeObject | tools/codegen/_typescript_validation_codegen.py:266-305 | required members, then each kept member at its property or as an additional one, into a record |
| DecoderLoops.LastMembers | tools/codegen/_typescript_validation_codegen.py:273-274 | the map keeps one member per name, in the place of the first and with the value of the last |
| DecoderLoops.DecodeUntyped | tools/codegen/_free_form_json_codegen.py:139-161 | free-form data recursively, integers by lexeme and other numbers by value |
| FreeFormJson.ValidateFreeFormJson | generated/python/ctower_client/models.py:610-631 | the Python validator accepts exactly the values whose integers, at any depth, are in the shared range and whose floats are finite |
| FreeFormJson.ClientsAgree | generated/python/ctower_client/models.py:610-638 | on every node that some JSON text stands for, the TypeScript decoder answers with data exactly when the Python validator accepts the loaded value, and then with the same data |
| DecoderDepth.MoreDepthSameOutcome | tools/codegen/_typescript_validation_codegen.py:95-305 | once the decoder answers at some depth of nested calls, every greater depth gives the same answer |
| NeverStuck.ClosedAnswersExactly | tools/codegen/_typescript_validation_codegen.py:101-191 | on a closed set with plain component references, every node is answered at every schema, and never with a fault of the schema, if and only if exemplars are scalars and no cycle is made of references and branches alone |
| NeverStuck.AcceptedModelsAnswer | tools/codegen/_typescript_validation_codegen.py:412-427 | what acceptance gives the response models under those conditions |
| NeverStuck.LevelSafe | tools/codegen/_typescript_validation_codegen.py:101-120 | one level of the decoder is safe when nested calls are safe on lower nodes and, through references and branches, on this node |
| NeverStuck.CycleNeverEnds | tools/codegen/_typescript_validation_codegen.py:103-108 | on a cycle of references and branches no depth suffices, whatever the node |
| NeverStuck.ClosedEndsExactly | tools/codegen/_typescript_validation_codegen.py:101-191 | on a closed set with plain component references, decoding every node at every schema ends if and only if no cycle is made of references and branches alone |
| NeverStuck.UntypedSafe | tools/codegen/_free_form_json_codegen.py:139-161 | free-form decoding always answers, and never with a fault of the schema |
| Conformance.DecodingIsConformance | tools/codegen/_typescript_validation_codegen.py:101-305 | for every conformance, that is every reading of the schemas by their own rules (exactly one branch, each required member, the last member of each name at its property or as an additional one, the first kind that fits, bounds, pattern, format, const and enum): on closed schemas with plain references and without cycles of references and branches, decoding any node ends, and with data exactly if the node conforms |
| Mirror.DecodedMirrors | tools/codegen/_typescript_validation_codegen.py:101-305 | whatever schema decodes a node, at whatever depth: null, booleans and strings are themselves, a number is its exact integer or its floating-point value, an array is mirrored item by item, and an object has exactly one field for each member name, mirroring the last member of that name |
| Blame.RefusalsAreTrue | tools/codegen/_typescript_validation_codegen.py:101-305 | every refusal, under any schema at any depth: its place leads through items and last members to a part of the node, and some schema of the program finds exactly that fault in it (too few items and not too many, the first required name missing, no kind of the list fits, not exactly one branch, and so on) |
| Conformance.OneConformance | tools/codegen/_typescript_validation_codegen.py:101-305 | there is such a conformance, and any two are the same at every schema and node |
| Conformance.LevelMatches | tools/codegen/_typescript_validation_codegen.py:101-120 | one level: where nested calls accept what conforms, this level ends and succeeds exactly on what conforms |
| Conformance.UntypedMatches | tools/codegen/_free_form_json_codegen.py:139-161 | free-form decoding succeeds exactly when kept integers are in the shared range and other kept numbers finite |
| Duplicates.KeptSelects | tools/codegen/_typescript_validation_codegen.py:273-274 | setting members one after another keeps exactly one index per name, the last member of it |
| LastMemberWins.MergedSame | tools/codegen/_typescript_validation_codegen.py:266-305 | merging duplicates in place at every depth gives the same data or the same refusal at the same place, through every kind of schema |
| KeepLastWins.KeepLastAgrees | tools/codegen/_typescript_validation_codegen.py:266-305 | dropping all but the last of each duplicated member, wherever it stands in the node: at every depth at which both decodings end they give the same data or both refuse |
| LastWinsAnswers.SameEndsExactly | tools/codegen/_typescript_validation_codegen.py:101-305 | on a closed set with plain references, from some depth on both decodings of every node end, with the same data or two refusals, if and only if no cycle is made of references and branches alone |
| LastWinsAnswers.SameAnswersExactly | tools/codegen/_typescript_validation_codegen.py:101-305 | and neither refusal is a fault of the schema if and only if, besides, exemplars are scalars |
| LastWinsAnswers.LoopTellsOrders | tools/codegen/_typescript_validation_codegen.py:273-303 | with members a, b, a, where a is wrong and b on a reference that leads to itself, the decoder refuses a at every depth from two on, and without the first a it never ends, though the schemas are a closed set |
| KeepLastWins.UntypedAgrees | tools/codegen/_free_form_json_codegen.py:149-160 | the same for free-form data |
| RefusalOrder.SameRefusalsExactly | tools/codegen/_typescript_validation_codegen.py:273-303 | for all objects with given names, and members whose own objects are in order, the removal keeps every outcome, refusals included, exactly when the last members stand in the order in which the names first appear |
| RefusalOrder.RefusalsCanDiffer | tools/codegen/_typescript_validation_codegen.py:284-296 | the members a, b, a show that the refusal given first can change |
| RefusalOrder.InOrderSame | tools/codegen/_typescript_validation_codegen.py:273-303 | on any node whose kept objects are in that order at every depth the removal changes nothing |
| RefusalOrder.InOrderMerges | tools/codegen/_typescript_validation_codegen.py:273-274 | a node is in that order, where a map keeps its objects, exactly when dropping and merging its duplicates give the same node |
| OrderExactly.SameOutcomesExactly | tools/codegen/_typescript_validation_codegen.py:273-303 | for one node with its own values, its kept numbers finite and its arrays in order: the removal keeps every outcome under every schema, refusals and their places included, if and only if its kept objects are in order |
| OrderExactly.ProbeRefuses | tools/codegen/_typescript_validation_codegen.py:284-296 | the schema that shows it: along a way of member names everything else is accepted, and at its end the first kept member with one of two names is refused, at its place |
| Runtime.EveryStateSound | tools/development_runtime/installation.py:93-127 | from a completed install, after every step of every run of replaces, rollbacks and sweeps with crashes anywhere, the current runtime is complete and the previous one, when present, is a different complete one |
| Runtime.BuildKeeps | tools/development_runtime/installation.py:145-162 | building or unbuilding a fresh replacement keeps the invariant |
| Runtime.SwitchKeeps | tools/development_runtime/installation.py:112-117 | retiring, linking and exchanging keep it |
| Runtime.UndoKeeps | tools/development_runtime/installation.py:118-125 | every step of the exception path keeps it |
| Runtime.DiscardKeeps | tools/development_runtime/installation.py:196-220 | unlinking and removing the retired runtime, part by part, keep it |
| Runtime.SweepKeeps | tools/development_runtime/reconcile.py:36-41 | removing orphans one after another keeps it |
| Runtime.GuardAloneLosesThePredecessor | tools/development_runtime/installation.py:212-216 | were the retired link to lead where the previous one does, the discard's guard would pass and the predecessor would be lost |
| Runtime.RollbacksCancel | tools/development_runtime/installation.py:76-84 | in a sound directory both rollbacks find their runtimes installed and the second undoes the first |
| Runtime.ReplacedIsSound | tools/development_runtime/installation.py:110-127 | a completed replace is sound, makes the old current the predecessor and frees the older one |
| Runtime.SweepIsIdempotent | tools/development_runtime/reconcile.py:36-56 | a sweep removes no referenced replacement, keeps soundness, and leaves nothing for a second sweep |
| Runtime.RetireFailureIsSwept | tools/development_runtime/installation.py:111-114 | the replacement that a failed retirement leaves behind is the only orphan, and a sweep restores the directory |
| RuntimeCrash.SweepAfterCrashLosesThePredecessor | tools/development_runtime/reconcile.py:47-56 | from every sound directory whose predecessor is a linked replacement, a run retires it and crashes, and a sweep then removes the predecessor's complete directory |
| RuntimeCrash.CrashThenSweepKeepsExactly | tools/development_runtime/installation.py:112-127 | over every state of one replace, a crash there followed by a sweep keeps the predecessor's directory if and only if nothing has been retired yet, or it has been put back, and the current runtime is still the one of the start |
| RuntimeRestore.SweepRestoresExactly | tools/development_runtime/reconcile.py:25-56 | over every state of one replace of a sound and tidy directory, half-built and half-removed replacements included: stopped there, a sweep makes the directory what it was if and only if the current and the previous runtime are named as they were |
| RuntimeRestore.SweepRestoresBeforeRetirement | tools/development_runtime/installation.py:110-127 | with a predecessor of either kind, that is exactly before the retirement, or with the operation over and the current runtime still the one of the start |
| RuntimeCrash.CrashAfterRetiring | tools/development_runtime/installation.py:110-114 | that crashed directory is the end of a run: a complete replacement, the predecessor's link under its retired name, and no predecessor's name |
| Runtime.TwoRuntimesAtMost | tools/development_runtime/installation.py:93-127 | over every run of completed operations the directory holds at most two runtimes |
| RuntimeDirectory.Directory.ReplaceRuntime | tools/development_runtime/installation.py:93-127 | without a failing operation a replace of a sound directory succeeds: the current name links to a complete new directory, the previous name is what the current one was, what the previous one linked to is gone, and nothing else changes; each failure is reported exactly when its operation fails, and failing to build, link or exchange leaves the directory as it was, failing to retire leaves the replacement behind; every state in between is on the machine's run |
| RuntimeDirectory.Directory.CreateRuntime | tools/development_runtime/installation.py:145-162 | a complete replacement, or the directory as it was |
| RuntimeDirectory.Directory.Undo | tools/development_runtime/installation.py:118-125 | the exception path restores the directory before |
| RuntimeDirectory.Directory.Discard | tools/development_runtime/installation.py:196-220 | from a sound directory the guard never refuses and the older runtime is gone |
| RuntimeDirectory.Directory.RetirePrevious | tools/development_runtime/installation.py:175-193 | the predecessor is set aside under the fresh name, links included, and its name is free |
| RuntimeDirectory.Directory.RollbackRuntime | tools/development_runtime/installation.py:76-84 | exchanges the two entries and changes nothing else, exactly when from both names sibling links lead to a directory with a manifest and an environment |
| RuntimeSpelled.InstalledLeads | tools/development_runtime/installation.py:76-84 | following links at most as often as there are names finds a runtime exactly when some chain of links, of any length, leads to one |
| RuntimeDirectory.Directory.ReconcileRuntime | tools/development_runtime/reconcile.py:25-56 | removes exactly the replacement directories to which neither the current nor the previous name is a link, and changes nothing else |
| OwnedProtocol.OnlyOwnedSignalled | tools/checks/owned_processes.py:253-276 | under every interleaving of exits, starts and pid reuse with open, re-read, signal, a signal reaches only instances whose environment holds the marker |
| OwnedProtocol.ReadingFirstIsUnsafe | tools/checks/owned_processes.py:260-271 | with the environment read before the descriptor is opened, a run signals a process without the marker |
| Observations.SignalRefinement | tools/checks/owned_processes.py:109-119 | in the signalling loop the refined record still accounts for every scanned entry, moves exactly the unreadable pids, and is unknown |
| Observations.RefinementAccounts | tools/checks/owned_processes.py:109-119 | scanned stays readable plus unreadable exactly when no more entries become unreadable than were readable |
| Observations.FewerOwned | tools/checks/owned_processes.py:111-118 | taking distinct owned pids out of the owned ones leaves as many fewer |
| OwnedProcesses.ProcessTable.SignalOne | tools/checks/owned_processes.py:259-275 | whatever happens in between, only a marker holder is signalled, a readable one that lives through the call is, and a process that lives through it is reported unreadable exactly when it is |
| OwnedProcesses.ProcessTable.SignalOwned | tools/checks/owned_processes.py:253-276 | the same for a list of pids: of the processes that live through the call exactly the unreadable ones are reported, and every pid reported was borne by an unreadable process meanwhile |
| OwnedProcesses.ProcessTable.Observe | tools/checks/owned_processes.py:279-319 | the record is faithful: each owned, readable and unreadable entry was such a process, in scope or a marker holder; and complete: no process that lives through the pass escapes its list |
| OwnedProcesses.ProcessTable.IsCandidate | tools/checks/owned_processes.py:332-351 | a live pid is a candidate exactly when the scope covers its process, and a candidate is asked for by the scope |
| OwnedProcesses.ProcessTable.SignalUntilAbsent | tools/checks/owned_processes.py:220-250 | terminates with a faithful record, in as many rounds as sleeps of 0.02 seconds fit into the grace, which it waits out in full while owned processes remain; absence means that no process there at the start still lives with the marker, and otherwise, unless something is unknown, every marker holder alive from start to end was sent the signal |
| OwnedProcesses.ProcessTable.Terminate | tools/checks/owned_processes.py:164-207 | graceful and killed mean that absence; unknown and survived come with a faithful record of somebody unreadable or holding the marker; survived means that every marker holder alive from start to end was sent both signals; kills are sent only after the first grace, and after every holder there from the start and still alive was sent a termination; survival takes both graces in full; and only marker holders are ever signalled |
| Ownership.ValidateOwnershipGraph | tools/checks/_impl/config.py:135-157 | spelled over the rules: accepts exactly when names differ pairwise, every listed dependency is the name of a rule, and no walk over the rules returns into itself; unknown are exactly the listed dependencies that name no rule; a cycle report lists in order exactly the names from which such a walk starts; each round removes exactly the owners whose dependencies have all gone, and somebody every time |
| Ownership.StuckReachesCycle | tools/checks/_impl/config.py:148-157 | what remains when no owner is ready is exactly the owners on or leading into a cycle |
| SchemaOrder.Order | tools/codegen/_model_codegen.py:196-206 | terminates on every reference graph, returns each schema once, round by round all that are ready in order of their names or else the least remaining name, puts every schema that reaches no cycle after all it references, and is topological exactly when the graph is acyclic |
| SchemaOrder.TopologicalIffAcyclic | tools/codegen/_model_codegen.py:200-206 | an order that settles every schema off the cycles is topological exactly when there are none |
| Graphs.EndlessReachesCycle | tools/checks/_impl/config.py:149-152 | in a finite set where every node has a successor, every node leads into a cycle inside the set |
| Graphs.RanksOf | tools/codegen/_model_codegen.py:200-206 | an acyclic graph can be ranked so that every edge descends |
| Names.Sort | tools/checks/_impl/config.py:151 | the names once each, in string order |
| Names.BeforeIsPrecedes | tools/checks/_impl/config.py:151 | string order: a proper prefix comes first, and otherwise the smaller character at the first difference |
| Boundary.Ancestors | tools/landing_boundary/boundary.py:33-45 | terminates on cyclic graphs too and returns exactly the stages other than the target with a path to it |
| Boundary.LandingBoundaryPredecessors | tools/landing_boundary/boundary.py:17-30 | those of the declared stages, each at its place and in that order, or none exactly when the boundary is undeclared or unreachable from the initial stage |
| Landing.Evaluate | tools/landing_boundary/interface.py:47-79 | passes exactly when the change may land and has no refusal; each of the nine reasons of its own is the only refusal exactly where its fault is the first; with a usable graph there is one fact for each predecessor in declared order, whose status, refusal string and findings are fixed by the recorded slots, and the refusals are those of the facts, in order; too large exactly beyond 256 predecessors |
| Landing.ResolveChange | tools/landing_boundary/interface.py:90-103 | the candidate, or each of four refusals exactly where its fault is the first |
| Landing.ResolvePredecessors | tools/landing_boundary/interface.py:106-121 | the predecessors of a graph that parses, has its digest and declares a reachable boundary, and otherwise the refusal that names the first of these faults |
| Landing.StageFactsOf | tools/landing_boundary/interface.py:124-136 | one fact per predecessor, unresolved where nothing is recorded |
| Landing.StageFactOf | tools/landing_boundary/facts.py:22-34 | unknown exactly for an unresolved record or a slot with something unknown, failed for one with something wrong and nothing unknown, flagged when only tiers fall short and then refused as flagged, otherwise as missing; the findings are those of all checks in order |
| Landing.SlotFindingsOf | tools/landing_boundary/facts.py:48-61 | the findings of the slot's checks, in order; none exactly when the slot is met |
| Landing.StageStatus | tools/landing_boundary/report.py:165-178 | the four dispositions and the two refusal strings, each exactly when the slots say so |
| Landing.SlotFold | tools/landing_boundary/facts.py:48-99 | the findings of a slot are those of its checks one after another, and there is none exactly when it is filled, current, bound to the candidate, not self-reported, and every verdict is met |
| Landing.GreenIsMet | tools/landing_boundary/interface.py:139-155 | no refusal among the facts exactly when every declared stage with a path to the boundary is met |
| Ledger.ReadRecords | tools/development_runtime/checkpoint_ledger.py:110-128 | accepts exactly when the bytes are lines that end with a line feed, with no other line end inside, each a record that binds the digest of all bytes before it, and returns those records in order |
| Ledger.ValidSpelled | tools/development_runtime/checkpoint_ledger.py:28-70 | what the validators accept, character by character |
| Ledger.ReadIsChained | tools/development_runtime/checkpoint_ledger.py:119-128 | the running digest checks exactly that chain |
| Ledger.LastLineFixesTheLedger | tools/development_runtime/checkpoint_ledger.py:88-93 | with an injective digest two accepted ledgers with the same last line are the same bytes |
| Ledger.WrittenReads | tools/development_runtime/checkpoint_ledger.py:131-146 | what was appended is read back in order |
| Ledger.TornIsRefused | tools/development_runtime/checkpoint_ledger.py:149-153 | a torn last line makes the whole ledger refused |
| Checkpoint.EveryRunKeeps | tools/development_runtime/checkpoint.py:92-119 | at every crash point of every run of creations the ledger reads as exactly the appended records or is refused, every record has its artifact with the recorded digest and size, and no retained artifact changes |
| Checkpoint.TornStaysAsItIs | tools/development_runtime/checkpoint.py:336-338 | a torn ledger is never extended |
| Checkpoint.StepKeeps | tools/development_runtime/checkpoint.py:322-338 | one creation, however far it gets, keeps the store consistent and only adds |
| Checkpoint.CheckpointStore.CreateCheckpoint | tools/development_runtime/checkpoint.py:92-119 | stopped anywhere it has made one step of a creation, exactly as far as it got; a readable ledger, a valid record and a fresh directory make it complete, and the record created is the stamp and the artifact's digest as its id, the prefixed digest and the size of the capture, and the prefixed digest of the ledger before, appended as one line; each refusal names its fault, and under a proper stamp a record is invalid only for an empty capture |
| Checkpoint.CheckpointStore.RetainAndRecord | tools/development_runtime/checkpoint.py:330-333 | refused exactly when the directory exists; otherwise the artifact is retained before its line is written; what a crash leaves, at each point of it, and without a crash both |
| Checkpoint.CheckpointStore.DigestFile | tools/development_runtime/checkpoint.py:341-348 | the digest and size of the whole file, chunk by chunk |
| Checkpoint.CheckpointStore.SelectCheckpoint | tools/development_runtime/checkpoint.py:164-205 | the first record with the id decides: missing or mismatched artifact, or selected, by digest and size; in a consistent store those checks never fail, and a record is found exactly when the ledger is whole and holds the id |
| TreeDigest.FedOnce | tools/runtime_manifest/interface.py:190-199 | two listings with lengths below 2^64 that feed the same bytes are equal |
| TreeDigest.DigestFixesTheTree | tools/runtime_manifest/interface.py:190-199 | with an injective digest, equal tree digests mean equal listings |
| TreeDigest.DigestTree | tools/runtime_manifest/interface.py:190-199 | the digest of bytes in which each path and then its content, file by file, stands behind its length in eight big-endian bytes, or an overflow exactly when a length is 2^64 or more |

## Left out

- JsonParser.ParseJsonResponse: the reason and offset of a refusal are not modelled, nor is running out of stack on deep nesting.
- JsonGrammar: blanks are written around the structural characters, so each text has one place for every blank; the language is the same.
- DecoderLoops.DecodeSchema: a call that never returns is an outcome unfinished at every depth; recursion through arrays and objects is bounded by the node, so only references and branches can be endless.
- Decoder: pattern and format checks and the value of a lexeme that is not an integer are parameters; a field named `__proto__` in a schema, and the order of a result's fields, are not modelled.
- SchemaCheck.MaterializableWalk.RequireMaterializable: which error is raised, and in which order siblings are visited, are not modelled.
- RefusalOrder.SameRefusalsExactly: it speaks of all values under given names; node by node OrderExactly.SameOutcomesExactly does.
- OrderExactly.SameOutcomesExactly: for disorder inside an array, and beside a number that is not finite, only its half RefusalOrder.InOrderSame is proved; an item or member before can then keep every schema from reaching the difference.
- Conformance.DecodingIsConformance: on a cycle of references and branches nothing is said.
- Mirror.DecodedMirrors: whether a number becomes its exact integer or its floating-point value depends on the schema; for `const` and `enum` Conformance fixes it.
- Blame.RefusalsAreTrue: it names a fault that is there; which of several faults is found first is the subject of RefusalOrder and OrderExactly.
- FreeFormJson.ClientsAgree: how the Python client loads a text is not part of this model beyond the value it yields, nor are values that no JSON text yields.
- Runtime.EveryStateSound: a link out of the directory counts as leading nowhere; fresh names are assumed fresh; a half-copied file counts as absent.
- RuntimeDirectory.Directory.ReplaceRuntime: a failure inside the exception path or the discard is one of the machine's crashes and not a result of its own.
- RuntimeDirectory.Directory.ReconcileRuntime: the removed names are a set; their sorted order and a missing parent directory are not modelled.
- OwnedProcesses.ProcessTable.Terminate: a process started while the cleanup runs, from an owned one, is seen only by a later pass; readability is fixed per process and an unexpected error of the system calls is not modelled.
- OwnedProcesses.ProcessTable.SignalUntilAbsent: the clock advances by the sleeps only.
- Ownership.ValidateOwnershipGraph: the unknown dependencies are reported as a set.
- SchemaOrder.Order: the references of each schema are an input; collecting them from nested mappings is not modelled.
- Landing.Evaluate: the ticket, project and boundary copied into the report are not modelled, nor is rendering.
- Checkpoint.CheckpointStore.CreateCheckpoint: permissions, the database dump, encryption and the fields of a record that neither the ledger nor the artifact depends on.
- TreeDigest.DigestTree: listing and sorting the files of a tree is an input.
- The parsed workflow graph is a list of stages, an initial stage and transitions between declared stages; its parser is not part of this model.
- HTTP client generation, operation registries, the Pydantic models, policy file loading, report rendering, the RFC 3339 validator and the upgrade rehearsal are templates, single checks, or effects of programs that cannot be seen.
