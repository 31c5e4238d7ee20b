# A verified model of headscale-rs

The project models two cores of headscale-rs and a few of its kernels, and proves what they do.

**The policy text pipeline** (`headscale-api-acl`). A policy is HuJSON: JSON with comments and
trailing commas. The model has one concrete syntax (`Syntax.dfy`), printed forms that keep every
byte, and a reader proved to be the exact inverse of printing (`Reader.dfy`). The hand-written
machines of the source are imperative Dafny over that syntax: the task stack that standardizes a
text in place, the arena that a policy is parsed into and packed from, the byte cursor and its
frame stack, the byte-at-a-time scanner, the assembly of values, and the loops that compact and
indent JSON. Each is proved against a recursive definition.

**The policy evaluator** (`headscale-api-acl/src/lib.rs`). Via steering with its election across
peers, searches over cyclic group graphs, the walk over tag owner chains, and the compilation of
access lists with several destinations into one rule for each.

**Kernels.** The replay store of signed requests over whole runs, the signing messages, Go
durations, exact decoding of 64-bit fields from JSON numbers, IP address text, and URL queries.

Failures are modelled as `None` or as a refused result: the text of error messages, and which of
several errors is reported first, are not part of the model. Bytes are `0..255`, texts are
sequences of bytes (in the evaluator, `string`), and 64-bit limits, wrap-around and saturation are
written out. Functions that belong to other libraries are parameters, with what is needed of them
stated as a predicate: floating-point scaling of a fraction (`Durations.Exact`), the strict string
decoder (`PolicyValue.Agrees`), trimming of white space (`AclSplit.Trims`). The clock is an
argument of each call.

How the proofs are built: a machine that works through a text with a stack has a function that
says what the rest of the text and the stack still stand for (`HuJson.Meaning`, `Prepare.Built`,
`Pack.Emitted`, `Cursors.Closing`, `JsonScanner.Accepts`, `PolicyValueLoop.Outcome`); every step
leaves it unchanged, and the end of the run reads the result off.

## Where the code does not do what one might expect

- Via steering guarantees at most one carrier for a route, not one carrier: elections that disagree
  leave a route with none (`SplitElection`; `CarrierExists` gives the exact condition), and peers
  left out of the candidates are never stood down (`MissingCandidates`).
- The replay store relies on the clock: a clock that goes back past an expiry it had reached lets
  the same request in again (`ClockBack`; `RepeatExact` gives the exact condition, and `ReplayExact`
  that of a refusal as a replay).
- The duration reader adds in 64 bits before it compares with the limit: two items of 2^63
  nanoseconds are read as zero (`WrapsToZero`; `SumMeaning` says what a list of items is read as, and
  `SumIsValue` that it is their sum exactly when the sum is within the limit).
- The 64-bit field decoder refuses some numbers that are in range when their integer part is zero:
  the exponent must then be at most 20 (`WideOneRefused`; `FieldExact` is the exact statement). It
  accepts texts that are no numbers, such as `12,x` or, from a body, `1e`: it reads the number a text
  starts with (`FieldText` says which texts, and as what).
- An encoded query is read back as the same map exactly when it is empty, or every key has a value
  and the pairs are within the limit (`Queries.RoundTrip`). A map that was read from a query always
  is (`Queries.Reparsed`).

## Model

| member | source | states |
|---|---|---|
| `Reader.ReadDocumentExact` | headscale-api-acl/src/go_hujson.rs:151-265 | a text is read as a document exactly when it is the printed form of a well-formed tree, and then as that tree; so the grammar is unambiguous, for JSON and for HuJSON |
| `HuJson.Parser.Extra` | headscale-api-acl/src/go_hujson.rs:71-102 | white space and comments are consumed exactly as the grammar delimits them, comments blanked in the output, everything else untouched |
| `HuJson.Parser.BlankOutput` | headscale-api-acl/src/go_hujson.rs:71-102 | a comment's bytes become spaces, its line breaks and other white space stay |
| `HuJson.Parser.Literal` | headscale-api-acl/src/go_hujson.rs:104-149 | a scalar is accepted exactly when the grammar has one at this position, and then by its width |
| `HuJson.StepValue` | headscale-api-acl/src/go_hujson.rs:158-180 | taking a value task leaves what the stack and the rest of the text stand for unchanged, or there is no document |
| `HuJson.StepNext` | headscale-api-acl/src/go_hujson.rs:187-198 | the same where an item, a closing bracket or a trailing comma is due |
| `HuJson.StepColon` | headscale-api-acl/src/go_hujson.rs:199-211 | the same where a colon is due |
| `HuJson.StepAfter` | headscale-api-acl/src/go_hujson.rs:212-245 | the same after an item, where a comma or the end is due |
| `HuJson.Standardize` | headscale-api-acl/src/go_hujson.rs:151-265 | the task-stack loop ends and returns the standardized text of the document, or nothing if there is none |
| `PolicyText.StandardizedCorrect` | headscale-api-acl/src/go_hujson.rs:151-265 | exactly the HuJSON documents are accepted; the result is a JSON document with the same tree, of the same length, equal to the input except that comment bytes and trailing commas are spaces |
| `Standard.StandardMasks` | headscale-api-acl/src/go_hujson.rs:71-102 | byte by byte: the standardized text differs from the input only under the marks of comments and trailing commas |
| `Prepare.BuildArena` | headscale-api-acl/src/go_hujson.rs:319-465 | the parsing loop fills the arena with exactly the layout of the document's tree: spans, children in order, and who owns each extra |
| `Pack.Print` | headscale-api-acl/src/go_hujson.rs:467-549 | the printing loop emits the recursive text of the root slot, with each task stack standing for what it will still emit; it can fail only on a name that does not decode |
| `Packing.NodeNamed` | headscale-api-acl/src/go_hujson.rs:490-495 | in the arena of a document every member's name decodes, so printing does not fail |
| `Pack.Keep` | headscale-api-acl/src/go_hujson.rs:486-503 | each name is decoded, and the first that does not decode ends the pass; otherwise the members kept are those whose decoded name does not start with `#`, and stripping stops below `app` |
| `Packing.NodePacked` | headscale-api-acl/src/go_hujson.rs:467-549 | the recursive text of a slot is the printed form of the packed tree it stands for |
| `Metadata.PackNodePlain` | headscale-api-acl/src/lib.rs:881-899 | the packed tree is plain JSON, and its member lists are what the recursive stripper leaves |
| `PolicyText.PrepareMetadata` | headscale-api-acl/src/go_hujson.rs:270-549 | the whole pass returns the printed packed tree of the document, or nothing if there is none |
| `PolicyText.PreparedCorrect` | headscale-api-acl/src/go_hujson.rs:270-549 | exactly the HuJSON documents are accepted; the result is a JSON document whose tree is the input's with every member named `#...` removed at every depth, except below a member named `app` |
| `PolicyValue.StripCommutes` | headscale-api-acl/src/lib.rs:881-899 | stripping member lists and then building the value is building the value and then stripping its maps, with repeated names too, if every name is a string token and the decoder agrees with the stripper's on string tokens |
| `PolicyMeaning.PreparedValue` | headscale-api-acl/src/lib.rs:881-899 | whatever value the standardized text has, the prepared text has that value with its metadata members stripped, if the mode's decoder agrees with the stripper's on the string tokens it accepts |
| `StripHuJson.StripHuJson` | headscale-api-acl/src/lib.rs:2430-2520 | the two passes together compute the stripped text |
| `StripHuJson.BlankComments` | headscale-api-acl/src/lib.rs:2431-2487 | the first pass blanks comments outside strings and keeps an unterminated one |
| `StripHuJson.BlankCommas` | headscale-api-acl/src/lib.rs:2490-2519 | the second pass blanks the commas that only white space separates from a closing bracket |
| `StripAgrees.StrippersAgree` | headscale-api-acl/src/lib.rs:2430-2520 | on every text the standardizer accepts, both strippers give texts of one length that agree at every byte, up to one white space byte for another |
| `Cursors.Cursor.Space` | headscale-api-acl/src/go_json.rs:102-106 | the cursor moves past exactly the white space |
| `Cursors.Cursor.Take` | headscale-api-acl/src/go_json.rs:107-113 | one expected byte is consumed, or the cursor stays |
| `Cursors.Cursor.Done` | headscale-api-acl/src/go_json.rs:114-121 | only white space is left |
| `Cursors.Cursor.Quoted` | headscale-api-acl/src/go_json.rs:122-151 | a string token is read exactly when the grammar has one here |
| `Cursors.Cursor.Number` | headscale-api-acl/src/go_json.rs:163-184 | a number token is read exactly when the grammar has one here, as far as it goes |
| `Cursors.Cursor.Token` | headscale-api-acl/src/go_json.rs:221-228 | a scalar token is read exactly when the grammar has one here |
| `Cursors.WalkFrame` | headscale-api-acl/src/go_json.rs:232-287 | one step of the frame machine leaves what remains after all open containers unchanged, or there is no value |
| `Cursors.ValueWithDepth` | headscale-api-acl/src/go_json.rs:201-291 | the frame machine reads exactly the value the grammar derives at the cursor, within the nesting limit, and stops right after it |
| `JsonText.PrefixSound` | headscale-api-acl/src/go_json.rs:201-291 | whatever is read is a value of the grammar nested no deeper than the limit |
| `JsonText.PrefixComplete` | headscale-api-acl/src/go_json.rs:201-291 | every value of the grammar within the limit is read, whatever follows it that does not continue a number |
| `JsonText.Validate` | headscale-api-acl/src/go_json.rs:293-303 | a text is valid exactly when it is one JSON document nested no deeper than the limit |
| `JsonEntries.Trim` | headscale-api-acl/src/go_json.rs:77-85 | white space is dropped at both ends and nowhere else |
| `JsonEntries.Array` | headscale-api-acl/src/go_json.rs:305-322 | after validation an array fails only on its opening bracket; it returns the texts of its elements in order |
| `JsonEntries.Object` | headscale-api-acl/src/go_json.rs:324-346 | each name goes through the decoder, which could fail; after validation none does, so there is a result exactly when the document is an object: the decoded names and the texts of the values in order |
| `UnquoteLoop.UnquoteString` | headscale-api-acl/src/go_json.rs:357-426 | the loop decodes a quoted text as the recursive definition does: escapes, surrogate pairs, and one replacement character for each malformed byte or lone surrogate |
| `UnquoteLoop.UnquoteTextOfString` | headscale-api-acl/src/go_json.rs:357-365 | on a string token, allowing white space after the closing quote makes no difference |
| `Unquoting.UnquoteTotal` | headscale-api-acl/src/go_json.rs:357-426 | every JSON string has a decoding |
| `JsonScanner.NextKeeps` | headscale-api-acl/src/go_json/scanner.rs:130-335 | in every state, one byte leaves exactly the continuations that are accepted after it, or is refused when none is |
| `JsonScanner.Scanner.Step` | headscale-api-acl/src/go_json/scanner.rs:130-335 | the loop over states ends, and keeps what is accepted for every rest of the text |
| `JsonScanner.CheckDocument` | headscale-api-acl/src/go_json/scanner.rs:47-61 | the scanner accepts exactly the documents of the grammar nested no deeper than 10,000 containers |
| `JsonOutput.CompactBytes` | headscale-api-acl/src/go_json_output.rs:6-48 | the byte loop computes the recursive compacting pass |
| `JsonOutput.CompactNodeText` | headscale-api-acl/src/go_json_output.rs:6-48 | on the text of a tree the pass writes the text of the compact tree |
| `JsonOutput.CompactBodyKeeps` | headscale-api-acl/src/go_json_output.rs:6-48 | compacting keeps well-formedness, nesting, structure and the decoding of every string, and is idempotent |
| `HtmlStrings.SameDecode` | headscale-api-acl/src/go_json_output.rs:12-46 | escaping `<`, `>`, `&`, U+2028 and U+2029 does not change what a string decodes to, next to malformed bytes and surrogates too |
| `HtmlStrings.HtmlBodyTwice` | headscale-api-acl/src/go_json_output.rs:12-46 | escaping a second time changes nothing |
| `JsonIndent.CompactHtml` | headscale-api-acl/src/go_json_output.rs:6-48 | exactly the valid documents are compacted, into the text of the compact tree |
| `JsonIndent.CompactedCorrect` | headscale-api-acl/src/go_json_output.rs:6-48 | the compact text is a document that says the same, and compacting it again changes nothing |
| `JsonIndent.IndentBytes` | headscale-api-acl/src/go_json_output.rs:50-100 | the byte loop computes the recursive indenting pass and its depth |
| `JsonIndent.IndentBodyText` | headscale-api-acl/src/go_json_output.rs:50-100 | on the compact text of a tree the pass writes the text of the indented tree and returns to the depth it began with |
| `JsonIndent.IndentJson` | headscale-api-acl/src/go_json_output.rs:50-100 | exactly the valid documents are indented |
| `JsonIndent.IndentsCompact` | headscale-api-acl/src/go_json_output.rs:50-100 | on every valid document the depth counter never underflows and ends at zero |
| `JsonIndent.IndentedCorrect` | headscale-api-acl/src/go_json_output.rs:50-100 | the indented text is a document, and compacting it gives what compacting the original gives |
| `PolicyValue.LastWinsMeaning` | headscale-api-acl/src/go_policy_value.rs:81-98 | a name is in an object's map exactly when a member has it, with the value of the last such member |
| `PolicyValueLoop.FillAll` | headscale-api-acl/src/go_policy_value.rs:80-106 | filling an empty frame entry by entry gives the container's recursive value: the last duplicate wins, or in strict modes a repeated decoded name is refused |
| `PolicyValueLoop.ReadScalar` | headscale-api-acl/src/go_policy_value.rs:175-202 | a string, keyword or number is read and decoded by the mode's rules |
| `PolicyValueLoop.Start` | headscale-api-acl/src/go_policy_value.rs:162-205 | starting a value leaves the outcome of the run unchanged |
| `PolicyValueLoop.Advance` | headscale-api-acl/src/go_policy_value.rs:223-257 | closing a container or going to its next item leaves the outcome unchanged; a repeated name in a strict mode ends the run |
| `PolicyValueLoop.ParseWithMode` | headscale-api-acl/src/go_policy_value.rs:155-259 | for every text and mode the assembly loop returns the recursive value of the validated document |
| `PolicyDiscard.Discard` | headscale-api-acl/src/go_policy_value.rs:56-78 | every node of a value is released exactly once, and the greatest height of the stack, measured after each push, is how deep containers nest |
| `Networks.OverlapExact` | headscale-api-acl/src/lib.rs:3435-3455 | two prefixes overlap by the prefix test exactly when they are of one family and share an address of that family's width |
| `Via.ElectedIsLeast` | headscale-api-acl/src/lib.rs:2692-2702 | the election gives the least id among the candidates that carry a via tag and the route, if there is one |
| `Via.MatchedMembers` | headscale-api-acl/src/lib.rs:2629-2661 | the matched routes are the peer's routes the grant is about: overlapping subnets, and exit routes of internet grants |
| `Via.CollectedMembers` | headscale-api-acl/src/lib.rs:2621-2676 | a route is included, or excluded, first exactly when a steering grant that names the peer, or that does not, is about it |
| `ViaSteering.Matched` | headscale-api-acl/src/lib.rs:2629-2661 | the nested loops list the matched routes, in order and with repetitions |
| `ViaSteering.Collect` | headscale-api-acl/src/lib.rs:2621-2676 | the first loop computes both lists |
| `ViaSteering.Elect` | headscale-api-acl/src/lib.rs:2678-2709 | the election keeps exactly the routes no steering grant gives to another node, and excludes each of the others once |
| `ViaSteering.Steer` | headscale-api-acl/src/lib.rs:2607-2726 | the whole operation: the routes included, excluded and left to the primary election |
| `ViaSteering.IncludedExact` | headscale-api-acl/src/lib.rs:2607-2726 | a peer carries a route exactly when a steering grant gives it to the peer, the peer is not the viewer, and no steering grant elects another node |
| `ViaSteering.AtMostOneCarrier` | headscale-api-acl/src/lib.rs:2607-2726 | for one viewer and one list of candidates with distinct ids, at most one of them carries a route |
| `ViaSteering.CarrierExists` | headscale-api-acl/src/lib.rs:2607-2726 | some candidate carries a route exactly when a grant about it elects a node that is not the viewer and no overlapping grant elects another |
| `ViaSteering.SplitElection` | headscale-api-acl/src/lib.rs:2678-2709 | two grants that elect different nodes leave the route without a carrier |
| `ViaSteering.MissingCandidates` | headscale-api-acl/src/lib.rs:2595-2602 | without candidates, two peers carry one route |
| `Groups.SimpleWalksSuffice` | headscale-api-acl/src/lib.rs:3228-3259 | on every group map, walks that enter no group twice reach every identity that any walk reaches |
| `Groups.ContainsStep` | headscale-api-acl/src/lib.rs:3228-3259 | an identity is reached through unvisited groups exactly when it is a member, or a member group reaches it with this group also on the path |
| `GroupSearch.Search.Matches` | headscale-api-acl/src/lib.rs:3228-3259 | the search ends on cyclic maps, restores the active path, and finds a match exactly when one is reached by unvisited groups |
| `GroupSearch.Search.Expand` | headscale-api-acl/src/lib.rs:3137-3161 | the expansion ends on cyclic maps, restores the active path, and lists exactly the identities reached by unvisited groups |
| `GroupSearch.GroupMatches` | headscale-api-acl/src/lib.rs:3228-3259 | a group matches exactly when some identity it contains, through any chain of groups, matches |
| `GroupSearch.ExpandGroup` | headscale-api-acl/src/lib.rs:3137-3161 | the expansion is exactly the identities the group contains; so a group matches exactly when an element of its expansion does |
| `TagOwners.ValidateTagOwnerChains` | headscale-api-acl/src/lib.rs:1581-1612 | the walks end on every map, cyclic ones too, and the check passes exactly when every owner that starts with `tag:` and has no `@` is defined |
| `TagOwners.Walk` | headscale-api-acl/src/lib.rs:1585-1609 | one root: its owners are all settled, or some owner somewhere is undefined; the stack read as a number falls at every step |
| `PortRanges.ParsePortRanges` | headscale-api-acl/src/lib.rs:3546-3575 | the loop reads a list of ports and ranges, each with its first port at most its last |
| `PortRanges.PatternHolds` | headscale-api-acl/src/lib.rs:3504-3519 | writing a range as a pattern and matching the pattern is asking the range itself, for every protocol and port |
| `AclSplit.ValidPorts` | headscale-api-acl/src/lib.rs:3491-3519 | on a readable specification, reading each part alone gives the patterns of the whole |
| `AclSplit.SplitAcls` | headscale-api-acl/src/lib.rs:1042-1091 | each access list becomes one rule for each destination, `autogroup:self` last unless all are autogroups |
| `AclSplit.Evaluate` | headscale-api-acl/src/lib.rs:2540-2552 | the first rule that matches decides |
| `AclSplit.SplitDecides` | headscale-api-acl/src/lib.rs:1042-1091 | the split rules decide every connection as intended: by the first access list with a destination that names the target and whose own ports hold |
| `AclSplit.UnsplitAcceptsMore` | headscale-api-acl/src/lib.rs:1042-1091 | without splitting, a rule pairs each destination with the ports of the others and accepts more |
| `Nonces.NonceStore.CheckAndStore` | headscale-api/src/control_auth.rs:72-115 | verdict and new state are those of the abstract store; both indexes keep the same keys, each in one bucket under its own expiry, at most `capacity` of them |
| `Nonces.NonceStore.Purge` | headscale-api/src/control_auth.rs:89-100 | exactly the keys that expired before the reading are dropped from both indexes |
| `Nonces.NonceStore.VerifySignature` | headscale-api/src/control_auth.rs:249-285 | a request is accepted only with an authentic signature and a timestamp within one window of the first reading; its key then expires within two windows of it |
| `NonceRuns.StateExact` | headscale-api/src/control_auth.rs:72-115 | after any run, for any clock readings, a key is stored exactly when a call admitted it and no reading since has passed its expiry |
| `NonceRuns.ReplayRefused` | headscale-api/src/control_auth.rs:72-115 | until a reading passes its expiry, an admitted key is refused as a replay, whatever its timestamp |
| `NonceRuns.ReplayExact` | headscale-api/src/control_auth.rs:72-115 | a call is refused as a replay exactly when its key was admitted and no reading since, its own included, has passed the expiry |
| `NonceRuns.AdmittedTwice` | headscale-api/src/control_auth.rs:72-115 | admitting a key twice takes a well-formed call in between, or the second one, that reads the clock past the first expiry |
| `NonceRuns.RepeatExact` | headscale-api/src/control_auth.rs:72-115 | the same request is accepted again exactly when a call in between read the clock past its expiry, the clock now reads no later than that, and there is room |
| `NonceRuns.NeverTwice` | headscale-api/src/control_auth.rs:72-115 | while the clock does not go back, no identity, nonce and timestamp are accepted twice |
| `NonceRuns.CapacityRefusal` | headscale-api/src/control_auth.rs:72-115 | a capacity refusal means the store is full of admitted keys that have not expired |
| `NonceRuns.ClockBack` | headscale-api/src/control_auth.rs:72-115 | a clock that goes back lets the same request in again |
| `Messages.AppendField` | headscale-api/src/control_auth.rs:295-300 | a field is written with its length in front |
| `Messages.BuildRegister` | headscale-api/src/control_auth.rs:192-213 | the registration message: heading, fields, number of endpoints, endpoints, flags |
| `Messages.BuildHeartbeat` | headscale-api/src/control_auth.rs:215-229 | the heartbeat message |
| `Messages.BuildTransfer` | headscale-api/src/control_auth.rs:231-240 | the transfer message |
| `Messages.CanonicalInjective` | headscale-api/src/control_auth.rs:192-240 | equal signing texts are texts of one message: same kind, and all fields equal, endpoints of any number included |
| `DurationText.FormatNanos` | headscale-api-acl/src/lib.rs:2340-2402 | the printer writes the items of the duration |
| `DurationText.PushDecimalUnit` | headscale-api-acl/src/lib.rs:2404-2423 | a number of units with its fraction, without trailing zeros |
| `DurationText.ParseNanos` | headscale-api-acl/src/go_duration.rs:11-124 | the nested loops read sign, numbers, fractions and units as the recursive definition does, with its limits and wrap-around |
| `Durations.TotalOf` | headscale-api-acl/src/go_duration.rs:27-118 | a written list of items is read item by item |
| `DurationText.RoundTrip` | headscale-api-acl/src/lib.rs:2340-2402 | every 64-bit number of nanoseconds, the least one included, is read back from its text |
| `DurationText.SumMeaning` | headscale-api-acl/src/go_duration.rs:98-118 | a list of items is read as the sum of their values modulo 2^64 if every item has a value and every partial sum modulo 2^64 is within the limit, and refused otherwise |
| `DurationText.SumIsValue` | headscale-api-acl/src/go_duration.rs:98-118 | a list of items is read as the sum of their values exactly when every item has one and the sum is within the limit |
| `DurationText.WrapsToZero` | headscale-api-acl/src/go_duration.rs:112-117 | two items of the limit each are read as zero |
| `ProtoNumbers.ReadField` | headscale-api/src/grpc_gateway.rs:1622-1732 | the cursor loops split the text and decode its parts as the definitions do |
| `ProtoExact.DecodeExact` | headscale-api/src/grpc_gateway.rs:1688-1731 | shifting digits gives the exact product of digits and power of ten, or nothing when it is no integer or leaves 64 bits |
| `ProtoExact.PartsOf` | headscale-api/src/grpc_gateway.rs:1626-1675 | the scanner finds sign, digits and exponent of every number of section 6 of RFC 8259, whatever follows that does not continue it, and how much of an exponent mark without digits it takes |
| `ProtoExact.FieldExact` | headscale-api/src/grpc_gateway.rs:1622-1732 | for every well-formed number: a result is its exact value; with an exponent in 32 bits and an integer part that is not zero (or an exponent of at most 20) there is a result exactly when the value is an integer in 0..2^64-1; zero is always zero |
| `ProtoExact.WideOneRefused` | headscale-api/src/grpc_gateway.rs:1717-1721 | a spelling of one with a zero before the point and exponent 21 is refused |
| `ProtoTexts.HeadExact` | headscale-api/src/grpc_gateway.rs:1626-1675 | the number a text starts with is the one that is a prefix of it and is not continued by what follows; there is at most one |
| `ProtoTexts.FieldText` | headscale-api/src/grpc_gateway.rs:1622-1687 | for every text, read before or not: the result is that of the number it starts with, or nothing; an exponent mark without digits is skipped, a sign after it leaves only zero or, at the end, nothing, and a text not read before must go on with a delimiter |
| `IpText.Ipv4Fields` | headscale-api-acl/src/go_netip.rs:20-63 | the loop reads a dotted quad as the recursive scan does |
| `IpText.ReadQuadExact` | headscale-api-acl/src/go_netip.rs:20-63 | a text is read as four fields exactly when it is their decimal form with dots, without leading zeros |
| `Ipv6Loop.ReadOctets` | headscale-api-acl/src/go_netip.rs:71-182 | the loop fills the sixteen octets in place, every index in bounds, and gives what the recursive scan gives |
| `Ipv6Loop.Widen` | headscale-api-acl/src/go_netip.rs:167-173 | the shift in place moves what follows `::` to the end and fills the gap with zeros |
| `Ipv6Loop.Ipv6Address` | headscale-api-acl/src/go_netip.rs:65-182 | an address and its zone, which must not be empty |
| `Ipv6Exact.ReadAddressExact` | headscale-api-acl/src/go_netip.rs:71-182 | a text is read as sixteen octets exactly when it is an address of section 2.2 of RFC 4291 with those octets: groups, at most one `::` that stands for at least one group, an optional final dotted quad |
| `Queries.EncodeQueryPart` | headscale-api/src/dns.rs:1071-1086 | the loop percent-encodes a byte string |
| `Queries.EncodeQuery` | headscale-api/src/dns.rs:1056-1069 | the loops write every pair, in order, with separators between them only |
| `Queries.DecodeQueryPart` | headscale-api/src/dns.rs:1028-1045 | the loop decodes a part as the recursive definition does, and refuses a malformed escape |
| `Queries.ParseQuery` | headscale-api/src/dns.rs:1006-1026 | the loop adds the well-formed pairs in order, none when there are too many |
| `Queries.DecodeEncoded` | headscale-api/src/dns.rs:1028-1086 | decoding undoes encoding for every byte string |
| `Queries.ParseEncoded` | headscale-api/src/dns.rs:1006-1086 | an encoded map is read as the map of its keys that have values, if the pairs are within the limit, and as nothing otherwise |
| `Queries.RoundTrip` | headscale-api/src/dns.rs:1006-1086 | an encoded map is read back, with each key's values in order, exactly when it is empty or every key has a value and the pairs are within the limit |
| `Queries.Reparsed` | headscale-api/src/dns.rs:1006-1086 | what is read from any query, written out in any order of its keys and read again, is the same map, for any limit that allows fewer pairs whenever it allows more, as the source's does |

## Left out

- Error texts, line and column reports, JSON pointers and which of several errors comes first (`go_policy_json.rs` and the diagnostics of the other files).
- Splitting a destination into alias and ports, brackets around IPv6 addresses, and the check that a protocol allows specific ports: `AclSplit` starts from the split pair.
- `AclSplit.SplitDecides`: protocol names are taken without a slash and not starting with `*:`, as the canonical names of the source are.
- `PolicyDiscard.Discard`: a container's children are taken in any order, where the source takes array elements in order and members in key order; released nodes stand for freed memory.
- `ViaSteering.Steer`: matching the viewer against the sources and ports of grants and rules, and parsing an address prefix, are given.
- `GroupSearch.GroupMatches`: which identity matches a node is given, and so is which protocol names match in `AclSplit`.
- `Queries.EncodeQuery`: the entries come in the order of a sorted map as a sequence with distinct keys; the order itself is not modelled, and the limit on pairs is a parameter (`Queries.Limit` for a setting already read as a number).
- `Nonces.NonceStore.VerifySignature`: parsing the identity, decoding and verifying the signature are one given truth value; the lock around the store is not modelled.
- `PolicyValue.ValueOf`: numbers are what the given number decoders return, and strict strings what the given decoder returns; other modes decode strings as modelled.
- The `first_raw_value` scanner entry point, `gorm_string_list`, and `go_unicode` tables.
- Address comparison, prefix parsing and printing in `go_netip.rs` beyond reading an address.
- Handlers, routers, certificates, databases and file watching of the server.
