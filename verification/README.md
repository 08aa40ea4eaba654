# A model of macula-cli, with proofs

macula-cli puts JSON from the command line onto macula's wire and back, keeps memberships in
private files, probes streams, waits for a realm to admit somebody, and tells scripts what kind of
failure they met. This project models those parts in Dafny and proves what they promise. Check it
with `dafny verify dfyconfig.toml`.

## How it is laid out

**The JSON form of wire values** (`internal/wirevalue/wirevalue.go`).
`WireValue` has the values, their deterministic CBOR (section 4.2.1 of RFC 8949) and what a payload
is; `Canonical` and `CborOrder` the order of map entries. `Decimal`, `Hex`, `Base64`, `Utf8` and
`JsonText` are the parts text is made of. `JsonReader` is a recursive-descent reader of JSON text.
`JsonGrammar`, `JsonNumbers` and `JsonSoundness` state the language of RFC 8259 a second time, as a
relation between texts and trees that knows nothing of scanning, and prove that the reader reads
exactly it: all of its texts (`TextIsRead`) and no other (`ParsedExactly`). `WireJson` says what
`ToJSON` prints and what `FromJSON` may return, as relations: Go hands out an object's members in any
order, so a text can be read as several entry sequences, and may be refused for one of several
reasons. `Codec.Prints` does the same for sort.Slice, which keeps no order among equal keys.
`RoundTrip`, `Denotation` and `CodecLaws` hold the laws, `Codec` the program itself (loops that fill
slices, one shared buffer, the sorted copy of a map's entries), each method proved against these.

The chain is: what is printed for a payload is a text of the grammar (`RoundTrip.PrintedIsText`),
every text of the grammar is read as its tree whatever follows it (`JsonGrammar.TextIsRead`), the tree
denotes the payload (`Denotation.TreeDenotes`), and a tree denotes one value only
(`Denotation.DenotedIsUnique`). So a payload comes back, and `CodecLaws.RoundTripExactly` says that
nothing else does.

**writePrivate** (`cmd/macula-cli/person.go`) is `PrivateFile`: the calls of any number of
interleaved writers as a step relation over inodes, names, modes and what is synced, with any call
failing and a crash after any step, and the code as methods that take those steps.

**The stream probe** (`cmd/macula-cli/stream.go`) is `StreamProbe`: each loop as a method over the
stream it holds, and both together as two processes over FIFO links.

**Failure kinds** (`internal/report/report.go`) are `FailureReport`: error trees, `errors.As` as a
depth-first walk, the ordered tests as methods that fill the fields of one `Error`, and the verdict
as "the first of the highest-ranked".

**Waiting and memberships** (`cmd/macula-cli/realm.go`, `cmd/macula-cli/person.go`) are
`Admission`, **watching a topic** (`cmd/macula-cli/pubsub.go`) is `Watch`, **seeds**
(`cmd/macula-cli/mesh.go`) are `Seeds`.

## What is taken for granted

- strconv's floats: a double is its bit pattern, and `WireJson.Lawful` is all that is assumed. The
  shortest text of a finite double is a JSON number literal that parses back to it, also with ".0"
  behind it; and a text with a fraction or exponent, the only kind fromNumber passes on, parses to a
  finite double or not at all. `WireJson.PlainHostIsLawful` shows a host that meets this, so nothing
  proved under it is empty.
- macula-go's `cbor` is not part of this model. `cbor.Encode` is modelled as shortest-head CBOR with
  map entries in bytewise key order and floats in eight bytes; the text `Value.String` gives a value
  that JSON has no form for is any function of its encoding.
- encoding/json's decoder keeps to RFC 8259, keeps the last of equal keys, reads a lone surrogate as
  U+FFFD and gives up beyond 10000 open arrays and objects.
- os.CreateTemp gives nobody a name that another writer has renamed and is still about to remove
  (`PrivateFile.AllSafe`). It promises only that the name is not in use when asked for.
  `PrivateFile.SafeExactly` says that this is what the target's wholeness takes, no more and no less.

## Where the code and its words differ

- The package comment of wirevalue.go names two cases that do not come back. There is a third: a
  payload that nests deeper than encoding/json's decoder goes (`CodecLaws.TooDeepIsLost`).
  `CodecLaws.RoundTripExactly` has the exact condition.
- writePrivate's comment says the file is never half written. That holds as long as no temporary name
  is given out between its rename and the deferred removal of it, and one such name is enough to break
  it, from any state a run can reach (`PrivateFile.SafeExactly`); `PrivateFile.ReusedNameBreaksTarget`
  is a run from nothing that ends with half of one writer's data where another took its write for done.
- membershipPath's comment says two person keys in one directory never share a file. They do exactly
  when the realm's name climbs out of the person's directory with ".."
  (`Admission.PersonsShareExactly`): under "../" before any name everybody has the same file
  (`Admission.PersonsShare`). Names made of ordinary parts, with slashes or without, keep all
  memberships apart (`Admission.PathsAreApart`).
- A host with brackets inside survives parsing or not depending on its port
  (`Seeds.HostReadsBackExactly`).

## Model

| member | source | states |
|---|---|---|
| CodecLaws.RoundTripExactly | internal/wirevalue/wirevalue.go:9-16 | a value's text can be read as that value if and only if it is a payload (int64 integers, finite floats, distinct text keys, no lone "$bytes" key, at every depth) that nests within the decoder's limit |
| CodecLaws.PayloadReadsBack | internal/wirevalue/wirevalue.go:9-12 | a payload's text is accepted, and every value it may be read as, in whatever order members come, is that payload |
| CodecLaws.NamedCasesAreLost | internal/wirevalue/wirevalue.go:14-16 | a map whose only key is "$bytes", and any map with a key that is not text, does not come back |
| CodecLaws.TooDeepIsLost | internal/wirevalue/wirevalue.go:9-16 | beyond the two named cases: a payload nested deeper than the decoder's limit does not come back either |
| CodecLaws.ReadIsPayload | internal/wirevalue/wirevalue.go:44-129 | whatever FromJSON can return lies in the round-trip domain |
| CodecLaws.ReadThenPrintSettles | internal/wirevalue/wirevalue.go:9-14 | what was read from any text prints as text that is accepted, reads back as the same value only, and prints the same again |
| CodecLaws.ReadingIsUnique | internal/wirevalue/wirevalue.go:87-100 | the order in which an object's members are visited has no say in the value read or in its text |
| CodecLaws.ParsesItsDocuments | internal/wirevalue/wirevalue.go:44-54 | a tree is parsed from exactly the texts that are one JSON value of that tree, by the grammar, with white space around it and nothing else |
| CodecLaws.AcceptedExactly | internal/wirevalue/wirevalue.go:44-129 | FromJSON succeeds if and only if the text is one JSON value in whose tree no node, at any depth, is a boolean, an integer outside int64, a non-finite number or a lone "$bytes" without base64 text |
| CodecLaws.AcceptedIsRead | internal/wirevalue/wirevalue.go:44-55 | to be accepted and to have a reading is the same |
| Denotation.ErrorIsInTree | internal/wirevalue/wirevalue.go:57-129 | whatever error reading gives, something in the tree is at fault for it: a boolean, an integer literal that is no int64, a number that is no finite float, or a lone "$bytes" with no text or no base64 under it |
| CodecLaws.PrintedIsDocument | internal/wirevalue/wirevalue.go:132-136 | what ToJSON gives for a payload is one JSON document by the grammar |
| CodecLaws.PrintInjective | internal/wirevalue/wirevalue.go:202-220 | two payloads with one text are the same value, at any depth of nesting |
| CodecLaws.SameTextIffSameEncoding | internal/wirevalue/wirevalue.go:12-14 | two payloads print the same if and only if their canonical CBOR is the same |
| CodecLaws.SameValueIffRearranged | internal/wirevalue/wirevalue.go:202-203 | two payloads have one canonical form if and only if one is the other with map entries in another order, at every depth |
| RoundTrip.PrintedReadsAs | internal/wirevalue/wirevalue.go:132-229 | a payload's text, with any text behind it that cannot continue a number, is read as the payload's tree and the reader stops exactly behind it |
| RoundTrip.PrintedIsText | internal/wirevalue/wirevalue.go:138-158 | what is printed for a payload is a text of its tree by the grammar, at any depth that holds it |
| RoundTrip.EscapedIsChars | internal/wirevalue/wirevalue.go:179-183 | what is written between the quotes is, by the grammar, a spelling of exactly that text, and no escape is half of a surrogate pair |
| RoundTrip.QuoteRoundTrip | internal/wirevalue/wirevalue.go:179-183 | a quoted text scans back to itself and the scan ends at its closing quote whatever follows; keys and values alike |
| RoundTrip.FloatTextIsFloat | internal/wirevalue/wirevalue.go:170-177 | a finite float prints as a number literal with a fraction or exponent, which reads back as that float |
| RoundTrip.IntTextIsInt | internal/wirevalue/wirevalue.go:115-129 | an integer prints as a number literal that reads back as that integer within int64 and is refused beyond |
| RoundTrip.IntegerLiteralIsInt | internal/wirevalue/wirevalue.go:115-123 | every literal without fraction and exponent, not only printed ones, is the decimal text of an integer or "-0", and is read as it within -9223372036854775808 and 9223372036854775807 and refused beyond |
| WireJson.PlainHostIsLawful | internal/wirevalue/wirevalue.go:170-177 | what is assumed of strconv can be met |
| JsonGrammar.TextIsRead | internal/wirevalue/wirevalue.go:44-50 | every text the grammar gives a tree, whatever its spaces, escapes and order, is read as that tree and the reader stops behind it |
| JsonGrammar.LastWinsExactly | internal/wirevalue/wirevalue.go:44-50 | an object's tree has exactly the keys of its members, each with the value that comes last under it |
| JsonSoundness.ParsedExactly | internal/wirevalue/wirevalue.go:44-54 | the decoder gives a tree and leaves only white space if and only if the text is a document of that tree |
| JsonSoundness.ValueIsText | internal/wirevalue/wirevalue.go:44-50 | whatever the reader took for a value is a text of it by the grammar, and the rest is what stood behind |
| JsonNumbers.NumberExactly | internal/wirevalue/wirevalue.go:115-129 | the scanner takes a text as one number if and only if it is an integer, fraction and exponent by the grammar |
| JsonText.PrintedIntIsNumber | internal/wirevalue/wirevalue.go:160-168 | a printed integer is a number literal without ".", "e" or "E" |
| JsonText.EscapeIsPlain | internal/wirevalue/wirevalue.go:179-183 | quoted text holds no control character and nothing HTML reads, and every quote and backslash in it belongs to an escape |
| JsonText.EscapesNamed | internal/wirevalue/wirevalue.go:179-183 | a character is written as it is if it is none of the control characters, quote, backslash, <, >, &, U+2028 and U+2029, and each of those has its escape |
| Decimal.IntRoundTrip | internal/wirevalue/wirevalue.go:115-123 | decimal printing and parsing is exact on all of int64, both ends included, and no integer printed from beyond is parsed |
| Base64.RoundTrip | internal/wirevalue/wirevalue.go:103-113 | decoding the encoding of any byte string gives it back, for every length modulo 3 |
| Base64.EncodeShape | internal/wirevalue/wirevalue.go:185-188 | an encoding is four times a third of the length, rounded up, and needs no JSON escape |
| Base64.DecodeExactly | internal/wirevalue/wirevalue.go:103-113 | exactly the texts that are padded quanta of symbols, line ends aside, are decoded, and each byte is the eight bits at its place; bits left over have no say |
| Base64.LineEndsSkipped | internal/wirevalue/wirevalue.go:103-113 | a line end anywhere in the text makes no difference |
| Base64.SymbolsByPlace | internal/wirevalue/wirevalue.go:185-188 | a symbol stands for its place among capitals, small letters, digits, "+" and "/" |
| Denotation.TreeDenotes | internal/wirevalue/wirevalue.go:57-129 | the tree of a payload's text may be read as that payload |
| Denotation.DenotedIsUnique | internal/wirevalue/wirevalue.go:87-100 | all values one tree may be read as are the same but for the order of map entries |
| Denotation.DenotedIsPayload | internal/wirevalue/wirevalue.go:57-129 | only payloads are read, nested no deeper than the tree |
| Denotation.AdmittedIffAllCarried | internal/wirevalue/wirevalue.go:57-129 | a tree can be read if and only if every node in it is something the wire carries |
| Denotation.RefusedIsNotAdmitted | internal/wirevalue/wirevalue.go:57-129 | a tree for which some error may be returned has no reading |
| Canonical.SortedIsUnique | internal/wirevalue/wirevalue.go:204-209 | the strictly sorted order of a set of entries is the only one |
| Canonical.CanonIdempotent | internal/wirevalue/wirevalue.go:202-203 | putting every map in canonical order twice changes nothing more |
| CborOrder.TextKeyOrder | internal/wirevalue/wirevalue.go:207-209 | among text keys the order of encoded bytes is: fewer bytes of UTF-8 first (one to four a character, by its code point), then code point by code point, across all head sizes |
| Utf8.EncodedIsShortest | internal/wirevalue/wirevalue.go:207-209 | a character has the shortest UTF-8 form: as many bytes as its first one tells, with the six-bit groups that spell its code point |
| Utf8.OrderIsCodePointOrder | internal/wirevalue/wirevalue.go:207-209 | the bytewise order of two texts is the order of their code points |
| CborOrder.ExampleTexts | internal/wirevalue/wirevalue.go:204-209 | null, texts and byte strings of appendix A of RFC 8949 have the encodings given there |
| CborOrder.TextKeysComparable | internal/wirevalue/wirevalue.go:207-209 | that order is strict, and total on different keys |
| CborOrder.EncodingPrefixFree | internal/wirevalue/wirevalue.go:204-209 | no value's encoding begins another's, so encoding tells values apart |
| Codec.FromJson | internal/wirevalue/wirevalue.go:44-55 | succeeds if and only if the text is accepted, returns one of the values it may be read as, and on failure an error the text gives |
| Codec.FromAny | internal/wirevalue/wirevalue.go:57-73 | returns a value the tree denotes, or an error it may be refused with |
| Codec.FromList | internal/wirevalue/wirevalue.go:75-85 | the items in order, or the error of the first item that has one |
| Codec.FromMap | internal/wirevalue/wirevalue.go:87-100 | bytes for the one-key form, else one entry per member with distinct keys, in any order of visit; or some member's error |
| Codec.ToJson | internal/wirevalue/wirevalue.go:132-136 | gives a text of the value, and where no two keys of a map encode the same (in every payload, that is) the one text with every map in canonical order |
| Codec.Write | internal/wirevalue/wirevalue.go:138-158 | leaves what the buffer held and adds a text of the value |
| Codec.WriteFloat | internal/wirevalue/wirevalue.go:170-177 | adds the float's text, with ".0" where it would look like an integer |
| Codec.WriteList | internal/wirevalue/wirevalue.go:190-200 | adds a text of each item in order, between brackets with commas between |
| Codec.WriteMap | internal/wirevalue/wirevalue.go:204-220 | adds a text of each entry once, in an order sorted by canonical key bytes, whatever order they came in |
| Codec.PrintsOnlyOne | internal/wirevalue/wirevalue.go:202-220 | however sort.Slice treats equals, a value in whose maps no two keys encode the same has only one text, that of its canonical form |
| Codec.WriteMapKey | internal/wirevalue/wirevalue.go:222-229 | adds a text key quoted, any other key as its quoted diagnostic text |
| Codec.SortByKey | internal/wirevalue/wirevalue.go:205-209 | the array holds the same entries, none behind one whose key it precedes |
| Codec.SortedCopy | internal/wirevalue/wirevalue.go:206-209 | a fresh copy of the entries, sorted by key bytes |
| Codec.SortedCopyIsCanonical | internal/wirevalue/wirevalue.go:204-209 | any permutation of entries with different keys that is sorted by key bytes has the canonical form's order |
| Codec.PayloadIsWellKeyed | internal/wirevalue/wirevalue.go:202-203 | in a payload no two keys of a map encode the same, so its order is settled |
| PrivateFile.StepKeepsInv | cmd/macula-cli/person.go:392-418 | every call of every writer, failing or not, keeps the invariant that ties files, names, modes and the target together, if the name it is given is safe |
| PrivateFile.RunKeepsInv | cmd/macula-cli/person.go:392-418 | so does every run of any number of interleaved writers whose names are safe |
| PrivateFile.TargetIsWhole | cmd/macula-cli/person.go:389-391 | at any moment of any such run the target is what it was or all of the last replacer's data with mode 0600, and no writer's file is open to others |
| PrivateFile.ReturnTells | cmd/macula-cli/person.go:392-418 | over whole runs: a writer that has returned nil made one rename, right after which the target read as all of its data with 0600, and no other call of it changed the target; no call of a writer that has returned an error ever changed it |
| PrivateFile.SafeExactly | cmd/macula-cli/person.go:397-401 | from every state of such a run, a name may be given to a writer if and only if nobody who has renamed it still has its removal before him: then the target stays whole in every continuation, else some continuation without another unsafe name breaks it |
| PrivateFile.ClashBreaksTarget | cmd/macula-cli/person.go:397-401 | wherever a writer before its rename holds the name another is about to remove, seven more calls leave the target with any chosen part of a third writer's data, and the first one takes its write for done |
| PrivateFile.OnlyRenameChangesTarget | cmd/macula-cli/person.go:417-417 | no call but the rename changes what the target reads as, and the rename makes it all of that writer's data |
| PrivateFile.CrashLeavesTargetWhole | cmd/macula-cli/person.go:410-417 | after a crash at any moment the target is what it was at the start or all of some replacer's data |
| PrivateFile.UndisturbedReachesRename | cmd/macula-cli/person.go:392-417 | from any state, a writer with an unused name can take its calls up to the rename, with all its data synced under 0600 |
| PrivateFile.ReusedNameBreaksTarget | cmd/macula-cli/person.go:397-401 | a run from nothing in which one name is given to three writers and the target ends up with half of the third one's data, where the second has succeeded with other data |
| PrivateFile.WritePrivate | cmd/macula-cli/person.go:392-418 | whatever fails and whatever others do under safe names: on nil one rename of this call made the target all of the data given with 0600 and nothing else of it changed the target, and no call failed; on an error none of its calls changed the target. Where the deferred removal works the temporary name is gone at return, and with nobody else about the directory holds the names it held. Nil whenever nothing fails and nobody interferes |
| PrivateFile.Leave | cmd/macula-cli/person.go:401-401 | the deferred removal: the writer's temporary name is gone if it works, whatever the name stands for |
| PrivateFile.WriteAndRename | cmd/macula-cli/person.go:393-417 | the calls in their order, up to the first that fails |
| PrivateFile.MakeTemp | cmd/macula-cli/person.go:393-405 | on success, under safe names, the file is there under its name with mode 0600, and empty when nothing interferes |
| PrivateFile.WriteAll | cmd/macula-cli/person.go:406-409 | in however many pieces: on success, under safe names, the file holds all of the data |
| PrivateFile.Publish | cmd/macula-cli/person.go:410-417 | sync, close and rename in this order |
| StreamProbe.EchoStream | cmd/macula-cli/stream.go:28-45 | nil if and only if the caller ended its sending and every echo could be sent, and then exactly the data before that end came back, in order; on an error a prefix of it |
| StreamProbe.Probe | cmd/macula-cli/stream.go:63-81 | succeeds if and only if every reply equals the chunk sent and sending works, having sent in round i size bytes of i's low byte, and the end last; reports chunks and chunks * size bytes; an altered reply is reported with the first round that differs, and a failed send or receive leaves a faithful echo up to where it failed |
| StreamProbe.WrongChunkIsSeen | cmd/macula-cli/stream.go:63-76 | answering round i with round j's chunk is noticed exactly when i and j differ modulo 256 (and chunks are not empty) |
| StreamProbe.EchoAnswersProbe | cmd/macula-cli/stream.go:28-82 | what the echo answers to all the probe sends is what the probe waits for, round by round |
| StreamProbe.StepKeepsInv | cmd/macula-cli/stream.go:28-82 | every send and receive of either side keeps the one chunk or end under way in its place and uses up one step of the measure |
| StreamProbe.StuckIsDone | cmd/macula-cli/stream.go:28-82 | no state before both have ended is stuck |
| StreamProbe.ProbeAndEchoSucceed | cmd/macula-cli/stream.go:47-82 | under every schedule at most one event is under way, the echo has sent a prefix of what it received, nothing fails or deadlocks, and the run ends after 4 * chunks + 2 steps with chunks * size bytes echoed |
| FailureReport.Classify | internal/report/report.go:92-100 | the report is that of the first of the highest-ranked errors anywhere in the tree, with the message kept |
| FailureReport.ClassifyWire | internal/report/report.go:105-134 | fills the report for the first of the highest-ranked nodes if and only if that is of one of the six wire kinds, else leaves it; kind, code, detail and relay field by field from the node the first successful test finds |
| FailureReport.ClassifyRealm | internal/report/report.go:137-147 | for every tree, wire kinds or not: fills in kind, code and HTTP status of the first refusal if there is one, else leaves the report |
| FailureReport.ClassifyLink | internal/report/report.go:151-174 | for every tree: fills the report for the first of the highest-ranked nodes among those the pool could not reach (either timeout being one kind), field by field, else leaves it |
| FailureReport.AsIsFirst | internal/report/report.go:112-128 | errors.As finds the first match in depth-first order |
| FailureReport.ChosenIsFirstHighest | internal/report/report.go:92-100 | no node ranks above the chosen one and none before it ranks with it |
| FailureReport.KindIsRank | internal/report/report.go:32-39 | kinds and ranks are one to one |
| FailureReport.WrappingKeepsVerdict | internal/report/report.go:1-5 | wrapping an error changes neither kind nor code nor detail |
| FailureReport.JoinIsItsHighestPart | internal/report/report.go:92-100 | a join is reported as its highest-ranked part, the earlier of equals |
| FailureReport.TextHasNoSay | internal/report/report.go:3-5 | errors that differ in message text only are classified the same |
| Admission.WaitAdmitted | cmd/macula-cli/realm.go:281-298 | ends after at most ceil(wait / interval) + 1 polls, all before the last pending; the first answer that is not pending is returned whenever it is there before the context ends, an interval after each answer; a pending answer, or an error on the context's account, only when the polls so far and their intervals reach the context's end |
| Admission.PollsBounded | cmd/macula-cli/realm.go:283-298 | the bound on polls from the time they leave between them |
| Admission.PathsAreApart | cmd/macula-cli/person.go:90-95 | for realm names all of whose parts between slashes are ordinary names, different persons or realms have different files |
| Admission.PersonsShareExactly | cmd/macula-cli/person.go:90-95 | two persons have the same file of a realm if and only if some ".." in the realm's name takes back more than the parts before it put there |
| Admission.SharedExactly | cmd/macula-cli/person.go:90-95 | among names that do not do that, two memberships share a file if and only if the person is the same and the names clean to the same path |
| Admission.PersonsShare | cmd/macula-cli/person.go:90-95 | under "../" before any realm name all persons have the same file |
| Admission.SlashedNameShares | cmd/macula-cli/person.go:93-95 | every realm name has another, with ".." in it, that gives the same person the same file |
| Admission.PathOfPlainRealm | cmd/macula-cli/person.go:93-95 | a name without slashes is of ordinary parts, and its cleaned path is the key's directory, "person", the id in hex, the name with ".ucan" |
| Admission.AwaitMembership | cmd/macula-cli/person.go:233-262 | with polls two seconds apart as above: the one file is written, as token and newline, if and only if the last answer was confirmed with a token of three parts whose middle one decodes to an aud that is this person's hex, and writing works; otherwise no file changes, and each error is the one its case gives |
| Admission.ClaimsExactly | cmd/macula-cli/person.go:105-119 | claims are read from exactly the tokens that are three dot-free parts between dots, out of the middle one |
| Watch.WatchTopic | cmd/macula-cli/pubsub.go:41-68 | exactly the first n events are handed on in order and n is returned; n <= count for positive counts, and fewer only when the context ended or the channel closed |
| Watch.HandOn | cmd/macula-cli/pubsub.go:60-64 | an event is handed on with its publisher in hex and a text ToJSON gives for its payload |
| Watch.PayloadTold | cmd/macula-cli/pubsub.go:60-64 | of a payload exactly one text is handed on |
| Seeds.SeedRoundTrip | cmd/macula-cli/mesh.go:43-58 | a seed's text parses to that seed if and only if its host has no brackets, or its port is 4433 and the host neither begins nor ends with one; an "@" in the host does not matter |
| Seeds.HostReadsBackExactly | cmd/macula-cli/mesh.go:60-71 | the same for host and port alone |
| Seeds.BadPortIsRefused | cmd/macula-cli/mesh.go:60-71 | port 0 and every port over 65535 are refused if and only if a port is split off at all, that is when the host has no brackets or, without a colon, stands in brackets of its own; else the whole is taken for a host at port 4433 |
| Seeds.SeedTextParses | cmd/macula-cli/mesh.go:44-58 | the node_id of a seed's text is split off at the last "@", and host and port decide the rest |
| Seeds.SeedWithPort | cmd/macula-cli/mesh.go:44-71 | for every bracket-free host (in brackets when it holds a colon), any text without colon or brackets as port, and any 64 hex characters: that host, port and node if the text is digits of 1 to 65535, 4433 and leading zeros included, and else a refusal |
| Seeds.HostAlone | cmd/macula-cli/mesh.go:60-65 | a bracket-free host alone has port 4433: in brackets, or bare with no colon or with several |
| Seeds.SeedIsSplit | cmd/macula-cli/mesh.go:44-58 | without an "@" nothing parses; what is behind the last one must be a node_id, and what is before it a host and port |
| Seeds.NodeIdExactly | cmd/macula-cli/mesh.go:73-81 | a node_id is read from 64 hex characters of either case, two for each byte, and from nothing else |
| Seeds.TrimExactly | cmd/macula-cli/mesh.go:60-65 | a host without a port loses all brackets at either end and nothing else |
| Seeds.ParsedSeedIsPinned | cmd/macula-cli/mesh.go:26-58 | every parsed seed has a 32-byte node_id and a port from 1 to 65535, and its text an "@" |
| Seeds.SplitWithPort | cmd/macula-cli/mesh.go:60-65 | a bracket-free host, bracketed when it holds a colon, is split from its port |
| Seeds.SeedList.Set | cmd/macula-cli/mesh.go:34-41 | a good seed is appended; a bad one is reported and changes nothing |
| Hex.HexBytesRoundTrip | cmd/macula-cli/mesh.go:73-81 | hex decoding gives back every byte string that was written in hex |
| Hex.DigitsByPlace | cmd/macula-cli/mesh.go:73-81 | a hex digit of either case is read as its place, and written in lower case |

## Left out

- Watch.WatchTopic: the select's choices are a script of arrivals that comes to an end, as without one the loop waits forever; `n++` and `heard` count as one step.
- PrivateFile.GiveUp: the close of the temporary file on the error path is not a step of its own, as it changes nothing that is modelled.
- Codec.SortByKey: sort.Slice's own algorithm is replaced by an insertion sort; what is proved holds of any sort.
- PrivateFile.TargetIsWhole: asks for safe temporary names, see above; os.MkdirAll is one step, umask can only make a new file's mode narrower, and other programs that write to the directory are not in the model.
- PrivateFile.CrashLeavesTargetWhole: a crash keeps synced files and may undo renames, in whole; a file system that tears a rename is not in the model.
- CodecLaws.SameTextIffSameEncoding: asks that lengths and integers fit a uint64, as they do in a running program.
- StreamProbe.ProbeAndEchoSucceed: the links are reliable and in order; Serve, OpenStream and Stop, and what a context's end does to them, belong to macula-go, which is not part of this model.
- Admission.AwaitMembership: base64url and JSON of a token's middle part are an oracle, and so are the realm's answers; the write is all or nothing here, as `PrivateFile` shows.
- Admission.WaitAdmitted: a poll that is not over when the context ends fails then, as net/http's does; how long polls take, how late timers fire and which ready case a select takes are arbitrary.
- Admission.PathsAreApart: paths are Unix paths, and of names that climb only those shared by persons under one realm name are characterised.
- FailureReport.Classify: an error answers one of the tests; Is and As methods of error types are not modelled, and details are kept as their parts, not formatted.
- Invalid UTF-8: texts are Unicode strings, so what encoding/json puts in place of broken bytes is not modelled.
- Floating point itself: rounding and the digits strconv chooses are behind `WireJson.Lawful`, and of the text a non-finite float prints as nothing is claimed.
- `Ok`, `Fail`, `Usage` and `emit`: envelopes around what is modelled.
- `readChain`, `textOrBytes`, `realmID` and the other small parsers: single branches.
- realm HTTP requests, proofs, UCAN signatures, key files: their formats are macula-go's.
- `call`, `dht`, `content`, `connect`, `serve` and `identity` commands, flags and help: thin layers over the pool.
