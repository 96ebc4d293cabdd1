# Graybox: a verified model

Graybox records HTTP exchanges, redacts them, replays them, and reports whether behaviour changed.
This project models the logic that decides those things and proves what it promises, for all inputs:

- **Comparison.** Exact equality of JSON numbers of any size (`Numbers`), the difference list of two JSON trees
  (`JsonChanges`, `Patch`), its pruning by ignored locations (`Pointers`, `Locations`, `BodyDiff`), and the verdict on
  a replayed exchange (`Compare`).
- **Redaction and rebuilding.** The check for repeated names and what a repeated name loses (`UniqueNames`), rewriting a
  tree at JSON Pointers (`Rewrite`, `Sanitize`), the dry-run probe, forms and markers (`Redaction`), the redaction policy
  and stored sizes (`Policy`), rebuilding a redacted request (`Replay`), and the check made before any traffic is sent
  (`Preflight`).
- **Secrets in output.** The scanner over serialized JSON (`Scanner`), and the pass over decoded data and percent escapes
  (`Scrub`).
- **Capture.** The bounded stream captures and the status machine of the proxy (`Capture`).

`Strings`, `Decimal`, `Json`, `JsonText` and `Recording` hold what these share: sorting, decimal digits and powers of
ten, JSON values and pointers evaluated on them, the JSON grammar with its meaning, and the recorded exchange.

How the model is built:

- Each operation keeps the form it has in the program. Loops are loops with invariants; the capture objects, the
  decoder and the outgoing request are classes. Each is proved equal to a specification that does not follow its steps:
  `TreeDiff` compares two trees without rules, pointers as strings, or pruning, and `Carry` carries out its changes;
  `Subst` rewrites all listed paths at once instead of one after another; `Normalized`, `Trace` and `First` say what the
  header, status and capture machines compute. The lemmas are about those specifications, so they hold of the code.
- A number token denotes a `real`: its digits times a power of ten. No bound is put on either.
- Iterating over a Go map visits the keys in an arbitrary order (`Strings.RangeKeys`); nothing proved depends on it.
- `encoding/json`, `net/url`, `mime`, UTF-8 validity and SHA-256 are functions in a `Library` value. What is relied on
  is `Recording.Library.Faithful`: validity is the grammar of RFC 8259 with nesting bounded as in encoding/json, decoding
  gives a text the meaning the grammar gives it, what was decoded can be encoded and decoded again, and a form can be
  encoded and parsed again when some parsed form has the same keys, each as often. Contracts about sizes and withheld
  bodies do not rely on it.
- Calls into the network, the store and the clock are left out: a replay is a given `Execution`, a capture is a
  sequence of calls, the environment is a map.

Three things the program does that a reader might not expect, kept as they are:

- The comparison, unlike the redaction, accepts a body in which an object repeats a name, and decodes it as if only the
  last member of that name were there. `UniqueNames.NothingIsLost` says exactly when that loses something: when two
  members of one name have different values. `Compare.ConflictGoesUnnoticed` is an input for which the comparison
  reports nothing, and `Compare.AgreementCoversText` shows that without a conflict an empty report covers the whole text.
- A response that was cut short downstream still records every byte the handler offered (`Capture.WriterKeepsFirst`
  counts bytes written, not bytes accepted).
- Of two names that redact to one, the greater one keeps its value (`Scrub.GreatestNameWins`).

## Model

| member | source | states |
|---|---|---|
| `Numbers.AcceptedIsNumber` | internal/diff/body.go:533-642 | the checks of canonicalizeJSONNumber pass exactly for the number grammar of section 6 of RFC 8259 |
| `Numbers.NumbersAreRead` | internal/diff/body.go:533-642 | that grammar, said once more: the literals are the texts read from left to right as sign, whole part, fraction and exponent |
| `Numbers.ValueByParts` | internal/diff/body.go:560-630 | the value a literal denotes, by its parts: the digits, scaled by the exponent, whose plus sign changes nothing and whose minus sign turns it around |
| `Numbers.CanonicalizeJsonNumber` | internal/diff/body.go:533-642 | accepts exactly the number grammar; its result is in normal form and has the exact value of the token, for any exponent |
| `Numbers.NormalFormsAreUnique` | internal/diff/body.go:502-506 | two normal forms of one value are the same form, so comparing forms compares values; all zeros share one form |
| `Numbers.ReducedIsNormal` | internal/diff/body.go:598-640 | trimming zeros on both sides and adjusting the exponent gives a normal form and keeps the value |
| `Numbers.JsonNumbersEqual` | internal/diff/body.go:508-531 | true exactly for one token, or two number tokens of one exact value |
| `Numbers.SameNumberIsEquivalence` | internal/diff/body.go:508-531 | that equality is reflexive, symmetric and transitive on all strings, numbers or not |
| `JsonChanges.EmptyIffEqual` | internal/diff/body.go:221-484 | the unpruned list is empty exactly for semantically equal values |
| `JsonChanges.EqualIffLeveled` | internal/diff/body.go:221-484 | semantic equality is identity of trees but for the spelling of numbers: it holds exactly if the trees are the same once each number is written by one token for its exact value |
| `JsonChanges.EqualIffSame` | internal/diff/body.go:221-313 | on trees without numbers it is identity |
| `JsonChanges.ChangesAreOrdered` | internal/diff/body.go:315-484 | changes of objects follow the byte order of keys, changes of arrays the order of indices |
| `JsonChanges.ChangesAreSound` | internal/diff/body.go:221-484 | each reported side is what its pointer evaluates to on that side, the sides differ, and the kind fits what is there |
| `JsonChanges.ChangesAreComplete` | internal/diff/body.go:221-484 | wherever the two values differ, or only one side has a value, there is a change above, at or below that pointer |
| `JsonChanges.ChangesAreReal` | internal/diff/body.go:221-484 | and only there: at the place of a change, and above it, the two values differ |
| `JsonChanges.ChangesAreApart` | internal/diff/body.go:315-484 | no reported location is another one, or lies below another one |
| `JsonChanges.SwapMirrors` | internal/diff/body.go:315-484 | comparing the other way round gives the same places in the same order, sides and added/removed exchanged |
| `Patch.PatchRebuilds` | internal/diff/body.go:315-484 | the list is complete: with each difference carried out at its place, where a removal takes out one element or field and no other, the baseline becomes semantically equal to the current value |
| `Patch.BelowTreeDiff` | internal/diff/body.go:315-484 | what the list says about a child of both values is the list of those two children |
| `Rewrite.SetChildLaws` | internal/sanitize/fields.go:71-129 | writing an existing child: it reads back, the others stay, the last write wins, and writing what is there changes nothing |
| `Rewrite.PutLaws` | internal/sanitize/fields.go:71-129 | writing at an existing pointer: it reads back, and every pointer not above or below it keeps its value |
| `Pointers.Pointer` | internal/sanitize/fields.go:25-42 | accepts exactly the strings of section 3 of RFC 6901 except the empty one, and gives their tokens |
| `Pointers.ValidJsonPointer` | internal/cli/diff.go:580-612 | accepts exactly the strings that Pointer accepts |
| `Pointers.ParsePrint` | internal/sanitize/fields.go:25-42 | parsing the pointer that AppendJSONPointer builds from a non-empty token list gives that list back |
| `Pointers.PrintParse` | internal/diff/location.go:96-106 | appending the tokens of an accepted pointer gives that pointer back |
| `Pointers.EscapeRoundTrip` | internal/diff/location.go:96-106 | the two replacement passes give a valid part without '/', and unescaping undoes them |
| `Pointers.UnescapeRoundTrip` | internal/sanitize/fields.go:29-41 | the two passes of unescaping are undone by escaping, for every valid part |
| `Pointers.EscapeIs` | internal/diff/location.go:96-106 | each tilde becomes "~0", each slash "~1", nothing else changes (section 3 of RFC 6901) |
| `Pointers.PrefixIsTokenPrefix` | internal/diff/location.go:134-168 | "equal, or extended after a slash" on pointer strings is "prefix" on token lists |
| `Locations.IgnoresDescendants` | internal/diff/location.go:134-168 | ignoring a body location ignores everything below it, for any rule text and any pointer |
| `Locations.IgnoresIsTokenPrefix` | internal/diff/location.go:134-168 | a body location is ignored exactly when a rule names the whole body or a token prefix of it |
| `Locations.HeaderNamesFold` | internal/diff/location.go:55-60 | two header names have one location exactly if they are equal without surrounding space and without regard to case |
| `Locations.HeaderIsIgnored` | internal/diff/location.go:134-168 | a header is ignored exactly by a rule for all headers, or one with its name in some case |
| `Locations.StatusIsIgnored` | internal/diff/location.go:134-168 | the status is ignored exactly by a rule for the status as a whole |
| `BodyDiff.CompareJsonValues` | internal/diff/body.go:221-313 | the pruned comparison gives exactly the unpruned list filtered, in order, by "not ignored" |
| `BodyDiff.CompareJsonObjects` | internal/diff/body.go:315-379 | the same for two objects: keys of both sides in byte order, whatever order the maps are visited in |
| `BodyDiff.CompareJsonArrays` | internal/diff/body.go:409-484 | the same for two arrays: shared indices, then removed ones, then added ones |
| `BodyDiff.KeptEmptyIffEqualOutside` | internal/diff/body.go:221-313 | the pruned list is empty exactly when the two values agree outside ignored locations |
| `BodyDiff.NoRulesKeepAll` | internal/diff/body.go:221-313 | without rules nothing is dropped, and the list is empty exactly for semantically equal values |
| `BodyDiff.NothingToReport` | internal/diff/body.go:221-313 | without rules the report is empty exactly if the decoded trees are the same but for the spelling of numbers; without numbers, exactly if they are the same |
| `BodyDiff.ReportIsSound` | internal/diff/body.go:221-484 | every reported difference is not ignored, has on either side what its pointer leads to in that value, and a kind that fits both |
| `BodyDiff.ReportIsComplete` | internal/diff/body.go:221-484 | wherever the values differ a difference is reported above, at or below that pointer, unless its location is ignored |
| `BodyDiff.SwappedReport` | internal/diff/body.go:221-484 | with any rules, exchanging the two values mirrors the report |
| `Compare.NormalizeHeaders` | internal/diff/compare.go:160-201 | all values of all spellings of a name, the spellings in byte order; map iteration order does not show |
| `Compare.CompareHeaders` | internal/diff/compare.go:86-158 | reports names in order, and nothing exactly when every name that is not ignored has the same values on both sides |
| `Compare.HeaderReportIs` | internal/diff/compare.go:86-158 | each name that differs and is not ignored has its difference, with the values of both sides and the kind that fits, and there are no others |
| `Compare.TwoSpellings` | internal/diff/compare.go:160-201 | values of two spellings of a name follow each other in the byte order of the spellings |
| `Compare.CompareStatus` | internal/diff/compare.go:63-84 | nothing exactly when the status is ignored or the same, otherwise the one difference with both codes |
| `Capture.RecordThenCompare` | internal/diff/body.go:173-189 | from the captured stream to the comparison: a body is refused unless all of it was captured, the failure tells how many bytes are missing, and says withheld whenever redaction could not read the body |
| `Compare.CompareBody` | internal/diff/body.go:106-171 | gives exactly the body's part of the report: nothing if ignored, or if a side is not fully available, which is then described, baseline first; the pruned list for JSON; size and digest of both sides for other bodies that differ |
| `Compare.TextsAreCompared` | internal/diff/body.go:203-313 | two JSON bodies are compared by what the grammar says their texts denote |
| `Compare.AgreementCoversText` | internal/diff/body.go:203-313 | if in the baseline members of one name have one value, an empty report covers everything its text says |
| `Compare.ConflictGoesUnnoticed` | internal/diff/body.go:203-219 | with a conflict it does not: the body `{"a":null,"a":true}` and the body `{"a":true}` compare as equal under any rules |
| `Compare.SameJsonIsEmpty` | internal/diff/body.go:134-141 | the byte-equality shortcut gives what the full comparison gives |
| `Compare.CompareResponses` | internal/diff/compare.go:23-61 | the report is the status, then the headers by name, then the body; it fails exactly when a body that matters is not comparable, and keeps what is known; otherwise it is empty exactly when status, headers and body agree |
| `Compare.CompareExecution` | internal/diff/runner.go:73-121 | equivalent exactly when there is a response, no replay error, and both responses agree conclusively; failed exactly when not conclusive; a response's differences are kept even then |
| `Rewrite.ReplaceJson` | internal/sanitize/fields.go:71-129 | found exactly when the pointer resolves; writes that place and no other; a probe fails exactly strictly below a marker |
| `Rewrite.SubstOneMore` | internal/sanitize/fields.go:46-69 | one more rewrite, in whatever order, is one more path in the simultaneous rewrite |
| `Rewrite.GetSubst` | internal/sanitize/fields.go:46-69 | after the rewrite a path resolves unless it was absent or lies inside a replaced value, and to what |
| `Rewrite.ListedPathsAreCovered` | internal/sanitize/fields.go:46-69 | every listed path is absent or holds its replacement, overlaps included |
| `Rewrite.UnrelatedPathsAreKept` | internal/sanitize/fields.go:46-69 | a pointer not at, above or below a listed one keeps its value |
| `Rewrite.ContainersKeepTheirShape` | internal/sanitize/fields.go:71-129 | outside replaced values objects keep their keys and arrays their length |
| `Rewrite.SubstIsIdempotent` | internal/sanitize/fields.go:46-69 | a second pass changes nothing |
| `Rewrite.AbsentPathsChangeNothing` | internal/sanitize/fields.go:46-69 | paths that do not resolve leave the tree as it is |
| `Rewrite.SubstIffSameOutside` | internal/sanitize/fields.go:46-69 | two bodies rewrite to one tree exactly when they are the same outside the listed paths |
| `Rewrite.ListedValueDoesNotShow` | internal/sanitize/fields.go:46-69 | whatever stands at an existing listed path, the result is the same |
| `Sanitize.ValidJson` | internal/sanitize/fields.go:311-354 | accepts exactly the UTF-8 bodies that are JSON and repeat no name in any object |
| `Sanitize.RewrittenBodiesLoseNothing` | internal/sanitize/fields.go:46-69 | a body that is rewritten was decoded to what its text denotes, with everything the text says |
| `Sanitize.ReplacePaths` | internal/sanitize/fields.go:46-69 | the sorted loop gives the simultaneous rewrite; it fails exactly for an invalid path, or a required one that is absent or below another |
| `Sanitize.ReplaceJsonBody` | internal/sanitize/fields.go:46-69 | the same on bytes: what the result decodes to, and untouched bytes when no path resolves |
| `Redaction.ExistingJson` | internal/sanitize/fields.go:274-293 | succeeds exactly when no rule leads strictly below a marker; its hits are exactly the paths that resolve |
| `Redaction.ProbedPathsCanBeReplaced` | internal/sanitize/fields.go:274-293 | without overlaps a required rewrite of the hits always succeeds, and each reads back its value |
| `Redaction.ReplaceValues` | internal/sanitize/fields.go:132-151 | every occurrence of each listed key that exists; fails exactly for a bad form or a required key that is absent |
| `Redaction.FoundValuesSuffice` | internal/sanitize/fields.go:297-309 | probe and rewrite of a form agree: what the probe finds can be required, the other rules would change nothing, and each key stays as often as it was |
| `Redaction.MarkerPointers` | internal/sanitize/comparison.go:88-109 | exactly the non-root pointers whose value is the marker |
| `Policy.SanitizeBody` | internal/sanitize/fields.go:194-229 | which bodies are kept, redacted, or withheld as a whole, and what the redacted ones decode to; nothing the policy protects can be read from the result |
| `Policy.SanitizedIsProtected` | internal/sanitize/fields.go:192-229 | a body with rules is never kept with a protected field in it, nor when its fields cannot be told |
| `Policy.RedactedFieldsAreHidden` | internal/sanitize/fields.go:194-229 | after redaction every listed field is gone or reads as the marker |
| `Policy.RedactionHidesDifferences` | internal/sanitize/fields.go:194-229 | bodies that differ at redacted fields only redact to one tree and compare without differences |
| `Policy.CaptureBody` | internal/sanitize/fields.go:231-246 | the kept bytes are what redaction makes of the body, with nothing protected in them; the sizes keep "captured at most observed, truncated exactly when less", and the number of uncaptured bytes |
| `Policy.SanitizeQuery` | internal/sanitize/fields.go:175-190 | every value of a protected parameter is the marker; a query that does not parse is replaced by the omission marker |
| `Policy.ApplyHeaders` | internal/sanitize/fields.go:161-173 | exactly the values of sensitive headers become the marker |
| `Policy.CredentialsAreSensitive` | internal/sanitize/redact.go:11-31 | sensitive are exactly the standard credentials and the listed names, without regard to case |
| `Policy.ValidateBodyMetadata` | internal/storage/repository.go:224-238 | accepts exactly those sizes |
| `Policy.Merge` | internal/sanitize/fields.go:358-375 | for headers, JSON, query and form alike: the names of either list, once each, in order |
| `Policy.MergeLaws` | internal/sanitize/fields.go:356-375 | merging is commutative, associative and absorbs repetition |
| `Policy.MergedPolicyHides` | internal/sanitize/fields.go:356-375 | neither policy disables the other: what either lists is hidden under both |
| `Policy.WithRecordedMarkers` | internal/sanitize/comparison.go:17-63 | adds exactly the headers, pointers and form keys that hold a marker, each once, and sorts |
| `Policy.ExtendsInOneWay` | internal/sanitize/comparison.go:56-63 | the resulting lists are determined, so the order in which maps are visited cannot show |
| `Policy.WithRecordedQuery` | internal/sanitize/comparison.go:66-86 | adds exactly the query keys that hold a marker, each once, and sorts; a URL or query that does not parse changes nothing |
| `Replay.Applicable` | internal/replay/replacements.go:28-64 | succeeds exactly for requests it can classify, and selects exactly the rules whose field is present |
| `Replay.SelectionDependsOnKeys` | internal/replay/replacements.go:28-64 | values play no part: rule sets with the same keys select the same fields |
| `Replay.SelectedIsPresent` | internal/replay/replacements.go:28-64 | a rule is selected exactly when the request has its field, in a body of its kind |
| `Replay.WithheldQueryIsRefused` | internal/sanitize/fields.go:377-382 | a query that was withheld at capture is refused wherever there are rules for queries |
| `Replay.OnlyReadableBodiesChange` | internal/replay/replacements.go:28-106 | a body is changed only if it is not encoded, and JSON or a form |
| `Replay.RejectRemainingMarkers` | internal/replay/replacements.go:113-123 | fails exactly when a marker is left in the query or in a readable body |
| `Replay.OutgoingRequest.Apply` | internal/replay/replacements.go:68-111 | succeeds exactly when the request can be classified, every selected rule has a value, the fields can be written (always, if no rules overlap) and no marker stays; then the request is rebuilt at the selected fields only; a missing value and a remaining marker are reported exactly when they are the reason |
| `Replay.ChosenFields` | internal/replay/replacements.go:68-111 | the selected fields can all be replaced: apply never misses a target the selection found |
| `Preflight.ValidatePaths` | internal/cli/config.go:38-53 | accepts exactly the sets of valid pointers none of which lies below another |
| `Preflight.LaterPathsOnly` | internal/cli/config.go:46-53 | in sorted order it is enough to compare each path with the later ones |
| `Preflight.ReferenceIsUnique` | internal/cli/config.go:78-87 | an expression is a reference exactly when it is plain text around one ${NAME}, and its parts are determined |
| `Preflight.NamesAre` | internal/cli/secret_headers.go:273-312 | which names and which surrounding text are allowed, by code point |
| `Preflight.ResolveFields` | internal/cli/config.go:121-147 | succeeds exactly when every expression names a variable that is set and not empty; each value is the expression filled in |
| `Preflight.ResolveApplicable` | internal/cli/config.go:155-217 | succeeds exactly when every field the selected exchanges need can be resolved; then a rule some exchange needs has its expression filled in, and every other rule has no value |
| `Preflight.PreflightThenApply` | internal/cli/config.go:155-217 | the preflight passes exactly when every needed variable is set; then replay never stops for a missing value, and what is sent is the recorded request rebuilt with the expressions of its rules, filled in |
| `Preflight.SentFieldReads` | internal/replay/replacements.go:68-111 | said of one JSON field of the sent body: it reads as its expression, filled in |
| `Capture.ReaderKeepsFirst` | internal/capture/proxy.go:201-242 | for every cutting into reads: the first bytes up to the limit, the total size, and the flags for end and failure |
| `Capture.AbsentBodyIsEmpty` | internal/capture/proxy.go:201-205 | a request without a body captures nothing and ends at the first read |
| `Capture.WriterKeepsFirst` | internal/capture/proxy.go:280-313 | for every run of calls: the first bytes up to the limit, the total size, and the first write problem |
| `Capture.WriterFollowsTrace` | internal/capture/proxy.go:265-322 | for every run: exactly what goes downstream, and which status is on record |
| `Capture.StatusIsCommittedOnce` | internal/capture/proxy.go:265-322 | informational statuses, then at most one final one, no bytes or flush before it, and the recorded status is that one or the initial 200 |
| `Capture.InformationalIs` | internal/capture/proxy.go:265-278 | which statuses do not commit: those of section 15.2 of RFC 9110 except 101 |
| `Capture.ImplicitStatus` | internal/capture/proxy.go:280-322 | without a status call the first thing sent is 200, and 200 is on record |
| `Capture.ObservedKeepsFirst` | internal/replay/replay.go:406-435 | the replay client's capture keeps the first bytes and counts all of them |
| `Capture.ChunkingDoesNotShow` | internal/replay/replay.go:400-435 | one stream cut up in three ways leaves one record in all three captures |
| `Capture.CaptureReadCloser.Read` | internal/capture/proxy.go:201-221 | one read continues the run; what it returns is what the reader below gave |
| `Capture.CaptureReadCloser.Complete` | internal/capture/proxy.go:223-231 | complete exactly when no read failed and the announced length, or else the end, was reached |
| `Capture.CaptureReadCloser.Truncated` | internal/capture/proxy.go:251-252 | truncated exactly when more bytes came than the limit allows |
| `Capture.CaptureWriter.WriteHeader` | internal/capture/proxy.go:265-278 | one status call continues the run |
| `Capture.CaptureWriter.Write` | internal/capture/proxy.go:280-296 | one write continues the run and passes the answer of the writer below on |
| `Capture.CaptureWriter.Flush` | internal/capture/proxy.go:315-322 | one flush continues the run |
| `Capture.CaptureWriter.Complete` | internal/capture/proxy.go:309-311 | complete exactly when every write was taken in full and without error |
| `Capture.ResponseBodyCapture.Write` | internal/replay/replay.go:406-424 | one write continues the run and reports its whole length |
| `Capture.CaptureResponseBody` | internal/replay/replay.go:437-455 | copies until the first end or failure; the sizes fit, and the error is there exactly when a read failed |
| `Capture.RecordRequest` | internal/capture/proxy.go:339-364 | the recorded request accounts for its stream, holds nothing the policy protects in body or headers, and is complete exactly if the body was read in full and not withheld |
| `Capture.RecordResponse` | internal/capture/proxy.go:351-365 | the same for the response, which has the status that was committed |
| `Capture.PersistExchange` | internal/capture/proxy.go:326-378 | the store accepts every exchange, whatever was captured and whatever the policy, and nothing the policy protects in bodies or headers is in it |
| `Capture.Add` | internal/storage/repository.go:80-115 | stores exactly the exchanges whose two bodies have sizes that fit |
| `Scanner.ScanText` | internal/cli/secret_headers.go:531-667 | the index-driven loop computes the recursive scan, its errors included |
| `Scanner.ScanOfJson` | internal/cli/secret_headers.go:531-667 | on every JSON text, in any whitespace, the scan succeeds and gives that text with its string values redacted |
| `Scanner.RedactJson` | internal/cli/secret_headers.go:531-667 | fails exactly on invalid JSON: no branch for an unterminated string or escape is ever taken |
| `Scanner.LexemesAreKept` | internal/cli/secret_headers.go:587-664 | keys, numbers, literals, punctuation and whitespace stay the same in their places; a string value decodes to its redaction and keeps its spelling if unchanged |
| `Scanner.LexemesSpellText` | internal/cli/secret_headers.go:555-665 | those lexemes are the text: put together they spell it |
| `Scanner.RedactionDenotes` | internal/cli/secret_headers.go:609-664 | the output is well formed and denotes the input's value with its strings redacted |
| `JsonText.DecodeEncode` | internal/cli/secret_headers.go:426-459 | the string encoder's output is a valid JSON string that decodes to its input |
| `JsonText.EscapedIsRead` | internal/cli/secret_headers.go:609-617 | a character written as one or two \u escapes, in digits of either case, is read as itself |
| `JsonText.LoneSurrogate` | internal/cli/secret_headers.go:609-617 | a surrogate without its partner is read as the replacement character |
| `Scrub.RedactData` | internal/cli/secret_headers.go:477-529 | the loops compute the scrubbed value, whatever order the maps are visited in |
| `Scrub.ScrubbedIsClean` | internal/cli/secret_headers.go:474-529 | if the redactor gives clean strings only, every name, string, number and boolean left is clean |
| `Scrub.CleanDataStays` | internal/cli/secret_headers.go:474-529 | data with nothing to redact is left alone by this pass and by the scan of its text |
| `Scrub.ScrubbingTwiceIsOnce` | internal/cli/secret_headers.go:474-529 | with an idempotent redactor, scrubbing again or scanning the output changes nothing |
| `Scrub.PassAgreesWithScan` | internal/cli/secret_headers.go:474-529 | where only strings show secrets the pass over data and the scan of text redact the same |
| `Scrub.ScalarsAreHidden` | internal/cli/secret_headers.go:484-493 | a number or boolean that shows a secret becomes the marker as a whole |
| `Scrub.GreatestNameWins` | internal/cli/secret_headers.go:505-516 | of names that redact alike the greatest keeps its value |
| `Scrub.LowerPercentEscapes` | internal/cli/secret_headers.go:756-770 | the in-place loop lowers the two digits of each escape and nothing else |
| `Scrub.LoweredMeansTheSame` | internal/cli/secret_headers.go:755-770 | the result percent-decodes to the same bytes |
| `Scrub.LoweredIsLower` | internal/cli/secret_headers.go:755-770 | no escape keeps an upper-case digit, and exactly the texts without one are left alone |
| `UniqueNames.UniqueJsonValue` | internal/sanitize/fields.go:320-354 | reads exactly one value from the decoder, and passes exactly when no object in it repeats a name |
| `UniqueNames.SameTokens` | internal/sanitize/fields.go:320-354 | the token stream decides the check: two documents with the same tokens both pass or both fail |
| `UniqueNames.NoMemberIsLost` | internal/diff/body.go:203-219 | decoding an object holds all its members exactly when any two of one name have one value |
| `UniqueNames.NothingIsLost` | internal/diff/body.go:203-219 | decoding holds everything a text says, at every pointer, exactly when that is so in every object of the text |
| `UniqueNames.HeldIsSaid` | internal/diff/body.go:203-219 | whatever decoding holds, the text says |
| `UniqueNames.UniqueHasOneValue` | internal/sanitize/fields.go:320-354 | the check for repeated names is sufficient for that |
| `UniqueNames.RepeatedNames` | internal/diff/body.go:203-219 | of `{"a":x,"a":y}` with literals x and y the decoder keeps y; nothing is lost exactly if x and y are the same |

## Left out

- HTTP client and server, reverse proxy, transport, redirects, timeouts, signals: libraries and I/O; a replay is a given execution and a capture a given sequence of calls.
- SQLite, schema and transactions: foreign code; only the size check on bodies is modelled. Nothing is claimed about the order in which exchanges are listed.
- encoding/json, net/url and mime on bytes: functions of the `Library`; what a rewritten body looks like beyond its decoded value is not modelled.
- Integer width: sizes and limits are unbounded integers, while the program counts in int64; array indices in pointers are unbounded as well.
- `Replay.RejectRemainingMarkers`: takes the query of the outgoing URL as it is, where the program prints the URL and parses it again.
- UTF-8: texts are sequences of characters, so invalid UTF-8 inside a JSON string, which the decoder replaces, is not modelled.
- `Numbers.CanonicalizeJsonNumber`: the exponent of the form is an integer, while the program keeps the decimal text of that integer; equal texts and equal integers are the same there.
- Header names: case folding and trimming are those of ASCII letters.
- `Compare.CompareBody`: the SHA-256 digests of bodies that are not JSON are values of an uninterpreted function.
- `UniqueNames.UniqueJsonValue`: the decoder reads the tokens of a text that is valid, as its caller has checked, so its own error branches are never taken.
- `Capture.CaptureWriter.Write`: the answer of the writer below is an argument, and no call reaches that writer around the capture.
- `Capture.PersistExchange`: the URL, times and the error text of the exchange; `Policy.SanitizeQuery` is about the query of a URL that parses.
- `Preflight.ValidatePaths`: only the part about JSON replacement paths; the checks of header and field names are one-line tests.
- `Preflight.ResolveFields`: one group of fields; the request headers and the list of secrets collected on the way are not modelled.
- `Scrub.RedactData`: lists of header values are treated as JSON arrays of strings; values of other Go types pass through unchanged.
- The matching of strings.Replacer and the list of secret spellings it is given: the redactor is an arbitrary function on strings.
- BuildURL, joinPath, copyReplayHeaders and header overrides: easy members about URLs and header maps.
- runEach, Runner.Run and the summary counts: the visit order of a loop over given results.
- YAML, flags, help, rendering, version command and the example server.
