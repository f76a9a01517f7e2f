# Selective disclosure: model and proofs

The system lets a prover show a verifier chosen parts of an HTTP exchange. Messages and their JSON bodies
are parsed into trees of spans, where a span is bytes together with the indices they came from. A committer
hands a builder the index sets that make up a message's structure. A partial transcript holds the disclosed
bytes; before it is parsed again, every other byte is replaced with `*`. An enforcer compares JSON trees.

This project models that pipeline and proves what it is for. In reading order:

| file | what it holds |
|---|---|
| `RangeSets.dfy`, `Wire.dfy` | index sets as canonical lists of half-open ranges, proved to be the sets they stand for; bytes |
| `JsonTree.dfy` | the tree of spans, shifting, leaves, well-nestedness and faithfulness |
| `JsonParser.dfy` | the JSON grammar, ordered choices and implicit whitespace included, as recursive functions |
| `JsonTexts.dfy`, `JsonTextLaws.dfy` | an independent, generative account of the texts of that grammar and their meaning; the parser accepts exactly these |
| `JsonNesting.dfy`, `JsonLocality.dfy`, `JsonOffset.dfy`, `JsonPlacement.dfy` | parsed trees are well nested and faithful; a node parses again alone; shifting commutes with everything committed |
| `JsonCommit.dfy`, `JsonPartition.dfy`, `JsonPieces.dfy` | the committer's recursive loops over a mutable builder, what the sets add up to, and which sets they are, one by one |
| `JsonDisclosure.dfy`, `Disclosure.dfy` | the simulation between the parse of a source and of its masked copy; selective disclosure of a JSON text |
| `JsonPaths.dfy`, `JsonEnforcer.dfy` | dotted-path lookup; the enforcer and its laws |
| `Transcripts.dfy`, `TranscriptLaws.dfy`, `PartialTranscripts.dfy` | partial transcripts as values, laws of their runs, and the class with its byte arrays and loops |
| `Numerals.dfy`, `ChunkedBody.dfy`, `ChunkedLaws.dfy`, `ChunkMasking.dfy`, `ChunkPlacement.dfy` | chunk sizes, the chunk scanner's cursor loop, exactly what it accepts, its round trip, scanning after masking, and when a JSON text in chunks is placed right |
| `HttpMessages.dfy`, `HttpBody.dfy`, `HttpFraming.dfy`, `HttpCommit.dfy`, `StructureCommits.dfy`, `HttpDisclosure.dfy` | messages without their data, body and span computation, told again from the text of the headers, the HTTP committer, its runs over whole transcripts, exactness of what it opens |
| `BodyMasking.dfy`, `BodyReading.dfy`, `MessageDisclosure.dfy` | masked bodies read again; selective disclosure of whole HTTP messages |

The main theorems are `Disclosure.SelectiveDisclosure` and, for whole messages,
`MessageDisclosure.MaskedRequestReads` and `MessageDisclosure.MaskedResponseReads`: open what the committer
commits and any choice of JSON leaves, mask the rest, read again, and the result is the original in which
exactly the closed header values and the hidden leaves are masked. For messages this is an equivalence: it
holds exactly for the bodies `BodyReading.BodyReadable` names and, with chunk trailers, exactly when the two
bytes behind the response's span are opened as well.

Around them stand exact accounts of each part: `StructureCommits.CommitTranscriptStructure` (which bytes a run of the
committer opens), `TranscriptLaws.RunIsExact` (every byte after any run of merges and masks),
`JsonEnforcer.AcceptsIffAgrees` (what the enforcer accepts), and `HttpFraming` (which bytes are a body).

Panics are modelled: a function that may panic returns `None` or a `Panic` outcome, and a method requires that
it does not. Integers are unbounded; where `usize` can overflow (chunk sizes, body lengths) the overflow is a
panic, as it is with overflow checks on. A builder accepts or refuses each index set, and may
decide by what it holds already.

Where the code and its comments disagree, the model follows the code:

- The enforcer's array comment asks for the same number of elements; the code accepts any longer array
  (crates/context/src/json/enforce.rs:36-45).
- `parse_partial` is documented to set unauthenticated data to null bytes; it sets them to `*`
  (crates/context/src/http/transcript.rs:45-49).
- `PartialTranscript::new` is documented as initialised to zeros; it takes the data and the indices as given,
  without a bounds check (crates/context/src/transcript/transcript.rs:215-235).
- With chunk trailers, the span of a response stops two bytes before the end of the message
  (crates/spanner/src/http/span.rs:201). `HttpDisclosure.ResponseSpanIsMessage` says exactly when.
  So a masked response is scanned as before if and only if these two bytes were kept
  (`ChunkMasking.ScanAfterMasking`, `MessageDisclosure.TrailersBreakReading`).
- A JSON body in several chunks is shifted by its least index only (crates/spanner/src/http/span.rs:366).
  Its spans are right if and only if the root's text fits the first chunk, which for an object or array is to
  say that the first chunk parses on its own (`ChunkPlacement.EncodedRootIsPlacedIff`,
  `HttpDisclosure.ChunkedBodyIsPlacedIff`); `HttpDisclosure.TwoChunksAreMisplaced` is an input for which they
  are not.
- `Body::offset` leaves the content where it was (crates/spanner/src/http/types.rs:461-463), see
  `HttpDisclosure.OffsetBodyLeavesContent` and `HttpDisclosure.OffsetBodyLeavesJson`.

Two properties one might expect hold only under a condition. The enforcer does not accept every value against
itself; `JsonEnforcer.ReflexiveIffFirstsFit` says which it does. A partial transcript made from unchecked
indices can count as complete with bytes unauthenticated; `TranscriptLaws.CompleteIffInBounds` gives the check
that rules this out.

## Model

| member | source | states |
|---|---|---|
| RangeSets.Union | crates/context/src/transcript/transcript.rs:346-347 | union of canonical range lists is union of the index sets, and canonical again |
| RangeSets.Difference | crates/spanner/src/json/types.rs:251-253 | difference of canonical range lists is difference of the index sets, and canonical again |
| RangeSets.ShiftRight | crates/spanner/src/lib.rs:145-147 | every index moves up by the offset and none is lost |
| RangeSets.FromRanges | crates/spanner/src/http/span.rs:352 | a set built from any list of ranges, in any order, holds exactly their indices |
| RangeSets.CanonicalUnique | crates/context/src/transcript/transcript.rs:740-766 | equal index sets are equal range lists, so comparing ranges compares sets |
| RangeSets.LenIsCardinality | crates/context/src/transcript/transcript.rs:248-251 | the length counted range by range is the number of indices |
| RangeSets.InBoundsMeansBelow | crates/context/src/transcript/transcript.rs:254-259 | testing the end of the last range tests every index |
| JsonTextLaws.TextParses | crates/spanner/src/json/json.pest:17-41 | every text of the grammar, whitespace, optional pair commas and escapes included, parses wherever it stands to exactly its tree and end position |
| JsonTextLaws.TextOf | crates/spanner/src/json/json.pest:17-41 | whatever parses is such a text, and the tree is that text's |
| JsonTextLaws.ParsesExactlyTexts | crates/spanner/src/json/span.rs:35-43 | a source parses to a tree if and only if it begins with a text that means it and ends there: a bare number, literal or run of stars must not go on |
| JsonTextLaws.LongerSourceParses | crates/spanner/src/json/span.rs:35-43 | what parses to an object or array parses to it whatever follows |
| JsonTextLaws.ShorterSourceParses | crates/spanner/src/json/span.rs:35-43 | a prefix of a source with an object or array as its root parses if and only if the root's text fits into it |
| JsonTextLaws.MemberParses | crates/spanner/src/json/span.rs:64-83 | a pair's span runs from its key to its comma, or to its value when it has none; the key and value spans follow |
| JsonTextLaws.QuotedParses | crates/spanner/src/json/json.pest:27-30 | whitespace after an opening quote is outside the string's span, escapes are inside |
| JsonTexts.ByteClasses | crates/spanner/src/json/json.pest:29-41 | whitespace, digits, hexadecimal digits and stars are the characters the grammar lists |
| JsonTexts.Punctuation | crates/spanner/src/json/json.pest:17-39 | brackets, separators, escapes and literals are the characters the grammar spells |
| JsonNesting.ParsedTreeNested | crates/spanner/src/json/span.rs:64-124 | children lie inside their parent in order and apart, keys before values, and every node's data is the source at its indices |
| JsonNesting.PairForm | crates/spanner/src/json/span.rs:68 | trimming leaves the pair's span ending right after its value or its comma |
| JsonLocality.ParsingIsLocal | crates/spanner/src/json/span.rs:35-43 | any node but a string, parsed alone from its own data and shifted to where it stood, is that node with all its spans |
| JsonOffset.OffsetAdds | crates/spanner/src/json/types.rs:42-62 | two shifts are one by the sum, and a shift by nothing changes nothing |
| JsonOffset.StructureShifts | crates/spanner/src/json/types.rs:251-253 | shifting a tree shifts every set its structure commits, and changes nothing else about them |
| JsonOffset.BracketsShift | crates/spanner/src/json/types.rs:315-328 | an array's brackets commute with shifting |
| JsonOffset.SeparatorsShift | crates/spanner/src/json/types.rs:331-340 | an array's separators commute with shifting |
| JsonOffset.MinusPairsShifts | crates/spanner/src/json/types.rs:387-393 | an object without its pairs commutes with shifting |
| JsonOffset.WithoutValueShifts | crates/spanner/src/json/types.rs:251-253 | a pair without its value commutes with shifting |
| JsonPlacement.OffsetKeepsNesting | crates/spanner/src/json/types.rs:42-62 | a shifted tree is still well nested |
| JsonPlacement.OffsetIsFaithful | crates/spanner/src/json/types.rs:42-62 | shifted to where its text stands in a larger source, every node points at its data there |
| JsonPlacement.PlacedIffRootIs | crates/spanner/src/http/span.rs:365-366 | after a shift, every node points at its data if and only if the root does |
| JsonCommit.WithoutPairs | crates/spanner/src/json/types.rs:387-393 | the loop computes the indices that no pair spans |
| JsonCommit.WithoutValues | crates/spanner/src/json/types.rs:315-328 | the two brackets of an array |
| JsonCommit.Separators | crates/spanner/src/json/types.rs:331-340 | the array without its brackets and without its values |
| JsonCommit.CommitmentBuilder.Commit | crates/context/src/transcript/commit.rs:14-18 | the builder, deciding by what it holds, keeps an accepted set behind all earlier ones, and nothing when it refuses |
| JsonCommit.CommitStructure | crates/context/src/json/commit.rs:56-105 | the recursive loops leave the builder with exactly the structure's commits, or with those before the first refusal |
| JsonCommit.CommitValue | crates/context/src/json/commit.rs:114-131 | the same for everything a value commits; a redacted value stops it with an error |
| JsonCommit.CommitObject | crates/context/src/json/commit.rs:141-156 | the object without its pairs, then every pair |
| JsonCommit.CommitKeyValue | crates/context/src/json/commit.rs:168-185 | the pair without its value, then its value |
| JsonCommit.CommitArray | crates/context/src/json/commit.rs:196-228 | the whole array, and if it has elements its brackets, each separator range and each element |
| JsonCommit.CommitString | crates/context/src/json/commit.rs:237-252 | a string as a whole, and nothing for an empty one |
| JsonPartition.StructurePartition | crates/context/src/json/commit.rs:56-105 | the sets committed for structure are pairwise disjoint, touch no leaf, and add up to the root's span without its leaves |
| JsonPartition.GivesUpOnRedacted | crates/context/src/json/commit.rs:114-131 | committing a value gives up if and only if some node is redacted |
| JsonPartition.RunSucceeds | crates/context/src/json/commit.rs:114-228 | a run succeeds if and only if no step gives up and the builder, each time with what it held by then, accepts every set; then it holds all of them in order |
| JsonPartition.CommitValueSucceeds | crates/context/src/json/commit.rs:114-252 | whatever the builder holds, if it never refuses: success if and only if nothing is redacted, then the sets add up to the root's span and each non-empty leaf is a set of its own |
| JsonPartition.SelectedCover | crates/context/src/json/commit.rs:114-252 | for any choice of leaves, the root's structure plus those leaves is an exact union of sets |
| JsonPartition.SelectedAreCommitted | crates/context/src/json/commit.rs:114-252 | and these sets are all among those a value commits |
| JsonPartition.LeafIsCommitted | crates/context/src/json/commit.rs:237-315 | every leaf that spans anything is committed on its own |
| JsonPieces.StepsArePieces | crates/context/src/json/commit.rs:56-228 | a set is committed for a tree if and only if it is a piece of one of its nodes: an object's frame, a pair without its value, an array's brackets and what lies between them, and with values the whole array, each separator run and each leaf |
| JsonPieces.RunCommitsPieces | crates/context/src/json/commit.rs:56-252 | every run adds only such pieces, each accepted by what the builder held; all of them if it succeeds, and if not one was refused or a redacted value stopped it |
| JsonPieces.StepsInOrder | crates/context/src/json/commit.rs:141-228 | frames come before what they frame, and children one after the other |
| JsonPieces.PairStepsInOrder | crates/context/src/json/commit.rs:168-185 | a pair's own set comes before its value's |
| JsonDisclosure.ValueFollows | crates/spanner/src/json/json.pest:17-39 | parsing a masked copy, or a part of one, follows the original parse step by step and yields the same tree with the hidden leaves masked |
| Disclosure.ShownOrHidden | crates/context/src/json/commit.rs:56-105 | every leaf index is either shown or hidden, never both |
| Disclosure.MaskedRootParses | crates/spanner/src/json/span.rs:35-43 | masking hidden leaves and anything after the root changes nothing in the parsed tree but those leaves |
| Disclosure.SelectiveDisclosure | crates/context/src/http/transcript.rs:47-60 | for every object or array and every choice of leaves: opening structure and leaves, masking the rest and parsing again gives the same tree with exactly the other leaves masked |
| JsonPaths.GetIsWalk | crates/spanner/src/json/types.rs:80-90 | a lookup visits the children its dot-separated segments name, numbers in arrays and first keys in objects |
| JsonPaths.SegmentsAreSplit | crates/spanner/src/json/types.rs:299-303 | the segments are the only list without dots that the path is made of |
| JsonPaths.FoundIsFirst | crates/spanner/src/json/types.rs:367-372 | a key finds the first pair that has it |
| JsonPaths.NodeIsFound | crates/spanner/src/json/types.rs:299-379 | every node is found by its own path of decimal indices and keys, unless a key on the way holds a dot or is repeated |
| JsonPaths.GetIsCompositional | crates/spanner/src/json/types.rs:299-379 | looking up `p.q` is looking up `p` and then `q` |
| JsonPaths.KeyValueIsInParent | crates/spanner/src/json/types.rs:93-124 | a pair is found if and only if the parent is an object with the last key, and the whole path then finds that pair's value |
| JsonEnforcer.AcceptsArrayPointwise | crates/context/src/json/enforce.rs:41-45 | an array is accepted if and only if it is at least as long as its structure and each element of the structure accepts its counterpart |
| JsonEnforcer.AcceptsObjectPointwise | crates/context/src/json/enforce.rs:27-34 | an object is accepted if and only if the first pair with each key of the structure has an accepted value |
| JsonEnforcer.LeafIsAccepted | crates/context/src/json/enforce.rs:10-16 | a leaf of the structure is accepted if and only if it is redacted, or of the same kind with the same text where there is text to compare |
| JsonEnforcer.AcceptsIffAgrees | crates/context/src/json/enforce.rs:8-45 | a value is accepted if and only if every node of the structure, wherever it stands, agrees with the node it is compared with: the same element, or the value of the first pair with its key |
| JsonEnforcer.LookupsAreTransported | crates/context/src/json/enforce.rs:8-45 | whatever a path finds in an accepted structure it finds in the value, accepted again, even with repeated keys |
| JsonEnforcer.LookupsAreSound | crates/context/src/json/enforce.rs:8-45 | where a path finds something not redacted in an accepted structure, it finds the same kind in the value, and the same text for booleans, numbers and strings |
| JsonEnforcer.AcceptanceIsTransitive | crates/context/src/json/enforce.rs:8-45 | acceptance is transitive on all trees |
| JsonEnforcer.ProjectionIsAccepted | crates/context/src/json/enforce.rs:8-45 | with unique keys, every structure got by redacting sub-values, dropping members and truncating arrays is accepted |
| JsonEnforcer.AcceptanceIsReflexive | crates/context/src/json/enforce.rs:8-45 | with unique keys, every value is accepted against itself |
| JsonEnforcer.RepeatedKeyIsNotReflexive | crates/context/src/json/enforce.rs:27-34 | with a repeated key it need not be |
| JsonEnforcer.ReflexiveIffFirstsFit | crates/context/src/json/enforce.rs:8-45 | a value is accepted against itself if and only if each pair that repeats a key is accepted against the first pair with it, everywhere in the tree where first pairs lead |
| JsonEnforcer.DisclosureIsAccepted | crates/context/src/json/enforce.rs:8-24 | with unique keys, a disclosed tree is accepted as a structure of the original if and only if every hidden string already was all stars |
| Transcripts.Get | crates/context/src/transcript/transcript.rs:79-93 | a subsequence exists if and only if its indices are in bounds, and is the data of its direction at them |
| Transcripts.ScatterGathered | crates/context/src/transcript/transcript.rs:483-490 | writing back what was read at some indices pastes the source there and nowhere else |
| Transcripts.GatherScattered | crates/context/src/transcript/transcript.rs:483-490 | reading back what was written gives it back |
| TranscriptLaws.PartialHoldsOnly | crates/context/src/transcript/transcript.rs:105-127 | a partial transcript holds the opened bytes and zeros, and exists if and only if the indices are in bounds |
| TranscriptLaws.PartialTellsOnlyOpened | crates/context/src/transcript/transcript.rs:105-127 | two transcripts have the same partial transcript if and only if they have the same lengths and agree at the opened indices |
| TranscriptLaws.UnionMeans | crates/context/src/transcript/transcript.rs:318-348 | for any two partial transcripts: when merging panics, and every byte and index of the result |
| TranscriptLaws.SubsequenceMeans | crates/context/src/transcript/transcript.rs:355-366 | after merging a subsequence its indices are authenticated and hold its data; nothing else changes |
| TranscriptLaws.MaskMeans | crates/context/src/transcript/transcript.rs:373-402 | masking sets exactly the gaps, of both directions or of one range of one direction |
| TranscriptLaws.StepPanics | crates/context/src/transcript/transcript.rs:312-402 | an operation with parts of one transcript panics if and only if it touches an index outside it |
| TranscriptLaws.RunKeeps | crates/context/src/transcript/transcript.rs:318-402 | over every run: lengths stay, authenticated indices stay in bounds and only grow, every authenticated byte is the transcript's |
| TranscriptLaws.RunIsExact | crates/context/src/transcript/transcript.rs:318-402 | every run, exactly: authenticated at the end is what was at the start and everything merged; every other byte is the last value it was masked with, or what it was |
| TranscriptLaws.CompleteMeansAll | crates/context/src/transcript/transcript.rs:248-251 | complete if and only if nothing is unauthenticated, and then the data is the transcript |
| TranscriptLaws.CompleteOutOfBounds | crates/context/src/transcript/transcript.rs:223-235 | without a bounds check a partial transcript can count as complete with a byte unauthenticated |
| TranscriptLaws.CompleteIffInBounds | crates/context/src/transcript/transcript.rs:223-251 | a partial transcript that counts as complete has no gap if and only if its indices are in bounds |
| TranscriptLaws.MergeIsUnion | crates/context/src/transcript/transcript.rs:318-348 | merging two disclosures of a transcript is the disclosure of the union, byte for byte |
| TranscriptLaws.MergeAllIsUnion | crates/context/src/transcript/transcript.rs:318-348 | and so for any list of disclosures |
| TranscriptLaws.MergeOrderIsIrrelevant | crates/context/src/transcript/transcript.rs:318-348 | lists that open the same indices merge to the same partial transcript, whatever their order and repetition |
| TranscriptLaws.MaskingIsNonInterfering | crates/context/src/http/transcript.rs:47-54 | what is parsed depends on the disclosed bytes alone |
| TranscriptLaws.CoveringMasksMaskAll | crates/context/src/transcript/transcript.rs:373-402 | masking ranges that cover all gaps, in any order, is masking everything |
| TranscriptLaws.DecompressThenCompress | crates/context/src/transcript/transcript.rs:167-212 | every compressed form that passes validation decompresses and compresses back to itself |
| TranscriptLaws.CompressThenDecompress | crates/context/src/transcript/transcript.rs:167-212 | decompressing a compression zeroes the unauthenticated bytes, and is the identity if and only if they were zero |
| TranscriptLaws.CompressPanics | crates/context/src/transcript/transcript.rs:167-182 | compressing panics if and only if an authenticated index is outside the data |
| TranscriptLaws.ValidationMeans | crates/context/src/transcript/transcript.rs:533-558 | validation accepts exactly what compressing yields, and names what is wrong with the rest |
| PartialTranscripts.CopyTo | crates/context/src/transcript/transcript.rs:483-490 | the loop with its walking offset writes each range its part of the data |
| PartialTranscripts.FillRanges | crates/context/src/transcript/transcript.rs:373-402 | the fill loop sets exactly the bytes at the indices |
| PartialTranscripts.CopyRanges | crates/context/src/transcript/transcript.rs:113-119 | the copy loop copies exactly the bytes at the indices |
| PartialTranscripts.PartialTranscript.constructor | crates/context/src/transcript/transcript.rs:223-235 | takes data and indices as they are |
| PartialTranscripts.PartialTranscript.ToPartial | crates/context/src/transcript/transcript.rs:105-127 | the transcript's bytes at the opened indices and zeros everywhere else |
| PartialTranscripts.PartialTranscript.Decompress | crates/context/src/transcript/transcript.rs:184-212 | the decompressed value of a validated form |
| PartialTranscripts.PartialTranscript.UnionTranscript | crates/context/src/transcript/transcript.rs:318-348 | the in-place union, which copies newly authenticated bytes only and leaves the other transcript alone |
| PartialTranscripts.PartialTranscript.UnionSubsequence | crates/context/src/transcript/transcript.rs:355-366 | the in-place union with a subsequence in one direction: its indices become authenticated and hold its data, every other byte and the other direction stay |
| PartialTranscripts.PartialTranscript.SetUnauthed | crates/context/src/transcript/transcript.rs:373-380 | every unauthenticated byte of both directions is set, no other changes |
| PartialTranscripts.PartialTranscript.SetUnauthedRange | crates/context/src/transcript/transcript.rs:389-402 | the same within one range of one direction |
| PartialTranscripts.PartialTranscript.MaskedBytes | crates/context/src/http/transcript.rs:47-54 | the bytes of a masked clone; the transcript itself is unchanged |
| PartialTranscripts.PartialTranscript.Compress | crates/context/src/transcript/transcript.rs:167-182 | the authenticated bytes in order, with indices and total lengths |
| Numerals.HexRoundTrip | crates/spanner/src/http/span.rs:325-328 | a chunk size written in hexadecimal reads back as itself |
| Numerals.DecimalRoundTrip | crates/spanner/src/http/span.rs:250-252 | a length written in decimal reads back as itself |
| Numerals.ReadsExactlyNumbers | crates/spanner/src/http/span.rs:325-328 | what is read as a number is exactly a 64-bit number as it may be written: an optional plus sign, leading zeros, digits in either case |
| HttpFraming.DecimalSpells | crates/spanner/src/http/span.rs:250-252 | the usual decimal form is one of these |
| ChunkedBody.TakeLine | crates/spanner/src/http/span.rs:314-322 | the bytes up to the first line break, or to the end of the source |
| ChunkedLaws.LineBreakText | crates/spanner/src/http/span.rs:318-319 | a line break is a carriage return and a line feed |
| ChunkedBody.ChunkedBodyRanges | crates/spanner/src/http/span.rs:304-353 | the cursor loop ends as the chunk-by-chunk scan does, panics and errors included, with its three vectors as range sets |
| ChunkedLaws.ScannerAcceptsLayouts | crates/spanner/src/http/span.rs:312-350 | the scanner returns given ranges if and only if they tile the source: boundaries and contents alternate, each content as long as the line before it says, two bytes after each content, a zero size at the end |
| ChunkedLaws.ScannerRefuses | crates/spanner/src/http/span.rs:312-350 | the scanner ends with a given error or panic if and only if, behind some chunks, the next line is no size, the trailers lack their empty line, or a content, a line or the cursor runs out |
| ChunkedLaws.RangesStayApart | crates/spanner/src/http/span.rs:352 | turning the vectors into range sets merges and loses nothing |
| ChunkedLaws.ScanBounds | crates/spanner/src/http/span.rs:312-350 | contents and boundaries lie in bounds, apart from each other, before the last boundary's end |
| ChunkedLaws.ChunkedRoundTrip | crates/spanner/src/http/span.rs:304-353 | for every prefix, chunked encoding and suffix: contents read back the payload, boundaries the size lines, the trailer range the trailers |
| ChunkedLaws.PartsRoundTrip | crates/spanner/src/http/span.rs:304-353 | every list of non-empty parts sent as hexadecimal chunks is scanned back, and two bytes after the last boundary the encoding ends |
| ChunkMasking.ScanAfterMasking | crates/spanner/src/http/span.rs:304-353 | masking contents leaves the scan as it was if and only if there are no trailers or the two bytes behind the response's span are kept; otherwise no end is found, or one further on |
| ChunkPlacement.ChunkedRootIsPlacedIff | crates/spanner/src/http/span.rs:312-366 | unless its root is a string, a JSON text in scanned chunks is placed right if and only if the root's text fits the first content; an object or array, if and only if the first content parses on its own |
| ChunkPlacement.ChunkedStringIsPlacedIff | crates/spanner/src/http/span.rs:312-366 | a string that begins in the first content and holds no carriage return is placed right if and only if it ends there |
| ChunkPlacement.EncodedRootIsPlacedIff | crates/spanner/src/http/span.rs:304-373 | the same for every chunked encoding, told by the chunks that were sent |
| HttpMessages.WithoutValue | crates/spanner/src/http/types.rs:78-80 | the header's indices that are not its value's |
| HttpMessages.SameNameMeans | crates/spanner/src/http/types.rs:216-220 | names are the same if and only if they are the same letters, ASCII case aside |
| HttpMessages.WithNameIsFirst | crates/spanner/src/http/types.rs:216-220 | the first result of a lookup by name is the first header of that name, ASCII case aside |
| HttpMessages.RequestWithoutData | crates/spanner/src/http/types.rs:223-232 | the loop leaves what target, headers and body do not span |
| HttpMessages.ResponseWithoutData | crates/spanner/src/http/types.rs:408-417 | the loop leaves what headers and body do not span |
| HttpBody.NewBytesSet | crates/spanner/src/lib.rs:236-247 | the fold collects exactly the source's data at the indices |
| HttpBody.FinishRequest | crates/spanner/src/http/span.rs:79-103 | a request gets the body its headers announce and the span that includes it; each error has its cause, which `HttpFraming` tells from the headers' text |
| HttpFraming.RequestBodyLenMeans | crates/spanner/src/http/span.rs:234-258 | the length is n if and only if no header is named transfer-encoding and the first content-length spells n in decimal, or n is 0 and there is none |
| HttpFraming.RequestIsFramed | crates/spanner/src/http/span.rs:79-103 | a parsed request has exactly that many body bytes behind its head, and its span ends with them |
| HttpFraming.RequestFailsBecause | crates/spanner/src/http/span.rs:79-103 | each way a request is refused, told by the text of its headers |
| HttpFraming.BodyKind | crates/spanner/src/http/span.rs:362-373 | a body is JSON if and only if the first content-type begins with application/json; then it is the parse of its bytes, moved to where they start |
| HttpBody.ResponseBodyRanges | crates/spanner/src/http/span.rs:260-302 | status code, transfer encoding and content length decide the ranges, in that order: a chunk layout from the head's end on, as many bytes as the length says, or none; each error has its cause |
| HttpBody.FinishResponse | crates/spanner/src/http/span.rs:172-208 | a response gets body, boundaries and the span its ranges say; each error has its cause |
| HttpFraming.RangesOfMeans | crates/spanner/src/http/span.rs:260-302 | the status code and the text of the headers decide the ranges: none for 1xx, 204 and 304, chunks, a decimal length, or an error |
| HttpFraming.NoStatusPanics | crates/spanner/src/http/span.rs:264-270 | a status code that is no number is a panic |
| HttpFraming.ResponseIsFramed | crates/spanner/src/http/span.rs:172-208 | a response that is not chunked has exactly the announced number of body bytes, none with a bodiless status code |
| HttpFraming.ChunkedResponseIsFramed | crates/spanner/src/http/span.rs:172-208 | the body of a chunked response is the payload of its chunks, in whatever case the coding is named |
| HttpBody.ChunkedRangesFit | crates/spanner/src/http/span.rs:193-204 | the span of a chunked response ends right after a line break, inside the source, around all contents and boundaries |
| HttpBody.BodyRangesFit | crates/spanner/src/http/span.rs:174-204 | so does every body that lies inside the source |
| HttpCommit.CommitRequest | crates/context/src/http/commit.rs:420-447 | one pass of the loop over requests leaves exactly that request's commits |
| HttpCommit.CommitResponse | crates/context/src/http/commit.rs:449-488 | one pass of the loop over responses leaves exactly that response's commits |
| StructureCommits.CommitTranscriptStructure | crates/context/src/http/commit.rs:415-491 | all requests as sent, then all responses as received: every new commitment is a set of a message in its direction, accepted in turn; on success all sets are there and, in messages that lie apart, the open bytes are exactly those not closed |
| StructureCommits.RequestStepsArePieces | crates/context/src/http/commit.rs:420-447 | the sets committed for a request: its frame, its target, each header without its value, the first header of each of the four names, and its body's structure |
| StructureCommits.ResponseStepsArePieces | crates/context/src/http/commit.rs:449-488 | the sets committed for a response: its frame, each header, whole under the four names, its body's structure, its boundaries and trailers |
| StructureCommits.RequestOrder | crates/context/src/http/commit.rs:420-447 | a request's frame, target, headers, named headers and body come in this order |
| StructureCommits.ResponseOrder | crates/context/src/http/commit.rs:449-488 | a response's frame, headers, body, boundaries and trailers come in this order |
| StructureCommits.RunCommitsMessages | crates/context/src/http/commit.rs:415-491 | what every run over a transcript leaves, succeed or not |
| StructureCommits.CommittedOpensExactly | crates/context/src/http/commit.rs:415-491 | once every set is committed, an index of a message is open in its direction if and only if that message does not close it, and no other index is |
| HttpCommit.RequestStructureIsExact | crates/context/src/http/commit.rs:420-447 | a request opens all of its span but the values of headers that are not the first of the four names, and the closed part of its JSON body |
| HttpCommit.OpenedInRequest | crates/context/src/http/commit.rs:428-432 | a request opens a header's value if and only if it is the first header named host, content-length, content-type or transfer-encoding |
| HttpCommit.OpenedInResponse | crates/context/src/http/commit.rs:452-460 | a response opens every header of these names |
| HttpCommit.ResponseStructureIsExact | crates/context/src/http/commit.rs:449-488 | a response keeps open every header with those names; boundaries and trailers open nothing beyond `without_data` |
| HttpCommit.AllRequestsAreExact | crates/context/src/http/commit.rs:420-447 | over all requests, a byte is opened if and only if its own request does not close it |
| HttpCommit.AllResponsesAreExact | crates/context/src/http/commit.rs:449-488 | over all responses likewise |
| HttpDisclosure.SingleRangeBodyIsPlaced | crates/spanner/src/http/span.rs:362-373 | in a single-range JSON body every node's indices select its data in the whole message |
| HttpDisclosure.ManyRangeBodyIsPlacedIff | crates/spanner/src/http/span.rs:362-373 | in a body of several ranges they do if and only if the root's do, so a caller has one comparison to make |
| HttpDisclosure.ChunkedBodyIsPlacedIff | crates/spanner/src/http/span.rs:362-373 | in a chunked body whose root is no string they do if and only if the root's text fits the first range; for an object or array, if and only if the first range's bytes parse on their own |
| HttpDisclosure.RootInBodyIffFits | crates/spanner/src/http/span.rs:362-373 | the root's indices lie in the body if and only if the root fits the ranges, which the bytes of the first range tell |
| HttpDisclosure.TwoChunksAreMisplaced | crates/spanner/src/http/span.rs:366 | for a number in two chunks they do not |
| HttpDisclosure.OffsetBodyLeavesContent | crates/spanner/src/http/types.rs:461-463 | moving a body of unknown content leaves that content behind, unless it moves by nothing or is empty |
| HttpDisclosure.OffsetBodyLeavesJson | crates/spanner/src/http/types.rs:461-463 | moving a JSON body leaves its tree outside as soon as it moves past the root's first index, an object or array as soon as it moves |
| HttpDisclosure.ParsedRequestIsExact | crates/spanner/src/http/span.rs:79-103 | every parsed request is nested as the committer needs, so its structure is exact |
| HttpDisclosure.ParsedResponseIsExact | crates/spanner/src/http/span.rs:172-208 | every parsed response is too if and only if the root of a JSON body fits its ranges, told from the source before the call; one range is enough |
| HttpDisclosure.ResponseSpanIsMessage | crates/spanner/src/http/span.rs:193-204 | the span of a chunked response is the whole message if and only if it has no trailers, and else stops two bytes short |
| BodyMasking.MaskedBodyParses | crates/spanner/src/http/span.rs:362-373 | masked at its hidden leaves, a JSON body parses as the tree with these leaves masked, spans in the message included |
| BodyReading.ParsePartialMasks | crates/context/src/http/transcript.rs:47-54 | what is parsed of a partial transcript is each direction with a star for every byte not opened |
| BodyReading.BodyReads | crates/spanner/src/http/span.rs:362-373 | a masked body whose root fits its ranges reads as the original with hidden leaves masked if and only if it is readable: an object, array or unknown content always, a string never, other leaves when shown or alone |
| MessageDisclosure.MaskedRequestReads | crates/context/src/http/transcript.rs:47-60 | a disclosed request reads as sent, in which exactly the closed header values and the hidden leaves are masked, if and only if its body is readable |
| MessageDisclosure.MaskedResponseReads | crates/context/src/http/transcript.rs:47-60 | a disclosed response, chunked or not, reads as received likewise if and only if its body is readable and, with trailers, the two bytes behind its span are opened |
| MessageDisclosure.TrailersBreakReading | crates/spanner/src/http/span.rs:193-204 | unless those two bytes stay, the response is not read at all or is read as ending further on |

## Left out

- JsonTree.Offset: trees and spans are values, so shifting returns a new tree; updating spans in place and sharing of the source buffer are not captured.
- ChunkPlacement.ChunkedRootIsPlacedIff: asks for a line break after each content, as section 7.1 of RFC 9112 does but the scanner does not check; without one the two bytes there may continue the root's text. A string root may itself hold the frame's bytes, so for strings beyond `ChunkedStringIsPlacedIff` only `HttpDisclosure.ManyRangeBodyIsPlacedIff` remains.
- JsonLocality.ParsingIsLocal: leaves out strings, whose span lacks the quotes.
- Disclosure.SelectiveDisclosure: leaves out sources whose root is a leaf, for which nothing is committed as structure.
- MessageDisclosure.MaskedRequestReads: takes the parsed head as given, at the same positions and with the data that the masked bytes hold there; that the head parser accepts `*` in header values is not part of this model.
- MessageDisclosure.MaskedResponseReads: asks that the root of a JSON body fits its ranges, for otherwise the indices of its leaves are not where the leaves are, see `HttpDisclosure.ChunkedBodyIsPlacedIff`.
- ChunkedBody.ChunkedBodyRanges: an overflow of the cursor is a panic; wrap-around with overflow checks off is not modelled, nor the UTF-8 check of a size line.
- JsonCommit.CommitStructure: asks for well-nested trees, because an array without brackets panics in the code; every parsed tree is well nested.
- HttpCommit.RequestStructureIsExact: message spans are taken as nested; `HttpDisclosure.ParsedRequestIsExact` shows they are when the head was parsed in order.
- HttpCommit.CommitResponse: header names are compared after ASCII lower-casing; a non-ASCII letter that lower-cases to an ASCII one is not modelled.
- Head parsing by `httparse`, recovery of header spans by pointer arithmetic, and the `Requests` and `Responses` iterators.
- UTF-8 validation: JSON sources are bytes of valid text. All delimiters are ASCII, so leaf spans fall on character boundaries.
- `commit_transcript` and the per-part HTTP commits beside `commit_structure`, which commit whole parts one by one.
- JSON values as serde values, contexts, serialization, float parsing, error messages, and the TLS connection checks.
- `offset` on HTTP messages other than the body, whose spans shift like any other.
