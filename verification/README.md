# Tracepress compression and accounting, verified

A Dafny 4.11 model of the two parts of Tracepress whose results rest on exact bookkeeping:

- the bounded compression engine of `crates/tracepress-compression`: the byte-level JSON minifier with its
  out-of-band recovery stream, the duplicate-key validator, the string-token scanner, the factoring and row
  projections, the search-output parser and printer, and the engines that splice their results into requests;
- the accounting of the measurement scripts: the chunked line reader, the equality observer and its verdict, the
  analysis ledger, the scheduler audit, fingerprint matching, lineages and the apportioning of eviction overhead.

Run `dafny verify dfyconfig.toml` in this directory.

## How it is built

Code that updates variables in loops is a method with those loops, and its contract equates the result with a
specification function; what the code promises is then proved about that function for all inputs. Objects with state
(`DuplicateParser`, `EqualityState`) are classes. Recursive rebuilding (`strip_empty_fields`, `factor_value`) stays
functions. Errors are results, never preconditions.

| module | models |
|---|---|
| Base, Varint, Decimal, Sorting | limits and statuses, the varint helpers, decimal text, sorting on tuple keys |
| JsonString, JsonGrammar, Values | strings, documents and values of RFC 8259 (sections 2 to 7), with a printer and a reference parser that are inverses |
| Lexical, Minify | the minifier, its recovery stream and the evaluation gates |
| StringTokens, Validator | the string-token scanner and splice, the recursive-descent validator |
| Active, RewriteLaws | the JSON rewriter of requests and its laws |
| Factor, StripFields, Rows, Tables, ReadableTables, RepeatedValues | the structural projections |
| Search, SearchLaws, SearchRoundTrip, SearchEnvelope | search output, its round trip and its JSON envelope |
| SearchRewrite, SearchRewriteLaws | the search reducer, the search rewriter of requests and its laws |
| LineSplitter, KeyEquality, KeyVerdict, Survival | line reader, equality observer and verdict, survival matching |
| Lineages, Eviction | tool-result lineages, eviction candidates and the aggregate simulation |
| Ledger, LedgerOrder, SchedulerAudit, SchedulerGate | outcomes of requests, the sidecar audit and the aggregate gate |

## What the environment may do

- The JSON library is the grammar together with an arbitrary `Library`: the further documents it refuses (its nesting
  limit, numbers out of range) and the text it prints for a number it has read. Every theorem holds for every such
  library; all that is known is that numbers stay numbers and that unsigned 64-bit integers, and nothing else, are
  printed in plain digits. In particular a printed float need not be read back as the same float, since no manifest
  asks the library for exact float parsing. `Stable` says of a value that all its numbers are, and what depends on it
  is stated as an equivalence with it.
- Objects are read into the library's ordered map, as no manifest asks it to keep the order of the document: keys in
  byte order, the last of repeated keys. A number is the text the library prints for it, and two numbers are equal when
  these texts are, except that the two float zeros are equal too.
- Digests are compared as the bytes they digest. A recovery copy is the input itself.
- Every reading of the clock is a parameter (`late`, `slow`, `Clock`), so theorems hold for any timing.
- The iteration order of an ordered map of byte strings is a parameter where the code only needs an enumeration.
- Rows of a database, parsed command lines and the raw bytes of HTTP bodies enter as already decoded records.

## Where the code and its documentation disagree

- The JSON rewriter promises that no replacement survives when a span is malformed (active.rs, line 212). The terminal
  status is overwritten by each later rejection, and one of those is not fatal. `RewriteLaws.AllOrNothingExactly` says
  exactly when the promise fails and `RewriteLaws.AllOrNothingFails` gives a request.
- The search rewriter promises that any failing span leaves the request as it was (active.rs, lines 439 to 441). Its
  status is overwritten in the same way, and an unsupported span never stops it. `SearchRewriteLaws.FailOpenExactly`
  says exactly when the promise fails and `SearchRewriteLaws.FailOpenFails` gives a request.
- The search view is called semantically lossless (active.rs, line 438). The header rule comes before every match rule,
  and escaping does not protect a literal backslash followed by the letter n. `SearchRoundTrip.RoundTripExactly` gives
  the exact condition and `SearchLaws.LosslessFails` a match that is lost.
- The repeated-value reducer is said to move exact constant fields (reduction.rs, line 707). Fields that are zeros of
  either sign count as constant, and all rows then read back with the sign of the first.
  `RepeatedValues.RestoredAllExactly` says exactly when rows come back and `RepeatedValues.SignIsLost` gives rows that
  do not.
- Removing empty fields is one pass and not idempotent; `StripFields.IdempotentExactly` says exactly when it is.
- The literal array of the factoring marker and a number in the input reads as a reference;
  `Factor.FactoringInvertible` says exactly when that loses the value, and `Factor.CandidateReads` when the bytes do.

## Model

| member | source | states |
|---|---|---|
| Varint.WriteVarint | crates/tracepress-compression/src/json.rs:848-858 | Writing a value appends its group encoding, seven bits a byte from the low end, to whatever is already there. |
| Varint.ReadVarint | crates/tracepress-compression/src/json.rs:879-896 | Reading from any cursor delivers exactly what the reference decoder says of the remaining bytes, value and next cursor, or its error. |
| Varint.RoundTrip | crates/tracepress-compression/src/json.rs:848-896 | Every 64-bit value written is read back, whatever follows it in the stream. |
| Varint.DecodedFits | crates/tracepress-compression/src/json.rs:879-896 | No accepted byte sequence decodes to more than 64 bits: the tenth-group guard is exact. |
| Varint.EncodeLength64 | crates/tracepress-compression/src/json.rs:848-858 | A 64-bit value takes one to ten bytes, so the reader's ten steps suffice. |
| JsonGrammar.ParsePrintDocument | crates/tracepress-compression/src/json.rs:601-733 | Every well-formed document of RFC 8259 is parsed back from its text, white space, keys and scalars included. |
| JsonGrammar.PrintParseDocument | crates/tracepress-compression/src/json.rs:601-733 | What the reference grammar accepts is the text of the tree it returns: no byte is lost or invented. |
| JsonGrammar.ParseIsInverse | crates/tracepress-compression/src/json.rs:601-733 | Acceptance by the grammar and being the text of a well-formed tree are the same thing, and the tree is unique. |
| JsonString.DecodeEncode | crates/tracepress-compression/src/active.rs:337-347 | Encoding text as a JSON string and decoding it gives the text back, for every UTF-8 text. |
| JsonString.TokenScan | crates/tracepress-compression/src/json.rs:659-676 | The escape-tracking scan finds the closing quote of a token that decodes, whatever bytes follow it. |
| JsonString.DecodeShorter | crates/tracepress-compression/src/active.rs:286-291 | Decoding never lengthens: the text of a token is at least two bytes shorter than the token. |
| JsonString.ReadStringExactly | crates/tracepress-compression/src/active.rs:286-291 | Bytes are read as a string exactly when they are one string token with white space around it, and then as the text of that token. |
| Lexical.MinifiedDocument | crates/tracepress-compression/src/json.rs:84-126 | On every document the byte-level minifier yields the text of the same tree without white space, and that text parses to that tree. |
| Lexical.MinifiedTwice | crates/tracepress-compression/src/json.rs:84-126 | Minifying again changes nothing and produces no recovery runs, on any bytes and from any lexical state. |
| Lexical.RestoreRuns | crates/tracepress-compression/src/json.rs:84-160 | Putting the removed runs back at their recorded positions restores the original bytes. |
| Lexical.MinifiedUtf8 | crates/tracepress-compression/src/active.rs:336-340 | Minified text is still UTF-8, so the conversion of a candidate to text cannot fail. |
| Minify.TransformJson | crates/tracepress-compression/src/json.rs:84-126 | The loop over index and flags computes the specified candidate and recovery stream, with validation first and size bounds last, for every input and limit. |
| Minify.RecoverJson | crates/tracepress-compression/src/json.rs:128-160 | The recovery loop computes the specified result for any candidate and any recovery bytes, malformed ones included. |
| Minify.RecoveryExact | crates/tracepress-compression/src/json.rs:84-160 | Whenever the transform succeeds, recovery under the same limits succeeds and returns the input byte for byte. |
| Minify.RecoverySize | crates/tracepress-compression/src/json.rs:84-126 | The recovery stream of an input is bounded by a fixed multiple of its length, so positions and lengths fit their varints. |
| Minify.MeaningPreserved | crates/tracepress-compression/src/json.rs:84-126 | An accepted candidate parses to the input's tree without white space, is a fixed point of the minifier, has an empty recovery of its own, and is no longer than the input. |
| Minify.MinifyEvaluation | crates/tracepress-compression/src/lib.rs:386-498 | The gate order of an evaluation never ends in a failed recovery or an internal error for the minifier; it is applicable exactly when every gate passes, and the candidate comes out exactly when it is applicable or merely no improvement. |
| Values.FromToBytes | crates/tracepress-compression/src/json.rs:477-481 | Reading the compact text of a value gives that value with its numbers read again, so the value itself exactly when they are stable. |
| Values.ToBytesInjective | crates/tracepress-compression/src/json.rs:739-783 | Different values have different compact text, so maps keyed by text are maps keyed by value. |
| Values.MinifiedSameValue | crates/tracepress-compression/src/json.rs:84-126 | The library reads the same value from the minified bytes as from the input. |
| StringTokens.JsonStringTokenRanges | crates/tracepress-compression/src/active.rs:798-834 | The scanner returns, in order, exactly the byte ranges of the grammar's string tokens, keys included, or the right error for rejected input and for too many tokens. |
| StringTokens.ScanDocument | crates/tracepress-compression/src/reduction.rs:361-397 | On every document the lexical scan finds the same ranges as the tree has strings, with nothing inside strings mistaken for a token. |
| StringTokens.SpanAt | crates/tracepress-compression/src/active.rs:798-834 | The k-th range holds exactly the k-th token of the tree. |
| StringTokens.ReplaceInDocument | crates/tracepress-compression/src/active.rs:760-772 | Splicing other bytes over one range is printing the tree with that token replaced. |
| StringTokens.ReplacedDocument | crates/tracepress-compression/src/active.rs:760-772 | Splicing an encoded string over one range gives a document that differs in exactly that string: every other token, scalar and byte of white space stays. |
| Validator.DuplicateParser.ParseValue | crates/tracepress-compression/src/json.rs:602-613 | On the text of a well-formed tree the recursive parser fails exactly where the recursive check does, stops after the value, and has consumed the tree's string tokens at their offsets. |
| Validator.DuplicateParser.Object | crates/tracepress-compression/src/json.rs:615-640 | Objects: keys are compared decoded, the first repeat is reported, and nesting is charged per container. |
| Validator.DuplicateParser.Array | crates/tracepress-compression/src/json.rs:642-657 | Arrays: elements are parsed in order and the parser stops after the closing bracket. |
| Validator.DuplicateParser.String | crates/tracepress-compression/src/json.rs:659-676 | A string is consumed to its real closing quote and its range is logged. |
| Validator.DuplicateParser.Scalar | crates/tracepress-compression/src/json.rs:678-692 | A scalar is consumed up to the first delimiter. |
| Validator.DuplicateParser.Whitespace | crates/tracepress-compression/src/json.rs:694-703 | White space is skipped entirely, and the work counter keeps equal to the offset. |
| Validator.ValidateJson | crates/tracepress-compression/src/json.rs:572-592 | The validator gives the specified verdict on every input and limit; when it accepts, the strings its parser consumed are the ranges the scanner reports. |
| Validator.CheckExact | crates/tracepress-compression/src/json.rs:601-657 | The check passes exactly when no object repeats a decoded key and nothing is nested too deep; its two errors are told apart. |
| Validator.ValidationExact | crates/tracepress-compression/src/json.rs:572-733 | On every accepted document within the byte budget, validation succeeds exactly when no object has two members with equal decoded keys and no value has more than 128 enclosing containers; the work limit inside the parser is never what stops it. |
| Active.RewriteSpan | crates/tracepress-compression/src/active.rs:271-364 | One span of the loop has the specified effect on progress; its second transform, its recovery and its text conversion never take their failure branches. |
| Active.Assemble | crates/tracepress-compression/src/active.rs:366-432 | The splice with its slice guards returns what the specification says, so no guard is taken. |
| Active.RewriteJsonMinify | crates/tracepress-compression/src/active.rs:220-432 | The whole rewrite computes the specified result for every request, span list and limit. |
| Active.RewriteIsSplice | crates/tracepress-compression/src/active.rs:258-432 | A body exists exactly when the status is Rewritten; it is strictly shorter, is the request with disjoint in-bounds patches from the supplied spans, and undoing the patches gives the request back; no internal error or failed recovery occurs. |
| Active.UndoPatched | crates/tracepress-compression/src/active.rs:388-404 | Outside the accepted spans the body carries the bytes of the request, unchanged and in order. |
| Active.PatchMeaning | crates/tracepress-compression/src/active.rs:271-364 | An accepted replacement decodes to (or is) a document with the tree of the original content without white space. |
| Active.CommonPrefix | crates/tracepress-compression/src/active.rs:849-851 | The reported prefix is common to both texts and cannot be extended. |
| Active.SignedDelta | crates/tracepress-compression/src/active.rs:853-865 | The delta is the exact difference when it fits 64 signed bits, and absent exactly when it does not. |
| RewriteLaws.OrderIrrelevant | crates/tracepress-compression/src/active.rs:258-284 | The result does not depend on the order in which non-empty spans are supplied. |
| RewriteLaws.TerminalIsLast | crates/tracepress-compression/src/active.rs:271-364 | The terminal status is that of the last rejected span; a mere lack of gain never overwrites one. |
| RewriteLaws.RewrittenExactly | crates/tracepress-compression/src/active.rs:366-387 | A request is rewritten exactly when some span is accepted and the last rejected span, if any, was not fatal. |
| RewriteLaws.AllOrNothingExactly | crates/tracepress-compression/src/active.rs:212-215 | The documented all-or-nothing rule fails exactly when a span was fatal, some span is accepted, and the last rejected span only repeats a key. |
| RewriteLaws.AllOrNothingFails | crates/tracepress-compression/src/active.rs:212-215 | A concrete request breaks the rule: a malformed span is masked by a later one with a repeated key. |
| Factor.CollectSubtrees | crates/tracepress-compression/src/json.rs:739-783 | Counting succeeds exactly when its work fits the work budget and the bytes of the distinct containers not yet seen fit the memory budget; then the count of every container, the work and the retained bytes are exact. |
| Factor.EncodingsExact | crates/tracepress-compression/src/json.rs:739-783 | The texts charged to memory are those of exactly the containers that occur. |
| Factor.Definitions | crates/tracepress-compression/src/json.rs:519-551 | The definitions are exactly the containers that occur more than once and have at least eight bytes, each once, as read back from their text; it fails exactly when the library rejects one of those texts. |
| Factor.FactorExact | crates/tracepress-compression/src/json.rs:785-817 | Factoring succeeds exactly when the values it visits, none of them inside a replaced one, fit the work budget, and charges one for each. |
| Factor.ExpandFactor | crates/tracepress-compression/src/json.rs:785-817 | Expanding the factored form gives the value back exactly when no literal in it reads as a reference. |
| Factor.FactoringInvertible | crates/tracepress-compression/src/json.rs:785-817 | With the definitions of a value, expansion inverts factoring exactly when no reference literal occurs in it exactly once. |
| Factor.CandidateReads | crates/tracepress-compression/src/json.rs:519-551 | A reader of the candidate's bytes gets the value back exactly when its numbers are stable and it holds no lone reference literal. |
| Factor.RefIndexOfRef | crates/tracepress-compression/src/json.rs:796-803 | A reference to a definition in range is read back as that index. |
| Factor.FactorJson | crates/tracepress-compression/src/json.rs:519-553 | The transform succeeds exactly when counting and factoring fit their budgets, something repeats, the library accepts the definitions and the result is in bounds; every error is characterised; the candidate alone unfolds to the input value under the condition above. |
| Tables.JsonTable | crates/tracepress-compression/src/json.rs:181-212 | A table comes out exactly for at least two objects with equal non-empty key sets, and it is the table of those rows in key order. |
| Tables.TabularJson | crates/tracepress-compression/src/json.rs:176-217 | The projection succeeds exactly on valid arrays of uniform rows within bounds; zipping columns back onto the rows of the candidate's bytes gives the objects of the input with their numbers read again, so those objects exactly when the numbers are stable. |
| Rows.ZipCells | crates/tracepress-compression/src/json.rs:191-212 | Zipping the columns back onto the cells of a row rebuilds the row. |
| Rows.KeyOrderExact | crates/tracepress-compression/src/json.rs:191-195 | The columns are every key once, in byte order. |
| ReadableTables.RenderReadableTable | crates/tracepress-compression/src/json.rs:411-475 | Rendering in each of the three styles gives the specified lines, or the size error. |
| ReadableTables.ReadTableBack | crates/tracepress-compression/src/json.rs:411-475 | Reading a rendered table, in every style, gives the columns over the cells as their text is read, row by row: no cell can break a line. |
| ReadableTables.DepthExact | crates/tracepress-compression/src/json.rs:483-503 | The measured depth is the height of the value and the work is its node count; the limit is hit exactly when the count exceeds it. |
| ReadableTables.ReadableRows | crates/tracepress-compression/src/json.rs:356-384 | Rows pass exactly when they are uniform, have at most 64 columns, no cell deeper than 8, and a total node count within the budget; the error is the resource limit exactly when the budget runs out before any row with other keys and any cell too deep. |
| ReadableTables.ReadableJson | crates/tracepress-compression/src/json.rs:337-391 | The projection succeeds exactly on valid arrays of such rows within its bounds, its errors are told apart exactly, and its text alone reads back as the objects of the input exactly when their numbers are stable. |
| RepeatedValues.CommonOfExactly | crates/tracepress-compression/src/reduction.rs:805-825 | The common keys are exactly the scalar fields whose values the library holds equal over all rows of equal keys, in order. |
| RepeatedValues.FindCommon | crates/tracepress-compression/src/reduction.rs:804-828 | The loop finds those keys and charges one unit per row for every key, with the limit hit exactly when that exceeds the budget. |
| RepeatedValues.ElideRows | crates/tracepress-compression/src/reduction.rs:830-846 | Every row loses the common fields and nothing else, and the removals counted are the common fields once per row. |
| RepeatedValues.RestoredAllExactly | crates/tracepress-compression/src/reduction.rs:804-849 | Merging the common fields into the elided rows gives the rows back exactly when every number is stable and no common zero differs in sign between rows. |
| RepeatedValues.ReducedReads | crates/tracepress-compression/src/reduction.rs:847-855 | The bytes of the reduced document read back as its rows with the common fields of the first, so as the objects of the input under that condition. |
| RepeatedValues.SignIsLost | crates/tracepress-compression/src/reduction.rs:811-824 | Two rows that differ only in the sign of a zero: the field counts as constant, and merging does not restore it. |
| RepeatedValues.ElideRepeatedValues | crates/tracepress-compression/src/reduction.rs:744-894 | A candidate exists exactly when valid rows with a common field are reduced within every budget, in time, to a smaller document; its bytes merge back to the objects of the input under that condition, and its omitted fields are the common ones times the rows. |
| Search.Parse | crates/tracepress-compression/src/reduction.rs:206-294 | The line loop computes the specified reading for every input: header rule first, then grouped records, then JSON records, then plain lines. |
| Search.SortIsSorted | crates/tracepress-compression/src/reduction.rs:290-292 | Sorting yields an ordered permutation of the matches. |
| Search.RenderGrouped | crates/tracepress-compression/src/reduction.rs:298-315 | The nested loops write the title, and each file with its records, as specified. |
| SearchLaws.RenderSorted | crates/tracepress-compression/src/reduction.rs:298-315 | For a sorted list the ordered map never inserts in the middle: the text is a header wherever the file changes, then the record. |
| SearchLaws.TextSurvives | crates/tracepress-compression/src/reduction.rs:221-237 | A text is read back unchanged exactly when it has no literal backslash-n, no final carriage return, and is not both colon-terminated and free of spaces; reading never lengthens it. |
| SearchLaws.ReadBack | crates/tracepress-compression/src/reduction.rs:206-315 | With recognisable file names every record not taken for a header is read back, its text as kept. |
| SearchRoundTrip.RoundTripExactly | crates/tracepress-compression/src/reduction.rs:206-315 | For every sorted non-empty list of text within the size limit, printing then parsing gives the same matches and no summary exactly when all file names are non-empty and free of spaces and newlines and all texts survive. |
| SearchRoundTrip.BrokenNamesFail | crates/tracepress-compression/src/reduction.rs:206-315 | No list with a newline in a file name comes back, although JSON records can give such names: the record would have to lie inside a longer one. |
| SearchLaws.LosslessFails | crates/tracepress-compression/src/reduction.rs:206-315 | The documented lossless view fails for a match whose text is a backslash and the letter n: it comes back as a newline. |
| SearchEnvelope.ParsedTextual | crates/tracepress-compression/src/reduction.rs:206-294 | Parsed matches are sorted, non-empty as a list, hold UTF-8 text and 64-bit line numbers. |
| SearchEnvelope.RenderUtf8 | crates/tracepress-compression/src/reduction.rs:341-343 | The rendered view is UTF-8, so its conversion never fails. |
| SearchEnvelope.SearchJsonEnvelopeView | crates/tracepress-compression/src/reduction.rs:321-357 | The view computed by the loop over the tokens is the specified one; its decoding and conversion failures never happen. |
| SearchEnvelope.ViewExactly | crates/tracepress-compression/src/reduction.rs:317-357 | A view exists exactly for an accepted document with a bounded number of strings of which exactly one reads as search results, and whose rendering is shorter. |
| SearchEnvelope.ViewMeaning | crates/tracepress-compression/src/reduction.rs:317-357 | The view is the document with that one string replaced by the encoding of the grouped rendering, and everything else as before. |
| SearchEnvelope.ViewReadsBack | crates/tracepress-compression/src/reduction.rs:317-357 | Reading the new string gives back the matches exactly when their names and texts survive printing. |
| SearchRewrite.ReduceSearch | crates/tracepress-compression/src/reduction.rs:478-560 | The reducer takes the specified status and visible text for every input, limit and clock reading. |
| SearchRewrite.ReducedMeaning | crates/tracepress-compression/src/reduction.rs:478-560 | A candidate exists exactly when the status is Applicable; then it is smaller, in bounds, of at least two matches, and text if the input is. |
| SearchRewrite.ReduceEnvelope | crates/tracepress-compression/src/active.rs:690-793 | The envelope reduction computes the specified result: one reducible string or nothing. |
| SearchRewrite.EnvelopeMeaning | crates/tracepress-compression/src/active.rs:690-793 | An applicable envelope is the document with exactly its one reducible string replaced by the encoding of its reduction. |
| SearchRewrite.RewriteSearchProjection | crates/tracepress-compression/src/active.rs:446-660 | The search rewrite computes the specified result for every request, span list, limit and clock. |
| SearchRewrite.SearchTerminal | crates/tracepress-compression/src/active.rs:497-593 | Every span that is not accepted overwrites the terminal status, a mere lack of gain included. |
| SearchRewrite.SearchRewriteIsSplice | crates/tracepress-compression/src/active.rs:446-660 | A body exists exactly when the status is Rewritten, is shorter, is a splice that undoes to the request, and every patch is the encoded reduction of one supplied span; recovery never fails, and an internal error needs two clocks that disagree. |
| SearchRewriteLaws.SearchOrderIrrelevant | crates/tracepress-compression/src/active.rs:483-511 | The result does not depend on the order in which non-empty spans are supplied. |
| SearchRewriteLaws.SearchRewrittenExactly | crates/tracepress-compression/src/active.rs:594-619 | A request is rewritten exactly when some span is accepted and the last rejected span, if any, was not fatal. |
| SearchRewriteLaws.FailOpenExactly | crates/tracepress-compression/src/active.rs:439-441 | The documented fail-open rule is broken exactly when some span fails, some span is accepted, and the last rejected span is merely not search output or without gain. |
| SearchRewriteLaws.FailOpenFails | crates/tracepress-compression/src/active.rs:439-441 | A concrete request breaks the rule: a malformed string is masked by a later span that gains nothing. |
| StripFields.StripExact | crates/tracepress-compression/src/reduction.rs:1103-1139 | Fields of the input are those of the output plus the omitted ones; the work on success is the output's node count, and the limit is hit exactly when that count exceeds the budget. |
| StripFields.ScalarsKeepPaths | crates/tracepress-compression/src/reduction.rs:1103-1139 | Every scalar of the output was at that path in the input, and every scalar that is not empty keeps its path. |
| StripFields.IdempotentExactly | crates/tracepress-compression/src/reduction.rs:1103-1139 | A second pass changes nothing exactly when the first leaves no object behind whose fields were all empty. |
| StripFields.NotIdempotent | crates/tracepress-compression/src/reduction.rs:1103-1139 | An object whose only field is an object with one null field needs two passes. |
| LineSplitter.CaptureLines | scripts/collect_scheduler_sidecar.py:83-116 | For every cut of a stream into non-empty reads, the lines and the outcome depend on the bytes of the stream alone, and the buffer stays within the bound plus one read; the size guard at end of file is never what fires. |
| LineSplitter.CapturedExact | scripts/collect_scheduler_sidecar.py:83-116 | The size error comes exactly when some line is over the bound and after exactly the lines before the first such; otherwise the lines are the newline split of the stream. |
| LineSplitter.PiecesSplit | scripts/collect_scheduler_sidecar.py:102-114 | The pieces hold no newline and join back to the stream. |
| LineSplitter.PiecesUnique | scripts/collect_scheduler_sidecar.py:102-114 | There is only one such split. |
| KeyEquality.EqualityState.constructor | scripts/run_cache_key_equality_child_020.py:51-57 | A new observer has seen nothing. |
| KeyEquality.EqualityState.BeginRun | scripts/run_cache_key_equality_child_020.py:59-63 | Beginning a run is one step of the state machine: arm, round and request index change, keys and records do not. |
| KeyEquality.EqualityState.Observed | scripts/run_cache_key_equality_child_020.py:85-101 | Observing a body is one step: one record is appended, with the class of its key, and a new key is added at most once. |
| KeyEquality.RunFaithful | scripts/run_cache_key_equality_child_020.py:59-101 | After any sequence of steps every record tells what was seen, its class is the position of its key among distinct keys, and classes are dense in first-seen order. |
| KeyEquality.ClassIffKey | scripts/run_cache_key_equality_child_020.py:85-101 | After any sequence of steps two present records share a class exactly when their keys are equal. |
| KeyVerdict.GroupRecords | scripts/run_cache_key_equality_020.py:106-108 | The grouping holds, for every arm and round that occurs, exactly its records in order. |
| KeyVerdict.Analyze | scripts/run_cache_key_equality_020.py:87-165 | The verdict computed from the grouped records is the specified one; a record without a round raises. |
| KeyVerdict.CrossArmFollows | scripts/run_cache_key_equality_020.py:121-152 | The cross-arm zero check already follows from eighteen classes over eighteen stable runs. |
| KeyVerdict.SessionScopedExactly | scripts/run_cache_key_equality_020.py:149-165 | The session-scoped verdict holds exactly under the contracts, eighteen runs, and classes that tell exactly the runs apart. |
| KeyVerdict.SessionScopedKeys | scripts/run_cache_key_equality_020.py:149-165 | For records handed out by the observer after any steps, that verdict means that keys are constant within each run and never shared between runs. |
| Survival.SurvivorsAreIntersection | scripts/analyze_baseline.py:1706-1717 | For each key the survivors are as many as the smaller of both sides: the matching is the multiset intersection. |
| Survival.TokensSplit | scripts/analyze_baseline.py:1704-1717 | Every token of a category is in a survivor or in a block that was lost. |
| Survival.SurvivedWithinTotal | scripts/analyze_baseline.py:1704-1728 | Corollary of the split: no category survives beyond its total exactly when its lost blocks do not sum below zero, which holds for estimates that are counts. |
| Survival.SurvivalByCategory | scripts/analyze_baseline.py:1685-1728 | The two counters filled by the loop with its candidate lists are the tokens of all estimated blocks and of the survivors, by category. |
| Sorting.SortOnSorted | scripts/analyze_toolresult_lifetime.py:185 | Sorting on a tuple key gives an ordered permutation. |
| Lineages.ReadRow | scripts/analyze_toolresult_lifetime.py:189-211 | One included row founds or continues exactly its lineage, and bumps exactly the earlier lineages of its meaning. |
| Lineages.LifetimeFacts | scripts/analyze_toolresult_lifetime.py:212-223 | The first request of a lineage is the minimum of its occurrences, the reappearances are the occurrences after it, and the requests that show it are at most the requests after creation plus one. |
| Lineages.BuildLineages | scripts/analyze_toolresult_lifetime.py:178-223 | Every tool result is counted in one exclusion or occurs in exactly one lineage, and every figure of a lineage is that of its rows. |
| Eviction.SharesExact | scripts/run_shadow_eviction.py:71-77 | The shares of a budget add up to it and differ by at most one. |
| Eviction.ApportionedExactly | scripts/run_shadow_eviction.py:57-91 | Per policy the candidates' shares add up to the budget, and their net figures to gross less stubs less budget, truncated or not. |
| Eviction.CandidateRows | scripts/run_shadow_eviction.py:41-95 | The candidates are the first of the sorted selection up to the bound, each with its share; the number dropped is the rest; a bound that is not positive raises. |
| Eviction.SelectedIsPending | scripts/analyze_toolresult_lifetime.py:240-262 | The evaluator and the aggregate simulation select the same occurrences for a policy. |
| Eviction.NetExactly | scripts/run_shadow_eviction.py:51-97 | Without truncation the net figures add up to the simulation's exactly when the policy is listed once, or its gross reduction only pays for its stubs. |
| Ledger.EnterRequests | scripts/analyze_baseline.py:580-607 | The ledger has one record for every id, from the first request that carries it, and no conflict exactly when all ids are present and distinct. |
| Ledger.DecideOutcomes | scripts/analyze_baseline.py:620-661 | Every eligible record gets the outcome of its snapshots, and a conflict is recorded exactly when some request's snapshots are contradictory. |
| Ledger.ApplyEvents | scripts/analyze_baseline.py:663-727 | Drop events never change an outcome; each eligible record counts exactly the times it is named; conflicts and unmatched events are recorded exactly for events that name no or other than eligible requests or contradict a snapshot. |
| Ledger.RequestAnalysisLedger | scripts/analyze_baseline.py:558-819 | Eligible requests are the disjoint union of complete, partial and dropped, so the partition conflict is never recorded; every dropped request is diagnosed; integrity passes exactly for inputs that contradict nothing. |
| LedgerOrder.OrderIrrelevantExactly | scripts/analyze_baseline.py:624-654 | All orders of a request's snapshots give one outcome exactly when the terminal snapshots that sort last agree on being complete. |
| LedgerOrder.DistinctNamesAgree | scripts/analyze_baseline.py:633-641 | Distinct non-null snapshot names leave only one last candidate. |
| SchedulerAudit.AuditSidecar | scripts/analyze_baseline.py:1049-1304 | The audit passes exactly when every record is of a known session and every selected session is certified by its one record; a passed audit has an unexplained delta of zero. |
| SchedulerAudit.PassedCertifies | scripts/analyze_baseline.py:1162-1240 | Corollary of the order of the checks: a row has status passed exactly when it is no duplicate and its counters, identity and capture fields certify the session; the later counter checks then add nothing. |
| SchedulerAudit.SumCounts | scripts/analyze_baseline.py:1070-1079 | Summing the sessions, each once, counts every eligible row of theirs once. |
| SchedulerGate.SchedulerReport | scripts/analyze_baseline.py:923-966 | One pass over the records gives the specified totals and counter consistency. |
| SchedulerGate.AuditImpliesGate | scripts/analyze_baseline.py:940-966 | A passed audit, with every eligible row in a selected session and at least one selected, leaves one record per session, makes the totals seen, admitted and processed plus dropped all equal to the eligible requests, and makes the counter consistency pass. |

## Left out

- Factor.CollectSubtrees: stated for a work budget below the largest 64-bit number, where the saturating counters are exact.
- Factor.FactorJson: stated for such a budget too, and for any enumeration of the map's keys instead of their byte order.
- StripFields.StripExact: stated for a work budget below the largest 64-bit number and fewer fields than that number.
- ReadableTables.ReadableJson: stated for a work budget below the largest 64-bit number; nesting depth is unbounded here, while validation already caps it at 128.
- RepeatedValues.ElideRepeatedValues: stated for a work budget below the largest 64-bit number.
- Active.RewriteJsonMinify: requests are assumed no longer than memory can address, which keeps recovery offsets within 64 bits.
- KeyEquality.EqualityState.Observed: the body's key arrives already decoded; the lock is modelled by taking steps one at a time.
- Lineages.BuildLineages: lineages are values held in a map by key; the semantic index refers to them by key instead of by reference.
- Survival.SurvivalByCategory: the order inside candidate lists is not modelled, as only their lengths are read.
- Ledger.RequestAnalysisLedger: conflicts are counted by kind, without the request ids behind them, and eligibility of a request is a field.
- SchedulerAudit.AuditSidecar: the per-session rows carry their status only, and an unreadable sidecar is left to its caller.
- Eviction.CandidateRows: cache risk and prefix ratios are left out, being floating-point ratios.
- Values.FromToBytes: how the library turns the digits of a number into the text it prints is not modelled, so which floats are stable is left to it.
- Metrics other than status, counts, delta and prefix: identifiers, fingerprints, processing time and byte totals for reporting.
- `JsonNoop`, the recovery halves of the projections, the shell and test-result reducers, and keyword families: one branch each.
- `merge_sidecars`, `_capture_document` and the age and size tables of the lifetime report: lists and comprehensions without an invariant to keep.
- Database queries, subprocesses, sockets, file writes, Markdown and argument parsing.
- White space: the minifier drops form feeds outside strings as the code does; documents that contain one are not accepted by the library, so no theorem about documents meets that case.
