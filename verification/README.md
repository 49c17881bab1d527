# FortAI verification project

FortAI is an inference runtime in Fortran and C. This project models the parts of it whose
correctness is not visible from one function body, and proves what their callers rely on.
Run `dafny verify dfyconfig.toml` to check everything.

## What is modelled

**Tokenizer** (`Bytes`, `Utf8`, `RepairUnits`, `ByteAlphabet`, `PackedTexts`, `Bpe`, `PreTokenizer`, `Tokenizer`,
`SpecialTokens`, `SegmentLaws`, `PieceExamples`, `NativeTokenizer`). The layers of the native BPE tokenizer are specified as functions
on byte strings; the class `NativeTokenizer` implements them with the packed blobs, the symbol array and
the loops of the original, and every method is proved equal to its function. The main results are the
round trips: decoding an encoding gives back the text exactly if the text is well-formed UTF-8, for any
vocabulary that holds the byte symbols and is closed under its merges, with either pre-tokenizer. With
special tokens recognised, decoding gives back a well-formed text exactly if no special token in it has a
character from U+0080 to U+01FF: what the decoder loses there, its UTF-8 repair never restores. The Unicode
category tables are parameters.

Each layer is also tied to something that does not name it: tokens to chains of merges that
begin with one symbol per byte, pieces and segments to a description of what they are, and
all of them to texts whose pieces and tokens are written out.

**Greedy and speculative decoding** (`Argmax`, `Speculative`, `LlamaFast`, `DecoderSessions`). The handle with its two
caches and batch buffers is a class. Target and draft models are arbitrary functions from a token prefix
to logits; that the target gives the same logits in a batch as alone is a hypothesis (README lines 60-69
of the repository say that it only holds approximately). Any mix of greedy calls, speculative calls of any
capacity, refused calls and resets emits the plain greedy sequence since the last reset. Each context
counts the calls of the library that failed, so that it is stated when a call must succeed and when a
run must end well.
Logits are numbers, infinities or not a number, and the two argmax scans are compared on all of them.

**HTTP transport** (`RequestQueue`, `QueueProtocol`, `QueueSafety`, `CStrings`, `RequestReader`,
`RequestFraming`, `HeaderLines`). The ring buffer is a class; the threads are a state machine whose steps are the lock
regions, with the wait sets of both condition variables, stray wakeups and a signal at any time. Once a
signal has come, the shutdown is certain exactly if the accepting thread is not in `accept`. The
request reader is a method over a growing buffer and a socket that delivers any chunks; which length it
takes is said in terms of the lines of the header and of decimal notation.

**Numeric kernels** (`RealVectors`, `OnlineSoftmax`, `Half`, `Q8Dot`, `Q8Quantize`, `Q8Tensor`, `Q8Product`,
`Q8Blocks`, `GatedDelta`). Half conversion is on bit patterns and exact. Sums and products of floats are exact reals.
The exponential function is a parameter that is positive, monotone, 1 at 0 and turns sums into products.

**Helpers with state** (`DoubleRounding`, `Mt19937`, `TwisterLaws`, `PlanCache`, `GrowableString`). The random
generator is proved against the published recurrence over any number of calls, with its fractions rounded as
doubles are; recurrence and tempering are pinned by their linearity, the images of single bits and published
words. The plan cache is proved against uncached products over any run, and the growable string against
concatenation, with its bounds on capacity and copying.

Where code and documentation differ, the code is followed. Inputs on which the code does less than its
callers expect are stated as lemmas, beside the exact condition: a special token with a character from
U+0080 to U+01FF is not decoded to itself (`AccentedSpecialTokenIsLost`), a signal between the check of the
stop flag and `accept` leaves the server blocked (`SignalBeforeAcceptIsLost`), a blank last Content-Length
makes the framing depend on the chunks (`BlankHeaderDepends`), a first logit that is not a number makes the
argmax depend on the processor (`NanInFrontDepends`), two full words make a random fraction of 1
(`FullWordsMakeOne`), and a negative weight with activation -128, which the
quantizer never makes, gives a product of the wrong sign (`ActivationMinus128IsWrong`).

## Model

| member | source | states |
|---|---|---|
| Utf8.DecodeInvertsEncode | src/fortai_native_tokenizer.f90:956-975 | reading back an encoded code point, between any bytes, gives the code point and its width |
| Utf8.ValidWidthOfScalar | src/fortai_native_tokenizer.f90:912-954 | the strict validator accepts every encoded scalar value at its exact width, as section 4 of RFC 3629 defines it |
| Utf8.ScalarOfValidWidth | src/fortai_native_tokenizer.f90:912-954 | and accepts nothing else: a valid width always belongs to the encoding of a scalar value |
| Utf8.KnownEncodings | src/fortai_native_tokenizer.f90:263-285 | one character of each width, as section 3 of RFC 3629 encodes it |
| Utf8.KnownLenientReadings | src/fortai_native_tokenizer.f90:956-975 | how malformed octets are read: a stray continuation with the next octet, a cut character alone |
| Utf8.RepairIsWellFormed | src/fortai_native_tokenizer.f90:869-895 | repaired bytes are the encodings of scalar values, whatever the input |
| Utf8.RepairIsIdentityExactlyOnWellFormed | src/fortai_native_tokenizer.f90:869-895 | repair changes nothing if and only if the bytes are well formed |
| Utf8.RepairIsIdempotent | src/fortai_native_tokenizer.f90:869-895 | repairing twice is repairing once |
| Utf8.StrayOctetRepaired | src/fortai_native_tokenizer.f90:869-895 | an octet that begins no character becomes U+FFFD, and its neighbours stay |
| Utf8.CutCharacterRepaired | src/fortai_native_tokenizer.f90:869-895 | each octet of a character that is cut short becomes U+FFFD, and the next character stays |
| Utf8.RepairedLength | src/fortai_native_tokenizer.f90:869-880 | the loop that precomputes the output length is exact |
| Utf8.WriteRepaired | src/fortai_native_tokenizer.f90:881-895 | the writing loop fills exactly that length with the repaired bytes |
| RepairUnits.RepairKeepsUnits | src/fortai_native_tokenizer.f90:869-895 | repair keeps the number of characters and stray octets |
| RepairUnits.OctetInFront | src/fortai_native_tokenizer.f90:912-954 | one more octet in front makes at most one more unit, and none if it takes others with it |
| RepairUnits.LostCharacterStaysLost | src/fortai_native_tokenizer.f90:869-895 | a character of two octets that has shrunk to one is not restored by the repair |
| ByteAlphabet.AlphabetRoundTrip | src/fortai_native_tokenizer.f90:227-261 | every octet is recovered from its character of the byte alphabet |
| ByteAlphabet.AlphabetIsInjective | src/fortai_native_tokenizer.f90:227-247 | no two octets share a character |
| ByteAlphabet.AlphabetIsGpt2 | src/fortai_native_tokenizer.f90:227-247 | a visible character of Latin-1 stands for itself, and the others are numbered from 256 in their order |
| ByteAlphabet.DecodeInvertsSpell | src/fortai_native_tokenizer.f90:814-867 | decoding the spelling of any byte string gives the bytes |
| ByteAlphabet.DecodedWidthIsExact | src/fortai_native_tokenizer.f90:898-910 | the width function predicts how many bytes each code point decodes to |
| PackedTexts.Packed.Store | src/fortai_native_tokenizer.f90:96-151 | storing one string in the packed blob changes that entry of the list and no other |
| PackedTexts.Packed.Find | src/fortai_native_tokenizer.f90:178-195 | the blob scan finds the first entry equal to the text in the original list |
| PackedTexts.Pack | src/fortai_native_tokenizer.f90:96-120 | the filled blob and offsets hold exactly the list of strings |
| PackedTexts.PackRules | src/fortai_native_tokenizer.f90:121-151 | the two blobs hold the merges, split at the first space |
| PackedTexts.FindRule | src/fortai_native_tokenizer.f90:197-218 | the lookup in the blobs is the rank of the pair among the rules |
| PackedTexts.RankIsFirstString | src/fortai_native_tokenizer.f90:197-218 | the rank of a pair is the place of the string "left right" in the original merge list |
| Bpe.BestIsUnique | src/fortai_native_tokenizer.f90:317-327 | least rank, leftmost among equals, determines the pair to merge |
| Bpe.MergeAtIndex | src/fortai_native_tokenizer.f90:332-337 | after a merge each place holds the symbol it should: earlier ones unchanged, the two joined, later ones moved up |
| Bpe.MergeFullyStep | src/fortai_native_tokenizer.f90:314-338 | merging the best pair first does not change the final result |
| Bpe.MergeFullyEndsAtFixedPoint | src/fortai_native_tokenizer.f90:314-338 | the merge loop ends, with no applicable rule left and no more symbols than before, and merging again does nothing |
| Bpe.MergeFullyKeepsSpelling | src/fortai_native_tokenizer.f90:314-338 | every symbol spells consecutive bytes of the piece, and merging keeps their concatenation |
| Bpe.MergeChainOf | src/fortai_native_tokenizer.f90:314-338 | the final symbols end a chain that begins with one symbol per byte, each list being the one before with its best pair merged, the last without an applicable rule |
| Bpe.MergeChainIsUnique | src/fortai_native_tokenizer.f90:314-338 | a piece has only one such chain |
| PreTokenizer.PlainFinish | src/fortai_native_tokenizer.f90:363-390 | the scanning loop of the plain pre-tokenizer finds the specified end, inside the text and after the start |
| PreTokenizer.PlainEndMeans | src/fortai_native_tokenizer.f90:363-390 | the specified end is where the longest word with at most one space in front, run of equal spaces or newlines, or run of other bytes ends |
| PieceExamples.PlainPiecesOfSample | src/fortai_native_tokenizer.f90:363-390 | a text with every kind of piece, cut |
| PreTokenizer.QwenFinish | src/fortai_native_tokenizer.f90:412-526 | the scanning loops of the Qwen pre-tokenizer find the specified end for any category tables |
| PreTokenizer.ContractionMeans | src/fortai_native_tokenizer.f90:532-556 | a contraction is an apostrophe and one of seven endings in either case |
| PreTokenizer.QwenEndMeans | src/fortai_native_tokenizer.f90:412-526 | the specified end is that of the first kind of piece that fits, by a list of kinds with longest runs, for any category tables |
| PieceExamples.QwenPiecesOfSample | src/fortai_native_tokenizer.f90:412-526 | a text with every kind of piece, cut, with tables for ASCII |
| PreTokenizer.PiecesPartition | src/fortai_native_tokenizer.f90:351-530 | on any bytes both pre-tokenizers produce non-empty consecutive pieces whose concatenation is the text |
| PreTokenizer.PiecesAreWellFormed | src/fortai_native_tokenizer.f90:351-530 | pieces of well-formed text are well formed: no character is cut |
| Tokenizer.SymbolIdsOfOne | src/fortai_native_tokenizer.f90:339-348 | a symbol becomes the first entry equal to it, else the first "<unk>", else nothing |
| Tokenizer.SymbolIdsAppend | src/fortai_native_tokenizer.f90:339-348 | the tokens of symbols are those of each, in order |
| Tokenizer.PlainIdsAreMerged | src/fortai_native_tokenizer.f90:305-394 | the tokens of a text are those of the last symbols of the merge chains of its pieces, in order |
| Tokenizer.PlainBytesRoundTrip | src/fortai_native_tokenizer.f90:305-349 | with a closed vocabulary the tokens of any byte string decode to these bytes before repair |
| Tokenizer.RoundTrip | src/fortai_native_tokenizer.f90:663-694 | encode then decode is the repaired text, and is the text itself if and only if it is well formed |
| Tokenizer.RawBytesOfOne | src/fortai_native_tokenizer.f90:826-834 | one token decodes to the octets of its entry, and an identifier outside the vocabulary to none |
| Tokenizer.RawBytesAppend | src/fortai_native_tokenizer.f90:836-866 | tokens decode one after the other |
| Tokenizer.DecodedTextIsWellFormed | src/fortai_native_tokenizer.f90:814-896 | decoded output is well-formed UTF-8 for any vocabulary and any token sequence |
| Tokenizer.PlainIdsBound | src/fortai_native_tokenizer.f90:305-349 | a text never has more tokens than bytes |
| SpecialTokens.NextMarkerIsFirst | src/fortai_native_tokenizer.f90:695-741 | the marker search returns the earliest marker, in the order of the list among equals |
| SpecialTokens.FindMarker | src/fortai_native_tokenizer.f90:695-741 | the search loop over the markers computes that marker |
| SpecialTokens.SegmentsPartition | src/fortai_native_tokenizer.f90:695-741 | on any bytes the segments are non-empty and their concatenation is the text |
| SpecialTokens.SegmentsMean | src/fortai_native_tokenizer.f90:695-741 | a special segment is an inline marker or reaches from "<|" to the first "|>"; any other one has no marker and ends where one begins, or it is the rest of the text from a "<|" that is never closed |
| SegmentLaws.SpecialIsCutOut | src/fortai_native_tokenizer.f90:695-741 | a special token behind a text without "<" is cut out, whatever follows |
| SegmentLaws.PlainIsOneSegment | src/fortai_native_tokenizer.f90:711-714 | a text without "<" is one segment |
| SegmentLaws.UnclosedStaysPlain | src/fortai_native_tokenizer.f90:717-728 | from a "<|" that is never closed on, the rest is one segment |
| SegmentLaws.InlineMarkersAreSpecial | src/fortai_native_tokenizer.f90:673-710 | the six inline markers |
| SpecialTokens.SegmentsAreWellFormed | src/fortai_native_tokenizer.f90:695-741 | segments of well-formed text are well formed |
| SpecialTokens.TextIdsFit | src/fortai_native_tokenizer.f90:663-694 | all tokens, with the leading one, are at most one more than the bytes, so the `4*len+8` work array never drops one |
| SegmentLaws.IdsAroundSpecial | src/fortai_native_tokenizer.f90:663-746 | the tokens of a text are the leading one if wanted and known, those of the text in front of a special token, the token itself if known, and those of the rest |
| SegmentLaws.IdsOfPlain | src/fortai_native_tokenizer.f90:663-746 | a text without "<" has the leading token and its plain tokens, with special parsing or without |
| SegmentLaws.AbIsOneToken | src/fortai_native_tokenizer.f90:314-348 | where "a" and "b" merge, "ab" is the one token of "ab", behind the leading one |
| SegmentLaws.AbWithSpecials | src/fortai_native_tokenizer.f90:663-746 | a text with a closed special token and an inline marker is the five tokens it should be |
| SpecialTokens.WorkSizeFitsExactly | src/fortai_native_tokenizer.f90:663-694 | the size of the work array fits in 32 bits if and only if the text has at most 2^29 - 3 bytes |
| SpecialTokens.DecodesToItself | src/fortai_native_tokenizer.f90:850-859 | a piece decodes to itself if and only if none of its characters is from U+0080 to U+01FF |
| SpecialTokens.BytesRoundTripWithSpecials | src/fortai_native_tokenizer.f90:663-746 | with special parsing the bytes are recovered if and only if each special token in the text decodes to itself |
| SpecialTokens.RoundTripWithSpecials | src/fortai_native_tokenizer.f90:663-746 | with special parsing, decoding the encoding of a well-formed text gives it back if and only if no special token in it has a character from U+0080 to U+01FF; the bytes before repair likewise |
| SpecialTokens.SegmentsRepaired | src/fortai_native_tokenizer.f90:814-896 | the repair of what all segments were read as is their text only if no atomic one lost a character |
| SpecialTokens.AccentedSpecialTokenIsLost | src/fortai_native_tokenizer.f90:850-859 | a concrete well-formed special token that is not decoded to itself |
| NativeTokenizer.Open | src/fortai_native_tokenizer.f90:91-155 | opening fails exactly without tokens, and otherwise the blobs stand for the vocabulary and the rules |
| NativeTokenizer.OpenFile | src/fortai_native_tokenizer.f90:49-155 | the metadata of a file decide vocabulary, rules, pre-tokenizer, leading token and its policy; it fails exactly without tokens |
| NativeTokenizer.KnownMetadata | src/fortai_native_tokenizer.f90:59-77 | by example: the name of the pre-tokenizer with blanks behind it, another name, none, the flag, another type, the number and its default |
| NativeTokenizer.NativeTokenizer.LookupMerge | src/fortai_native_tokenizer.f90:197-218 | the rank of a pair, by the blobs |
| NativeTokenizer.NativeTokenizer.FindBest | src/fortai_native_tokenizer.f90:317-327 | the search loop returns the leftmost pair of least rank, or none exactly if no rule applies |
| NativeTokenizer.NativeTokenizer.MergeAll | src/fortai_native_tokenizer.f90:314-338 | shifting symbols in place computes the full merge |
| NativeTokenizer.NativeTokenizer.EncodePiece | src/fortai_native_tokenizer.f90:305-349 | appends the tokens of the symbols at the end of a merge chain of the piece, cut only at the capacity |
| NativeTokenizer.NativeTokenizer.EncodePlain | src/fortai_native_tokenizer.f90:351-394 | appends exactly the tokens of all pieces of the text |
| NativeTokenizer.NativeTokenizer.EncodeSpecials | src/fortai_native_tokenizer.f90:695-741 | appends exactly the tokens of all segments |
| NativeTokenizer.NativeTokenizer.Encode | src/fortai_native_tokenizer.f90:663-746 | the returned array is the specified token list, nothing dropped, for every choice of the two options |
| NativeTokenizer.NativeTokenizer.Decode | src/fortai_native_tokenizer.f90:814-896 | the returned bytes are the specified text for any token sequence |
| NativeTokenizer.EncodeAndDecode | src/fortai_native_tokenizer.f90:663-896 | a client that encodes without special tokens and decodes gets the text back if and only if it is well formed |
| NativeTokenizer.EncodeAndDecodeSpecials | src/fortai_native_tokenizer.f90:663-896 | a client that encodes with special tokens gets a well-formed text back if and only if they avoid the byte alphabet |
| Argmax.FirstMaximumIsUnique | src/backend/cpu/fortai_llama_fast.c:337-343 | there is only one first maximum |
| Argmax.ScalarArgmax | src/backend/cpu/fortai_llama_fast.c:366-377 | the scan returns the first maximum, or 0 if the first value is not a number, and the sum |
| Argmax.Avx2Argmax | src/backend/cpu/fortai_llama_fast.c:313-357 | lanes, tie breaking and tail return the first maximum and the sum for any length |
| Argmax.SumOfLaneSums | src/backend/cpu/fortai_llama_fast.c:325-347 | adding lane by lane and then across gives the whole sum |
| Argmax.SumOfNumbers | src/backend/cpu/fortai_llama_fast.c:366-377 | of numbers alone the sum is the sum of their values |
| Argmax.ScansAgree | src/backend/cpu/fortai_llama_fast.c:313-378 | the two scans return the same index if and only if the first value is a number or nothing beats minus infinity |
| Argmax.NanInFrontDepends | src/backend/cpu/fortai_llama_fast.c:313-378 | on not-a-number followed by 1 the two scans choose different indices |
| Argmax.ScansAgreeOnNumbers | src/backend/cpu/fortai_llama_fast.c:313-378 | on vectors of numbers both return the least index of the maximum |
| Argmax.ArgmaxF32 | src/backend/cpu/fortai_llama_fast.c:360-378 | the dispatching function returns the chosen index and the sum |
| Speculative.SpeculativeAcceptPrefix | src/fortai_speculative.f90:15-35 | the loop accepts the common prefix up to the limit, and refuses a limit that is not positive |
| Speculative.AcceptedIsUnique | src/fortai_speculative.f90:29-34 | the accepted count is the only one with equal prefixes that cannot be extended |
| Speculative.GreedySplit | src/backend/cpu/fortai_llama_fast.c:798-816 | greedy generation can be interrupted and resumed anywhere |
| LlamaFast.NextIsChoice | src/backend/cpu/fortai_llama_fast.c:798-816 | the greedy token is the choice of the argmax among the logits behind the consumed tokens |
| LlamaFast.GreedyOne | src/backend/cpu/fortai_llama_fast.c:798-816 | and one step of the greedy sequence is that token |
| Speculative.AcceptedIsGreedy | src/backend/cpu/fortai_llama_fast.c:912-932 | accepted drafts followed by the target's own choice are the greedy continuation, for any drafts |
| LlamaFast.Handle.DecodeGreedy | src/backend/cpu/fortai_llama_fast.c:798-816 | a step consumes the token, keeps the caches in step and returns the greedy choice; it is refused exactly for a negative token or a full context, changing nothing, and fails exactly if a library call failed |
| LlamaFast.Handle.DraftTokens | src/backend/cpu/fortai_llama_fast.c:888-901 | the proposals are the choices of the draft, one behind the other, and its cache follows; it fails exactly if a library call failed |
| LlamaFast.Handle.Compare | src/backend/cpu/fortai_llama_fast.c:912-923 | the accepted count is the one of `accept_prefix`, and the mismatch the target's choice behind it |
| LlamaFast.Handle.Rollback | src/backend/cpu/fortai_llama_fast.c:924-929 | afterwards the target cache is exactly the accepted prefix, and the draft cache lost exactly what is behind it |
| LlamaFast.Handle.SpeculativeStep | src/backend/cpu/fortai_llama_fast.c:888-933 | the emitted tokens are the greedy ones, and all but the last are consumed, by the draft too as far as it drafted |
| LlamaFast.Handle.PredictionStep | src/backend/cpu/fortai_llama_fast.c:834-876 | the call with a prediction head emits the target's choice whatever the head says |
| LlamaFast.Handle.DecodeSpeculative | src/backend/cpu/fortai_llama_fast.c:823-934 | a call is refused exactly for a negative token, a full context, no room for a token or a head without buffers, and fails exactly if a library call failed; any other call, speculative exactly if there is room for all proposals, predicting or falling back, emits greedy tokens and keeps the caches in step |
| LlamaFast.Handle.Reset | src/backend/cpu/fortai_llama_fast.c:990-1004 | after a reset the caches are empty, whatever failed before |
| LlamaFast.Generate | app/fortai_cpu_run.f90:103-125 | the generation loop, in speculative steps of variable length, prints exactly the greedy sequence from the first token; it succeeds if and only if no library call fails and the run fits the context |
| LlamaFast.CommandLine | app/fortai_cpu_run.f90:66-125 | with or without the separate greedy call for the prompt token the command line prints the greedy sequence; it succeeds if and only if no library call fails and the run fits the context |
| DecoderSessions.Serve | src/backend/cpu/fortai_llama_fast.c:798-1004 | a call of a session emits tokens unless it is refused or the library fails, and only a failure ends the session |
| DecoderSessions.Session | src/backend/cpu/fortai_llama_fast.c:798-1004 | over any mix of greedy calls, speculative calls and resets, what was emitted since the last reset is the greedy sequence, the target cache is exactly what was consumed and each draft cache a sub-map, unless a library call failed since; every call that is not refused emits at least one token |
| RequestQueue.Ring.Push | src/server/fortai_http_server.c:493-507 | the lock region appends to the ring, or waits when full, or refuses when stopping |
| RequestQueue.Ring.Take | src/server/fortai_http_server.c:512-524 | the lock region removes the oldest entry, or waits, or ends when stopping and empty |
| RequestQueue.Ring.Finish | src/server/fortai_http_server.c:528-531 | one worker less is active, and the drained signal is given exactly when nothing is queued or active |
| RequestQueue.Ring.Stop | src/server/fortai_http_server.c:662-663 | sets the stopping flag and nothing else |
| RequestQueue.Ring.constructor | src/server/fortai_http_server.c:614-618 | an empty ring of four places per worker, at least 16 |
| QueueProtocol.InitialState | src/server/fortai_http_server.c:614-647 | the invariant holds when the workers have started |
| QueueProtocol.StepKeepsInvariant | src/server/fortai_http_server.c:493-533 | every step of every thread keeps order, accounting and wakeups |
| QueueProtocol.RunKeepsInvariant | src/server/fortai_http_server.c:493-533 | hence every reachable state has them |
| QueueSafety.QueueIsFifo | src/server/fortai_http_server.c:501-521 | in every reachable state the queue holds the oldest untaken connections in order, at most the capacity |
| QueueSafety.EveryConnectionInOnePlace | src/server/fortai_http_server.c:648-659 | every accepted connection is exactly once among pending, queued, in a worker's hands and closed |
| QueueSafety.SleepersHaveAReason | src/server/fortai_http_server.c:495-514 | a queued connection has a worker that does not sleep, and the producer waits only while the queue is full |
| QueueSafety.NobodySleepsForever | src/server/fortai_http_server.c:495-514 | no thread can move without a stray wakeup if and only if the server rests in `accept` with nothing to do or has returned |
| QueueSafety.EveryScheduleEnds | src/server/fortai_http_server.c:648-667 | from any state no schedule of the threads alone is longer than a number computed from the state, and none leads back to `accept` once a stop is on its way |
| QueueSafety.AllServedWithoutArrivals | src/server/fortai_http_server.c:493-533 | without new arrivals every schedule ends at rest or at the return, with every accepted connection closed exactly once |
| QueueSafety.OnlyTheLastIsRefused | src/server/fortai_http_server.c:493-507 | without a signal no connection is refused; after one all but the last accepted went to the queue or a worker, in order, and at most that last one was refused |
| QueueSafety.ShutdownIsCertainExactly | src/server/fortai_http_server.c:648-667 | after a signal, every schedule that cannot be extended ends with the return if and only if the producer is not in `accept` |
| QueueSafety.SignalBeforeAcceptIsLost | src/server/fortai_http_server.c:648-653 | a reachable state with the flag set in which no thread can move although the server has not returned |
| QueueSafety.AllClosedAtTheEnd | src/server/fortai_http_server.c:660-674 | when the transport returns, nothing is queued or active and every accepted connection was closed exactly once |
| QueueSafety.AllServedAtTheEnd | src/server/fortai_http_server.c:648-674 | when the transport returns, workers took every accepted connection in order, but after a signal perhaps not the last |
| CStrings.StrtoullIsLocal | src/server/fortai_http_server.c:130-130 | a number with a byte that is not white space before the end of its line is read without looking further |
| CStrings.StrstrIsLocal | src/server/fortai_http_server.c:122-127 | the first match depends only on the bytes up to its end |
| HeaderLines.EndsAtExactly | src/server/fortai_http_server.c:122-122 | the header ends at the first empty line |
| HeaderLines.LastValueExactly | src/server/fortai_http_server.c:125-132 | the value taken is that of the last line of the header that has the name in either case, and none exactly if no line has it |
| HeaderLines.NumberIsRead | src/server/fortai_http_server.c:130-130 | blanks, an optional plus and decimal digits are read as their number, saturating |
| HeaderLines.NegativeIsRead | src/server/fortai_http_server.c:130-130 | a minus gives the negative modulo 2^64 |
| HeaderLines.WhiteSpace | src/server/fortai_http_server.c:130-130 | the six characters that are skipped |
| HeaderLines.PostIsFramed | src/server/fortai_http_server.c:121-138 | a request of 45 bytes with the length in its second line, framed |
| RequestReader.ScanLines | src/server/fortai_http_server.c:125-132 | the line loop returns the value of the last Content-Length line, or what it had |
| RequestReader.NothingIsCarried | src/server/fortai_http_server.c:104-130 | the length kept from an earlier pass never decides a later one |
| RequestReader.Examine | src/server/fortai_http_server.c:121-141 | one pass over the terminated buffer gives the verdict on the bytes received, and nothing behind the NUL matters |
| RequestReader.ReadRequest | src/server/fortai_http_server.c:100-144 | the loop with the doubling buffer returns exactly the received prefix that the specification names, NUL terminated, with all writes in bounds |
| RequestFraming.ChunksDoNotMatter | src/server/fortai_http_server.c:107-141 | if the last Content-Length line has a value, every way to deliver the bytes gives the request they contain, as section 6.3 of RFC 9112 wants |
| RequestFraming.FrameIsHeaderAndBody | src/server/fortai_http_server.c:133-138 | an accepted request is header and announced body, complete and at most 16 MiB, and a refusal has one of three causes |
| RequestFraming.IndependentExactly | src/server/fortai_http_server.c:107-141 | for any header, chunking can never matter if and only if its last length has a value, or the header fills a buffer exactly, or it is too long |
| RequestFraming.BlankLengthDepends | src/server/fortai_http_server.c:129-130 | every other header with a blank length has two outcomes for the same bytes |
| RequestFraming.BlankHeaderDepends | src/server/fortai_http_server.c:129-130 | a concrete header of 19 bytes whose framing depends on the chunks |
| RealVectors.DotF16 | src/backend/cpu/fortai_q8_dot.c:180-224 | plain loop and blocked loop with four times eight accumulators both give the inner product |
| RealVectors.DotAppend | src/backend/cpu/fortai_q8_dot.c:180-224 | inner products add up over the parts of the vectors |
| RealVectors.DotOfFour | src/backend/cpu/fortai_q8_dot.c:180-224 | the inner product of four entries |
| OnlineSoftmax.MassAfterRow | src/backend/cpu/fortai_q8_dot.c:336-346 | rescaling and adding a row keeps sum times `exp(maximum)` equal to the sum of the exponentials |
| OnlineSoftmax.MomentAfterRow | src/backend/cpu/fortai_q8_dot.c:336-345 | and the same for every entry of the accumulator |
| OnlineSoftmax.FactorsAreSmall | src/backend/cpu/fortai_q8_dot.c:336-342 | both factors are between 0 and 1, so no exponential of a positive number is taken |
| OnlineSoftmax.SumStep | src/backend/cpu/fortai_q8_dot.c:328-347 | one row keeps maximum and sum right, and the sum at least 1 |
| OnlineSoftmax.Quotient | src/backend/cpu/fortai_q8_dot.c:350-352 | the final quotient is the softmax average, and the divisor at least 1 |
| OnlineSoftmax.FlashAttention | src/backend/cpu/fortai_q8_dot.c:286-355 | for any number of rows and strides each output is the textbook softmax average of its column; refused arguments write nothing |
| OnlineSoftmax.AttentionIsBetween | src/backend/cpu/fortai_q8_dot.c:349-353 | no output leaves the range of its column |
| OnlineSoftmax.AttentionOfTwo | src/backend/cpu/fortai_q8_dot.c:286-355 | the output for two rows with different strides, written out |
| Half.FloatToHalf | src/backend/cpu/fortai_q8_dot.c:93-144 | every single rounds to the nearest half, ties to even, with subnormals, carry and overflow; not-a-number stays so |
| Half.RoundsToNearest | src/backend/cpu/fortai_q8_dot.c:93-144 | the rounding by neighbours is nearest among all halves and even on ties, as section 4.3.1 of IEEE 754-2019 |
| Half.RoundingIsMonotone | src/backend/cpu/fortai_q8_dot.c:93-144 | greater magnitudes never round to smaller halves, so the rounding is unique |
| Half.SubnormalRounding | src/backend/cpu/fortai_q8_dot.c:114-127 | the shifting branch rounds correctly |
| Half.NormalRounding | src/backend/cpu/fortai_q8_dot.c:131-143 | the normal branch rounds correctly, with the carry into the exponent |
| Half.HalfToFloat | src/backend/cpu/fortai_q8_dot.c:61-91 | widening keeps sign and magnitude or class; the normalization loop ends |
| Half.RoundingInvertsWidening | src/backend/cpu/fortai_q8_dot.c:61-144 | widening and rounding gives back every one of the 65536 patterns |
| Half.ConversionIsMonotone | src/backend/cpu/fortai_q8_dot.c:93-144 | conversion keeps the order of all numbers, with signs and infinities |
| Half.KnownMagnitudes | src/backend/cpu/fortai_q8_dot.c:61-144 | the patterns of 1, -1, 65504 and the least subnormals |
| Q8Quantize.RoundingsAgreeExactly | src/backend/cpu/fortai_q8_dot.c:376-415 | rounding ties away and ties to even differ exactly halfway above an even number |
| Q8Quantize.RoundOnTies | src/backend/cpu/fortai_q8_dot.c:376-415 | halfway between two integers the one form takes the integer further from zero, the other the even one |
| Q8Quantize.QuantizedIsClose | src/backend/cpu/fortai_q8_dot.c:370-377 | every value is in [-127, 127] and within half a step of its input, with either rounding |
| Q8Quantize.MaxAbsIsTaken | src/backend/cpu/fortai_q8_dot.c:363-367 | the maximum of a block is the magnitude of one of its inputs, or zero |
| Q8Quantize.VectorMaximum | src/backend/cpu/fortai_q8_dot.c:388-401 | the lane-wise reduction is the greatest magnitude of the block |
| Q8Quantize.PacksAndPermutationRestoreOrder | src/backend/cpu/fortai_q8_dot.c:416-423 | the permutation undoes the interleaving of the two packs |
| Q8Quantize.PackedValuesAreInOrder | src/backend/cpu/fortai_q8_dot.c:404-425 | the stored register has every quantized input in its place |
| Q8Quantize.QuantizeScalar | src/backend/cpu/fortai_q8_dot.c:357-379 | fills every block and scale as specified |
| Q8Quantize.QuantizeAvx2 | src/backend/cpu/fortai_q8_dot.c:381-427 | the same with ties to even |
| Q8Quantize.Quantize | src/backend/cpu/fortai_q8_dot.c:429-442 | either form leaves blocks fit for the product; another count leaves everything alone |
| Q8Quantize.EncodedIsSymmetric | src/backend/cpu/fortai_q8_dot.c:375-377 | no quantized byte is -128 |
| Q8Blocks.EncodedIsWritten | src/backend/cpu/fortai_q8_dot.c:357-427 | the bytes are blocks one after the other, each the half pattern of its step, low byte first, and its inputs in steps, rounded |
| Q8Dot.SymmetricIsExact | src/backend/cpu/fortai_q8_dot.c:540-545 | so nothing wraps in a product with quantized activations |
| Q8Quantize.FormsAgreeExactly | src/backend/cpu/fortai_q8_dot.c:357-427 | both forms store the same block if and only if none of its scaled values is such a tie |
| Q8Dot.PairSumIsExact | src/backend/cpu/fortai_q8_dot.c:540-545 | no 16-bit pair sum saturates, whatever the bytes |
| Q8Dot.LanesAddUp | src/backend/cpu/fortai_q8_dot.c:540-548 | the eight lanes of a block add up to the sum of what the sign instructions make |
| Q8Dot.SignProductExactly | src/backend/cpu/fortai_q8_dot.c:540-543 | sign instructions and multiplication give the product if and only if no negative weight meets -128 |
| Q8Dot.LanesAreExactly | src/backend/cpu/fortai_q8_dot.c:540-548 | the lanes of a block add up to its scalar sum if and only if that holds throughout the block |
| Q8Dot.ActivationMinus128IsWrong | src/backend/cpu/fortai_q8_dot.c:542-545 | with an activation of -128 they would not |
| Q8Dot.DotScalar | src/backend/cpu/fortai_q8_dot.c:491-513 | the loops compute the row product of the bytes |
| Q8Blocks.BlockReadBack | src/backend/cpu/fortai_q8_dot.c:498-511 | scale and values of a block are read back as they were written, a half pattern low byte first and 32 values |
| Q8Blocks.ProductOfWritten | src/backend/cpu/fortai_q8_dot.c:491-513 | the row product on written bytes is the inner product of the numbers that were written, half times value against scale times value |
| Q8Blocks.TermsOfWritten | src/backend/cpu/fortai_q8_dot.c:491-560 | and so is every block of the scalar and of the lane-wise product |
| Q8Dot.DotAvx2 | src/backend/cpu/fortai_q8_dot.c:515-560 | for any bytes, the row product of the sign instructions over the blocks that the 32-bit counter reaches; with positive scales never above the row product, and equal to it if and only if nothing wraps |
| Q8Dot.LaneRowIsExactly | src/backend/cpu/fortai_q8_dot.c:515-560 | with positive scales the lanes give the row product if and only if no negative weight meets -128 |
| Q8Dot.CounterWraps | src/backend/cpu/fortai_q8_dot.c:523-530 | the counter at 2^31 - 1, 2^31 and 2^32 + 1 blocks |
| Q8Dot.Dot8 | src/backend/cpu/fortai_q8_dot.c:562-572 | the scalar form always gives the row product, the AVX2 form for fewer than 2^31 blocks if nothing wraps |
| Q8Tensor.LoadedExactly | src/fortai_gguf_runtime.f90:1133-1139 | a matrix has exactly the bytes that the loader computes |
| Q8Tensor.RowsTile | src/fortai_gguf_runtime.f90:1133-1139 | the byte ranges of the rows follow one another and fill the tensor |
| Q8Tensor.ValueIsElement | src/fortai_gguf_runtime.f90:540-546 | access by index reads the block of the row and column |
| Q8Tensor.GetRow | src/fortai_gguf_runtime.f90:565-587 | reading a row gives all its elements of the tensor; a wrong row or size is an error that writes nothing |
| Q8Blocks.RowReadBack | src/fortai_gguf_runtime.f90:565-587 | the row of a matrix of written blocks is in every place the half of the block times the value |
| Q8Blocks.FirstIsOne | src/fortai_gguf_runtime.f90:565-587 | the bytes 0x00, 0x3C, 1 and zeros are the numbers 1 and zeros |
| Q8Tensor.TensorDot | src/fortai_gguf_runtime.f90:602-632 | the product with a vector is the inner product with that row, and zero for a wrong row or size |
| Q8Tensor.QuantizedProductIsDot | src/backend/cpu/fortai_q8_dot.c:498-511 | the product on quantized bytes is the inner product of the values that the row and the activation stand for |
| Q8Blocks.ActivationReadBack | src/backend/cpu/fortai_q8_dot.c:498-511 | what written activations stand for is scale times value in every place |
| Q8Product.DotDistance | src/backend/cpu/fortai_q8_dot.c:491-513 | vectors that are near entry by entry have near products with any row |
| Q8Product.ActivationIsNear | src/backend/cpu/fortai_q8_dot.c:357-427 | every entry of the quantized vector is within half a step, and 127 times what the half conversion of the step is off |
| Q8Product.MatVecQ8 | src/fortai_gguf_runtime.f90:702-762 | quantizing and multiplying, with either form: every value is the inner product of the row with what the quantized vector stands for, and within the error of the blocks of the product with the vector itself; sizes that do not agree are refused and write nothing |
| Q8Tensor.MatVecTriplet | src/fortai_gguf_runtime.f90:885-962 | three products in one index space, in any order of the indices, equal three separate products |
| GatedDelta.GatedDeltaStep | src/backend/cpu/fortai_q8_dot.c:588-697 | scalar and blocked loops replace every row of the flat state and give every output as specified, for any head size |
| GatedDelta.NextRowDot | src/backend/cpu/fortai_q8_dot.c:662-679 | what the new row answers to any vector, in terms of the old row |
| GatedDelta.UnitKeyReadsBack | src/backend/cpu/fortai_q8_dot.c:662-679 | a unit key reads back `(1 - beta)` of the decayed old answer and `beta` of the value |
| GatedDelta.StepReadsBack | src/backend/cpu/fortai_q8_dot.c:656-681 | the same for every row of the state after a step |
| GatedDelta.StepOfTwo | src/backend/cpu/fortai_q8_dot.c:656-681 | a step of two rows, state and outputs written out |
| GatedDelta.WrittenValueIsRemembered | src/backend/cpu/fortai_q8_dot.c:656-681 | what a unit key reads after any write is read back after any run along orthogonal keys, decayed |
| GatedDelta.RunOfRows | src/backend/cpu/fortai_q8_dot.c:656-681 | over any run of calls every row of the flat state goes its own way |
| GatedDelta.RunRemembers | src/backend/cpu/fortai_q8_dot.c:656-681 | so after such a run every row of the state reads what the first call left at its key, decayed |
| GatedDelta.Steps | src/backend/cpu/fortai_q8_dot.c:683-697 | repeated calls on one state are such a run |
| Mt19937.SeedingFits | src/fortai_mt19937.f90:25-28 | the seeding never exceeds a signed 64-bit integer |
| Mt19937.SeedNext | src/fortai_mt19937.f90:26-27 | one step of the seeding in 64-bit integers is the published one modulo 2^32 |
| TwisterLaws.KnownWords | src/fortai_mt19937.f90:24-28 | the first words of the seed 5489, as published |
| Mt19937.TwistOne | src/fortai_mt19937.f90:47-50 | one new word is the recurrence on 32-bit words, and stays below 2^32 |
| TwisterLaws.Recurrence | src/fortai_mt19937.f90:42-51 | word k + 624 is made of words k, k + 1 and k + 397 |
| TwisterLaws.RecurIsXor | src/fortai_mt19937.f90:47-50 | it is the middle word and the matrix times the joined one, by exclusive or |
| TwisterLaws.JoinTakes | src/fortai_mt19937.f90:47-47 | the joined word has the upper bit of the one and the lower bits of the other |
| TwisterLaws.MatrixUndoesDoubling | src/fortai_mt19937.f90:48-49 | the matrix takes the last bit off a word and adds 0x9908b0df if it was set |
| TwisterLaws.KnownRecurrence | src/fortai_mt19937.f90:47-50 | the word 624 of the seed 5489 from its words 0, 1 and 397 |
| Mt19937.TemperOne | src/fortai_mt19937.f90:56-60 | the tempering with shifts past 32 bits is the one on 32-bit words |
| TwisterLaws.TemperIsLinear | src/fortai_mt19937.f90:56-59 | the tempering of an exclusive or is that of the temperings |
| TwisterLaws.SingleBitsTempered | src/fortai_mt19937.f90:56-59 | the images of the 32 single bits, which with linearity are the images of all words |
| TwisterLaws.KnownOutputs | src/fortai_mt19937.f90:56-60 | the word 0x9b0afa27 is tempered to 0xd091bb5c |
| Mt19937.Generator.constructor | src/fortai_mt19937.f90:18-30 | any seed, negative ones too, fills the state with the first 624 words |
| Mt19937.Generator.TwistAll | src/fortai_mt19937.f90:41-53 | overwriting in place replaces 624 words of the sequence by the next 624 |
| Mt19937.Generator.Uint32 | src/fortai_mt19937.f90:32-61 | call n after seeding returns the tempering of word 624 + n, for every n |
| Mt19937.Generator.UniformReal64 | src/fortai_mt19937.f90:63-75 | consumes two words, low one first, as a double over 2^64: below 1 unless the high word is 0xffffffff and the low one at least 0xfffffc00, and then 1 |
| DoubleRounding.RoundsToLimitExactly | src/fortai_mt19937.f90:74-74 | a sum below 2^64 rounds up to 2^64 if and only if it is among the last 1024 |
| DoubleRounding.RoundToDoubleIsNear | src/fortai_mt19937.f90:74-74 | the rounded sum is within half the distance of neighbouring doubles |
| DoubleRounding.SmallNumbersAreDoubles | src/fortai_mt19937.f90:74-74 | what 53 bits hold is not changed |
| DoubleRounding.KnownTies | src/fortai_mt19937.f90:74-74 | halfway between two doubles the even one is taken, as section 4.3.1 of IEEE 754-2019 says |
| Mt19937.BelowOneExactly | src/fortai_mt19937.f90:73-74 | for all pairs of words the fraction is at most 1, and 1 exactly for those pairs |
| Mt19937.FullWordsMakeOne | src/fortai_mt19937.f90:74-74 | two full words make 1 |
| PlanCache.FindPlanMeans | src/backend/cpu/fortai_ggml_quant.c:299-304 | the lookup finds the first plan with these keys, or there is none |
| PlanCache.AdmitKeepsTable | src/backend/cpu/fortai_ggml_quant.c:305-311 | a request keeps keys distinct, at most 256 plans, and the counter equal to the bytes modulo 2^64 and at most 4 GiB, exactly equal for the sizes of real buffers |
| PlanCache.AdmitKeepsNewPlan | src/backend/cpu/fortai_ggml_quant.c:305-311 | a new request within 256 plans and 4 GiB is served and its plan kept |
| PlanCache.AdmitRefusesExactly | src/backend/cpu/fortai_ggml_quant.c:299-311 | a request is refused if and only if it has no plan and the table is full, the counter with it is above 4 GiB, or no plan can be made |
| PlanCache.ServedAgain | src/backend/cpu/fortai_ggml_quant.c:299-304 | what was served is served again with the same weights without making it anew, whatever was asked in between |
| PlanCache.RowSizes | src/backend/cpu/fortai_ggml_quant.c:565-577 | the size of one row for every kind that has plans, and no other kind |
| PlanCache.CounterIsExactExactly | src/backend/cpu/fortai_ggml_quant.c:305-311 | an insertion keeps the counter exact if and only if the sum of the sizes fits in 64 bits |
| PlanCache.AdmitIsCurrent | src/backend/cpu/fortai_ggml_quant.c:299-312 | with unchanged weights a found plan holds the right ones |
| PlanCache.PlanTable.Request | src/backend/cpu/fortai_ggml_quant.c:295-313 | lookup, limits with their wrap-around, and insertion, as specified |
| PlanCache.Cache.MatVec | src/backend/cpu/fortai_ggml_quant.c:605-679 | a product, cached or not, is the direct one; when it is given, and the table afterwards, for any sizes |
| PlanCache.Cache.MatVecGroup | src/backend/cpu/fortai_ggml_quant.c:441-491 | a group product is the list of direct ones; when it is given, and the table afterwards, for any sizes |
| PlanCache.Cache.Clear | src/backend/cpu/fortai_ggml_quant.c:520-563 | both tables and counters are empty |
| PlanCache.Run | src/backend/cpu/fortai_ggml_quant.c:441-679 | over any run of calls every answer is the direct product with the weights in force, a single product is answered whenever the direct way works, and both tables keep their bounds |
| GrowableString.GrowableString.Reserve | src/fortai_string.f90:39-59 | keeps the contents, makes room, and keeps the bounds on capacity and copying |
| GrowableString.GrowableString.Append | src/fortai_string.f90:61-71 | the contents grow by the fragment |
| GrowableString.GrowableString.AppendString | src/fortai_string.f90:79-86 | the same for another string, or for the string itself |
| GrowableString.GrowableString.Set | src/fortai_string.f90:106-111 | the contents are the new text |
| GrowableString.GrowthFitsExactly | src/fortai_string.f90:47-54 | no doubling leaves 32 bits if and only if at most 2^30 characters are asked for |
| GrowableString.DemandIsSupplied | src/fortai_string.f90:4-7 | the greatest length asked for is at most what was supplied in all |
| GrowableString.Replay | src/fortai_string.f90:4-7 | after any sequence of operations: the expected contents, capacity at most 16 or below twice the greatest length asked for, within 32 bits if and only if that is at most 2^30, and all copying by growth at most the capacity, so linear in what was supplied |

## Left out

- Integer widths of the tokenizer: offsets and sizes are unbounded; `SpecialTokens.WorkSizeFitsExactly` says up to which length the work array fits.
- Characters 324 to 511 in a vocabulary: `achar` of such a code point is taken modulo 256, as the compiler does it.
- NativeTokenizer.OpenFile: the end-of-text token and the flags for the chat template, which no modelled operation reads.
- Unicode category tables: parameters, since nothing depends on their contents.
- End-of-text tests, token pieces and the chat template of the tokenizer: no property beyond a lookup.
- Rounding of float sums and products, the AVX2 exponential and SiLU: exact reals instead.
- Not-a-number and infinity outside argmax and half conversion.
- RealVectors.DotF16: takes exact numbers for the halves and sums exactly.
- OnlineSoftmax.FlashAttention: query, keys, values and accumulator are exact instead of halves; the element-wise AVX2 loops for conversion, scaling and multiply-add are modelled by the plain ones.
- Q8Quantize.QuantizeScalar: the half conversion of the scale is a parameter, and the scaled inputs are exact.
- Q8Quantize.QuantizeAvx2: the half conversion of the scale is a parameter, and the scaled inputs are exact.
- Q8Tensor.GetRow: only Q8_0 matrices; single and half precision tensors need no blocks, and the mixed quantizations have foreign decoders.
- Q8Tensor.TensorDot: only Q8_0 matrices, for the same reason.
- Q8Tensor.MatVecTriplet: begins after the shape checks and the quantization of the vector; the product with two matrices is the same without the third.
- GatedDelta.RunRemembers: for exactly orthogonal keys, since sums are exact.
- LlamaFast.Handle.DecodeGreedy: the position is the number of consumed tokens, as the callers pass it; what the library does with another one is not modelled.
- LlamaFast.Handle.DecodeSpeculative: the position likewise; a batch is assumed to give the logits of single steps; sequence identifiers, logit flags and the logit sum are not modelled.
- LlamaFast.Generate: the branch that prints the best logits of every step, which uses another decoder call.
- LlamaFast.CommandLine: likewise only without the printing of logits.
- Failures of the inference library: a failing call ends the run until the next reset.
- Model loading, tokenization by the library, CUDA: foreign code.
- Sockets, process slots, authorization, CORS and dispatch of requests: no protocol of their own; a worker serving a connection is one step.
- Failing allocations and thread creation: the workers that started are there from the beginning, and buffers can always grow.
- PlanCache.Cache.MatVec: plan construction, product and activation conversion are the library's and may fail; only their results are assumed.
- PlanCache.Cache.Clear: clearing without the library, which then has no plans, is not modelled.
- GrowableString.GrowableString.Reserve: lengths are unbounded; `GrowableString.GrowthFitsExactly` says when the doubling stays in 32 bits.
- Conversion of strings from and to C, and formatting of numbers.
- GGUF files and memory mapping: input and output; metadata are a map from names to values.
