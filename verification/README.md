# Verification of the engine's bookkeeping

A Dafny model of the parts of the engine whose correctness does not depend on the neural network, with
proofs of what they promise. `dafny verify dfyconfig.toml` checks all of it.

- **Radix tree** (`rax.c`): linked nodes edited in place (`Rax`), with a ghost map of nodes and a ghost map
  from keys to values. `RaxTheory` says what a tree stores, `RaxSteps`, `RaxReshape`, `RaxSplit`, `RaxPrune`
  and `RaxChain` prove one lemma for each local change, and the methods compose them. `RaxIter`, `RaxSeek`,
  `RaxOrder` and `RaxScan` are the iterator; `RaxFlat` and `RaxBits` the buffer of a node under `memmove`;
  `RaxLayout` joins the buffer to the tree's nodes; `RaxFree` has whole runs and the count of nodes.
- **Session** (`sf37.c`): `KvTheory` defines a cold evaluation over an open network and what rings of rows
  must hold; `KvSession` is the session on the GPU with failures wherever the code can report one;
  `KvCpu` the one without; `SessionImage`, `KvCodec` and `PayloadRows` are saving and loading; `SessionRun`
  has runs of everything together.
- **Tokenizer and disk cache** (`sf37.c`, `sf37_kvstore.c`): `StrTable`, `TokBytes`, `PieceRules`,
  `Pretokenizer`, `Bpe`, `Rendering`, `Tokenizer`, `Eviction`, `KvStore`, `Sha1`.
- **Quantizer** (`gguf-tools/quants.c`, `sf37_quant.c`): `Rounding`, `Quant`, `QuantSearch`, `QuantRound`,
  `QuantPack`, `QuantWhole`, over the reals and on 8-bit words.
- **Files, workers, printing**: `GgufFormat`, `GgufWriter`, `GgufReader`; `ExpertPool`; `TokenPrinter`.

A call that can fail is modelled with a free choice at every point where it can. An object has a constant
`steady`, which says that no such choice is a failure and nobody cancels, so that a result `failed` can come
only from the choices, and what holds without failures can be said. The network is a record of unknown
functions. `Telling(m)` is a network whose outputs determine its inputs; `RecorderTells`
shows that there is one. It is used only to say that a cache that misses a row gives other logits.

## Where a promise does not hold

Each of these has the exact condition under which it holds, and an input or a whole family where it fails.

- Recompression after a removal when keys are longer than 65535 bytes: `RaxChain.ScansAgree`,
  `RaxChain.ScansDiffer`; with shorter keys it holds (`RaxChain.NeverCutOff`).
- The logits after a sync that finds its prompt already evaluated, as after a rewind: `KvSession.SyncExact`,
  `KvSession.RewindThenSync`, and `KvCpu.SyncExact` without a GPU.
- The rewind guard after an earlier rewind: `KvSession.RewindTwice`, `KvSession.SecondRewind`.
- An evaluation after a failed load, which the code allows although the flag is cleared:
  `SessionRun.EvalAfterFailedLoad`, `SessionRun.SparedLengths`. The cache's own caller rewinds to zero, which
  `SessionRun.Take` shows to be enough.
- Without a GPU, a sync that adds tokens after a load of fewer rows than tokens: `KvCpu.RewindInPlace`,
  `KvCpu.RingRowsInOrder`.
- The half-step bound of the unweighted quantizer for groups away from zero: `QuantRound.HalfStepExactly`.
- The budget of the disk cache when a trailer is rewritten: `KvStore.KvStore.Store`, `KvStore.GrownTrailer`.

## Model

| member | source | states |
|---|---|---|
| Rax.Rax.TakeEdge | rax.c:563-605 | One step of the lookup walk: it consumes bytes of the key along one edge, or says exactly why it stops there. |
| Rax.Rax.LowWalk | rax.c:559-620 | The walk ends at a node with its parent field, the byte it split at and its stack, and this place describes the longest match of the key in the tree. |
| RaxWalk.StopHit | rax.c:1101-1117 | A walk that ends on a key or an inline value finds exactly the stored value. |
| RaxWalk.StopMiss | rax.c:559-620 | A walk that stops anywhere else proves that the key is not stored. |
| Rax.Rax.Find | rax.c:1101-1117 | The value of the map at the key, or nothing exactly when the key is not in the map. |
| Rax.Rax.SplitMismatch | rax.c:826-938 | ALGO 1 on the nodes: head, postfix and split node hold exactly the cut of the old compressed node. |
| RaxSplit.MismatchedOk | rax.c:826-938 | ALGO 1 keeps the tree's meaning and well-formedness for every position of the mismatch. |
| RaxSplit.KeyedSplitOk | rax.c:939-1002 | ALGO 2 adds exactly the new key at the cut and keeps every other one. |
| RaxSteps.MaterializeOk | rax.c:212-226 | Moving an inline value into a node of its own changes nothing that is stored. |
| RaxSteps.ChildEdgeOk | rax.c:307-454 | A new edge, with the spill of slot 12 where it would leave the bitmap, leads to an empty node and keeps all bindings. |
| RaxSteps.InlineEdgeOk | rax.c:307-454 | A new edge with an inline value adds exactly one binding, spill included. |
| Rax.Rax.GenericInsert | rax.c:629-1083 | The map with the key set, or unchanged when the key exists and must not be overwritten; return code and old value are the map's; counts and node invariants are kept. |
| Rax.Rax.Insert | rax.c:1087-1089 | The map with the key set to the new value, with the old value reported. |
| Rax.Rax.TryInsert | rax.c:1094-1096 | The map with the key set only if it was missing. |
| Rax.Rax.FreeChain | rax.c:1226-1247 | The upward cleanup frees nodes with one child and no key, from the removed leaf up to the first node that is neither, or the head; the map stays, and the last freed node hangs from exactly one slot of that node. |
| Rax.Rax.RemoveCleanup | rax.c:1226-1265 | After freeing and unlinking the tree is whole again, with the same map, and recompression is asked for only at a node with one edge that is no key. |
| Rax.Rax.ScanChain | rax.c:1386-1405 | The counting scan gives a chain of single-child nodes from its start, its length and its bytes, up to its end or to the size limit. |
| Rax.Rax.Populate | rax.c:1426-1443 | The populating scan fills the new node exactly to its last byte and frees each old node once. |
| Rax.Rax.Recompress | rax.c:1370-1462 | Joining a chain into one compressed node changes no binding. |
| Rax.Rax.Remove | rax.c:1269-1465 | The map without the key; the old value and the return code are the map's. |
| RaxChain.NeverCutOff | rax.c:1395-1403 | With keys of at most 65535 bytes the counting scan never meets the size limit. |
| RaxChain.ScansAgree | rax.c:1395-1443 | The counting and the populating scan cover the same nodes if and only if the whole chain fits a node. |
| RaxChain.ScansDiffer | rax.c:1370-1443 | A key of 70000 bytes and one of 11 inserted and the second removed, each as the steps of the code do it: the tree after every step, and at the end a chain on which the counting scan stops at 65535 bytes and the populating scan runs to 70000. |
| RaxFree.Step | rax.c:1087-1096 | One call answers as a plain map does and leaves its result. |
| RaxFree.Run | rax.c:629-1465 | Any sequence of insertions, conditional insertions and removals answers and ends as the plain map; numele is its size and numnodes the number of nodes. |
| RaxFree.RecursiveFree | rax.c:1469-1494 | Frees exactly the nodes at and below a node, each once. |
| RaxFree.Free | rax.c:1498-1502 | The node count ends at zero. |
| RaxIter.RaxIterator.EnterChild | rax.c:1578-1597 | Into a child slot: the key grows by its edge and the place below is right, whether inline value or node. |
| RaxIter.RaxIterator.NextStep | rax.c:1680-1785 | The step to the next key in byte order, or the end with the place unchanged, from every place a step may start. |
| RaxIter.RaxIterator.PrevStep | rax.c:1803-1893 | The step to the previous key in byte order, or the end with the place unchanged. |
| RaxIter.RaxIterator.SeekGreatest | rax.c:1790-1798 | The greatest key below a node. |
| RaxIter.RaxIterator.Seek | rax.c:1899-2108 | For each of the operators the iterator stands on the key of the map that the operator asks for, or at the end exactly when there is none; other operators are refused. |
| RaxIter.RaxIterator.Next | rax.c:2113-2123 | The least greater key with its value, or the end exactly when there is none; the first call after a seek stays. |
| RaxIter.RaxIterator.Prev | rax.c:2128-2138 | The greatest smaller key with its value, or the end exactly when there is none. |
| RaxScan.CollectUp | rax.c:2113-2123 | A seek and then next until the end visits every key from the target on exactly once, in increasing order, with its value, and ends. |
| RaxScan.CollectDown | rax.c:2128-2138 | The same downwards with prev. |
| RaxFlat.FlatNode.MakeRoom | rax.c:388-454 | The memmoves that open a gap keep the edges in order, every cell, the stored value and the shifted bitmap, with padding that may grow by eight bytes. |
| RaxFlat.FlatNode.AddChild | rax.c:307-454 | Inserting an edge in the buffer is insertion at its sorted position in edges and cells, with the spill of cell 12 and the shifted bitmap; the value stays. |
| RaxFlat.FlatNode.RemoveChild | rax.c:1141-1205 | Removing a child in the buffer is removal at its position in edges, cells and bitmap; a compressed node loses its whole edge. |
| RaxFlat.FlatNode.SetData | rax.c:264-281 | Storing or clearing the value changes nothing else in the buffer. |
| RaxBits.OpenedBits | rax.c:438-445 | The shift and mask on the 13-bit word is insertion of an index into the set of inline slots. |
| RaxBits.ClosedBits | rax.c:1193-1197 | The shift and mask on removal is removal of an index from that set. |
| RaxBits.MarkedBits | rax.c:1046 | Setting the bit adds its index to the set of inline slots. |
| RaxLayout.AddEdge | rax.c:307-454 | The buffer operation decodes to the insertion of an edge to a node that is used on the tree. |
| RaxLayout.AddInlineEdge | rax.c:1037-1049 | Room in the buffer, the value in the new field and its bit set decode to the tree's edge to an inline value, and are done exactly when the bitmap reaches the position. |
| RaxLayout.RemoveEdge | rax.c:1141-1205 | The buffer operation decodes to the slot removal used on the tree. |
| RaxLayout.StoreValue | rax.c:264-281 | The buffer operation decodes to the tree's node with that value. |
| RaxReshape.MoveOk | rax.c:1003-1065 | A node that moved to another address, childless or not, with its parent field rewritten, stores the same map. |
| KvCaps.CapsFit | sf37.c:3067-3091 | A ring holds the whole context, or a window beside the longest prefill chunk. |
| KvTheory.ReadyAfter | sf37.c:3196-3211 | A chunk that fits never overwrites a row that its own queries or the next token need. |
| KvTheory.PutNext | sf37.c:3285-3437 | Writing row p into slot p mod cap loses only what is a whole ring behind it. |
| KvTheory.WarmKept | sf37.c:7508-7565 | An evaluation on rows that are in place is the cold evaluation, layer by layer, and its rows join them. |
| KvTheory.WarmExact | sf37.c:7508-7565 | For any contents of the rings the logits of the next token are the cold ones when every layer finds its rows, and for a network that tells its inputs apart only then. |
| KvTheory.ColdTells | sf37.c:1983-1985 | Because the first layer attends to everything, different texts have different cold logits in a network that tells its inputs apart. |
| KvSession.Session.Eval | sf37.c:7508-7565 | An evaluation succeeds exactly for a token of the vocabulary while the context has room, unless the device fails; from a right cache it gives the logits of a cold evaluation and a right cache again, also after a failure anywhere; from any cache, what the rings make of the token. |
| KvSession.Session.PrefillLayer | sf37.c:5832-6087 | Batch store and attention of a layer give the cold hidden vectors of every position in the chunk, or leave the old rows usable. |
| KvSession.Session.PrefillChunk | sf37.c:6089-6146 | A chunk evaluated on a right cache gives the cold logits, and a failure leaves the old checkpoint right. |
| KvSession.Session.ChunkedRange | sf37.c:6148-6211 | A range done in chunks ends with the prompt as checkpoint and its cold logits; it is stopped early only by the device or a cancellation, and then marked invalid with a right prefix. |
| KvSession.Session.Sync | sf37.c:7703-7801 | A prompt that fits, of tokens that there are, becomes the checkpoint, whatever failures, cancellations and rewinds came before; only the device or a cancellation prevents it. Only the part that the valid checkpoint lacks is evaluated, or all of the prompt when it is no continuation; the logits are those of the prompt when anything was evaluated, and otherwise those of the last evaluation. |
| KvSession.SyncExact | sf37.c:7744-7798 | After a successful sync the logits are cold if and only if the valid checkpoint was not the prompt already, or the last logits were those of the prompt. |
| KvSession.RewindThenSync | sf37.c:6538-7798 | A rewind that the guard allows and a sync of what it left succeed with the logits of the longer text. |
| KvSession.Session.PreservesKv | sf37.c:6552-6579 | The guard holds exactly when each sliding layer's needed range starts no more than a ring behind the live length. |
| KvSession.Session.GuardedRewind | sf37.c:6538-6579 | After forward writes only, a rewind that the guard accepts leaves a right cache. |
| KvSession.RewindExact | sf37.c:6552-6579 | After positions up to a length were written, a rewind leaves a layer what the next token needs if and only if that starts no more than a ring behind the length. |
| KvSession.RewindTwice | sf37.c:6538-6579 | Two rewinds that both pass the guard and one evaluation: the logits are cold if and only if the guard also holds from the length before the first rewind. |
| KvSession.SecondRewind | sf37.c:6552-6579 | Lengths for which both guards hold and that condition fails, with a full first layer and the ring of the second. |
| SessionRun.Run | sf37.c:7508-7801 | Any run of evaluations, syncs, rewinds, saves, restores and loads of arbitrary bytes, with failures of the device anywhere: an evaluation that the caller's notes allow gives the cold logits, and without a failure the notes allow it until bytes are loaded. |
| SessionRun.Take | sf37.c:6538-7801 | Each step keeps the notes true; a rewind to the start, a restore that the device carries out, or a sync of an invalid session makes the rows trusted again. |
| SessionRun.EvalAfterFailedLoad | sf37.c:7440-7500 | A snapshot with trailing bytes is refused after its rows are in the rings; the next evaluation gives the cold logits if and only if the tokens agree as far as both texts go and the lengths are such that the load spared or brought every position attended to. |
| SessionRun.SparedLengths | sf37.c:7440-7500 | Lengths for which the second condition holds and lengths for which it does not; equal lengths always do. |
| SessionImage.Save | sf37.c:7235-7345 | The image is header, row counts, tokens, logits, hidden and the retained rows in position order, its size is the predicted one, and only the device or the file can make it fail. |
| SessionImage.Load | sf37.c:7347-7500 | Unless the device fails, bytes are accepted exactly when magic number, version, context, lengths, model, row format and row counts in their words are right, the tokens are in the vocabulary and the length is that of all parts; then checkpoint, logits, hidden and every retained row are what the bytes say. A refused load says by the flag whether the rings may have changed. |
| SessionImage.HeadIs | sf37.c:7347-7420 | The checks on the words read in turn hold exactly when the bytes say, at their offsets, what they must. |
| SessionImage.SaveThenRestore | sf37.c:6922-7500 | Snapshot or payload, into rings of any sufficient size: accepted unless the device fails, of the predicted size, read to its end, with tokens, logits and hidden back and every retained row in its stored form. |
| SessionImage.SaveThenLoad | sf37.c:7235-7500 | A snapshot makes the other session the same session: its next token is evaluated as from a cold start. |
| SessionImage.SaveRestoreSave | sf37.c:7235-7500 | Saving the restored session writes the same bytes. |
| SessionImage.LoadedKeeps | sf37.c:7455-7477 | Rings that received the same last rows keep the same positions of the checkpoint, whatever their sizes. |
| KvCodec.EncodeRow | sf37.c:6633-6658 | Scales and codes of a row, group by group, with the last group possibly short. |
| KvCodec.DecodeRow | sf37.c:6660-6674 | Each element is its code times the scale of its group. |
| KvCodec.WithinHalfStep | sf37.c:6633-6674 | A decoded element is within max/254 of the original, where max is the largest magnitude of its group. |
| KvCodec.EncodingAgain | sf37.c:6633-6674 | Encoding a decoded row gives the same scales and codes. |
| PayloadRows.RowBack | sf37.c:6633-6674 | The bytes of a row, scales as floats and then codes as signed bytes, give back the row. |
| PayloadRows.PayloadThenLoad | sf37.c:6922-7233 | A payload saved and loaded, in this layout: every restored element within max/254 of its group, everything else as it was. |
| PayloadRows.PayloadAgain | sf37.c:6922-7233 | Saving the loaded session again writes the same file. |
| KvCpu.Layer.Push | sf37.c:2054-2064 | The row is appended; a full layer first loses its oldest row by the memmove. |
| KvCpu.CpuSession.Eval | sf37.c:2196-2263 | Without a GPU: the cold logits, and rows in order again. |
| KvCpu.CpuSession.Rewind | sf37.c:6538-6550 | A rewind of a session with a row for every position keeps it right. |
| KvCpu.CpuSession.Sync | sf37.c:7744-7798 | The prompt becomes the checkpoint unless the sync is cancelled, does not fit or has a token that there is not; what is evaluated and whose logits result are as on the GPU. Only a sync that adds to the checkpoint needs a row for every position. |
| KvCpu.SyncExact | sf37.c:7744-7798 | The same condition for its logits as on the GPU. |
| KvCpu.RewindInPlace | sf37.c:7753-7755 | The rewind in sync keeps the rows right if and only if every layer had a row for every position, which a load with fewer rows breaks. |
| StrTable.StrTable.Put | sf37.c:690-705 | The table as a map with the key set; a free slot is found while the distinct keys fit the capacity. |
| StrTable.StrTable.Get | sf37.c:707-719 | The value of the map at the key, or nothing exactly when it is missing. |
| StrTable.StrTable.Load | sf37.c:679-705 | Sized for the distinct keys, the table takes all pairs, the last one for a key winning. |
| TokBytes.ByteOfCodepoint | sf37.c:1190-1215 | Every byte comes back from its code point. |
| TokBytes.PeekUtf8 | sf37.c:875-1250 | What the UTF-8 writer wrote is what the reader reads, whatever follows. |
| TokBytes.DecodeEncode | sf37.c:1252-1591 | Spelling bytes and reading them back is the identity. |
| Bpe.MergedIsDone | sf37.c:1289-1342 | Merging ends with no mergeable pair and never loses or reorders a byte. |
| Bpe.RenderPiece | sf37.c:1289-1342 | The tokens of a piece render to the piece. |
| Bpe.KeyUnambiguous | sf37.c:1276-1287 | One entry of the merge table is for one pair of symbols, because a blank never occurs in a spelling. |
| Pretokenizer.PieceEndsAtChar | sf37.c:1395-1456 | A piece ends where a character begins. |
| PieceRules.OnePiece | sf37.c:1395-1456 | The rules for figures, Chinese and Japanese characters, words, marks, line ends and blanks, stated on the bytes of the text, leave one end for a piece at every place. |
| PieceRules.WordBytes | sf37.c:1345-1456 | In text whose characters swallow no ASCII byte a word is a stretch of letters and bytes that are not ASCII. |
| Pretokenizer.PieceObeys | sf37.c:1395-1456 | The piece of the code's branches keeps these rules. |
| Pretokenizer.CutPiece | sf37.c:1395-1456 | The loop cuts off the piece that the rules on bytes leave no choice about, never an empty one. |
| Tokenizer.Tokenizer.EmitPiece | sf37.c:1289-1342 | The in-place merge loop emits the tokens of the merged piece: always the pair of best rank, the leftmost of equals. |
| Tokenizer.Tokenizer.AddedTokenAt | sf37.c:1458-1474 | The longest added token at a place, the first of equals, or none. |
| Tokenizer.Tokenizer.TokenizeRenderedChat | sf37.c:1485-1502 | The tokens of a text with added tokens taken out first. |
| Rendering.ByTheRules | sf37.c:1395-1456 | The tokens of a text are those of its pieces in the one way to cut it by the rules. |
| Rendering.RenderChat | sf37.c:1485-1591 | Rendering undoes tokenizing for every text. |
| Rendering.EffectivePrompt | sf37_kvstore.c:691-704 | Cached tokens that render to a prefix, followed by the tokens of the rest, render to the whole prompt. |
| Tokenizer.Tokenizer.BuildPrompt | sf37_kvstore.c:691-704 | The cached tokens and then the tokens of the suffix. |
| Eviction.EvictedWell | sf37_kvstore.c:567-613 | What is kept fits the budget, no evicted entry is better than a kept one by score and last use, and nothing goes while all fits. |
| KvStore.KvStore.Evict | sf37_kvstore.c:567-613 | The loop over the shrinking array evicts exactly that, while files can be removed. |
| KvStore.KvStore.Store | sf37_kvstore.c:929-1158 | A store succeeds exactly when the cache is on, there are tokens enough and the text and file are not too large, unless staging, writing or renaming fails. A new file is then in the directory with its text, tokens and header, beside what eviction leaves of the others; it keeps the budget up to what the trailer turned out longer than estimated. A compatible file only gets its trailer rewritten, and then the budget holds if and only if it has room for the difference. Every file stays keyed by the text its tokens render to. |
| KvStore.KvStore.RewriteTrailer | sf37_kvstore.c:889-927 | At most the size of one file and its time change, and the directory grows by exactly the difference. |
| KvStore.GrownTrailer | sf37_kvstore.c:889-1007 | A full cache of one file goes one byte over the budget when that file gets a trailer of one byte. |
| KvStore.KvStore.Run | sf37_kvstore.c:615-1158 | Every run of stores without trailers stays within the budget after each of them. |
| KvStore.KvStore.FindTextPrefix | sf37_kvstore.c:1193-1216 | The longest usable prefix, with the most tokens among equals, or none exactly when none is usable. |
| KvStore.KvStore.TryLoad | sf37_kvstore.c:1218-1357 | A hit is served from the best usable file, whose text is a prefix of the prompt, and the effective prompt renders to the prompt; the file is then counted as used, or dropped when it is too long for the cold cache. There is a hit if a usable file exists, the hash tells texts apart and nothing fails; a miss changes nothing unless the payload was bad. |
| Sha1.Sha1Ctx.Transform | sf37_kvstore.c:232-272 | The compression function of section 6.1.2 of FIPS 180-4. |
| Sha1.Sha1Ctx.Update | sf37_kvstore.c:284-299 | The buffered state after more bytes is that of the longer message. |
| Sha1.Sha1Ctx.Pad | sf37_kvstore.c:301-308 | The padding loop ends and pads as section 5.1.1 of FIPS 180-4 says. |
| Sha1.Sha1Ctx.Final | sf37_kvstore.c:301-316 | The digest of the whole message, although the counter of bytes wraps. |
| Sha1.HashChunks | sf37_kvstore.c:274-316 | However the input is cut into calls, the digest is that of all of it. |
| Quant.RefitBetter | gguf-tools/quants.c:463-475 | Refitting the scale to the codes never makes the weighted error larger. |
| Quant.AssignBetter | gguf-tools/quants.c:455-459 | Rounding to the scale never makes it larger, whatever codes in range it is compared with. |
| QuantSearch.PickGroup | gguf-tools/quants.c:423-498 | The result is what four rounds of rounding and refitting leave for the best zero-point, at least as good as any codes at the scale of any round for any zero-point, and its scale is the best for its codes unless no refit is possible; it fails exactly without weight. |
| QuantSearch.RoundsBetter | gguf-tools/quants.c:455-475 | The end of the rounds is at least as good as any codes in range at the scale of any round. |
| QuantSearch.PickedWell | gguf-tools/quants.c:423-498 | What the rounds leave for the first best zero-point is at least as good as any codes at the scale of any round for any zero-point, and no other scale does better for its codes unless the sums are not above the limits. |
| QuantRound.HalfStepExactly | gguf-tools/quants.c:381-421 | A group comes back within half a step if and only if it lies no more than half a step above or below zero. |
| QuantRound.ConstantExact | gguf-tools/quants.c:381-421 | A constant group comes back exactly. |
| QuantRound.RoundGroup | gguf-tools/quants.c:381-609 | Scale, zero-point and codes of a group, with both of these facts. |
| QuantPack.PackGroup3 | gguf-tools/quants.c:408-419 | Reading code i of the packed group gives code i, also across bytes; nothing outside the 24 bytes changes. |
| QuantPack.PackGroup2 | gguf-tools/quants.c:601-607 | The same for two-bit codes in 16 bytes. |
| QuantPack.ReadCode3 | sf37_quant.c:45-52 | The engine's reader takes code i from its one or two bytes. |
| QuantBlock.DecodeBlock | sf37_quant.c:68-93 | Each of the 256 values is its code less the zero-point, times the scale of its group. |
| QuantBlock.RoundTrip | sf37_quant.c:68-93 | The engine decodes what the quantizer wrote. |
| QuantWhole.RoundBlock | gguf-tools/quants.c:381-609 | From values to decoded values: half a step exactly where that holds, exact for constant groups. |
| QuantWhole.WeightedBlock | gguf-tools/quants.c:500-644 | From weighted values to decoded values: at least as good as any codes at the scales of all rounds, or plain rounding without weight. |
| QuantWhole.BackAroundZero | gguf-tools/quants.c:381-609 | Groups around zero are within half a step. |
| GgufWriter.ExtraSize | gguf-tools/deepseek4-quantize.c:1421-1429 | The size added up beforehand is that of the records written. |
| GgufWriter.BuildOutputContext | gguf-tools/deepseek4-quantize.c:1577-1604 | Sizes and offsets of all tensors, and a metadata size equal to the bytes of the metadata. |
| GgufWriter.Extents | gguf-tools/deepseek4-quantize.c:1577-1604 | Tensor extents are aligned, disjoint, in order and inside the data part. |
| GgufWriter.ExtentsTight | gguf-tools/deepseek4-quantize.c:1577-1604 | The first extent begins the data part, and after each less than an alignment is left free. |
| GgufWriter.PayloadAt | gguf-tools/deepseek4-quantize.c:1615-1656 | In the data part each tensor is where its offset says. |
| GgufWriter.WriteFull | gguf-tools/deepseek4-quantize.c:1615-1656 | The file is metadata, padding and data as laid out. |
| GgufReader.SkipValue | sf37.c:435-461 | Any value the writer copies is skipped exactly. |
| GgufReader.EngineBytes | sf37.c:463-471 | The reader's size of a tensor is the writer's, for exactly the types and shapes it supports. |
| GgufReader.Open | sf37.c:506-604 | Whatever the bytes, an accepted file has the magic number, the version, as many records and tensors as its head says, only supported tensors, and their data inside the file. A file that begins with the writer's records is accepted exactly when version, types and shapes are known and every tensor lies inside it, and the records, names, shapes, types, sizes and offsets are then recovered. |
| GgufReader.CutOff | sf37.c:590-599 | A written file that was cut off is accepted, as far as its tensors go, if and only if the data of each ends before the cut. |
| GgufReader.WriteThenOpen | sf37.c:506-604 | For any template, types and data: the tool refuses exactly a type it cannot write, data of another length or offsets beyond 64 bits; the engine refuses the written file exactly for a version, type or shape it does not know or a size no file can have, and otherwise finds every record, tensor and byte of it. |
| ExpertPool.ExpertJob.Claim | gguf-tools/deepseek4-quantize.c:1247-1264 | A worker takes the next index nobody has, or stops when there is none. |
| ExpertPool.ExpertJob.Run | gguf-tools/deepseek4-quantize.c:1206-1296 | Under every interleaving all workers stop and the buffer is the results in index order. |
| ExpertPool.Finished | gguf-tools/deepseek4-quantize.c:1206-1296 | When all workers have stopped every slice was written. |
| TokenPrinter.TokenPrinter.Process | sf37_cli.c:439-492 | One call prints and holds back what the transducer says. |
| TokenPrinter.FeedThenScan | sf37_cli.c:439-492 | What is held back and later finished is what one scan would print. |
| TokenPrinter.ChunksDoNotMatter | sf37_cli.c:439-502 | Any split of a text followed by finish prints what one scan of it prints. |
| TokenPrinter.AnySplitLikeOneCall | sf37_cli.c:494-502 | Any split is like one call. |
| TokenPrinter.LastTagDecides | sf37_cli.c:459-476 | Whatever came before, after the last tag the text is a thought if and only if that tag opens one. |
| TokenPrinter.ScanShows | sf37_cli.c:393-492 | What a scan adds to the screen is every byte of the text except its tags, in order, each under the label of thoughts or of answers, grey exactly in thoughts when colors are wanted, an answer after a thought on a new line; labels once and on lines of their own, colors and line ends only where they change something. |
| TokenPrinter.PartialFits | sf37_cli.c:388-391 | A held partial tag always fits the 16-byte buffer. |

## Left out

- Rax.Rax.Remove: the keys that stay are at most 65535 bytes long, because the new node is overrun otherwise (`RaxChain.ScansDiffer`); the removed key and keys inserted may be longer.
- Rax.Rax.Recompress: for trees with such keys.
- RaxFree.Step: for removals that leave such keys.
- RaxFree.Run: for runs of such steps.
- KvStore.KvStore.Store: the budget is promised when no file refused to be removed.
- KvStore.KvStore.Run: stores without trailers.
- SessionRun.Run: saves and restores are snapshots; a payload may be loaded, and its rows count as not trusted because they are rounded.
- KvCpu.CpuSession.Sync: when it adds to the checkpoint, for sessions with a row for every position; `KvCpu.RewindInPlace` says that it is not right otherwise.
- GgufReader.Open: of files that do not begin with records of the writer, as with arrays of arrays, only what acceptance guarantees.
- Radix tree: out-of-memory paths, node callbacks, raxRandomWalk, the defragmentation iterator, comparison and debug helpers. Values are numbers, and a slot says itself whether it holds a node or a value, where the code compares raw pointers (rax.c:1211-1220).
- Radix tree: nodes of the tree keep their identity when they grow; that moving a node and rewriting its parent field changes nothing is `RaxReshape.MoveOk`, used where nodes are replaced.
- Radix tree: `RaxChain.ScansDiffer` composes the changes of the nodes that the methods promise for their steps; the methods for whole insertions promise the map, not the shapes.
- Session: attention, norms, mixture of experts and sampling are open functions; only which rows they get is modelled. Kernels are foreign code: a batch store puts each row in its slot.
- Session: image features and their signatures; sync is the path without images. Progress reporting and error texts.
- Session: staging a payload in a temporary file; reads and writes of files are byte strings.
- Int8 rows and all quantizers: over the reals, without float rounding; the scales of a cache row are taken to survive as floats, those of quantized blocks are kept beside the bytes, not as half floats, and the range check of the rounding helper is not modelled.
- Tokenizer: reading the vocabulary from JSON; texts without a zero byte. The hash function is any function, in the table and in the cache.
- Disk cache: directories, times and the decayed score are parameters; header bytes and log lines are not modelled, and files that cannot be read are not counted.
- GGUF: reading the template file; sizes beyond 64 bits, for which the tool's arithmetic would wrap.
- IQ2_XXS and Q4_K search, the safetensors database, the server, the benchmark driver and command-line parsing.
