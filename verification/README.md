# YanOS: streaming text, search, notes and knowledge graph

YanOS is an operating system for notes. Most of its C code is bounded and streaming: a text arrives in
pieces, a fixed buffer holds a window of it, and the answer must be the one that a simple definition over
the whole input gives. This project models that code in its own form, classes with the same fields and
loops that change them, and proves that each part computes its definition for every input, every split
into pieces and every answer of the files and consumers around it.

What is proved, by subsystem:

- **Text.** Four separately written recognisers (semantic text, block text, note buffer, editor draft)
  accept the same language: UTF-8 as in RFC 3629, no C0 control except TAB and LF, no DEL or C1, CR only
  directly before LF. The overlapping chunker delivers exactly the chunks of a pure segmentation of the
  body, for every split.
- **Search.** The literal search reports exactly the lines that contain the pattern. The term search
  ranks exactly the lines that hold every group at word boundaries, with saturated counts and the
  earliest anchor, keeps the twenty best, and cuts the snippet that the whole line defines.
- **Formats.** The note header's parser and encoder are inverse, within 2034 bytes; a metadata update
  changes the metadata and keeps the body byte for byte. The `[[NAME#ID]]` automaton reports exactly the
  references of a body, and the block table its blocks.
- **Transport.** Both rings are byte queues under every interleaving of guest and host steps, and block
  frames are sent and taken whole.
- **Knowledge graph.** Hash tables, declaration chains, counting-sorted slices, label index and the
  three-way row merge agree with the plain lists of what was recorded.
- **Buffers.** `memmove`, the editor's line edits, block paging, the index heapsort, relation ranking and
  SHA-256 compute their definitions in place.

How it is modelled:

- A byte is an integer from 0 to 255; masks and shifts are written as `%` and `/`, except that SHA-256
  works on 32-bit vectors. Lengths are unbounded
  except where the code relies on a 32-bit limit, which is then checked as the code checks it; ring
  positions wrap as 32-bit values do.
- A file is one fixed byte sequence. A read returns a prefix of what was asked for, of a length nobody
  controls, or fails. A consumer is an arbitrary function from everything it has received to "go on".
- Results that come from the surroundings (a failed read or listing, a host that is not ready) are always
  possible. Contracts say what each result means, and what a success has established.
- A state class keeps a ghost history of what it was fed. `Valid()` ties the real fields to it, and the
  last method states the result about the history alone.

Two facts of the code that its comments do not say:

- The comment above the chunker's decoder calls a sequence incomplete when it can still become a scalar.
  The code calls it incomplete whenever the lead promises more bytes, E0 41 included. The chunker's result
  does not change: such a body is refused in any case, though in a later feed than the comment suggests.
  `Utf8.IncompleteCompletable` gives the exact condition.
- The scratch-full branch of the chunker's feed cannot be taken (`SemanticChunker.Chunker.SettledSize`
  and `FeedBytes`): the only way to "too large" is the 32-bit body offset.

## Model

| member | source | states |
|---|---|---|
| Utf8.EncodeShape | os/search_text.c:14-80 | the encoding of a scalar (RFC 3629 section 3) has the lead, continuation and shortest-form shape that every decoder below tests for |
| Utf8.ShapeEncodes | os/search_text.c:14-80 | the converse: bytes of that shape, shortest form and in range, are the encoding of their payload; so the shape test accepts encodings only |
| Utf8.Cancel | os/search_text.c:132-147 | a decoded prefix can be struck off: every decoding of the whole continues it |
| Utf8.DecodingUnique | os/search_text.c:132-147 | a byte string has at most one decoding |
| Utf8.DecodeOneInverts | host/semantic_text.c:64-131 | a complete answer (v, n) comes exactly when the encoding of v, n bytes long, is a prefix; incomplete exactly when the lead promises more bytes than there are |
| Utf8.Utf8ScalarAgrees | os/search_text.c:14-80 | the branch-per-length decoder gives the same scalar and width as the chunker's decoder on every input |
| Utf8.Utf8ScalarInverts | os/search_text.c:14-80 | it accepts v exactly when the encoding of v is a prefix of the input |
| Utf8.ExpectedIffBegins | os/search_text.c:82-130 | a positive expected length n is given exactly when some scalar of length n agrees with the bytes seen so far |
| Utf8.IncompleteCompletable | host/semantic_text.c:59-63 | the comment above the decoder says that an incomplete sequence can still be completed; that holds exactly when the expected-length function is positive, and E0 41 is a counterexample |
| LegalText.LegalDecodes | host/semantic_text.c:187-283 | legality of a text is a property of its one decoding: no C0 except TAB and LF, no DEL or C1, CR only directly before LF |
| LegalText.LegalSnoc | host/semantic_text.c:187-283 | a legal prefix extended by one scalar stays a legal prefix exactly when that scalar may follow |
| LegalText.DeadFrom | host/semantic_text.c:187-283 | bytes that begin no scalar allowed to follow make every continuation illegal |
| LegalText.AtReject | os/editor.c:363-397 | a position where no scalar allowed to follow can be read makes the whole text illegal |
| LegalText.LegalConcat | os/editor.c:363-397 | two legal texts make a legal text |
| SemanticText.CompletedScalar | host/semantic_text.c:187-269 | after the last continuation byte the accumulated value is a permitted scalar that extends the decoding, or no continuation of the input is legal |
| SemanticText.Aborted | host/semantic_text.c:187-269 | a non-continuation byte inside a sequence makes every continuation illegal |
| SemanticText.Truncated | host/semantic_text.c:271-283 | input that stops inside a sequence is not legal text |
| SemanticText.TextValidator.Update | host/semantic_text.c:187-269 | keeps the state in step with all bytes fed, for any split; refused only after finish, and then changes nothing |
| SemanticText.TextValidator.Finish | host/semantic_text.c:271-283 | accepts exactly the legal texts, and on acceptance the scalar count is the length of the decoding |
| BlockText.Validator.Feed | os/note_blocks_format.c:127-182 | keeps the expected-length buffer in step with all bytes fed, for any split; a rejected prefix admits no legal continuation; refused after finish |
| BlockText.Validator.Finish | os/note_blocks_format.c:184-196 | the first finish accepts exactly the legal texts; a finish after finish is misuse |
| BufferText.DecodeScalar | os/note_metadata.c:259-304 | a length is given exactly when a scalar is encoded there, with that scalar and its bytes |
| BufferText.EditorTextValid | os/note_metadata.c:310-346 | accepts exactly the legal texts |
| EditorText.RangesAreValues | os/editor.c:269-287 | the per-lead byte ranges accept exactly the shortest-form sequences of scalar values |
| EditorText.ValidRun | os/editor.c:310-330 | the run is the width of a scalar above U+009F, and zero only when there is none |
| EditorText.DraftIsValid | os/editor.c:363-397 | accepts exactly the legal texts |
| EditorText.TextIsValid | os/editor.c:337-356 | accepts exactly the UTF-8 texts with no scalar below U+0020 and none from U+007F to U+009F |
| EditorText.Utf8Valid | os/search_text.c:132-147 | accepts exactly the UTF-8 texts |
| EditorText.QueryValid | host/semantic_text.c:292-322 | accepts exactly the queries of 1 to 1023 bytes that are UTF-8 and hold TAB or printable scalars only |
| Segmentation.StepGeometry | host/semantic_text.c:412-434 | one cut: at most 512 scalars, the next start 446 to 448 further on, 64 or 65 scalars shared, and neither boundary inside a CRLF |
| Segmentation.SegmentGeometry | host/semantic_text.c:412-434 | the segments of a body start at its first scalar and end at its last, each is at most 512 scalars and splits no CRLF, each overlaps and strictly passes the one before |
| Segmentation.SegmentsCover | host/semantic_text.c:412-434 | every scalar of the body is in some segment |
| Segmentation.ChunkBytes | host/semantic_text.c:371-408 | a chunk's bytes are the body's bytes between its two offsets |
| Segmentation.CutsAreLast | host/semantic_text.c:412-434 | a segment ends at the last place within 512 scalars that splits no CRLF; the next starts at the last such place that leaves 64 scalars of overlap |
| Segmentation.LineFeedsAreBytes | host/semantic_text.c:326-339 | the line feeds counted among the scalars are the LF bytes of the body |
| Segmentation.ChunkLines | host/semantic_text.c:371-408 | first and last line of a chunk, as counts of the LF bytes before it and before its last scalar |
| Segmentation.ChunkNames | host/semantic_text.c:371-408 | a chunk is a range of the body, with its bytes, the lines of its first and last byte, and its length in scalars |
| Segmentation.DeliverMeaning | host/semantic_text.c:371-408 | delivered are exactly the segments with a scalar that is not white space |
| Segmentation.ChunksMeaning | host/semantic_text.c:533-613 | every chunk of a body names its bytes and lines, and every scalar that is not white space lies in one |
| Segmentation.WhiteSpaceIsUnicode | host/semantic_text.c:152-173 | the twenty-five scalars of the Unicode property White_Space |
| Segmentation.PathPrefix | host/semantic_text.c:438-472 | cutting a longer and longer prefix of the body produces the segments of the whole body, in order |
| Segmentation.DeliverExtends | host/semantic_text.c:371-408 | a delivered chunk does not change when more of the body arrives |
| SemanticChunker.MalformedNoBody | host/semantic_text.c:438-472 | bytes the decoder calls malformed make every continuation invalid UTF-8 |
| SemanticChunker.DeliveredAll | host/semantic_text.c:571-613 | the segments cut so far and the rest of the window are all the chunks of the body |
| SemanticChunker.WindowChunk | host/semantic_text.c:371-408 | the window's offsets and line counters give the offsets and lines that the whole body gives |
| SemanticChunker.Chunker.constructor | host/semantic_text.c:515-531 | an initialised chunker has been fed nothing and may be fed |
| SemanticChunker.Chunker.DropPrefix | host/semantic_text.c:343-367 | moves n scalars out of the window; scratch, offsets, flags, byte position and line stay those of the remaining window |
| SemanticChunker.Chunker.Emit | host/semantic_text.c:371-408 | delivers the segment's chunk, or nothing when it is all white space; the sink's refusal becomes the result |
| SemanticChunker.Chunker.Cut | host/semantic_text.c:412-434 | the flag arithmetic finds the end and the next start that the segmentation defines |
| SemanticChunker.Chunker.EmitFull | host/semantic_text.c:412-434 | one cut removes 446 to 448 scalars from the window and keeps the text |
| SemanticChunker.Chunker.Pump | host/semantic_text.c:438-472 | never too large; on success at most 512 scalars and an incomplete tail remain |
| SemanticChunker.Chunker.SettledSize | host/semantic_text.c:474-513 | after a successful pump the window holds at most 4 * 512 + 3 bytes, so the scratch-full branch cannot be taken |
| SemanticChunker.Chunker.FeedBytes | host/semantic_text.c:474-513 | takes all bytes in scratch-sized pieces, or stops at a malformed scalar or at the sink's refusal; too large only at the 32-bit body offset |
| SemanticChunker.Chunker.Feed | host/semantic_text.c:533-569 | a chunker that failed or finished answers with that state and changes nothing; otherwise as the byte feed, for any split |
| SemanticChunker.Chunker.Finish | host/semantic_text.c:571-613 | on success the sink holds exactly the chunks of the body fed, and accepted each; every chunk has the bytes of its range and the lines of its first and last byte; invalid only for bodies that are not UTF-8; stopped only by the sink, on a prefix of the chunks |
| SemanticChunker.Chunker.DeliveredUnique | host/semantic_text.c:571-613 | what was delivered is determined by the body alone, not by the split |
| Memory.MovedIsMove | os/memory.c:100-113 | the element-wise statement used by the loops is the simultaneous copy |
| Memory.CopyForward | os/memory.c:22-55 | the word-batched forward copy is a simultaneous copy when the destination is below the source or clear of it, for every alignment; bytes outside are untouched |
| Memory.CopyBackward | os/memory.c:57-92 | the backward copy is a simultaneous copy when the destination is above the source |
| Memory.MemMove | os/memory.c:100-113 | a simultaneous copy for every overlap and alignment |
| Kmp.Land | os/search_linear.c:133-149 | where the fall-back chain stops is the longest prefix of the pattern that the extended text ends with |
| Kmp.Advance | os/search_linear.c:133-149 | one byte: from the longest matched prefix to the longest matched prefix |
| Kmp.Build | os/search_linear.c:86-100 | the table holds the longest border of every prefix; cells outside the pattern's range are untouched |
| Kmp.AfterFull | os/search_terms_core.c:352-412 | after a full match, continuing at its border misses no overlapping match |
| Kmp.FullOrNot | os/search_terms_core.c:352-412 | the state is the whole pattern exactly when the text ends with it |
| SearchLinear.LinesFill | os/search_linear.c:178-232 | the lines are contiguous, numbered from 1, split at LF or CRLF only, and reach the end of the file |
| SearchLinear.HitsSnoc | os/search_linear.c:154-173 | one more line adds its match exactly when its content contains the pattern |
| SearchLinear.AllHitsPrefix | os/search_linear.c:282-309 | files already searched contribute a prefix of all matches |
| SearchLinear.LinearSearch.constructor | os/search_linear.c:86-100 | the prefix table is right for the pattern |
| SearchLinear.LinearSearch.FeedContent | os/search_linear.c:133-149 | a content byte extends the line and keeps "has matched" equal to "the content so far contains the pattern" |
| SearchLinear.LinearSearch.EndLine | os/search_linear.c:154-173 | a finished line is reported exactly when it contains the pattern, with its start, length and number |
| SearchLinear.LinearSearch.FeedByte | os/search_linear.c:178-216 | the CR and LF latches keep the position inside the line structure of the file |
| SearchLinear.LinearSearch.FinishEof | os/search_linear.c:221-232 | a held-back CR and an unterminated last line are accounted for, and no line is invented |
| SearchLinear.LinearSearch.Preflight | os/search_linear.c:105-129 | finds a NUL byte exactly when there is one, however the reads are cut |
| SearchLinear.LinearSearch.ScanFile | os/search_linear.c:236-280 | delivers exactly the matching lines of the file, none for a file with a NUL, for any read lengths; otherwise a prefix of them |
| SearchLinear.LinearSearch.Run | os/search_linear.c:282-309 | delivers the matches of all files in listing order, or a prefix ended by a failure or by the consumer |
| SearchRank.BetterIsStrictWeak | os/search_terms_core.c:203-213 | score, slot and line make a strict weak order |
| SearchRank.RankedSorts | os/search_terms_core.c:215-257 | inserting one by one sorts the whole history and loses nothing |
| SearchRank.ShownAreBest | os/search_terms_core.c:215-257 | the first twenty are at least as good as every line not shown |
| SearchRank.InsertShown | os/search_terms_core.c:215-257 | inserting into the shown twenty gives the shown twenty of inserting into all |
| SearchRank.RankOrder | os/search_terms_core.c:203-257 | the ranking descends in score, then ascends in slot, then in line; the table is its front |
| SearchRank.Rank.Add | os/search_terms_core.c:215-257 | after any additions the table holds the shown twenty of the history and the exact total |
| SearchRank.Rank.ShiftDown | os/search_terms_core.c:215-257 | the in-place shift opens one slot and keeps the others in order |
| TermQuery.RunsAreMaximal | os/search_terms_core.c:69-144 | the groups' runs are ordered, disjoint and bounded by separators or the ends of the query |
| TermQuery.RunsCover | os/search_terms_core.c:69-144 | every byte that is no separator is in a run |
| TermQuery.DistinctKeepsOne | os/search_terms_core.c:53-144 | of the runs that are equal after folding exactly the first is kept |
| TermQuery.Parse | os/search_terms_core.c:69-144 | slots are given exactly for a legal query, and are its distinct runs in order |
| TermQuery.GroupEqual | os/search_terms_core.c:53-67 | equal exactly when the folded bytes are equal |
| TermQuery.LegalGroups | os/search_terms_core.c:69-144 | every group of a legal query is non-empty, at most 1023 bytes and free of LF |
| TermQuery.PatternBuild | os/search_terms_core.c:146-191 | refused exactly when there is no group or a table is too small; otherwise the built groups are those of the query, whose folded text and boundary flags mean what QueryLines.GroupStands says |
| TermQuery.BuildGroup | os/search_terms_core.c:146-191 | building one group leaves the tables of the earlier groups right |
| TermQuery.SeparatorMeaning | os/search_terms_core.c:42-51 | no separators are exactly the word characters and the bytes above ASCII |
| Bytes.WordCharacters | os/search_text.c:149-154 | the sixty-three word characters, listed |
| QueryLines.FoldMeaning | os/search_text.c:156-162 | two bytes fold alike exactly when they are equal or the two cases of one ASCII letter |
| QueryLines.GroupStands | os/search_terms_core.c:135-191 | a group of a query is found where its bytes stand up to case and cut no word on either side, judged on the text alone |
| QueryLines.OccurrencesAreEnds | os/search_terms_core.c:352-412 | the number of occurrences is the number of places where the group ends |
| QueryLines.CompleteIsWanted | os/search_terms_core.c:333-350 | a line is complete exactly when every group of the query stands somewhere in it |
| QueryLines.ScoreIsWorth | os/search_terms_core.c:333-350 | its score is the sum over the groups of the places found, each up to 255 |
| QueryLines.TermLinesAreLines | os/search_terms_core.c:352-412 | the scanned lines are all the lines between line feeds, numbered by the line feeds before them |
| QueryLines.ScanRanksFile | os/search_terms_core.c:414-495 | the entries of a scanned file are, in line order, one for each line in which every group stands, with its number, score and first place, and no others |
| TermSearch.ScalarHere | os/search_terms_core.c:497-506 | in UTF-8 text a byte that is no continuation byte begins a scalar |
| TermSearch.AnchorScalar | os/search_terms_core.c:508-658 | the anchor of every entry begins a scalar of its file and is no line feed |
| TermSearch.GroupsFit | os/search_terms_linear.c:366-379 | the groups of a legal query fit the 1023-byte tables, so building its pattern cannot fail |
| TermSearch.OneMoreFile | os/search_terms_linear.c:382-425 | one more file adds the entries of its lines and keeps those of the files before it |
| TermSearch.RankFiles | os/search_terms_linear.c:382-425 | after the listing the history holds one entry for each wanted line of each searched file, in the order of slots and lines; skipped files are counted |
| TermSearch.ShowOne | os/search_terms_linear.c:427-464 | an entry is shown with the snippet of its place in the file at its slot, when the callback gives the window |
| TermSearch.Query | os/search_terms_linear.c:362-473 | invalid exactly for an illegal query; on success the sink has received, best score first, the first twenty of the ranking of all wanted lines of all searched files, with the exact total and skip count; a stop or failure leaves a prefix |
| TermLines.LineLocal | os/search_terms_core.c:352-412 | a word-bounded occurrence in the file that ends within a line is the same as an occurrence in that line alone |
| TermLines.StepOccurrences | os/search_terms_core.c:352-412 | the count grows by one exactly at the end of an occurrence; occurrences may overlap |
| SearchTerms.Boundary | os/search_terms_core.c:352-412 | the one-byte lookahead and the history ring, read 1 to 1023 cells back, decide the word boundaries of the occurrence |
| SearchTerms.RingStep | os/search_terms_core.c:352-412 | writing the current byte's cell keeps the last 1024 bytes of history |
| SearchTerms.NoMatchOnLf | os/search_terms_core.c:352-412 | no group matches across an LF |
| SearchTerms.AnchorNext | os/search_terms_core.c:352-412 | the anchor stays the least start of an accepted occurrence |
| SearchTerms.EarliestAnchor | os/search_terms_core.c:333-350 | the anchor of a complete line is the earliest start of any accepted occurrence |
| SearchTerms.TrackNext | os/search_terms_core.c:352-412 | the saturating counter stays min(255, occurrences so far in the line) |
| SearchTerms.Scanner.Finalize | os/search_terms_core.c:333-350 | a line is ranked exactly when every group occurs in it, with the sum of the saturated counts, its number, slot and anchor |
| SearchTerms.Scanner.ScanByte | os/search_terms_core.c:352-412 | one byte keeps ring, KMP states, counters, anchor and ranked lines those of the file up to it |
| SearchTerms.Scanner.TakeRead | os/search_terms_core.c:414-495 | the pending byte makes the lookahead right across read boundaries |
| SearchTerms.Preflight | os/search_terms_core.c:265-315 | skips exactly the files with a NUL or with invalid UTF-8, however the reads are cut |
| SearchTerms.ScanFile | os/search_terms_core.c:414-495 | the entries added for a file are, in order, exactly one for each of its lines that holds every group, with score and anchor; a skipped file adds none and is counted |
| SearchSnippet.Align | os/search_terms_core.c:497-506 | skips at most three bytes, to the first whole scalar of the window |
| SearchSnippet.WalkLeft | os/search_terms_core.c:508-658 | the 41-cell ring holds the starts of the last 41 content scalars of the anchor's line |
| SearchSnippet.WalkRight | os/search_terms_core.c:508-658 | stops at the cap or at the end of the anchor's line, a bare CR being content |
| SearchSnippet.LeftSide | os/search_terms_core.c:508-658 | 255 bytes hold more than 40 scalars, so the window decides the left side |
| SearchSnippet.Ahead | os/search_terms_core.c:508-658 | 704 bytes hold the 160 scalars from the anchor and the CR LF after them |
| SearchSnippet.RightTruncated | os/search_terms_core.c:508-658 | the flag is set exactly when the line has more content past the cut |
| SearchSnippet.CutWindow | os/search_terms_core.c:508-658 | a whole window gives the snippet of the whole text; a short one still the right left flag |
| SearchSnippet.SnippetMeaning | os/search_terms_core.c:508-658 | the snippet is scalars around the anchor inside its line, at most 40 before and 160 in all; a flag is set exactly when the line has a scalar outside on that side, and then that side is full |
| SearchSnippet.CoreSnippet | os/search_terms_core.c:508-658 | invalid exactly for an anchor outside the file; a failed, over-long or anchor-less read is reported; the whole window gives exactly up to 40 scalars before and 160 in all, within the line, with both flags |
| BlockGrammar.DoneIffReference | os/note_blocks_format.c:338-406 | the automaton run on u from its start is done with (name, id) exactly when u is that reference |
| BlockGrammar.ShapeSpells | os/note_blocks_format.c:338-406 | every automaton state determines the bytes read since its start |
| BlockGrammar.OneAlive | os/note_blocks_format.c:317-331 | two starts are alive at once only for a doubled opening bracket |
| BlockGrammar.Restarts | os/note_blocks_format.c:317-331 | when a candidate dies on a bracket, the restarted state is the longest start that can still become a reference |
| BlockGrammar.AllDead | os/note_blocks_format.c:317-331 | when it dies on another byte, no start is alive |
| BlockGrammar.Completes | os/note_blocks_format.c:338-406 | the single tracked candidate completes exactly when the text ends with a reference |
| BlockGrammar.TrackStep | os/note_blocks_format.c:338-406 | one candidate is enough: tracking the longest one can be continued over every byte |
| BlockGrammar.OneReference | os/note_blocks_format.c:338-406 | at most one reference ends at a byte |
| BlockGrammar.ReferenceInLine | os/note_blocks_format.c:338-406 | a reference lies in one line |
| BlockGrammar.Alphabet | os/note_blocks_format.c:34-51 | the sixty-four bytes of IDs, the dot of names, and none of the brackets, the hash or LF |
| BlockTable.JudgeOk | os/note_blocks_format.c:262-310 | markers are accepted exactly when each is well formed, no ID repeats and there are at most 64 |
| BlockTable.VerdictStays | os/note_blocks_format.c:262-310 | a rejected prefix rejects every continuation with the same verdict |
| BlockTable.AllMarkersPlaced | os/note_blocks_format.c:262-310 | the markers are ordered, disjoint whole lines of the body, each with its own line number |
| BlockTable.BlocksAreRanges | os/note_blocks_format.c:242-310 | block k runs from the end of its marker to the next marker or the end of the body, with the right marker, first and last lines |
| BlockTable.ReferencesSound | os/note_blocks_format.c:338-406 | every listed reference ends where it says, and they are in byte order; its line and block are those of BlockSource.ReferenceInBlock |
| BlockTable.ReferencesComplete | os/note_blocks_format.c:338-406 | every legal reference in the body is listed |
| BlockTable.ReferencesPrefix | os/note_blocks_format.c:338-406 | more body adds references at the end only |
| BlockSource.MarkerSpelled | os/note_blocks_format.c:262-310 | a good marker is "@block", a space and a legal ID, which is its ID; a reserved line is "@block" alone or before a space or tab |
| BlockSource.AllMarkersAreLines | os/note_blocks_format.c:262-310 | the markers are exactly the reserved lines of the body, with their content, place and line number |
| BlockSource.MarkerBehind | os/note_blocks_format.c:338-406 | no legal marker line holds a reference, so the next marker begins behind it |
| BlockSource.ReferenceInBlock | os/note_blocks_format.c:338-406 | in an accepted body a reference names a block exactly when one holds it, and that one, in which it lies whole; its line is that of its first byte |
| BlockSource.ReferencesAreFound | os/note_blocks_format.c:338-468 | in an accepted body the listed references are exactly the places where one is written, in order, each with its line and block |
| BlockParser.Parser.constructor | os/note_blocks_format.c:198-225 | an initialised parser has been fed nothing |
| BlockParser.Parser.Restart | os/note_blocks_format.c:317-331 | keeps the tracked candidate over a failing byte |
| BlockParser.Parser.Advance | os/note_blocks_format.c:338-406 | moves the candidate over one byte and says when it is a reference |
| BlockParser.Parser.Deliver | os/note_blocks_format.c:338-406 | hands the sink the reference with offsets, line and the block ID in force; its refusal stops the parser |
| BlockParser.Parser.ReferenceByte | os/note_blocks_format.c:338-406 | what the sink has received stays the references of the bytes fed |
| BlockParser.Parser.CloseBlock | os/note_blocks_format.c:242-258 | the last block gets its end and last line, and no other block changes |
| BlockParser.Parser.Known | os/note_blocks_format.c:262-310 | finds an ID exactly when a block has it |
| BlockParser.Parser.ClassifyLine | os/note_blocks_format.c:262-310 | the kept 40-byte line prefix decides the line: format, duplicate, limit or a new block, as judged on the whole body |
| BlockParser.HeadDecides | os/note_blocks_format.c:262-310 | a legal marker is at most 38 bytes, so the kept prefix tells it from every other line |
| BlockParser.Parser.Feed | os/note_blocks_format.c:408-446 | keeps table and references in step with all bytes fed; a refused feed changes nothing |
| BlockParser.Parser.Finish | os/note_blocks_format.c:448-468 | on success the table is the blocks of the body, and the sink holds all references written in it and no others, each with its line and the block that holds it; otherwise the verdict on its markers, or a line number beyond 32 bits |
| BlockParser.ParseBody | os/note_blocks_format.c:408-468 | the same for any split of a body into feeds |
| BlockLookup.TableIsOrdered | host/knowledge_graph.c:377-394 | the table of every body is ordered and disjoint |
| BlockLookup.BlockFor | host/knowledge_graph.c:377-394 | finds a block exactly when one holds the offset, and that one |
| NoteFields.TextIsValid | os/note_metadata_format.c:199-219 | accepts exactly the UTF-8 texts of permitted scalars |
| NoteFields.TitleIsValid | os/note_metadata_format.c:221-228 | accepts exactly the legal titles |
| NoteFields.TagIsValid | os/note_metadata_format.c:230-237 | accepts exactly the legal tags |
| NoteFields.DateIsValid | os/note_metadata_format.c:256-282 | accepts exactly the ten-byte spellings of real Gregorian dates of years 1 to 9999 |
| NoteFields.SameDate | os/note_metadata_format.c:256-282 | two dates with one spelling are one date |
| NoteFields.OnlyDate | os/note_metadata_format.c:256-282 | a spelling is accepted exactly when the date it spells is real |
| NoteFields.NoLineFeed | os/note_metadata_format.c:199-219 | a permitted text holds no LF, so a value cannot end its line |
| NoteFields.PermittedMeaning | os/note_metadata_format.c:108-197 | a title holds what can be typed but no U+FEFF, a tag the same without Unicode white space |
| NoteHeader.OneReading | os/note_metadata_format.c:474-540 | a text opens with at most one list of fields |
| NoteHeader.ParseOpens | os/note_metadata_format.c:474-540 | a text that opens with an accepted list parses to it, with the header's length |
| NoteHeader.BodyIrrelevant | os/note_metadata_format.c:474-540 | what follows the header does not change how it parses |
| NoteHeader.FieldsBuild | os/note_metadata_format.c:392-472 | the fields of complete metadata are accepted and build it again, lists in order |
| NoteHeader.RoundTrip | os/note_metadata_format.c:474-765 | encoded metadata followed by any body parses to the same metadata and the encoded length |
| NoteHeader.ParsedComplete | os/note_metadata_format.c:392-540 | whatever parses can be encoded and parses to itself again |
| NoteHeader.AcceptedIff | os/note_metadata_format.c:392-472 | a list of fields is accepted exactly when every value is legal, no single field and no list value repeats, and no list is too long |
| NoteHeader.HeaderLength | os/note_metadata_format.c:605-765 | an encoded header is at most 2034 bytes |
| NoteHeader.HeaderText | os/note_metadata_format.c:689-765 | the bytes of an encoded header, spelled out line by line |
| NoteMetadata.ClassifyLine | os/note_metadata_format.c:341-388 | gives the kind and value offset exactly for "key: value" lines of the five keys, the end line exactly for the end line |
| NoteMetadata.NoteInfo.ApplyField | os/note_metadata_format.c:392-472 | stores the field exactly when its value is legal and there is room; a refused field changes nothing |
| NoteMetadata.NoteInfo.CopyFrom | os/note_metadata_format.c:542-576 | the accumulator and its lists are copied whole |
| NoteMetadata.Stuck | os/note_metadata_format.c:474-540 | a line that is no acceptable field and not the end makes the header broken, whatever follows |
| NoteMetadata.ParseHeaderCore | os/note_metadata_format.c:474-540 | the line walk computes the header grammar, from a dirty accumulator too |
| NoteMetadata.ParseHeader | os/note_metadata_format.c:542-576 | too large above 4096 bytes, metadata exactly for a broken header, else the parsed fields; a refused parse leaves the output untouched |
| NoteMetadata.BodyOffset | os/note_metadata_format.c:578-598 | the same verdict and the header's length with any workspace; a refused call leaves the output |
| NoteMetadata.Agree | os/note_metadata_format.c:542-598 | body offset and header parse agree on every input, whatever the workspaces held |
| NoteMetadata.InfoIsComplete | os/note_metadata_format.c:629-687 | accepts exactly complete metadata |
| NoteMetadata.EncodedTotal | os/note_metadata_format.c:605-624 | the size computed in advance is the size of the encoded header |
| NoteMetadata.EncodeHeader | os/note_metadata_format.c:705-765 | invalid, too large or the encoded header at the front of the buffer; bytes past it, and the buffer of a refused call, are untouched |
| NoteMetadata.EncodeThenParse | os/note_metadata_format.c:542-765 | on buffers: parsing what the encoder wrote, followed by a body, gives the same metadata and length |
| NoteUpdate.Rewritten | os/note_metadata.c:457-520 | a file of encoded metadata and a body declares that metadata and has that body |
| NoteUpdate.WithoutMeaning | os/note_metadata.c:404-445 | removal takes out exactly the value and keeps the others in order |
| NoteUpdate.EditsMeaning | os/note_metadata.c:624-733 | a title edit leaves every other field alone, and so does an edit of either date |
| NoteUpdate.ListEditMeaning | os/note_metadata.c:391-445 | a list edit appends a new value or cuts out the one equal value, and leaves every other field alone |
| NoteUpdate.ManagedComplete | os/note_metadata.c:391-445 | an edited list within the limit is still encodable |
| NoteUpdate.RemoveSlot | os/note_metadata.c:404-445 | shifting the later slots down removes the first equal value |
| NoteUpdate.EditList | os/note_metadata.c:391-445 | adds once or removes, says whether the list changed, and refuses exactly a new value in a full list |
| NoteUpdate.NoteContext.ReadHead | os/note_metadata.c:224-252 | on success the current metadata is what the file declares; metadata error only for a broken header |
| NoteUpdate.NoteContext.ShiftBody | os/note_metadata.c:457-520 | the body shift is a simultaneous copy in either direction |
| NoteUpdate.NoteContext.PublishChange | os/note_metadata.c:457-520 | the new file is the encoded metadata followed by the old body bytes; a refused change leaves the file as it was |
| NoteUpdate.NoteContext.Publish | os/note_metadata.c:457-520 | the published file declares the working metadata and has the same body; a refusal says what is wrong with the old file or the new size |
| NoteUpdate.NoteContext.SetTitle | os/note_metadata.c:624-671 | only the title changes, no write when it is already so, invalid exactly for an illegal title, refused calls change nothing |
| NoteUpdate.NoteContext.SetDate | os/note_metadata.c:673-733 | only the creation date, or only the modification date, as asked, changes; no write when it is already so, invalid exactly for an illegal date, refused calls change nothing |
| NoteUpdate.NoteContext.Manage | os/note_metadata.c:735-836 | the same for adding or deleting a tag or a link; invalid for an illegal value or a full list only |
| Ring.SlotsDiffer | os/platform.h:258-261 | stream positions less than a ring apart have different cells |
| Ring.DistanceIsCount | os/platform.h:267-286 | the masked 32-bit difference of two cells is the number of bytes between the positions |
| Ring.CopyRun | os/platform.h:299-354 | the alignment-dependent word loop copies exactly the run |
| Ring.CopyIn | os/platform.h:299-326 | byte j goes to cell (start + j) mod size; other cells and other memory are untouched |
| Ring.CopyOut | os/platform.h:328-354 | byte j comes from cell (start + j) mod size; bytes outside the destination range are untouched |
| Transport.StoredPush | os/platform.h:356-373 | bytes written behind the stored ones extend the queue and overwrite none of it |
| Transport.StoredPop | os/platform.h:377-395 | the cells read are the oldest bytes of the queue |
| Transport.Channel.HostConsume | src/transport.c:260-280 | the host takes bytes exactly when it has them, and flags an overflow otherwise |
| Transport.Channel.HostPublish | src/transport.c:282-305 | the host adds bytes to the other queue exactly when they fit one less than the ring; guest cells are untouched |
| Transport.Channel.HostReadable | src/transport.c:244-250 | the bytes sent and not yet consumed |
| Transport.Channel.HostWritable | src/transport.c:252-258 | the room left in the other queue |
| Transport.Channel.HostStep | src/transport.c:244-305 | any host action keeps both queues: consumed bytes and published bytes only grow |
| Transport.Channel.G2hSpace | os/platform.h:267-276 | the room at the moment of the register reads, the host moving before and after |
| Transport.Channel.H2gAvailable | os/platform.h:279-286 | the bytes waiting at that moment |
| Transport.Channel.Push | os/platform.h:356-373 | appends all bytes or none, under any host steps between the register accesses; never refused when they fit at the start |
| Transport.Channel.Pop | os/platform.h:377-395 | takes the oldest bytes or none; never refused when they were there at the start; memory outside the destination is untouched |
| Transport.Channel.Peek | os/block_peek.h:8-22 | shows the oldest bytes and takes none |
| BlockFraming.LittleEndian | os/block.c:60-85 | the little-endian stores and loads are inverse |
| BlockFraming.HeaderRoundTrip | os/block.c:60-96 | a header decodes to the request it was encoded from |
| BlockFraming.RequestBytes | os/block.c:60-96 | byte by byte: op, flags, the tag from byte 2, the block address from byte 4 and the count from byte 8, least significant first, and four zero bytes |
| BlockFraming.ResponseBytes | os/block.c:73-85 | the same reading of a response header gives the fields handed out |
| BlockFraming.DeliverableBytes | os/block.c:188-289 | a response is delivered exactly for a known op, a zero last word and a length that the ring can hold |
| BlockFraming.CountBound | os/block.c:98-113 | the division bound is exactly the counts whose frame fits an empty ring |
| BlockFraming.MaxCount | os/block.c:98-113 | with a ready host, exactly the counts up to the answer fit |
| BlockFraming.Submit | os/block.c:115-186 | appends one whole frame, the sixteen header bytes as RequestBytes spells them and the blocks of a write, and rings once, or appends nothing; the second push cannot fail; again only when the frame does not fit now; invalid exactly for a request that can never be sent |
| BlockFraming.DropResponse | os/block.c:46-58 | discards exactly that many bytes of a waiting frame |
| BlockFraming.Take | os/block.c:188-289 | removes exactly the length its header implies (16 for a frame that can never fit) when it answers done or malformed, and nothing when it answers again or invalid; the fields handed out are those the header bytes spell, the payload is the frame's and as long as they say, other output bytes are untouched |
| BlockFraming.TakeFrame | os/block.c:188-289 | the same once a header is waiting |
| BlockFraming.FrameByFrame | os/block.c:188-289 | over a stream of well-formed frames, each take consumes exactly the next frame, whichever answers came before |
| OpenTable.Absent | host/knowledge_graph.c:161-218 | reaching an empty cell, or probing every cell, proves that the key was never inserted |
| OpenTable.Inserted | host/knowledge_graph.c:178-233 | writing the first empty cell keeps every key findable, for any hash function |
| OpenTable.Index.Find | host/knowledge_graph.c:161-218 | finds the stored ordinal exactly when the key was inserted |
| OpenTable.Index.Insert | host/knowledge_graph.c:178-233 | never refused while the table has an empty cell; a refused insert changes nothing |
| GraphBuild.WalkIsPicks | host/knowledge_graph.c:268-290 | following a concept's chain visits exactly its declarations, in declaration order |
| GraphBuild.ChainGrows | host/knowledge_graph.c:268-290 | linking a new declaration at the tail keeps the chain |
| GraphBuild.OtherChainKept | host/knowledge_graph.c:268-290 | and leaves every other concept's chain alone |
| GraphBuild.Build.AddDeclaration | host/knowledge_graph.c:268-290 | appends one declaration for the concept, or refuses at the limit and changes nothing |
| GraphBuild.Build.RecordConcept | host/knowledge_graph.c:292-325 | conflict exactly for a known ID with another name; a new ID is added once; the declaration is the concept's |
| GraphBuild.Build.RecordAlias | host/knowledge_graph.c:327-351 | each (ID, label) pair is kept once; limit exactly for a new pair in a full table |
| GraphBuild.Build.RecordRelation | host/knowledge_graph.c:353-371 | appends the relation, or refuses at the limit |
| Buckets.PicksMeaning | host/knowledge_graph.c:975-1043 | a slice's specification: exactly the items of the bucket, each once, ascending |
| Buckets.PlacedAll | host/knowledge_graph.c:975-1043 | writing one item at its bucket's fill position keeps every slice |
| Buckets.Distribute | host/knowledge_graph.c:975-1043 | counting sort: every bucket's slice is exactly its items in order |
| GraphPublish.SortEntries | host/knowledge_graph.c:761-781 | the sort keys come out ascending and are a rearrangement |
| GraphPublish.SameNames | host/knowledge_graph.c:761-781 | rearranging the labels keeps the set of concepts each text names |
| GraphPublish.OrderConcepts | host/knowledge_graph.c:798-1051 | concepts ascend by ID and the inverse permutation is one |
| GraphPublish.BuildEntries | host/knowledge_graph.c:798-1051 | a text names a concept in the index exactly when it is its name or one of its aliases |
| GraphPublish.BuildEdges | host/knowledge_graph.c:798-1051 | relations keep their order, endpoints and provenance under the new ordinals |
| GraphPublish.BuildSlices | host/knowledge_graph.c:975-1043 | every concept's out slice is exactly the relations it is subject of, its in slice those it is object of, its self slice those it is both of; each once, in declaration order |
| GraphPublish.Publish | host/knowledge_graph.c:798-1051 | unresolved exactly when an alias or relation names an undeclared ID; otherwise the graph describes all that was recorded, with the three slices of every concept by subject and object |
| GraphPublish.ConceptRows | host/knowledge_graph_query.c:272-312 | on a published graph the three slices merge to the first rows of the concept's relations, each marked by the end the concept stands at |
| GraphLookup.FindId | host/knowledge_graph.c:1095-1180 | binary search finds an ID exactly when it is there |
| GraphLookup.LowerBound | host/knowledge_graph.c:1095-1180 | the first label not below the text |
| GraphLookup.CountRun | host/knowledge_graph.c:1095-1180 | counts the distinct concepts that the text names, and gives the one when there is one |
| GraphLookup.Lookup | host/knowledge_graph.c:1095-1180 | an exact ID wins; otherwise the number of distinct concepts with that name or alias decides between not found, found and ambiguous; invalid exactly for an illegal query |
| GraphRows.ScanOrderIsCanonical | host/knowledge_graph_query.c:246-267 | relations recorded file by file and line by line are already in row order |
| GraphRows.SlicesAreRows | host/knowledge_graph_query.c:272-312 | each slice is the part of the union with that direction |
| GraphRows.TouchingAscends | host/knowledge_graph_query.c:272-312 | the union is ordered, each relation once |
| GraphRows.TouchingComplete | host/knowledge_graph_query.c:272-312 | and holds every relation that touches the concept |
| GraphRows.TouchingMeaning | host/knowledge_graph_query.c:272-312 | a row is out exactly for a relation that only leaves the concept, in for one that only enters it, self for one that does both |
| GraphRows.SliceMeaning | host/knowledge_graph.c:975-1043 | a slice is exactly the relations with the concept at its end, ascending |
| GraphRows.NextOf | host/knowledge_graph_query.c:272-312 | the least head of the three slices is the next row of the union |
| GraphRows.RowsCollect | host/knowledge_graph_query.c:272-312 | the merge yields the first min(capacity, total) rows of the union, each with the right direction and none missing when there is room to spare, and writes no other row |
| ByteOrder.Transitive | host/knowledge_graph.c:70-83 | the byte order is transitive |
| ByteOrder.Total | host/knowledge_graph.c:70-83 | it is total and asymmetric |
| ByteOrder.Compare | host/knowledge_graph.c:70-83 | the comparison's sign is that order, zero exactly for equal bytes |
| Sort.SiftDown | os/sort.h:19-40 | sifting restores the heap below its start and permutes only inside it |
| Sort.SwapDown | os/sort.h:19-40 | swapping the hole with its larger child moves the hole down and breaks nothing else |
| Sort.RootIsLast | os/sort.h:42-57 | nothing in a heap comes after its root |
| Sort.TailGrows | os/sort.h:42-57 | swapping the root to the end extends the sorted tail |
| Sort.SortIndex | os/sort.h:42-57 | a sorted permutation for every strict weak order |
| Sort.ArrangementMeaning | os/sort.h:42-57 | a sorted index names every row exactly once |
| NoteRelations.Ranking | os/note_relations.c:319-331 | the row order is transitive, asymmetric, and ties only rows alike in score, tags and name |
| NoteRelations.BeforeIsStrictWeak | os/note_relations.c:335-340 | as an index order it is strict weak, whatever the rows |
| NoteRelations.ShownAreBest | os/note_relations.c:342-349 | every row is shown, or twenty are and none of them ranks after it |
| NoteRelations.RelatedMeaning | os/note_relations.c:534-616 | a row is listed exactly for another readable note that the source links to, that links to the name, or that shares a tag; the two link flags and the tag count say which |
| NoteRelations.BacklinksMeaning | os/note_relations.c:456-532 | a row is listed exactly for a note that declares a link to the name |
| NoteRelations.ShownBestFirst | os/note_relations.c:319-349 | shown rows descend in linked directions, then in shared tags, then ascend in name |
| NoteRelations.SharedTagCount | os/note_relations.c:287-314 | the number of distinct tags both notes have |
| NoteRelations.Contains | os/note_relations.c:271-281 | finds a target exactly when it is listed |
| NoteRelations.RelationContext.SortRows | os/note_relations.c:342-349 | the index is a ranked arrangement of the rows |
| NoteRelations.RelationContext.Append | os/note_relations.c:534-616 | adds one row, or refuses at the capacity and changes nothing |
| NoteRelations.RelationContext.CollectRelated | os/note_relations.c:534-616 | exactly the rows of the other notes with a link either way or a shared tag, in directory order |
| NoteRelations.RelationContext.Related | os/note_relations.c:534-616 | delivers the best min(total, 20) rows in rank order with the exact total; one unreadable header means no row at all; every failure has its cause |
| NoteRelations.RelationContext.Backlinks | os/note_relations.c:456-532 | the same for the notes that link to the name, and whether the name exists |
| TextLines.LinesSpell | os/editor.c:482-514 | a text is the concatenation of its (content, terminator) lines, of which only the last may lack a terminator |
| TextLines.LinesUnique | os/editor.c:482-514 | a well-formed list of lines is the lines of its text |
| TextLines.LegalSplits | os/editor.c:613-656 | legal text cut after an LF gives two legal texts |
| Editor.AppendedText | os/editor.c:583-611 | appending a line, closing an open last one first, is the separator, the text and an LF at the end, and stays legal |
| Editor.ReplacedText | os/editor.c:613-642 | replacing a line's content keeps its terminator; a last line left empty and open disappears; the text stays legal |
| Editor.DeletedText | os/editor.c:644-656 | deleting a line removes its bytes and the text stays legal |
| Editor.DraftMove | os/editor.c:69-84 | a simultaneous copy for every overlap |
| Editor.FindLine | os/editor.c:482-514 | finds exactly the line numbers there are, with start, content length and terminator length |
| Editor.Draft.Append | os/editor.c:583-611 | refines append on lines; too large exactly by separator, text and LF together, else invalid text exactly for illegal input; refused calls change nothing; the draft stays legal and within 16384 bytes |
| Editor.Draft.Replace | os/editor.c:613-642 | refines replace-content on lines, with the exact order of refusals |
| Editor.Draft.Delete | os/editor.c:644-656 | refines removal on lines, out of range exactly for a line there is not |
| BlockPages.LeadBefore | host/block_query.c:522-566 | in legal text at most three continuation bytes are rolled back before a lead |
| BlockPages.CutLegal | host/block_query.c:522-566 | both parts of a cut that splits no scalar and no CRLF are legal |
| BlockPages.PageIsFull | host/block_query.c:522-566 | a page that is not the last is at least 65533 bytes |
| BlockPages.LegalReads | host/block_query.c:522-566 | on legal text a read at a cut cannot fail |
| BlockPages.ReadState.ReadChunk | host/block_query.c:493-521 | the callback keeps page, previous byte and line count those of the bytes seen, for any chunking |
| BlockPages.ReadState.PrepareRead | host/block_query.c:522-566 | invalid exactly for an offset inside a scalar or CRLF, or a page with no cut; else text, offsets, lines and next offset of the page |
| BlockPages.ReadPage | host/block_query.c:581-615 | the same for one read, also past the end |
| BlockPages.ReadAll | host/block_query.c:522-580 | following the next offset from 0 terminates; the pages concatenate to the block, each legal and at most 65536 bytes, all but the last at least 65533, with right lines |
| Sha256.PadBlocks | host/semantic_sha256.c:201-241 | both padding cases give the padded message of FIPS 180-4 section 5.1.1 |
| Sha256.FillBlock | host/semantic_sha256.c:157-199 | filling the buffer to 64 bytes absorbs exactly one more block |
| Sha256.FillRest | host/semantic_sha256.c:157-199 | bytes short of a block only join the remainder |
| Sha256.ScheduleExtends | host/semantic_sha256.c:83-137 | the code's expansion is the message schedule of section 6.2.2 |
| Sha256.RoundConstants | host/semantic_sha256.c:24-56 | the sixty-four round constants are the first 32 fraction bits of the cube roots of the first 64 primes (section 4.2.2) |
| Sha256.InitialWords | host/semantic_sha256.c:139-155 | the initial words are the first 32 fraction bits of the square roots of the first eight primes (section 5.3.3) |
| Sha256.Rotations | host/semantic_sha256.c:58-61 | the shift pair is a rotation for every amount used |
| Sha256.ChoiceAndMajority | host/semantic_sha256.c:83-137 | the choice and majority functions of section 4.1.2, with disjunctions |
| Sha256.Big0 | host/semantic_sha256.c:83-137 | the rotations of a section 4.1.2 function; Big1, Small0 and Small1 likewise |
| Sha256.WordOfBytes | host/semantic_sha256.c:83-137 | a word holds its four bytes most significant first |
| Sha256.RunRounds | host/semantic_sha256.c:83-137 | the sixty-four rounds of section 6.2.2 |
| Sha256.CompressBlock | host/semantic_sha256.c:83-137 | one block of the hash computation, in place |
| Sha256.Context.Update | host/semantic_sha256.c:157-199 | after any updates the state is the fold over the complete blocks and the buffer the remainder; too large exactly past the 64-bit length; refused calls change nothing |
| Sha256.Context.Final | host/semantic_sha256.c:201-241 | the digest of all bytes fed; the context can be finalised once |
| Sha256.Hash | host/semantic_sha256.c:139-241 | the digest is that of the message, for every split into updates |

## Left out

- Pointer, span, alias and busy checks at the public entry points: they concern C addresses. Distinct
  objects and `modifies` clauses stand in for them.
- POSIX files, processes, the network and the embedding process: input and output only.
- YanFS, the search index backend and directory listing: reads and listings are the abstract source
  described above, and the order of a listing is given.
- The search facades, the console, the line editor, and the editor's command parsing, printing and file
  commands: callbacks and validation order only.
- The graph's directive scanner and its file walk: what it would record is given to the record methods
  as arguments. The hash function is any function.
- Floating-point cosine ranking, vector files and the JSON output of graph queries.
- Enum-to-name tables, error-code maps, `memset`, `memcmp`, `strlen` and control registers outside the ring.
- Failed allocations. `qsort` is taken to sort by its comparison; the project's own heapsort does it here.
- The snapshot hash, cancellation and request checks around block queries, note listing and filtering, and
  the resolution of a note's own outgoing links.
- SemanticChunker.Chunker.Finish: the line numbers of a chunk are not cut to 32 bits, and a body that is
  refused may have delivered chunks first; what those are is stated for its valid continuations only.
- SearchRank.Rank.Add: the count of all matches is not cut to its C width.
- TermSearch.Query: the tag filter and its qualification pass, and the prefix cache, which only saves reads.
- SearchSnippet.CoreSnippet: when the callback gives less than the window, only the left flag is stated;
  a file that is not UTF-8 is never ranked and has no snippet here.
- SearchLinear.LinearSearch.Run: one consumer serves a search; the stored file name is not cut to 32 bytes,
  since a listing gives none longer.
- Transport.Channel.Push: host steps come between register accesses and between the copy and the
  position's publication, not between the bytes of one copy; the memory fence is not modelled apart from that.
- Transport.Channel.HostPublish: the host's writes and its position move are one step.
- BlockFraming.Submit: when the host is not ready, only that nothing is sent is stated.
- NoteUpdate.NoteContext.PublishChange: the file replacement is one step that succeeds or leaves the file
  as it was, which is what YanFS promises.
- GraphPublish.Publish: the one arena that the published strings are copied into is not modelled; strings
  are values, and allocation does not fail.
