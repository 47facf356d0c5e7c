# Verified models from an operating systems course

The repository collects the programs of an operating systems course: a toybox with its Kconfig
language, a bzip2 decompressor and checksum tools, recursion turned into explicit stacks, the Mosaic
model checker with its concurrency examples, a small linker, a RISC-V emulator and a labyrinth game.
This project models their hardest parts in Dafny and proves what these parts are for.

`dafny verify dfyconfig.toml` checks the whole project.

- **Kconfig expressions** (`KconfigExpr`, `KconfigTransform`, `KconfigDups`, `KconfigMenu`). Expressions
  have the values n, m and y in a configuration of boolean and tristate symbols. Every rewriting step is
  proved to keep values in every configuration: the transformation and the joining of terms all of them,
  the exclusion of contradicting terms y and n. The loops end, no two terms that are equal or could
  be joined are left, and nesting menu entries loses none of them. A single exclusion changes the value exactly where that is m, and the
  comparison that is rewritten is right under an exact condition, too.
- **bzip2** (`BitStream`, `CodeLengths`, `Huffman`, `SymbolLayer`, `BunzipData`, `BlockTables`,
  `StableSort`, `BurrowsWheeler`, `RunLength`, `Bunzip`). Each layer is proved against an encoder of its
  own, in the form of the source: a bit register, tables filled by loops, buffers changed in place.
  `DecodeBlock` and `EncodedBlockDecodes` put the layers together: whatever an encoder chose, the decoder
  reads the tables and the data, writes the text and has its CRC. `EncodingExists` says that every text
  that fits has an encoding.
- **Checksums** (`Words`, `Crc`, `Sha1`). Table-driven CRC is polynomial division, in both bit orders.
  SHA-1 with its circular schedule and its turning pointers is sections 5.1.1 and 6.1.2 of FIPS 180-4,
  for any message in any pieces, from its bits to the bits of the digest. Words are sequences of bits, the most significant first.
- **Explicit stacks** (`Hanoi`, `MutualRecursion`). The machines are proved to compute what the
  recursions compute, with the exact number of stack slots they need.
- **Mosaic** (`MosaicCheck`, `CondVar`). The breadth-first search is exact. The condition variable
  protocol is a state machine over its system calls; its safety is proved for every interleaving, and so
  is exactly when it can get stuck, for any numbers of producers, consumers and rounds.
- **FLE** (`Fle`, `FleText`, `FleEmit`). From the sections of an object file through two passes of the
  linker to the image and its text form.
- **Labyrinth** (`Labyrinth`). Depth-first search decides connectedness; moving players keeps it.
- **RISC-V** (`Rv32Words`, `Rv32Alu`, `Rv32Machine`, `Rv32Isa`, `Rv32`). One step of the processor, on
  registers and memory changed in place, and what holds over every run of steps. At every instruction of
  RV32IM, at the AMOs and at the CSR instructions, each written in its format, a step does what the RISC-V
  Unprivileged ISA says of it.

`Powers`, `Permutation`, `Sequences` and `Wrappers` hold what several modules use.

Where the code and what is said about it differ, the model follows the code:

- The pass that excludes contradicting terms and the rewritten comparison are not exact on m
  (`ExclusionExact`, `Dups2NotExact`, `TransCompareExact`, `AdoptionReadsNegatedMod`).
- A run that fills the bzip2 buffer to the last byte is refused, although a literal there is not: a block
  of exactly the size of the buffer is read back only if it does not end in a run (`EncodeDecodes`,
  `FullBlockExample`).
- A signal of the condition variable may wake a worker that cannot go on (`WrongWakeUp`,
  `StuckExactly`).
- A player who is not on the map yet moves from the first empty cell, even if another player stands
  there, and erases that player (`BystanderKept`, `BystanderLost`).
- A symbol at the very end of a section gets no label when an object is converted (`LabelledExactly`,
  `EndSymbolLost`).
- The converter subtracts the place from every relocation it accepts, also from R_X86_64_32, whose value
  in the x86-64 psABI is S + A (`RelocatedExactly`, `AbsoluteExample`).
- A store conditional does not end the reservation, and without any load reserved the start of RAM counts
  as reserved (`SecondConditional`, `TwiceExample`, `UnreservedConditional`, `UnreservedExample`), unlike
  section 8.2 of the RISC-V Unprivileged ISA.

## Model

| member | source | states |
|---|---|---|
| `KconfigExpr.EliminateYnSound` | course1/tar/toybox-0.1.0/kconfig/expr.c:236-317 | removing y and n from AND and OR keeps the value in every configuration, and keeps a two-valued expression two-valued |
| `KconfigExpr.EliminateYnExact` | course1/tar/toybox-0.1.0/kconfig/expr.c:236-317 | no y or n is left below an AND or OR, and the expression shrinks, or changes at all, exactly if there was one |
| `KconfigExpr.EliminatePairsSound` | course1/tar/toybox-0.1.0/kconfig/expr.c:135-167 | there is a common value x with e1 = x op e1' and e2 = x op e2', in every configuration |
| `KconfigExpr.EliminateEqSound` | course1/tar/toybox-0.1.0/kconfig/expr.c:169-189 | both expressions are the same context around what is left of them, also when their types differ |
| `KconfigExpr.ExprEqSound` | course1/tar/toybox-0.1.0/kconfig/expr.c:194-234 | expressions that expr_eq calls equal have equal values in every configuration |
| `KconfigExpr.ExprEqReflexive` | course1/tar/toybox-0.1.0/kconfig/expr.c:194-234 | every expression compares equal to itself, chains included: comparing them term by term leaves nothing of either |
| `KconfigExpr.EliminateEqImplies` | course1/tar/toybox-0.1.0/kconfig/menu.c:294-301 | if only y is left of the second expression, the first is below it in every configuration |
| `KconfigTransform.PushedIsLighter` | course1/tar/toybox-0.1.0/kconfig/expr.c:721-738 | the weight by which expr_transform terminates falls when a NOT is pushed inwards and the node is transformed again |
| `KconfigTransform.TransformSound` | course1/tar/toybox-0.1.0/kconfig/expr.c:641-776 | the transformed expression has the same value in every configuration |
| `KconfigTransform.TransformNormal` | course1/tar/toybox-0.1.0/kconfig/expr.c:641-776 | the result has NOT only over symbols other than y, m and n, and no comparison of a boolean symbol with a constant |
| `KconfigTransform.TransformFixpoint` | course1/tar/toybox-0.1.0/kconfig/expr.c:641-776 | transforming changes nothing exactly if the expression is in that normal form |
| `KconfigTransform.TransformIdempotent` | course1/tar/toybox-0.1.0/kconfig/expr.c:641-776 | transforming twice is transforming once |
| `KconfigTransform.TransformCrisp` | course1/tar/toybox-0.1.0/kconfig/expr.c:641-776 | an expression without a lone m stays without one |
| `KconfigTransform.TransCompareReads` | course1/tar/toybox-0.1.0/kconfig/expr.c:882-941 | the rewritten comparison is y or n and decides a reading of the expression in which a negation turns "is n" into "is y", in every configuration |
| `KconfigTransform.ReadingIsValue` | course1/tar/toybox-0.1.0/kconfig/expr.c:882-941 | where no negated part is m, that reading is the comparison of the value with y or n |
| `KconfigTransform.ReadingBounds` | course1/tar/toybox-0.1.0/kconfig/expr.c:882-941 | in every configuration the reading is true where the value is y and false where it is n |
| `KconfigTransform.TransCompareExact` | course1/tar/toybox-0.1.0/kconfig/expr.c:882-941 | for every expression and configuration, the comparison with n comes out right exactly if the value is not m or the reading is true |
| `KconfigTransform.TransCompareYesExact` | course1/tar/toybox-0.1.0/kconfig/expr.c:882-941 | the comparison with y comes out right exactly if the value is not m or the reading is false |
| `KconfigTransform.TransCompareNotExact` | course1/tar/toybox-0.1.0/kconfig/expr.c:913-914 | a failing input: !t is m when t is, but "!t != n" comes out as n |
| `KconfigTransform.ExtractEqSound` | course1/tar/toybox-0.1.0/kconfig/expr.c:853-880 | what is extracted and what is left of each side make up both sides again |
| `KconfigTransform.ExtractCommonSound` | course1/tar/toybox-0.1.0/kconfig/expr.c:831-851 | the common part joined with each remainder has the value of each side, in every configuration |
| `KconfigDups.JoinOrSound` | course1/tar/toybox-0.1.0/kconfig/expr.c:351-413 | a pair of terms that expr_join_or merges has the value of the two under OR, in every configuration |
| `KconfigDups.JoinAndSound` | course1/tar/toybox-0.1.0/kconfig/expr.c:415-507 | a pair of terms that expr_join_and merges has the value of the two under AND, in every configuration |
| `KconfigDups.JoinExact` | course1/tar/toybox-0.1.0/kconfig/expr.c:351-507 | the pairs of terms that are joined, and what each becomes: of two equal terms one stays; by the rules, written out for one symbol, FOO \|\| !FOO becomes y, t = y \|\| t = m becomes t != n, and so on; no other pair is joined |
| `KconfigDups.Dups1Kept` | course1/tar/toybox-0.1.0/kconfig/expr.c:509-559 | the joining pass keeps the value in every three-valued configuration; if it counts no rewrite it changes nothing |
| `KconfigDups.ExclusionExact` | course1/tar/toybox-0.1.0/kconfig/expr.c:575-591 | whenever a term is excluded, the chain keeps its value in exactly those three-valued configurations in which it is not m |
| `KconfigDups.Dups2Kept` | course1/tar/toybox-0.1.0/kconfig/expr.c:561-615 | for every expression and every three-valued configuration, the excluding pass keeps a value that is y or n; if it counts no rewrite it changes nothing |
| `KconfigDups.Dups2NotExact` | course1/tar/toybox-0.1.0/kconfig/expr.c:575-591 | a failing input: (a \|\| b) && (!a && !b) becomes n, although it is m where the larger of a and b is m, and only there |
| `KconfigDups.PassShrinks` | course1/tar/toybox-0.1.0/kconfig/expr.c:617-639 | every pass that counts a rewrite loses a node once y and n are eliminated, which is why the loop ends |
| `KconfigDups.EliminateDups` | course1/tar/toybox-0.1.0/kconfig/expr.c:617-639 | the loop ends with an expression that is no larger and, in every configuration, is y or n wherever the given one is; no two of its terms are equal or can be joined |
| `KconfigDups.DedupedIdempotent` | course1/tar/toybox-0.1.0/kconfig/expr.c:617-639 | what the loop returns has nothing left to rewrite |
| `KconfigDups.DedupedDupFree` | course1/tar/toybox-0.1.0/kconfig/expr.c:617-639 | in what the loop returns, and in every chain inside it, no two terms compare equal and no two terms make up one by a rule of expr_join_or or expr_join_and |
| `KconfigDups.DedupedPair` | course1/tar/toybox-0.1.0/kconfig/expr.c:617-639 | two plain terms that make up one are replaced by it, so FOO && FOO becomes FOO |
| `KconfigDups.DedupedFlat` | course1/tar/toybox-0.1.0/kconfig/expr.c:617-639 | two plain terms that cannot be joined are left as they are |
| `KconfigMenu.InheritDep` | course1/tar/toybox-0.1.0/kconfig/menu.c:254-258 | through transform and eliminate_dups, an entry's dependency becomes the AND of its parent's and its own in every configuration in which that is not m; normal forms stay normal |
| `KconfigMenu.TransBoolSound` | course1/tar/toybox-0.1.0/kconfig/expr.c:322-346 | turning t != n into t keeps, for every normal form and in every configuration, whether the expression is n; its value does not rise, and it stays a normal form |
| `KconfigMenu.TransBoolNegated` | course1/tar/toybox-0.1.0/kconfig/expr.c:322-346 | outside the normal form it fails: !(t != n) is n at t = m, but becomes !t, which is m |
| `KconfigMenu.InheritVisibility` | course1/tar/toybox-0.1.0/kconfig/menu.c:263-271 | through transform, eliminate_dups and, for entries that are not tristate, trans_bool, a prompt is visible exactly where the dependency of its entry and its own condition are, in every configuration in which their AND is not m: it is never visible where it must be hidden |
| `KconfigDups.DedupedNormal` | course1/tar/toybox-0.1.0/kconfig/expr.c:617-639 | a normal form stays one, which is what trans_bool needs |
| `KconfigMenu.ContainsExact` | course1/tar/toybox-0.1.0/kconfig/expr.c:778-800 | an expression contains exactly the symbols that stand in it, also inside comparisons and below NOT |
| `KconfigMenu.NotContainedKeeps` | course1/tar/toybox-0.1.0/kconfig/expr.c:778-800 | its value does not depend on any other symbol |
| `KconfigMenu.DependsOnSound` | course1/tar/toybox-0.1.0/kconfig/expr.c:802-829 | an expression that depends on a symbol is n wherever the symbol is |
| `KconfigMenu.DependsOnExact` | course1/tar/toybox-0.1.0/kconfig/expr.c:802-829 | an expression depends on a symbol exactly if one of the terms that it joins by AND is the symbol, a comparison with y or m, or an inequality with n |
| `KconfigMenu.NotNoSound` | course1/tar/toybox-0.1.0/kconfig/menu.c:282-284 | the prepared condition is y or n in every configuration, and decides the reading of the given one |
| `KconfigMenu.AdoptsSound` | course1/tar/toybox-0.1.0/kconfig/menu.c:286-301 | when an entry is taken below a symbol, it depends on the symbol or its condition implies the symbol's |
| `KconfigMenu.AdoptedIsReachable` | course1/tar/toybox-0.1.0/kconfig/menu.c:286-301 | where an entry taken below a symbol is y, whatever else is m, or m and read as true, the symbol is set or visible |
| `KconfigMenu.AdoptionReadsNegatedMod` | course1/tar/toybox-0.1.0/kconfig/menu.c:292-301 | with u = m and s = n, an entry under !u && s = n is taken below s, which is visible under u = n: the entry is m, but s is neither set nor visible |
| `KconfigMenu.TestTakes` | course1/tar/toybox-0.1.0/kconfig/menu.c:286-301 | the test of the loop, made step by step, is the test that the nesting is stated with |
| `KconfigMenu.Finalize` | course1/tar/toybox-0.1.0/kconfig/menu.c:281-312 | nesting loses, repeats and reorders no entry; every nested entry passes the test of its parent, and the first entry left over does not |
| `BitStream.BitReader.Refill` | course1/tar/toybox-0.1.0/lib/bunzip.c:97-102 | reading more input changes no bit that is still to come |
| `BitStream.BitReader.GrabByte` | course1/tar/toybox-0.1.0/lib/bunzip.c:112-114 | moving a byte into the register changes no bit that is still to come |
| `BitStream.BitReader.GetBits` | course1/tar/toybox-0.1.0/lib/bunzip.c:89-122 | succeeds exactly if w bits are left, returns them as a big-endian number and leaves the rest, over any refills; at most 31 bits are ever held |
| `BitStream.BitReader.NextBit` | course1/tar/toybox-0.1.0/lib/bunzip.c:348-352 | the unrolled read of one bit takes the next bit of the input |
| `BitStream.BitReader.UnreadBit` | course1/tar/toybox-0.1.0/lib/bunzip.c:224 | the count-up puts the second of two bits back in front of the input |
| `CodeLengths.NextLength` | course1/tar/toybox-0.1.0/lib/bunzip.c:214-227 | one code length, or the error, as the bits spell it |
| `CodeLengths.ReadCodeLengths` | course1/tar/toybox-0.1.0/lib/bunzip.c:211-229 | all code lengths of a table, or the error, with exactly the bits of the table consumed |
| `CodeLengths.ReadEncodedTable` | course1/tar/toybox-0.1.0/lib/bunzip.c:211-229 | every vector of lengths, written in the steps of the format, is read back, and what follows is left in place |
| `Huffman.FindRange` | course1/tar/toybox-0.1.0/lib/bunzip.c:231-236 | the smallest and the largest code length |
| `Huffman.SortSymbols` | course1/tar/toybox-0.1.0/lib/bunzip.c:263-270 | permute[] is the stable sort of the symbols by code length |
| `Huffman.CountLengths` | course1/tar/toybox-0.1.0/lib/bunzip.c:272-273 | temp[] counts the symbols of each length |
| `Huffman.Group.FillLimits` | course1/tar/toybox-0.1.0/lib/bunzip.c:275-288 | limit[] and base[] are the last code of each length and its distance from the place in permute[] |
| `Huffman.Group.Build` | course1/tar/toybox-0.1.0/lib/bunzip.c:231-288 | from any code lengths the tables describe the canonical code of these lengths |
| `Huffman.KraftExact` | course1/tar/toybox-0.1.0/lib/bunzip.c:275-288 | the codes of every length fit into that length exactly if the lengths satisfy the Kraft inequality |
| `Huffman.ReadsCode` | course1/tar/toybox-0.1.0/lib/bunzip.c:341-360 | for lengths that satisfy the Kraft inequality, the code of any symbol followed by anything is consumed and no more, and gives the symbol |
| `Huffman.ExtendCode` | course1/tar/toybox-0.1.0/lib/bunzip.c:341-354 | reading on while the bits are above the limit follows the canonical code, or meets the end of the input |
| `Huffman.DecodeSymbol` | course1/tar/toybox-0.1.0/lib/bunzip.c:341-360 | the loop with limit, base and permute reads exactly the symbol, or the error, that the canonical code defines |
| `SymbolLayer.RunRoundTrip` | course1/tar/toybox-0.1.0/lib/bunzip.c:362-381 | every run length is the value of its RUNA/RUNB digits |
| `SymbolLayer.RunUnique` | course1/tar/toybox-0.1.0/lib/bunzip.c:362-381 | and every string of digits is the one of its value: a bijection |
| `SymbolLayer.RunIsShort` | course1/tar/toybox-0.1.0/lib/bunzip.c:362-381 | a run below 2^k - 1 takes fewer than k digits: below 2^30 - 1 they stay inside the thirty that an int holds |
| `SymbolLayer.DigitsRead` | course1/tar/toybox-0.1.0/lib/bunzip.c:362-381 | collecting digits adds up to the run length they spell, wherever the run has got to |
| `SymbolLayer.TableKept` | course1/tar/toybox-0.1.0/lib/bunzip.c:406-411 | the move-to-front table stays a permutation of the symbols |
| `SymbolLayer.MoveUp` | course1/tar/toybox-0.1.0/lib/bunzip.c:406-411 | the loop moves the symbol to the front in place and shifts the ones before it |
| `SymbolLayer.EncodeDecodes` | course1/tar/toybox-0.1.0/lib/bunzip.c:362-416 | what the encoder of both layers writes for a block is read back byte for byte if the block leaves a byte of the buffer free, or fills it and does not end in a run, and is refused otherwise |
| `SymbolLayer.FullBlockExample` | course1/tar/toybox-0.1.0/lib/bunzip.c:387-404 | a buffer of one byte holds the block that is the second symbol; the one that is the first symbol, a run, is refused |
| `SymbolLayer.RunFitsInt` | course1/tar/toybox-0.1.0/lib/bunzip.c:362-381 | up to thirty digits of a run, runPos and hh stay in the range of an int |
| `SymbolLayer.EncodeShort` | course1/tar/toybox-0.1.0/lib/bunzip.c:362-416 | the encoder writes at most one symbol for a byte, and the end |
| `SymbolLayer.EncodeEnds` | course1/tar/toybox-0.1.0/lib/bunzip.c:396-397 | the encoder writes the end-of-block symbol last and nowhere else |
| `BunzipData.PutRun` | course1/tar/toybox-0.1.0/lib/bunzip.c:387-394 | a run is appended, and byteCount[] stays the histogram of dbuf[] |
| `BunzipData.ApplySymbol` | course1/tar/toybox-0.1.0/lib/bunzip.c:362-416 | one symbol changes table, run and buffer as the layer defines, or is refused |
| `BunzipData.NextSymbol` | course1/tar/toybox-0.1.0/lib/bunzip.c:331-360 | after every fifty symbols the next selector chooses the code; too few selectors are an error |
| `BunzipData.AdvanceFifty` | course1/tar/toybox-0.1.0/lib/bunzip.c:331-340 | counting down from fifty and stepping through the selectors gives symbol n the code that selector n / 50 names, and runs out of selectors exactly at symbol 50 * nSelectors |
| `BunzipData.ReadsGrouped` | course1/tar/toybox-0.1.0/lib/bunzip.c:329-417 | so the loop reads every symbol n with the code of selector n / 50, and fails for want of a selector exactly when symbol 50 * nSelectors is asked for |
| `BunzipData.ReadEncoded` | course1/tar/toybox-0.1.0/lib/bunzip.c:329-417 | the codes of any symbols one after the other, that of symbol n taken from the code that selector n / 50 names, mean what the symbols mean, and no bit behind the end of the block is read |
| `BunzipData.Round` | course1/tar/toybox-0.1.0/lib/bunzip.c:329-417 | one round of the loop consumes at least one bit and leaves the rest of the block to be read the same |
| `BunzipData.ReadHuffmanData` | course1/tar/toybox-0.1.0/lib/bunzip.c:301-423 | the whole loop yields the buffer, the unread bits and the histogram, or the error, that the format defines |
| `StableSort.PlacesAreStableSort` | course1/tar/toybox-0.1.0/lib/bunzip.c:444-458 | the places given out by counting are those of the stable sort |
| `StableSort.StableSortUnique` | course1/tar/toybox-0.1.0/lib/bunzip.c:444-458 | there is one stable sort |
| `BurrowsWheeler.StartPositions` | course1/tar/toybox-0.1.0/lib/bunzip.c:444-450 | counts become the positions where each byte starts in the sorted column |
| `BurrowsWheeler.LinkByte` | course1/tar/toybox-0.1.0/lib/bunzip.c:454-458 | one byte is linked into the next place of its value, without touching a byte already linked |
| `BurrowsWheeler.Prepare` | course1/tar/toybox-0.1.0/lib/bunzip.c:435-458 | every word keeps its byte and gets the link of the stable sort of the block |
| `BurrowsWheeler.LinkRotates` | course1/tar/toybox-0.1.0/lib/bunzip.c:452-458 | a link leads from each row to the row that is the next rotation, even where rows are equal |
| `BurrowsWheeler.InverseTransform` | course1/tar/toybox-0.1.0/lib/bunzip.c:524-535 | following the links from the row of the text gives the text, for every block, also a periodic one |
| `BurrowsWheeler.TransformExists` | course1/tar/toybox-0.1.0/lib/bunzip.c:490-496 | every block has sorted rotations, a last column and a row of its own |
| `RunLength.DecodeEncode` | course1/tar/toybox-0.1.0/lib/bunzip.c:537-555 | decoding undoes the coding of four equal bytes and a count, for every string |
| `RunLength.DecodeBlock` | course1/tar/toybox-0.1.0/lib/bunzip.c:466-475 | also from the state in which a block starts, whatever the byte that initialises it |
| `Bunzip.Output.Put` | course1/tar/toybox-0.1.0/lib/bunzip.c:548-554 | a byte goes to the output, through a flush when the buffer is full, and into the checksum |
| `Bunzip.WriteByte` | course1/tar/toybox-0.1.0/lib/bunzip.c:531-555 | one byte of the block adds to output and checksum what the run-length layer defines |
| `Bunzip.WriteBytes` | course1/tar/toybox-0.1.0/lib/bunzip.c:524-556 | the loop writes the decoded text and nothing else, and adds it to the checksum |
| `Bunzip.WriteBlock` | course1/tar/toybox-0.1.0/lib/bunzip.c:519-559 | a block is written as its text, with the CRC of that text |
| `BlockTables.ReadEncodedTables` | course1/tar/toybox-0.1.0/lib/bunzip.c:206-229 | the tables of all codes of a block are read back one after the other, and what follows is left in place |
| `BlockTables.CodingUnique` | course1/tar/toybox-0.1.0/lib/bunzip.c:231-288 | two tables for the same code lengths are the same |
| `BlockTables.NextGroup` | course1/tar/toybox-0.1.0/lib/bunzip.c:206-289 | one round of the loop reads the next lengths and builds their tables, without touching those built before |
| `BlockTables.ReadGroups` | course1/tar/toybox-0.1.0/lib/bunzip.c:205-289 | the loop over the groups gives every group the tables of the lengths written for it, or the error |
| `BlockTables.BuiltTables` | course1/tar/toybox-0.1.0/lib/bunzip.c:231-289 | these tables are the ones that reading the data needs |
| `Bunzip.DecodeData` | course1/tar/toybox-0.1.0/lib/bunzip.c:479-559 | reading, preparing and writing the data of a block gives its text, or the error with nothing written; a bad origPtr is an error |
| `Bunzip.DecodeBlock` | course1/tar/toybox-0.1.0/lib/bunzip.c:205-559 | so does a block from the tables of its codes on |
| `Bunzip.BlockRoundTrip` | course1/tar/toybox-0.1.0/lib/bunzip.c:294-423 | whatever rotation order among equals, alphabet, codes and selectors the encoder chose, the data is read as the transform of the text up to the last bit, or refused if it does not fit |
| `Bunzip.TransformDecodes` | course1/tar/toybox-0.1.0/lib/bunzip.c:425-559 | the transform of a text decodes to the text and to nothing else |
| `Bunzip.EncodedBlockDecodes` | course1/tar/toybox-0.1.0/lib/bunzip.c:205-559 | the theorem of the whole: on the tables and data that any encoder wrote for a text, followed by anything, DecodeBlock appends exactly the text, has its CRC and stops behind the last bit; a block that does not fit is refused with nothing written |
| `Bunzip.EncodingExists` | course1/tar/toybox-0.1.0/lib/bunzip.c:205-559 | every text that run-length coded takes at most the buffer, of up to 900000 bytes, has such an encoding |
| `Crc.Division` | course1/tar/toybox-0.1.0/toys/cksum.c:34-42 | the register after a message is the remainder of the message times x^32 divided by the generator |
| `Crc.PolyReversed` | course1/tar/toybox-0.1.0/lib/lib.c:742-743 | the two constants are mirror images |
| `Crc.ComputeEntry` | course1/tar/toybox-0.1.0/lib/lib.c:740-743 | the inner loop computes the remainder of a byte, in either bit order |
| `Crc.CrcInit` | course1/tar/toybox-0.1.0/lib/lib.c:734-746 | the table holds these remainders |
| `Crc.StepBeDivides` | course1/tar/toybox-0.1.0/toys/cksum.c:34-37 | one table step equals eight steps of bit-serial division |
| `Crc.StepLeDivides` | course1/tar/toybox-0.1.0/toys/cksum.c:39-42 | so does one step in the other bit order, mirrored |
| `Crc.Cksum` | course1/tar/toybox-0.1.0/toys/cksum.c:34-42 | either function feeds the bits of one byte |
| `Crc.CksumLength` | course1/tar/toybox-0.1.0/toys/cksum.c:68-76 | the octets of the length are fed, the lowest first and only as many as there are |
| `Crc.CksumReads` | course1/tar/toybox-0.1.0/toys/cksum.c:54-66 | the checksum and the length do not depend on how the file was cut into reads |
| `Crc.DoCksum` | course1/tar/toybox-0.1.0/toys/cksum.c:44-81 | the result is the remainder of data and length octets, in either bit order, with each of the options |
| `Crc.OctetsOfLength` | course1/tar/toybox-0.1.0/toys/cksum.c:68-76 | the length octets write the length, the lowest first, with none too many |
| `Sha1.SwapIsBigEndian` | course1/tar/toybox-0.1.0/toys/sha1sum.c:44-46 | the two rotations and masks reverse the bytes of a word |
| `Sha1.WorkIsF` | course1/tar/toybox-0.1.0/toys/sha1sum.c:73-79 | the shortened expressions are the functions Ch, Parity and Maj of section 4.1.1 of FIPS 180-4 |
| `Sha1.Expand` | course1/tar/toybox-0.1.0/toys/sha1sum.c:80-81 | the sixteen words used in a circle hold, at every step, the schedule word of the eighty-word form |
| `Sha1.Rotate` | course1/tar/toybox-0.1.0/toys/sha1sum.c:85-88 | the pointers turn by one |
| `Sha1.OneStep` | course1/tar/toybox-0.1.0/toys/sha1sum.c:71-89 | seen through the pointers, one step is the step of section 6.1.2 of FIPS 180-4 |
| `Sha1.Rounds` | course1/tar/toybox-0.1.0/toys/sha1sum.c:68-91 | eighty steps bring the pointers back, and the state to what the eighty steps of the standard give |
| `Sha1.Transform` | course1/tar/toybox-0.1.0/toys/sha1sum.c:57-94 | a block is hashed as section 6.1.2 of FIPS 180-4 defines |
| `Sha1.HashAppend` | course1/tar/toybox-0.1.0/toys/sha1sum.c:57-94 | hashing block by block is hashing the concatenation |
| `Sha1.Context.constructor` | course1/tar/toybox-0.1.0/toys/sha1sum.c:97-108 | a new context stands for the empty message |
| `Sha1.Context.HashInside` | course1/tar/toybox-0.1.0/toys/sha1sum.c:124-127 | all whole blocks inside the data are hashed |
| `Sha1.Context.Update` | course1/tar/toybox-0.1.0/toys/sha1sum.c:112-132 | after any data, cut in any way, the context stands for the whole message so far |
| `Sha1.Context.Pad` | course1/tar/toybox-0.1.0/toys/sha1sum.c:149-153 | the loop appends exactly the one bit and the zeros of section 5.1.1 of FIPS 180-4 |
| `Sha1.Context.HashLength` | course1/tar/toybox-0.1.0/toys/sha1sum.c:154-156 | the length of the message in bits is hashed last, in eight bytes, the highest first |
| `Sha1.Context.WriteDigest` | course1/tar/toybox-0.1.0/toys/sha1sum.c:158-159 | the twenty bytes are those of the five words in turn |
| `Sha1.DigestBits` | course1/tar/toybox-0.1.0/toys/sha1sum.c:158-159 | the bits of the digest are the bits of the five words, one after the other |
| `Sha1.LengthBits` | course1/tar/toybox-0.1.0/toys/sha1sum.c:154-155 | the bits of the eight length bytes are the 64 bits of the length |
| `Sha1.PaddingBits` | course1/tar/toybox-0.1.0/toys/sha1sum.c:142-155 | the padding is a one bit, the fewest zeros up to 448 modulo 512, and the 64 bits of the length: section 5.1.1 of FIPS 180-4 |
| `Sha1.HashIsBits` | course1/tar/toybox-0.1.0/toys/sha1sum.c:57-94 | the blocks are the 512-bit blocks of the bits of the message, and their words its 32-bit words: section 5.2.1 |
| `Sha1.DigestIsStandard` | course1/tar/toybox-0.1.0/toys/sha1sum.c:57-159 | what is computed for a message is the hash of the standard, from the bits of the message to the bits of the digest |
| `Sha1.Context.Final` | course1/tar/toybox-0.1.0/toys/sha1sum.c:136-159 | the digest is the SHA-1 of all the data given, by sections 5.1.1 and 6.1.2 of FIPS 180-4, whose bits DigestIsStandard gives |
| `Hanoi.CountIsLength` | course1/hanoi/hanoi-r.c:3-13 | the count is the number of moves and 2^n - 1 |
| `Hanoi.FitsInt` | course1/hanoi/hanoi-r.c:3-13 | the count fits an int exactly up to 31 disks |
| `Hanoi.Solves` | course1/hanoi/hanoi-r.c:3-13 | played on three pegs, whatever larger disks lie below, no move puts a disk on a smaller one, and the n disks end on the target peg |
| `Hanoi.NextRuns` | course1/hanoi/hanoi-nr.c:33-75 | after every round retval is the result that the top frame is about to fetch, if it is: one retval suffices |
| `Hanoi.NeverMoreThanN` | course1/hanoi/hanoi-nr.c:22-78 | in every round there are at most n frames |
| `Hanoi.ReachesN` | course1/hanoi/hanoi-nr.c:22-78 | and n frames there are, after 2(n - 1) rounds |
| `Hanoi.NextPrints` | course1/hanoi/hanoi-nr.c:58-75 | a round prints the next part of the moves that the frames have yet to print, and one round fewer is left |
| `Hanoi.Round` | course1/hanoi/hanoi-nr.c:40-75 | one pass through the switch, in place on the array of frames |
| `Hanoi.Run` | course1/hanoi/hanoi-nr.c:22-78 | for up to 64 disks the machine stays inside its array, ends, prints the moves of the recursion in order and returns their number |
| `MutualRecursion.WholeValue` | course1/hanoi/f_g.c:11-18 | what a call adds to ans on either machine is the value of f or g |
| `MutualRecursion.SlotsExact` | course1/hanoi/f_g.c:52-86 | the slots a call needs: 2n - 3 for f and 2n for g on the first machine, 3n - 5 and 3n - 1 on the second, apart from small n |
| `MutualRecursion.Stack.Push` | course1/hanoi/f_g.c:30-37 | a frame is pushed unless the stack is full |
| `MutualRecursion.Called` | course1/hanoi/f_g.c:63-80 | going on to the next stage and pushing a call keeps value, slots and rounds to come |
| `MutualRecursion.StagedRound` | course1/hanoi/f_g.c:57-84 | a round keeps ans plus what is to come; it overflows only if the call needs more slots than there are |
| `MutualRecursion.StagedFG` | course1/hanoi/f_g.c:52-86 | returns f(n) or g(n) if and only if the call needs at most 1000 slots |
| `MutualRecursion.CalledBoth` | course1/hanoi/f_g1.c:64-76 | pushing both calls at once keeps value, slots and rounds to come |
| `MutualRecursion.PairedRound` | course1/hanoi/f_g1.c:58-80 | the same for the machine that pushes both calls |
| `MutualRecursion.PairedFG` | course1/hanoi/f_g1.c:53-82 | returns f(n) or g(n) if and only if the call needs at most 1000 slots |
| `MosaicCheck.WholeDumpIsFaithful` | course2/mosaic/mosaic.py:327-357 | a dump that shows the whole state and a hash without collisions make the search faithful |
| `MosaicCheck.RunReplays` | course2/mosaic/mosaic.py:302-306 | replaying the choices of a run from the first state ends where the run ends |
| `MosaicCheck.ReplayRuns` | course2/mosaic/mosaic.py:302-306 | every trace of offered choices that is replayed is that of a run |
| `MosaicCheck.SameNext` | course2/mosaic/mosaic.py:308-319 | runs that end in equal hash codes go on alike |
| `MosaicCheck.Complete` | course2/mosaic/mosaic.py:430-437 | once all vertices are done, every run ends in one, no deeper than the run is long |
| `MosaicCheck.VisitKeeps` | course2/mosaic/mosaic.py:432-437 | following one choice keeps everything found so far and the order of the queue |
| `MosaicCheck.RoundKeeps` | course2/mosaic/mosaic.py:430-437 | so does taking a state from the queue and following all its choices |
| `MosaicCheck.Explore` | course2/mosaic/mosaic.py:432-437 | the inner loop follows the choices one after the other |
| `MosaicCheck.Check` | course2/mosaic/mosaic.py:411-443 | a run is a sequence of states from the first, each a step by an offered choice: V is exactly the hash codes of the ends of runs, each with the length of a shortest one; E is exactly the steps out of such states, each once; V is found in the order of depth |
| `CondVar.EveryRunSafe` | course2/mosaic/examples/concurrency/cond-var.py:1-34 | for any numbers of producers, consumers and rounds and every interleaving: at most one worker holds the mutex, it is locked exactly if one does, 0 <= count <= 1, count is productions minus consumptions, and cond lists different workers, all waiting |
| `CondVar.ResumeSafe` | course2/mosaic/examples/concurrency/cond-var.py:2-25 | from one system call to the next every worker keeps this |
| `CondVar.SignalSafe` | course2/mosaic/examples/concurrency/cond-var.py:17-20 | so does a signal to any waiter |
| `CondVar.StuckIsAsleep` | course2/mosaic/mosaic.py:225-232 | someone can move unless the mutex is free and every worker is over or on the wait list |
| `CondVar.SmallEnds` | course2/mosaic/examples/concurrency/cond-var.py:1-34 | with one producer and one consumer, or one producer more and a single round, nobody can move only when all rounds are over |
| `CondVar.RightWakeUp` | course2/mosaic/examples/concurrency/cond-var.py:17-20 | the reason: there the wait list holds no one but the worker that has to be woken |
| `CondVar.Unanswered` | course2/mosaic/examples/concurrency/cond-var.py:7-12 | with fewer producers than consumers, or too many rounds of producers, someone can end up asleep for good |
| `CondVar.WrongWakeUp` | course2/mosaic/examples/concurrency/cond-var.py:17-19 | with two producers and two consumers or more, whatever their numbers and rounds, a producer and a consumer can end up asleep for good |
| `CondVar.StuckExactly` | course2/mosaic/examples/concurrency/cond-var.py:1-34 | for any numbers: a run can get stuck before its end exactly if there is a round to do and there are neither equally many, at most one, of both kinds, nor one producer more than at most one consumer with a single round |
| `Fle.FieldReads` | course5/fle/fle.py:131 | a field written by i32 reads back as the signed number |
| `Fle.FitsExactly` | course5/fle/fle.py:131 | i32 accepts exactly the numbers that four bytes hold in two's complement |
| `Fle.UnderscoredIs` | course5/fle/fle.py:141 | the symbol of a section has its name with every dot replaced by an underscore, _rodata for .rodata |
| `Fle.SameLayout` | course5/fle/fle.py:134-176 | both passes put every entry at the same place, whatever the relocations come to |
| `Fle.TableIsFinal` | course5/fle/fle.py:134-152 | with consistent names the second pass does not change the symbol table |
| `Fle.Relocated` | course5/fle/fle.py:156-176 | in the image every PC-relative field holds S + A - P for the final addresses, forward or backward |
| `Fle.Placed` | course5/fle/fle.py:153-155 | every other byte is in its place |
| `Fle.LocalBeforeGlobal` | course5/fle/fle.py:160-170 | a file's own symbol comes before a global one, and either stands for the place where it is defined |
| `Fle.LinksExactly` | course5/fle/fle.py:134-176 | linking succeeds exactly if no global symbol is defined twice, every symbol is defined, and every field is in range in both passes |
| `Fle.Linker.AddItem` | course5/fle/fle.py:143-176 | one item changes the table and the image, or fails, as the format defines |
| `Fle.Linker.RunPass` | course5/fle/fle.py:137-176 | a pass over all sections and files is the pass over their items in order, up to the first error |
| `Fle.Ld` | course5/fle/fle.py:134-176 | two passes give the linked image and the table, or the first error |
| `FleText.DigitValueExact` | course5/fle/fle.py:79-81 | a hexadecimal digit is one of the sixteen, in either case, and nothing else |
| `FleText.LoadPrint` | course5/fle/fle.py:183-195 | loading the printed .load lines gives the image back, for every image |
| `FleText.Load` | course5/fle/fle.py:75-82 | the loop collects the bytes of the marked lines, or fails on a malformed number |
| `FleEmit.Emit` | course5/fle/fle.py:254-286 | the loop with holding and skip emits the items defined by its rounds |
| `FleEmit.EmitsFaithfully` | course5/fle/fle.py:254-286 | if fields do not overlap and no symbol lies inside one, the items take the space of the section, each stands for what the section has at its place, and no symbol before its end and no relocation is lost |
| `FleEmit.LabelledExactly` | course5/fle/fle.py:266-273 | a symbol has a label at its offset if and only if it lies inside the section |
| `FleEmit.EndSymbolLost` | course5/fle/fle.py:266-286 | a symbol at the end of a section of one byte is not among the items |
| `FleEmit.RelocatedInImage` | course5/fle/fle.py:232-286 | a relocation of the object becomes, at its offset from where its section was placed, the field S + A - P |
| `FleEmit.RelocatedExactly` | course5/fle/fle.py:244-252 | that is the value of the x86-64 psABI always for R_X86_64_PC32 and R_X86_64_PLT32, and for R_X86_64_32, which is S + A, exactly at place 0 |
| `FleEmit.AbsoluteExample` | course5/fle/fle.py:244-252 | an object whose R_X86_64_32 field holds -1 in the image, although S + A is 0 |
| `FleEmit.SymbolInImage` | course5/fle/fle.py:266-273 | a symbol of the object has as its address its offset from where its section was placed |
| `Labyrinth.Board.IsEmptySpace` | os2025/labyrinth/labyrinth.c:201-210 | true exactly on the empty cells of the map, and false outside it |
| `Labyrinth.Board.FindFirstEmptySpace` | os2025/labyrinth/labyrinth.c:186-199 | the first empty cell row by row, or none if there is none |
| `Labyrinth.Board.FindPlayer` | os2025/labyrinth/labyrinth.c:171-184 | the first cell of the player row by row, or none |
| `Labyrinth.Board.Dfs` | os2025/labyrinth/labyrinth.c:279-294 | ends; marks only empty cells joined with the start, and with every cell it marks all its empty neighbours |
| `Labyrinth.ClosedIsAll` | os2025/labyrinth/labyrinth.c:296-317 | a set of cells closed under neighbours and joined with one of them is everything exactly if all empty cells are connected |
| `Labyrinth.Board.IsConnected` | os2025/labyrinth/labyrinth.c:296-317 | true if and only if there is an empty cell and any two empty cells are joined by a path of 4-neighbours |
| `Labyrinth.FindTarget` | os2025/labyrinth/labyrinth.c:224-240 | up and down change the row by one, left and right the column; another word is refused |
| `Labyrinth.Board.MovePlayer` | os2025/labyrinth/labyrinth.c:212-256 | what a call does to the map: from the player's cell, or for an absent player from the first empty cell, to a free neighbour, or nothing |
| `Labyrinth.MoveKeepsExactly` | os2025/labyrinth/labyrinth.c:249-251 | a successful move keeps the set of empty cells exactly if the id is a digit or a dot |
| `Labyrinth.PlayKeepsEmptyCells` | os2025/labyrinth/labyrinth.c:212-256 | any sequence of calls with valid ids keeps the empty cells, and with them whether they are connected |
| `Labyrinth.BystanderKept` | os2025/labyrinth/labyrinth.c:214-217 | another player stays where it is exactly if the move does not start from its cell, which happens only to an absent player |
| `Labyrinth.BystanderLost` | os2025/labyrinth/labyrinth.c:214-251 | such a move erases player 1 |
| `Rv32Words.JalDecodes` | course1/mini-rv32ima/mini-rv32ima.h:145-150 | the offset is put together from the bits of the J format |
| `Rv32Words.BranchDecodes` | course1/mini-rv32ima/mini-rv32ima.h:160-163 | the offset is put together from the bits of the B format |
| `Rv32Words.StoreDecodes` | course1/mini-rv32ima/mini-rv32ima.h:215-217 | the offset is put together from the bits of the S format |
| `Rv32Words.LoadStored` | course1/mini-rv32ima/mini-rv32ima.h:199-246 | loading what was stored gives it back, for any width |
| `Rv32Words.StoreKeeps` | course1/mini-rv32ima/mini-rv32ima.h:240-246 | a store changes no other byte |
| `Rv32Words.DivisionLaw` | course1/mini-rv32ima/mini-rv32ima.h:264-281 | DIV and REM make up the dividend, also for a divisor of 0 and for the overflow |
| `Rv32Words.UnsignedDivisionLaw` | course1/mini-rv32ima/mini-rv32ima.h:270-287 | so do DIVU and REMU |
| `Rv32Words.ProductLaw` | course1/mini-rv32ima/mini-rv32ima.h:260-261 | MULH and MUL are the two halves of the signed product |
| `Rv32Words.MixedProductLaw` | course1/mini-rv32ima/mini-rv32ima.h:260-262 | MULHSU and MUL are the two halves of the mixed product |
| `Rv32Words.UnsignedProductLaw` | course1/mini-rv32ima/mini-rv32ima.h:260-263 | MULHU and MUL are the two halves of the unsigned product |
| `Rv32Alu.SignedIs` | course1/mini-rv32ima/mini-rv32ima.h:260-293 | the signed number of a word is the one in [-2^31, 2^31) that is congruent to it |
| `Rv32Alu.ShiftedLeft` | course1/mini-rv32ima/mini-rv32ima.h:292 | SLL drops the upper bits and appends zeros |
| `Rv32Alu.ShiftedRight` | course1/mini-rv32ima/mini-rv32ima.h:296 | SRL drops the lower bits and puts zeros in front |
| `Rv32Alu.ShiftedSigned` | course1/mini-rv32ima/mini-rv32ima.h:296 | SRA drops the lower bits and puts copies of the sign bit in front |
| `Rv32Alu.XorBits` | course1/mini-rv32ima/mini-rv32ima.h:295 | XOR is the exclusive or of each pair of bits |
| `Rv32Alu.OrBits` | course1/mini-rv32ima/mini-rv32ima.h:297 | OR is that of each pair of bits |
| `Rv32Alu.AndBits` | course1/mini-rv32ima/mini-rv32ima.h:298 | AND is that of each pair of bits |
| `Rv32Alu.ComputeMeans` | course1/mini-rv32ima/mini-rv32ima.h:250-301 | each of the eighteen instructions OP and OP-IMM means what the manual says: ADD and SUB modulo 2^32, shifts and logic bit by bit, SLT and SLTU as orders, products as halves, quotients and remainders by division toward zero |
| `Rv32Isa.JalReadBack` | course1/mini-rv32ima/mini-rv32ima.h:145-150 | JAL with any even offset of 21 bits is decoded to that offset |
| `Rv32Isa.BranchReadBack` | course1/mini-rv32ima/mini-rv32ima.h:161-165 | a branch with any even offset of 13 bits is decoded to that offset and its registers |
| `Rv32Isa.Fields` | course1/mini-rv32ima/mini-rv32ima.h:137-181 | the fields of an instruction are read back from its format |
| `Rv32Isa.TakenHolds` | course1/mini-rv32ima/mini-rv32ima.h:168-176 | the six branches are taken as equality and as the orders of signed and of unsigned numbers |
| `Rv32Isa.Opposites` | course1/mini-rv32ima/mini-rv32ima.h:168-176 | of a branch and its opposite exactly one is taken |
| `Rv32Isa.UpperObeys` | course1/mini-rv32ima/mini-rv32ima.h:141-144 | LUI loads the upper twenty bits; AUIPC adds them to the pc |
| `Rv32Isa.JalObeys` | course1/mini-rv32ima/mini-rv32ima.h:145-152 | JAL goes to the pc plus its offset and keeps the address of the next instruction |
| `Rv32Isa.JalrObeys` | course1/mini-rv32ima/mini-rv32ima.h:153-159 | JALR goes to its register plus its offset, with the lowest bit cleared, and keeps the address of the next instruction |
| `Rv32Isa.BranchObeys` | course1/mini-rv32ima/mini-rv32ima.h:160-181 | a branch goes to the pc plus its offset if its condition holds, and otherwise on |
| `Rv32Isa.LoadObeys` | course1/mini-rv32ima/mini-rv32ima.h:182-211 | a load from RAM gives the bytes there, the lowest first, extended by sign or zeros as its name says |
| `Rv32Isa.StoreObeys` | course1/mini-rv32ima/mini-rv32ima.h:212-249 | a store to RAM writes the bytes of its register, the lowest first, and no other |
| `Rv32Isa.OpObeys` | course1/mini-rv32ima/mini-rv32ima.h:250-303 | an instruction on two registers writes what ComputeMeans says to its register and goes on |
| `Rv32Isa.OpImmObeys` | course1/mini-rv32ima/mini-rv32ima.h:250-303 | so does one with an immediate, which is extended by its sign; of a shift it is five bits |
| `Rv32Isa.AmoObeys` | course1/mini-rv32ima/mini-rv32ima.h:383-428 | an AMO gives the word that was in RAM and leaves there the sum, the bits combined, or the smaller or larger of the two, signed or unsigned |
| `Rv32Isa.CsrObeys` | course1/mini-rv32ima/mini-rv32ima.h:307-351 | a CSR instruction reads the register that its number names, and writes it, or sets or clears the bits of its operand in it; no other register changes |
| `Rv32Isa.StepObeys` | course1/mini-rv32ima/mini-rv32ima.h:84-472 | for every instruction of these kinds, encoded in its format: a step that executes it does what the manual says of it |
| `Rv32Machine.TrapReturns` | course1/mini-rv32ima/mini-rv32ima.h:359-364 | MRET gives back the mode and the interrupt bit that a trap saved; in between interrupts are off |
| `Rv32.Cpu.Load` | course1/mini-rv32ima/mini-rv32ima.h:182-211 | a load reads RAM inside its range, the timer, or traps |
| `Rv32.Cpu.Store` | course1/mini-rv32ima/mini-rv32ima.h:212-249 | a store writes the bytes of its width to RAM inside its range, or the timer, or leaves by SYSCON, or traps and changes nothing |
| `Rv32Machine.SystemKeeps` | course1/mini-rv32ima/mini-rv32ima.h:306-382 | a CSR instruction returns the register it names and can change only what a program may write: not the pc, the mode, the counters or the reservation; WFI changes the two bits that put the processor to sleep and no other; MRET brings back the saved mode and interrupt bit |
| `Rv32.Cpu.AtomicMemory` | course1/mini-rv32ima/mini-rv32ima.h:383-428 | LR.W reserves its place; SC.W succeeds and stores exactly if its place is the reservation; the others read and write one word, or trap and change nothing |
| `Rv32Machine.ExecutedFacts` | course1/mini-rv32ima/mini-rv32ima.h:140-435 | whatever its kind, an instruction that traps has changed no memory and no control register; none touches timer or cycle counter, and only an LR.W in range the reservation |
| `Rv32Machine.StepReserves` | course1/mini-rv32ima/mini-rv32ima.h:401-408 | a step that executes an LR.W in range reserves its place; no other step changes the reservation; x0 stays 0 |
| `Rv32Machine.RunReserves` | course1/mini-rv32ima/mini-rv32ima.h:401-408 | in every state of every run the reservation is the place of the last LR.W, or 0 if there was none, and x0 is 0 |
| `Rv32Machine.RunConditional` | course1/mini-rv32ima/mini-rv32ima.h:405-408 | in every run, an SC.W in range returns 0 and stores its word if its place is that of the last LR.W, or 0 if there was none, and otherwise returns 1 and changes no byte |
| `Rv32Machine.SecondConditional` | course1/mini-rv32ima/mini-rv32ima.h:405-408 | of two SC.W in a row to one place, both succeed or neither |
| `Rv32Machine.UnreservedConditional` | course1/mini-rv32ima/mini-rv32ima.h:405-408 | in a run without any LR.W, an SC.W succeeds exactly at the start of RAM |
| `Rv32Machine.UnreservedExample` | course1/mini-rv32ima/mini-rv32ima.h:405-408 | a zeroed processor whose first instruction is such an SC.W: the run exists, and the word is overwritten |
| `Rv32Machine.TwiceExample` | course1/mini-rv32ima/mini-rv32ima.h:405-408 | a zeroed processor with two such SC.W in a row: in the run of two steps both report success and store |
| `Rv32Machine.StepTraps` | course1/mini-rv32ima/mini-rv32ima.h:124-471 | a step that traps or sleeps changes no register and no byte of memory |
| `Rv32.Cpu.Tick` | course1/mini-rv32ima/mini-rv32ima.h:89-106 | the timer is one 64-bit number, and its interrupt is pending exactly when it has passed a nonzero match |
| `Rv32.Cpu.EnterTrap` | course1/mini-rv32ima/mini-rv32ima.h:444-465 | cause, place and mode are saved, and the handler is entered in machine mode |
| `Rv32.Cpu.CountCycle` | course1/mini-rv32ima/mini-rv32ima.h:467-469 | the cycle counter is one 64-bit number |
| `Rv32.Cpu.Finish` | course1/mini-rv32ima/mini-rv32ima.h:433-471 | after a trap no register is written and the handler is entered; nothing is ever written to x0 |
| `Rv32.Cpu.FetchAndRun` | course1/mini-rv32ima/mini-rv32ima.h:124-471 | an instruction is fetched only from an aligned place inside RAM, and executed; otherwise the fetch traps |
| `Rv32.Cpu.Step` | course1/mini-rv32ima/mini-rv32ima.h:84-472 | a call is a step of the machine whose runs the lemmas above are about, and does what the manual says of the instruction at its pc; a trap enters the handler and, like sleep, changes no register and no byte; timer and cycle counter, both 64 bits, go on |
| `Rv32.Cpu.constructor` | course1/mini-rv32ima/mini-rv32ima.h:75-82 | a zeroed processor is the start of a run |

## Left out

- Kconfig: symbols of type int, hex and string, symbols of unknown type other than y, m and n, E_CHOICE and E_RANGE nodes, choices, the loop over properties and reverse dependencies, and the hoisting of entries without a prompt.
- KconfigMenu.Finalize: does not model entries that already have a list of their own, whose entries inherit dependencies (`InheritDep`, `InheritVisibility`) and are finalized one by one.
- Kconfig: expressions are values; the chain whose terms `expr_eliminate_dups1` and `expr_eliminate_dups2` overwrite through pointers is a sequence of terms with the shape of its tree, and the global `trans_count` is a result.
- bzip2: the file header, the signatures, the symbol map and the selector list of a block header (DecodeBlock starts at the tables), the file-level CRC and its mismatch, the partial output with `len != 0`, and the release of memory.
- BunzipData.ApplySymbol: does not model the overflow of `runPos` and `hh`; `RunFitsInt` says that it takes more than thirty digits, and no run that fits a block has so many.
- BunzipData.ReadHuffmanData: does not model that overflow either.
- Bunzip.DecodeData: returns after an error, where the source still prepares the block and keeps the error; with an `origPtr` outside the data the source then reads a word that is not part of the block, one behind the buffer if `origPtr` is its size, and does not use it.
- Bunzip.DecodeBlock: leaves the same out.
- SymbolLayer.EncodeDecodes: does not cover a block without any symbol, because its end-of-block symbol would be a run symbol.
- Huffman.DecodeSymbol: does not model the value read from `base[maxLen+1]` before the test that discards it.
- Sha1.Context.Update: does not model a single call with more than 2^32 - 1 bytes, where the length would wrap, nor the wiping of the context; the words overlaid with the buffer are an array of their own.
- Crc.DoCksum: does not model a failing read or the printing of the result.
- Hanoi.Run: does not model the 32-bit wrap of the count; `FitsInt` says from where on it matters.
- MutualRecursion.StagedFG: does not model the 32-bit wrap of `ans`, and neither does `PairedFG`; a flag other than 0 and 1 is not modelled.
- MosaicCheck.Check: needs a finite set of reachable hash codes to end; replaying a trace from the start is a function of the trace, and generators, forks, devices and the random run are not modelled.
- Fle.Ld: relocation expressions are those that the converter writes, `i32(symbol + addend - here)`; the grouping of sections by name, the JSON form and the file mode are not modelled.
- FleEmit.Emit: starts from section bytes, symbols and relocations; calling the ELF tools and reading their output is not modelled.
- FleText.Load: a number is a string of hexadecimal digits; signs, prefixes and underscores that Python would also accept are errors here.
- Labyrinth.Board.MovePlayer: does not model saving and printing the map, and neither is loading modelled.
- Rv32Isa.StepObeys: loads, stores and AMOs outside RAM, FENCE, WFI, MRET, ECALL, EBREAK, LR.W and SC.W are not among the instructions it speaks of; what they do is stated by `Load`, `Store`, `SystemKeeps`, `ExecutedFacts` and `RunConditional`.
- Rv32.Cpu.Step: memory sizes are multiples of 4 from 4 to 2^29, and the processor starts zeroed; devices other than the timer and SYSCON do not exist in the source either.
- Demonstrations of processes, files and terminals, the laboratory stubs, the language model in C, the other toybox commands and the OpenSBI headers: they are input and output, calls into the operating system, floating-point arithmetic without a stated law, or declarations.
