# FastECU models and proofs

Models, in Dafny, of the deterministic cores of FastECU, with proofs of what they promise.
Everything here is in-memory logic over unbounded inputs: ROM images, checksum layouts, scaling
expressions, ROM-cipher keys, calibration edits and the bench erase gate.
`dafny verify dfyconfig.toml` checks the whole project.

## How the parts fit

- **Expressions** (`expression.dfy`, `expression_parser.dfy`, `expression_printer.dfy`,
  `expression_text.dfy`, `formula_scan.dfy`). The recursive-descent compiler that folds constants and emits postfix code is
  proved against a non-folding grammar, the stack machine against a recursive meaning, and the
  grammar against an independent printer; what each character does to the values is told from the text
  alone. Numbers are an abstract type with any operations, so the
  theorems do not depend on IEEE arithmetic; literal scanning is an oracle that makes progress.
- **ROM image** (`memory_map.dfy`, `memory_slices.dfy`, `memory_image.dfy`, `catalog.dfy`). The
  layout validator yields a bijection between file-backed addresses and file offsets, and the image
  behaves as a plain address-to-byte function over every history of writes.
- **Checksums** (`checksum_rules.dfy`, `checksum_primitives.dfy`, `checksum_hitachi.dfy`,
  `checksum_tcu.dfy`, `checksum_mitsu.dfy`, `denso_table.dfy`, `crc.dfy`, `checksum_dispatch.dfy`,
  `checksum_families.dfy`, `checksum_layouts.dfy`).
  A generic theorem about ordered store and balance steps is instantiated on the fixed layouts; the
  families that need two passes come with the exact condition for one pass and a failing ROM. Every
  layout is also told in literal ROM positions.
- **ROM cipher keys** (`subaru_cipher.dfy`, `function_inverse.dfy`, `key_statistics.dfy`,
  `key_recovery.dfy`), for any S-box of 32 nibbles.
- **Calibration edits** (`calibration_storage.dfy`, `calibration_decode.dfy`,
  `calibration_edit.dfy`, `calibration_agreement.dfy`, `calibration_selection.dfy`,
  `calibration_paste.dfy`, `calibration_bytes.dfy`). Edits and the decoder are shown to agree on every byte: the contract of
  each user edit says what the decoder reads from every cell afterwards.
- **Bench erase gate** (`bench_gate.dfy`), over every run of every plan with any failures.
- `bytes.dfy` holds the buffer accessors and the exclusive or as arithmetic; integer widths are
  written out as remainders. `results.dfy` holds options and results.

Five places where the code does not do what one might expect are modelled as the code has them, each
with its exact condition:

- The SH7058 correction does not count its rebalance as a change when it reports its status
  (`src/algorithms/checksum/checksum_ecu_subaru_hitachi_sh7058.cpp:60-64`). Its report of no change
  is right exactly when checksum 5 held beforehand (`ChecksumHitachi.ShStatusExact`); every settled
  ROM has neighbours where it is wrong (`ShStatusMisleads`). The comment heading that file gives
  other addresses (window from 0x18000, slots near 0x7ffe8) than the code uses (0x18400 and
  0xfffe8); the model has the code's.
- The M32R CAN correction compares checksum 6 and reports a mismatch as corrected without writing
  it (`src/algorithms/checksum/checksum_ecu_subaru_hitachi_m32r_can.cpp:108-114`): exactly when
  checksums 1 to 5 hold and 6 does not, a correction is reported and no byte changes
  (`ChecksumHitachi.CanStatusExact`, `CanStatusMisleads`).
- One pass of the M32R K-Line correction and of the TCU correction does not always settle. The
  exact conditions are `ChecksumHitachi.KlineOnePass` and `ChecksumTcu.OnePass`. The TCU's second
  stored copy is never compared: `ChecksumTcu.SecondCopy` tells when it is right after a pass, and
  `SecondCopyStays` gives the ROMs where it stays wrong.
- A Denso table whose blocks cover stored checksum words need not hold after one correction: it does
  exactly when the words' changes add up to a multiple of 2^32 in every block
  (`DensoTable.TableHoldsIff`).
- A script is to exit with its first failure's code (`apps/bench/bench_driver.cpp:74`). One that keeps
  going after a failed ports line and then cannot open its session returns the session's code
  instead (`BenchGate.SetupHidesFailure`); `FirstFailureReturned` is the exact condition.

Assumptions the proofs name: a literal scan that succeeds consumes at least one and at most all
characters (`Valid`); trailing white space does not change a scan (`IgnoresTrailingSpace`); negation
keeps a value finite (`NegationKeepsFinite`); a definition window ends below the last two 64-bit
addresses (`Rom.Valid`), as the overflow sentinel presumes; linear interpolation between finite
values is exact at its ends (`ExactEnds`), which holds of doubles when the two zeros are identified.

## Model

| member | source | states |
|---|---|---|
| `Expression.FoldingKeepsMeaning` | src/algorithms/expression/expression.cpp:141-256 | for every tree and every x, a subexpression folded to a constant evaluates to that constant, and a tree rejected while folding fails to evaluate with an arithmetic error |
| `Expression.CodeRuns` | src/algorithms/expression/expression.cpp:317-349 | running a tree's postfix code before any further code pushes exactly the tree's value, or stops with the tree's own error, on every stack |
| `Expression.CodeBalanced` | src/algorithms/expression/expression.cpp:317-349 | a tree's code never takes from an empty stack and leaves one value more than it found |
| `Expression.CompiledMeaning` | src/algorithms/expression/expression.cpp:317-349 | a whole program started on the empty stack ends with exactly one value, the recursive meaning of the tree, or with the same error |
| `Expression.Evaluate` | src/algorithms/expression/expression.cpp:317-349 | the evaluation loop over a mutable stack computes the machine's result on every balanced program; a non-finite input is an error |
| `Expression.FiniteValue` | src/algorithms/expression/expression.cpp:35-70 | evaluation never yields a non-finite value |
| `Expression.InputInstruction` | src/algorithms/expression/expression.cpp:192-241 | a program contains the input instruction exactly when its tree mentions the input |
| `Expression.ConstantTree` | src/algorithms/expression/expression.cpp:192-241 | a tree without the input has one value for all inputs |
| `ExpressionParser.Parser.SkipWhitespace` | src/algorithms/expression/expression.cpp:101-107 | leaves the position at the next character that is not white space |
| `ExpressionParser.Parser.Consume` | src/algorithms/expression/expression.cpp:109-118 | takes the token exactly when it is next after white space |
| `ExpressionParser.Parser.Sum` | src/algorithms/expression/expression.cpp:120-139 | agrees with the non-folding grammar on every text, position and nesting: same tree's code, same end, and on failure the first error, that of an operand completed earlier that does not fold or else the syntax error; terminates on every text |
| `ExpressionParser.Parser.Product` | src/algorithms/expression/expression.cpp:141-164 | the same for products, where a constant zero divisor is an error before the operation is emitted |
| `ExpressionParser.Parser.Unary` | src/algorithms/expression/expression.cpp:166-190 | the same for a run of signs, which is one negation or none |
| `ExpressionParser.Parser.Primary` | src/algorithms/expression/expression.cpp:192-241 | the same for the input, literals and parentheses, nesting at most eight deep |
| `ExpressionParser.Parser.EmitBinary` | src/algorithms/expression/expression.cpp:243-256 | emits one operation and folds two constants with its checked result |
| `ExpressionParser.Parser.CompileAll` | src/algorithms/expression/expression.cpp:80-94 | the whole text must be read; the error is the first one met, of folding or of syntax |
| `ExpressionParser.Compile` | src/algorithms/expression/expression.cpp:298-315 | succeeds exactly when the text parses and folds, and the program is then the balanced code of the parsed tree; otherwise the error is determined by the text; a blank text is the input |
| `ExpressionParser.EvaluateChecked` | src/algorithms/expression/expression.cpp:351-355 | gives a value exactly when the input is finite, the text parses and its tree has that value, so folding and the stack machine cannot be observed; every failure's error is determined: of the text, of folding, of the input or of evaluation, in this order |
| `ExpressionParser.EvaluatesToFinite` | src/algorithms/expression/expression.cpp:35-50 | every value of every text is finite |
| `ExpressionPrinter.PrintParses` | src/algorithms/expression/expression.cpp:80-241 | an independent printer fixes precedence, left association, signs and parentheses: parsing what it prints gives the tree back, for every tree that nests no deeper than the parser allows |
| `ExpressionPrinter.PrintReads` | src/algorithms/expression/expression.cpp:120-241 | the same inside a larger text, for each grammar level and every permitted continuation |
| `ExpressionPrinter.SumDepth` | src/algorithms/expression/expression.cpp:120-241 | a tree read at some nesting never prints deeper than the parser allows there: the printer needs no parentheses that the text did not have; likewise for each grammar level |
| `ExpressionPrinter.Reprints` | src/algorithms/expression/expression.cpp:80-241 | so the printer covers every text that parses: printing its tree and parsing again gives the tree back |
| `ExpressionText.BinaryText` | src/algorithms/expression/expression.cpp:52-70 | for operand texts that evaluate to u and v, the text with + - * or / between them evaluates to the sum, difference, product or quotient of u and v in this order, checked to be finite, and a quotient by zero to its error |
| `ExpressionText.AtomText` | src/algorithms/expression/expression.cpp:192-241 | the text x evaluates to the input and a literal to its number |
| `ExpressionText.SignText` | src/algorithms/expression/expression.cpp:166-190 | a run of signs of any length before a primary is a negation when its minus signs are odd in number, and nothing otherwise |
| `ExpressionText.NegatedText` | src/algorithms/expression/expression.cpp:166-190 | a minus sign before a primary negates its value |
| `ExpressionText.NestingLimit` | src/algorithms/expression/expression.cpp:192-210 | n parentheses around the input parse for n up to eight; with more the error is after the ninth |
| `ExpressionText.LiteralText` | src/algorithms/expression/expression.cpp:192-241 | a text that starts with a digit or a point is read by the number scan or is an error; a character that starts no operand is an error at its place |
| `ExpressionText.MissingOperand` | src/algorithms/expression/expression.cpp:120-241 | an operator with nothing after it is an error at the end of the text |
| `ExpressionText.UnbalancedParenthesis` | src/algorithms/expression/expression.cpp:80-94 | an unclosed parenthesis is an error at the end, and a parenthesis too many one at its place |
| `ExpressionText.WhitespaceIs` | src/algorithms/expression/expression.cpp:16-20 | the six white-space characters |
| `FormulaScan.UsesCurrentValue` | src/backend/calibration/numeric_map_edit.cpp:211-246 | the loop over the remaining text computes the token scan; a blank formula counts as the input |
| `FormulaScan.ScanByToken` | src/backend/calibration/numeric_map_edit.cpp:218-244 | the scan token by token: what counts as the input, what is skipped and what ends it without an answer |
| `FormulaScan.ScannerAgrees` | src/backend/calibration/numeric_map_edit.cpp:211-246 | for every formula that parses, the scanner succeeds and answers true exactly when the compiled program contains the input instruction |
| `FormulaScan.ConstantFormula` | src/backend/calibration/numeric_map_edit.cpp:325-348 | a formula the scanner calls constant has the same value at any two inputs |
| `MemoryMap.CheckTiling` | src/algorithms/memory/memory_map.cpp:43-72 | the cursor loop accepts sorted file ranges exactly when each file byte lies in exactly one of them |
| `MemoryMap.CheckFilePlacement` | src/algorithms/memory/memory_map.cpp:30-73 | succeeds exactly when the file-backed blocks place each file byte once and no byte beyond the file |
| `MemoryMap.Create` | src/algorithms/memory/memory_map.cpp:75-106 | succeeds exactly when the file and the blocks are non-empty, the blocks ordered and disjoint, no fill block writable and each file byte placed once |
| `MemorySlices.LayoutByBlocks` | src/algorithms/memory/memory_map.cpp:75-106 | the accepted layouts, block by block: in order, no fill block writable, the file-backed blocks hold exactly the bytes of the file and no two the same |
| `MemorySlices.BlockAtFinds` | src/algorithms/memory/memory_map.cpp:142-154 | in ordered blocks the search names block i exactly when block i contains the address |
| `MemorySlices.OffsetInFile` | src/algorithms/memory/memory_map.cpp:193-207 | every file-backed address has an offset inside the file |
| `MemorySlices.OffsetsDistinct` | src/algorithms/memory/memory_map.cpp:75-106 | in a valid map no two addresses share a file offset |
| `MemorySlices.OffsetsCovered` | src/algorithms/memory/memory_map.cpp:75-106 | in a valid map every file offset has an address: with the two rows above, a bijection |
| `MemorySlices.Slices` | src/algorithms/memory/memory_map.cpp:161-185 | terminates with abutting ordered slices that cover exactly the range, each naming the block, or gap, that the search finds for every one of its addresses |
| `MemorySlices.FileOffsetOf` | src/algorithms/memory/memory_map.cpp:187-191 | returns an offset exactly when one file-backed block holds the whole range, and it is the first address's offset |
| `MemorySlices.FileStartIsOffset` | src/algorithms/memory/memory_map.cpp:193-207 | a slice's file start is the offset of its first address |
| `MemoryImage.CheckedSlices` | src/algorithms/memory/memory_image.cpp:54-67 | fails exactly when some address is not allowed, with the first such address and its reason |
| `MemoryImage.CreateImage` | src/algorithms/memory/memory_image.cpp:89-98 | an image is made exactly from a file of the map's size |
| `MemoryImage.Image.Render` | src/algorithms/memory/memory_image.cpp:110-132 | shows at each address the file byte or the fill byte; otherwise the first address outside every block |
| `MemoryImage.Image.CheckWrite` | src/algorithms/memory/memory_image.cpp:134-152 | predicts the success, or the first failing address and reason, of the write of that place and size |
| `MemoryImage.Image.Write` | src/algorithms/memory/memory_image.cpp:154-181 | an accepted write changes exactly the bytes shown in its range, across all its slices; a rejected one changes nothing; the outcome is the predicted one |
| `MemoryImage.HistoryShows` | src/algorithms/memory/memory_image.cpp:110-181 | over every history of accepted and rejected writes the image is a plain address-to-byte function: the last accepted byte, else the original one |
| `MemoryImage.FillNeverWritten` | src/algorithms/memory/memory_image.cpp:32-50 | no history changes an address that is not in a writable file-backed block |
| `MemoryImage.ShownByBlock` | src/algorithms/memory/memory_image.cpp:22-50 | an address shows the fill value of its block, or the file byte as far into the block's part of the file as the address is into the block; writing fails in a fill block and in a read-only one, each with its reason; reading never does |
| `MemoryImage.ShownNowhere` | src/algorithms/memory/memory_image.cpp:22-30 | an address in no block shows nothing and is unmapped for reading and writing |
| `MemoryImage.FirstErrorIs` | src/algorithms/memory/memory_image.cpp:54-67 | the error reported belongs to the first address that has one |
| `MemoryImage.WriteOutcomeIs` | src/algorithms/memory/memory_image.cpp:134-152 | a write of nothing is accepted, one past the 32-bit space is unmapped at its start, any other is decided by its first address that cannot be written |
| `MemoryImage.FileDetermined` | src/algorithms/memory/memory_image.cpp:110-132 | two files that show the same bytes at every address are equal |
| `Catalog.FileSize` | src/backend/config/catalog.h:52-64 | the loop gives the furthest file end, saturated at the 32-bit limit |
| `Catalog.FileEndIsFurthest` | src/backend/config/catalog.h:52-64 | no file-backed block ends later than the furthest file end, and one ends there unless there is none |
| `Catalog.LinearArgumentsAre` | src/backend/config/catalog.h:128-144 | the arguments that compile: a non-empty file ending inside the 32-bit space and segments in order that start inside it |
| `Catalog.LinearBlockIs` | src/backend/config/catalog.h:114-151 | each linear block runs from its start to the next segment's, or the file's end, and holds the file bytes from its distance to the first start on |
| `Catalog.LinearPlacements` | src/backend/config/catalog.h:114-151 | the blocks of the first n segments place each file byte below their end once and none beyond |
| `Catalog.LinearAccepted` | src/backend/config/catalog.h:114-151 | every list of linear blocks with its own file size is a layout the map accepts |
| `ChecksumRules.CorrectHolds` | src/algorithms/checksum/checksum_primitives.cpp:43-63 | storing a checksum, or rebalancing a slot inside its own window, makes that checksum hold on every ROM |
| `ChecksumRules.RunHolds` | src/algorithms/checksum/checksum_ecu_subaru_hitachi_m32r_can.cpp:33-89 | for every list of store and balance steps where each slot lies outside all earlier windows and slots, all checksums hold at the end of one pass |
| `ChecksumRules.RunIdempotent` | src/algorithms/checksum/checksum_ecu_subaru_hitachi_m32r_can.cpp:33-89 | a second pass of such a list changes no byte, and a pass changes nothing exactly when all checksums already held |
| `ChecksumRules.RunFrame` | src/algorithms/checksum/checksum_ecu_subaru_hitachi_m32r_can.cpp:33-89 | a pass changes no byte outside the slots |
| `ChecksumRules.PassStatus` | src/algorithms/checksum/checksum_ecu_subaru_hitachi_m32r_can.cpp:31-89 | the comparisons made along the way all succeed exactly when every checksum held at the start |
| `ChecksumRules.TwoPasses` | src/algorithms/checksum/checksum_ecu_subaru_hitachi_m32r_kline.cpp:32-71 | steps written in the wrong order still reach a ROM where all hold after two passes |
| `ChecksumPrimitives.FoldPieceU32Be` | src/algorithms/checksum/checksum_primitives.cpp:55-63 | the word loop adds the piece's wrapped sum and exclusive or to the running fold |
| `ChecksumPrimitives.FoldU32Be` | src/algorithms/checksum/checksum_primitives.cpp:55-63 | the fold over several pieces is the window's sum modulo 2^32 and its exclusive or |
| `ChecksumPrimitives.FoldBytesOutside` | src/algorithms/checksum/checksum_ecu_subaru_hitachi_m32r_kline.cpp:32-41 | the byte loop that skips a hole computes the 8-bit sum and exclusive or of the two pieces around it |
| `ChecksumPrimitives.RebalanceU16Be` | src/algorithms/checksum/checksum_primitives.cpp:43-47 | the slot moves by target minus observed modulo 2^16; nothing else changes, and nothing at all out of range |
| `ChecksumPrimitives.RebalanceU32Be` | src/algorithms/checksum/checksum_primitives.cpp:49-53 | the same modulo 2^32 |
| `ChecksumHitachi.CorrectM32rCan` | src/algorithms/checksum/checksum_ecu_subaru_hitachi_m32r_can.cpp:6-128 | one pass is the run of rules 1 to 5; unchanged is reported exactly when these and checksum 6 held at the start, though 6 is never written |
| `ChecksumHitachi.CanSettled` | src/algorithms/checksum/checksum_ecu_subaru_hitachi_m32r_can.cpp:33-89 | for every ROM one pass makes checksums 1 to 5 hold at once and a second changes no byte |
| `ChecksumHitachi.CanStatusExact` | src/algorithms/checksum/checksum_ecu_subaru_hitachi_m32r_can.cpp:108-127 | a correction is reported with no byte changed exactly when checksums 1 to 5 hold and 6 does not; a ROM reported unchanged is unchanged |
| `ChecksumHitachi.CanStatusMisleads` | src/algorithms/checksum/checksum_ecu_subaru_hitachi_m32r_can.cpp:108-127 | for any ROM, once a pass has settled it every byte at 0x10000 but one gives such a case: the pass changes nothing and reports a correction, again and again |
| `ChecksumHitachi.CorrectSh7058` | src/algorithms/checksum/checksum_ecu_subaru_hitachi_sh7058.cpp:6-101 | one pass is the run of store, rebalance, store; the status follows the four stored checksums and ignores the rebalance |
| `ChecksumHitachi.ShSettled` | src/algorithms/checksum/checksum_ecu_subaru_hitachi_sh7058.cpp:31-87 | for every ROM one pass makes all five checksums hold and a second changes no byte |
| `ChecksumHitachi.ShStatusExact` | src/algorithms/checksum/checksum_ecu_subaru_hitachi_sh7058.cpp:54-101 | for every ROM, no byte changes exactly when the status is unchanged and checksum 5 held beforehand, which a caller can check |
| `ChecksumHitachi.ShStatusMisleads` | src/algorithms/checksum/checksum_ecu_subaru_hitachi_sh7058.cpp:58-64 | every settled ROM with any other word in the balance slot is reported unchanged while the pass rewrites it to the settled ROM |
| `ChecksumRules.BalanceUnique` | src/algorithms/checksum/checksum_primitives.cpp:49-53 | only one word in the balance slot makes the checksum hold |
| `ChecksumHitachi.CorrectM32rKline` | src/algorithms/checksum/checksum_ecu_subaru_hitachi_m32r_kline.cpp:6-85 | one pass is the run of the two byte stores and the balance; unchanged exactly when all three held |
| `ChecksumHitachi.KlineSettled` | src/algorithms/checksum/checksum_ecu_subaru_hitachi_m32r_kline.cpp:32-71 | for every ROM one pass establishes the balanced checksum and two passes reach a fixed point where all hold |
| `ChecksumHitachi.KlineOnePass` | src/algorithms/checksum/checksum_ecu_subaru_hitachi_m32r_kline.cpp:32-71 | one pass is enough exactly when the rebalanced half-word's two bytes keep their 8-bit sum and exclusive or |
| `ChecksumHitachi.KlineOnePassFails` | src/algorithms/checksum/checksum_ecu_subaru_hitachi_m32r_kline.cpp:57-71 | the all-zero ROM is one where a single pass does not settle |
| `ChecksumLayouts.CanByAddress` | src/algorithms/checksum/checksum_ecu_subaru_hitachi_m32r_can.cpp:33-89 | checksums 1 to 5 in literal ROM positions: what each sums or folds, where it is stored, and the balance target |
| `ChecksumLayouts.CanSixByAddress` | src/algorithms/checksum/checksum_ecu_subaru_hitachi_m32r_can.cpp:90-114 | checksum 6 in literal positions |
| `ChecksumLayouts.CanWrites` | src/algorithms/checksum/checksum_ecu_subaru_hitachi_m32r_can.cpp:24-89 | a pass changes no byte outside 0x7ffe8 to 0x7fff7 and 0x7fffa to 0x7fffb |
| `ChecksumLayouts.ShByAddress` | src/algorithms/checksum/checksum_ecu_subaru_hitachi_sh7058.cpp:31-87 | the five SH7058 checksums in literal positions |
| `ChecksumLayouts.ShWrites` | src/algorithms/checksum/checksum_ecu_subaru_hitachi_sh7058.cpp:23-87 | a pass changes no byte outside 0xfffe8 to 0xffffb |
| `ChecksumLayouts.KlineByAddress` | src/algorithms/checksum/checksum_ecu_subaru_hitachi_m32r_kline.cpp:27-71 | the three K-Line checksums in literal positions |
| `ChecksumLayouts.KlineWrites` | src/algorithms/checksum/checksum_ecu_subaru_hitachi_m32r_kline.cpp:22-71 | a pass changes no byte outside 0x8100, 0x8101 and 0x7fffa to 0x7fffb |
| `ChecksumLayouts.XorUpdate` | src/algorithms/checksum/checksum_primitives.cpp:55-63 | one unit of a window counts once in its exclusive or |
| `ChecksumTcu.Checksum2Field` | src/algorithms/checksum/checksum_tcu_subaru_hitachi_m32r_can.cpp:12-21 | the field is the window sum with its bytes complemented and the lowest negated |
| `ChecksumTcu.CorrectTcu` | src/algorithms/checksum/checksum_tcu_subaru_hitachi_m32r_can.cpp:25-80 | rejects other sizes untouched; otherwise one pass balances and rewrites both copies when the first was wrong, with the status of the two comparisons |
| `ChecksumTcu.OnePass` | src/algorithms/checksum/checksum_tcu_subaru_hitachi_m32r_can.cpp:44-67 | the balance always holds after one pass; the stored field does too unless it matched while the balance was wrong, and then never |
| `ChecksumTcu.TwoPassesSettle` | src/algorithms/checksum/checksum_tcu_subaru_hitachi_m32r_can.cpp:44-67 | on every accepted ROM two passes reach a fixed point where both hold |
| `ChecksumTcu.SecondCopy` | src/algorithms/checksum/checksum_tcu_subaru_hitachi_m32r_can.cpp:56-67 | after a pass the copy at 0x8004, which is never compared, is right exactly when both copies were rewritten or it already held the balanced ROM's field; on a settled ROM a wrong one is never repaired |
| `ChecksumTcu.SecondCopyStays` | src/algorithms/checksum/checksum_tcu_subaru_hitachi_m32r_can.cpp:56-67 | every settled ROM with any other word at 0x8004 is such a case: the pass changes nothing, the first copy is right and the second wrong |
| `ChecksumTcu.OnePassFails` | src/algorithms/checksum/checksum_tcu_subaru_hitachi_m32r_can.cpp:44-67 | a ROM on which one pass leaves the field wrong |
| `ChecksumLayouts.TcuBalanceByAddress` | src/algorithms/checksum/checksum_tcu_subaru_hitachi_m32r_can.cpp:44-54 | the balanced sum runs from 0x8020 to the end and must be 0x5aa5a55a |
| `ChecksumLayouts.TcuFieldByAddress` | src/algorithms/checksum/checksum_tcu_subaru_hitachi_m32r_can.cpp:12-21 | the four bytes at 0x8000 are the sum of all words outside the two fields, each byte complemented and the lowest negated |
| `ChecksumLayouts.TcuAccepts` | src/algorithms/checksum/checksum_tcu_subaru_hitachi_m32r_can.cpp:31-37 | sizes below 0x8024 or not a multiple of four are refused |
| `ChecksumLayouts.TcuWrites` | src/algorithms/checksum/checksum_tcu_subaru_hitachi_m32r_can.cpp:44-67 | a pass changes no byte outside 0x8000 to 0x8007 and 0x8020 to 0x8023 |
| `ChecksumMitsu.ErasedSum` | src/algorithms/checksum/checksum_ecu_mitsu_m32r_can.cpp:82-92 | subtracting the correction words and adding erased ones is the sum of the ROM with those words erased |
| `ChecksumMitsu.MitsuChecksum` | src/algorithms/checksum/checksum_ecu_mitsu_m32r_can.cpp:82-92 | the loop computes the sum as the ECU takes it, correction words erased |
| `ChecksumMitsu.CorrectMitsu` | src/algorithms/checksum/checksum_ecu_mitsu_m32r_can.cpp:63-101 | too small, unknown area code or area past the end leave the ROM as it is, each with its status; otherwise one balance slot is rewritten |
| `ChecksumMitsu.MitsuSettled` | src/algorithms/checksum/checksum_ecu_mitsu_m32r_can.cpp:63-101 | with a recognised area inside the ROM one pass makes the checksum hold, keeps the area and is its own fixed point |
| `ChecksumLayouts.MitsuArea` | src/algorithms/checksum/checksum_ecu_mitsu_m32r_can.cpp:30-50 | the seven area codes at 0x3FFCB and the ends they stand for |
| `ChecksumLayouts.MitsuByAddress` | src/algorithms/checksum/checksum_ecu_mitsu_m32r_can.cpp:63-101 | the area's word sum must be 0x5AA55AA5 with the bytes from 0x3FFCE to 0x3FFE3 read as 0xFF |
| `ChecksumLayouts.MitsuWrites` | src/algorithms/checksum/checksum_ecu_mitsu_m32r_can.cpp:93-101 | a pass changes no byte outside 0x3FFC0 to 0x3FFC3 |
| `DensoTable.SumBlock` | src/algorithms/checksum/denso_checksum_table.cpp:36-61 | sums the block through the overrides, or refuses it as malformed or outside the ROM |
| `DensoTable.ScanTable` | src/algorithms/checksum/denso_checksum_table.cpp:78-104 | finds the first disabling or refused record, or builds the corrected table and tells whether any record failed |
| `DensoTable.CorrectDensoTable` | src/algorithms/checksum/denso_checksum_table.cpp:63-111 | the outcome of each case; only a correction writes, and it writes exactly the corrected table |
| `DensoTable.TableByAddress` | src/algorithms/checksum/denso_checksum_table.cpp:63-92 | whole twelve-byte records inside the ROM; switched off when the first is the empty block at 0 holding 0x5AA5A55A |
| `DensoTable.OutcomeByTable` | src/algorithms/checksum/denso_checksum_table.cpp:63-111 | the outcome in the order the cases are decided: length, range, switched off, the first refused block, and whether every record holds |
| `DensoTable.RecordByAddress` | src/algorithms/checksum/denso_checksum_table.cpp:29-111 | a record holds when its block, empty or of whole words in the ROM, and its stored word sum to 0x5AA5A55A |
| `DensoTable.BlockByAddress` | src/algorithms/checksum/denso_checksum_table.cpp:29-61 | which blocks are malformed, which out of range, and the sum of the others |
| `DensoTable.WordByAddress` | src/algorithms/checksum/denso_checksum_table.cpp:15-27 | the first override at an address stands in for the ROM word there |
| `DensoTable.OnlyStoredWordsChange` | src/algorithms/checksum/denso_checksum_table.cpp:78-111 | a correction changes no byte outside the records' stored words |
| `DensoTable.RecordHoldsIff` | src/algorithms/checksum/denso_checksum_table.cpp:36-111 | for a table at any address, a record holds after correction exactly when the stored bytes its own block covers moved its sum by a multiple of 2^32 in total |
| `DensoTable.TableHoldsIff` | src/algorithms/checksum/denso_checksum_table.cpp:36-111 | hence all records hold after correction exactly when every block's drift vanishes |
| `DensoTable.CorrectionHolds` | src/algorithms/checksum/denso_checksum_table.cpp:63-111 | if no summed block contains a stored word, after a correction every block sum plus its stored word is 0x5AA5A55A |
| `DensoTable.RerunOutcome` | src/algorithms/checksum/denso_checksum_table.cpp:63-111 | a re-run then changes nothing, reporting disabled when record 0 is the empty block at 0 and detection is on, else unchanged |
| `DensoTable.SelfCoveringFails` | src/algorithms/checksum/denso_checksum_table.cpp:63-111 | a table whose block covers its own stored word, where the correction does not hold |
| `DensoTable.CorrectDiesel` | src/algorithms/checksum/checksum_ecu_subaru_denso_sh705x_diesel.cpp:7-84 | the two-table pass with its overrides; a failed second table restores the input |
| `DensoTable.DieselTables` | src/algorithms/checksum/checksum_ecu_subaru_denso_sh705x_diesel.cpp:20-64 | the override addresses, the second table and the outcomes that are failures |
| `DensoTable.SecondTableKeepsFirst` | src/algorithms/checksum/checksum_ecu_subaru_denso_sh705x_diesel.cpp:56-72 | correcting a second table keeps the first one valid when it touches neither its blocks nor its records |
| `DensoTable.DieselHolds` | src/algorithms/checksum/checksum_ecu_subaru_denso_sh705x_diesel.cpp:38-83 | when both passes complete on tables that do not overlap, and no block of the first reads a stored word of either nor one of the second its own, both tables hold at the end |
| `Crc.TableStep` | src/algorithms/checksum/checksum_primitives.cpp:98-107 | eight clocks of the shift register on one byte equal one table lookup and shift, for every register value |
| `Crc.MakeCrcTable` | src/algorithms/checksum/checksum_primitives.cpp:8-36 | entry i of the table is eight clocks of the register fed i |
| `Crc.Crc32` | src/algorithms/checksum/checksum_primitives.cpp:98-107 | the table-driven CRC equals the bit-serial one with polynomial 0x5AA5A55A on every byte sequence |
| `Crc.TopBitEntry` | src/algorithms/checksum/checksum_primitives.cpp:8-36 | table entry 0x80 is the polynomial 0x5AA5A55A |
| `Crc.CheckValues` | src/algorithms/checksum/checksum_primitives.cpp:98-107 | the empty message has CRC 0 and the byte 0x7F has CRC 0xA5A5A55A, which fixes the initial and final inversions |
| `ChecksumDispatch.WriteBack` | src/backend/checksum/dispatch.cpp:259-286 | writes exactly the runs that differ, failing at the first changed address that may not be written; shows the new bytes when it succeeds and never touches bytes outside the range |
| `ChecksumDispatch.ApplyChecksumCorrection` | src/backend/checksum/dispatch.cpp:293-338 | a yielded file shows exactly the family's bytes through the same map; the status of every refusal; the caller's image is not changed |
| `ChecksumDispatch.WithheldIff` | src/backend/checksum/dispatch.cpp:259-338 | the file is withheld exactly when some changed byte is not in a writable file-backed block |
| `ChecksumDispatch.SpanByBlocks` | src/backend/checksum/dispatch.cpp:310-320 | a family runs exactly when the route's window runs from the first block's start to the last block's end and every address of it lies in a block |
| `ChecksumDispatch.UsableStatuses` | src/backend/checksum/dispatch.cpp:321-328 | the results written back are those unchanged, corrected or disabled that cover the window |
| `ChecksumDispatch.CorrectedFileSettled` | src/backend/checksum/dispatch.cpp:293-338 | through any family whose results it leaves as they are, a yielded file shows a ROM on which the checksums hold, and a second application yields the same file |
| `ChecksumFamilies.CanSettling` | src/backend/checksum/dispatch.cpp:61-66 | the M32R CAN family, as its correction computes it, is such a family for checksums 1 to 5 |
| `ChecksumFamilies.ShSettling` | src/backend/checksum/dispatch.cpp:61-66 | so is the SH7058 family for all five checksums |
| `ChecksumFamilies.MitsuSettling` | src/backend/checksum/dispatch.cpp:212-248 | so is the Mitsubishi family on ROMs of every size, wherever its layout applies |
| `Bytes.OverwriteInPlace` | src/algorithms/protocol/bytes.h:175-185 | copies the payload from the offset on, clipped to the buffer, and changes nothing else |
| `Bytes.WriteU16Be` | src/algorithms/protocol/bytes.h:187-196 | writes the big-endian half-word, or nothing when it does not fit |
| `Bytes.WriteU32Be` | src/algorithms/protocol/bytes.h:209-219 | writes the big-endian word, or nothing when it does not fit |
| `Bytes.EncodeU32Be` | src/algorithms/protocol/bytes.h:91-99 | reading the four bytes back gives the word |
| `Bytes.EncodeReadU32Be` | src/algorithms/protocol/bytes.h:91-99 | encoding what was read gives the bytes back |
| `Bytes.ReadsByBytes` | src/algorithms/protocol/bytes.h:71-99 | a read outside the buffer gives 0, and any other weighs its bytes from the top |
| `SubaruCipher.FFunction` | src/algorithms/crypto/subaru_key_recovery.cpp:209-220 | the substitution loop depends on word and key through their exclusive or alone |
| `SubaruCipher.Encrypt` | src/algorithms/crypto/subaru_key_recovery.cpp:222-231 | the loop computes four rounds and the final half swap |
| `SubaruCipher.EncryptedByHalves` | src/algorithms/crypto/subaru_key_recovery.cpp:222-231 | the four rounds written out from the plaintext's halves: which half, which key and which order |
| `KeyStatistics.FBits` | src/algorithms/crypto/subaru_key_recovery.cpp:209-220 | all sixteen output bits: bit j of the round function is bit ((j + 3) % 16) % 4 of the S-box entry named by five wrapping bits of the word from bit 4n on, n = ((j + 3) % 16) / 4 |
| `SubaruCipher.EncryptionInverse` | src/algorithms/crypto/subaru_key_recovery.cpp:222-231 | for every S-box and key set encryption is a bijection: decryption inverts it on both sides |
| `SubaruCipher.PairEquations` | src/algorithms/crypto/subaru_key_recovery.cpp:263-277 | a pair is encrypted to its ciphertext exactly when it satisfies both the k2 and the k3 equation |
| `FunctionInverse.PreimagesExact` | src/algorithms/crypto/subaru_key_recovery.cpp:170-173 | the specified list holds each input of an output once, ascending, and nothing else |
| `FunctionInverse.CountOutputs` | src/algorithms/crypto/subaru_key_recovery.cpp:154-158 | the counting loop gives each output its number of inputs |
| `FunctionInverse.Starts` | src/algorithms/crypto/subaru_key_recovery.cpp:159-162 | the prefix sums give the number of inputs that map below each output |
| `FunctionInverse.FillStep` | src/algorithms/crypto/subaru_key_recovery.cpp:163-167 | placing one more input extends its own output's run and disturbs no other |
| `FunctionInverse.Invert` | src/algorithms/crypto/subaru_key_recovery.cpp:149-178 | for any function on [0, size) the counting sort lists, between consecutive starts, exactly the inputs of each output |
| `FunctionInverse.LookupExact` | src/algorithms/crypto/subaru_key_recovery.cpp:170-173 | a lookup holds each input of the output once, ascending, and nothing else |
| `KeyStatistics.WindowOfCandidate` | src/algorithms/crypto/subaru_key_recovery.cpp:53-88 | a candidate key keeps exactly its subkey in the nybble's window, the folded fifth bit included |
| `KeyStatistics.WindowOfMix` | src/algorithms/crypto/subaru_key_recovery.cpp:84-88 | the window of an exclusive or is the exclusive or of the windows |
| `KeyStatistics.WindowDecides` | src/algorithms/crypto/subaru_key_recovery.cpp:209-220 | the tested output bits depend on the five-bit window alone, through one S-box entry |
| `KeyStatistics.OutWindowDecides` | src/algorithms/crypto/subaru_key_recovery.cpp:22-25 | the output positions tested across a round are bits 0 and 3 of the S-box nibble below the nybble's own |
| `KeyStatistics.OutBitsHigh` | src/algorithms/crypto/subaru_key_recovery.cpp:38-51 | without the offset the same positions are tested in a word's high half |
| `KeyStatistics.BitsLinear` | src/algorithms/crypto/subaru_key_recovery.cpp:33-41 | the tested bits are linear in the exclusive or |
| `KeyStatistics.GroupedIsDirect` | src/algorithms/crypto/subaru_key_recovery.cpp:98-128 | for every list of pairs, nybble and S-box, counting by groups equals counting the pairs of zero parity one by one |
| `KeyStatistics.CountAgreeing` | src/algorithms/crypto/subaru_key_recovery.cpp:120-128 | the loop over windows computes that count |
| `KeyStatistics.BestSubkey` | src/algorithms/crypto/subaru_key_recovery.cpp:129-141 | the chosen subkey has the greatest distance from half the pairs, the highest on a tie |
| `KeyStatistics.BiasIs` | src/algorithms/crypto/subaru_key_recovery.cpp:129-141 | the bias is the distance of the agreeing count from half the pairs; a pair agrees when its constant equals the tested bits' parity |
| `KeyStatistics.MostBiasedUnique` | src/algorithms/crypto/subaru_key_recovery.cpp:129-141 | there is only one such subkey |
| `KeyStatistics.MostBiasedKey` | src/algorithms/crypto/subaru_key_recovery.cpp:108-144 | each nibble of the key is the low nibble of its nybble's best subkey |
| `KeyStatistics.NibbleOfWindow` | src/algorithms/crypto/subaru_key_recovery.cpp:141-143 | the nibble set is the low four bits of the key's own window for that nybble |
| `KeyRecovery.CastVotes` | src/algorithms/crypto/subaru_key_recovery.cpp:189-197 | one equation's votes raise each voted key by one |
| `KeyRecovery.CountVotes` | src/algorithms/crypto/subaru_key_recovery.cpp:189-197 | every key ends with as many votes as equations it satisfies |
| `KeyRecovery.MajorityKey` | src/algorithms/crypto/subaru_key_recovery.cpp:189-205 | returns the lowest key of maximal count exactly when some key satisfies more than half the equations |
| `KeyRecovery.NewPairsExact` | src/algorithms/crypto/subaru_key_recovery.cpp:66-79 | each plaintext word appears once, paired with the ciphertext of its first occurrence |
| `KeyRecovery.PairsByBytes` | src/algorithms/crypto/subaru_key_recovery.cpp:66-79 | the pairs told from the bytes: four apart, most significant first, and new when those four bytes have not occurred |
| `KeyRecovery.DistinctPairs` | src/algorithms/crypto/subaru_key_recovery.cpp:66-79 | the loop with its set of seen words computes that list |
| `KeyRecovery.LastRoundParity` | src/algorithms/crypto/subaru_key_recovery.cpp:239-250 | under a candidate k4 a pair's term is the linear approximation over the half before round 4 |
| `KeyRecovery.FirstRoundParity` | src/algorithms/crypto/subaru_key_recovery.cpp:251-261 | under a candidate k1 a pair's term is the approximation over the half after round 1 |
| `KeyRecovery.OuterKeysUnique` | src/algorithms/crypto/subaru_key_recovery.cpp:239-261 | the statistics determine k1 and k4 |
| `KeyRecovery.VotesReproduce` | src/algorithms/crypto/subaru_key_recovery.cpp:262-294 | for every key set, reproduced pairs plus all pairs are at least the k2 and k3 votes together, and at most either vote is reproduced |
| `KeyRecovery.RecoverKeys` | src/algorithms/crypto/subaru_key_recovery.cpp:233-294 | too-short inputs are refused; otherwise the statistical k1 and k4, the winning k2 and k3 and an honest count, or a failure because one vote has no majority |
| `KeyRecovery.SuccessReproduces` | src/algorithms/crypto/subaru_key_recovery.cpp:262-294 | a success reproduces at least k2 votes plus k3 votes less the distinct pairs, hence at least one pair |
| `KeyRecovery.PlantedRecovery` | src/algorithms/crypto/subaru_key_recovery.cpp:233-294 | if the ciphertext is the encryption of the plaintext and the statistics find k1 and k4, recovery does not fail and reproduces every pair |
| `CalibrationStorage.CheckedMultiply` | src/backend/calibration/scaling_internal.cpp:35-43 | the division test gives the product exactly when it fits 64 bits |
| `CalibrationStorage.CheckedAdd` | src/backend/calibration/scaling_internal.cpp:25-33 | the same for the sum |
| `CalibrationStorage.ElementByteAddress` | src/backend/calibration/map_edit.cpp:11-42 | the checked steps give the exact address when it fits 64 bits and otherwise the sentinel |
| `CalibrationStorage.ElementRunEnd` | src/backend/calibration/calibration_service.cpp:164-189 | the exact end of the run's last element, its address when empty, and the sentinel on overflow |
| `CalibrationStorage.ElementsApart` | src/backend/calibration/map_edit.cpp:15-23 | no two elements of a run share a byte, for every width, start position and interval |
| `CalibrationStorage.WriteRawElement` | src/backend/calibration/map_edit.cpp:44-62 | the byte loop lays out the low bytes in the element's endianness, big-endian for floats |
| `CalibrationStorage.RawRoundTrip` | src/backend/calibration/map_edit.cpp:44-62 | reading an element back gives the written value modulo its width, for both byte orders |
| `CalibrationStorage.NumberRoundTrip` | src/backend/calibration/scaling_internal.cpp:11-23 | every integer in a storage type's range is stored and sign-extended back to itself |
| `CalibrationBytes.ElementPlace` | src/backend/calibration/map_edit.cpp:11-42 | where an element lies, from the layout's fields and the literal storage widths |
| `CalibrationBytes.ElementByBytes` | src/backend/calibration/calibration_service.cpp:29-43 | each byte's weight: 256^j in a little-endian element that is not a float, 256^(width-1-j) otherwise |
| `CalibrationBytes.WrittenByBytes` | src/backend/calibration/map_edit.cpp:44-62 | the bytes written for a value, by the same weights |
| `CalibrationBytes.NumberByStorage` | src/backend/calibration/calibration_service.cpp:44-48 | the number a raw value stands for under each storage type: itself, two's complement of the width, or the float |
| `CalibrationBytes.RangeByStorage` | src/backend/calibration/numeric_map_edit.cpp:86-99 | the least and greatest integer each storage type takes |
| `CalibrationBytes.DecodableByFields` | src/backend/calibration/calibration_service.cpp:19-35 | which runs decode: integer or float storage, start and interval not zero, every element in the window |
| `CalibrationBytes.CellByFields` | src/backend/calibration/calibration_service.cpp:49-61 | a cell is the scaling text evaluated at the raw number, and zero for a selectable element |
| `CalibrationBytes.AddressesIn64Bits` | src/backend/calibration/map_edit.cpp:25-42 | the checked address and the run's end are exact while they fit 64 bits and the largest address otherwise |
| `CalibrationDecode.WindowCheck` | src/backend/calibration/calibration_service.cpp:30-35 | the 64-bit end check passes exactly when the run lies in the window |
| `CalibrationDecode.WindowRead` | src/backend/calibration/calibration_service.cpp:38-44 | reading at the unchecked offset reads the element itself |
| `CalibrationDecode.DecodeNumericRun` | src/backend/calibration/calibration_service.cpp:19-63 | succeeds exactly for numeric storage with a non-zero stride inside the window; cell i is the scaled value of element i |
| `CalibrationEdit.EncodeValue` | src/backend/calibration/numeric_map_edit.cpp:69-101 | the bytes of the rounded integer or the float bits; each refusal in the source's order |
| `CalibrationEdit.ClampedWithin` | src/backend/calibration/numeric_map_edit.cpp:119-135 | under accepted limits a clamped request is neither below the minimum nor above the maximum |
| `CalibrationAgreement.EncodedByFields` | src/backend/calibration/numeric_map_edit.cpp:69-135 | the reading after an edit from the definition's fields: moved to the nearer limit it passes, the encoding text evaluated there, rounded to an integer in range or taken as a float |
| `CalibrationAgreement.LimitsByFields` | src/backend/calibration/numeric_map_edit.cpp:38-55 | limits are accepted when both parse and the maximum is not below the minimum |
| `CalibrationAgreement.StepStores` | src/backend/calibration/numeric_map_edit.cpp:119-159 | one request's outcome, joined to the writes so far, stores the clamped and encoded value in its cell and changes no byte outside it, whether it writes or finds the cell equal |
| `CalibrationAgreement.OutcomeRefusal` | src/backend/calibration/numeric_map_edit.cpp:119-159 | a request fails exactly when its value is missing, not finite, not encodable or its element outside the window, with that reason |
| `CalibrationEdit.PatchRows` | src/backend/calibration/numeric_map_edit.cpp:172-196 | the row and column loops take the requests in order and stop at the first failing cell |
| `CalibrationEdit.FailureStays` | src/backend/calibration/numeric_map_edit.cpp:172-190 | once a cell fails, later cells do not change the result |
| `CalibrationAgreement.PatchStores` | src/backend/calibration/numeric_map_edit.cpp:119-196 | after a successful edit every requested cell holds its encoded bytes and no byte outside those cells differs |
| `CalibrationAgreement.StoredShows` | src/backend/calibration/calibration_service.cpp:36-61 | the decoder reads such a cell as the very integer, or float, it was encoded to |
| `CalibrationAgreement.EditDecodes` | src/backend/calibration/numeric_map_edit.cpp:69-196 | the main agreement, for every width, sign, byte order, start position and interval: either every wanted cell is read back as its clamped and encoded value, every other cell keeps its raw value, no byte outside the wanted cells differs and a change is reported exactly when there is one; or the lowest cell that refuses its value is reported with its reason |
| `CalibrationAgreement.EditedCells` | src/backend/calibration/calibration_service.cpp:36-61 | what the decoder returns after such an edit: the scaled reading of the encoded value in a wanted cell, the old cell elsewhere |
| `CalibrationAgreement.EditIdempotent` | src/backend/calibration/numeric_map_edit.cpp:119-196 | making the same requests of the edited ROM writes nothing |
| `CalibrationAgreement.ReasonReported` | src/backend/calibration/numeric_map_edit.cpp:103-117 | the merged reason is the only cause there is, or that there are several |
| `CalibrationEdit.KeepReasonIs` | src/backend/calibration/numeric_map_edit.cpp:147-153 | why an equal cell stays: a limit moved the value, the storage cannot tell it from the old one, or it was there already |
| `CalibrationSelection.IndexInRun` | src/backend/calibration/numeric_map_edit.cpp:57-67 | a selected cell's index lies in the run, so narrowing it to 32 bits loses nothing |
| `CalibrationSelection.BuildPatch` | src/backend/calibration/numeric_map_edit.cpp:161-196 | an invalid selection or invalid limits are refused; otherwise the edit agrees with the decoder on every cell of the run: the candidate's value in each selected cell, the old one elsewhere, or the lowest selected cell that refuses |
| `CalibrationSelection.SelectedRequested` | src/backend/calibration/numeric_map_edit.cpp:172-190 | every selected cell is requested, under its own index |
| `CalibrationSelection.RequestedSelected` | src/backend/calibration/numeric_map_edit.cpp:172-190 | and no other cell is |
| `CalibrationSelection.SelectionAsks` | src/backend/calibration/numeric_map_edit.cpp:172-190 | the loops ask for exactly the selected cells, in ascending order |
| `CalibrationSelection.CalculateIncrement` | src/backend/calibration/numeric_map_edit.cpp:300-323 | refuses a zero or non-finite step; after success every selected cell had a finite value and reads back as that value plus the step, clamped and encoded, every other cell as before |
| `CalibrationSelection.AmountIs` | src/backend/calibration/numeric_map_edit.cpp:304-311 | the step is the fine or the coarse increment, times one or minus one |
| `CalibrationSelection.CalculateAssignment` | src/backend/calibration/numeric_map_edit.cpp:325-348 | refuses a formula the scanner refuses; after success the formula parses and every selected cell reads back as its value at the cell's old value, clamped and encoded; a cell without a finite value takes only a formula that does not read it |
| `CalibrationSelection.AssignmentMeaning` | src/backend/calibration/numeric_map_edit.cpp:325-348 | the scanner's shortcut cannot be observed: each cell with a finite value gets the formula's value there |
| `CalibrationSelection.CalculateInterpolation` | src/backend/calibration/numeric_map_edit.cpp:350-356 | after success every selected cell reads back as the blend of its row's, its column's or the four corner cells, by its share of the way across and down, written out; as interpolation between finite values is exact at its ends, the end columns, end rows or corners keep their values |
| `CalibrationSelection.InterpolationKeepsEnds` | src/backend/calibration/numeric_map_edit.cpp:248-296 | at the cells a mode interpolates between, which have finite values, the interpolated value is the current one |
| `CalibrationPaste.CalculatePaste` | src/backend/calibration/numeric_map_edit.cpp:358-391 | the cells whose row and column from the selection's first cell lie in the block read back as the block's values, clamped and encoded; every other cell of the run keeps its raw value and no other byte changes; or the lowest cell that refuses is reported |
| `CalibrationPaste.PasteAscends` | src/backend/calibration/numeric_map_edit.cpp:369-383 | a paste names each cell at most once |
| `CalibrationPaste.PasteAsks` | src/backend/calibration/numeric_map_edit.cpp:369-383 | the clipped loops ask for exactly the cells of the pasted region, each for its own value |
| `BenchGate.StateMeaning` | apps/bench/bench_driver.cpp:100-128 | over every log, the state is ready exactly when a built-in erase helper was uploaded and then unlock succeeded with only harmless successes since; waiting for unlock likewise |
| `BenchGate.SentOnlyWhenArmed` | apps/bench/bench_driver.cpp:173-207 | an erase is sent only in such a state |
| `BenchGate.ArmedByCommand` | apps/bench/bench_driver.cpp:83-128 | armed told command by command: a successful built-in erase-helper upload, then a successful unlock, and since the upload nothing else but successful ports, connect, read, dump, CRC checks and write-helper uploads; both directions |
| `BenchGate.ArmedAfresh` | apps/bench/bench_driver.cpp:173-207 | between two erases sent there is a new upload and a new unlock: each arming allows one |
| `BenchGate.ValidateSessionPlan` | apps/bench/bench_driver.cpp:138-166 | accepts exactly the acceptable plans and otherwise names the first unacceptable step |
| `BenchGate.StepByCommand` | apps/bench/bench_driver.cpp:138-166 | what the plan check asks of a step, command by command: what may precede a connect and what must precede an erase; both directions |
| `BenchGate.PlanArmedByCommand` | apps/bench/bench_driver.cpp:100-128 | the plans that arm an erase, command by command |
| `BenchGate.Session.RunStep` | apps/bench/bench_driver.cpp:178-198 | refuses an erase that is not armed, else sends the step; the log and the gate state stay in step |
| `BenchGate.Session.RunSteps` | apps/bench/bench_driver.cpp:173-209 | runs the steps in order, stops at the first failure unless told to keep going, and returns the first failure's code |
| `BenchGate.RunScriptLines` | apps/bench/bench_driver.cpp:381-418 | one session for all lines; it runs the session steps in order without skipping, whatever fails; the code is the first failed line's, except that a session that does not open ends the run with its own code, even after a failed line |
| `BenchGate.FirstFailureReturned` | apps/bench/bench_driver.cpp:74-81 | a script returns the first failure's code exactly when its session opens or is not reached, or no ports line failed before it, or the first that did failed with the session's own code |
| `BenchGate.SetupHidesFailure` | apps/bench/bench_driver.cpp:395-404 | a ports line failing with 3 and then a session that does not open with 4: the script keeps going and returns 4 |
| `BenchGate.RefusedOnlyAfterFailure` | apps/bench/bench_driver.cpp:420-436 | in a run of an accepted plan the gate refuses an erase only after an earlier step failed |
| `BenchGate.RunScript` | apps/bench/bench_driver.cpp:420-436 | nothing runs unless the whole plan is acceptable; every erase sent was armed in this session; the code is that of the lines |
| `BenchGate.RunBatch` | apps/bench/bench_driver.cpp:275-297 | the same promises for a batch, with the code of the first failed step |

## Left out

- Real floating-point behaviour: rounding, clamping order, float conversion and interpolation are
  parameters; the proofs hold for any.
- Error message text and positions beyond the failing address, index or kind.
- ParseFiniteNumber and the parsing of definition limits: limits enter as their parsed outcome.
- The S-box contents: any table of 32 nibbles.
- The route table of the dispatcher (FindRoute, RoutesAreConsistent, FixedRomSize) and the flash
  device list: the chosen route and whether the device is known are parameters.
- The single-slot checksum families (SH72543R, MH8104, TCU SH7055) and the SH7xxx wrapper: direct
  instances of the rebalance and Denso-table results.
- CksAdd8, NegatedSum8, SumPieceU16Be and the append helpers: one-line folds.
- MemoryMap::Identity, ToFlashAddress and DefinitionBase: constant layouts and offsets.
- ResolveEditTarget and axis decoding: header-cell bookkeeping of the map view.
- The bench session handshake, command execution, script parsing and output: the device's answer to
  each step, the session's opening and each ports line's code are parameters.
- The desktop application, configuration files and build scripts: user interface and plumbing.
- CalibrationEdit.PatchRows: the requests of a row are formed before its loop runs, since candidate
  values do not depend on the writes already collected; evaluation order is not modelled.
- FunctionInverse.Invert: the two vectors of the index are returned as sequences; they never change
  after construction.
