# hack-assembler, modelled in Dafny

This project models the working core of a small Rust assembler for the Hack machine
language of *The Elements of Computing Systems* (nand2tetris). It covers the three
stages of `src/lib.rs`:

- **Parsing.** `parse` walks the lines of a file. For each line, `remove_spaces` deletes
  every whitespace character and `remove_comments` drops a `//` comment; a line left
  empty is skipped. `parse_line` then classifies what remains with three patterns (A, L
  and C) and builds an `Instruction` that carries the line's index.
- **Decoding.** `decode` turns the instructions into text, one newline-terminated
  binary word per A or C instruction. It uses `decode_a` and `decode_c` with their
  destination, computation and jump tables.
- **Tables and layout.** The 6-bit computation table, the destination and jump tables,
  and the 16-bit word layout written down in `src/code.rs` are modelled and checked
  against the tables `decode_c` uses.

It also models the draft parser of `src/main.rs`: the `.asm` name check of
`read_assembly`, `parse_content` with its trim/cut/filter/enumerate chain,
`remove_comments`, `get_instruction_type` and `get_dest`. Lemmas show where the draft
agrees with `src/lib.rs` and where it does not.

Modules, one file each:

- `Wrappers`: `Option` and `Result`.
- `Strings`: whitespace, `trim`, searching, `split` and joining.
- `Numerals`: `parse::<usize>` and the zero-padded binary format `{:015b}`.
- `Parser`: the `parser` module of `src/lib.rs`.
- `Decoder`: its `decoder` module.
- `Code`: `src/code.rs`.
- `Draft`: the parser of `src/main.rs`.
- `Scenarios`: the source's own test and the cases where the C pattern divides a line
  differently from the Hack language.

The model is imperative where the source is. `Parser.Parse`, `Parser.RemoveSpaces` and
`Decoder.Decode` are methods with loops. Each is proved equal to a specification
function (`ParseSpec`, `NonWhitespace`, `DecodeAll`), and the lemmas about those
functions state what the source promises. Everything else is a function.

## Decisions

- **Pattern order.** The source keeps its three patterns in a `HashMap` and takes the
  first that matches, in the map's unspecified iteration order (src/lib.rs:69, 91-98).
  `@12` also matches the C pattern. The model fixes the order: A, then L, then C.
- **The patterns match as written.**
  - The A pattern is `@` followed by at least one character.
  - The L pattern has no `^` anchor, so it matches from the leftmost `(` after which
    the line ends in `)`.
  - The C pattern is modelled as the regex engine runs it: the first of its 72 possible
    divisions of a line into (dest, `=`, comp, `;`, jump) under which the groups match,
    in leftmost-first priority order (`Parser.Shape`). In `\w{1, 2}` the space inside
    the braces is read as harmless, giving `{1,2}`.

  The hand-written splitter one might expect instead would hide what the pattern really
  does with some lines, proved in `Scenarios`:
  - `0;JMP` and `D;JGT` become dest `0`/`D`, comp `;`, jump `JMP`/`JGT`. Decoding them
    then stops, with an unknown destination `0` or an unknown computation `;`.
  - `AMD=M` never reaches the decoder with dest `AMD`. The destination table of
    `src/lib.rs` and `src/code.rs` does list `AMD`. But the C pattern captures at most two
    characters of destination, so the line becomes dest `AM` and comp `D=M`, and
    decoding stops at the unknown computation `D=M`.
- **Comments.** In `src/lib.rs` the `code` group of `^(?P<code>.*)(?P<comment>//.*)$` is
  greedy, so a line is cut at its LAST `//`. The draft in `src/main.rs` cuts at the
  FIRST `//` (`Draft.FirstAndLastCut` states both).
- **Fatal errors.** `process::exit(1)` becomes an error value:
  - a line no pattern matches gives `SyntaxError`, and `parse` stops at the first one;
  - an A instruction without an address gives `MissingAddress`;
  - an unknown mnemonic gives `UnknownDest`, `UnknownComp` or `UnknownJump`, checked in
    the order the source checks them.
- **No symbols.** Symbols are never resolved. An operand that is not a `usize` numeral
  is kept as a symbol, and decoding it stops with `MissingAddress`.
- **No range check.** `decode_a` does not check the range of an address. The 16-character
  word is promised only below 2^15; larger addresses give longer words.
- **Absent fields.** An absent destination or jump contributes no bits, not `000`, so
  `D=M+1` decodes to a 13-character word (`Scenarios.ShortWord`).
- **Numbers.** `usize` is taken as 64 bits. `str::parse::<usize>` accepts a leading `+`
  and leading zeros (`@+5` and `@005` are both address 5), and rejects out-of-range
  numerals, which then become symbols.
- **Lines.** `str::lines` splits at `\n` and drops a final empty line.
- **Whitespace.** `char::is_whitespace` is the Unicode White_Space property.
- **Draft line numbers.** The draft's line numbers count only the lines kept after
  filtering, from 0. Its instruction type is an enumeration (`TypeA`, `TypeL`, `TypeC`)
  standing for the strings `"A"`, `"L"`, `"C"`. `get_instruction_type` indexes the first
  character, so it needs a non-empty line, which the filter before it guarantees.
- **Documentation versus code.** Where the repository's documentation and its code
  differ, the model follows the code. Two places differ: the last-`//` cut, and absent
  fields contributing no bits. The `AMD=M` case is a mismatch inside the code, between
  the C pattern and the tables.

## Model

| member | source | states |
|---|---|---|
| Strings.Trim | src/lib.rs:64 | `trim` returns a contiguous part of the text with only whitespace before and after it, with no whitespace at either end; a whitespace-free text is unchanged |
| Strings.TrimStart | src/lib.rs:64 | removes exactly the leading whitespace: the result is a suffix, everything dropped is whitespace, and the result starts with non-whitespace |
| Strings.TrimEnd | src/lib.rs:64 | removes exactly the trailing whitespace, symmetrically |
| Strings.FindLast | src/lib.rs:57 | finds the last occurrence of a pattern at or before a bound, or reports that there is none |
| Strings.FindLastIsLast | src/lib.rs:57 | the search from the end fails exactly when the pattern does not occur, and otherwise gives its last occurrence |
| Strings.Split | src/main.rs:29 | `split` gives at least one piece; the pieces joined by the separator give back the text; no piece holds the separator; there is more than one piece exactly when the separator occurs; the first piece ends at its first occurrence |
| Strings.SplitJoin | src/main.rs:29 | splitting pieces joined by a one-character separator that none of them contains gives back the pieces |
| Numerals.Decimal | src/lib.rs:105 | the decimal numeral of `n` is digits only, denotes `n` and has no leading zero |
| Numerals.ParseUsize | src/lib.rs:105 | `parse::<usize>` succeeds exactly when the text, after one optional `+`, is a non-empty run of digits with value at most 2^64-1, and then gives that value, leading zeros allowed |
| Numerals.ParseUsizeDecimal | src/lib.rs:105-108 | parsing the decimal numeral of `n`, with or without `+`, gives back `n` exactly when `n` fits in 64 bits |
| Numerals.ParseUsizeLeadingZeros | src/lib.rs:105-108 | a numeral with leading zeros, such as `007`, gives the value of its digits when that value fits in 64 bits |
| Numerals.LeadingZerosValue | src/lib.rs:105 | leading zeros do not change the value of a decimal numeral |
| Numerals.Binary | src/lib.rs:233 | the binary numeral of `n` is bits only, denotes `n` and has no leading zero |
| Numerals.BinaryLength | src/lib.rs:233 | the binary numeral of `n` has at most `k` digits exactly when `n < 2^k` |
| Numerals.LeadingZeros | src/lib.rs:233 | zero padding does not change the value of a binary numeral |
| Numerals.BitsValueBound | src/code.rs:15-16 | a numeral of `w` bits denotes less than `2^w` |
| Numerals.FixedWidthUnique | src/code.rs:15-16 | two bit strings of one width with one value are equal, so a fixed-width address field determines its address |
| Code.Comp | src/code.rs:19-38 | every computation code of the 6-bit table is six bits |
| Code.Dest | src/code.rs:41-49 | every destination code is three bits and not `000`; bit 1 is set exactly when the mnemonic names A, bit 2 D, bit 3 M |
| Code.Jump | src/code.rs:52-60 | every jump code is three bits and not `000` |
| Code.CompEntries | src/code.rs:19-38 | the 6-bit table has 18 distinct mnemonics and is defined exactly on them |
| Code.DestEntries | src/code.rs:41-49 | the destination table has 7 distinct mnemonics and is defined exactly on them |
| Code.JumpEntries | src/code.rs:52-60 | the jump table has 7 distinct mnemonics and is defined exactly on them |
| Code.CompDistinct | src/code.rs:19-38 | no two computations of the 6-bit table share a code |
| Code.DestDistinct | src/code.rs:41-49 | no two destinations share a code |
| Code.JumpDistinct | src/code.rs:52-60 | no two jumps share a code |
| Code.CompAgrees | src/code.rs:19-38 | for each mnemonic of this table, the 7-bit code of `decode_c` is `0` and this 6-bit code; and every M-free mnemonic `decode_c` knows is in this table |
| Code.CompBits | src/code.rs:19-38 | the `a` bit of such a mnemonic is `0` and its six `c` bits are this table's code |
| Code.DestAgrees | src/lib.rs:241-248 | the destination table of `decode_c` is this one |
| Code.JumpAgrees | src/lib.rs:302-309 | the jump table of `decode_c` is this one |
| Code.CWordLayout | src/code.rs:6 | a C word with all three fields is 16 bits: `111`, the `a` bit (set exactly when the computation reads M), the six `c` bits of the A-form computation, then the three `d` bits and the three `j` bits of this file's tables |
| Code.AWordLayout | src/code.rs:7 | an A word for an address below 2^15 is 16 bits: `0`, then 15 bits that denote the address |
| Parser.Lines | src/lib.rs:24 | `lines` gives newline-free lines that, joined by `\n`, give back the text, apart from one final `\n`; only the empty text has no lines |
| Parser.NonWhitespace | src/lib.rs:41-52 | what `remove_spaces` computes: no whitespace, no longer than the input, and the input itself when it has none |
| Parser.NonWhitespaceCounts | src/lib.rs:45-49 | every non-whitespace character occurs in the result exactly as often as in the input |
| Parser.NonWhitespaceAppend | src/lib.rs:45-49 | removing whitespace works piece by piece, so the characters keep their order |
| Parser.NonWhitespaceIdempotent | src/lib.rs:41-52 | removing whitespace twice is removing it once |
| Parser.RemoveSpaces | src/lib.rs:41-52 | the loop that pushes each non-whitespace character computes `NonWhitespace` |
| Parser.RemoveCommentsCut | src/lib.rs:54-65 | a line without `//` is only trimmed; otherwise it is cut at its last `//` and trimmed, and it is `None` exactly when nothing is left |
| Parser.CleanShape | src/lib.rs:26-27 | a cleaned line is non-empty and whitespace-free: the whitespace-free line, or what precedes its last `//` |
| Parser.SpacelessComments | src/lib.rs:54-65 | on a whitespace-free line, `remove_comments` gives a non-empty whitespace-free text: the line itself without `//`, or what precedes its last `//`, and nothing when that `//` starts the line |
| Parser.LabelStart | src/lib.rs:95 | finds the leftmost index from which the unanchored L pattern matches |
| Parser.LabelStartMatches | src/lib.rs:95 | that search succeeds exactly when the L pattern matches |
| Parser.Shape | src/lib.rs:96 | each of the 72 divisions the C pattern can make is one its groups allow |
| Parser.ShapeOnto | src/lib.rs:96 | every division the C pattern's groups allow is one of the 72 tried, so the search misses none |
| Parser.FirstFit | src/lib.rs:96 | finds the first division, in priority order, under which the C pattern matches, and no earlier one matches |
| Parser.FirstFitMatches | src/lib.rs:96 | that search succeeds exactly when the C pattern matches |
| Parser.ParseA | src/lib.rs:100-120 | the address is whatever `parse::<usize>` gives for the operand; exactly one of address and symbol is set; the address fits a `usize`; the symbol is the operand; the decimal numeral of `n` gives address `n` |
| Parser.ParseC | src/lib.rs:133-146 | the captured dest, comp and jump, with `=` and `;` where the division puts them, give back the line; dest and jump are present exactly when their groups are |
| Parser.ParseCGroups | src/lib.rs:133-146 | under a matching division comp has 1 to 3 non-whitespace characters, dest 1 or 2 word characters and jump 3 |
| Parser.ParseLine | src/lib.rs:67-89 | A and C instructions carry the index of their line and L instructions that index plus one; failure reports the line |
| Parser.ParseLineA | src/lib.rs:73-77 | a line the A pattern matches is an A instruction with the operand after `@`, whatever else it matches |
| Parser.ParseLineL | src/lib.rs:78 | a line that is not A and that the L pattern matches is the label between the leftmost matching `(` and the final `)` |
| Parser.LabelLine | src/lib.rs:122-131 | a line `(name)` is the label `name`, carrying the line index plus one |
| Parser.ParseLineC | src/lib.rs:79 | a line that is neither A nor L is divided by the first C division that matches |
| Parser.ParseLineErr | src/lib.rs:83-87 | `parse_line` fails exactly when none of the three patterns matches |
| Parser.Outcomes | src/lib.rs:24-33 | there is one outcome per raw line |
| Parser.OutcomesAt | src/lib.rs:24-33 | the outcome of raw line `i` is "skipped" for an emptied line, and otherwise `parse_line` of the cleaned line at index `i` |
| Parser.ParseCleanedCollect | src/lib.rs:24-36 | parsing the cleaned lines is the loop over their outcomes |
| Parser.CollectOk | src/lib.rs:29-35 | when the loop succeeds, its instructions are the results of the kept lines, one for one |
| Parser.CollectAllOk | src/lib.rs:29-35 | when every kept line parses, the loop succeeds |
| Parser.CollectErr | src/lib.rs:83-87 | when the loop fails, its error is that of the first failing kept line, all before it having parsed |
| Parser.SurvivingSound | src/lib.rs:29-31 | every surviving line is a cleaned, non-empty line at its raw index |
| Parser.SurvivingComplete | src/lib.rs:29-31 | every line not emptied by cleaning survives |
| Parser.SurvivingOrdered | src/lib.rs:24 | survivors keep the order of the source lines |
| Parser.KeptMap | src/lib.rs:29-30 | the kept outcomes are the per-line function applied to the survivors |
| Parser.KeptSurviving | src/lib.rs:29-30 | the kept outcomes are `parse_line` of the survivors with their raw indices |
| Parser.LineNumbers | src/lib.rs:24 | each parsed instruction carries the raw index of its line, plus one for a label |
| Parser.ParseSpecResult | src/lib.rs:20-39 | `parse` succeeds exactly when every surviving line parses, and then gives one instruction per survivor, in order; otherwise it gives the error of the first failing survivor |
| Parser.ParseCleanedResult | src/lib.rs:26-38 | the same result, for any sequence of cleaned lines: success exactly when every survivor parses, one instruction per survivor, or the error of the first failing survivor |
| Parser.Parse | src/lib.rs:20-39 | the loop that cleans each line, skips the empty ones and pushes each parsed line computes `ParseSpec` |
| Parser.ParseStep | src/lib.rs:29-35 | one turn of the loop: an emptied line adds nothing, a failing line is the result, and a parsed line joins those before it |
| Decoder.DestCode | src/lib.rs:238-256 | every destination code is three bits and not `000`; bit 1 is set exactly when the mnemonic names A, bit 2 D, bit 3 M |
| Decoder.CompCode | src/lib.rs:258-297 | every computation code is seven bits, and the `a` bit is set exactly when the mnemonic reads M |
| Decoder.JumpCode | src/lib.rs:299-317 | every jump code is three bits and not `000` |
| Decoder.CompDomain | src/lib.rs:261-293 | the computation table is defined exactly on its 28 mnemonics |
| Decoder.CompOf | src/lib.rs:258-297 | reading the computation table backwards finds a mnemonic with that code |
| Decoder.CompOfCode | src/lib.rs:258-297 | reading it backwards undoes reading it forwards |
| Decoder.CompInjective | src/lib.rs:261-289 | no two computations share a code |
| Decoder.DestInjective | src/lib.rs:241-248 | no two destinations share a code |
| Decoder.JumpInjective | src/lib.rs:302-309 | no two jumps share a code |
| Decoder.MToA | src/lib.rs:262-289 | reading every `M` of a computation as `A` keeps all other characters and leaves no `M` |
| Decoder.MForms | src/lib.rs:262-289 | the computations that read M are exactly the ten M forms |
| Decoder.MForm | src/lib.rs:262-289 | the code of each M form is that of its A form with the `a` bit set |
| Decoder.DecodeA | src/lib.rs:225-234 | no address gives `MissingAddress`; otherwise the word is `0` and bits denoting the address, of 16 characters exactly when the address is below 2^15 |
| Decoder.PaddedWord | src/lib.rs:233 | `0` and the 15-digit padded binary numeral of `n` denote `n`, and are 16 characters exactly when `n < 2^15` |
| Decoder.PaddedBits | src/lib.rs:233 | padding a numeral to 15 digits after a `0` keeps its value |
| Decoder.DecodeC | src/lib.rs:236-321 | the word is produced exactly when every present field is in its table; otherwise the first unknown mnemonic, in the order destination, computation, jump, is the error. The word is bits, starts with `111`, then holds the computation, destination and jump codes of the present fields in that order (7, 3 and 3 bits) |
| Decoder.DecodeCFields | src/lib.rs:319 | a C word with all fields is 16 bits: `111`, the computation code, the destination code, the jump code |
| Decoder.CompRoundTrip | src/lib.rs:319 | the computation of a C word is recovered from bits 3 to 9 |
| Decoder.Decode | src/lib.rs:203-223 | the loop that appends one terminated word per A or C instruction computes `DecodeAll` |
| Decoder.Emitting | src/lib.rs:207-219 | the instructions that produce a word are no more than the input and contain no label |
| Decoder.DecodeAllWords | src/lib.rs:203-223 | successful output is the words, each followed by a newline |
| Decoder.DecodeAllResult | src/lib.rs:203-223 | `decode` succeeds exactly when every instruction encodes; otherwise its error is that of the first instruction that does not |
| Decoder.WordsEmitting | src/lib.rs:207-219 | there is one word per A or C instruction, in order, and each is that instruction's encoding |
| Decoder.WordAt | src/lib.rs:207-219 | the `k`-th word is the encoding of the `k`-th A or C instruction |
| Decoder.EncodedBits | src/lib.rs:209-217 | every word written is binary digits |
| Decoder.TerminatedLines | src/lib.rs:211 | reading newline-terminated words back as lines gives the words |
| Decoder.DecodeLines | src/lib.rs:203-223 | the lines of the output are the encodings of the A and C instructions, in input order, one line each; labels give none |
| Draft.FileNameOkIff | src/main.rs:28-33 | the name check accepts a path exactly when it ends in `.asm` and has no other `.` |
| Draft.Before | src/main.rs:68-69 | the first piece of a `split` is the prefix before the first occurrence of the separator, or all of it when there is none |
| Draft.FirstAndLastCut | src/main.rs:66-71 | the draft cuts a comment at the first `//`, while `src/lib.rs` cuts at the last |
| Draft.InstructionType | src/main.rs:74-86 | a line is type A exactly when it starts with `@`, L exactly when it starts with `(`, and C otherwise |
| Draft.GetDest | src/main.rs:89-97 | for a C line, the prefix before the first `=`, or the whole line when there is no `=`; for any other type, empty |
| Draft.GetDestAgrees | src/main.rs:89-97 | on a line `src/lib.rs` divides with a destination and an `=`, the draft's destination is `src/lib.rs`'s |
| Draft.TypeAAgrees | src/main.rs:79-80 | a line of two or more characters is type A exactly when `src/lib.rs` parses it as an A instruction |
| Draft.TypeLAgrees | src/main.rs:81-82 | a type L line ending in `)` is the label `src/lib.rs` makes of it |
| Draft.TypeLDisagrees | src/main.rs:81-82 | `X(Y)` is type C in the draft, but a label in `src/lib.rs` |
| Draft.SpacedDest | src/main.rs:92-93 | the draft keeps inner spaces, so the destination of `A = M` is `A ` |
| Draft.NonEmpty | src/main.rs:56 | the filter keeps only non-empty lines |
| Draft.Positions | src/main.rs:56-58 | one position per kept line, each within the input |
| Draft.PositionAt | src/main.rs:56-58 | the `k`-th kept line is the cleaned line at the `k`-th position |
| Draft.PositionsIncrease | src/main.rs:56-58 | kept lines keep their order |
| Draft.PositionOf | src/main.rs:56-58 | every non-empty cleaned line is kept |
| Draft.ParseContentRows | src/main.rs:51-63 | row `k` of `parse_content` is numbered `k`, consecutively from 0, and holds the `k`-th surviving cleaned line (non-empty), its type and its destination |
| Draft.ParseContentComplete | src/main.rs:54-58 | every line left non-empty by trimming and cutting gets a row |
| Scenarios.TestLines | src/lib.rs:171 | the test file has the three lines `@1 // @1`, `(LABEL)` and `A = M + 1; JMP` |
| Scenarios.SpacedWords | src/lib.rs:45-49 | removing whitespace from words joined by spaces runs the words together |
| Scenarios.SpacesFirst | src/lib.rs:171 | the first test line without whitespace is `@1//@1` |
| Scenarios.SpacesThird | src/lib.rs:171 | the third test line without whitespace is `A=M+1;JMP` |
| Scenarios.CleanFirst | src/lib.rs:171 | cleaning `@1 // @1` leaves `@1` |
| Scenarios.CleanSecond | src/lib.rs:171 | cleaning `(LABEL)` leaves it as it is |
| Scenarios.CleanThird | src/lib.rs:171 | cleaning `A = M + 1; JMP` leaves `A=M+1;JMP` |
| Scenarios.TestCleaned | src/lib.rs:171 | the three test lines survive cleaning |
| Scenarios.ShapeDigits | src/lib.rs:96 | the parts of each C division, in priority order |
| Scenarios.ParseNumeral | src/lib.rs:105-113 | a decimal operand within `usize` gives that address and no symbol |
| Scenarios.ParseFirst | src/lib.rs:177-181 | `@1` at line 0 is the A instruction with address 1 and no symbol at line 0 |
| Scenarios.ParseSecond | src/lib.rs:182-185 | `(LABEL)` at line 1 is the label `LABEL` at line 2 |
| Scenarios.FullCLine | src/lib.rs:96 | a line `d=ccc;jjj` is divided as written |
| Scenarios.ParseThird | src/lib.rs:186-191 | `A=M+1;JMP` at line 2 has destination `A`, computation `M+1` and jump `JMP`, at line 2 |
| Scenarios.ThreeLines | src/lib.rs:29-35 | three lines that parse give their three instructions, in order |
| Scenarios.TestParse | src/lib.rs:168-193 | the test file parses to `@1` at line 0, `LABEL` at line 2 and `A=M+1;JMP` at line 2 |
| Scenarios.WordOfOne | src/lib.rs:233 | `@1` is the word `0000000000000001` |
| Scenarios.WordOfThird | src/lib.rs:319 | `A=M+1;JMP` is the word `1111110111100111` |
| Scenarios.TestDecode | src/lib.rs:203-223 | the test's instructions decode to those two words, each on its own line, and the label to nothing |
| Scenarios.ShortWord | src/lib.rs:316 | without a jump the word has no jump bits: `D=M+1` is the 13 characters `1111110111010` |
| Scenarios.JumpOnlyLine | src/lib.rs:96 | in a line `d;jjj` the optional destination takes `d`, so the computation is `;` |
| Scenarios.UnconditionalJump | src/lib.rs:96 | `0;JMP` is divided as dest `0`, comp `;`, jump `JMP`, and decoding it stops at the unknown destination `0` |
| Scenarios.ConditionalJump | src/lib.rs:96 | `D;JGT` is divided as dest `D`, comp `;`, jump `JGT`, and decoding it stops at the unknown computation `;` |
| Scenarios.ThreeLetterDest | src/lib.rs:96 | in a line `ddd=c` the destination takes two letters and the computation the rest |
| Scenarios.ThreeRegisterStore | src/lib.rs:96 | `AMD=M` is divided as dest `AM`, comp `D=M`, and decoding it stops at the unknown computation `D=M` |
| Scenarios.SymbolOperand | src/lib.rs:228-231 | `@foo` is an A instruction with the symbol `foo` and no address, and decoding it stops with `MissingAddress` |

## Left out

- Input and output: `main`'s argument handling, `fs::read_to_string`, and the
  `println!`/`eprintln!` messages, including the printing loop of `parse_content`.
  `parse_content` is modelled as the sequence of rows it would print.
- `panic!` in `read_assembly` (a rejected name) is modelled as the predicate
  `Draft.FileNameOk`. `process::exit(1)` is modelled as an error value.
- The `symbol_table` module of `src/lib.rs`, whose `create` has an empty body;
  `translate_address` in `src/code.rs`; and all of `src/parser.rs`. They hold only empty
  stubs, so no resolution of symbols or labels is invented.
- The unused `ParsedLine` struct of `src/main.rs`.
- The regex crate in general: only the three patterns above and the way
  leftmost-first matching picks among their divisions are modelled.
- `\w`: modelled as ASCII letters, digits and `_`. Rust's `\w` also accepts Unicode
  letters and digits, which this model rejects.
- `usize`: taken as 64 bits; a 32-bit target would turn more numerals into symbols.
- Parser.Lines: `str::lines` also strips a `\r` before each `\n`; the model keeps it.
  Cleaning then removes it anyway, because `\r` is whitespace.
