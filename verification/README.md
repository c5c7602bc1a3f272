# SPENCER terminal core: model and proofs

This project models the terminal core of SPENCER, the pipeline

    bytes -> Utf8Decoder -> TerminalParser -> TerminalOperations -> TerminalState

and proves what it does for every byte stream and every sequence of window actions.

Each of the three C++ classes is a Dafny class with the same fields, updated in place by the same
loops and branches: `Utf8Decoder` (Utf8Decoder.dfy), `TerminalParser` (TerminalParser.dfy) and
`TerminalState` (TerminalState.dfy). Each method is proved against a function on values:
`Utf8Model`, `ParserModel` with `Parameters`, and `TerminalModel`. The theorem modules are about
those functions, so they hold of the classes:

- `Utf8Theorems`: the decoder against RFC 3629, and against a division of the whole input that
  looks ahead instead of keeping state.
- `Decimals`, `PrintParse`: parsing inverts writing, for parameters, single commands and lists of
  commands (ECMA-48, sections 5.4 and 5.6).
- `ParserLaws`: invariant, stale buffers cannot be observed, bounds on what reaches the terminal,
  controls pass through.
- `StreamGrammar`: a grammar of whole byte streams that knows no parser; its tokens end exactly where
  the parser is in Ground.
- `OscTitles`: which operating system commands set the title, against that grammar.
- `GridLaws`, `Sgr`, `Printing`, `Marks`: every operation and window action on any well-formed terminal,
  field by field and cell by cell: resizing, erasing, moving, styles, printing, combining marks.
- `Runs`, `Scrollback`: runs of operations mixed with resizes, limit changes and redraws.
- `Layout`: printed text against a greedy row layout that knows no terminal.
- `Pipeline`: parser and terminal together, from bytes to rows.

The virtual calls of `TerminalOperations` are direct calls on a `TerminalState`; a ghost field `log`
of that class records them in order. The decoder's consumer is an out-parameter that holds the code
points in order of emission. Octets and code points are unbounded integers in the value functions,
so the theorems hold on more inputs than there are; the byte-fed methods of the classes require
octets. `std::size_t` sums that can wrap are written modulo 2^64.

Where the code and what one might expect of it differ, the code is kept and the difference is proved:

- A character whose UTF-8 form contains 90, 9B or 9D is not printed, because the parser tests those
  bytes first (`PrintParse.TextPrintedExactly`, `PrintParse.LostCharacter`), although
  docs/terminal-compatibility.md promises UTF-8 scalar decoding.
- A combining mark behind a narrow character that goes to the last column joins another cell
  (`Marks.MarkJoinsExactlyIfInReach`, `Marks.MarkMissesLastColumn`).
- A parameter list of one empty field without `?` is read as no list (`Decimals.ParametersRoundTrip`).
- Splitting an SGR command in two is harmless exactly if the first half is complete
  (`Sgr.ConcatExactlyIfComplete`).
- Lowering the scrollback limit drops rows without marking damage (`Runs.LimitDropsUnmarked`,
  `Runs.RowDroppedUnmarked`).
- Cursor moves down and right stop at the edge exactly if the 64-bit sum does not wrap
  (`GridLaws.SumsClampedExactly`, `GridLaws.LargestCountMovesUp`); counts from the parser never wrap it (`ParserLaws.CountsNeverWrap`).
- Inside a control sequence ESC is executed as a control and does not start a new sequence
  (`ParserLaws.ControlsInsideSequence`).

## Model

| member | source | states |
|---|---|---|
| Utf8DecoderClass.Utf8Decoder.Process | src/parser/utf8_decoder.cpp:34-87 | one byte moves the three fields and emits as the value step says, with the restart after an unexpected byte as a recursive call |
| Utf8DecoderClass.Utf8Decoder.Flush | src/parser/utf8_decoder.cpp:17-22 | an unfinished sequence yields one U+FFFD and the decoder is idle |
| Utf8Model.MaskPairLead | src/parser/utf8_decoder.cpp:41-46 | on machine octets the mask 1F is the remainder modulo 32 used in the model |
| Utf8Model.MaskTripleLead | src/parser/utf8_decoder.cpp:48-53 | the mask 0F is the remainder modulo 16 |
| Utf8Model.MaskQuadrupleLead | src/parser/utf8_decoder.cpp:55-60 | the mask 07 is the remainder modulo 8 |
| Utf8Model.MaskContinuation | src/parser/utf8_decoder.cpp:66 | the test of the two top bits is the range 80 to BF |
| Utf8Model.ShiftIsJoin | src/parser/utf8_decoder.cpp:73 | on a 32-bit word no larger than reachable, shifting in six bits is multiplying by 64 and adding, without overflow |
| Utf8Theorems.Segmentation | src/parser/utf8_decoder.cpp:34-87 | every input splits, in order, into non-empty segments and an unfinished tail; one emission for each segment, the scalar value it encodes by RFC 3629 section 3 or else U+FFFD; the decoder waits exactly when there is a tail |
| Utf8Theorems.EmissionBounds | src/parser/utf8_decoder.cpp:79-86 | from any state only scalar values are emitted, and emissions with the flush never exceed the bytes fed by more than the one already pending |
| Utf8Theorems.EncodeInjective | src/parser/utf8_decoder.cpp:41-60 | two scalar values never share an encoding, so the meaning of a segment is unique |
| Utf8Theorems.DecodeConcat | src/parser/utf8_decoder.cpp:13-15 | input fed in fragments decodes as the whole does |
| Utf8Theorems.RoundTripAfterGarbage | src/parser/utf8_decoder.cpp:17-86 | any bytes followed by encoded text decode to what the bytes decode to, followed by the text: the decoder always resynchronises |
| Utf8Theorems.RoundTrip | src/parser/utf8_decoder.cpp:34-86 | decoding inverts encoding on every list of scalar values |
| Parameters.ParseText | src/parser/terminal_parser.cpp:288-317 | the find-and-slice loop reads the first 32 fields of the split on semicolons, behind one leading question mark, each its value or -1, and terminates |
| Parameters.SplitIsDivision | src/parser/terminal_parser.cpp:298-315 | the fields joined by semicolons are the buffered text again |
| Parameters.FieldsHoldNoSemicolon | src/parser/terminal_parser.cpp:299-300 | no field contains a semicolon |
| Decimals.FieldReadsExactly | src/parser/terminal_parser.cpp:301-309 | a field reads as v if and only if it is a numeral of v in the range of an int, leading zeros and a minus sign allowed, or v is -1 and the field, empty, malformed or too large, is a numeral of nothing in that range |
| Decimals.ParametersRoundTrip | src/parser/terminal_parser.cpp:288-317 | a written list of at most 32 parameters, empty or 0 to 2^31-1, is read back, exactly unless it is the lone empty field |
| Decimals.PrivateParametersRoundTrip | src/parser/terminal_parser.cpp:294-297 | behind a question mark every such list with an entry is read back |
| TerminalParserClass.TerminalParser.Feed | src/parser/terminal_parser.cpp:34-38 | feeding bytes moves the parser, the call log and the terminal exactly as the run of byte steps |
| TerminalParserClass.TerminalParser.ProcessByte | src/parser/terminal_parser.cpp:58-75 | CAN and SUB flush, clear and return to Ground; any other byte is handled by the current state |
| TerminalParserClass.TerminalParser.ProcessGround | src/parser/terminal_parser.cpp:77-103 | new configuration and calls in Ground, introducers before the decoder |
| TerminalParserClass.TerminalParser.ProcessEscape | src/parser/terminal_parser.cpp:105-123 | new configuration and calls behind ESC |
| TerminalParserClass.TerminalParser.ProcessCsi | src/parser/terminal_parser.cpp:125-155 | collecting, overflow, controls and dispatch in a control sequence |
| TerminalParserClass.TerminalParser.ProcessOsc | src/parser/terminal_parser.cpp:157-196 | collecting, pairs with ESC, overflow and the three terminators |
| TerminalParserClass.TerminalParser.ProcessString | src/parser/terminal_parser.cpp:198-208 | an ignored string ends at ST or ESC backslash and calls nothing |
| TerminalParserClass.TerminalParser.ExecuteCsi | src/parser/terminal_parser.cpp:214-251 | each final byte calls its operation with its parameters, others call none |
| TerminalParserClass.TerminalParser.ExecuteOsc | src/parser/terminal_parser.cpp:253-264 | searching for the first semicolon finds a title exactly if the payload reads 0; or 2; and more |
| TerminalParserClass.TerminalParser.Flush | src/parser/terminal_parser.cpp:44-50 | the decoder is flushed to the terminal and any sequence abandoned |
| TerminalParserClass.TerminalParser.ResetParser | src/parser/terminal_parser.cpp:52-56 | the parser returns to its initial configuration without a call |
| ParserModel.RunConcat | src/parser/terminal_parser.cpp:34-38 | a stream fed in fragments calls the same operations as the whole |
| ParserLaws.RunKeepsSound | src/parser/terminal_parser.cpp:58-286 | in every run the decoder is idle outside Ground, both buffers stay within 4096 bytes, parameters exist in Csi only, and the private flag is set exactly when they start with a question mark |
| ParserLaws.RunAgrees | src/parser/terminal_parser.cpp:157-208 | configurations that agree on state, decoder and the buffer in use call the same operations on every future input |
| ParserLaws.FlushAgrees | src/parser/terminal_parser.cpp:44-56 | flush keeps that agreement, and reset agrees with a new parser |
| ParserLaws.GroundIsAsNew | src/parser/terminal_parser.cpp:198-208 | in Ground with an idle decoder, stale payload or not, the parser behaves as new |
| ParserLaws.CancelRestarts | src/parser/terminal_parser.cpp:59-64 | after CAN or SUB at any point the rest of the stream is handled as by a new parser |
| ParserLaws.FlushRestarts | src/parser/terminal_parser.cpp:44-56 | a flush prints U+FFFD exactly for an unfinished character, and then, as after a reset, the stream is handled as by a new parser |
| ParserLaws.InterruptedText | src/parser/terminal_parser.cpp:58-102 | text ended by ESC, CSI, OSC, DCS, CAN, SUB or a flush is printed as its complete decoding, a character cut off as U+FFFD |
| ParserLaws.SevenBitBytes | src/parser/terminal_parser.cpp:77-103 | graphic seven-bit bytes are printed, DEL and the other controls executed |
| ParserLaws.SequenceBytes | src/parser/terminal_parser.cpp:125-155 | which bytes keep a control sequence open and which end it |
| ParserLaws.RunBounded | src/parser/terminal_parser.cpp:214-264 | every operation called is bounded: scalar values, counts of at least one below 2^31, at most 32 parameters that are 32-bit integers, titles within the buffer |
| ParserLaws.CountsNeverWrap | src/terminal/terminal_state.cpp:93-103 | on grids with sides below 2^31 bounded counts never wrap: the cursor stops at the edge |
| ParserLaws.ControlsAreTransparent | src/parser/terminal_parser.cpp:98-134 | in text and inside a control sequence, removing the C0 controls changes neither the final configuration nor the other operations, and the controls are executed in order |
| ParserLaws.ControlsInText | src/parser/terminal_parser.cpp:77-103 | in Ground the prints are the decoder's output on the text without its controls |
| ParserLaws.ControlsInsideSequence | src/parser/terminal_parser.cpp:125-155 | controls inside a control sequence of any length, ESC too, are executed and change nothing about what the next byte does |
| ParserLaws.Collects | src/parser/terminal_parser.cpp:125-149 | the parameter buffer holds exactly the bytes of the sequence that are not controls |
| StreamGrammar.GroundBehindTokens | src/parser/terminal_parser.cpp:58-208 | a stream leaves a new parser in Ground if and only if it is a sequence of whole tokens: characters' bytes, escape sequences, control sequences, commands and strings, each as long as its limits allow |
| StreamGrammar.StateIsUnfinishedToken | src/parser/terminal_parser.cpp:58-208 | in every stream the state names the kind of the unfinished token behind the last whole one, oversized commands and dropped parameters included |
| OscTitles.PayloadIsRaw | src/parser/terminal_parser.cpp:157-196 | after every byte stream that ends in Osc or OscEscape the payload is the raw bytes since an introducer that stands behind whole tokens, less a trailing ESC |
| StreamGrammar.BodyRun | src/parser/terminal_parser.cpp:165-195 | a payload of at most 4096 bytes is collected byte for byte, a longer one ends in String, and neither calls anything |
| OscTitles.TitlePayloads | src/parser/terminal_parser.cpp:253-264 | a payload names a title if and only if it is 0; or 2; followed by that title |
| OscTitles.TitleSetExactly | src/parser/terminal_parser.cpp:157-196 | in every stream a byte sets the title if and only if, behind whole tokens, it completes an uncancelled command whose raw payload is at most 4096 bytes and reads 0;title or 2;title |
| OscTitles.OversizedDoesNothing | src/parser/terminal_parser.cpp:169-194 | completing a payload over 4096 bytes calls nothing |
| OscTitles.TitleAfterStream | src/terminal/terminal_state.cpp:205-207 | after every stream the title is that of the last such command, cut to 512 bytes |
| OscTitles.TitleApplied | src/terminal/terminal_state.cpp:205-207 | setting a title stores its first 512 bytes and changes nothing else |
| PrintParse.ParseInvertsPrint | src/parser/terminal_parser.cpp:58-264 | any list of supported commands, in 7-bit or 8-bit form, fed to a new parser calls exactly the operations they stand for and leaves the parser as new |
| PrintParse.CommandRun | src/parser/terminal_parser.cpp:105-264 | the same for each single command |
| PrintParse.OtherEscapes | src/parser/terminal_parser.cpp:105-123 | ESC and a byte that starts no sequence leaves the parser as new, and calls nothing but for 7, 8, c, D and E |
| PrintParse.SequenceExactly | src/parser/terminal_parser.cpp:125-251 | a control sequence of any bytes and any length executes its controls and calls what its final byte stands for, with counts, rows and columns of at least one, erase modes of at least zero and 4096 bytes of parameters; a byte over 7E ends it without a call |
| PrintParse.OmittedParameters | src/parser/terminal_parser.cpp:214-250 | with or without a question mark, counts, rows and columns that are missing, empty or zero mean one, erase modes zero |
| PrintParse.UnsupportedSequences | src/parser/terminal_parser.cpp:223-250 | a control sequence calls an operation if and only if its final byte is a supported one, with the private prefix for h and l; either way the parser is left as new |
| PrintParse.CharacterPrintedExactly | src/parser/terminal_parser.cpp:83-102 | an encoded character is printed if and only if none of its bytes is 90, 9B or 9D |
| PrintParse.TextPrintedExactly | src/parser/terminal_parser.cpp:83-102 | encoded text without controls is printed, the parser left as new, if and only if no character holds such a byte |
| PrintParse.LostCharacter | src/parser/terminal_parser.cpp:83-87 | U+00DB prints U+FFFD and opens a control sequence |
| TerminalStateClass.TerminalState.constructor | src/terminal/terminal_state.cpp:18-22 | a blank grid of the sanitized size, cursor home, default style and modes, limit capped |
| TerminalStateClass.TerminalState.Resize | src/terminal/terminal_state.cpp:32-55 | the copying loops keep the top left corner, pad with blanks and clamp both cursors; nothing happens at the same size |
| TerminalStateClass.TerminalState.SetScrollbackLimit | src/terminal/terminal_state.cpp:57-62 | the limit is capped and the oldest rows above it are dropped |
| TerminalStateClass.TerminalState.Print | src/terminal/terminal_state.cpp:67-73 | combining marks join a cell, other characters are placed |
| TerminalStateClass.TerminalState.ExecuteControl | src/terminal/terminal_state.cpp:75-85 | backspace, tab, the three line feeds and carriage return; others change nothing |
| TerminalStateClass.TerminalState.EraseInDisplay | src/terminal/terminal_state.cpp:118-141 | the row loops blank exactly the cells of the mode; mode 3 empties the scrollback |
| TerminalStateClass.TerminalState.EraseInLine | src/terminal/terminal_state.cpp:143-151 | the same on the row of the cursor |
| TerminalStateClass.TerminalState.SetGraphicsRendition | src/terminal/terminal_state.cpp:153-203 | the indexed loop, whose callee moves the index, applies the commands from left to right and terminates |
| TerminalStateClass.TerminalState.ApplyExtendedColor | src/terminal/terminal_state.cpp:400-426 | colour and number of parameters used, also when the command is cut short |
| TerminalStateClass.TerminalState.SetPrivateMode | src/terminal/terminal_state.cpp:209-218 | cursor visibility and bracketed paste follow modes 25 and 2004, wherever they stand in the list |
| TerminalStateClass.TerminalState.RestoreCursor | src/terminal/terminal_state.cpp:222-227 | the saved cursor, clamped to the grid |
| TerminalStateClass.TerminalState.ResetState | src/terminal/terminal_state.cpp:229-239 | every field that a reset touches, by the loop over the rows |
| TerminalStateClass.TerminalState.LineFeed | src/terminal/terminal_state.cpp:245-260 | one row down, or scroll the top row into the bounded scrollback |
| TerminalStateClass.TerminalState.ClearRange | src/terminal/terminal_state.cpp:290-297 | the loop blanks the clamped range of one row and nothing else |
| TerminalStateClass.TerminalState.AppendCombiningMark | src/terminal/terminal_state.cpp:299-317 | the backward scan finds the target cell, whose text grows by the mark |
| TerminalStateClass.TerminalState.PutPrintable | src/terminal/terminal_state.cpp:319-360 | pending wrap, wide characters, the insert loop, placement and the new pending wrap |
| TerminalModel.HandleAll | src/terminal/terminal_state.cpp:32-360 | every run of operations and window actions keeps the terminal well formed: rows of equal length, both cursors inside, wrap pending only in the last column, column 0 never a continuation, scrollback within its limit, title within 512 bytes |
| GridLaws.NewTerminal | src/terminal/terminal_state.cpp:18-22 | a new terminal has the sanitized size, spaces in the default style in every cell, the cursor home and visible, automatic wrap on and all else off, and a limit of at most 1,000,000 rows |
| GridLaws.LimitKeepsNewest | src/terminal/terminal_state.cpp:57-64 | a limit is capped and keeps the newest rows that fit; clearing damage changes that flag only |
| GridLaws.ResizeCells | src/terminal/terminal_state.cpp:32-55 | cell by cell, a new size keeps the top left corner, clamps both cursors, ends a pending wrap and marks damage; the same size changes nothing |
| GridLaws.ResizeComposition | src/terminal/terminal_state.cpp:32-55 | resizing by way of a size no smaller than the smaller end in each dimension equals resizing directly, but for pending wrap and damage |
| GridLaws.GrowAndShrinkBack | src/terminal/terminal_state.cpp:39-52 | growing and shrinking back changes nothing but those two flags |
| GridLaws.EraseDisplayRowMajor | src/terminal/terminal_state.cpp:118-141 | the operation blanks exactly the cells at or after, at or before, or anywhere around the row-major index of the cursor; mode 3 empties the scrollback and leaves the screen, higher modes do nothing; nothing else changes |
| GridLaws.EraseLineCells | src/terminal/terminal_state.cpp:143-151 | the operation does so on the row of the cursor, with no mode 3 |
| GridLaws.EraseBothHalves | src/terminal/terminal_state.cpp:118-151 | mode 0 followed by mode 1 is mode 2, in the display and in the line |
| GridLaws.MovesAreClamped | src/terminal/terminal_state.cpp:87-116 | moves, backspace and carriage return go towards their goal as far as the grid allows, end a pending wrap and change nothing else |
| GridLaws.LineFeedMovesDown | src/terminal/terminal_state.cpp:245-260 | LF, VT and FF go one row down in the same column; on the last row every row moves up, the top one to the end of the bounded scrollback |
| GridLaws.OtherControlsDoNothing | src/terminal/terminal_state.cpp:75-85 | BEL and all other controls change nothing, not even damage |
| GridLaws.SumsClampedExactly | src/terminal/terminal_state.cpp:93-103 | so do moves down and right, if and only if the 64-bit sum does not wrap |
| GridLaws.LargestCountMovesUp | src/terminal/terminal_state.cpp:93-97 | moving down by 2^64-1 goes one row up |
| GridLaws.TabStops | src/terminal/terminal_state.cpp:276-281 | a tab stops at the next multiple of eight or at the last column |
| GridLaws.ResetIsNew | src/terminal/terminal_state.cpp:229-239 | a reset yields a new terminal of the same size, but for scrollback and title |
| Sgr.StyleRoundTrip | src/terminal/terminal_state.cpp:153-203 | on any terminal the canonical parameters of a canonical style set exactly that style |
| Sgr.ConcatExactlyIfComplete | src/terminal/terminal_state.cpp:153-203 | two parameter lists in one operation act as two operations, for every terminal and second list, if and only if the first list is complete |
| Sgr.CutShortCommands | src/terminal/terminal_state.cpp:400-426 | 38 or 48 with an unknown kind or too few components skips two parameters and reads the rest as commands |
| Sgr.LongColors | src/terminal/terminal_state.cpp:400-426 | indexed and true colours are set with each component clamped to an octet |
| Sgr.DefaultStyles | src/terminal/terminal_state.cpp:153-159 | no parameter, zero and negative ones set the default style; 39 and 49 one default colour |
| Sgr.UnknownParameters | src/terminal/terminal_state.cpp:156-201 | any other number changes nothing but damage |
| Sgr.PaletteParameters | src/terminal/terminal_state.cpp:184-195 | the short forms of the sixteen colours equal their indexed long forms |
| Sgr.FlagSwitches | src/terminal/terminal_state.cpp:161-183 | on any terminal each attribute goes on and off alone, keeping what was set before, except that bold and dim go off together |
| Sgr.StyleStaysCanonical | src/terminal/terminal_state.cpp:391-426 | in every run the style keeps canonical colours and no attribute bit beyond six |
| Printing.WideAreAmong | src/terminal/terminal_state.cpp:370-385 | a character is wide exactly if it lies in one of eleven ranges |
| Printing.CombiningAreAmong | src/terminal/terminal_state.cpp:362-368 | a combining mark lies in one of five |
| Printing.PrintExactly | src/terminal/terminal_state.cpp:319-360 | on any well-formed terminal, insert mode and all, printing a character fills its one or two cells and gives every other cell, the cursor, the pending wrap and the scrolled row; nothing else changes |
| Printing.MarkExactly | src/terminal/terminal_state.cpp:299-317 | a mark joins the last cell before the cursor that is no right half, in the row above if the cursor is in column 0, and changes nothing else; in the first cell it prints U+FFFD |
| Marks.TargetIsLead | src/terminal/terminal_state.cpp:305-314 | in every well-formed terminal the backward scan stops on a cell that is no continuation |
| Marks.GlyphPlaced | src/terminal/terminal_state.cpp:345-358 | which cells a printed character fills, where the cursor goes, and when a wrap is pending |
| Marks.MarksJoinCharacter | src/terminal/terminal_state.cpp:299-317 | marks printed behind a character in reach, narrow or wide, all join its cell in order and change nothing else |
| Marks.MarkJoinsExactlyIfInReach | src/terminal/terminal_state.cpp:305-315 | a mark joins the character before it if and only if that is wide or, by cursor and pending wrap before it was printed, does not go to the last column |
| Marks.MarkMissesLastColumn | src/terminal/terminal_state.cpp:305-315 | on a row of two, a mark behind the second letter joins the first |
| Runs.ModesNeverChange | src/terminal/terminal_state.cpp:209-239 | no run turns insert mode on or automatic wrap off, so the insert loop is never reached |
| Runs.SaveAndRestore | src/terminal/terminal_state.cpp:220-227 | saving copies the cursor; restoring copies it back, ends a pending wrap and marks damage; neither changes anything else |
| Runs.RestoreAfterRun | src/terminal/terminal_state.cpp:220-227 | after a save and any run without another save or a reset, the restore operation returns to the saved place, clamped by the smallest grid since |
| Runs.PrivateModesSet | src/terminal/terminal_state.cpp:209-218 | modes 25 and 2004 take the value given and no other mode changes anything but damage |
| Runs.FlagsAfterRun | src/terminal/terminal_state.cpp:209-239 | after every run cursor visibility and bracketed paste are what the mode switches, saves, restores and resets in it make them |
| Runs.DamageSoundness | src/app/main.cpp:214-217 | if the damage flag stays clear over a run, only title, saved cursor and limit may have changed |
| Runs.LimitDropsUnmarked | src/terminal/terminal_state.cpp:57-62 | a new limit never marks damage, and leaves the scrollback alone if and only if it fits |
| Runs.RowDroppedUnmarked | src/terminal/terminal_state.cpp:57-62 | a scrolled row is dropped with the damage flag clear |
| Scrollback.RowsConserved | src/terminal/terminal_state.cpp:245-260 | printing and controls conserve rows: pushed rows and new screen together are the old screen with a blank row for each, except for one written row |
| Scrollback.ScrollbackIsSuffixOfLog | src/terminal/terminal_state.cpp:57-62 | in every run, limits changing, the scrollback is the newest end of the log of rows scrolled off since the last ED 3, unmodified and in order |
| Scrollback.ScrollbackIsNewestOfLog | src/terminal/terminal_state.cpp:249-254 | under a constant limit it is exactly the newest rows of the log, as many as fit |
| Scrollback.ScrollbackOfNewTerminal | src/terminal/terminal_state.cpp:18-22 | and so from a new terminal on |
| Layout.FitCountIsLongest | src/terminal/terminal_state.cpp:325-332 | each piece of the layout is the longest front part of the text that is no wider than the row |
| Layout.PrintInPage | src/terminal/terminal_state.cpp:319-360 | a printed character joins the last row if it fits and starts a new one if not |
| Layout.LayoutRefinement | src/terminal/terminal_state.cpp:245-360 | text printed on a new terminal, lines joined by CR LF, leaves scrollback and screen together equal to the last rows of its greedy layout, the rest blank |
| Pipeline.SystemRunIsTerminalRun | src/app/main.cpp:206-217 | what bytes and window actions do to the terminal is a run of events, so every theorem about runs holds of byte streams |
| Pipeline.AlwaysWellFormed | src/terminal/terminal_state.cpp:18-360 | from new parser and terminal no byte stream, resizing or limit change breaks any invariant of either |
| Pipeline.SkippedFrames | src/app/main.cpp:214-217 | the renderer may skip a batch of bytes and resizes that leaves the damage flag clear |
| Pipeline.BytesToRows | src/parser/terminal_parser.cpp:34-103 | encoded text with CR LF, fed as bytes, shows the last rows of its layout |

## Left out

- src/app/main.cpp: windows, drawing, key translation and timers; of it only the order in which it feeds bytes and looks at the damage flag is used.
- src/pty/linux_pty.cpp and include/spencer/util/unique_fd.hpp: processes, descriptors and signals belong to the operating system.
- src/config/config.cpp: a table of range checks, each settled by one branch.
- `std::from_chars`, `std::string::find` and containers: library code, modelled by what it returns; memory exhaustion is not modelled.
- Utf8DecoderClass.Utf8Decoder.Process: masks and shifts are written as remainders and products; that they agree on machine words is proved beside it (`Utf8Model.MaskContinuation` and the lemmas around it).
- Pipeline.BytesToRows: for characters without the bytes 90, 9B and 9D, as the parser demands (`PrintParse.CharacterPrintedExactly`), and without combining marks, which `Marks` treats.
- `clamp_count`, `sequence_bytes_`, `modes_.origin` and `modes_.alternate_screen`: never read by the source.
- Unicode width and combining tables beyond the ranges written in the source.
