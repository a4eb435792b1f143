# xxd dump engine in Dafny

This project models the dump engine of a Go clone of `xxd`: the function
`xxd(r, fname)` in `xxd.go` and its pure helpers. The engine reads an input
stream in lines of `cols` octets and writes one text line per chunk. It
supports four layouts: a canonical hex dump, postscript-style plain hex, a
binary-digit dump and a C array. Options cover the digit case (`-u`), an
EBCDIC sidebar (`-E`), autoskip of all-zero lines (`-a`) and a length limit
(`-l`).

The model is an in-memory transform. It maps a flag configuration, a file
name and an input octet sequence to the output text, or to the Go runtime
panic the engine would hit. Output is a `string` with one character per
output byte.

Modules:

- `Encoding` (`encoding.dfy`) holds the octet type and the digit tables. It
  models `hexEncode`, `binaryEncode` and `empty`, with decoders and
  round-trip lemmas.
- `Layout` (`layout.dfy`) holds the flags the engine reads (`Config`). It
  resolves `cols` and `octs` (`Resolve`) and models the C identifier rewrite
  (`CName`). It also defines the predicates that decide whether a line has
  an offset header and a sidebar.
- `Sidebar` (`sidebar.dfy`) holds the EBCDIC table and the printable-character
  sidebar.
- `Render` (`render.dfy`) renders one line: the offset header or C
  declaration, the per-octet tokens, the padding of a short line, the
  separating space, the sidebar and the newline. It also covers the panics
  that rendering can hit.
- `Engine` (`engine.dfy`) models the read loop. `Run` computes the trace of
  iterations: the state each started in, the line buffer after `io.ReadFull`,
  the octet count, and whether autoskip rendered or elided the line. `Emit`
  renders the trace by joining what each iteration writes (`Join`). `Dump` is
  the whole engine; its text is what has been flushed when it returns.
- `RunFacts` (`run_facts.dfy`) proves properties of the loop: chunking, the
  line count, `-l`, autoskip, the offset counter, the C declaration flag and
  the stale buffer.
- `DumpFacts` (`dump_facts.dfy`) proves properties of the whole dump: when it
  panics, when it succeeds, what empty input gives, where each iteration's
  text sits in the dump, what each header carries, the C declaration it
  starts with, and that the octets of every rendered line read back from it.

The engine's runtime panics are results, not preconditions. `Outcome` is
either `Text(s)` or `Panic(fault)`. The faults are:

- a negative line size in `make`;
- an offset needing more than six hex digits, which breaks the slice bound
  of the zero header;
- a digit buffer smaller than the encoder writes.

As a result, the whole engine (`Dump`, and `Emit` on any well-formed trace)
is total: it has no precondition on the configuration or the input. The
helpers it calls keep the preconditions the engine meets for them.

### Quirks of xxd.go the model reproduces

- The offset header pads the hex digits with `'0'`. It is always lower case,
  even with `-u`.
- The header prints `lineOffset` followed by a literal `0`. `lineOffset`
  counts lines, not octets, so the header equals the octet offset only when a
  line holds 16 octets.
- The C-array payload is a single space. Its loop guard `i < n && i != 0`
  fails at `i == 0`, so no `0x..,` bytes are ever written.
- Short-line padding and the trailing space are written in every layout,
  including postscript and C.
- Each octet writes the whole digit buffer of `octs` characters. The part
  past the digits is NUL, so a group size other than the digit width adds
  NUL characters. Group spacing is fixed at one space after every odd index.
- `-l m` with `m >= 0` stops the loop at its second iteration. It emits at
  most one line, and none when `m` is 0.
- Autoskip never resets its zero-line counter. Every all-zero buffer after
  the first is elided, even when non-zero lines come between. The `*` marker
  is written at most once per run: on the second all-zero buffer, if there
  is one.
- The writer is flushed only after a rendered line (xxd.go:333). The
  function returns without a flush, both at the end of input (xxd.go:213)
  and at the `-l` stop (xxd.go:335). A `*` written after the last rendered
  line therefore never reaches the output.
- Padding writes two spaces per missing octet (xxd.go:295), whatever the
  token width. Each octet read writes `octs` characters (xxd.go:255, 279,
  285). So a short line is (octs - 2)·(cols - n) characters narrower than a
  full one, and its sidebar starts that much earlier (`GroupedWidth`). In
  binary mode, with eight-digit tokens, that is 6·(cols - n) columns. Lines
  stay aligned only when `octs` is 2, as in hex with its default group
  (`HexColumnsAligned`).
- Autoskip tests the whole line buffer. After a short final read, the stale
  tail of the previous line takes part in the test.
- The C declaration is written only when both `-ps` and `-i` are given and
  `-b` is not.

## Model

| member | source | states |
|---|---|---|
| Encoding.HexEncode | xxd.go:85-90 | octet i of src puts the table digit of its high nibble at 2i and of its low nibble at 2i+1; every other position of dst keeps its old character |
| Encoding.HexEncodeRoundTrip | xxd.go:85-90 | looking the two digits written for an octet back up in a table of distinct digits gives the octet |
| Encoding.BinaryEncode | xxd.go:92-102 | position k of the first eight is '1' exactly when bit 7-k of src[0] is set (most significant bit first); positions from 8 on are unchanged |
| Encoding.BinaryEncodeRoundTrip | xxd.go:92-102 | the eight digits written read back as a binary number give src[0] |
| Encoding.Empty | xxd.go:110-117 | true exactly when every octet of the buffer is zero, the empty buffer included |
| Encoding.DigitTablesAreTables | xxd.go:80-83 | both digit tables have sixteen distinct digits |
| Layout.CName | xxd.go:138-148 | the identifier has the file name's length, '_' where the name has '.', every other character kept, and no '.' |
| Layout.CNameFixedPoints | xxd.go:138-148 | the rewrite is idempotent, and a name is unchanged exactly when it has no '.' |
| Layout.Resolve | xxd.go:159-196 | cols is the requested width unless -l is given and smaller, in which case it is -l; octs is the requested group when that is at least 1, otherwise cols |
| Layout.DefaultParams | xxd.go:159-196 | without -c and -g, and with -l not given or at least the mode's default width: width 30 for postscript, else 12 for C, else 6 for binary, else 16; group 8 for binary, the whole line for postscript or C, else 2 |
| Layout.MixedModePriorities | xxd.go:159-186 | with -b and -ps both given, the width follows postscript (30) and the group follows binary (8) |
| Layout.ResolveExplicit | xxd.go:159-196 | resolved parameters written back as explicit -c and -g resolve to themselves |
| Layout.DeclarationIffOdd | xxd.go:203-249 | the layout with the C declaration in place of the offset header (no offsets, -i given) is exactly the one with -ps and -i given and -b not; DumpFacts.DumpDeclaration states that such a dump starts with the declaration |
| Layout.Caps | xxd.go:80-83 | the table has sixteen distinct digits: "0123456789" followed by "ABCDEF" when -u is given and "abcdef" otherwise |
| Layout.CapsSpellsValues | xxd.go:150-153 | position d of the selected table is the digit of value d, '0'+d below ten and 'a'+(d-10), or 'A'+(d-10) under -u, above |
| Layout.CapsCase | xxd.go:150-153 | flipping -u changes exactly the six letter digits and keeps the ten decimal digits |
| Layout.PayloadMode | xxd.go:251-291 | octets are written in binary exactly when -b is given, as a C array exactly when -i is given without -b, as plain hex exactly when -ps is given without -i and -b, and as grouped hex otherwise; every mode but the C array writes the offset header and the sidebar |
| Sidebar.SideChar | xxd.go:308-328 | in ASCII mode an octet is shown as itself exactly when 0x1f < c < 0x7f, else '.'; in EBCDIC mode an octet below 0x40 is '.', and any other octet indexes within the 192-entry table and shows its entry when printable, else '.'; the result is always printable |
| Sidebar.Side | xxd.go:305-329 | the sidebar has one character per octet read, each the sidebar character of that octet |
| Render.FormatHexRoundTrip | xxd.go:239 | the shortest hex spelling of v reads back as v and starts with a non-zero digit unless v is 0 |
| Render.FormatHex | xxd.go:239 | the spelling has at least one digit and only lower-case hex digits |
| Render.FormatHexWidth | xxd.go:239-240 | v needs at most k hex digits exactly when v < 16^k, so the six-digit header slice holds exactly when lineOffset < 16^6 |
| Render.Header | xxd.go:239-242 | the header is nine characters: six lower-case digits that read back as lineOffset, then "0: " |
| Render.HeaderOfZero | xxd.go:239-242 | the first header is "0000000: " |
| Render.Heading | xxd.go:237-249 | panics exactly when offsets are shown and lineOffset >= 16^6; otherwise it is the header when offsets are shown, and without them the C declaration when its flag is still set, else nothing |
| Render.Digits | xxd.go:251-290 | the encoder of a mode writes eight digits for binary and two for every other mode |
| Render.Token | xxd.go:253-285 | each octet writes exactly octs characters, the whole digit buffer |
| Render.TokenNulTail | xxd.go:202-255 | past the mode's digits, a token is NUL |
| Render.HexTokenDigits | xxd.go:283-285 | with a two-character digit buffer, a hex token is exactly the two table digits of the octet |
| Render.ReusedBufferToken | xxd.go:202-256 | encoding into any digit buffer whose part past the digits is NUL writes the token, so reusing the one buffer across octets and lines never changes the output |
| Render.TokenRoundTrip | xxd.go:251-290 | every token decodes back to the octet it encodes, whatever its NUL tail |
| Render.HexPairTokens | xxd.go:283-290 | two octets in hex with two-digit groups give four digits followed by one space |
| Render.TokensLength | xxd.go:253-290 | tokens of width w take w characters each, plus one space per odd index when the mode groups |
| Render.TokensRoundTrip | xxd.go:253-290 | the written tokens can be cut back out of the text, because separators never run into a token |
| Render.CutTokens | xxd.go:251-290 | any text that starts with the written tokens cuts back into exactly those tokens, whatever follows them |
| Render.EncodedRoundTrip | xxd.go:251-290 | the token written for octet k of the line has octs characters and decodes back to line[k] |
| Render.Payload | xxd.go:251-291 | the C payload is a single space, since its loop guard `i != 0` fails at once; plain hex takes octs characters per octet read; grouped hex and binary add one space per odd index |
| Render.PayloadRoundTrip | xxd.go:251-291 | in binary, postscript and hex modes, the octets read are recovered from the payload: cutting gives n tokens of octs characters, token k decoding to line[k] |
| Render.Padding | xxd.go:293-301 | the padding of a short line is made of spaces only |
| Render.PaddingLength | xxd.go:293-301 | padding positions i..cols takes two characters per position plus one per odd position |
| Render.GroupedWidth | xxd.go:251-301 | in hex and binary modes, payload plus padding takes octs characters per octet read, two per missing octet, and one space per odd index below cols |
| Render.HexColumnsAligned | xxd.go:283-301 | in hex mode with two-digit groups, payload plus padding is 2·cols + cols/2 characters for any number of octets read, so the sidebar starts in the same column on every line |
| Render.RenderLine | xxd.go:237-332 | panics exactly when the offset is too wide or the digit buffer is too small for the encoder; otherwise the line ends in a newline and is the heading, then the payload followed by the padding, then n + 2 more characters with offsets shown (the space, the sidebar of the octets read, the newline) or 2 without them (" \n"); with offsets it starts with the nine-character header |
| Render.LineRoundTrip | xxd.go:237-303 | in binary, postscript and hex modes, cutting a rendered line after its nine-character header gives n tokens of octs characters, token k decoding to line[k] |
| Render.LineTokens | xxd.go:237-291 | in binary, postscript and hex modes, a rendered line holds the tokens of the octets read right after its nine-character header |
| Render.CutDecodes | xxd.go:251-291 | wherever the tokens of n octets sit in a text, cutting the text there gives n tokens of octs characters, token k decoding to line[k] |
| Render.HexLineColumns | xxd.go:281-332 | in hex mode with two-digit groups every line, full or short, is 9 + 2·cols + cols/2 + 1 + n + 1 characters long and from column 9 + 2·cols + cols/2 on holds the space, the sidebar of the octets read and the newline |
| Engine.Run | xxd.go:207-235 | every recorded iteration read at least one octet into a buffer of exactly cols octets |
| Engine.Fill | xxd.go:208 | the buffer keeps its length cols; the octets read land at its front and the rest of the previous buffer stays behind them |
| Engine.Act | xxd.go:223-235 | a line is elided exactly when autoskip is on, its whole buffer is zero and an earlier buffer was zero; "*" is written exactly when the elided line meets the counter at 1 |
| Engine.Next | xxd.go:216-249 | an iteration never moves a counter back: nulLine and lineOffset never decrease, totalOcts stays put without -l and never decreases with -l >= 0; once the C declaration has been written its flag stays cleared |
| Engine.Written | xxd.go:223-332 | a starred elided line writes exactly "*\n" and any other elided line writes nothing; only a rendered line can panic, and never with the negative line size; a write is whole lines |
| Engine.Join | xxd.go:207-333 | consecutive writes give text exactly when none of them panics; a panic is the one a write hit; whole lines joined stay whole lines |
| Engine.JoinAppend | xxd.go:207-333 | the writes of two stretches of the loop give the text of the first followed by the text of the second; the first panic wins |
| Engine.Emit | xxd.go:237-333 | the rendered trace is a sequence of whole lines (empty or ending in a newline), and a panic while rendering is never the negative line size |
| Engine.EmitAppend | xxd.go:207-333 | rendering t1 then t2 gives the text of t1 followed by the text of t2; if either panics, the first panic wins |
| Engine.EmitAt | xxd.go:223-333 | in a trace that renders without panic, the text of iteration k (its rendered line, "*\n" or nothing) appears at the offset equal to the length of the text of the iterations before it |
| Engine.EmitWithin | xxd.go:223-333 | the same placement within the text of the first m iterations, for every k < m |
| Engine.EmitPrefix | xxd.go:207-333 | the text of the first k iterations is a prefix of the text of the whole trace, and renders without panic when the whole trace does |
| Engine.EmitLast | xxd.go:223-333 | the text of the first m iterations ends with the text of iteration m - 1 |
| Engine.EmitEmpty | xxd.go:212-214 | an empty trace writes nothing |
| Engine.WrittenHeader | xxd.go:237-243 | with offsets shown, a rendered line that does not panic has an offset below 16^6 and starts with that offset's header |
| Engine.WrittenDeclaration | xxd.go:244-249 | without offsets and with -i, a rendered line whose declaration flag is still set starts with "unsigned char <name>[] = {" |
| Engine.WrittenTokens | xxd.go:237-291 | in binary, postscript and hex modes, a rendered line holds the tokens of the octets it read right after its nine-character header |
| Engine.WrittenCut | xxd.go:237-291 | in binary, postscript and hex modes, any text holding a rendered line gives back, when cut after the line's header, the octets the line read |
| Engine.Flushed | xxd.go:223-335 | the flushed iterations are a prefix of the trace that ends with a rendered line, or is empty; every iteration after it is elided |
| Engine.Dump | xxd.go:119-336 | the dump panics with a negative line size exactly when the resolved width is negative; its text is whole lines |
| RunFacts.RunChunks | xxd.go:207-214 | without -l, the octets read, concatenated in order, are the whole input, and every line but the last is full |
| RunFacts.RunLineCount | xxd.go:207-214 | without -l, the number of lines m satisfies (m-1)·cols < length <= m·cols, so it is the input length divided by cols, rounded up |
| RunFacts.RunStaleBuffer | xxd.go:201-208 | past the octets read, the line buffer keeps what the previous iteration left, and the first iteration keeps the zeroed buffer from make |
| RunFacts.RunWithLength | xxd.go:216-221 | with -l m >= 0 there is at most one line, none when m is 0; when m > 0 and the input is not empty there is exactly one, holding the first min(cols, length) octets |
| RunFacts.RunAutoskip | xxd.go:223-235 | nulLine counts the zero buffers met so far; a line is elided exactly when its buffer is zero and an earlier one was, with "*" exactly when exactly one earlier one was |
| RunFacts.AutoskipFromStart | xxd.go:223-235 | from the start: non-zero lines and the first zero line are rendered, every later zero line is elided, and "*" is written on at most one line, the second zero line |
| RunFacts.RunOffsets | xxd.go:231-243 | with offsets shown, iteration k starts with lineOffset k more than the run did, for rendered and elided lines alike |
| RunFacts.RunDeclaration | xxd.go:244-249 | the C declaration flag is still set exactly when it started set and, in a dump that writes the declaration, no earlier line was rendered |
| DumpFacts.DumpNegativeWidth | xxd.go:188-201 | any negative -l other than -1 makes the dump panic in make |
| DumpFacts.DumpEmptyInput | xxd.go:207-214 | with a non-negative width, empty input produces empty output |
| DumpFacts.EmitSucceeds | xxd.go:237-291 | a trace renders without panic when the digit buffer is large enough and every shown offset is below 16^6 |
| DumpFacts.DumpSucceeds | xxd.go:188-291 | the dump does not panic when the width is non-negative and the digit buffer is large enough, and, when offsets are shown without -l, the input has at most 16^6 lines |
| DumpFacts.DumpBufferTooSmall | xxd.go:251-285 | with a positive width, non-empty input and -l not 0, a digit buffer smaller than the encoder writes panics |
| DumpFacts.HeaderOfLine | xxd.go:237-243 | with offsets shown, line k, rendered or elided, gets the header of k |
| DumpFacts.DumpLines | xxd.go:207-335 | for every iteration up to the last rendered line, the dump holds what it writes (its rendered line, "*\n" or nothing) at the offset equal to the length of what the iterations before it wrote |
| DumpFacts.DumpEndsWithLastLine | xxd.go:223-335 | when a line is rendered, the dump ends with the last rendered line, so a "*" written after it is not part of the output |
| DumpFacts.DumpNothingRendered | xxd.go:207-235 | when no line is rendered, the dump is empty, even if a "*" was written |
| DumpFacts.DumpHeaderAt | xxd.go:237-243 | with offsets shown, the dump holds the header of k where rendered line k starts |
| DumpFacts.DumpRoundTrip | xxd.go:207-333 | in binary, postscript and hex modes, the octets of every rendered line read back from the dump: cut after that line's header, the dump gives one token of octs characters per octet the line read, each decoding to it |
| DumpFacts.RoundTripApplies | xxd.go:207-291 | with every flag at its default, the dump of any single octet is text, and its one line is rendered and flushed, which meets the conditions of DumpRoundTrip |
| DumpFacts.DeclarationApplies | xxd.go:188-249 | with -ps and -i, the dump of any single octet is text, its width is positive and -l is not 0, which meets the conditions of DumpDeclaration |
| DumpFacts.DumpFirstLine | xxd.go:207-333 | when any line is rendered, the dump starts with what the first iteration wrote |
| DumpFacts.DumpDeclaration | xxd.go:244-249 | with -ps and -i given and -b not, a positive width, non-empty input and -l not 0, the dump starts with "unsigned char <name>[] = {", the name being the file name with '.' turned into '_' |
| DumpFacts.RenderedHeader | xxd.go:231-243 | with offsets shown, rendered line k starts with the header of k |

## Left out

- Flag parsing, `main`, file opening and the unused `reverse`, `offset`,
  `seek` and `version` flags (xxd.go:16-30, 338 on) are not modelled. The
  flags the engine reads become the `Config` datatype.
- Read errors, write errors and the writer's buffer size (xxd.go:206-211)
  are not modelled. The input is a finite sequence that never faults, and
  `io.ReadFull` becomes "take min(cols, remaining) octets". Of buffered
  output only its effect on the result is kept: `Dump` is the text flushed
  by the time the function returns (see `Flushed`).
- Output text written before a panic is not modelled: `Panic` carries no
  text. The C-mode digit buffer never panics, because its encoding loop never
  runs.
- The commented-out `cFmtEncode` (xxd.go:104-108) is not part of this model.
- Integer widths are not modelled; integers are unbounded here. Overflow
  cannot happen in the source either. `totalOcts` grows by `-l` at most
  once, because the loop stops at its second iteration. `lineOffset` hits the
  header panic at 16^6, far below its type's limit.
- The file name is a `string` of characters, not the octets of a Go string.
- Engine.Dump: its own contract states only the negative-width panic and
  that the text is whole lines. What the text holds is stated by the DumpFacts
  lemmas: DumpLines and DumpFirstLine (where each iteration's text sits),
  DumpRoundTrip (the octets read back), DumpHeaderAt and DumpDeclaration (the
  headings), and DumpEndsWithLastLine and DumpNothingRendered (the flush).
- Engine.Written: its contract pins the text of elided lines only. A rendered
  line writes the outcome of RenderLine by definition. What that text holds is
  stated by WrittenHeader, WrittenDeclaration, WrittenTokens and WrittenCut.
- Engine.Run: its contract states only well-formedness of the trace. What
  the trace means is stated by the RunFacts lemmas.
- Render.Token: its contract states only the token's length. Its digits, NUL
  tail and decoding are stated by TokenNulTail, ReusedBufferToken and
  TokenRoundTrip.
- No end-to-end example dumps of concrete inputs are proved. Only the
  two-octet hex case (`HexPairTokens`) and the first header (`HeaderOfZero`)
  are worked out concretely. For single-octet inputs, RoundTripApplies and
  DeclarationApplies show only that DumpRoundTrip and DumpDeclaration apply.
