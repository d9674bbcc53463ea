# NL6621 debug tool, modelled in Dafny

The NL6621 debug tool (`dbgtool.c`) is a serial console for looking at and
changing the flash and RAM of an NL6621 board. It prints a `>` prompt and reads
one line through newlib's stdio. The `_read` hook fills a 127-slot ring buffer
using a small line editor. That editor handles insert, backspace/DEL, ^W, ^U
and carriage return, and echoes every edit. `main` splits the line with
`strtok` on `' '` and dispatches on the first word:

- `flash read|write|erase|dump <flash addr> <len> [<RAM addr>]` runs one flash
  driver operation. A dump reads the flash in chunks of at most 256 bytes and
  hex-dumps each chunk.
- `dump <addr> <len>` hex-dumps memory.
- `uart <speed>` switches the baud rate.
- Any other first word prints the help text.

Numbers go through `strtoul(token, NULL, 0)`. Output goes through the `_write`
hook, which sends CR LF for a bare LF.

The model has these modules, one per part of the program:

| module | file | what it holds |
|---|---|---|
| `CSemantics` | c_semantics.dfy | C's truncating `%`, 32-bit unsigned wrap-around and `isspace`, on a 32-bit ARM target |
| `StrToUL` | strtoul.dfy | `strtoul` with base 0 (ISO C99 section 7.20.1.4), as `ParseUL(s): Option<nat>`, where `None` is ERANGE |
| `Tokenizer` | tokenizer.dfy | `fgets`' C string and `strtok` with the delimiter `" "` (ISO C99 section 7.21.5.8) |
| `Commands` | commands.dfy | what `main`, `handle_flash`, `handle_dump` and `handle_uart` decide from the tokens, as a `Command` value |
| `RingEditor` | ring_editor.dfy | the line editor and `_read`'s drain, as values: a `Ring` and the effect of each keystroke |
| `LineConsole` | console.dfy | class `Console`: the globals `line_buf` (an array), `start_idx` and `end_idx`, plus the UART as an input and an output sequence; `back_up`, `get_buffered_line` and `_read` run in place and are proved equal to `RingEditor` |
| `CrLf` | crlf.dfy | `_write`'s loop and the translation it performs |
| `HexDump` | hexdump.dfy | `hexdump`'s loop, with output as `Header`/`Byte`/`Checksum` items |
| `DebugTool` | debug_tool.dfy | the handlers, the chunked flash dump over a `read_buf` array, and one pass of `main`'s loop; the flash driver is a recorded call trace with prescribed statuses |

`Wrappers` (an `Option` type) and `SeqFacts` (two sequence identities) are
helpers.

Behaviour of the code a user might not expect:

- **^W.** The ^W loop tests the slot at the cursor, not the character before
  it. With `"foo bar"` in the ring and a non-blank stale character under the
  cursor, ^W leaves `"foo"`, not `"foo "` (`RingEditor.EraseWordFooBar`). With a
  blank under the cursor it does nothing (`RingEditor.EraseWordOnBlankSlot`).
- **Splitting.** Only `' '` separates tokens. The newline that `fgets` keeps
  stays on the last token. So `flash`, `dump` or `uart` typed alone shows the
  help text, and so does `flash read` with nothing after it
  (`Commands.LoneWordAsksForHelp`, `Commands.LoneVerbAsksForHelp`).
- **Bad arguments.** A missing or overflowing number ends the command without
  any message. Only an unknown command or flash verb prints help. Text that
  starts no number converts to 0 with no error (`StrToUL.NoDigitsIsZero`).
  Anything after a number's digits is ignored, so `12abc` is 12
  (`StrToUL.DecimalRoundTrip`). Octal numbers (a leading `0`) are accepted as
  well as decimal and hexadecimal.
- **Driver statuses.** Only a failing `flash_init` prints a diagnostic. The
  status of read, write and erase is ignored, and a failed chunk read ends a
  dump silently.
- **Wrapped lines.** A line that runs past the last ring slot leaves `end_idx`
  below `start_idx`, which makes `buf_len` negative. `_read` then never
  delivers it, and `get_buffered_line` never reads again
  (`RingEditor.WrappedLineNeverDelivered`).
- **Carriage return.** A carriage return is stored with no capacity check. In a
  full ring it empties the line (`RingEditor.EnterRule`).

## Model

| member | source | states |
|---|---|---|
| CSemantics.CRem | examples/nufront/nl6621/dbgtool/dbgtool.c:311 | C's `%` on `int`: the remainder lies in [0, b) for a non-negative dividend and in (-b, 0] for a negative one |
| CSemantics.Wrap32 | examples/nufront/nl6621/dbgtool/dbgtool.c:165 | a 32-bit unsigned result is below 2^32 and congruent to the exact result modulo 2^32 |
| CSemantics.Wrap32Negate | examples/nufront/nl6621/dbgtool/dbgtool.c:110 | unsigned negation of a nonzero word n is 2^32 - n |
| CSemantics.Wrap32Add | examples/nufront/nl6621/dbgtool/dbgtool.c:165 | wrapping an intermediate sum does not change the wrapped total |
| CSemantics.IsSpace | examples/nufront/nl6621/dbgtool/dbgtool.c:358 | `isspace` in the "C" locale holds exactly for the space and the control characters from horizontal tab to carriage return |
| StrToUL.DigitValue | examples/nufront/nl6621/dbgtool/dbgtool.c:110 | a character's digit value is in [-1, 36), and in [0, 10) exactly for '0'..'9' |
| StrToUL.DigitRun | examples/nufront/nl6621/dbgtool/dbgtool.c:110 | the digit run is the longest prefix of digits of the base: a prefix, all digits, followed by a non-digit or the end |
| StrToUL.SkipSpace | examples/nufront/nl6621/dbgtool/dbgtool.c:110 | skipping white space leaves no leading `isspace` character |
| StrToUL.SubjectOf | examples/nufront/nl6621/dbgtool/dbgtool.c:110 | base 0 always selects base 8, 10 or 16 |
| StrToUL.Based | examples/nufront/nl6621/dbgtool/dbgtool.c:110 | after the sign, `0x`/`0X` selects 16, a leading `0` selects 8, anything else 10; the sign is kept |
| StrToUL.Convert | examples/nufront/nl6621/dbgtool/dbgtool.c:110 | a converted value fits in 32 bits; otherwise the result is ERANGE |
| StrToUL.ParseUL | examples/nufront/nl6621/dbgtool/dbgtool.c:109-113 | `strtoul(s, NULL, 0)` succeeds only with a value of at most ULONG_MAX; its value on decimal, octal and hexadecimal numerals is stated by `DecimalRoundTrip`, `OctalRoundTrip` and `HexRoundTrip` |
| StrToUL.Magnitude | examples/nufront/nl6621/dbgtool/dbgtool.c:110 | a run of zeros has value 0 |
| StrToUL.LeadingZeros | examples/nufront/nl6621/dbgtool/dbgtool.c:110 | leading zeros do not change the value of a digit run |
| StrToUL.DigitChar | examples/nufront/nl6621/dbgtool/dbgtool.c:110 | the character chosen for a digit reads back as that digit |
| StrToUL.Numeral | examples/nufront/nl6621/dbgtool/dbgtool.c:110 | the canonical numeral is non-empty, all digits of its base, and has no leading zero |
| StrToUL.MagnitudeOfNumeral | examples/nufront/nl6621/dbgtool/dbgtool.c:110 | the value of the numeral of n is n (round trip) |
| StrToUL.DivMod | examples/nufront/nl6621/dbgtool/dbgtool.c:110 | the digit split of n in a base recombines to n, and the quotient decreases |
| StrToUL.DigitRunOfDigits | examples/nufront/nl6621/dbgtool/dbgtool.c:110 | the digit run of digits followed by a non-digit is exactly those digits |
| StrToUL.SubjectOfUnsigned | examples/nufront/nl6621/dbgtool/dbgtool.c:110 | text starting with a digit has no sign and no skipped space |
| StrToUL.ConvertNumeral | examples/nufront/nl6621/dbgtool/dbgtool.c:110 | converting leading zeros, then a numeral, then a non-digit gives the numeral's value, or ERANGE above ULONG_MAX, negated modulo 2^32 when signed |
| StrToUL.DecimalRoundTrip | examples/nufront/nl6621/dbgtool/dbgtool.c:109-113 | a decimal numeral followed by anything that does not continue it parses to its value, or to ERANGE above ULONG_MAX |
| StrToUL.HexRoundTrip | examples/nufront/nl6621/dbgtool/dbgtool.c:109-113 | `0x`, any zeros and the hex numeral of n, followed by a non-hex-digit or the end, parse back to n, or to ERANGE above ULONG_MAX |
| StrToUL.OctalRoundTrip | examples/nufront/nl6621/dbgtool/dbgtool.c:109-113 | a leading `0`, any further zeros and the octal numeral of n, followed by a non-octal-digit or the end, parse back to n (octal), or to ERANGE above ULONG_MAX |
| StrToUL.HexPrefix | examples/nufront/nl6621/dbgtool/dbgtool.c:110 | `0x` and `0X` both select base 16 for the text after them |
| StrToUL.Upper | examples/nufront/nl6621/dbgtool/dbgtool.c:110 | upper-casing text keeps its length |
| StrToUL.UpperDigits | examples/nufront/nl6621/dbgtool/dbgtool.c:110 | upper case leaves no lower-case letter and every digit value as it was |
| StrToUL.SameDigits | examples/nufront/nl6621/dbgtool/dbgtool.c:110 | digit strings with the same digit values denote the same number |
| StrToUL.UpperNumeral | examples/nufront/nl6621/dbgtool/dbgtool.c:110 | the upper-case hexadecimal numeral of n still denotes n |
| StrToUL.UpperHexRoundTrip | examples/nufront/nl6621/dbgtool/dbgtool.c:109-113 | `0X`, any zeros and the upper-case hex numeral of n, followed by a non-hex-digit or the end, parse back to n, or to ERANGE above ULONG_MAX |
| StrToUL.ConvertDigits | examples/nufront/nl6621/dbgtool/dbgtool.c:110 | converting zeros, then digits of value m, then a non-digit gives m, or ERANGE above ULONG_MAX, negated modulo 2^32 when signed |
| StrToUL.NegatedDecimal | examples/nufront/nl6621/dbgtool/dbgtool.c:109-113 | `-n` is accepted and gives 2^32 - n, not an error |
| StrToUL.MinusSubject | examples/nufront/nl6621/dbgtool/dbgtool.c:110 | a leading `-` is taken as the sign and the base is chosen from the text after it |
| StrToUL.LeadingSpace | examples/nufront/nl6621/dbgtool/dbgtool.c:109-113 | a leading `isspace` character does not change the result |
| StrToUL.NoDigitsIsZero | examples/nufront/nl6621/dbgtool/dbgtool.c:109-113 | text that starts no number converts to 0 with no error, so the handler goes on |
| Tokenizer.Before | examples/nufront/nl6621/dbgtool/dbgtool.c:270-273 | the text before the first delimiter (NUL for the C string of `read_buf`, `' '` for a `strtok` token) is a prefix without that delimiter, followed by the delimiter or the end |
| Tokenizer.Tokens | examples/nufront/nl6621/dbgtool/dbgtool.c:273-276 | every token is non-empty and contains no `' '`; from NUL-free text, no token contains NUL either |
| Tokenizer.LineTokens | examples/nufront/nl6621/dbgtool/dbgtool.c:270-273 | the tokens `main` sees in `read_buf` are non-empty and contain neither `' '` nor NUL |
| Tokenizer.NonSpaceAppend | examples/nufront/nl6621/dbgtool/dbgtool.c:273 | removing spaces distributes over concatenation |
| Tokenizer.NonSpaceOfWord | examples/nufront/nl6621/dbgtool/dbgtool.c:273 | a token has no spaces to remove |
| Tokenizer.TokensCover | examples/nufront/nl6621/dbgtool/dbgtool.c:273 | the tokens, in order, spell out the line without its spaces: nothing but the separators is dropped |
| Tokenizer.WordOf | examples/nufront/nl6621/dbgtool/dbgtool.c:273 | a token followed by a space or the end is cut off whole |
| Tokenizer.JoinRoundTrip | examples/nufront/nl6621/dbgtool/dbgtool.c:273 | splitting a space-joined list of tokens gives the list back |
| Tokenizer.JoinNoNul | examples/nufront/nl6621/dbgtool/dbgtool.c:270-271 | joining NUL-free tokens gives a NUL-free line |
| Tokenizer.JoinExtendLast | examples/nufront/nl6621/dbgtool/dbgtool.c:270 | text added after a joined line extends its last token |
| Tokenizer.NoNulCStr | examples/nufront/nl6621/dbgtool/dbgtool.c:271 | a line without NUL is its own C string |
| Tokenizer.NewlineOnLastToken | examples/nufront/nl6621/dbgtool/dbgtool.c:270-276 | the newline `fgets` keeps ends up as the last character of the last token, and the other tokens are unchanged |
| Commands.VerbOf | examples/nufront/nl6621/dbgtool/dbgtool.c:91-102 | each flash verb is recognised exactly when the token is that word |
| Commands.ParseNumbers | examples/nufront/nl6621/dbgtool/dbgtool.c:104-138 | n numbers are read exactly when n tokens are present and none overflows; each equals `strtoul` of its token |
| Commands.NumbersRejected | examples/nufront/nl6621/dbgtool/dbgtool.c:104-138 | when the first n tokens all parse, so do the n - 1 after the first |
| Commands.NumbersParsed | examples/nufront/nl6621/dbgtool/dbgtool.c:104-138 | the first token's value in front of the next n - 1 values gives the values of the first n tokens |
| Commands.ArgsShift | examples/nufront/nl6621/dbgtool/dbgtool.c:104-138 | the tokens after the verb parse exactly when tokens 1 to n of the command do |
| Commands.ArgsValues | examples/nufront/nl6621/dbgtool/dbgtool.c:104-138 | the values of the tokens after the verb, numbered from 1 |
| Commands.ParseFlash | examples/nufront/nl6621/dbgtool/dbgtool.c:86-138 | help exactly for an unknown verb; an operation exactly when the verb has all its numbers (3 for read/write, 2 for erase/dump), with those values and RAM address 0 for erase/dump; otherwise aborted |
| Commands.ParseDump | examples/nufront/nl6621/dbgtool/dbgtool.c:181-201 | a memory dump exactly when two numbers parse, with their values; otherwise aborted |
| Commands.ParseUart | examples/nufront/nl6621/dbgtool/dbgtool.c:214-223 | a baud change exactly when one number parses, with its value of at most ULONG_MAX; otherwise aborted |
| Commands.ParseLine | examples/nufront/nl6621/dbgtool/dbgtool.c:273-286 | no token is ignored (and only that); `flash`, `dump` and `uart` hand the remaining tokens to `ParseFlash`, `ParseDump` and `ParseUart`, and each kind of handler result comes only from its own word; any other word asks for help |
| Commands.NumeralToken | examples/nufront/nl6621/dbgtool/dbgtool.c:273 | a decimal numeral is a well-formed token |
| Commands.NewlineBreaksWord | examples/nufront/nl6621/dbgtool/dbgtool.c:91-98 | a token that ends in the newline is no flash verb and no command word |
| Commands.LoneWordAsksForHelp | examples/nufront/nl6621/dbgtool/dbgtool.c:270-286 | a line with a single word, including `flash`, `dump` or `uart`, asks for help |
| Commands.LoneVerbAsksForHelp | examples/nufront/nl6621/dbgtool/dbgtool.c:86-102 | `flash <verb>` with nothing after it asks for help |
| Commands.UartLine | examples/nufront/nl6621/dbgtool/dbgtool.c:214-226 | `uart <n>` typed in decimal asks for baud rate n, despite the newline after it |
| Commands.FlashDumpLine | examples/nufront/nl6621/dbgtool/dbgtool.c:86-138 | `flash dump <addr> <len>` typed in decimal is a dump of len bytes from addr with RAM address 0 |
| Commands.FlashDumpTokens | examples/nufront/nl6621/dbgtool/dbgtool.c:270-276 | `flash dump <a> <l>` typed as a line splits into four tokens, the newline staying on `<l>` |
| Commands.UartTokens | examples/nufront/nl6621/dbgtool/dbgtool.c:270-276 | `uart <a>` typed as a line splits into two tokens, the newline staying on `<a>` |
| Commands.DecimalToken | examples/nufront/nl6621/dbgtool/dbgtool.c:121 | a decimal numeral parses to its value with or without the trailing newline |
| Commands.DumpArgs | examples/nufront/nl6621/dbgtool/dbgtool.c:97-126 | `dump` and two parsable tokens give a dump with those numbers and RAM address 0 |
| RingEditor.Rubout | examples/nufront/nl6621/dbgtool/dbgtool.c:320-322 | k rub-outs are 3k characters |
| RingEditor.NextIdx | examples/nufront/nl6621/dbgtool/dbgtool.c:312 | `next_idx` is the next slot, wrapping from 126 to 0 |
| RingEditor.PrevIdx | examples/nufront/nl6621/dbgtool/dbgtool.c:313 | `prev_idx` is the previous slot, wrapping from 0 to 126, and `next_idx` undoes it |
| RingEditor.BufLen | examples/nufront/nl6621/dbgtool/dbgtool.c:311 | `buf_len` is `end_idx - start_idx`, and lies in [0, 126] exactly when `end_idx >= start_idx` |
| RingEditor.Count | examples/nufront/nl6621/dbgtool/dbgtool.c:306-311 | the number of characters held is below 127 |
| RingEditor.Slot | examples/nufront/nl6621/dbgtool/dbgtool.c:306-313 | the slot of the i-th character lies in the ring |
| RingEditor.Line | examples/nufront/nl6621/dbgtool/dbgtool.c:306-313 | the line has as many characters as the ring holds |
| RingEditor.BufLenAgainstCount | examples/nufront/nl6621/dbgtool/dbgtool.c:311 | unwrapped, `buf_len` is the count and the line is `line_buf[start..end]`; wrapped, `buf_len` is the count minus 127 and negative |
| RingEditor.BackUp | examples/nufront/nl6621/dbgtool/dbgtool.c:317-323 | `back_up` moves `end_idx` back one slot, changes nothing else and echoes one rub-out |
| RingEditor.Insert | examples/nufront/nl6621/dbgtool/dbgtool.c:371-378 | inserting keeps the ring valid and `start_idx` fixed |
| RingEditor.Erase | examples/nufront/nl6621/dbgtool/dbgtool.c:347-354 | BS/DEL keeps the buffer and `start_idx` |
| RingEditor.EraseWord | examples/nufront/nl6621/dbgtool/dbgtool.c:357-361 | ^W keeps the buffer and `start_idx` |
| RingEditor.EraseLine | examples/nufront/nl6621/dbgtool/dbgtool.c:364-368 | ^U keeps the buffer and `start_idx` |
| RingEditor.Enter | examples/nufront/nl6621/dbgtool/dbgtool.c:338-344 | CR keeps `start_idx` |
| RingEditor.Edit | examples/nufront/nl6621/dbgtool/dbgtool.c:337-379 | no keystroke moves `start_idx` |
| RingEditor.InsertRule | examples/nufront/nl6621/dbgtool/dbgtool.c:370-378 | at `buf_len == 126` only BEL is echoed and nothing changes; otherwise c is stored at `end_idx`, `end_idx` advances and c is echoed, so c is appended to the line |
| RingEditor.EraseRule | examples/nufront/nl6621/dbgtool/dbgtool.c:347-354 | at `buf_len == 0` only BEL is echoed and nothing changes; otherwise `end_idx` steps back, one rub-out is echoed and the last character leaves the line |
| RingEditor.EraseWordRule | examples/nufront/nl6621/dbgtool/dbgtool.c:356-361 | with `buf_len <= 0` nothing happens; otherwise the cursor stops at the start or on the highest blank slot at or below it, every retracted slot was non-blank, and one rub-out is echoed per slot |
| RingEditor.EraseWordStops | examples/nufront/nl6621/dbgtool/dbgtool.c:357-361 | where the ^W loop stops: nothing moves with `buf_len <= 0`; otherwise at `start_idx` or on a blank slot, past only non-blank ones |
| RingEditor.EraseWordEcho | examples/nufront/nl6621/dbgtool/dbgtool.c:357-361 | the ^W loop echoes one rub-out per slot it retracts |
| RingEditor.EraseLineRule | examples/nufront/nl6621/dbgtool/dbgtool.c:363-368 | with `buf_len <= 0` nothing happens; otherwise the cursor returns to `start_idx`, the line is empty and `buf_len` rub-outs are echoed |
| RingEditor.EnterRule | examples/nufront/nl6621/dbgtool/dbgtool.c:338-344 | CR stores `'\n'` at the old cursor and NUL at the new one and echoes CR LF; with room the line gains `'\n'`, and in a full ring the line is lost |
| RingEditor.Collect | examples/nufront/nl6621/dbgtool/dbgtool.c:334-380 | reading keystrokes keeps the ring valid and `start_idx` fixed |
| RingEditor.CollectRule | examples/nufront/nl6621/dbgtool/dbgtool.c:334-380 | keystrokes are consumed up to and including the first CR and no further; the read finishes exactly when there is a CR, with NUL under the cursor and `'\n'` before it |
| RingEditor.CollectConsumes | examples/nufront/nl6621/dbgtool/dbgtool.c:334-380 | the consumed part of the input is a prefix with no CR but possibly its last character, and the read finishes exactly when a CR comes |
| RingEditor.CollectEnds | examples/nufront/nl6621/dbgtool/dbgtool.c:338-344 | a finished read leaves NUL under the cursor and `'\n'` just before it |
| RingEditor.CollectAdvance | examples/nufront/nl6621/dbgtool/dbgtool.c:334-380 | one pass of the `do`-`while` loop: one keystroke is edited, and the loop goes on unless it was CR |
| RingEditor.ReadLine | examples/nufront/nl6621/dbgtool/dbgtool.c:328-381 | `get_buffered_line` keeps the ring valid and never moves `start_idx` |
| RingEditor.PendingLineKept | examples/nufront/nl6621/dbgtool/dbgtool.c:331-333 | with characters still pending, `get_buffered_line` returns at once: no keystroke is read, nothing is echoed and the ring is unchanged |
| RingEditor.Drain | examples/nufront/nl6621/dbgtool/dbgtool.c:433-438 | the drain changes neither the buffer nor `end_idx` |
| RingEditor.DrainRule | examples/nufront/nl6621/dbgtool/dbgtool.c:432-440 | the drain copies n = min(`buf_len`, len) characters when both are positive and none otherwise; they are the slots from `start_idx` on and the first n of the line; `start_idx` advances by n and `end_idx` stays |
| RingEditor.DrainCopies | examples/nufront/nl6621/dbgtool/dbgtool.c:433-438 | the copied characters are the slots from `start_idx`, and `start_idx` ends past them |
| RingEditor.CopiedStep | examples/nufront/nl6621/dbgtool/dbgtool.c:435-437 | one pass of the copy moves `start_idx` up one slot and leaves one character fewer to copy |
| RingEditor.TypingFillsLine | examples/nufront/nl6621/dbgtool/dbgtool.c:370-378 | typed plain characters that fit are appended to the line and echoed, and the read does not finish |
| RingEditor.PlainStep | examples/nufront/nl6621/dbgtool/dbgtool.c:370-378 | a plain character with room is appended and echoed |
| RingEditor.CollectPlain | examples/nufront/nl6621/dbgtool/dbgtool.c:334-380 | on a keystroke other than CR, the read edits it and goes on with the rest |
| RingEditor.LineDelivered | examples/nufront/nl6621/dbgtool/dbgtool.c:328-441 | a line typed into an empty ring without wrapping, then CR, is echoed with CR LF; `_read` then delivers it with `'\n'` and leaves the ring empty, and the keystrokes after the CR are not consumed |
| RingEditor.TypedThenEnter | examples/nufront/nl6621/dbgtool/dbgtool.c:334-380 | reading typed characters then CR equals typing them, then Enter, with the rest left unread |
| RingEditor.WrappedLineNeverDelivered | examples/nufront/nl6621/dbgtool/dbgtool.c:331-333 | a line that wraps past slot 126 leaves `end_idx < start_idx`; `_read` copies nothing, and `get_buffered_line` returns at once ever after |
| RingEditor.EraseWordFooBar | examples/nufront/nl6621/dbgtool/dbgtool.c:356-361 | ^W on `"foo bar"` with a non-blank slot under the cursor leaves `"foo"` and echoes four rub-outs |
| RingEditor.EraseWordOnBlankSlot | examples/nufront/nl6621/dbgtool/dbgtool.c:358 | ^W does nothing when the slot under the cursor is blank |
| LineConsole.Console.constructor | examples/nufront/nl6621/dbgtool/dbgtool.c:308-310 | the globals start zeroed: both cursors 0 and every slot NUL |
| LineConsole.Console.BufLen | examples/nufront/nl6621/dbgtool/dbgtool.c:311 | `buf_len` on the globals is `end_idx - start_idx` |
| LineConsole.Console.BackUp | examples/nufront/nl6621/dbgtool/dbgtool.c:317-323 | `back_up` in place leaves the state and output `RingEditor.BackUp` gives |
| LineConsole.Console.Key | examples/nufront/nl6621/dbgtool/dbgtool.c:337-379 | one pass of the `switch` leaves the state and output `RingEditor.Edit` gives |
| LineConsole.Console.EraseWord | examples/nufront/nl6621/dbgtool/dbgtool.c:357-361 | the ^W loop in place leaves the state and output `RingEditor.EraseWord` gives |
| LineConsole.Console.EraseLine | examples/nufront/nl6621/dbgtool/dbgtool.c:364-368 | the ^U loop in place leaves the state and output `RingEditor.EraseLine` gives |
| LineConsole.Console.GetBufferedLine | examples/nufront/nl6621/dbgtool/dbgtool.c:328-381 | `get_buffered_line` in place leaves the ring, echo and unread keystrokes `RingEditor.ReadLine` gives |
| LineConsole.Console.Read | examples/nufront/nl6621/dbgtool/dbgtool.c:422-441 | `_read` returns -1 and changes nothing for fd > 2; otherwise it reads a line as `ReadLine` does, then copies and returns what `Drain` gives |
| CrLf.Translate | examples/nufront/nl6621/dbgtool/dbgtool.c:397-411 | the translation is never shorter than its input |
| CrLf.Write | examples/nufront/nl6621/dbgtool/dbgtool.c:386-414 | `_write` returns -1 and sends nothing for fd > 2; otherwise it returns `len` and sends the translation of the first `len` characters |
| CrLf.TranslateStep | examples/nufront/nl6621/dbgtool/dbgtool.c:398-410 | one pass of the loop: a bare `'\n'` first sends a CR and sets `cr_sent`; any other character is sent and `cr_sent` records whether it was CR |
| CrLf.DropCr | examples/nufront/nl6621/dbgtool/dbgtool.c:397-411 | removing CRs leaves no CR |
| CrLf.OnlyCrAdded | examples/nufront/nl6621/dbgtool/dbgtool.c:397-411 | without its CRs, the output is the input without its CRs: only CRs are added |
| CrLf.DropCrAppend | examples/nufront/nl6621/dbgtool/dbgtool.c:397-411 | removing CRs distributes over concatenation |
| CrLf.TranslatedLength | examples/nufront/nl6621/dbgtool/dbgtool.c:397-411 | exactly one CR is added per newline that no sent CR precedes |
| CrLf.TranslationGuards | examples/nufront/nl6621/dbgtool/dbgtool.c:397-411 | every newline sent is preceded by a CR |
| CrLf.GuardedUnchanged | examples/nufront/nl6621/dbgtool/dbgtool.c:397-411 | text whose newlines all follow a CR passes through unchanged |
| CrLf.Idempotent | examples/nufront/nl6621/dbgtool/dbgtool.c:397-411 | writing translated text again changes nothing |
| CrLf.CrLfPassesThrough | examples/nufront/nl6621/dbgtool/dbgtool.c:397-411 | a CR LF pair is not doubled |
| CrLf.TranslateCons | examples/nufront/nl6621/dbgtool/dbgtool.c:398-410 | each character goes out alone, or as CR LF when it is a newline with no CR just sent; `cr_sent` then records whether it was CR |
| CrLf.TranslateSnoc | examples/nufront/nl6621/dbgtool/dbgtool.c:397-411 | one more input character appends its output, decided by whether the input character before it was CR |
| CrLf.TranslateInserts | examples/nufront/nl6621/dbgtool/dbgtool.c:397-411 | the output is the input with a CR inserted before exactly the newlines whose preceding input character is not CR (at the front: unless a CR was last sent) |
| CrLf.CrFirst | examples/nufront/nl6621/dbgtool/dbgtool.c:398-402 | a bare newline first sends CR and keeps the loop invariant without consuming the newline |
| CrLf.CharSent | examples/nufront/nl6621/dbgtool/dbgtool.c:404-410 | any other character is sent and consumed, keeping the loop invariant |
| HexDump.Hexdump | examples/nufront/nl6621/dbgtool/dbgtool.c:47-69 | the loop prints exactly `Render(base, buf)` |
| HexDump.Render | examples/nufront/nl6621/dbgtool/dbgtool.c:47-69 | `hexdump` prints nothing exactly when `len` is 0 |
| HexDump.Xor | examples/nufront/nl6621/dbgtool/dbgtool.c:53-60 | the XOR checksum of a single byte is that byte |
| HexDump.RenderOpens | examples/nufront/nl6621/dbgtool/dbgtool.c:47-69 | the dump of a non-empty buffer opens with the header of `base_addr` and holds more than that header |
| HexDump.ByteStep | examples/nufront/nl6621/dbgtool/dbgtool.c:54-68 | one pass for byte k keeps the loop invariant: the first k+1 bytes rendered, `xor` over the current row |
| HexDump.XorStep | examples/nufront/nl6621/dbgtool/dbgtool.c:60-67 | `xor ^= buf[printed]` is the row's XOR so far, and it resets to 0 when the byte ends a row |
| HexDump.RenderStep | examples/nufront/nl6621/dbgtool/dbgtool.c:55-67 | one more byte adds its header if it opens a row, the byte, and the row's XOR if it ends one |
| HexDump.RowStep | examples/nufront/nl6621/dbgtool/dbgtool.c:62-64 | moving on one byte either ends a row or stays in it, and the row number and offset move accordingly |
| HexDump.XorSnoc | examples/nufront/nl6621/dbgtool/dbgtool.c:60 | the row's XOR absorbs one more byte |
| HexDump.ByteValues | examples/nufront/nl6621/dbgtool/dbgtool.c:59 | there are no more byte values than items |
| HexDump.ByteValuesAppend | examples/nufront/nl6621/dbgtool/dbgtool.c:59 | byte values distribute over concatenation |
| HexDump.EachByteOnce | examples/nufront/nl6621/dbgtool/dbgtool.c:54-62 | the bytes printed are exactly the buffer, each once and in order |
| HexDump.ByteValuesStep | examples/nufront/nl6621/dbgtool/dbgtool.c:55-67 | one more byte adds exactly that byte to the bytes printed |
| HexDump.ByteAmongMarks | examples/nufront/nl6621/dbgtool/dbgtool.c:55-67 | a byte between a header and a checksum adds only that byte |
| HexDump.MarksHoldNoBytes | examples/nufront/nl6621/dbgtool/dbgtool.c:55-67 | headers and checksums carry no data bytes |
| HexDump.RenderLength | examples/nufront/nl6621/dbgtool/dbgtool.c:54-68 | each full row adds a header and a checksum, and a partial row adds only a header |
| HexDump.RenderExtends | examples/nufront/nl6621/dbgtool/dbgtool.c:54-68 | dumping more bytes only appends to what was printed |
| HexDump.ByteLayout | examples/nufront/nl6621/dbgtool/dbgtool.c:47-69 | byte i is at item i + 2(i/16) + 1; just before it is the header `base + i` (mod 2^32) when i % 16 == 0, and byte i-1 otherwise; just after it is the XOR of its 16-byte row when (i+1) % 16 == 0, and byte i+1 otherwise; a last byte of a partial row is the last item |
| HexDump.ByteAt | examples/nufront/nl6621/dbgtool/dbgtool.c:55-59 | byte i is at item i + 2(i/16) + 1, after its row's header when it opens the row |
| HexDump.ChecksumAfter | examples/nufront/nl6621/dbgtool/dbgtool.c:64-67 | the byte that completes a row is followed by the XOR of that row |
| HexDump.LastByte | examples/nufront/nl6621/dbgtool/dbgtool.c:54-68 | a final partial row gets no checksum: its last byte is the last item |
| HexDump.Landing | examples/nufront/nl6621/dbgtool/dbgtool.c:54-68 | byte i is printed after the items of bytes 0..i-1 and its row's header, and that output is a prefix of the whole dump |
| HexDump.PreviousByte | examples/nufront/nl6621/dbgtool/dbgtool.c:55-59 | inside a row, byte i-1 is just before byte i |
| HexDump.NextByte | examples/nufront/nl6621/dbgtool/dbgtool.c:59-64 | inside a row, byte i+1 is just after byte i |
| DebugTool.FlashBytes | examples/nufront/nl6621/dbgtool/dbgtool.c:159 | a read of n bytes delivers n bytes |
| DebugTool.MemBytes | examples/nufront/nl6621/dbgtool/dbgtool.c:203 | a memory dump of len bytes reads len bytes |
| DebugTool.Dumps | examples/nufront/nl6621/dbgtool/dbgtool.c:164 | one `hexdump` output per dumped chunk |
| DebugTool.DumpLoop | examples/nufront/nl6621/dbgtool/dbgtool.c:156-167 | the dump loop dumps at most one chunk per `flash_read` call |
| DebugTool.Chunk | examples/nufront/nl6621/dbgtool/dbgtool.c:158 | the chunk is `len` or the size of `read_buf`, whichever is smaller |
| DebugTool.FlashRun | examples/nufront/nl6621/dbgtool/dbgtool.c:140-169 | a flash operation calls `flash_init` first; when it fails, the diagnostic is the only output; a command that is no flash operation and not help makes no call and prints nothing |
| DebugTool.Effect | examples/nufront/nl6621/dbgtool/dbgtool.c:273-286 | a memory dump or a baud change prints one event and makes no driver call; an ignored or aborted command does nothing |
| DebugTool.Step | examples/nufront/nl6621/dbgtool/dbgtool.c:267-287 | one pass of the loop prints the prompt first; a line with no token prints only the prompt |
| DebugTool.ShowHelp | examples/nufront/nl6621/dbgtool/dbgtool.c:232-256 | `show_help` prints the help text with the erase size, from one `flash_get_erasesize` call |
| DebugTool.DumpFlash | examples/nufront/nl6621/dbgtool/dbgtool.c:156-167 | the in-place dump loop makes the driver calls and prints the dumps the specification `DumpLoop` gives |
| DebugTool.ReadChunk | examples/nufront/nl6621/dbgtool/dbgtool.c:159 | a successful `flash_read` fills the front of `read_buf` with the flash bytes at its address |
| DebugTool.DumpsSnoc | examples/nufront/nl6621/dbgtool/dbgtool.c:164 | one more chunk adds its `hexdump` output at the end |
| DebugTool.ChunkDumped | examples/nufront/nl6621/dbgtool/dbgtool.c:158-166 | a successful chunk keeps the loop invariant with the address and length advanced |
| DebugTool.ChunkFails | examples/nufront/nl6621/dbgtool/dbgtool.c:159-162 | a failed chunk read is the loop's last call, and nothing more is dumped |
| DebugTool.HandleFlash | examples/nufront/nl6621/dbgtool/dbgtool.c:78-173 | `handle_flash` does what `FlashRun` gives for the parsed command |
| DebugTool.RunFlash | examples/nufront/nl6621/dbgtool/dbgtool.c:140-169 | after parsing, help, or `flash_init` then the operation, as `FlashRun` gives |
| DebugTool.HandleDump | examples/nufront/nl6621/dbgtool/dbgtool.c:175-207 | `handle_dump` dumps len bytes of memory from addr when both parse, and prints nothing otherwise |
| DebugTool.HandleUart | examples/nufront/nl6621/dbgtool/dbgtool.c:209-230 | `handle_uart` announces the switch to the parsed speed, and prints nothing when the speed is missing or overflows |
| DebugTool.MainStep | examples/nufront/nl6621/dbgtool/dbgtool.c:267-287 | one pass of `main`'s loop prints the prompt and then does what `Step` gives for the line |
| DebugTool.DumpUnfold | examples/nufront/nl6621/dbgtool/dbgtool.c:157-166 | after a successful chunk read, the loop goes on from the next address with the remaining length |
| DebugTool.DumpChunkSizes | examples/nufront/nl6621/dbgtool/dbgtool.c:157-162 | there are chunk reads exactly when len > 0; each reads 1 to 256 bytes into `read_buf`; all but the last read exactly 256 bytes and succeed |
| DebugTool.DumpAddresses | examples/nufront/nl6621/dbgtool/dbgtool.c:158-165 | the i-th chunk is read from `fl_addr + 256 i` (mod 2^32) |
| DebugTool.ShiftedAddresses | examples/nufront/nl6621/dbgtool/dbgtool.c:158-165 | a read at `fl_addr` in front of reads 256 bytes apart from the next address continues the sequence of addresses |
| DebugTool.DumpedChunks | examples/nufront/nl6621/dbgtool/dbgtool.c:159-164 | every chunk read but a failed last one is dumped, in order, with the bytes read at its own address |
| DebugTool.DumpsInOrder | examples/nufront/nl6621/dbgtool/dbgtool.c:164 | the i-th dump printed is `hexdump` of the i-th chunk at its address |
| DebugTool.DumpCompletes | examples/nufront/nl6621/dbgtool/dbgtool.c:157-167 | every chunk is dumped exactly when every chunk read succeeds, and then the chunk lengths sum to len; otherwise the failed read is the last call |
| DebugTool.StatusesShift | examples/nufront/nl6621/dbgtool/dbgtool.c:159-162 | after a successful first read, all reads succeed exactly when all the later ones do |
| DebugTool.InitFailureStops | examples/nufront/nl6621/dbgtool/dbgtool.c:140-144 | a failing `flash_init` prints the diagnostic and makes no other driver call |
| DebugTool.InitComesFirst | examples/nufront/nl6621/dbgtool/dbgtool.c:86-144 | a flash operation calls `flash_init` first and only once; a line naming no operation calls at most `flash_get_erasesize` |
| DebugTool.StatusNotReported | examples/nufront/nl6621/dbgtool/dbgtool.c:146-155 | after `flash_init` succeeds, read, write and erase make one call and print nothing, whatever it returns |
| DebugTool.UnknownLineShowsHelp | examples/nufront/nl6621/dbgtool/dbgtool.c:284-286 | a line that asks for help prints the prompt and the help text, and calls only `flash_get_erasesize` |
| DebugTool.BlankLine | examples/nufront/nl6621/dbgtool/dbgtool.c:273-276 | a line of spaces only prints the prompt again |
| DebugTool.BlankTokens | examples/nufront/nl6621/dbgtool/dbgtool.c:273 | a line of spaces has no token |

## Left out

- `syscfg_clk_init`, `uart_init`, `uart_putc` and `uart_getc` are hardware register access. The UART is the pair of sequences `Console.input` and `Console.output`. `uart_init(rate)` is the `Switching(rate)` event.
- The flash driver (`flash_init`, `flash_read`, `flash_write`, `flash_erase`, `flash_get_erasesize`) is external. Calls are recorded in a trace. Each call's status and the flash contents come from a `Driver` value. What read, write and erase do to flash or RAM, and erase's block granularity, are not modelled.
- RAM is the function `mem` from address to byte, read by `handle_dump`. The RAM writes of `flash read` and the raw pointer casts are not modelled.
- `iprintf` text, the banner and the `show_help` text are output events, not formatted characters. `hexdump` output is `Header`/`Byte`/`Checksum` items, not text.
- `fflush`, stdio buffering and `fgets` are not modelled. `fgets`' limit of 254 characters is left out as well. A line is the buffer contents `main` hands to `strtok`. `read_buf` being shared by the line and the flash dump is not modelled: a line is parsed completely before any chunk is read.
- `main`'s `while(1)` loop is modelled as one pass (`DebugTool.MainStep`), and the start-up code before it is left out.
- `uart_getc` blocks until a key arrives. When the model's keystrokes run out before a CR, `get_buffered_line` and `_read` return `done == false` instead of blocking.
- `strtoul`'s `endptr` and the locale are not modelled. `isspace` uses the "C" locale.
- `examples/nufront/nl6621/uart/uart.c` is not part of this model.
