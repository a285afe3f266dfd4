# filetransfer: a verified model of the resumable download client

The client in `src/main.rs` downloads one resource from a server that may close the
connection early. It sends `GET / HTTP/1.0` and reads everything until the server
closes. It splits the reply at the first blank line (`\r\n\r\n`) and learns the total
size from the `Content-Length: ` header line. After that it keeps reconnecting and
asking for `Range: bytes=<received>-<total>` until the body bytes it holds add up to
the declared total. Then it appends the bodies, in arrival order, to the output file.

The model has one Dafny module per part of the program:

- `Wire` (`wire.dfy`): the byte type, `Option`, CR/LF, and ASCII literals as bytes.
- `Decimal` (`decimal.dfy`): `{n}` formatting and `str::parse::<usize>`. It assumes a
  64-bit `usize`.
- `Utf8` (`utf8.dfy`): the well-formedness check `String::from_utf8` makes, following
  Table 3-7 of the Unicode Standard.
- `Codec` (`codec.dfy`): `Response::try_from`, `Response::data`, `str::lines` and
  `Headers::content_length`.
- `Requests` (`requests.dfy`): `Requests::to_header`. It comes with a reader that
  inverts it.
- `Transfer` (`transfer.dfy`): the `WholeData` accumulator. It is a class whose fields
  `Add` updates in place. `Save` writes the bodies with a loop, and `ToVec` is the fold.
- `Driver` (`driver.dfy`): `main`.
  - `Download` is the imperative loop, over the same `WholeData` object.
  - It is proved equal to the specification function `Run`/`Resume`.
  - The properties of the run are lemmas about `Run`.
- `Cli` (`cli.dfy`): `parse_args`. It is a `while` loop proved equal to the scan
  function `Scan`.

How the model stands in for the outside world:

- The server and the operating system are a finite sequence of `Reply` values, one per
  connection cycle. Each is either the bytes read before the server closed, a refused
  connection, or a failed read or write.
- Each `unwrap` or `expect` that would panic becomes an `Aborted` or `Failed` outcome.
- The sequence of replies is finite, so a run the program would continue forever ends
  with `OutOfReplies`. This happens when the server keeps sending empty bodies or
  sends more than the declared total. `StalledServer` and `OvershootNeverCompletes`
  state what the program does in those cases.

Header text is kept as its UTF-8 bytes. A Rust `String` is exactly such a byte
vector, and `lines`, `starts_with`, `split_at` and `parse` only inspect its ASCII bytes.

`content_length` does not stop at the first `Content-Length: ` line. `find_map` passes
over such a line when its remainder does not parse, and it uses the next line whose
value does parse (src/main.rs:144-147). `UnparsableLengthSkipped` states this behaviour.

The progress bar is not pure output in one case. `ProgressBar::new(target, len)`
(src/main.rs:24, 188-192) draws the first body as `len / target * 32` characters. For a
declared length of 0 and a non-empty first body that quotient is infinite, the cast
saturates it to `usize::MAX`. The sum at src/main.rs:214 then overflows in debug builds,
and `repeat` at src/main.rs:216 panics in release builds. The run then
ends after the full fetch, before any range request and before the file is written.
`Run` and `Download` model this as the `ProgressPanic` failure, and `ZeroLengthPanics`
states it.

## Model

| member | source | states |
|---|---|---|
| Decimal.Dec | src/main.rs:137 | `{n}` is a non-empty string of ASCII digits, denotes `n`, and has no leading zero |
| Decimal.ParseUsize | src/main.rs:146 | an accepted numeral never exceeds `usize::MAX` |
| Decimal.DigitsCanonical | src/main.rs:146 | every digit string is leading zeros followed by the canonical rendering of its value |
| Decimal.ParseUsizeSound | src/main.rs:146 | every string `parse::<usize>` accepts is an optional `+`, zeros, and the rendering of its value |
| Decimal.ParseUsizeComplete | src/main.rs:146 | every optional `+`, zeros, and the rendering of a value up to `usize::MAX` is accepted with that value |
| Decimal.ParseDec | src/main.rs:137-146 | parsing `{n}` (with or without `+`) gives back `n` exactly when `n` fits in a `usize` |
| Utf8.Valid | src/main.rs:154 | the Table 3-7 check `from_utf8` makes; a valid text never starts with a continuation byte or with `C0`, `C1` or `F5`-`FF` (its closure properties are `AsciiValid` and `ValidConcat`) |
| Utf8.AsciiValid | src/main.rs:154 | ASCII bytes pass the UTF-8 check |
| Utf8.ValidConcat | src/main.rs:154 | valid UTF-8 followed by valid UTF-8 is valid UTF-8 |
| Codec.FindTerminator | src/main.rs:153 | `windows(4).position` finds the first `\r\n\r\n` at or after the start point, or reports that there is none |
| Codec.TryFrom | src/main.rs:151-166 | succeeds iff a `\r\n\r\n` exists and the bytes before its first occurrence are valid UTF-8; then it keeps the bytes, sets the split offset to position + 4, and sets the header text to the bytes before the terminator |
| Codec.ResponseSplits | src/main.rs:158-174 | header bytes, then `\r\n\r\n`, then `data()` rebuild the input, and the body has `len - pos - 4` bytes |
| Codec.FrameParses | src/main.rs:151-174 | a header with no blank line inside, followed by the blank line and a body, parses back to that header and that body |
| Codec.Response.Data | src/main.rs:172-174 | `data()` is the `len - headers_splitoff` bytes after the split offset; `ResponseSplits` shows that header, blank line and body rebuild the input |
| Codec.Lines | src/main.rs:144 | no line that `lines()` yields contains LF |
| Codec.LinesJoin | src/main.rs:144 | `lines()` splits CR LF-joined lines back into those lines |
| Codec.LengthOf | src/main.rs:145-146 | a line yields a value only if it starts with `Content-Length: `, and the value fits in a `usize`; `LengthLine` gives the exact values |
| Codec.FirstLength | src/main.rs:144-147 | `find_map`: any value is one that some line yields and fits in a `usize`; `FirstLengthAt` and `FirstLengthNone` pin down which line |
| Codec.Headers.ContentLength | src/main.rs:143-148 | the declared length always fits in a `usize`; which line supplies it is stated by `FirstLengthAt`, `FirstLengthNone` and `UnparsableLengthSkipped` |
| Codec.FirstLengthAt | src/main.rs:143-148 | the value comes from the first line that yields one; earlier lines, including `Content-Length: ` lines whose value does not parse, are passed over |
| Codec.FirstLengthNone | src/main.rs:143-148 | there is no value iff no line yields one |
| Codec.LengthLine | src/main.rs:145-146 | the line `Content-Length: <n>` yields `n` exactly when `n` fits in a `usize` |
| Codec.DuplicateLengthFirstWins | src/main.rs:143-148 | with two valid `Content-Length` lines, the first line's value is used |
| Codec.UnparsableLengthSkipped | src/main.rs:143-148 | an unparsable `Content-Length` line is skipped, and a later valid one is used |
| Codec.LengthLineAlone | src/main.rs:143-148 | a header that is only `Content-Length: <n>` declares `n` |
| Codec.LengthFrameParses | src/main.rs:143-166 | a response with header `Content-Length: <n>` parses, keeps its body, and declares `n` |
| Codec.BareFrameParses | src/main.rs:143-166 | a response with an empty header parses, keeps its body, and declares no length |
| Requests.ToHeader | src/main.rs:133-140 | every request ends with the blank line `\r\n\r\n`; `ToHeaderRoundTrip` and `RangeEnvelope` give its exact text and that both bounds can be read back |
| Requests.ToHeaderRoundTrip | src/main.rs:133-140 | reading a rendered request back gives the same request; both range bounds are rendered exactly in decimal |
| Requests.RangeEnvelope | src/main.rs:137 | a range request is the fixed prefix, then `<n>-<m>`, then the blank line, and it differs from the full request |
| Requests.RequestIsHeaderBlock | src/main.rs:133-140 | every request is the text `GET / HTTP/1.0` (plus `Range: bytes=<n>-<m>` for a range) followed by a blank line, and `try_from` reads it back with exactly those lines |
| Transfer.ConcatLength | src/main.rs:109-117 | the reassembled bytes number exactly the sum of the body lengths |
| Transfer.ConcatPlacesBodies | src/main.rs:109-117 | body `i` sits at offset (bytes received before it) of the reassembly, with no gap and no overlap |
| Transfer.TotalLenAppend | src/main.rs:103-105 | appending a response adds its body length to the total and its body to the reassembly |
| Transfer.TotalLenMonotone | src/main.rs:104 | the running total never decreases |
| Transfer.WholeData.constructor | src/main.rs:26-30 | the accumulator starts with the first response, its body length and the declared target, and the invariant holds |
| Transfer.WholeData.Add | src/main.rs:103-107 | `add` adds the body length to `current_len`, appends the response last, leaves `target_len` unchanged, keeps the invariant, and returns true iff `current_len == target_len` |
| Transfer.WholeData.ToVec | src/main.rs:109-117 | `_to_vec` is the bodies in stored order, `current_len` bytes long |
| Transfer.WholeData.Save | src/main.rs:119-129 | `save` appends every body, in stored order, to the file's previous contents |
| Driver.Run | src/main.rs:20-46 | `main` against a sequence of replies; its properties are `RunFacts`, `DeliveryCompletes`, `FirstResponseSuffices`, `MissingLengthAborts` and `ZeroLengthPanics` |
| Driver.Resume | src/main.rs:32-46 | the `while` loop of `main`; its properties are `ResumeEnds`, `ResumeKeeps`, `ResumeDelivers`, `OvershootNeverCompletes` and `StalledServer` |
| Driver.Download | src/main.rs:20-46 | the imperative `main` loop over `WholeData` produces exactly the outcome of the specification `Run` |
| Driver.ResumeEnds | src/main.rs:32-46 | the loop ends `Complete` iff the bodies add up to the target; only then is the file written, with the bodies in order, one request per response |
| Driver.ResumeKeeps | src/main.rs:32-42 | each range request starts at the bytes received before it and ends at the target; responses are kept in arrival order; the target is not reached before the last response |
| Driver.StepKeeps | src/main.rs:32-42 | one loop iteration keeps those three facts |
| Driver.RunFacts | src/main.rs:20-46 | every run: the full fetch comes first, then ranges from the running total to the declared length; the run completes exactly when the bodies add up to that length, never earlier; the file is written only then, in arrival order |
| Driver.ResumeDelivers | src/main.rs:32-42 | replies whose bodies first add up to the target at the last one complete the loop with exactly those responses |
| Driver.DeliveryCompletes | src/main.rs:20-46 | when the server sends parts that reach the declared length, the run completes, sends one request per part, and writes the parts in order |
| Driver.FirstResponseSuffices | src/main.rs:22-32 | if the first body has the declared length, no range request is sent and the file gets that body |
| Driver.MissingLengthAborts | src/main.rs:23 | a first response without a usable `Content-Length` ends the run after the full fetch, with the file untouched |
| Driver.ZeroLengthPanics | src/main.rs:188-216 | a first response declaring length 0 with a non-empty body aborts in `ProgressBar::new` (called at line 24) after the full fetch, with no range request and the file untouched |
| Driver.OvershootNeverCompletes | src/main.rs:32 | once the total passes the target, the loop can never complete |
| Driver.TwoPartDownload | src/main.rs:20-46 | declared length `n`, first body `b0`, then a range reply with the rest `b1`: requests are `Full` then `Range(|b0|, n)`, and the file gets `b0 + b1` |
| Driver.StalledServer | src/main.rs:32-41 | a server that sends empty bodies gets the same range request over and over, and the run never completes |
| Cli.Scan | src/main.rs:244-261 | the `while let` scan; the selected address and path each come from the defaults or from the arguments, and an unknown argument is one of the arguments; `ScanAppend`, `ScanRender`, `LastAddressWins`, `HelpStops`, `UnknownStops` and `DanglingOption` state its behaviour |
| Cli.UnknownStops | src/main.rs:259 | an argument other than `-a`, `-o` and `-h`, after valid arguments, ends the scan with the error naming it, whatever follows |
| Cli.ParseArgs | src/main.rs:237-263 | the `while let` scan produces exactly `Scan` of the arguments after the program name, from the defaults `127.0.0.1:8080` and `data` |
| Cli.ScanAppend | src/main.rs:244-261 | after a prefix that scans cleanly, the scan continues from the settings that prefix left |
| Cli.ScanRender | src/main.rs:244-261 | `-a <address> -o <path>` selects exactly that address and path |
| Cli.LastAddressWins | src/main.rs:246-249 | a later `-a` overrides an earlier one |
| Cli.HelpStops | src/main.rs:254-258 | `-h` after valid arguments ends the scan with the usage, whatever follows |
| Cli.DanglingOption | src/main.rs:246-253 | `-a` or `-o` as the last argument is an error |

## Left out

- TCP I/O in `Client` (src/main.rs:78-99) is left out. It is replaced by the sequence of replies:
  - connect, `write_all`, `flush` and `read_to_end` are not modelled;
  - `reconnect` always uses `127.0.0.1:8080` and ignores `-a`, so the address does not reach the driver.
- `main` ignores the result of the first `write` (src/main.rs:20). A failed first write therefore shows up only through what the following read returns. A reply the server sends anyway is a `Delivered` reply, and a failed read is a `Broken` one.
- `ProgressBar` (src/main.rs:180-229) is otherwise `f32` arithmetic and console output, and it is left out. The one panic it causes on ordinary input is modelled as `ProgressPanic`: a declared length of 0 with a non-empty first body. The model does not capture its other failures: a failed `stdout` flush, and the memory needed to draw a body many times longer than the declared length.
- The `Instant` timing and the `println!` messages in `main` (src/main.rs:19, 43-51) are console output.
- `save`'s open-for-append failure and the short-write `assert_eq!` (src/main.rs:120-126) are left out because they are operating-system I/O. The output file is a byte sequence that `Save` appends to.
- The help text and `process::exit` in `parse_args` become the `Help` outcome. The panics become `Failed`.
- Full UTF-8 decoding is left out: the model keeps the validated bytes and does not decode code points.
- Transfer.WholeData.Add: does not model `usize` overflow of `current_len` (it panics in debug builds and wraps in release builds), because the counts are unbounded naturals.
- Driver.Run: stops with `OutOfReplies` when the finite reply sequence runs out, where the program would keep reconnecting forever. The sequence acts as fuel.
- `str::lines` follows current Rust: a piece loses its LF and then one CR before it, and the piece after a final LF is dropped only when it is empty.
