# Torrent2LS — a verified model of the run controller and the upload request

Torrent2LS is a small Windows tray program. It takes a `.torrent` file on its
command line and uploads it to a LinkStation network storage device. The
device's address comes from the second argument when there are exactly
two, otherwise from `lsip.txt` next to the executable. The program POSTs the file to the device's
`torrent-add` endpoint as a `multipart/form-data` body. It shows a balloon
tip with the outcome and sets the process exit code.

This project models the three pieces of logic in `Torrent2LS/Program.cs`:

- **The run controller** (`Run`, `Exit`, `PostTorrent`): `Controller.Program`
  is a class whose fields are the static state a run changes:
  - `exitCode` is `Environment.ExitCode`;
  - `iconVisible` is the tray icon's visibility;
  - `exiting` says the message loop was told to end;
  - `trace` holds the effects so far, in order: notices, exits, reading the
    configuration, parsing the address, the request, the body sent and the
    answer.

  The methods update these fields step by step, following the source's early
  returns and its try/catch blocks. Each method is proved against a
  specification function (`RunEvents`, `PostEvents`, `ResolutionEvents`).
  The exit code is tied to the trace by the invariant `Consistent`: the
  code is the last one `Exit` wrote.
- **The multipart body** (`Multipart`): the request URL, the boundary
  (28 dashes and the tick count in lower-case hex), the content type, and the
  body itself. The body is the ASCII delimiter line, the UTF-8 part header,
  the file bytes and the same delimiter line again. It is framed as in
  RFC 7578 and section 5.1.1 of RFC 2046. The program does not write the
  close-delimiter's trailing `--`, and the model keeps that framing. The body
  is written by a method onto a `RequestStream` object. A parser from the
  receiver's side ends the part at the first whole delimiter line
  (CR LF `--` boundary CR LF) after the header. It is more lenient than
  section 5.1.1 of RFC 2046, whose delimiter is CR LF `--` boundary alone
  and may share its line with other text: file bytes holding CR LF `--`
  boundary without the line break after it stop an RFC 2046 receiver but
  not this parser. Parsing gives the part header back, and it gives the
  file bytes back exactly when no whole delimiter line starts inside
  them. The program takes the boundary from the clock and does not check
  the file for it.
- **The answer** (`Response`): the device accepts the upload unless its
  answer contains the case-sensitive substring `Fail`.

`Encoding` holds what the rest is built on: the .NET ASCII encoder (a
non-ASCII character becomes `?`, twice for a character outside the Basic
Multilingual Plane), the UTF-8 encoder with a strict decoder, lower-case hex
formatting, and the unchecked `(int)` narrowing of a 64-bit length.

The world outside the program is the parameter `World`:
- the existing files and their bytes;
- the startup path;
- the outcome of reading `lsip.txt`;
- `IPAddress.Parse` as a function from text to an outcome;
- the tick count;
- a `Transport` that fails when the stream is opened, fails when the
  response is read, or answers with a text.

Two behaviours follow directly from the code:
- **A transport failure ends with exit code 0.** On a transport exception
  `PostTorrent` runs `Exit(4)` in its catch block but still returns 0, and
  `Run` then calls `Exit(0)`. `Exit` overwrites `Environment.ExitCode`, so
  the final code is 0. `TransportFailureEndsWithZero` proves that the codes
  written are 4 and then 0.
- **The configuration text reaches the parser untrimmed.** The text read
  from `lsip.txt` is passed to `IPAddress.Parse` as it is.

## Model

| member | source | states |
|---|---|---|
| Controller.Program.Run | Torrent2LS/Program.cs:43-96 | Run's effects are exactly `RunEvents`, it keeps `Consistent`, and it leaves the exit code of the decision table: 1 without arguments, 2 for a missing file, 3 when the address cannot be resolved, and 0 otherwise |
| Controller.Program.FinishRun | Torrent2LS/Program.cs:83-93 | after the address step, the effects are the error notice and Exit(3) when it threw, and otherwise the upload followed by the Exit of PostTorrent's result, as `RunEvents` prescribes |
| Controller.Program.constructor | Torrent2LS/Program.cs:21-31 | at start the icon is shown, the exit code is 0, nothing has happened yet, and the state is consistent |
| Controller.Program.Exit | Torrent2LS/Program.cs:113-118 | Exit overwrites the exit code with its argument, hides the icon, ends the message loop and records the exit |
| Controller.Program.Notify | Torrent2LS/Program.cs:120-125 | Notify records one notice and changes neither the exit code nor the icon |
| Controller.Program.ReadAddress | Torrent2LS/Program.cs:69-82 | the address is `ResolveAddress`: the second argument when there are exactly two, otherwise the configuration text, parsed; the config file is read only in the second case, and no exit code is written |
| Controller.Program.PostTorrent | Torrent2LS/Program.cs:127-185 | PostTorrent returns 0 on every path, and its effects are the try block's effects followed by the error notice and Exit(4) exactly when the try block threw |
| Controller.Program.TryPost | Torrent2LS/Program.cs:129-175 | the try block records the request, then the body when it could be written, then the answer and its verdict notice; it throws when the stream fails, when the narrowed length is negative, or when the response fails |
| Controller.Program.ReadAnswer | Torrent2LS/Program.cs:157-174 | the answer is recorded, followed by the success notice when it lacks "Fail" and the rejection notice otherwise; the exit code is unchanged |
| Controller.RunExitCode | Torrent2LS/Program.cs:43-96 | whatever the exit code was before, the last code a run writes is the decision-table code |
| Controller.RunExitCodes | Torrent2LS/Program.cs:43-96 | the codes a run writes, in order: [1], [2], [3], [4, 0] after a transport failure, or [0] |
| Controller.PostExitCodes | Torrent2LS/Program.cs:176-184 | PostTorrent writes the code 4 exactly when its try block throws, and no code otherwise |
| Controller.ExitCodesMembers | Torrent2LS/Program.cs:113-114 | a code is among those written exactly when some Exit wrote it |
| Controller.FinalExitCode | Torrent2LS/Program.cs:113-114 | the final exit code is the initial one or a code some Exit wrote; it is the initial one when nothing exited, and the code of the last event when that event is an exit |
| Controller.FinalExitCodeAppend | Torrent2LS/Program.cs:113-114 | the last write wins: the exit code after two runs of effects is that of the second, applied to the code left by the first |
| Controller.NoArguments | Torrent2LS/Program.cs:45-52 | without arguments the run exits with 1 and neither resolves an address nor uploads |
| Controller.MissingFile | Torrent2LS/Program.cs:54-63 | when the first argument names no existing file the run exits with 2 and neither resolves an address nor uploads |
| Controller.AddressSource | Torrent2LS/Program.cs:71-77 | with exactly two arguments the second is parsed and lsip.txt is never read; otherwise lsip.txt is read first and its text is what gets parsed |
| Controller.ResolutionFailure | Torrent2LS/Program.cs:83-91 | when reading or parsing the address fails the run exits with 3 and makes no upload |
| Controller.UploadEndsWithZero | Torrent2LS/Program.cs:93 | once the address is resolved the run makes exactly one upload attempt and ends with exit code 0 |
| Controller.TransportFailureEndsWithZero | Torrent2LS/Program.cs:176-184 | on a transport failure the codes written are 4 and then 0, and the process ends with 0 |
| Controller.AfterResolutionResolvesNothing | Torrent2LS/Program.cs:83-93 | after resolution the run neither reads the configuration nor parses another address |
| Controller.PostAttempts | Torrent2LS/Program.cs:127-185 | PostTorrent makes exactly one request |
| Controller.AnsweredPost | Torrent2LS/Program.cs:142-174 | when the device answers, PostTorrent's effects are exactly four: the request to the address with the boundary's content type, the body, the answer and the verdict notice; no exit code is written |
| Controller.UploadedBody | Torrent2LS/Program.cs:133-155 | the request names the resolved address and the boundary that frames the body; for a file shorter than 2^31 bytes the body carries the whole file; a receiver gets the part header back, and gets the file's bytes back exactly when no whole delimiter line occurs in them |
| Controller.AnswerClassified | Torrent2LS/Program.cs:157-174 | with an answer, the success notice is shown exactly when `Classify` accepts the answer, and the run's last event is Exit(0) |
| Controller.FileName | Torrent2LS/Program.cs:148 | the file name is the path's suffix after its last separator, and it holds no separator |
| Controller.Attempts | Torrent2LS/Program.cs:142 | the attempt count is zero exactly when no request was started |
| Multipart.RequestUrl | Torrent2LS/Program.cs:133-134 | the URL is the address verbatim between "http://" and ":8080/api/torrent-add?start=yes" |
| Multipart.Boundary | Torrent2LS/Program.cs:137 | the boundary starts with the 28 dashes and the rest reads back as the tick count in hex |
| Multipart.ContentType | Torrent2LS/Program.cs:138 | the content type is "multipart/form-data; boundary=" followed by exactly the boundary |
| Multipart.PartHeader | Torrent2LS/Program.cs:147-148 | the header is the template with the file name verbatim between its fixed lead and tail |
| Multipart.Delimiter | Torrent2LS/Program.cs:144 | the delimiter bytes are at least six longer than the boundary, open with CR LF "--" and close with CR LF |
| Multipart.RequestStream.Write | Torrent2LS/Program.cs:145 | each write appends its bytes to what the stream holds |
| Multipart.BoundaryIsLegal | Torrent2LS/Program.cs:137 | for every 64-bit tick count the boundary is a legal RFC 2046 boundary: 1 to 70 ASCII boundary characters, not ending in a space |
| Multipart.WriteBody | Torrent2LS/Program.cs:142-155 | the writer appends the whole body exactly when the narrowed length is not negative; otherwise it stops after the part header |
| Multipart.BodyLayout | Torrent2LS/Program.cs:144-154 | the body is the delimiter, the UTF-8 header, the file bytes and the same delimiter, and its length is the sum of theirs |
| Multipart.BodyEndsWithLineBreak | Torrent2LS/Program.cs:154 | the body ends with CR LF: the closing delimiter is the opening form, not the close-delimiter |
| Multipart.DelimiterIsExact | Torrent2LS/Program.cs:144 | for an ASCII boundary the ASCII delimiter loses nothing, equals its UTF-8 form, and is six bytes longer than the boundary |
| Multipart.ReadBytes | Torrent2LS/Program.cs:152 | reading throws exactly for a negative count, and otherwise yields a prefix of the file: the first `count` bytes when there are that many, and all the bytes when the count exceeds them |
| Multipart.BodyCarriesWholeFile | Torrent2LS/Program.cs:151-152 | a file shorter than 2^31 bytes is read in full and unmodified |
| Multipart.LongFileIsTruncated | Torrent2LS/Program.cs:152 | a file of 2^32 + 5 bytes is narrowed to 5, and only its first five bytes are read |
| Multipart.FindFrom | Torrent2LS/Program.cs:144-154 | the search returns the first occurrence of the pattern at or after its start, and nothing exactly when there is none |
| Multipart.ParseBody | Torrent2LS/Program.cs:144-154 | a parsed part lies in the body: the opening delimiter, the header, the content, and a delimiter right after the content |
| Multipart.ContentBeforeDelimiter | Torrent2LS/Program.cs:151-154 | the bytes before the first delimiter line in the file bytes followed by that line are the whole file exactly when no delimiter line starts inside it |
| Multipart.ParseBodyRoundTrip | Torrent2LS/Program.cs:144-154 | parsing the body with its boundary always succeeds; the header decodes to the part header with the file name, and the content is the file bytes exactly when no whole delimiter line starts inside them (a receiver more lenient than section 5.1.1 of RFC 2046) |
| Response.Contains | Torrent2LS/Program.cs:162 | the scan reports true exactly when the substring occurs at some index |
| Response.Classify | Torrent2LS/Program.cs:162-173 | an answer is rejected exactly when "Fail" occurs in it |
| Response.ClassifyExamples | Torrent2LS/Program.cs:162 | the match is case-sensitive and may sit anywhere: "fail" and "FAIL" are accepted, "Upload Failed" is rejected |
| Response.RejectionIsStable | Torrent2LS/Program.cs:162 | text added around a rejected answer keeps it rejected |
| Encoding.Utf8RoundTrip | Torrent2LS/Program.cs:148-149 | decoding the UTF-8 form of the header gives back the header text |
| Encoding.AsciiOfAscii | Torrent2LS/Program.cs:144 | on ASCII text the ASCII encoder gives one byte per character, equal to its code |
| Encoding.AsciiChar | Torrent2LS/Program.cs:144 | the ASCII encoder keeps an ASCII character and replaces any other with one or two '?' |
| Encoding.Utf8Char | Torrent2LS/Program.cs:149 | a character's UTF-8 form is 1 to 4 bytes; a single byte exactly for ASCII, and only bytes of 0x80 and above otherwise |
| Encoding.Ascii | Torrent2LS/Program.cs:144 | the ASCII encoder gives one or two bytes per character |
| Encoding.Utf8 | Torrent2LS/Program.cs:149 | the UTF-8 encoder gives one to four bytes per character |
| Encoding.Hex | Torrent2LS/Program.cs:137 | the hex text is non-empty, has no leading zero, holds only lower-case hex digits and reads back to the number |
| Encoding.Int32Cast | Torrent2LS/Program.cs:152 | the `(int)` cast yields the 32-bit signed value congruent to the length modulo 2^32, which is the length itself below 2^31 |

## Left out

- The WinForms presentation is not modelled: the tray icon's image, the `ApplicationContext`, `Application.Run` and `DoEvents`, and the balloon tip's look. `Notify` is an event in the trace.
- The worker thread started in `Main` and the `Thread.Sleep` in `Notify` are not modelled. They are concurrency and timing.
- `Log` is left out. It writes a diagnostic file only when `LOGGING` is defined and has no effect on the run.
- Real HTTP is replaced by the `Transport` input: creating the request, credentials, keep-alive, and reading the response stream. A transport that fails while the body is being written is modelled as failing when the stream is opened, so partly written bodies are not recorded.
- The file system is the `files` map, looked up by the exact path text. Path normalisation, relative paths and access errors in `FileInfo` and `OpenRead` are not modelled.
- Reading `lsip.txt` as UTF-16 is the `config` input, an outcome given in advance. Decoding the file's bytes is not modelled.
- `IPAddress.Parse` and `IPAddress.ToString` are the `parseAddress` input. IPv6 literals go into the URL without brackets, as in the code; what the HTTP stack does with such a URL is part of the transport input.
- `DateTime.Now.Ticks` is the `ticks` input.
- Exception texts (`ex.ToString()`) are given as `cause` strings. `CountOutOfRange` stands for the text of the exception `BinaryReader.ReadBytes` throws on a negative count.
- Controller.FileName: covers `\`, `/` and `:` as separators. The other rules of `FileInfo.Name` on Windows paths are not modelled.
- Multipart.ParseBodyRoundTrip: requires a file name without a carriage return. With one, the name could end the header early, and the parser would stop at the wrong empty line.
- Controller.RunEvents, Controller.RunExitCode, Controller.MissingFile: `new FileInfo(torrentFile)` at Torrent2LS/Program.cs:55 sits outside any try block. An empty or malformed first argument throws there, and the worker thread ends with no notice and no `Exit`. The decision table covers only arguments that `FileInfo` accepts; such inputs are a missing file in the model.
- Encoding.Utf8, Multipart.PartHeader: names and arguments are sequences of Unicode scalar values, not of UTF-16 code units as .NET strings are. A file name or argument holding an unpaired surrogate, which `Encoding.UTF8.GetBytes` at Torrent2LS/Program.cs:149 writes as U+FFFD (EF BF BD), is not modelled.
