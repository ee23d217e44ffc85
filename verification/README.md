# A verified model of fingered

`fingered` is a small Finger daemon (RFC 1288) with an experimental TLS
variant, "fingers". This project models the parts of it that process text and
coordinate goroutines, and proves properties of them for all inputs and all
runs. `dafny verify dfyconfig.toml` checks everything.

## How it is organised

| file | component |
|---|---|
| `ByteStrings.dfy`, `Utf8.dfy`, `Spaces.dfy` | byte strings, UTF-8 (section 4 of RFC 3629), white space: the Go library operations the daemon relies on |
| `Sanitize.dfy`, `Segments.dfy`, `Response.dfy`, `ContentNames.dfy` | from file or program output to the body of a reply |
| `BodyLaws.dfy`, `ResponseLaws.dfy` | the same in numbers and names: what becomes of each code point, what a reply is made of |
| `Requests.dfy`, `RequestLaws.dfy`, `LineLaws.dfy` | the request grammar, its laws, and the accepted lines in characters |
| `Reader.dfy`, `Proxy.dfy`, `Connection.dfy` | reading lines, the PROXY header, serving one connection |
| `RunProtocol.dfy`, `RunOutcomes.dfy`, `RunHistory.dfy` | starting and stopping: goroutines, channels, wait groups and the context as a transition system; what can come of a run; what its events say about its end |
| `CappedBuffer.dfy`, `LogField.dfy`, `ConfigFile.dfy` | captured program output, log fields, the configuration file |
| `ConfigLaws.dfy`, `ConfigMeaning.dfy` | what the words of a configuration file mean, field by field, and which files are loaded |

Code with loops or mutable state is imperative (methods with invariants,
classes for the reader, the connection, the capped buffer and the configuration
under construction). Each such method is proved to compute a specification
function, and the laws are lemmas about those functions. Pure checks are
functions. The interleavings of `Run` are events of a transition system, and its
theorems hold for every sequence of enabled events.

Each parser and each assembling function also has a reference statement in
literals (characters, numbers, names) that does without the function's own helper
predicates and constants.

Both modes of `sanitizeBody` are specified once, on code points: a body is
decoded (as UTF-8 or byte by byte), its line ends are normalised, disallowed
code points become `?`, line ends become CRLF, and the result is encoded again.
The method does what the program does: two replacement passes over the bytes,
a validity test on the *replaced* bytes, and a rewriting loop.

Three claims that come to mind first are not true of the code. The exact ones
are proved instead.

- A newline at position `max + 2` is the byte that overflows: `readLine` drops
  it, and `discardLine` runs on to the next newline (`ReadThenDiscard`,
  `ServedExactly`).
- `Run` may find both channels ready and return nil although a listener sent an
  error (`ErrorCanBePassedOver` is such a run). Exactly: from a reachable state
  the error of a listener can be passed over if and only if main has not yet
  taken an error, and the listener has seen one or, with the context live, can
  still see one (`PassedOverExactly`, `QueuedErrorPassedOverExactly`). An error
  seen with a live context is returned or still in the channel
  (`EveryRunIsSafe`).
- After a hard accept error a listener does not wait for its connections
  (`HardErrorLeavesConnections` is such a run). Exactly: `Run` can return with
  connections of a listener still being served if and only if the listener has
  already returned with connections, or the context is live and it can still
  fail in its accept loop (`LeftServingExactly`). This can go unreported: when
  the caller cancels between the accept error and the test of the context, `Run`
  returns nil, no error is sent, and connections are still being served
  (`LeftSilentlyExactly`). A listener that leaves on a cancelled context does
  wait (`EveryRunIsSafe`).

## Model

| member | source | states |
|---|---|---|
| Utf8.ValidExactlyEncodings | internal/server/server.go:501 | The byte strings `utf8.Valid` accepts are exactly the encodings of sequences of Unicode scalar values. |
| Utf8.EncodeDecoded | internal/server/server.go:505-512 | Decoding rune by rune and re-encoding gives the string back on valid strings and on no others. |
| Utf8.FrontExactly | internal/server/server.go:505-507 | The number each sequence of one to four bytes stands for, and its width; anything else is one malformed byte (sections 3 and 4 of RFC 3629). |
| Utf8.EncodedBytes | internal/server/server.go:512 | The bytes a scalar value is written in, digit by digit in base 64. |
| Spaces.TrimExactly | internal/config/config.go:125 | Trimming drops white space from both ends, all of it and nothing else; the 25 code points are listed. |
| Sanitize.TwoPassesNormalise | internal/server/server.go:497-498 | The two whole-buffer replacements are one pass that maps CR LF, lone CR and lone LF to a single LF. |
| Sanitize.NormaliseDecoded | internal/server/server.go:497-503 | The replacements neither create nor destroy validity, and commute with decoding, on valid and on malformed input. |
| Sanitize.SanitizeBody | internal/server/server.go:493-532 | Passes, validity test and loops compute the code-point specification: NUL is refused, then invalid UTF-8 of the original bytes in UTF-8 mode, otherwise the canonical form is returned (in numbers: `SanitizeIsOnePass`, `BodyLaws`). |
| Sanitize.SanitizedMeaning | internal/server/server.go:493-532 | The output is readable in the listener's mode, fit for the wire, and decodes to the rewritten normal form of the input's code points; which code points change, and to what, is `BodyLaws.LineShown`. |
| Sanitize.FixedExactlyText | internal/server/server.go:493-532 | A body is left unchanged if and only if it is valid in its mode, has only CRLF line ends and only code points that `BodyLaws.LineShown` leaves alone. |
| Sanitize.SanitizeIdempotent | internal/server/server.go:493-532 | Sanitising twice is sanitising once, in both modes. |
| Sanitize.SanitizeDistributes | internal/server/server.go:493-532 | Sanitising two pieces separately gives the sanitised whole if and only if the cut does not split a CR LF pair. |
| Sanitize.SanitizeIsOnePass | internal/server/server.go:497-531 | The passes and loop refine a one-pass machine that remembers only whether the previous code point was CR, and that lets 9, 0x20 to 0x7E and 0xA0 up through and writes 63 for the rest. |
| Sanitize.SanitizedLength | internal/server/server.go:520-531 | In byte mode the output is the normalised input's length plus its number of line ends. |
| Sanitize.ModesAgreeOnAscii | internal/server/server.go:493-532 | On ASCII bodies the two modes give the same result. |
| Sanitize.TextLines | internal/server/server.go:493-532 | As bytes, a sanitised body has no NUL, and every CR and LF stands in a CR LF pair (section 2.2 of RFC 1288). |
| Sanitize.TextHasNoControls | internal/server/server.go:534-558 | A sanitised body has no control byte but tab, CR and LF, no DEL, and no C1 control in its mode. |
| BodyLaws.LineShown | internal/server/server.go:493-558 | A body without line ends, in both modes: code points 9, 0x20 to 0x7E and 0xA0 up stay, every other one becomes 63. |
| BodyLaws.OrdinaryUnchanged | internal/server/server.go:534-558 | A body of such code points is returned as it is, byte for byte. |
| BodyLaws.ControlReplaced | internal/server/server.go:534-558 | A control code point between two such pieces comes out as exactly 63. |
| BodyLaws.LineEndsWritten | internal/server/server.go:497-531 | CR LF, lone CR and lone LF between two bodies come out as CR LF, with the two bodies sanitised on either side. |
| BodyLaws.RefusedExactly | internal/server/server.go:493-503 | A body is refused exactly for a NUL byte or, in UTF-8 mode, for not being an encoding of scalar values. |
| Segments.JoinSegments | internal/server/server.go:560-575 | Closing a segment lazily, when the next one arrives, yields the non-empty segments each closed with CRLF. |
| Segments.JoinFlattens | internal/server/server.go:560-575 | Joining the join of a list with more segments is joining everything at once, for any bytes. |
| Segments.JoinLength | internal/server/server.go:560-575 | The result has the total length plus two for each non-empty segment that does not end in CRLF. |
| Segments.JoinCrlfOnly | internal/server/server.go:560-575 | Joining segments with only CRLF line ends gives only CRLF line ends. |
| Segments.JoinText | internal/server/server.go:560-575 | Joining segments that sanitising leaves alone gives a body that sanitising leaves alone. |
| Response.LoadedExactly | internal/server/server.go:409-432 | Reading at most one byte past the limit accepts exactly the files of at most `MaxResponseBytes` that sanitise. |
| Response.ResponseIsJoin | internal/server/server.go:326-337 | The reply is the segments of header, content, footer and credits joined at once, unless that exceeds the limit, which gives the fixed notice and a miss (what the segments are: `ResponseLaws.ReplyExactly`). |
| Response.ResponseWellFormed | internal/server/server.go:326-400 | Whatever files and programs deliver, the body is empty or ends in CRLF, has only CRLF line ends, is a fixed point of sanitising, and is within the limit or is the fixed notice. |
| Response.ReplyDependsOnly | internal/server/server.go:339-400 | The reply depends on three files at most, and on a program only where its file is absent and programs are enabled; a program sees only the canonical request line. |
| ResponseLaws.ReplyExactly | internal/server/server.go:326-407 | The whole reply from what the document root holds, with names, texts and cases written out: which page, template and outcome for a file that is good, bad or absent and a program that is good, failing or absent; each segment as lines; the notice when over the limit. |
| ResponseLaws.PageServedWhole | internal/server/server.go:339-348 | A page whose file is good stands whole in the reply, between header and footer. |
| ResponseLaws.OrdinaryPageServed | internal/server/server.go:326-348 | Without wrappers and credits, a one-line page of ordinary characters is the reply, with CRLF after it. |
| ContentNames.NamesUnambiguous | internal/server/server.go:402-407 | Over accepted requests of all modes: same file (or program) name exactly for the same page; file and program names never collide with each other or with the wrappers, never start with a dot and contain no slash. |
| RequestLaws.RequestRunesAreBytes | internal/server/request.go:204-214 | The rune check accepts exactly the lines of bytes 0x20 to 0x7E; malformed UTF-8 never passes. |
| Requests.FieldsOfJoin | internal/server/request.go:158 | Splitting the words of a joined line gives the words back. |
| RequestLaws.FieldsKeepText | internal/server/request.go:158 | Splitting into words loses nothing but blanks and keeps the order. |
| RequestLaws.FlagTokensExactly | internal/server/request.go:216-264 | The accepted flag tokens are exactly the printed well-formed flags (in characters: `LineLaws.FlagLiteral`). |
| RequestLaws.ParsePrintedFlag | internal/server/request.go:216-236 | Reading a printed flag gives the flag. |
| RequestLaws.PrintParsedFlag | internal/server/request.go:216-236 | Printing a flag that was read gives its token. |
| Requests.CollectTokens | internal/server/request.go:163-190 | The token loop, with its seen-set, cap and early exits, computes the declarative reading: flags, then at most one target. |
| Requests.ParseStructuredRequest | internal/server/request.go:153-202 | The structured parser computes the specification of the grammar (in characters: `LineLaws.StructuredLiterally`). |
| Requests.BuildCanonicalRequest | internal/server/request.go:315-328 | The printing loop yields the flags and then the target, separated by single spaces. |
| RequestLaws.AcceptedExactlyGrammatical | internal/server/request.go:153-202 | A line is accepted if and only if it is printable and its words parse as flags followed by at most one target, with a bounded number of distinct flag names (in characters: `LineLaws.StructuredLiterally`). |
| RequestLaws.GrammaticalAccepted | internal/server/request.go:163-202 | The result of a grammatical line: its flags of first occurrence by name, in order, and its target. |
| RequestLaws.FirstByNameMeaning | internal/server/request.go:176-183 | A flag is kept if and only if it stands before every other flag of its name, bare or valued. |
| RequestLaws.FirstByNameKeeps | internal/server/request.go:176-183 | Kept flags have distinct names, as many as the line has names. |
| RequestLaws.DuplicateIgnored | internal/server/request.go:176-181 | A well-formed repetition of a flag name, anywhere after its first occurrence, changes nothing but the raw line, even at the cap. |
| RequestLaws.ParsePrinted | internal/server/request.go:153-202 | Parsing undoes printing, for distinct well-formed flags (at most 16) and a valid or empty target, not both absent. |
| RequestLaws.CanonicalInjective | internal/server/request.go:315-328 | Distinct well-formed requests print differently. |
| RequestLaws.StructuredWellFormed | internal/server/request.go:153-202 | What the structured parser returns is well formed, and its canonical form is its printed form, in printable ASCII. |
| RequestLaws.CanonicalReparses | internal/server/request.go:91-202 | In every mode, reading the canonical form of an accepted request gives the same flags, target and canonical form. |
| RequestLaws.CanonicalPrintable | internal/server/request.go:91-202 | In every mode the canonical form is printable ASCII, so a program reads it as one line. |
| RequestLaws.PlainAcceptedExactly | internal/server/request.go:102-137 | Plain finger accepts exactly the empty line, `/W`, a target the target test accepts, and `/W` with one space and such a target (section 2.3 of RFC 1288; in characters: `LineLaws.PlainLiterally`). |
| RequestLaws.PlainAccepted | internal/server/request.go:102-137 | What plain finger returns: the line itself as canonical form, no flags, and the target the line names. |
| RequestLaws.ExtensionIsConservative | internal/server/request.go:102-137 | Every line plain finger accepts is accepted with extensions on, with the same target and canonical form; only `/W` becomes a flag. |
| RequestLaws.ExtendedIsFingers | internal/server/request.go:102-214 | For lines that end in CRLF, the extended finger parser and the fingers parser give identical results. |
| RequestLaws.StructuredCanonicalShort | internal/server/request.go:315-328 | The canonical form of a structured line is no longer than the line and at most 1648 bytes. |
| RequestLaws.CanonicalShort | internal/server/request.go:91-202 | Canonicalisation never lengthens a request, in any mode. |
| LineLaws.TargetLiteral | internal/server/request.go:288-313 | A target is 1 to 64 letters, digits and `-_.~`, with no dot first, last or next to a dot, and not ending in `.txt` or `.cgi` in any mix of cases. |
| LineLaws.FlagLiteral | internal/server/request.go:216-264 | A token is the flag `/name` or `/name=value` if and only if it is spelled so, with a name of 1 to 32 and a value of 1 to 64 letters, digits, hyphens and underscores. |
| LineLaws.FieldsSpaced | internal/server/request.go:158 | The words of a printable line are exactly its longest stretches without a space, in order. |
| LineLaws.CanonicalLiteral | internal/server/request.go:315-328 | The canonical form is the flags as `/name` or `/name=value` and then the target, with one space between them. |
| LineLaws.PlainLiterally | internal/server/request.go:85-137 | The result of plain finger for every line with CRLF, as one equation. |
| LineLaws.PlainTarget | internal/server/request.go:85-137 | A line that does not start with a slash is accepted with itself as target, or refused, by the rule for targets. |
| LineLaws.StructuredLiterally | internal/server/request.go:153-202 | A line is accepted if and only if its bytes are 0x20 to 0x7E and its words are flags and then at most one target, with at most 16 different flag names; the result is given. |
| LineLaws.ExtendedLiterally | internal/server/request.go:102-151 | The same for a line with CRLF on a fingers listener and on a finger listener with extensions. |
| LineLaws.LineEndsAccepted | internal/server/request.go:85-151 | A finger line may end in CRLF, LF, CR or nothing with the same result; fingers refuses all but CRLF; the empty line is accepted. |
| Reader.ByteReader.ReadLine | internal/server/request.go:47-68 | The outcome and the number of bytes taken are decided by the position of the first newline, the limit, and how the bytes end. |
| Reader.ByteReader.DiscardLine | internal/server/request.go:70-83 | Discarding stops just after the next newline, or at the end of the bytes with its report. |
| Reader.ReadThenDiscard | internal/server/request.go:47-83 | Reading and then discarding, exactly: newline within `max + 1`, at `max + 2` (lost, a second line is swallowed), beyond, or absent; bytes taken never exceed the input. |
| Reader.CanonicalIsReadable | internal/server/request.go:47-68 | If a CRLF line was read within a limit and accepted, its canonical form with CRLF is read within the same limit. |
| Proxy.PrintedHeaderAccepted | internal/server/server.go:598-637 | Six acceptable fields joined by single spaces, with CRLF, are an accepted header with that source address. |
| Proxy.AcceptedHeaderPrinted | internal/server/server.go:598-637 | Every accepted header has that shape, so header and fields determine each other (section 2.1 of the HAProxy PROXY protocol specification). |
| Proxy.HeaderExactly | internal/server/server.go:598-725 | A line is an accepted header with a source address if and only if it is `PROXY`, `TCP4` or `TCP6`, two addresses of that family without a zone (the source public), and two ports from 1 to 65535, with single spaces and CRLF. |
| Proxy.HeaderIsNoRequest | internal/server/server.go:598-637 | No accepted PROXY header is an accepted request, in any mode. |
| Connection.PrepareConn | internal/server/server.go:275-299 | On a plain listener: the client address and the bytes of the header taken, or the end of the connection. |
| Connection.ServeConn | internal/server/server.go:175-230 | A run writes nothing, or exactly one body with one access record, as specified; the connection is closed. |
| Connection.ReadRequestLine | internal/server/server.go:205-220 | Reading a request line ends in silence, a refusal or a complete line. |
| Connection.ServedExactly | internal/server/server.go:175-230 | By the first newline and how the bytes end: the answer to the line, silence, or the refusal. |
| Connection.DirectLiterally | internal/server/server.go:192-229 | The same with the answers written out: an accepted line gets the response and is logged in canonical form with its outcome; a refused one gets the notice and is logged without its line end. |
| Connection.NoDeadlineNoReply | internal/server/server.go:201-278 | Where a read deadline cannot be set, nothing is sent. |
| Connection.ReplyWellFormed | internal/server/server.go:192-229 | Every body written is clean CRLF text, within the limit or one of the two fixed notices. |
| Connection.HeaderTransparent | internal/server/server.go:275-299 | After an accepted header of at most 110 bytes from a trusted peer, the connection is served as if it began after the header; only the logged client differs. |
| Connection.NoHeaderNoReply | internal/server/server.go:275-299 | A trusted peer gets no reply unless its first line is an accepted header of at most 110 bytes. |
| Connection.TrustedExactly | internal/server/server.go:175-299 | A connection from a trusted peer, as one equation: an accepted header as first line, then the direct service of the bytes after it on behalf of its address; otherwise nothing is sent. |
| RunProtocol.EveryRunIsSafe | internal/server/server.go:74-173 | In every interleaving: no send takes its default branch; `Run` returns only after all listeners have finished; a returned error was found with a live context; such an error is returned or still in the channel (which one: `RunHistory.FirstErrorReturned`); a listener that left on a cancelled context waited for its connections. |
| RunProtocol.RunKeepsInv | internal/server/server.go:74-173 | The invariant of the protocol holds after every run, with any number of listeners and connections. |
| RunProtocol.RoomToSend | internal/server/server.go:79-92 | A listener about to send always finds room in the error channel. |
| RunHistory.SentIsHeld | internal/server/server.go:86-105 | In every reachable state the error taken, if any, followed by the channel is the list of sends of the run, in order: nothing is lost or overtaken. |
| RunHistory.FirstErrorReturned | internal/server/server.go:102-105 | If `Run` returns an error, it is that of the first send of the run. |
| RunHistory.ReturnedRun | internal/server/server.go:74-173 | After a run that has returned, by its events alone: every listener has announced its end; the senders are exactly the listeners that failed and then found the context live; one that left on a cancelled context has had all the work it accepted done. |
| RunHistory.ResultByEvents | internal/server/server.go:76-108 | The result is nil exactly when main took `done`, an error exactly when it waited for one; the context is cancelled exactly when the caller, a listener or the return cancelled it. |
| RunOutcomes.NilExactly | internal/server/server.go:102-108 | From a reachable state, for any number of listeners, some continuation returns nil if and only if main has not taken an error. |
| RunOutcomes.PassedOverExactly | internal/server/server.go:86-108 | Some continuation returns nil with the error of listener `i` left in the channel if and only if main has not taken an error and the listener has seen one, or the context is live and it can still see one. |
| RunOutcomes.QueuedErrorPassedOverExactly | internal/server/server.go:86-108 | An error that is in the channel can be passed over if and only if main has not taken another. |
| RunOutcomes.LeftServingExactly | internal/server/server.go:133-173 | Some continuation returns from `Run` with connections of listener `i` still being served if and only if the listener has returned with connections, or the context is live and it can still fail in its accept loop. |
| RunOutcomes.LeftSilentlyExactly | internal/server/server.go:86-173 | The same with a nil result and no error sent: if and only if, besides, no listener has seen an error on a live context. |
| RunOutcomes.ServersCanStopSilently | internal/server/server.go:86-173 | For any number of listeners and any one of them, some run ends so. |
| RunOutcomes.TakenStays | internal/server/server.go:102-108 | An error main has taken is the one `Run` returns, in every continuation. |
| RunProtocol.ErrorCanBePassedOver | internal/server/server.go:102-108 | A run in which a listener sent an error and `Run` returns nil; a witness for `PassedOverExactly`. |
| RunProtocol.HardErrorLeavesConnections | internal/server/server.go:163 | A run in which `Run` returns while a connection is still being served; a witness for `LeftServingExactly`. |
| RunProtocol.StepsCountDown | internal/server/server.go:133-173 | Once the context is cancelled, every step except accepting another connection lowers a measure. |
| RunProtocol.AlwaysAStep | internal/server/server.go:74-173 | With the context cancelled there is no deadlock: until `Run` returns, the program itself has a step to take; it closes an open socket rather than wait for `Accept` to fail. |
| RunProtocol.ShutdownBound | internal/server/server.go:133-173 | After cancellation, the steps of any run other than accepting number at most what was left to do plus the work of the connections accepted since. |
| RunProtocol.ShutdownTerminates | internal/server/server.go:74-173 | With the context cancelled and the sockets closed, runs are bounded by the measure, and a run that cannot go on has returned from `Run` with every listener finished. |
| CappedBuffer.Buffer.Write | internal/server/server.go:748-761 | After every write the buffer holds the first `max` bytes ever written and knows whether there were more; the full length is reported. |
| CappedBuffer.SameOutput | internal/server/server.go:742-761 | Two ways of cutting the same output into writes leave the same contents and the same flag. |
| LogField.SanitizeLog | internal/server/logger.go:172-212 | The budgeted loop computes the specification: escape, keep what fits in 160 bytes, trim, mark. |
| LogField.TrimLogField | internal/server/logger.go:214-226 | Dropping last runes one by one keeps as many leading runes as fit, of any string; malformed bytes count as runes of one byte. |
| LogField.LastSlice | internal/server/logger.go:218-224 | Reading runes backwards cuts any string, malformed or not, where reading forwards does. |
| LogField.FitGreatest | internal/server/logger.go:179-203 | What is kept is the greatest number of leading chunks within the budget. |
| LogField.CutLongest | internal/server/logger.go:214-226 | The cut is the longest prefix that ends at a rune boundary and fits. |
| LogField.MarkedExactly | internal/server/logger.go:204-212 | The mark is added exactly when the escaped field exceeds 160 bytes and something remains; an empty remainder is a dash. |
| LogField.ShortFieldWritten | internal/server/logger.go:172-212 | A field of at most 160 bytes is written rune by rune, CR, LF and TAB as a space and other controls as `\x` and hexadecimal digits, and trimmed; a dash if nothing is left. |
| LogField.LongFieldWritten | internal/server/logger.go:172-212 | A longer one keeps the runes before the first that does not fit, is trimmed, cut to 157 bytes, trimmed, and gets three dots. |
| LogField.HexSpells | internal/server/logger.go:188-193 | The escape of a control character spells its number in hexadecimal. |
| LogField.FieldFit | internal/server/logger.go:172-212 | A field is never empty, at most 160 bytes, valid UTF-8 and free of bytes below 0x20 and of 0x7F. |
| LogField.FieldIdempotent | internal/server/logger.go:172-212 | Sanitising a field again changes nothing. |
| ConfigFile.UnknownExactly | internal/config/config.go:91-136 | A name is an unknown key if and only if it spells none of the 27 keys. |
| ConfigFile.LiveConfig.ApplyValue | internal/config/config.go:172-326 | A setting updates the fields of its key and no others; a bad value changes nothing and reports an error (what values mean: `ConfigMeaning.DescribesAssembled`). |
| ConfigFile.ApplyIsUpdate | internal/config/config.go:172-326 | Whether a value is acceptable depends on key and value alone, and applying it is recording it as that key's last value over the defaults (in words and numbers: `ConfigMeaning.LoadedExactly`). |
| ConfigFile.Load | internal/config/config.go:77-157 | The loop computes: the first bad line, a scanner error, a missing required key, a rejected configuration, or each key's last value over the defaults (in words and numbers: `ConfigMeaning.LoadedExactly`, `RefusedExactly`). |
| ConfigFile.OrderIndependent | internal/config/config.go:121-156 | Permuting lines without reordering values of the same key changes neither the verdict nor the configuration. |
| ConfigFile.ListenersSound | internal/server/server.go:111-131 | A configuration that loads (`Validate`, internal/config/config.go:328-383) starts one or two listeners, on distinct ports between 1 and 65535, over absolute document roots. |
| ConfigLaws.GivesExactly | internal/config/config.go:121-170 | A line sets a key to a value if and only if, trimmed, it is no comment, and the trimmed text before its first equals sign spells the key's name and the trimmed text after it is the value, not empty. |
| ConfigLaws.GivenValue | internal/config/config.go:121-146 | What counts for a key is the value in the last line that gives it one. |
| ConfigLaws.AddrsParsed | internal/config/config.go:307-322 | The value of `trusted_proxy_ips` means the addresses between its commas, all of them, in order. |
| ConfigLaws.NanosecondsExact | internal/config/config.go:396-402 | A number of milliseconds of up to 292 years means exactly a million times as many nanoseconds. |
| ConfigMeaning.DescribesAssembled | internal/config/config.go:53-76 | Exactly one configuration has, in each of its 27 fields, the meaning of the last value given to the literal name of that field, or its literal default if none is given; it is the one `Load` puts together. |
| ConfigMeaning.LoadedExactly | internal/config/config.go:77-157 | `Load` returns `c` if and only if no scanner error is reported, every line is a comment or gives a known name a value it accepts, the three required names are given, and `c` is what the lines describe and meets the written-out conditions of `Validate`. |
| ConfigMeaning.RefusedExactly | internal/config/config.go:120-156 | Which error otherwise: the first bad line, the scanner's, a missing name, or a described configuration that does not meet the conditions. |
| ConfigMeaning.OnlyRequired | internal/config/config.go:53-76 | A file that gives only the three required names has these literal defaults. |
| ConfigMeaning.ListenersExactly | internal/server/server.go:111-131 | The listeners of the three modes: which ports, roots and program settings, in which order. |

## Left out

- TLS: the handshake, certificates and the TLS branch of `prepareConn`; the fingers parser and the UTF-8 mode are modelled, the encrypted transport is not.
- Sockets, deadlines and time: a connection is some bytes and then end of file, a timeout or another error; whether a read deadline could be set is a parameter; a write is recorded when it is attempted, whether or not it succeeds.
- Opening files and running programs: what they deliver is arbitrary (absent, unusable, or any bytes), fixed per name and standard input for the duration of one reply; no limit on program output is derived from running it.
- The promoted `ReadFrom` of `cappedBuffer`: the cap is proved for sequences of `Write` calls with a limit of at least zero.
- `net/netip`, `strconv`, `path/filepath` and non-ASCII case folding: parameters of the model; `validTargetComponent` folds ASCII letters only, because any other byte is refused by its final loop.
- `strings.Fields` beyond ASCII white space: it is called only on lines of printable ASCII.
- `isPublicUnicastIP`, log line formatting and the error log: branch lists and formatting; access records are modelled.
- Which of several missing keys, and which check of `Validate`, an error message names: one error each; the number of a bad line is modelled.
- The `tls_enable` check in `Validate`: the model's mode has only the three values the parser can produce.
- Integer overflow of `max + 2` in `readLine` and of `MaxResponseBytes + 1`: the limits are far below the width of the integers; the wrap-around of millisecond durations is modelled.
- Signals, process start-up, the CGI helper, scripts and the client: straight-line sequencing and system calls.
