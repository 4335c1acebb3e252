# A verified model of the WiFi lock

An ESP32 lock is operated over the internet through a mailbox: guests post requests to a PHP
"transponder", the lock polls it for the oldest unanswered request, executes it, and posts a response
that the guest polls for. On the device itself patched Arduino libraries parse uploads, forms and paths,
buffer sockets, answer DNS questions and look up certificates, and a few globals keep the relay, the
clock and the stations of the access point.

This project models those parts in Dafny and proves what they keep, undo and mean. Code that changes a
file, an array or globals is a class whose methods carry the loops of the original; each method is proved
against a function of the old contents, and the results are lemmas about those functions. `dafny verify
dfyconfig.toml` checks everything.

| file | what it models |
|---|---|
| `Text.dfy`, `Words.dfy` | searching, case folding, trimming and numbers, as PHP and Arduino strings do them; bytes and 32-bit words |
| `Record.dfy`, `LogLine.dfy` | the lines of the log, and how both sides read fields out of them |
| `RequestLog.dfy`, `LogContents.dfy`, `Storage.dfy` | the log file, the loops over it, and what they compute on a log of stored requests |
| `Mailbox.dfy`, `RepeatGuard.dfy`, `Delivery.dfy` | the protocol as a step system and its results over all runs |
| `Eviction.dfy` | the protocol when the request the lock is working on may leave the log |
| `Upload.dfy`, `UploadBuffer.dfy` | the multipart file scanner and its flush buffer |
| `UriTemplate.dfy`, `FormArgs.dfy`, `Chunked.dfy` | path templates, form arguments, chunked responses |
| `KeyTable.dfy`, `KeyStore.dfy` | the key array as a finite map, and loading keys from a text |
| `RxBuffer.dfy` | the socket's receive buffer and the writing loop |
| `CertBundle.dfy`, `Dns.dfy` | the certificate index and search, DNS names and replies |
| `Relay.dfy`, `Clock.dfy`, `Stations.dfy` | relay hold time, local time, station table |

## What the results say

**Mailbox.** Each HTTP call is one step; any number of guests post and poll while one lock receives and
responds. In every reachable state the file is the header followed by a contiguous suffix of the accepted
requests, at most `maxlogs` lines, all answered ones first (`RunKeepsInv`), and answers never change
(`RunGrows`). Receives and responses with a key other than that of the device they name are answered "access
denied" and change nothing (`OtherChangesNothing`); they may come between any two steps. A poll returns exactly the response the lock computed for that guest's own request
(`Delivered`, `OwnResponse`), unless an older line is taken for the guest's own; `SeesOwnLineIff` is the exact
condition. The poll looks for `key=` and `unixtime=` anywhere in a line and compares only the start of what
follows, so a guest reads an older guest's response when its key begins that guest's key (`PrefixLeak`), and
also when the response itself says its key (`ResponseLeak`), as the lock's error message for a master's
unknown command does (`UnknownCommandLeak`).

An idle lock takes the oldest unanswered request if and only if none of its fields contains "404 not
found", "Parse error" or "syntax error" (`TakesOldestIff`): such a text is held to be the error page of a web
server. Requests without these words are answered oldest first (`RoundsServe`, `ServedGuest`). A request
with one of them is never answered, and no younger one is either until it has been evicted (`Blocked`,
`Starved`, and the run of `StuckRun`).

The second key test of `set_response_in_file` uses an undefined variable and
therefore never excludes a line: routing rests on order alone (`TakesIff`, `FirstTakingExact`). When posts
may evict the request the lock is working on, its response reaches its own line exactly if that line is
still in the file (`OwnLineIff`); otherwise the oldest unanswered guest of the same second is given it, or it
is lost (`EvictedGoesTo`, `AnyKeyTakes`), as in the run of `MisroutedAfterEviction`. The guard against repeats
compares everything up to the unixtime and so refuses only the very same request in the same second, or one
that the last response ends with (`GuardExact`).

**Multipart upload.** Section 5.1.1 of RFC 2046 only promises that a part does not contain the delimiter with
its boundary. The scanner looks past a `CRLF--` blindly, so that is not enough (`LawfulFileLost`). `RoundTripIff` gives the
exact condition on a file for being delivered unchanged, and `SafeIsClean` a simple sufficient one. An upload that
breaks off has written everything but the beginning of a delimiter, or everything and some bytes that were never
sent (`Interrupted`).

**Clock.** Updates less than 2^32 ms apart are not always exact: the held-back milliseconds are added in
32 bits. `ExactIff` says that the clock is exact if and only if at each update the time passed since the last
update and the part of a second before it stay below 2^32 ms together, and no time passes between the two
readings of the counter; `ExactAtIff` says the same of a refresh and updates at given readings of the counter.
`LongGap` shows an overflow.

**Relay.** `open` and a press of the button hold the relay for its interval (`PressHolds`, `HeldLongEnough`,
`DroppedInTime`). `on` starts no interval of its own: it holds the relay exactly until the old one is over (`OnHolds`), and so for a whole interval
exactly when the old one begins at that moment (`OnFullyAfter`); after `close` and `on` the relay can drop at
the next tick (`OnAfterClose`).

**Keys.** Every run of commands makes the 800-byte array stand for the finite map that the same commands
make (`RunRefines`), whatever bytes are left behind. A key that contains the word "error" is stored by a
load that reports an error (`ErrorWordStored`), because the answer is searched for that word.

**Forms.** Each piece between ampersands is parsed on its own if and only if every piece but the last has an
equals sign, and the last has one or has nothing to decode: no `+` and no `%` with two characters after it
(`PiecewiseIff`).

**Paths.** A brace in the request is taken for the template's own. The path test accepts exactly the instances
of a template each of whose arguments does not start with a brace or is `{}` itself (`PathTestExact`;
`PathTestIff` for parameters that end at slashes, where arguments are the slash-free texts). The stored
arguments are the instance's own exactly when none starts with a brace; an argument `{}` is skipped and the
later ones move up (`InstanceIff`), so `/{}/{}` stores `x` as the first argument of `/{}/x` (`WrongArgument`).

**Chunked responses.** A decoder gets back all contents and ends at the last byte if and only if nothing
follows an empty content (`ChunkedIff`).

## Model

| member | source | states |
|---|---|---|
| Record.RecordRoundTrip | lock.php:272-281 | a request of plain fields, written as a line, is read on the lock as exactly its command, key, argument and extension |
| Record.ArgvalOfRequest | SWparser.cpp:90-115 | on such a line `get_argval` gives the value written under each name, including the fallback names for the argument, and nothing for absent ones |
| Record.JoinReads | SWparser.cpp:90-115 | on any `name=value;…` line a name reads as the value of the field that alone ends in it; the last field of the line ends at an ampersand, if it has one |
| Record.CmdAfterAmp | SWparser.cpp:94-107 | without any `cmd=` the command is what follows the first ampersand |
| Record.ArgumentFallback | SWparser.cpp:234-237 | the argument is read from `arg`, and when that is empty or missing from `v`, `val` and `value` in turn, wherever they stand in the line |
| Record.EscapesUndone | SWparser.cpp:233 | the escapes of `&` and `=` in any text without a percent sign are undone before it is read |
| Text.TrimIs | lock.php:290-291 | `trim` removes just the blanks around a text, whichever of PHP's six they are |
| Text.TrimSpaceIs | SWparser.cpp:107 | `String::trim` removes just the white space around a text |
| Record.JoinInjective | lock.php:276-279 | two lists of plain fields that are written alike are alike |
| Record.HeadInjective | lock.php:276-279 | two requests read alike up to the unixtime exactly when all their fields and their second agree |
| LogLine.RequestHas | lock.php:327-328 | the text `name=w` is found in a request, in any case, exactly when w starts that field's value |
| LogLine.LineHas | lock.php:342 | the same for key and unixtime of a whole line, answered or not: w starts the request's value, or the response itself contains the text |
| LogLine.LineAnswered | lock.php:290-291 | a line mentions `response=` exactly when it is answered |
| LogLine.GetVarAt | lock.php:221-231 | `get_var` returns what stands between the last `name=` and the last semicolon of the line |
| LogLine.ResponseRoundTrip | lock.php:330 | a response that does not contain `response=` is read back by `get_var` unchanged, semicolons and other names included |
| RequestLog.LogFile.Create | lock.php:259-271 | creating leaves an existing file alone and otherwise writes the header line |
| RequestLog.LogFile.Rewrite | lock.php:169-173 | rewriting stores every line trimmed and ended by a newline |
| RequestLog.LogFile.Replace | lock.php:161-175 | replaces one line and keeps all others, or fails past the end |
| RequestLog.LogFile.Check | lock.php:197-220 | the removal loop leaves what `KeepRecords` keeps and rewrites the file only if a line is dropped |
| RequestLog.LogFile.Put | lock.php:232-258 | refuses a repeat, otherwise appends and runs the eviction loop |
| RequestLog.LogFile.Receive | lock.php:282-300 | answers with the first line without a response, and "access denied" to a foreign key |
| RequestLog.LogFile.Respond | lock.php:318-334 | puts the response into the first line its test takes, and into no other; a foreign key changes nothing |
| RequestLog.LogFile.Poll | lock.php:335-350 | answers from the first line that mentions the key and the unixtime |
| RequestLog.AccessDenied | lock.php:285 | a receive or a response whose key is not that of the device it names is answered "access denied", and the file stays as it is |
| RequestLog.NoFile | lock.php:286 | without a file there is nothing to receive, to answer or to read |
| LogContents.ReadWrite | lock.php:252-256 | lines written to the file are read back, trimmed and ended by a newline |
| LogContents.EvictIs | lock.php:247-251 | the eviction loop removes every other line from its first index on, since that moves on while the lines move up; how many, and which stay |
| LogContents.RecordsHave | lock.php:205 | a line is kept exactly when it contains `key=` and `unixtime=`, in any case |
| LogContents.KeepIsFilter | lock.php:203-210 | removing lines while the index moves on keeps, in order, exactly the lines with a key and a unixtime |
| LogContents.CheckExact | lock.php:197-220 | on any file the check keeps exactly the header lines and those lines |
| LogContents.CheckIsNoOp | lock.php:197-220 | a correct log passes the check unchanged |
| LogContents.FirstUnansweredExact | lock.php:288-297 | the line received is that of the first stored request without an answer |
| LogContents.TakesIff | lock.php:324-328 | the test of `set_response_in_file` takes an entry exactly when it is unanswered and its unixtime starts with the given one: the key test never excludes |
| LogContents.FirstTakingExact | lock.php:318-334 | whatever the key, the response goes to the oldest unanswered entry of that second, or to none |
| LogContents.FirstConcerningExact | lock.php:340-342 | the line a poll stops at is the first live entry whose key and unixtime the given ones start, or whose response says them |
| LogContents.GetResponseExact | lock.php:335-350 | a poll shows that entry's response, "processed" without one, "not found" without a line |
| Storage.PostKeepsFile | lock.php:232-258 | every post and the check after it keep the file a header with a suffix of the history, whatever the answers in it |
| Mailbox.PostKeepsLog | lock.php:232-258 | every post keeps the shape and bound of the log, answered lines first, also when it evicts |
| Storage.AppendStored | lock.php:247-256 | an accepted post appends the request and evicts exactly the oldest line when the log is full |
| Storage.ReceiveExact | lock.php:282-300 | the lock is sent the oldest unanswered request in the file, or "empty" |
| Mailbox.AlarmingIff | WSKey32.ino:771 | a request's text has one of the three phrases exactly when its key, command, argument, extension or time of request has |
| Mailbox.TimelessDropped | WSKey32.ino:821 | a text without a unixtime is not taken either |
| Mailbox.ReceiveOutcome | WSKey32.ino:771-853 | after receiving, the lock holds that request exactly if there is one and its text has none of the three phrases; the log is unchanged |
| Storage.ResponseStored | lock.php:318-334 | a response is stored in the first line that takes it, and in no other |
| Storage.AnswerKeepsFile | lock.php:330 | after that the file stores the same requests, with that one answered |
| Mailbox.ResponseLands | lock.php:318-334 | a response for the second of a request lands in that request's line when all older ones in the file are answered or of another second |
| Mailbox.RespondExact | WSKey32.ino:864-878 | the response of the held request is stored in the held request's line, and nothing else changes |
| Storage.CheckKeepsLog | lock.php:45-46 | the check made after every post and every receive changes nothing in a reachable state |
| Mailbox.StepKeepsInv | lock.php:232-334 | every step keeps the invariant of the log and of what the lock holds |
| Mailbox.OtherChangesNothing | lock.php:321 | in every valid state a call with a foreign key is answered "access denied" and changes neither file nor log |
| Mailbox.RunKeepsInv | lock.php:161-350 | so does every run, of any length and any interleaving, calls with foreign keys among them |
| Storage.PollExact | lock.php:335-350 | in every such state a poll answers for the first request in the file whose key and unixtime the given ones start, or whose response says them |
| RepeatGuard.GuardExact | lock.php:238-244 | the guard refuses a post exactly when it repeats the newest stored request, in the same second and still unanswered, or when the response to that one ends with its text |
| RepeatGuard.PostAccepted | lock.php:272-281 | a post is accepted unless its key is empty or it is such a repeat |
| RepeatGuard.TimeFirstGuard | lock.php:238-244 | on lines that give the time before the key the guard refuses exactly the same key within three seconds |
| Delivery.StepGrows | lock.php:232-334 | no step changes an accepted request or an answer, or brings back an evicted line |
| Delivery.RunGrows | lock.php:232-334 | the same for every run |
| Delivery.AnswerOrigin | lock.php:318-334 | every answer in the log was computed by the lock while it held that very request |
| Delivery.Delivered | lock.php:282-350 | unless another line is taken for the guest's own, its poll says "not found" after eviction, "processed" until answered, and then the lock's response to that request |
| Delivery.OwnResponse | lock.php:282-350 | when no guest's line can be mistaken for another's, every other reply is the lock's response to the guest's own request |
| Delivery.MistakenIff | lock.php:342 | a line is mistaken for one's own exactly when its key continues one's own or its response says one's key, and it is of the same second or its response says that second |
| Delivery.SeesOwnLineIff | lock.php:340-347 | a guest reads its own line, or none after its eviction, exactly when no line before that is taken for it |
| Delivery.TakesOldestIff | WSKey32.ino:771-777 | in every reachable idle state the lock takes the oldest unanswered request exactly when none of its fields has one of the three phrases |
| Delivery.Progress | WSKey32.ino:771-853 | an idle lock that receives and responds answers exactly the oldest unanswered request, if its text has none of the phrases, and is idle again |
| Delivery.RoundsServe | WSKey32.ino:771-853 | from every reachable idle state n rounds are possible and give the n oldest unanswered requests, if their texts have none of the phrases, their responses in order, changing nothing else |
| Delivery.Blocked | WSKey32.ino:771-777 | while the oldest unanswered request has such a phrase, the lock never comes to respond and receiving changes nothing |
| Delivery.Starved | WSKey32.ino:771-777 | whatever is posted meanwhile, no younger request is answered as long as that one is in the file |
| Delivery.StuckRun | WSKey32.ino:771-777 | a run in which a second guest reads "processed" however often the lock receives |
| Delivery.ErrorPhrase | WSKey32.ino:771 | each of the three phrases, as the command or the argument, makes such a request of any well-formed one |
| Delivery.ServedGuest | lock.php:335-350 | after those rounds each of these guests reads the response to its own request, when no older line is taken for its own |
| Delivery.PrefixLeak | lock.php:342 | a run in which a guest is given another guest's response because its key starts the other's |
| Delivery.TwoGuests | lock.php:335-350 | when the lock has answered the first of two guests, the second reads that response exactly when his poll takes the first one's line for his own |
| Delivery.ResponseLeak | lock.php:342 | a run in which a guest is given another guest's response because it says the first guest's key |
| Record.EscapedCommand | SWparser.cpp:233-235 | a command `key%3Dw` is taken by the lock for `key=w` |
| Delivery.UnknownCommandLeak | SWparser.cpp:404-406 | the same with the lock's own error message for such a command |
| Eviction.ReceivedIs | WSKey32.ino:771-853 | without any promise about eviction the lock takes the oldest unanswered request in the file, exactly if its text has none of the phrases |
| Eviction.RespondedFile | lock.php:318-334 | a response changes exactly the line that takes it, and without one the answer is "not found" and nothing changes |
| Eviction.RunKeeps | lock.php:161-350 | the file stays a suffix of the history over every run, also when the held request is evicted |
| Eviction.OwnLineIff | lock.php:318-334 | in every reachable state the response of the held request is stored with that request exactly when it is still in the file |
| Eviction.EvictedGoesTo | lock.php:318-334 | otherwise it goes to the oldest unanswered request of that second in the file whose line goes on after `key=` with the evicted key or with the value of the variable it names, and is lost when there is none |
| Eviction.AnyKeyTakes | lock.php:324-328 | for a key that names no variable that is the oldest unanswered request of that second, whatever its key |
| Eviction.StrangerReads | lock.php:335-350 | the guest it is given to reads it as the response to his own request |
| Eviction.MisroutedAfterEviction | lock.php:318-334 | a run in which a second guest of the same second evicts the held request and reads the response to it |
| Upload.Conserved | replace_lib/WebServer/src/Parsing.cpp:439-503 | a completed scan has written exactly the bytes before some delimiter with its boundary and has consumed just those |
| Upload.Interrupted | replace_lib/WebServer/src/Parsing.cpp:439-503 | a scan that breaks off has written all of the stream but the beginning of a delimiter at its end, or all of it and the bytes left over in the boundary buffer |
| Upload.RoundTripIff | replace_lib/WebServer/src/Parsing.cpp:439-503 | a file followed by delimiter and boundary is delivered unchanged exactly when every delimiter start the scanner stops at leaves room for a boundary and is not followed by it |
| Upload.SafeIsClean | replace_lib/WebServer/src/Parsing.cpp:439-503 | files whose every `CRLF--` is neither near the end nor followed by the boundary satisfy that condition |
| Upload.RoundTrip | replace_lib/WebServer/src/Parsing.cpp:439-503 | such files are delivered unchanged, including those that end in part of a delimiter |
| Upload.LawfulFileLost | replace_lib/WebServer/src/Parsing.cpp:470-498 | a file that does not contain the delimiter with its boundary and is still not delivered |
| UploadBuffer.ChunksKeepAll | replace_lib/WebServer/src/Parsing.cpp:305-313 | the flushed buffers together are the file, and all but the last are full |
| UploadBuffer.ChunksAre | replace_lib/WebServer/src/Parsing.cpp:305-313 | full buffers and a last non-empty one are the only way to cut their contents |
| UploadBuffer.HTTPUpload.WriteByte | replace_lib/WebServer/src/Parsing.cpp:305-313 | one byte is added to what was written; a full buffer is handed on first |
| UploadBuffer.HTTPUpload.Finish | replace_lib/WebServer/src/Parsing.cpp:473-479 | the handler has been given the file cut into buffers, then an end with the total length |
| UploadBuffer.HTTPUpload.Fail | replace_lib/WebServer/src/Parsing.cpp:567-572 | an aborted upload ends with the abort and without the last buffer |
| UploadBuffer.ReceiveFile | replace_lib/WebServer/src/Parsing.cpp:428-503 | the goto automaton over the stream computes the scan: the handler's calls are those of the bytes it writes |
| UriTemplate.MatchSound | replace_lib/WebServer/src/detail/RequestHandlersImpl.h:36-66 | arguments found for all parameters fit and, put back into the template, give the request |
| UriTemplate.MatchComplete | replace_lib/WebServer/src/detail/RequestHandlersImpl.h:36-66 | every instance whose arguments fit and start with no brace is matched, with those arguments |
| UriTemplate.MatchIff | replace_lib/WebServer/src/detail/RequestHandlersImpl.h:29-67 | the match finds an argument for every parameter exactly on the instances none of whose arguments starts with a brace |
| UriTemplate.MatchInstance | replace_lib/WebServer/src/detail/RequestHandlersImpl.h:36-66 | on every instance: refused if an argument starts with a brace without being `{}`, otherwise matched with the arguments that are `{}` left out |
| UriTemplate.InstanceIff | replace_lib/WebServer/src/detail/RequestHandlersImpl.h:29-67 | the path test on every instance, what is stored, and that it is the instance's own arguments exactly when none starts with a brace |
| UriTemplate.MatchedInstance | replace_lib/WebServer/src/detail/RequestHandlersImpl.h:36-66 | only instances are matched |
| UriTemplate.PathTestExact | replace_lib/WebServer/src/detail/RequestHandlersImpl.h:29-67 | the path test holds exactly for the instances each of whose arguments does not start with a brace or is `{}` |
| UriTemplate.FitsIsSlashFree | replace_lib/WebServer/src/detail/RequestHandlersImpl.h:48-63 | where parameters end at slashes or at the end, fitting arguments are the slash-free ones |
| UriTemplate.PathTestIff | replace_lib/WebServer/src/detail/RequestHandlersImpl.h:29-67 | the same with slash-free arguments, where parameters end at slashes or at the end |
| UriTemplate.BracelessPathTest | replace_lib/WebServer/src/detail/RequestHandlersImpl.h:29-67 | for requests without a brace the path test holds exactly when slash-free arguments give the request |
| UriTemplate.BraceRefused | replace_lib/WebServer/src/detail/RequestHandlersImpl.h:43-44 | one instance that is refused: its argument starts with a brace and is not `{}` |
| UriTemplate.WrongArgument | replace_lib/WebServer/src/detail/RequestHandlersImpl.h:41-61 | one instance that is accepted with its second argument stored as the first |
| UriTemplate.CountedIff | replace_lib/WebServer/src/detail/RequestHandlersImpl.h:18-26 | the constructor counts the parameters exactly when the template does not start with one |
| UriTemplate.CapturedCount | replace_lib/WebServer/src/detail/RequestHandlersImpl.h:36-64 | no request makes the loop write past the counted arguments |
| UriTemplate.CapturedArgs | replace_lib/WebServer/src/detail/RequestHandlersImpl.h:36-64 | after a successful match what is stored is the arguments |
| UriTemplate.FunctionRequestHandler.constructor | replace_lib/WebServer/src/detail/RequestHandlersImpl.h:12-27 | makes room for the counted parameters |
| UriTemplate.FunctionRequestHandler.CanHandle | replace_lib/WebServer/src/detail/RequestHandlersImpl.h:29-67 | answers by method and path test, and writes what was captured over the start of the stored arguments |
| FormArgs.DecodeEncoded | replace_lib/WebServer/src/Parsing.cpp:536-565 | decoding undoes every percent-encoding |
| FormArgs.EscapeDecodes | replace_lib/WebServer/src/Parsing.cpp:545-551 | a percent sign and two hexadecimal digits of either case decode to their byte, one digit to itself, none to the null character |
| FormArgs.CountedIsFilled | replace_lib/WebServer/src/Parsing.cpp:257-298 | for any data the counting pass counts exactly the arguments the filling pass fills |
| FormArgs.FormRoundTrip | replace_lib/WebServer/src/Parsing.cpp:246-303 | arguments encoded by any encoder and joined are parsed back |
| FormArgs.PiecewiseIff | replace_lib/WebServer/src/Parsing.cpp:268-299 | the arguments are those of the pieces between ampersands parsed one by one exactly when every piece but the last has an equals sign and the last has one, or has no `+` and no `%` with two characters after it |
| FormArgs.LiteralIff | replace_lib/WebServer/src/Parsing.cpp:536-565 | just such texts decode to themselves |
| FormArgs.MissingEquals | replace_lib/WebServer/src/Parsing.cpp:281-286 | a first piece without an equals sign takes the whole data as its key, and the second piece is parsed again |
| FormArgs.WebServer.Decode | replace_lib/WebServer/src/Parsing.cpp:536-565 | the accumulator loop computes the decoding |
| FormArgs.WebServer.CountArguments | replace_lib/WebServer/src/Parsing.cpp:255-263 | the counting loop counts one more than the ampersands |
| FormArgs.WebServer.ParseArguments | replace_lib/WebServer/src/Parsing.cpp:246-303 | the filled slots hold exactly the arguments, with one slot to spare |
| Chunked.HexRoundTrip | replace_lib/WebServer/src/WebServer.cpp:460-464 | a size line is read back as the size |
| Chunked.EmittedDecodes | replace_lib/WebServer/src/WebServer.cpp:456-474 | decoding any sequence of contents gives those before the first empty one and ends where the later ones begin |
| Chunked.ChunkedIff | replace_lib/WebServer/src/WebServer.cpp:456-474 | the whole response decodes to all contents, up to its last byte, exactly when nothing follows an empty content |
| Chunked.ChunkedRoundTrip | replace_lib/WebServer/src/WebServer.cpp:456-474 | in particular when no content is empty |
| Chunked.WebServer.SendContent | replace_lib/WebServer/src/WebServer.cpp:456-474 | emits one chunk, or the bare content, or a chunk without its size line when memory fails; an empty content ends the chunks |
| Chunked.WebServer.FinalizeResponse | replace_lib/WebServer/src/WebServer.cpp:641-645 | emits the final chunk if one is due and leaves chunking off |
| KeyTable.FilledKey | SWparser.cpp:625 | a key copied into a slot is the slot's key, unmarked, whatever the slot held before |
| KeyTable.MarkBit | SWparser.cpp:565-576 | the mark is the lowest bit of the flag, and marking keeps the other bits |
| KeyTable.Take7 | SWparser.cpp:605-611 | what is stored of a key is its start, up to seven characters |
| KeyTable.AddResultIs | SWparser.cpp:600-635 | an addition is refused exactly for an empty key, a key already in the map, or a full map |
| KeyTable.AddRefines | SWparser.cpp:600-627 | adding a key adds exactly its first seven characters, not blacklisted |
| KeyTable.DeleteRefines | SWparser.cpp:578-597 | deleting by moving the last slot removes exactly that key and keeps every other key's mark |
| KeyTable.BlackenRefines | SWparser.cpp:565-576 | blacklisting marks exactly that key |
| KeyTable.CheckRefines | SWparser.cpp:540-557 | a check answers from the map after the two master keys |
| KeyTable.CountIsSize | SWparser.cpp:531-538 | the count is the number of keys |
| KeyTable.RunRefines | SWparser.cpp:521-641 | after any commands the array stands for the map the same commands make |
| KeyTable.RunChecks | SWparser.cpp:540-557 | and every check then answers from that map |
| KeyTable.RejectedIff | SWparser.cpp:134 | a load takes an addition for rejected exactly when it was, or when the stored key contains "error" |
| KeyTable.SeparatorIff | SWparser.cpp:127 | the separators are newline, tab, space, semicolon, comma and quote |
| KeyTable.LoadIsFold | SWparser.cpp:118-140 | loading a text is folding the addition over its terminated pieces until a rejection or a full table, and leaves the text after the pieces taken |
| KeyTable.LoadAll | SWparser.cpp:118-140 | a text of new keys that fit, with any mix of the six separators between and around them, is loaded completely; no key is left and nothing else changes |
| KeyTable.ErrorWordStored | SWparser.cpp:134 | a key containing "error" is stored although the load fails |
| KeyStore.SWparser.SubstractKey | SWparser.cpp:521-529 | reads the key of a slot |
| KeyStore.SWparser.SearchKey | SWparser.cpp:531-538 | finds the first slot with the key |
| KeyStore.SWparser.CheckKey | SWparser.cpp:540-557 | answers the check |
| KeyStore.SWparser.ToBlackList | SWparser.cpp:565-576 | sets the flag bit of that slot and changes no other byte |
| KeyStore.SWparser.DeleteKey | SWparser.cpp:578-597 | moves the last slot into the hole, or clears it |
| KeyStore.SWparser.AddKey | SWparser.cpp:600-641 | appends the key to the array, or says why not |
| KeyStore.SWparser.ScanForKeys | SWparser.cpp:118-140 | the tokenizer loop computes the load and leaves the unconsumed text |
| RxBuffer.WiFiClientRxBuffer.FillBuffer | replace_lib/WiFi/src/WiFiClient.cpp:57-83 | what is received goes behind what is buffered and nothing is lost; it gives up only if the allocation failed, there is no room, nothing was reported, or the receive for all the room gave nothing, and notes a failure exactly after an error |
| RxBuffer.WiFiClientRxBuffer.Read | replace_lib/WiFi/src/WiFiClient.cpp:106-139 | hands out exactly the next bytes of the stream, or -1 and none, for every schedule of arrivals; fewer than asked for only when nothing more can come; a short read leaves bytes buffered only when it has handed out just those buffered when it began to, and then too few to complete it |
| RxBuffer.WiFiClientRxBuffer.ReadRest | replace_lib/WiFi/src/WiFiClient.cpp:121-138 | so does the loop after a partial refill |
| RxBuffer.WiFiClientRxBuffer.Peek | replace_lib/WiFi/src/WiFiClient.cpp:141-146 | shows the next byte and hands out nothing; -1 only when the buffer is empty and nothing more can come |
| RxBuffer.WiFiClientRxBuffer.Available | replace_lib/WiFi/src/WiFiClient.cpp:148-150 | what is buffered and what the socket reports, never more than the peer sends |
| RxBuffer.WiFiClient.Write | replace_lib/WiFi/src/WiFiClient.cpp:352-406 | what goes out is a prefix of the data whose length is the answer, except 0 exactly after a failing select; the connection is dropped exactly after an error of send other than EAGAIN; while connected it gives up only after exactly ten tries since the last byte sent |
| CertBundle.RecordAt | esp_crt_bundle.c:160-182 | a bundle holds each record at its offset |
| CertBundle.RecordFields | esp_crt_bundle.c:122-123 | the header of a record gives the lengths, and the name and the key lie behind it |
| CertBundle.CrtBundle.Init | esp_crt_bundle.c:160-182 | succeeds exactly when there is memory, and then the index points at each record |
| CertBundle.CrtBundle.Search | esp_crt_bundle.c:113-144 | the binary search finds a record whose name starts the issuer's bytes, with its key, and none exactly when there is none |
| CertBundle.StartsIff | esp_crt_bundle.c:125 | for names that carry their own length that record is the issuer's, whatever lies behind the issuer in memory |
| CertBundle.CrtBundle.FindIssuer | esp_crt_bundle.c:113-144 | for such names the search finds a record exactly when one has the issuer's name, and hands on that record's key |
| CertBundle.DistinctNames | esp_crt_bundle.c:155-157 | a sorted bundle has one record a name |
| Dns.WireHeld | DNSServer.cpp:89-95 | a packet that holds a name's wire form holds its labels |
| Dns.ReadHeld | DNSServer.cpp:89-95 | a reader of the standard reads them |
| Dns.WrittenAnswers | DNSServer.cpp:194-240 | in the reply the counts match the body, the pointer leads to the question's name, and type, class, TTL and address are the answer's |
| Dns.DNSServer.CopyName | DNSServer.cpp:89-97 | the copied name is the wire name |
| Dns.FlagBits | DNSServer.cpp:103-110 | the response bit and the operation code are read from their bits of the header |
| Dns.DomainFolds | DNSServer.cpp:57-61 | the name looked up has no capital letters, and does not depend on the case of the question |
| Dns.DomainWww | DNSServer.cpp:57-61 | its first "www." is left out, and so are those after it; a name without one is only folded |
| Dns.LeadingWww | DNSServer.cpp:57-61 | a leading label "www" makes no difference |
| Dns.DNSServer.GetDomainNameWithoutWwwPrefix | DNSServer.cpp:131-165 | the decoded name is the labels joined by dots, in lower case, without "www." |
| Dns.DNSServer.ReplyWithIP | DNSServer.cpp:194-240 | what is sent is such a reply |
| Dns.DNSServer.ProcessNextRequest | DNSServer.cpp:63-120 | plain queries for the portal's name are answered, other queries get their own header back, responses get nothing |
| Relay.HeldLongEnough | WSKey32.ino:673-723 | after an activation no tick drops the relay before the hold time is over, whatever the button does |
| Relay.PressOpens | WSKey32.ino:682-685 | pressing the button switches the relay on and starts a hold time, like `open` |
| Relay.PressHolds | WSKey32.ino:682-685 | so after a press no tick drops the relay before that hold time is over |
| Relay.ClosedStays | SWparser.cpp:272-275 | after `close` or `off` the relay is off until something switches it on |
| Relay.ResetIff | WSKey32.ino:693-696 | a press resets the device exactly when it lasts as long as the reset interval |
| Relay.ResetStops | WSKey32.ino:670-671 | after that the ticks do nothing but count |
| Relay.DroppedInTime | WSKey32.ino:711-721 | without another activation the relay is off from the first tick at which the hold time is over |
| Relay.OnUntil | WSKey32.ino:711-721 | with the button released it is on exactly until then |
| Relay.TickKeepsWhilePressed | WSKey32.ino:687-697 | while the button is held no tick switches the relay, whatever the commands between the ticks |
| Relay.HeldWhilePressed | WSKey32.ino:687-697 | so a relay that is on stays on unless a command drops it, and the hold time starts over |
| Relay.OnHolds | SWparser.cpp:275 | after `on`, with the button released, the relay is on exactly until the hold time begun before is over |
| Relay.OnFullyIff | SWparser.cpp:275 | it holds for a whole hold time exactly when that began at the same moment |
| Relay.OnFullyAfter | SWparser.cpp:275 | so in every state a run reaches |
| Relay.OnAfterIdle | WSKey32.ino:721 | so it does after any tick with the button released that leaves the relay off |
| Relay.OnAfterClose | SWparser.cpp:271-275 | a run from the start in which the relay is switched on after `close` and dropped by the very next tick |
| Relay.Controller.ScanKeys | WSKey32.ino:605-723 | the timer interrupt makes that step of the globals |
| Relay.Controller.Process | SWparser.cpp:271-275 | so do the commands |
| Clock.Elapsed | WSKey32.ino:735 | the counter difference is the time that passed, across a wrap |
| Clock.UpdateIs | WSKey32.ino:735-739 | an update keeps all the time since the counter was last remembered, less 2^32 ms exactly when its addition overflows |
| Clock.Accounted | WSKey32.ino:800-808 | after any updates the clock shows and holds back all the time since the refresh, less the time between its two readings of the counter and 2^32 ms an overflow |
| Clock.ExactIff | WSKey32.ino:800-808 | it is exact exactly when at each update the time since the last one and the part of a second before it stay below 2^32 ms together, and no time passes between two readings |
| Clock.ClockRuns | WSKey32.ino:788-808 | from a refresh at one reading of the counter on, the clock depends on the time between the readings alone, across any wraps |
| Clock.ExactAtIff | WSKey32.ino:788-808 | refreshed and updated at given times, it shows the seconds and holds back the milliseconds since the refresh exactly when each update reads the counter twice at the same time and less than 2^32 ms after the last whole second |
| Clock.LongGap | WSKey32.ino:735-739 | updates under 2^32 ms apart that lose 2^32 ms |
| Clock.Clock.Set | WSKey32.ino:788-791 | a refresh starts the clock at the server's second |
| Clock.Clock.Advance | WSKey32.ino:800-808 | an update of the globals, from two readings of the counter |
| Stations.StepKeeps | WSKey32.ino:183-240 | every event keeps the table clean, addresses distinct, and the count in step with the occupied cells |
| Stations.Leaves | WSKey32.ino:199-213 | a station that leaves is in no cell, and no other cell changes |
| Stations.Comes | WSKey32.ino:183-197 | a new station is in one cell that was free, with the time it came, and no other cell changes |
| Stations.Assigns | WSKey32.ino:225-237 | the first listed station in the table with the address gets it, and no other cell changes |
| Stations.Handles | handlehttp.cpp:188-203 | the first cell with the client's address gets the time if it is occupied, and no other cell changes |
| Stations.IdleIs | WSKey32.ino:141-145 | the time a station has been idle is right across a wrap of the counter |
| Stations.RunKeeps | WSKey32.ino:81-240 | so does every run from the empty table |
| Stations.Table.StationConnected | WSKey32.ino:183-197 | a new station takes the first free cell, if there is one |
| Stations.Table.StationDisconnected | WSKey32.ino:199-213 | a known station's cell is freed |
| Stations.Table.IpAssigned | WSKey32.ino:215-240 | the first listed station that is known and has the address gets it |
| Stations.Table.CommandHandled | handlehttp.cpp:188-203 | a handled command refreshes its station's time |
| Stations.Table.OldestStation | WSKey32.ino:139-154 | the station chosen has been idle at least as long as every other, and none is chosen only if none has been idle |

## Left out

- Mailbox.Step: each HTTP call is atomic; `file()` is read before `flock`, so overlapping calls could lose a line.
- Mailbox.Enabled: the request the lock is working on is not evicted meanwhile; `Eviction.dfy` drops this.
- LogContents.GoodRequest: fields have no `;`, `=`, `%`, newline or outer blanks, as the record round trip needs them.
- LogLine.Readable: responses that contain `response=`, or a newline, are not covered; an empty response reads as "processed" for ever.
- Mailbox.ReceiveStep: what the lock does besides when it takes a text for an error page (it uploads the transponder again), and the refusal of requests that are too old, which is one of the responses it may give.
- RequestLog.Config: `maxlogs` and `logline` are constants; lowering `maxlogs` at run time, the parsing of the header line and the admin commands are not modelled.
- RequestLog.LogFile: failures of `fopen` and `flock`, and the HTTP and query-string transport around the functions, are not modelled.
- Delivery.UnknownCommandLeak: which commands are known, and to which keys, is not modelled; that this one is answered by the error message is the run's assumption.
- RepeatGuard.GuardExact: PHP's loose comparison of numeric strings (`==` in line 242) is modelled as equality.
- Upload.Scan: `strstr` may read past the look-ahead buffer; the comparison is modelled on the buffer alone, with arbitrary old contents where the stream is short.
- UploadBuffer.HTTPUpload: `totalSize` is unbounded; multipart headers, plain fields and the text after the boundary are left out.
- UriTemplate.FunctionRequestHandler: templates with an opening brace that is not part of a `{}` index past the stored arguments and are excluded.
- UriTemplate.MatchIff: for templates in which two parameters touch only the handler and its bounds are covered; the second's brace is there taken for the end of the first.
- UriTemplate.PathTestExact: templates in which a closing brace follows a parameter are not covered.
- FormArgs.WebServer: characters are bytes; where the query string and the body are taken from is left out.
- Chunked.WebServer: the client takes every byte; headers, and the header text that one variant of `send` passes through `sendContent`, are left out.
- KeyTable.Store: keys hold no NUL; the copy of the table in EEPROM and the loading of a file in pieces, which cuts keys at the edge of a piece, are left out.
- RxBuffer.WiFiClientRxBuffer: the null destination and `flush` are left out.
- CertBundle.CrtBundle: the flags that skip the callback, and the signature check on the key handed on, are left out.
- Dns.DNSServer.ProcessNextRequest: names over 127 bytes overflow the 8-bit length, and malformed questions run off the packet; both are excluded. The table of other hosts is empty in the source and is left out.
- Relay.NoWrap: the hold time theorems stop before the 32-bit tick count wraps; the LED, the long press of the separate reset button (its counter never accumulates), the watchdog and the reconnect counter are left out.
- Relay.StepOf: `open` and `close` with the service switched off, where they do nothing, are left out.
- Clock.State: the seconds are unbounded, not a 32-bit `int`.
- Stations.Table: the six bytes of each address are one value, not part of a flat byte array; addresses of stations are not all zero.
- The rest of the repository: sockets, TLS, FTP, EEPROM, HTML pages, `scom` command matching, the remaining WiFi library and the older copies of the transponder.
