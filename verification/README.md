# tg-notify, modelled and proved

tg-notify is a Go library and command for sending Telegram messages through the
Bot API. This project models the parts of it that decide something over
unbounded inputs, and proves what they keep.

- **Command line** (`Arguments`, `FlagParsing`, `Phrases`, `CommandLine`, `Lines`).
  `reorderArgs` moves flags ahead of positional tokens so that Go's `flag`
  package, which stops at the first positional, parses flags anywhere. The
  rewriting is a loop proved against a specification; Go's parser and a direct
  left-to-right parser of the whole line are functions. The main result says
  exactly on which lines the two agree; a second one starts from any interleaving
  of correctly spelled settings and positional tokens and needs no parser to be
  stated. The program's own flag tables are shown to agree with each other and
  with the documented options; every command line at all is written as settings
  and positional tokens up to what ends its reading, and its parse is given.
- **Retries** (`Failures`, `Backoff`, `Retrying`, `RetryLoop`). A send is an
  arbitrary oracle; sleeps, sends and random draws go to a ledger. The words of
  outcomes that enabled runs consume are given by a declarative language, and
  the imperative loop is proved to consume exactly its word, to leave exactly
  its ledger and to return its last reply. Waits are 64-bit nanoseconds; jitter
  is a real number in [0, 1).
- **Token masking** (`Scrubbing`). The scanner behind the regular expression
  `/bot[^/\s]+/`, its leftmost-replacement meaning, idempotence, and exactly when
  the result does not depend on the token.
- **SOCKS5 proxy** (`Socks`, `SocksWire`, `Tunnel`). The server handshake (sections 3 to 6
  of RFC 1928, section 2 of RFC 1929) over any client byte stream and any amount of bytes
  the client accepts, and the two-way recording tunnel under any interleaving.
- **Smaller pieces** (`Text`, `DotEnv`, `MediaGroup`). `.env` loading, and album
  assembly, where two loops must agree on attachment names.

Where code and documentation differ the model follows the code:

- README.md:298-299 says flags parse anywhere. `FlagParsing.ParsesAnywhere` gives
  the exact condition for the parse and `CommandLine.ProgramParsesAnywhere` for the
  program, which looks for `-v` and `--version` first, wherever they stand;
  `CommandLine.TrailingFlagExample`, `CommandLine.TerminatorExample` and
  `CommandLine.VersionValueExample` are lines on which it fails. On such lines an
  album can lose a reference or its order (`CommandLine.AlbumItems`,
  `CommandLine.AlbumLossExample`, `CommandLine.AlbumTerminatorExample`).
- README.md:370-371 says network errors are retried. `scrubTokenErr` rebuilds an
  error whose text changes, and the text of a failed `client.Do` quotes the bot
  URL, so with any base URL printed without a '<' such an error ends the run
  whenever the token, up to its first slash, is nonempty and without white space
  (`Failures.QuotedURLIsNotRetried`, `Failures.RefusedConnectionExample`). With the
  empty token, which the library accepts, it is retried
  (`Failures.EmptyTokenExample`). Network errors while reading a body are retried, and so is a request that cannot be built, for the whole budget
  (`RetryLoop.UnbuiltRequestSpendsBudget`).
- The comment at retry.go:146-147 and README.md:372-376 give one formula for the
  waits, base times factor to the attempt less one, capped at 60s. The cap is
  tested only after a doubling, so the formula holds at all attempts exactly when
  the base is at most 60s (`Backoff.DocumentedExactly`); a base of 61s is slept in
  full first (`Backoff.UncappedFirstWaitExample`). What the loop does compute is a
  closed form up to 2^62 ns (`Backoff.NominalExactly`).
- README.md:372-376 and retry.go:29-33 say transient errors are retried up to
  the budget. A 429 on the first attempt takes that away: its resend ends the run
  even if it fails transiently, with the whole budget left, where the same 429
  after a transient failure lets the run go on (`RetryLoop.GivesUpExactly`,
  `RetryLoop.FirstLimitExample`).
- README.md:225-226 and the comments at client.go:305-306 and main.go:170-171 say
  that errors can never carry or print a raw token. Two things are missing. Only the errors of
  `client.Do` are scrubbed: the error of building a request is returned, and
  logged at every retry, with its URL as it is (`Failures.UnbuiltRequestExample`).
  And the masked segment ends at the first slash, so of a token with a slash the
  rest is shown (`Scrubbing.ScrubTokenText`, `Failures.SlashTokenExample`). An error
  says as little about a token as about any ordinary one exactly when the token is
  ordinary itself (nonempty, without slash and white space), the error comes from
  `client.Do`, and the text before the token leaves no candidate open; for the
  command's last line it does not matter where the error comes from
  (`Failures.ErrorsIndependentExactly`). A base URL whose last path segment begins
  with "bot" leaves a candidate open (`Scrubbing.OpenBaseExample`). What is logged
  before a backoff is independent of the token exactly when nothing is logged
  (`Failures.LogsIndependentExactly`).
- files.go:231-235 promises multipart attachments for local albums. The multipart
  field named "media" is written with the whole JSON payload (files.go:289, 306,
  328), an object that holds the chat and the entries, where the remote request
  has the array of entries under that name (`MediaGroup.MediaIsArrayExactly`,
  `MediaGroup.LocalAlbumExample`).
- The comment at socks5.go:117-121 says every tunnelled byte is captured up to the
  cap. It is, but the chunk that crosses the cap also ends its direction
  (`Tunnel.CopyGoesOn`). io.Copy reads at most 32 KiB at a time and the cap is a
  multiple of that, so full reads alone never cross it (`Tunnel.FullReadsGoOn`);
  one shorter read before them is enough to (`Tunnel.UnalignedReadExample`).
- socks5.go:176-184 answers 0x00 without looking whether it was offered, where
  section 3 of RFC 1928 asks for one of the offered methods
  (`Socks.SelectedWasOffered`, `Socks.UnofferedMethodExample`).

Strings are sequences of characters, standing for Go's runes; byte streams are
sequences of numbers below 256.

## Model

| member | source | states |
|---|---|---|
| Arguments.ReorderArgs | cmd/tg-notify/main.go:341-358 | the rewriting loop returns the flag block followed by the positional block, as specified by structural recursion |
| Arguments.StablePartition | cmd/tg-notify/main.go:341-358 | on every line the result is the stable partition of the tokens by a role read off left neighbours only; a token that is no flag joins the flags only directly after a flag that takes a value |
| Arguments.Permutation | cmd/tg-notify/main.go:341-358 | no token is lost, added or duplicated |
| Arguments.Idempotent | cmd/tg-notify/main.go:341-358 | rewriting a rewritten line changes nothing, a valueless last flag included |
| Arguments.FlagsFirstExactly | cmd/tg-notify/main.go:341-358 | a line is left alone if and only if its flags, with their values, come before its positional tokens |
| FlagParsing.ParsesAnywhere | cmd/tg-notify/main.go:245-250 | for every line, Go's parse of the reordered line equals the direct parse-anywhere (assignments, positionals, first error or help) if and only if the line is faithful: no valueless last flag after a positional, and no `--` that disturbs the order of what follows |
| FlagParsing.ParseOfReordered | cmd/tg-notify/main.go:338-358 | what the parse of the reordered line is on every line, the two traps included |
| FlagParsing.HungryFlagTakesFirstPositional | cmd/tg-notify/main.go:352-355 | a last flag lacking its value takes the first positional token, and the result always differs from the direct parse |
| FlagParsing.TerminatorOrder | cmd/tg-notify/main.go:350-357 | the exact condition under which the tokens around a `--` keep their order |
| FlagParsing.BadSyntaxExactly | cmd/tg-notify/main.go:245-250 | the flag tokens that are refused for their syntax, and the only terminator |
| Phrases.SettingsParseAnywhere | README.md:298-299 | however well-spelled settings and positional tokens are interleaved, the program's parse is those settings in order and those tokens in order |
| CommandLine.TablesAgree | cmd/tg-notify/main.go:316-336 | the names reorderArgs takes for boolean are exactly the registered boolean flags and the two unregistered help flags |
| CommandLine.ProgramIsConsistent | cmd/tg-notify/main.go:190-243 | the registered flag set and the boolean table agree on every name, which the parsing theorems require |
| CommandLine.LaunchLine | cmd/tg-notify/main.go:180-245 | the scan for a version token, then the parse of the reordered line |
| CommandLine.ProgramParsesAnywhere | README.md:298-299 | on the program's own flags: the parse-anywhere equivalence, and the program does what the line says, read directly with the version flags, if and only if a version token stands where a flag does or, without any version token, the line is faithful |
| CommandLine.VersionValueExample | cmd/tg-notify/main.go:181-186 | a message that reads "-v" prints the version |
| CommandLine.ProgramSettings | README.md:298-299 | the interleaving theorem on the program's own flags, unless a value reads as a version token |
| Lines.ProgramParse | cmd/tg-notify/main.go:180-250 | for phrases with registered names and fitting values and what ends them: all settings and tokens; the first error (a value out of the twelve spellings or no number, a help flag, an unknown name, bad syntax) with the settings before it, wherever positional tokens stand; the two traps; a version token anywhere comes first |
| Lines.EveryLine | cmd/tg-notify/main.go:180-250 | every command line consists of such phrases and one of the four ends, so the parse of every line is given |
| Lines.CorrectIsWellSpelled | cmd/tg-notify/main.go:190-243 | texts and album references are never refused, switches take the twelve spellings only, numbers and durations what parses as such |
| Lines.SwitchTable | README.md:276-289 | the documented options without a value are registered as switches under their long and short names and aliases |
| Lines.ValueTable | README.md:267-279 | documented options with a value are registered under their names, each for its own setting and kind |
| Lines.MoreValues | README.md:280-290 | the same for the remaining ones |
| Lines.NothingElse | cmd/tg-notify/main.go:190-243 | no other name is registered |
| CommandLine.TrailingFlagExample | cmd/tg-notify/main.go:352-355 | a concrete line on which a positional token becomes a flag's value |
| CommandLine.TerminatorExample | cmd/tg-notify/main.go:346-352 | a concrete line on which `--` reorders positional tokens |
| CommandLine.StringSlice.Set | cmd/tg-notify/main.go:142-145 | each --album value is appended |
| CommandLine.StoreAlbum | cmd/tg-notify/main.go:221-222 | the album variable holds the values of the album assignments in order |
| CommandLine.AlbumOf | cmd/tg-notify/album.go:112-120 | version scan, rewriting, parse, --album variable and appended positionals together: the references of the album, with the album theorem for every accepted line |
| CommandLine.AlbumItems | cmd/tg-notify/album.go:14-31 | on every line whose parse succeeds: the album holds each reference once except one swallowed by a last flag that lacks its value; none is lost if and only if there is no such flag; command-line order holds if and only if, moreover, no album flag follows another reference and no `--` disturbs the order |
| CommandLine.AlbumTerminatorExample | cmd/tg-notify/main.go:346-352 | a concrete line with no album flag after a positional token whose album loses its order |
| CommandLine.AlbumLossExample | cmd/tg-notify/main.go:352-355 | a concrete line whose album loses a reference to the caption |
| Failures.WrappingIsInvisible | retry.go:124-135 | wrapper layers at any depth and under any text never change the retry decision |
| Failures.FirstApiIsOutermost | retry.go:124-127 | the API error that decides is the outermost one of the chain |
| Failures.DecisionOfExchange | client.go:337-382 | for every exchange, success, rate limit and transient failure each if and only if: a 429 only inside a decoded envelope, as its code or, without one, the status; an undecodable body only from 500 to 599; a failed Do only if scrubbing leaves its text alone |
| Failures.ApiErrorText | client.go:169-172 | the error of an answer names its code, or the status without one, readable as a number, and the server's description |
| Failures.MissingFileExample | retry.go:120-135 | a missing file fails at once although the error beneath it counts as a network error |
| Failures.QuotedURLIsNotRetried | client.go:313-323 | a network error whose text quotes a bot URL, with any base URL, ends the run if the token up to its first slash is nonempty, without white space, and no '<' is printed up to its end; for any token at all, it is retried if and only if its text survives scrubbing, decided part by part |
| Failures.RefusedConnectionExample | client.go:345-348 | a refused connection to the default server: transient by itself, fatal once scrubbed |
| Failures.RefusedConnectionText | client.go:333-335 | the text of a refused connection with its whole URL |
| Failures.EmptyTokenExample | client.go:333-348 | with the empty token a refused connection keeps its network layer and is retried |
| Failures.SlashTokenExample | client.go:307-323 | what a refused connection returns and prints for a token with a slash: the part after the slash is shown |
| Failures.ErrorsIndependentExactly | client.go:305-323 | for any token at all, the returned error is the one every ordinary token gives if and only if the token is ordinary, the error comes from Do and no candidate is open before it; the printed line if and only if the token is ordinary and no candidate is open |
| Failures.LogsIndependentExactly | retry.go:92-94 | what is logged before a backoff is the same for all ordinary tokens but the placeholder if and only if nothing is logged: no network failure, or one from Do that scrubbing rewrites |
| Failures.UnbuiltRequestExample | client.go:337-341 | a token that is no URL escape: the request error is returned and logged unscrubbed, counts as transient, and is masked in the printed line only |
| Failures.PrintedErrorScrubbedOnce | cmd/tg-notify/main.go:164-167 | the printed line is the same whether or not the library scrubbed the error first |
| Backoff.UncappedWait | retry.go:148-158 | the doubling loop computes its closed form at every attempt for bases from 1 ns to below 2^62 ns, in 64-bit arithmetic |
| Backoff.DocumentedExactly | retry.go:146-158 | the formula of the comment holds at all attempts if and only if the base is at most 60s |
| Backoff.UncappedFirstWaitExample | retry.go:146-158 | a 61s base is slept in full before the first retry, where the formula says 60s |
| Backoff.NominalExactly | retry.go:148-158 | the closed form of the loop, capped from the second attempt on, holds at all attempts if and only if the base is below 2^62 ns |
| Backoff.MonotoneExactly | retry.go:146-158 | waits never fall if and only if the base is at most 60s; a longer base is slept once, uncapped, before the cap applies |
| Backoff.RateWaitExactly | retry.go:79-84 | the 429 sleep is 5 seconds without a positive retry_after, else retry_after seconds exactly up to the largest whole number of seconds a Duration holds |
| Backoff.JitteredIs | retry.go:139-144 | a jittered wait is three quarters of the wait plus the drawn share of its half, truncated |
| Backoff.BackoffIs | retry.go:137-158 | the wait before the n-th retry in numbers, for any base up to 60s and any draw |
| Backoff.DefaultWaits | README.md:375-376 | 2, 4, 8, 16, 32 and then 60 seconds for the default base |
| Backoff.JitterBounds | retry.go:139-144 | for a nominal wait up to 2^65 / 5, a jittered wait lies within a quarter of it, up to truncation, and fits a Duration |
| Backoff.JitterFitsExactly | retry.go:139-144 | every draw leaves a wait that a Duration holds if and only if the nominal wait is at most 2^65 / 5 |
| Backoff.BackoffFits | retry.go:139-144 | for a base below 2^62 ns every backoff of every attempt fits a Duration |
| Backoff.NominalSumIs | retry.go:146-158 | closed form of the summed waits of n retries, for every base from 1 ns to below 2^62 ns |
| Backoff.JitteredSumBounds | retry.go:139-144 | the jittered sum lies within a quarter of the nominal sum, up to n truncations |
| Retrying.RunIsAWord | retry.go:68-118 | soundness: any outcomes make a run consume one word of the language of budget-bounded runs |
| Retrying.WordIsTheRun | retry.go:68-118 | completeness: a word of the language that the outcomes begin with is the word the run consumes |
| Retrying.PrefixFree | retry.go:68-118 | no word of the language is a proper prefix of another |
| Retrying.SendBound | retry.go:25-34 | at most 1 + 2 * MaxRetries sends after a transient first failure, one if MaxRetries is not positive, at most 2 otherwise |
| Retrying.FinalOutcomeEndsRun | retry.go:97-115 | a success or a fatal failure is the last outcome of its run |
| RetryLoop.Retry | retry.go:68-118 | sends consume the word of their outcomes, sends and sleeps leave its ledger, and value and error are those of the last send |
| RetryLoop.ApplyRetry | retry.go:162-168 | a policy with retries and no positive base is refused before any send; otherwise as Retry |
| RetryLoop.ComputeBackoffWait | retry.go:139-144 | one draw, and the jittered nominal wait of the attempt |
| RetryLoop.SleepsOfRun | retry.go:77-112 | the ledger of any run, event by event: one sleep between two sends; retry_after seconds (5 when not positive) after a 429; after a transient failure, the n-th among the outcomes so far, the n-th backoff with the n-th draw |
| RetryLoop.GoesOnExactly | retry.go:68-118 | every outcome of a run is that of its own send, and the run goes on after it if and only if it is a 429 that answers no resend, or a transient failure that does not answer the resend of a first 429 while there are no more of them than MaxRetries |
| RetryLoop.AllPassing | retry.go:92-117 | sends that all fail transiently: exactly 1 + MaxRetries of them, 1 if retries are off or not positive |
| RetryLoop.BackoffsWithinBudget | retry.go:92 | a run backs off at most MaxRetries times |
| RetryLoop.LedgerTotal | retry.go:77-117 | all the time a ledger sleeps is that of backoffs 1, 2, 3 and so on with consecutive draws plus the rate-limit waits, 429 resends in between or not |
| RetryLoop.RunBacksOff | retry.go:92-117 | the time slept in the ledger of a run, less its rate-limit waits, is at most budget backoffs that sum to the closed form up to a quarter and truncations |
| RetryLoop.GivesUpExactly | retry.go:77-118 | a run ends in a transient failure if and only if it began with one and spent its whole budget or had no retries, or it began with a 429 whose resend failed so |
| RetryLoop.FirstLimitExample | retry.go:77-86 | a 429, then a transient failure, ends the run; the same two after a transient failure do not |
| RetryLoop.RewrittenErrorEndsRun | client.go:345-348 | a failed Do whose error scrubbing rewrites is the last thing its run sees |
| RetryLoop.UnbuiltRequestSpendsBudget | client.go:337-341 | a request that cannot be built, with an error that counts as a network error, is tried once and then once per retry of the budget |
| Scrubbing.ScrubIsLeftmost | client.go:305-323 | the scan computes the output of any leftmost cutting of the text into copied characters and masked segments |
| Scrubbing.SegmentLiterally | client.go:307 | between /bot and the next slash, a nonempty text without tab, newline, form feed, carriage return and space is masked, and any other is copied |
| Scrubbing.OneCharacterExactly | client.go:307 | a segment of one character is masked exactly if it is none of the slash and the five white-space characters |
| Scrubbing.LeftmostExists | client.go:305-323 | every text has such a cutting |
| Scrubbing.ScrubIdempotent | cmd/tg-notify/main.go:170-178 | scrubbing twice is scrubbing once, on every text |
| Scrubbing.ScrubSplits | client.go:305-323 | scrubbing splits before a slash unless a candidate is open there |
| Scrubbing.TokenMasked | client.go:305-323 | a token segment is masked and its surroundings are scrubbed on their own |
| Scrubbing.ScrubTokenText | client.go:307-318 | what scrubbing makes of a text with any token and any surroundings: masked segment, copied segment or copied token, and the rest scrubbed on its own |
| Scrubbing.ScrubKeepsSlashes | client.go:307-318 | scrubbing neither adds nor removes a slash |
| Scrubbing.MaskedExactly | client.go:307-318 | where no candidate is open, the text is masked as for an ordinary token if and only if the token is nonempty and without slash and white space |
| Scrubbing.IndependentExactly | client.go:307-318 | for any token at all, the scrubbed text is the one every ordinary token gives if and only if the token is ordinary and the text before the token segment leaves no candidate open |
| Scrubbing.OpenBaseExample | client.go:333-335 | a base URL on which the token is copied |
| Scrubbing.NoOpenSuffix | client.go:305-323 | a text without a suffix of the form /bot and token characters leaves none open |
| Scrubbing.URLsIndistinguishable | client.go:333-335 | texts quoting a URL built by the client scrub to the same text for any two ordinary tokens |
| Scrubbing.ChangesExactly | client.go:313-323 | when scrubbing leaves a text with a token alone, for any token and any surroundings; never if a proper segment and what precedes it hold no '<' |
| Socks.HandleConn | internal/testproxy/socks5.go:156-242 | delivered bytes, recorded handshake, started tunnel and unread bytes for every stream and every write failure |
| Socks.RoundTrip | internal/testproxy/socks5.go:162-221 | every acceptable handshake, whatever follows, is recorded with its own values and leaves exactly what follows unread |
| Socks.RecordedOnlyIf | internal/testproxy/socks5.go:162-221 | a recorded handshake means the stream began with an acceptable one: version 5, the exact configured credentials, CONNECT |
| Socks.ProperPrefixRecordsNothing | internal/testproxy/socks5.go:162-221 | no proper prefix of an acceptable handshake records anything |
| Socks.RecordedAfterReplies | internal/testproxy/socks5.go:184-203 | recording comes after the method reply and, with a user configured, the successful authentication reply |
| Socks.SelectedWasOffered | internal/testproxy/socks5.go:176-184 | the recorded method was among the offered ones if and only if a user is configured or no-authentication was offered |
| Socks.UnofferedMethodExample | internal/testproxy/socks5.go:176-187 | a client that offers only another method is told that no-authentication was selected |
| Socks.RepliesShape | internal/testproxy/socks5.go:176-239 | answers are a method reply, then an authentication reply if asked for, then one ten-byte reply |
| Socks.RequestReplies | internal/testproxy/socks5.go:205-227 | which last reply every request after an accepted opening gets |
| SocksWire.RequestOnWire | internal/testproxy/socks5.go:205-242 | every request after an accepted opening, in literal bytes: command 1 with a complete address of type 1, 3 or 4 is recorded with the values at its positions and answered 05 00 or 05 05 with a zero bound address, any other command 05 07, any other address 05 08 |
| SocksWire.RefusedOpenings | internal/testproxy/socks5.go:161-195 | no answer to another version or a cut greeting, 05 FF without the username method, 05 02 and nothing more for another subnegotiation version |
| SocksWire.OtherCredentials | internal/testproxy/socks5.go:189-199 | any other credentials are answered 05 02 01 01 and record nothing |
| SocksWire.MessageOnWire | internal/testproxy/socks5.go:162-221 | the handshakes that the round trip is about, in literal bytes |
| SocksWire.TargetByPosition | internal/testproxy/socks5.go:277-321 | reading an address and port step by step is looking them up by position |
| Socks.SuccessReplyExactly | internal/testproxy/socks5.go:214-238 | the success reply is given exactly for a recorded handshake whose target is reached |
| Socks.TargetReadExactly | internal/testproxy/socks5.go:277-321 | an address and port are read exactly when the bytes begin with the encoding of one of the announced type |
| Socks.CredentialsRoundTrip | internal/testproxy/socks5.go:244-275 | the credentials read are those encoded, for lengths up to 255 |
| Socks.ReadOfferedMethods | internal/testproxy/socks5.go:162-174 | the greeting, step by step |
| Socks.Authenticate | internal/testproxy/socks5.go:189-203 | after a delivered method reply: the authentication reply, and either the end of the connection or the credentials of the script |
| Socks.HandleRequest | internal/testproxy/socks5.go:205-242 | the request: what is answered, recorded, tunnelled and left unread |
| Socks.ReadUserPassAuth | internal/testproxy/socks5.go:246-263 | the RFC 1929 subnegotiation, step by step |
| Socks.ReadSocksAddress | internal/testproxy/socks5.go:278-313 | the target by address type, step by step |
| Socks.ReadLengthPrefixed | internal/testproxy/socks5.go:265-275 | one length byte and that many bytes |
| Socks.ReadSocksPort | internal/testproxy/socks5.go:315-321 | a big-endian port |
| Tunnel.CapWriter.Write | internal/testproxy/socks5.go:339-349 | the dump keeps the first bytes up to the cap; the reported length is short exactly for a write that crosses it |
| Tunnel.OneShortWrite | internal/testproxy/socks5.go:339-349 | every write after a short one reports its full length |
| Tunnel.SidesIndependent | internal/testproxy/socks5.go:361-373 | under every interleaving each direction is where its own actions alone would have brought it |
| Tunnel.OverExactly | internal/testproxy/socks5.go:361-373 | what ends a direction, and that nothing happens to it afterwards |
| Tunnel.DeliveredIsAccepted | internal/testproxy/socks5.go:361-373 | a direction delivers exactly what its peer accepted of each chunk, in order |
| Tunnel.TunnelSafety | internal/testproxy/socks5.go:333-373 | at every moment of every interleaving: delivered is what the peer accepted of the chunks, in order; the dump is a prefix of it, within the cap, equal to its first bytes between chunks, and extends every earlier snapshot |
| Tunnel.CopyGoesOn | internal/testproxy/socks5.go:361-373 | a direction survives its chunks if and only if none straddles the cap |
| Tunnel.CopiedIs | internal/testproxy/socks5.go:361-373 | what is delivered is what was read, unchanged and in order, all of it or up to and including the chunk that straddles the cap; the dump is its first bytes |
| Tunnel.FullReadsGoOn | internal/testproxy/socks5.go:361-373 | a transfer in full reads of 32 KiB never ends at the cap, however long |
| Tunnel.UnalignedReadExample | internal/testproxy/socks5.go:339-349 | one byte before 32 full reads ends the direction at the cap; the byte after them does not |
| Tunnel.CopyChunks | internal/testproxy/socks5.go:364-371 | one copying loop: delivers what was read, all of it unless a chunk straddles the cap, then up to and including that chunk, and dumps the first bytes of it |
| Text.TrimSpaceIs | cmd/tg-notify/dotenv.go:26 | trimming removes white space only, all of it, at both ends |
| Text.SpaceExactly | cmd/tg-notify/dotenv.go:26 | the 25 characters that trimming removes |
| Text.DecimalReadsBack | files.go:270 | a printed number is digits without a leading zero and reads back |
| Text.IntReadsBack | files.go:281 | every number that is printed into a request, negative ones included, reads back as itself |
| Text.DecimalInjective | files.go:270 | different numbers print differently |
| DotEnv.LoadDotEnv | cmd/tg-notify/dotenv.go:24-43 | every variable set before keeps its value, every other one gets its first binding in the file, nothing else is set |
| DotEnv.BindingExactly | cmd/tg-notify/dotenv.go:26-38 | the lines that bind a key to a value, if and only if |
| DotEnv.LoadedUnique | cmd/tg-notify/dotenv.go:10-13 | the loaded environment is determined by the earlier one and the file |
| DotEnv.PlainLine | cmd/tg-notify/dotenv.go:26-41 | a plain line sets its key to its value, empty values included, with spaces and tabs anywhere around both, unless the value holds a NUL |
| DotEnv.FirstLineWins | cmd/tg-notify/dotenv.go:10-13 | the first of two lines with one key counts, neither for a key set before |
| DotEnv.Precedence | cmd/tg-notify/main.go:360-386 | flag over set variable, empty ones included, over first binding in the file |
| DotEnv.RoundTrip | cmd/tg-notify/dotenv.go:25-42 | a file that prints a map, in any order and with blank and comment lines anywhere, loads as that map |
| MediaGroup.AllRemote | files.go:364-371 | true exactly when every reference is remote |
| MediaGroup.ValidateMediaItems | files.go:373-386 | the error of the first failing item, or none exactly when no item fails |
| MediaGroup.Prepare | files.go:251-289 | accepted exactly for 2 to 10 photos and videos, a caption within its limit, and references all remote or none remote, else the first error in the order count, caption, items; then one entry per item |
| MediaGroup.PairAcceptedExactly | files.go:364-386 | the checks on an album of two, in literal kinds, address prefixes and caption limit |
| MediaGroup.OptionsOnFirstOnly | files.go:273-286 | caption, parse mode, reply and silence appear on no entry but the first |
| MediaGroup.WriteParts | files.go:325-344 | the parts written are the first ones of the body: the chat, the whole payload under the name "media", one part per file |
| MediaGroup.BodyIs | files.go:325-339 | the whole body part by part, with its literal names |
| MediaGroup.MediaIsArrayExactly | files.go:289-328 | what a server finds under "media": the array of entries if and only if the album is remote, the payload object for a local one |
| MediaGroup.LocalAlbumExample | files.go:289-328 | two local photos, accepted, and the object their multipart request holds under "media" |
| MediaGroup.ReferencesResolve | files.go:266-339 | starting from the payload that the "media" part holds, the attachment that its i-th entry names is the part that streams the i-th opened file |
| MediaGroup.OpenInOrder | files.go:310-320 | files are opened in order up to the first refusal |
| MediaGroup.CloseAll | files.go:388-392 | each handle is closed, in order |
| MediaGroup.SendMediaGroupPayload | files.go:296-362 | what an attempt sends; whether opening fails, the request cannot be built, sending fails, the writer is stopped early or the server answers, each opened file is closed exactly once; a remote album opens none |

## Left out

- Sockets, TLS, certificates, HTTP transports and proxy configuration.
- JSON and multipart encoding: a response decodes or not, a request is a list of parts.
- Usage text, completion scripts, dry-run output and the text of the version.
- MIME and extension tables, length limits other than the album caption, and the positional wrapper methods.
- The setters of Bot, each of which stores its argument.
- Number and duration syntax of flag values: one arbitrary predicate says which texts parse.
- The file name of an attached part and the stat check of album files before sending.
- Recorder locking and polling, connection tracking, and SOCKSServer.Close against acceptLoop.
- File errors and line-length limits while reading .env: the file is its sequence of lines.
- Float64 rounding in the jitter, which is exact real arithmetic followed by truncation; real time and real randomness.
- Printing of IP addresses: a recorded host is its kind and its bytes.
- Errors that unwrap to several errors: a chain is linear, as every wrapping in this code is.
- MediaGroup.SendMediaGroupPayload: the writer goroutine is the number of whole parts it gets through; a part cut short and the moment at which closing a file stops the writer are not modelled.
- Failures.QuotedURLIsNotRetried: the URL is taken as the error prints it; percent codes and quoting themselves are not modelled, so "white space" and '<' are those of the printed URL, whose path has neither.
- Backoff.BackoffWait: beyond a nominal wait of 2^65 / 5 Go's conversion to a Duration is implementation-defined; the model keeps the exact number there.
- CommandLine.AlbumOf: the mode checks that come between parsing and the album, and album.go's look at each file, are not part of it.
- FlagParsing.NextFlag: Go's own parseOne, written down from its behaviour; the flag package is not part of this model's sources.
- Failures.SendError: the text of the error for an unusable result, which differs by method, is one fixed text.
- Failures.DecisionOfExchange: assumes that transport errors carry no API error, which only this library creates.
