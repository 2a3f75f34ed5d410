# bggGraphQLServer collection pipeline and logger, in Dafny

This project models two parts of the bggGraphQLServer repository and proves
properties about them.

The first part is the BoardGameGeek collection pipeline
(`interface/boardgamegeek`). The model covers:

- One request attempt, and how its outcome becomes data or a `ReqeustError`.
- The retry loop that re-asks while the service answers 202 ("still processing").
- The two-schema decode: first the `Items` document, then the `Errors` document.
- The item-by-item conversion into games, which stops at the first item that fails.
- The text of a `ReqeustError`.

The second part is the logger package (`interface/logger`). The model covers:

- The level threshold and what `SetLevel` and `SetLevelString` do to it.
- The choice of which of the four level slots get a real writer.
- The zero-padded `itoa` and the `formatTime` built on it.
- The rewriting of a `file.go:NN: msg` line into `ts LEVEL file:NN : msg`.

Files:

- `decimal.dfy` (`Decimal`): decimal digits of integers, Go's `%d`, and the value of a digit string.
- `strconv.dfy` (`StrConv`): Go's `strconv.Atoi` for a 64-bit `int`, including where it reports a range error instead of a syntax error.
- `gofmt.dfy` (`GoFmt`): Go's `fmt.Sprintf` applied to a format string with no arguments. This is what `fmt.Errorf(message)` returns.
- `schema.dfy` (`Schema`): the decoded XML shapes and `ReqeustError.Error()`.
- `pipeline.dfy` (`Pipeline`): `requestXMLAPI`, `FetchCollection`, `generateCollection` and `generateGame`.
- `logger.dfy` (`Logger`): `SetLevel`, `SetLevelString`, `createOutputIO`, `itoa`, `formatTime` and the header splicing of `transformer.Write`.

Three behaviours of the code that the model keeps as written:

- A failed conversion still returns a collection.
  - The code's named returns hand back the games built so far together with the error.
  - `generateCollection` and `FetchCollection` both return them, and so does the model: `Pipeline.BuiltFrom`, and the `collection.Some?` case of `FetchCollection`.
- An `Errors` document's message is not the error text verbatim.
  - The code passes it to `fmt.Errorf` as a format string.
  - The model renders it as a format string (`GoFmt.Render`).
  - `Pipeline.RemoteTextIsMessage` proves the text equals the message exactly when the message has no `%`.
- A request that cannot be built is not guarded.
  - The code reads `req.URL` from a nil request and panics.
  - The model returns the explicit outcome `NilURLPanic`.

## Model

| member | source | states |
|---|---|---|
| Decimal.DecSpec | interface/boardgamegeek/implement.go:155 | the digits of n are all decimal, read back as n, and have no leading zero |
| Decimal.FormatInt | interface/boardgamegeek/implement.go:155 | `%d` of n: its digits read back as n, with a leading '-' exactly for negative n |
| Decimal.FormatIntInjective | interface/boardgamegeek/schema.go:58 | distinct integers have distinct `%d` texts |
| Decimal.Int64Digits | interface/logger/logger.go:204 | every non-negative int64 has at most 19 digits, so it fits itoa's 20-byte buffer |
| Decimal.DecLengthBound | interface/logger/logger.go:206-214 | a number below 10^k has at most k digits |
| StrConv.Atoi | interface/boardgamegeek/implement.go:135-147 | every error names "Atoi" and carries the input text |
| StrConv.AtoiSpec | interface/boardgamegeek/implement.go:135-147 | Atoi succeeds exactly on an optional sign followed by digits whose value fits an int64, and then returns that value |
| StrConv.ScanDigitsSpec | interface/boardgamegeek/implement.go:135 | the digit loop finishes exactly on all-digit text whose value fits a uint64, and yields that value |
| StrConv.AtoiRange | interface/boardgamegeek/implement.go:135-147 | Atoi reports a range error, not a syntax error, exactly when the digits after the sign pass the largest uint64 before any non-digit, or the text is well formed and its value lies outside int64 |
| StrConv.AtoiFormatInt | interface/boardgamegeek/implement.go:155 | Atoi of the `%d` text of any int64 gives that int64 back |
| GoFmt.Render | interface/boardgamegeek/implement.go:49 | the text `fmt.Errorf(message)` produces with no arguments: empty exactly for an empty message, and it starts with the message's first character; GoFmt.RenderLiteral, GoFmt.RenderIdentityIff and the examples below state the rest |
| GoFmt.RenderLiteral | interface/boardgamegeek/implement.go:49 | a message without '%' formats to itself |
| GoFmt.RenderIdentityIff | interface/boardgamegeek/implement.go:49 | a message formats to itself if and only if it has no '%' (widths below one million) |
| GoFmt.RenderWeight | interface/boardgamegeek/implement.go:49 | formatting raises the count of '!' minus '%' by at least one when the message holds a '%' (widths below one million) |
| GoFmt.RenderTrailingPercent | interface/boardgamegeek/implement.go:49 | a trailing '%' becomes "%!(NOVERB)" |
| GoFmt.RenderDoublePercent | interface/boardgamegeek/implement.go:49 | "%%" becomes "%" |
| GoFmt.RenderMissing | interface/boardgamegeek/implement.go:49 | "%d" without an argument becomes "%!d(MISSING)" |
| Schema.ErrorText | interface/boardgamegeek/schema.go:57-59 | the text starts with "request " + URL + " code " and continues with '-' exactly for a negative code; Schema.ErrorTextCode states that the code reads back |
| Schema.ErrorTextCode | interface/boardgamegeek/schema.go:57-59 | the text is "request " + URL + " code " followed by text that Atoi reads back as the code |
| Schema.ErrorTextIgnoresMsg | interface/boardgamegeek/schema.go:57-59 | two errors that differ only in Msg have the same text |
| Schema.ErrorTextCodeInjective | interface/boardgamegeek/schema.go:58 | for one URL, equal texts mean equal codes |
| Pipeline.RequestXMLAPI | interface/boardgamegeek/implement.go:57-108 | the attempt panics exactly when the request cannot be built; otherwise it always gives a ReqeustError carrying the URL, or the data. Client failure gives 502 and its message. Any non-200 status, 202 included, gives that status and its text. A 200 with a read failure gives 200 and the read error. Data comes back exactly for a 200 whose body was read |
| Pipeline.RetryOnlyOnAccepted | interface/boardgamegeek/implement.go:26-29 | a built request asks for a retry if and only if the service answered 202 |
| Pipeline.GenerateGame | interface/boardgamegeek/implement.go:129-157 | a built game copies id and name and holds the values Atoi and ParseFloat gave for its fields; every failure is a strconv error. Pipeline.GenerateGameOk and Pipeline.GenerateGameFirstFailure state when each happens |
| Pipeline.FirstIntFailure | interface/boardgamegeek/implement.go:135-148 | the index of the first field Atoi rejects: every earlier field parses and that one does not |
| Pipeline.GenerateGameOk | interface/boardgamegeek/implement.go:129-157 | a game is built iff the three integer fields are int64 text and the score parses. Its id and name are copied, its numbers are the fields' values, and its year text reads back as the item's year |
| Pipeline.GenerateGameFirstFailure | interface/boardgamegeek/implement.go:135-153 | a failed game reports the error of the first failing field, in the order MaxPlayers, MinPlayers, PlayingTime, score |
| Pipeline.GenerateCollection | interface/boardgamegeek/implement.go:110-127 | the user's name, the games of the items before the first failing one in item order, and that item's error (none when all convert) |
| Pipeline.BuiltFromUnique | interface/boardgamegeek/implement.go:118-124 | the collection and the error are determined by the items |
| Pipeline.BuiltFromSucceeds | interface/boardgamegeek/implement.go:118-126 | no error exactly when every item converts, and then there is one game per item |
| Pipeline.NoItems | interface/boardgamegeek/implement.go:112-117 | no items give an empty game list and no error |
| Pipeline.FetchCollection | interface/boardgamegeek/implement.go:16-55 | one attempt per leading 202 plus one. Any other ReqeustError, or an error of any other type, comes back unchanged with no collection. An Items body is converted as generateCollection does. Otherwise an Errors body fails with its message used as a format. Otherwise the second decode's error is returned |
| Pipeline.FirstSettledIsFirst | interface/boardgamegeek/implement.go:23-39 | the loop stops at the first answer that is not a 202 |
| Pipeline.RemoteTextIsMessage | interface/boardgamegeek/implement.go:49 | the remote error's text equals the message if and only if the message has no '%' |
| Logger.CreateOutputIO | interface/logger/logger.go:181-199 | slot i holds a new transformer labelled with level i's name exactly when i <= threshold, all with the file header, the given showNum and one shared new lock; the other slots discard |
| Logger.LevelOf | interface/logger/logger.go:166-179 | the four upper-case labels name their own level; every other string names LevelInfo |
| Logger.Logger.constructor | interface/logger/logger.go:128-135 | the package starts at threshold LevelInfo with its writers configured for it |
| Logger.Logger.SetLevel | interface/logger/logger.go:152-164 | returns the previous threshold. A negative level changes nothing. Otherwise the threshold becomes the level clamped to LevelTrace, and the writers are rebuilt with line numbers exactly above LevelWarn |
| Logger.Logger.SetLevelString | interface/logger/logger.go:166-179 | the threshold becomes the label's level and the previous one is returned |
| Logger.ZeroPadStep | interface/logger/logger.go:206-212 | one loop step: the padded text of n is that of n / 10, one narrower, followed by n's last digit |
| Logger.Itoa | interface/logger/logger.go:202-216 | appends to buf, unchanged, the digits of i left-padded with '0' to wid, which is max(wid, digits of i) bytes |
| Logger.ZeroPadValue | interface/logger/logger.go:202-216 | the padded text is all digits and reads back as the number |
| Logger.FormatTime | interface/logger/logger.go:86-105 | the components rendered with widths 4, 2, 2, 2, 2, 2 and 3 (milliseconds), joined by '-', '-', ' ', ':', ':' and '.' |
| Logger.TimeTextLayout | interface/logger/logger.go:86-105 | for years up to 9999 and in-range fields the text is 23 bytes, with separators at fixed offsets, and each field reads back as its component |
| Logger.IndexOf | interface/logger/logger.go:61-63 | the first position of the byte, or -1 when it does not occur |
| Logger.Transformer.constructor | interface/logger/logger.go:187-193 | the transformer keeps the lock, the level label, hasFF and showNum it is built with |
| Logger.Transformer.Write | interface/logger/logger.go:44-78 | the line is ts, the level, the header, " : " and p from the body start on |
| Logger.NoFileHeader | interface/logger/logger.go:60-75 | when the first ':' is not after the first byte the header is "???" and all of p follows; the body starts at 0 only then |
| Logger.TwoColons | interface/logger/logger.go:63-72 | with two colons and text between them the body starts two bytes after the second colon in both branches; the header is file:line with showNum and file without |
| Logger.ShortFileLine | interface/logger/logger.go:44-78 | a "file:NN: msg" line from log.Lshortfile becomes "ts LEVEL file:NN : msg", or "ts LEVEL file : msg" without line numbers |
| Logger.TrailingColonOverruns | interface/logger/logger.go:71 | a line whose only colon is its last byte, such as "x:", puts the body start one past the end |

## Left out

- Network I/O is not modelled: building the request, `client.Do`, `io.ReadAll`, and the query encoding with `url.Values`. `Pipeline.RequestXMLAPI` takes their outcomes as inputs, and the URL is the one after the query was attached.
- The 30-second HTTP client and the endpoint constant in `interface/boardgamegeek/config.go` hold no logic.
- The one-second `time.Sleep` between attempts and context cancellation are wall-clock and runtime concerns.
- `Pipeline.FetchCollection` requires a script in which some answer is not 202. Go keeps polling for as long as the service answers 202; that unbounded case is not modelled.
- `encoding/xml.Unmarshal` is a foreign library. Each decode is a supplied function that returns a value or a failure message, and a partly filled `Items` after a failed decode is not modelled.
- `strconv.ParseFloat` is floating point. It is a supplied function, and the score is a `real`.
- The `logger.Error.Println` calls in `FetchCollection` only log, so they are not modelled.
- The unclosed response body on non-200 paths is a resource leak, not behaviour.
- Pipeline.GenerateGame: on failure it does not return the partly filled game that Go returns beside the error, because `generateCollection` drops it.
- Pointers and slices are values. A nil collection is `None`, and Go's empty non-nil game slice is the empty sequence.
- GoFmt.Render: only formatting with no arguments is modelled. The `*` width or precision and the `[n]` argument index are read as verbs, so the text differs from Go's: for "%*d" the model gives "%!*(MISSING)d" where Go gives "%!(BADWIDTH)%!d(MISSING)", and for "%[1]d" it gives "%![(MISSING)1]d" where Go gives "%!d(BADINDEX)". Such messages reach the `Remote` error of `Pipeline.FetchCollection` with the model's text.
- GoFmt.RenderIdentityIff: it is proved only for messages with no run of seven digits. Longer widths make fmt jump to the end of the format, and the proof does not cover that.
- Pipeline.RemoteTextIsMessage: it carries the same seven-digit restriction as `GoFmt.RenderIdentityIff`.
- The logger's bytes are modelled as characters. Only ASCII bytes such as ':' and '0'..'9' are compared.
- Logger.Transformer.Write: the `time.Now` timestamp and its RFC 3339 formatting are the input `ts`.
- Logger.Transformer.Write: taking the lock, writing to standard output, and the returned count and error are not modelled. The result is the line that would be written.
- Logger.Transformer.Write: it requires that the body start not pass the end of the line. Otherwise the Go slice panics, for example on "x:".
- The `log.New` wiring in `setup` and the `StdLogger` interface are library calls and declarations. The model keeps the four writers in the order Error, Warn, Info, Trace.
- Logger.Mutex only stands for the identity of the shared lock.
- Logger.Itoa: it requires i >= 0. For negative values Go writes a byte below '0'. formatTime passes one only for years before 1 AD, which Logger.FormatTime excludes.
- Logger.Itoa: it requires wid <= 20. A wider field would index before the start of the 20-byte array.
- Logger.FormatTime: it takes the calendar and clock components instead of a `time.Time`. It requires them non-negative, so years before 1 AD are not covered.
