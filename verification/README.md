# Stock exchange, url_decode and shell helpers of CSE-381

A Dafny model of the pure logic inside the CSE-381 homework servers and tools:

- **StockLedger**: the transaction processor of the stock-exchange servers (`processTrans` with `createStock`/`checkCreate`, `balanceStatus`/`getStatus` and `updateBalance`). The ledger is a map from stock name to `Stock(name, balance)`, with the balance an `unsigned int`. A `buy` that would wait on the stock's condition variable is the outcome `Blocked`, with the ledger unchanged. The zarembmj servers (homework 8 and 9) know `reset`; the raodm server does not. The `Variant` parameter selects between them.
- **UrlCodec**: `url_decode`, identical in four files. `+` becomes a space (section 17.13.4.1 of HTML 4.01). `%hh` becomes one byte (section 2.1 of RFC 3986).
  - The at most two characters after a `%` go through `std::stoi(hex, nullptr, 16)`. That conversion is modelled as strtol does it: one leading blank, one sign, the longest run of hex digits. The `std::invalid_argument` it throws is `Err`.
  - The in-place loop is modelled as a method. It is proved to compute a left-to-right functional decoding.
  - The partner is a percent-encoder; decoding undoes it.
- **StockRequest**: how `clientThread` turns the request target into `(trans, name, amount)`. It url-decodes the target, turns `&` and `=` into spaces, and reads words 2, 4 and 6 with `operator>>`. The amount is read as libstdc++ reads an `unsigned int`:
  - an optional sign, then the longest digit run;
  - `-n` wraps modulo 2^32;
  - a value above UINT_MAX stores UINT_MAX;
  - no digits stores 0.
- **HttpFraming**: the reply `sendResponse` writes, and a `std::getline`-style reader. The reader stops at the first lone `\r` line, as the header-skipping loop of `clientThread` does, and reports the end of the stream when no such line comes.
- **StockServer**: one `clientThread` run end to end, on the whole request stream. `is >> dummy >> request` reads the second word of the stream, crossing line ends. A stream with fewer than two words, or one that ends before a lone `\r` line, leaves the header loop spinning forever (`Hangs`). An exception from `url_decode` is not caught, which ends the server (`Aborted`).
- **ServerMode**: how the homework 6 `main` picks between server mode and file mode from its first argument.
- **UrlParts**: `breakDownURL` of homework 5, including what it does on URLs it was not written for.
  - With no `//`, `npos + 2` wraps to 1.
  - A `:` in the path is taken for the port separator.
  - With no `/` after the host, `substr` throws.
- **QuotedWords**: `split` of homework 5. It reads words with `is >> std::quoted(word)`, as libstdc++ implements the extractor (section 27.7.6 of ISO/IEC 14882:2014). The partner is `os << std::quoted(word)`.
- **ShellScript**: `processCmds` and `processScript`. Each input line is classified and the effects are recorded as events: start child, wait for child, run nested script, undefined behaviour. Indexing an empty word list (`argList[0]` on a line of blanks, `argList[1]` after a lone SERIAL) is undefined behaviour in the C++ code. It is modelled as an `Undefined` event after which nothing is modelled. A SERIAL or PARALLEL line naming a URL that `breakDownURL` cannot split (`http://host` with no path) throws `std::out_of_range` in `serveClient`; nothing catches it, so the shell ends there (`Terminated`), and children started in parallel mode are never waited for.
- **WordCount**: `changePunct`, `wordCount` (with the dictionary as a set) and the report `getCount` returns.
- **Text**: shared pieces: `operator>>` words, decimal text (`std::to_string`), character search.

Where the code and the documented intent differ, the model follows the code:

- `sell` wraps around modulo 2^32.
- Malformed `%` escapes follow `std::stoi`: `%4` gives byte 4, `% A` gives byte 10, and `%G1` throws.
- `breakDownURL` misbehaves on URLs without `//`, without a path, or with a `:` in the path, and the model says exactly how.

## Model

| member | source | states |
|---|---|---|
| StockLedger.ProcessTrans | Homework/homework8/zarembmj_homework9.cpp:148-176 | a transaction blocks exactly when it is a `buy` of an existing stock whose balance is below the quantity; a completed one keeps every entry filed under its own name and, unless it is `reset`, drops no stock |
| StockLedger.CreateNew | Homework/homework8/zarembmj_homework9.cpp:63-71 | `create` of a new name adds exactly that key with the given balance, keeps every other entry, and replies "Stock N created with balance = B" |
| StockLedger.CreateDuplicate | Homework/homework8/zarembmj_homework9.cpp:65-73 | `create` of an existing name replies "Stock N already exists" and leaves the ledger, that balance included, unchanged |
| StockLedger.CreateOnce | Homework/homework8/zarembmj_homework8.cpp:55-66 | after one `create` of a name, a second one is refused and changes nothing |
| StockLedger.ResetClears | Homework/homework8/zarembmj_homework9.cpp:152-155 | `reset` empties the ledger whatever name and amount come with it, and replies "Stocks reset" |
| StockLedger.ResetUnknownWithoutReset | Homework/homework8/raodm_homework8.cpp:173-196 | without `reset` support, "reset" is an unknown command: "Stock not found" on a missing name, "Invalid request" on an existing one, ledger unchanged |
| StockLedger.MissingStock | Homework/homework8/zarembmj_homework9.cpp:159-164 | every command other than create (and reset where supported), unknown ones included, replies "Stock not found" on a missing name and changes nothing |
| StockLedger.InvalidRequestExactly | Homework/homework8/zarembmj_homework8.cpp:140-168 | the reply is "Invalid request" if and only if the name exists and the command is not one the variant knows |
| StockLedger.SellAdds | Homework/homework8/zarembmj_homework9.cpp:115-119 | `sell` adds the quantity modulo 2^32 to that stock only (exactly when it does not overflow), keeps the key set, and replies "Stock N's balance updated" |
| StockLedger.BuyGuarded | Homework/homework8/raodm_homework8.cpp:143-157 | `buy` waits if and only if the balance is below the quantity; otherwise it subtracts exactly the quantity from that stock only and gives the same reply as `sell` |
| StockLedger.StatusReadOnly | Homework/homework8/zarembmj_homework8.cpp:77-87 | `status` leaves the ledger unchanged and replies "Balance for stock N = B" with B the balance in decimal |
| StockLedger.SellsCommute | Homework/homework8/zarembmj_homework9.cpp:115-119 | two sells on one stock give the same ledger in either order, ending at the sum of both modulo 2^32 |
| StockLedger.BuyAfterSell | Homework/homework8/raodm_homework8.cpp:138-152 | a waiting `buy` goes through once a `sell` brings the balance up to the quantity, leaving exactly the difference |
| StockLedger.CreateStock | Homework/homework8/zarembmj_homework9.cpp:63-73 | `createStock` always replies; the ledger afterwards holds the old keys plus the name, keeps every old entry, and files a new name with the given balance |
| StockLedger.BalanceStatus | Homework/homework8/zarembmj_homework9.cpp:85-95 | the status text starts with "Balance for stock N = " and the digits after it read back as the stock's balance |
| StockLedger.UpdateBalance | Homework/homework8/zarembmj_homework9.cpp:110-132 | only a non-sell whose quantity exceeds the balance waits; otherwise the keys, the other stocks and the stock's name stay, a sell adds modulo 2^32 and a buy takes away exactly the quantity |
| StockLedger.IbmCreate | Homework/homework8/zarembmj_homework9.cpp:63-71 | `create ibm 100` on an empty exchange gives `{ibm: 100}` and "Stock ibm created with balance = 100" |
| StockLedger.IbmCreateAgain | Homework/homework8/zarembmj_homework9.cpp:72-73 | a second `create ibm 50` is refused and the balance stays 100 |
| StockLedger.IbmSell | Homework/homework8/zarembmj_homework9.cpp:115-132 | selling 25 of 100 leaves 125 |
| StockLedger.IbmStatus | Homework/homework8/zarembmj_homework9.cpp:85-95 | the status of a 125 balance reads "Balance for stock ibm = 125" |
| StockLedger.IbmBuyWaits | Homework/homework8/zarembmj_homework9.cpp:120-129 | buying 200 of 125 waits; after 100 more are sold it leaves 25 |
| Text.ParseNatToString | Homework/homework8/zarembmj_homework9.cpp:69-70 | the decimal text `std::to_string` prints reads back as the same number |
| Text.TokensOfJoin | Homework/homework8/zarembmj_homework9.cpp:225-226 | words joined by single spaces are read back by `operator>>` as exactly those words |
| UrlCodec.Stoi16Throws | Homework/homework8/main.cpp:42-43 | the conversion of the characters after `%` throws exactly when no hex digit follows an optional blank or sign |
| UrlCodec.FindFirstOf | Homework/homework8/raodm_homework8.cpp:300 | `find_first_of("%+", pos)` returns the first `%` or `+` at or after `pos`, or the end when there is none |
| UrlCodec.DecodeAt | Homework/homework8/raodm_homework8.cpp:301-309 | a `+` becomes one space; a `%` followed by two hex digits h and l becomes the one byte 16·h + l in place of three characters; a `%` at the very end throws; every replacement is one character standing for one to three characters of the input |
| UrlCodec.Decode | Homework/homework8/raodm_homework8.cpp:297-313 | decoding never makes the text longer; what it produces is stated by DecodeUnchanged, PlusBecomesSpace, DecodeLength and DecodeEncode |
| UrlCodec.ErrorNeedsPercent | Homework/homework8/raodm_homework8.cpp:300-309 | only a `%` can make decoding throw: text without one always decodes |
| UrlCodec.UrlDecode | Homework/homework8/raodm_homework8.cpp:297-313 | the in-place loop, with `pos` stepping past each replacement, returns the left-to-right decoding, or throws exactly when it does |
| UrlCodec.DecodeUnchanged | Homework/homework8/main.cpp:28-37 | a string with no `%` and no `+` comes back unchanged |
| UrlCodec.PlusBecomesSpace | Homework/homework6/main.cpp:96-98 | without escapes, each `+` becomes a space, every other character stays, and the length is kept |
| UrlCodec.DecodedPercentIsFinal | Homework/homework8/main.cpp:43-47 | a decoded `%25` is not read again as the start of an escape |
| UrlCodec.DecodedPlusIsFinal | Homework/homework8/raodm_homework8.cpp:302-310 | a decoded `%2B` stays `+` and is not turned into a space |
| UrlCodec.DecodeTwiceDiffers | Homework/homework8/main.cpp:37-49 | decoding is not idempotent: "%2541" decodes to "%41", which decodes to "A" |
| UrlCodec.MalformedEscapeThrows | Homework/homework6/main.cpp:100-103 | a `%` at the end, or one followed by a character that is no hex digit, blank or sign, throws |
| UrlCodec.DecodeLength | Homework/homework6/main.cpp:98-106 | a string whose every `%` starts two hex digits decodes, each escape shortening it by exactly two |
| UrlCodec.DecodeConcat | Homework/homework8/main.cpp:37-48 | a well-formed piece followed by anything decodes piece by piece |
| UrlCodec.DecodeEncode | Homework/homework6/main.cpp:93-109 | decoding undoes percent-encoding for every byte string |
| StockRequest.ReplaceSeparators | Homework/homework8/zarembmj_homework9.cpp:220-221 | each `&` and `=` becomes a space, every other character stays, and the length is kept |
| StockRequest.ReadUnsigned | Homework/homework8/zarembmj_homework9.cpp:224-226 | a word that does not start with a digit or sign reads as 0 |
| StockRequest.ReadSignedDigits | Homework/homework8/raodm_homework8.cpp:224-225 | a signed digit string reads as its value, UINT_MAX when above it, and as 2^32 minus the value after a `-` |
| StockRequest.ReadUnsignedNumeral | Homework/homework8/zarembmj_homework8.cpp:216-218 | a printed amount followed by a non-digit reads back as itself |
| StockRequest.ReadUnsignedNegative | Homework/homework8/zarembmj_homework9.cpp:224-226 | an amount `-n` wraps to 2^32 - n |
| StockRequest.ReadUnsignedOverflow | Homework/homework8/zarembmj_homework9.cpp:224-226 | an amount above UINT_MAX, signed or not, reads as UINT_MAX |
| StockRequest.ReadUnsignedBareSign | Homework/homework8/zarembmj_homework9.cpp:224-226 | a sign with no digit after it reads as 0 |
| StockRequest.Magnitude | Homework/homework8/zarembmj_homework9.cpp:224-226 | a digit run above UINT_MAX stores UINT_MAX; otherwise it stores its value, and after a `-` the value that added to it gives 0 modulo 2^32 |
| StockRequest.ParseQuery | Homework/homework8/zarembmj_homework9.cpp:218-226 | trans, name and amount are words 2, 4 and 6 once `&` and `=` are spaces, the amount being what `operator>>` reads from word 6; missing words give "", "" and 0 |
| StockRequest.ParseQueryOfTokens | Homework/homework8/zarembmj_homework9.cpp:225-226 | with six words or more the fields are the second, the fourth and the number read from the sixth, whatever the parameter names are |
| StockRequest.ParseTarget | Homework/homework8/raodm_homework8.cpp:216-225 | parsing fails exactly when `url_decode` throws, and otherwise reads the fields of the decoded target |
| StockRequest.DecodeFormatted | Homework/homework8/raodm_homework8.cpp:216 | a target with percent-encoded values decodes to the query with the values in clear |
| StockRequest.TokensFormatted | Homework/homework8/zarembmj_homework8.cpp:212-218 | a query in clear splits into exactly the six words "/?trans", trans, "name", name, "trade", amount |
| StockRequest.ParseQueryFormatted | Homework/homework8/zarembmj_homework8.cpp:209-218 | the fields read from a query in clear are the values it was built from |
| StockRequest.ParseFormatted | Homework/homework8/zarembmj_homework9.cpp:216-226 | the server reads back exactly the transaction, name and amount a client encoded into the target, for values that are non-empty words without blanks, `&` or `=`; any other byte (`%`, `+`, `?`, ...) survives the encoding |
| StockRequest.SeparatorInNameShifts | Homework/homework8/zarembmj_homework9.cpp:216-226 | a name `a&b` does not survive: the server reads the name `a` and the amount 0, because decoding comes before splitting and the amount is then read from the word "trade" |
| StockRequest.EncodedAmpersandSeparates | Homework/homework8/zarembmj_homework9.cpp:217-221 | decoding comes before splitting, so `%26` separates fields exactly like `&` |
| HttpFraming.GetLineSplits | Homework/homework8/zarembmj_homework9.cpp:215 | a line `getline` reads holds no newline and, with the rest, makes up the stream less that newline |
| HttpFraming.ReadHeadOf | Homework/homework8/zarembmj_homework9.cpp:215 | CRLF-terminated lines followed by a blank line are read back, up to the lone "\r", as exactly those lines and the body |
| HttpFraming.SendResponse | Homework/homework8/zarembmj_homework9.cpp:185-194 | every reply starts with the status line "HTTP/1.1 200 OK" and ends with the message itself |
| HttpFraming.ContentLengthOfHead | Homework/homework8/zarembmj_homework8.cpp:182 | the Content-Length header of a reply carries the message length in decimal |
| HttpFraming.ResponseRoundTrip | Homework/homework8/zarembmj_homework9.cpp:185-194 | every reply reads back as status "HTTP/1.1 200 OK", a Content-Length equal to the message length, and the message itself |
| Text.ReadWord | Homework/homework8/zarembmj_homework9.cpp:212-213 | one `operator>>` finds no word exactly in a blank stream, and otherwise returns the stream's first word, the words after it being those of what remains |
| StockServer.RequestTarget | Homework/homework8/zarembmj_homework9.cpp:212-213 | `is >> dummy >> request` fails exactly when the stream holds fewer than two words, and otherwise yields the stream's second word, wherever it lies |
| StockServer.ClientThread | Homework/homework8/zarembmj_homework9.cpp:209-239 | the thread never gets past the header loop exactly when the stream has fewer than two words or ends before a lone "\r" line; past it, the server aborts exactly when the target does not decode; a completed reply keeps the ledger's entries filed under their names |
| StockServer.RepliesAreFramed | Homework/homework8/raodm_homework8.cpp:61-68 | every reply, whatever the outcome, is a 200 whose Content-Length equals its body length |
| StockServer.TargetOfRequest | Homework/homework8/zarembmj_homework9.cpp:212-215 | a client's request, header lines included, yields the target the client formatted, and the header loop stops at its blank line |
| StockServer.ServesTransaction | Homework/homework8/raodm_homework8.cpp:209-239 | a request for a transaction runs exactly that transaction: the thread waits when it blocks, and otherwise replies with its message, framed |
| StockServer.OneWordHangs | Homework/homework8/zarembmj_homework9.cpp:212-215 | a request of one word and blanks, such as "GET\r\n\r\n", fails the extraction and leaves the header loop spinning forever |
| StockServer.TargetFromNextLine | Homework/homework8/zarembmj_homework9.cpp:212-213 | a request line of one word takes its target from the first word of the next line |
| ServerMode.StoiNumeral | Homework/homework6/main.cpp:130 | a number printed in decimal converts back to itself up to INT_MAX, and is out of range above it |
| ServerMode.StoiCanonical | Homework/homework6/main.cpp:130 | a numeral without leading zeros that converts prints back as that same numeral |
| ServerMode.StoiLeadingZero | Homework/homework6/main.cpp:130 | a leading "0" in front of digits changes nothing in the conversion |
| ServerMode.SelectMode | Homework/homework6/main.cpp:122-135 | file mode names the first argument; server mode listens on the decimal value of the first argument, or on 0 without one; only an all-digit argument can make the conversion throw |
| ServerMode.NoArgumentIsPortZero | Homework/homework6/main.cpp:124 | with no argument the server listens on port 0 |
| ServerMode.FileModeExactly | Homework/homework6/main.cpp:127-135 | file mode is chosen if and only if the first argument holds a character other than a digit |
| ServerMode.PortArgument | Homework/homework6/main.cpp:127-130 | every port up to INT_MAX, printed in decimal, selects that port, whatever other arguments follow |
| ServerMode.LeadingZeros | Homework/homework6/main.cpp:127-130 | "0080" selects port 80 |
| ServerMode.EmptyArgumentThrows | Homework/homework6/main.cpp:127-130 | an empty argument counts as all digits and makes `std::stoi` throw |
| ServerMode.PortTooLarge | Homework/homework6/main.cpp:130 | a port above INT_MAX makes `std::stoi` throw out_of_range |
| ServerMode.SignedPortIsFileName | Homework/homework6/main.cpp:127-135 | a signed number is taken for a file name |
| UrlParts.FindDoubleSlash | Homework/homework5/zarembmj_hw5.cpp:159 | `find("//")` gives the first position of "//", or none when there is no "//" at all |
| UrlParts.BreakDownShape | Homework/homework5/zarembmj_hw5.cpp:155-172 | `breakDownURL` throws exactly on an empty URL or one with no '/' after the host start; otherwise the path is the URL's tail from the first '/' after the host start, and the port is "80" when no ':' follows the host start |
| UrlParts.BreakDownUrl | Homework/homework5/zarembmj_hw5.cpp:155-172 | an empty URL throws; a successful breakdown's path starts with '/' and is a tail of the URL lying after the host start |
| UrlParts.ComposeWithPort | Homework/homework5/zarembmj_hw5.cpp:159-169 | `scheme://host:port/path` breaks down into exactly that host, port and path |
| UrlParts.ComposeDefaultPort | Homework/homework5/zarembmj_hw5.cpp:157-166 | `scheme://host/path` with no ':' after the scheme breaks down into that host, port "80" and that path |
| UrlParts.ColonInPath | Homework/homework5/zarembmj_hw5.cpp:161-168 | a ':' only in the path still ends the host, and the port runs to the end of the URL |
| UrlParts.NoSchemeDropsFirst | Homework/homework5/zarembmj_hw5.cpp:159 | without "//" the host starts at position 1, so the first character is lost |
| UrlParts.NoPathThrows | Homework/homework5/zarembmj_hw5.cpp:160-166 | an empty URL, or one with no '/' after the host, throws |
| UrlParts.HttpsExample | Homework/homework5/zarembmj_hw5.cpp:139-141 | "https://localhost:8080/~raodm/one.txt" gives ("localhost", "8080", "/~raodm/one.txt") |
| UrlParts.FtpExample | Homework/homework5/zarembmj_hw5.cpp:143-144 | "ftp://ftp.files.miamioh.edu/index.html" gives ("ftp.files.miamioh.edu", "80", "/index.html") |
| QuotedWords.Split | Homework/homework5/zarembmj_hw5.cpp:44-53 | `split` never gives more words than the line has characters, and none for a blank line; the words themselves are stated by SplitWithoutQuotes, SplitQuoted and UnterminatedQuote |
| QuotedWords.SplitWithoutQuotes | Homework/homework5/muid_hw5.cpp:35-44 | a line without '"' splits into exactly its whitespace-separated words, in order |
| QuotedWords.BlankLine | Homework/homework5/muid_hw5.cpp:35-44 | an empty or whitespace-only line gives no words |
| QuotedWords.ReadEscaped | Homework/homework5/muid_hw5.cpp:40 | inside quotes a backslash keeps the next character, and the word ends at the first unescaped '"' |
| QuotedWords.SplitQuotedOnly | Homework/homework5/muid_hw5.cpp:40 | one quoted word, spaces and all, is read as that word without its quotes |
| QuotedWords.SplitQuoted | Homework/homework5/zarembmj_hw5.cpp:44-53 | words written with `std::quoted` and separated by spaces split back into the same words, in order |
| QuotedWords.UnterminatedQuote | Homework/homework5/zarembmj_hw5.cpp:49-51 | a quote the line never closes loses its word and everything after it, keeping the words before it |
| QuotedWords.EscapedQuote | Homework/homework5/muid_hw5.cpp:40 | the line `"\""` is the one word `"` |
| ShellScript.ScriptSource | Homework/homework5/zarembmj_hw5.cpp:205-215 | a script is fetched as a URL exactly when its name starts with "http://", otherwise opened as a file |
| ShellScript.ClassifyLine | Homework/homework5/zarembmj_hw5.cpp:101-112 | a line is skipped exactly when empty or starting with '#', and ends the loop exactly when it is "exit"; a command runs exactly the words `split` gives, whose first is neither SERIAL nor PARALLEL; a script line takes its source from the second word and runs in parallel exactly for PARALLEL; indexing past the words happens exactly when any other line has no word, or only a lone SERIAL or PARALLEL |
| ShellScript.WaitAll | Homework/homework5/zarembmj_hw5.cpp:133-135 | the final loop waits for each pending child once, in list order |
| ShellScript.Process | Homework/homework5/zarembmj_hw5.cpp:94-136 | undefined behaviour or an uncaught exception is always the last event, and a run with no events had no child pending |
| ShellScript.ProcessCmds | Homework/homework5/zarembmj_hw5.cpp:94-136 | undefined behaviour or an uncaught exception is always the last event, and no lines give no events |
| ShellScript.WaitsFollowRuns | Homework/homework5/zarembmj_hw5.cpp:94-136 | unless undefined behaviour or an uncaught exception intervenes, from any point of the loop the children waited for are the pending ones followed by those started later, in start order |
| ShellScript.EveryChildWaited | Homework/homework5/zarembmj_hw5.cpp:94-136 | unless undefined behaviour or an uncaught exception intervenes, every child started is waited for exactly once, in start order |
| ShellScript.SerialWaitsAtOnce | Homework/homework5/zarembmj_hw5.cpp:116-120 | in serial mode each child is waited for right after it starts |
| ShellScript.ParallelWaitsLast | Homework/homework5/zarembmj_hw5.cpp:122-135 | in parallel mode no child is waited for before the last command has started |
| ShellScript.ExitEndsScript | Homework/homework5/zarembmj_hw5.cpp:101 | nothing after an "exit" line has any effect |
| ShellScript.CommentsIgnored | Homework/homework5/zarembmj_hw5.cpp:102-104 | an empty line or a '#' comment anywhere has no effect |
| ShellScript.ExitMustBeExact | Homework/homework5/zarembmj_hw5.cpp:101 | "exit" followed by blanks does not stop the loop but runs a command named exit |
| ShellScript.BlankLineIsUndefined | Homework/homework5/zarembmj_hw5.cpp:102-110 | a line of blanks is not skipped and indexes an empty word list |
| ShellScript.ScriptLine | Homework/homework5/zarembmj_hw5.cpp:110-112 | a line whose first word is SERIAL or PARALLEL runs the script named by its second word, in parallel exactly for PARALLEL |
| ShellScript.QuotedScriptName | Homework/homework5/zarembmj_hw5.cpp:107-112 | `SERIAL "a name"` runs the script of that name with its quotes removed |
| ShellScript.ScriptWithoutName | Homework/homework5/zarembmj_hw5.cpp:110-112 | SERIAL or PARALLEL with nothing after it indexes past the end of the word list |
| ShellScript.SourcesByPrefix | Homework/homework5/zarembmj_hw5.cpp:206-213 | "http://..." is fetched, while "https://..." is opened as a file |
| ShellScript.UrlWithoutPathEnds | Homework/homework5/zarembmj_hw5.cpp:180-209 | SERIAL or PARALLEL followed by "http://" and a host without a path runs that script, whose URL `breakDownURL` cannot split, so the shell ends |
| ShellScript.PendingChildAbandoned | Homework/homework5/zarembmj_hw5.cpp:110-135 | in parallel mode, a command followed by such a line starts its child and ends the shell without waiting for it |
| WordCount.ToLower | Homework/homework7/zarembmj_homework7.cpp:60 | `tolower` maps each upper-case ASCII letter to its lower-case letter and leaves every other character alone |
| WordCount.ReplacePunct | Homework/homework7/zarembmj_homework7.cpp:58 | each ASCII punctuation character becomes a space, every other character stays, and the length is kept |
| WordCount.LowerAll | Homework/homework7/zarembmj_homework7.cpp:60 | every character is lowered, and the length is kept |
| WordCount.ChangePunct | Homework/homework7/zarembmj_homework7.cpp:56-62 | `changePunct` keeps the length, leaves no punctuation and no upper-case letter, blanks punctuation, lowers letters and keeps everything else |
| WordCount.NormalizedUnchanged | Homework/homework7/zarembmj_homework7.cpp:56-62 | a line without punctuation or upper-case letters is unchanged |
| WordCount.ChangePunctIdempotent | Homework/homework7/zarembmj_homework7.cpp:56-62 | `changePunct` applied twice is the same as once |
| WordCount.AllWords | Homework/homework7/zarembmj_homework7.cpp:76-81 | every word counted is non-empty, without blanks, punctuation or upper-case letters |
| WordCount.CountKnown | Homework/homework7/zarembmj_homework7.cpp:83-85 | the English count is at most the word count, all of them when every word is known, none when none is |
| WordCount.CountKnownConcat | Homework/homework7/zarembmj_homework7.cpp:81-86 | counting two stretches of words adds up |
| WordCount.CountEach | Homework/homework7/zarembmj_homework7.cpp:81-86 | the inner loop counts every word and exactly the words the dictionary holds |
| WordCount.CountLine | Homework/homework7/zarembmj_homework7.cpp:78-86 | one line's counts are those of its words after `changePunct` |
| WordCount.CountWords | Homework/homework7/zarembmj_homework7.cpp:73-87 | `wordCount` counts all words of all lines and, among them, the known ones, never more known than all |
| WordCount.GetCount | Homework/homework7/zarembmj_homework7.cpp:118-121 | `getCount` is the file name followed by the report on the counts of its body |
| WordCount.Report | Homework/homework7/zarembmj_homework7.cpp:89-90 | every report starts with ": words="; that both counts read back from it is ReportRoundTrip |
| WordCount.ReportRoundTrip | Homework/homework7/zarembmj_homework7.cpp:89-90 | the two counts can be read back out of every report |
| WordCount.ReportInjective | Homework/homework7/zarembmj_homework7.cpp:89-90 | different count pairs never give the same report |
| WordCount.PunctuationSplits | Homework/homework7/zarembmj_homework7.cpp:58 | a punctuation mark between two words makes them two words |
| WordCount.DontIsTwoWords | Homework/homework7/zarembmj_homework7.cpp:76-86 | "don't" counts as the two words "don" and "t" |

## Left out

- Sockets and stream I/O are left out because they are effects, not logic. This covers `runServer`'s accept loop, reading the request from a socket, the reply written to a stream, `getCount`'s download over HTTP, and homework 5's `serveClient` connection. The model takes the request stream, the body lines and the script lines as parameters.
- Threads, the per-stock mutex and condition variable, and the admission gate (`threadCount`, `threadStatus`, `numThreads`) are left out because their meaning is concurrent. A `buy` that waits is the outcome `Blocked`. The race between `reset` and operations in flight is not modelled.
- `loadDictionary` is left out because it reads a file; the dictionary is a set parameter.
- Homework 7's `main`, which runs one thread per file, is left out because it is thread plumbing around `getCount`.
- `runCmds`, `ChildProcess` and fork/exec/wait are left out because they are OS calls. They are the `Run` and `Wait` events.
- The contents of nested scripts are left out because they are read from a file or a URL. `processScript` is the `Script` event with its source. The prompt written before each line is output only.
- The stock client and the homework 8 stub server (`homework8.cpp`) are left out: the first is a threaded load-generating client, and the second has no logic. Homework 6's `serveClient` is an empty stub.
- The `unsigned short` port of `tcp::endpoint` is left out because the truncation happens inside boost. `ServerMode.SelectMode` stops at the `int` that `std::stoi` returns.
- `ispunct` and `tolower` outside ASCII are left out because they are locale-dependent and undefined for negative `char` values. The "C" locale on ASCII is modelled.
- StockRequest.ParseFormatted: a value that is empty or holds a blank, `&` or `=` does not round-trip, because the target is decoded before `&` and `=` are turned into spaces; StockRequest.SeparatorInNameShifts shows the `&` case.
- WordCount.CountWords: counts are unbounded naturals, because the C++ `int` counters overflow only beyond 2^31 - 1 words.
- `std::stoi` of the digit argument in `ServerMode.StoiDigits` is modelled only for strings of digits, because `main` calls it on nothing else.
- The reader in HttpFraming reports the end of the stream as None. There the `getline` loop of `clientThread` spins forever, also for a client that ends its lines with a bare "\n"; StockServer.ClientThread turns that None into `Hangs`. Reading replies is a partner for `sendResponse`; stock_client.cpp is not part of this model.
- Homework 6's `main` printing "Unable to open" and returning 2 when the input file cannot be opened is left out, because opening a file is I/O; ServerMode.SelectMode stops at the file name.
- Whether a script URL that `breakDownURL` can split is reachable is left out, because connecting is I/O; only the exception `breakDownURL` throws is the `Terminated` event.
