# black_circle, verified

A Dafny model of the Twitter stream client `black_circle`: the path from bytes on a connection to the
contents of the tweet and user stores, the OAuth signing of its requests, and the console line editor.
`dafny verify dfyconfig.toml` checks all of it.

## What is modelled

| File | Component |
|---|---|
| `Text.dfy` | bytes as characters, spans, numbers, lines, delimiters |
| `HttpParse.dfy` | `parse_header`, `parse_chunk_size`, `split_params` and the printed response head |
| `HttpReader.dfy` | the response reader as a step relation (`Reader`, `Event`, `Run`) and as the object `HttpClient` |
| `HttpRuns.dfy` | every run of the reader on a chunked response (section 4.1 of RFC 7230) and on a Content-Length response |
| `HttpEnds.dfy` | what a head decides, where the reader stops, and one response written out |
| `Utf8.dfy` | `ucn_to_utf8` against section 3 of RFC 3629 |
| `Json.dfy` | the JSON grammar |
| `JsonStrings.dfy`, `JsonNumbers.dfy` | every spelling of a string and of a number, and what it is read as |
| `JsonPrint.dfy`, `JsonReads.dfy` | printed trees, the print/parse inverse, and its converse: what is read was printed |
| `JsonCompact.dfy` | objects printed without whitespace, to name particular texts |
| `Encoders.dfy` | `url_escape` with percent-decoding, `base64_encode` with the decoder of section 4 of RFC 4648 |
| `Params.dfy`, `OAuth.dfy` | the sorted parameter map and `token_requester` |
| `OAuthServer.dfy`, `OAuthTheorems.dfy` | a server following sections 3.4.1 and 3.5.1 of RFC 5849 |
| `Stores.dfy`, `StoreRuns.dfy`, `StoreLaws.dfy` | the stores, their replay and what every run keeps |
| `StoreEntities.dfy` | single entities key by key, delete entities, and the date index in terms of the entities |
| `Client.dfy` | the response handler and the end-to-end results |
| `Console.dfy` | `in_handler` and the CR/LF expansion |

Code that updates an object in place is a class whose methods are proved to take exactly the step of a
specification function (`View()` names its value); the theorems are about those functions. Grammar
expressions are recursive functions that return what is left of the text, or that nothing matched, or
that an expectation failed and threw.

Every run of the reader is a list of events: bytes arrive (any amount, at any time) or the handler of the pending
read runs, which needs the condition of that read to hold. `HttpRuns.Tracks` is the invariant that ties
buffer, pending read and deliveries to the position in the response. The condition the source asserts before it
takes a chunk out of the buffer is the precondition of `ChunkBodyReadComplete`; it is met in every run on any bytes.

Facts about libraries that the model relies on: `qi::hex` is a 32-bit unsigned parser, `qi::int_` a 32-bit signed
one, number parsers fail on overflow, `size_t` has 64 bits, an insertion into a `std::map` keeps the first value of
a name, `double_` is an optional sign, digits with an optional point on either side and an optional exponent, or a
spelling of not-a-number or infinity, the skipper runs before every token including the one under a negative
lookahead, and `std::string` is ordered byte by byte.

Results where the code does less than its purpose suggests, each with its exact condition: which JSON texts are read
at all, and that for example an integer with an exponent but no point makes `parse_json` throw
(`JsonReads.ReadExactly`, `JsonReads.ExponentThrows`); a JSON text whose root is no object or array is not read
(`JsonPrint.UndoneExactlyForContainers`); chunk sizes from 2^32 on are not read (`HttpParse.ChunkSizeParses`); a
Content-Length of zero is never delivered (`HttpRuns.PlainDelivered`) and a plain body stalls if and only if more
than the body was behind the head when the head completed (`HttpRuns.SurplusStalls`, `HttpRuns.SurplusCanStall`); a
bare CRLF in the place of a size line is looked at for ever (`HttpReader.CompleteDecreases`, `HttpRuns.RetryIsMet`);
a control escape is never read as section 7 of RFC 8259 means it, and of them only the line feed comes out right
once a tweet's carriage returns are replaced (`JsonStrings.MeantExactly`, `Client.TweetTextArrives`); the UTF-8
encoder is short by one octet on two ranges (`Utf8.RightExactly`); a query string without a closing ampersand loses
its greatest name and any query string stops at an empty value (`OAuthTheorems.OpenQueryLosesLast`,
`OAuthTheorems.ClosedQuerySplitsBack`); a user rejected for its name leaves a tweet without a user, which is so
after a run exactly when the tweet an id holds names a user that was never accepted (`StoreLaws.LookupsFindExactly`,
`StoreLaws.LookupFailsExactly`; `StoreLaws.SharedNameLosesUser` and `StoreLaws.RetweetLosesUser` give the inputs); a
backspace without a character to cancel pops from an empty vector (`Console.SafeExactlyWhenBalanced`).

## Model

| member | source | states |
|---|---|---|
| Text.DigitsAndSpaces | http_client_inst.cc:35 | the digits and the whitespace characters of the grammars, as lists of literal characters |
| Text.HexValue | http_client_inst.cc:22 | a number printed in hexadecimal, in either case at every digit and with any leading zeros, has that value |
| Text.HexRead | http_client_inst.cc:22 | and every text of hexadecimal digits is such a number |
| Text.SpelledParses | http_client_inst.cc:33 | the integer parser reads every spelling of a number in its range, whatever non-digit follows, and no other |
| Text.LexicalExactly | http_client_inst.cc:80 | `lexical_cast` reads a spelled integer between -2^64 and 2^64, modulo 2^64, and refuses any other |
| HttpParse.HeaderParses | http_client_inst.cc:25-41 | a printed response head followed by any bytes is read back: status, reason, fields, and exactly the bytes through the blank line are consumed |
| HttpParse.HeadReadExactly | http_client_inst.cc:25-41 | a head is read if and only if it was printed, with a status line in any spelling or, where it does not begin as one, without; and as what was printed; otherwise the parser throws |
| HttpParse.FirstWinsLookup | http_client_inst.cc:37-39 | of several fields with one name the first value is the one looked up, and no other names appear |
| HttpParse.ChunkSizeParses | http_client_inst.cc:17-24 | a size line in any spelling and with any extension gives the size it spells if and only if that is below 2^32; otherwise nothing is consumed and the size reads as zero |
| HttpParse.PrintedSizeParses | http_client_inst.cc:17-24 | a size printed in hexadecimal digits of either case with any leading zeros is read as the number printed if that is below 4294967296, and otherwise nothing is consumed |
| HttpParse.SizeReadExactly | http_client_inst.cc:17-24 | conversely, something is consumed for a size if and only if it is a printed size below that limit with a line feed behind it |
| HttpParse.SizeThrowsExactly | http_client_inst.cc:22-23 | the size line throws if and only if such a size has no line feed behind it |
| HttpReader.PlainTarget | http_client_inst.cc:80-82 | the buffer length at which the body read completes: the announced length, or 2^64 more when more is already buffered |
| HttpReader.Conservation | http_client_inst.cc:67-123 | in every run on any bytes, bytes consumed followed by the buffer equal bytes received |
| HttpReader.FreshWhileWaiting | http_client_inst.cc:67-70 | in every run, whenever a head is awaited the response has no status, no fields and no data |
| HttpReader.CompleteDecreases | http_client_inst.cc:72-123 | a completion decreases buffer length or, at equal length, the phase, if and only if it is not the retry on a bare CRLF, which changes nothing |
| HttpRuns.RetryIsMet | http_client_inst.cc:92-95 | a run from the start that meets the retry: a chunked head with a bare CRLF where the size line should be; no number of completions changes anything then |
| HttpReader.DrainBounded | http_client_inst.cc:92-123 | between two arrivals at most five completions per buffered byte plus the phase run, or the retry is met |
| HttpReader.HttpClient.StartRead | http_client_inst.cc:67-70 | the object waits for a head with a fresh response and touches nothing else |
| HttpReader.HttpClient.HeaderReadComplete | http_client_inst.cc:72-84 | in-place step after the head: consumes it, chooses chunked or plain reading, or stops on an exception |
| HttpReader.HttpClient.PlainBodyReadComplete | http_client_inst.cc:85-91 | in-place step after a plain body: one handler call, then a new head is awaited |
| HttpReader.HttpClient.ChunkSizeReadComplete | http_client_inst.cc:92-107 | in-place step after a size line: retry, read the body, or handle a chunk that is already there |
| HttpReader.HttpClient.ChunkBodyReadComplete | http_client_inst.cc:108-119 | in-place step after a chunk body: the handler gets the chunk with its CRLF, a zero chunk goes on to the trailer |
| HttpReader.HttpClient.LastChunkReadComplete | http_client_inst.cc:120-123 | in-place step after the trailer: a new head is awaited, nothing is consumed |
| HttpReader.HttpClient.Complete | http_client_inst.cc:67-123 | whichever read completed, the object takes the step of the specification |
| HttpRuns.RunTracks | http_client_inst.cc:67-123 | invariant of every run on a well-formed chunked response: buffer and bytes to come are the rest of the response from the position the pending read stands for |
| HttpRuns.DeliversPrefix | http_client_inst.cc:72-119 | at every moment of such a run the handler calls are a prefix of the nonzero chunks, each with exactly its bytes and CRLF, no byte is lost, and the size line is not retried |
| HttpRuns.QuiescentDelivered | http_client_inst.cc:92-119 | whenever no completion is enabled, every chunk received with its CRLF has been delivered |
| HttpRuns.AllDelivered | http_client_inst.cc:67-123 | when all has arrived and nothing completes any more, the calls are the nonzero chunks in order, with none for the zero chunk or the trailer |
| HttpRuns.SplitIndependent | http_client_inst.cc:67-123 | two runs on the same response, cut differently, end with the same calls |
| HttpRuns.InTheEnd | http_client_inst.cc:110-123 | when all has arrived and nothing completes any more: without a trailer the reader waits on, its last line end buffered; with one whose first name is a token every byte has been consumed |
| HttpRuns.TrailerParses | http_client_inst.cc:25-41 | whatever its names are, a trailer read as a head either throws or is consumed to its end, also when its first line reads as a status line; without a slash in its first name it never throws and its fields are the head |
| HttpRuns.TrailerHeadCompletes | http_client_inst.cc:72-84 | the trailer, with any names, is read again as a head and leads to no call |
| HttpRuns.TracksNeverRetries | http_client_inst.cc:94-95 | on a well-formed chunked response the buffer in front of a size line is never a bare CRLF |
| HttpRuns.CompletionsBounded | http_client_inst.cc:92-123 | on such a response the number of completions between two arrivals is bounded outright |
| HttpRuns.PlainDelivered | http_client_inst.cc:72-91 | a lone response with Content-Length n is delivered at most once, with exactly its body, and in the end if and only if n is not zero |
| HttpRuns.PrintedLengthFits | http_client_inst.cc:80 | a Content-Length printed in decimal is one that the conversion reads as the body length |
| HttpRuns.SurplusStalls | http_client_inst.cc:80-82 | in every run, a nonempty body is the first to be handled or none is, and none ever is if and only if more than the body was behind the head when the head completed |
| HttpRuns.SurplusCanStall | http_client_inst.cc:80-82 | for every response and surplus a run from the start that ends in the stall: all of it arrives before the head is read |
| HttpEnds.HeadDecides | http_client_inst.cc:75-83 | behind a printed head the first Transfer-Encoding decides for chunks, else the first Content-Length, zero when there is none, is awaited modulo 2^64, and one that is no number in range stops the reader |
| HttpEnds.HeadStops | http_client_inst.cc:75 | a head that cannot be read stops the reader where it is |
| HttpEnds.StoppedForGood | http_client_inst.cc:72-84 | a reader that has stopped never calls again, whatever arrives |
| HttpEnds.TenIsDelivered | http_client_inst.cc:72-119 | one chunked response written out, with a size line `a`: every cutting and schedule delivers its ten bytes in one call |
| Utf8.EncodeUcn | json_parser_inst.cc:19-36 | the loop refuses exactly the surrogates and otherwise returns the head and the continuation bytes of the specification |
| Utf8.RightExactly | json_parser_inst.cc:19-36 | the encoder gives the octets of RFC 3629 if and only if the code point is in [0,0x800), [0x2000,0x10000) or [0x80000,0x110000); elsewhere exactly the first continuation octet is missing |
| Utf8.RefusesExactly | json_parser_inst.cc:22 | among the codes up to 0x10FFFF exactly the scalar values are encoded |
| Utf8.LongExactly | json_parser_inst.cc:23-33 | on codes from 0x110000 to 2^31 the octets are those of RFC 2279 if and only if the code is below 0x200000 or in [0x2000000,0x4000000); elsewhere the first continuation octet is missing |
| Utf8.WrongIsUndecodable | json_parser_inst.cc:23-33 | the octets given elsewhere are refused by an RFC 3629 decoder |
| Utf8.LargeIsRefused | json_parser_inst.cc:23-33 | so are the octets of a code beyond the last scalar value |
| Utf8.EncodeAllDecodes | json_parser_inst.cc:19-36 | an encoded sequence of codes decodes, and then to itself, if and only if every code is in the right ranges |
| JsonStrings.PieceParses | json_parser_inst.cc:45-57 | each spelling of a character (plain, bare backslash or ampersand where no escape starts, backslash, control escape, entity, `\u`, pair of codes) is read as the encoder's bytes of its code point |
| JsonStrings.PrintedCodeParses | json_parser_inst.cc:45-55 | `\u` and a number below 65536 printed in four digits of either case is read as the bytes of that number, surrogates apart |
| JsonStrings.PrintedPairParses | json_parser_inst.cc:56 | a code point from 65536 on printed as its two surrogates is read as its bytes |
| JsonStrings.PiecesParse | json_parser_inst.cc:46-57 | a string up to its closing quote is read as the bytes of its code points |
| JsonStrings.StringDecodes | json_parser_inst.cc:45-57 | a printed string is always read; the bytes decode, and then to its code points, if and only if all of these are in the encoder's right ranges |
| JsonStrings.SpellText | json_parser_inst.cc:46-57 | any ASCII text with quote, backslash and ampersand escaped reads back as itself |
| JsonStrings.MeantExactly | json_parser_inst.cc:53 | a string is read as meant, with control escapes meaning what section 7 of RFC 8259 gives them, if and only if it has none, and up to carriage returns if and only if its control escapes are line feeds |
| JsonStrings.PiecesRead | json_parser_inst.cc:45-57 | conversely, whatever is read up to a closing quote is such a printed string, and read as its bytes |
| JsonNumbers.NumberParses | json_parser_inst.cc:43 | every spelling of a number, with sign, leading zeros, point, exponent or as a word, is read as the integer or the double text it denotes, the integer rule and its lookahead coming first |
| JsonNumbers.IntParses | json_parser_inst.cc:43 | every integer from -9223372036854775808 to 9223372036854775807 is read back as one, and every other as a double |
| JsonNumbers.PointMakesDouble | json_parser_inst.cc:43 | a decimal point after the digits makes the number a double, also with no digit behind it and also outside the integer range |
| JsonNumbers.WordsAre | json_parser_inst.cc:43 | the spellings of not-a-number, with or without a text in parentheses, in any mix of cases |
| JsonNumbers.InfinityAre | json_parser_inst.cc:43 | the spellings of infinity in any mix of cases |
| JsonNumbers.IntegerRead | json_parser_inst.cc:43 | conversely, what the integer rule takes is a printed integer of the value read |
| JsonNumbers.RealRead | json_parser_inst.cc:43 | and what the real-number rule takes after it, in front of the end of a list, is a printed number that is no integer |
| JsonPrint.WordParses | json_parser_inst.cc:43-44 | `true`, `false` and `null` are read back past all earlier alternatives |
| JsonPrint.ItemsParse | json_parser_inst.cc:60 | the elements of an array with any whitespace between tokens are read back in order |
| JsonPrint.MembersParse | json_parser_inst.cc:58-59 | the members of an object with any whitespace between tokens are read back in order |
| JsonPrint.DocParses | json_parser_inst.cc:42-60 | any printed value in front of a comma or closing bracket is read back and nothing more is consumed |
| JsonPrint.ParseUndoesPrint | json_parser_inst.cc:41-80 | printing any tree with an object or array root, with any whitespace and any trailing text, is undone by `parse_json`; the first of duplicate names counts |
| JsonPrint.UndoneExactlyForContainers | json_parser_inst.cc:42-80 | printing is undone if and only if the root is an object or an array; any other root gives the empty array |
| JsonReads.ValueRead | json_parser_inst.cc:42-60 | every value read in front of a comma or closing bracket is a printed tree with whitespace in front, read as that tree's value |
| JsonReads.ReadExactly | json_parser_inst.cc:41-80 | `parse_json` on every text: one that starts with no bracket gives the empty array; any other is read, and then as the value of its tree, if and only if it is a printed tree with anything behind it, and throws otherwise |
| JsonReads.ExponentThrows | json_parser_inst.cc:43 | one text that throws: an array with an integer that has an exponent but no point |
| Encoders.UnreservedAre | util.hpp:54-58 | the characters left alone are the letters, the digits and `-._~`, as a list of literal characters |
| Encoders.EscapeDecodes | util.hpp:43-65 | percent-decoding undoes `url_escape` on every byte string |
| Encoders.EscapeAlphabet | util.hpp:51-65 | escaped text consists of unreserved characters and percent triplets with upper-case digits |
| Encoders.Base64Encode | util.hpp:66-101 | the two loops compute the base64 text of the specification |
| Encoders.Base64Alphabet | util.hpp:67-75 | the 64 characters are those of table 1 of RFC 4648, in order |
| Encoders.Base64Decodes | util.hpp:66-101 | the decoder of RFC 4648 undoes the encoder on every byte vector |
| Encoders.Base64Length | util.hpp:77-96 | the length is four times the number of started triples |
| Params.GetPut | oauth.hpp:44-48 | an assignment to a parameter changes that name and no other |
| Params.GetErase | oauth.hpp:106-108 | an erasure removes that name and no other |
| Params.PutSorted | oauth.hpp:44-48 | the list stays the iteration order of the map |
| Params.SameLookups | oauth.hpp:44 | maps with equal lookups iterate equally |
| Params.LessIs | oauth.hpp:44 | the order of the map is that of byte strings: a proper beginning comes first, otherwise the first difference decides |
| Params.NamesAscend | oauth.hpp:44 | iterating the map gives names that ascend in that order |
| OAuth.TokenRequester.constructor | oauth.hpp:46-49 | the two initial parameters |
| OAuth.TokenRequester.SetConsumer | oauth.hpp:92-96 | sets key and secret in place |
| OAuth.TokenRequester.SetToken | oauth.hpp:97-101 | sets token and secret in place |
| OAuth.TokenRequester.SetPinNumber | oauth.hpp:102-105 | sets the verifier in place |
| OAuth.TokenRequester.ClearPinNumber | oauth.hpp:106-109 | removes the verifier in place |
| OAuth.TokenRequester.GenRequestSignature | oauth.hpp:59-69 | the in-place signing equals the specification's |
| OAuth.TokenRequester.StatusesUpdate | black_circle.cc:98-110 | the status is a parameter only while signing; header and body are those of the state left behind |
| OAuth.MethodAndVersionStay | oauth.hpp:46-69 | after any sequence of setter, signing and update calls the method and version parameters are there and the map is in order |
| OAuth.SignatureIsCurrent | oauth.hpp:59-69 | right after each signing the stored signature is base64 of the HMAC over the base string of the current parameters without the signature |
| OAuth.SettersStore | oauth.hpp:92-105 | each setter stores its value under its own name and changes no other name and no other secret |
| OAuth.EarlierSignatureIgnored | oauth.hpp:65-67 | the result of signing does not depend on an earlier signature |
| OAuth.PinIsUndone | oauth.hpp:102-109 | clearing undoes setting a PIN if and only if none was set before |
| OAuth.StatusIsTransient | black_circle.cc:104-106 | an update leaves no status and changes nothing but nonce, time and signature |
| OAuth.CredentialsKept | oauth.hpp:92-101 | consumer and token credentials do not disturb each other and may be set in either order |
| OAuthServer.RequestIsJoined | oauth.hpp:79-90 | the fold over the map is the joined list of combined pairs, in both styles |
| OAuthServer.QuerySplits | oauth.hpp:71-74 | a query string splits at its ampersands and first equals signs into the names and escaped values |
| OAuthServer.HeaderSplits | oauth.hpp:75-78 | an Authorization parameter list splits into the names and escaped values |
| OAuthTheorems.ServerRebuildsPost | black_circle.cc:98-110 | from header and form body a server normalising as in section 3.4.1.3 of RFC 5849 rebuilds exactly the signed message, and the signature sent is the one of that message |
| OAuthTheorems.ServerRebuildsGet | oauth.hpp:53-69 | the same from the query string alone |
| OAuthTheorems.CallsKeepPlain | oauth.hpp:44-109 | after any sequence of calls with byte arguments all names are unreserved characters, all values bytes, and the map is in order |
| OAuthTheorems.EveryUpdateVerifies | black_circle.cc:98-110 | so the server rebuilds and verifies every update at the end of any sequence of calls |
| OAuthTheorems.EverySigningVerifies | oauth.hpp:53-69 | and every query string signed at the end of any sequence of calls |
| OAuthTheorems.SignedInOrder | oauth.hpp:66 | after every sequence of calls with byte arguments the string that is signed lists its parameters in ascending byte order of their names, as section 3.4.1.3.2 of RFC 5849 demands |
| OAuthTheorems.MessageInjective | oauth.hpp:66-90 | equal messages have equal method, URI and parameter map, for methods without ampersand and names without equals sign or ampersand |
| OAuthTheorems.ClosedQuerySplitsBack | http_client_inst.cc:46-54 | the query string with a closing ampersand splits into the parameter map with escaped values if and only if no name and no value is empty |
| OAuthTheorems.OpenQueryLosesLast | http_client_inst.cc:46-54 | without it the result is the same map minus its greatest name, if and only if no other name or value is empty |
| Text.CrToLf | twitter.cc:89 | carriage returns and only those become line feeds |
| Stores.Store.AddUser | twitter.hpp:102-108 | in-place insertion that does nothing when id or name is taken |
| Stores.Store.AddTweet | twitter.hpp:133-139 | in-place insertion into the id and the date index that does nothing when the id is taken |
| Stores.Store.RemoveTweet | black_circle.cc:37 | in-place erasure from both indices |
| Stores.Store.TweetObject | twitter.cc:67-90 | the recursive constructor with its insertions, also when it throws |
| Stores.Store.InsertNew | twitter.cc:92-96 | construction followed by insertion; the id of the constructed tweet is returned |
| Stores.Store.Process | black_circle.cc:25-44 | one entity: stores and outcome are those of the specification |
| StoreRuns.ConstructReplays | twitter.cc:67-90 | the recursive constructor inserts users outermost first, then the inner tweets innermost first as long as no level lacks a property, and succeeds if and only if none does |
| StoreRuns.ProcessReplays | black_circle.cc:26-43 | handling an entity equals replaying its flat list of insertions and removals, also when it throws half-way |
| StoreRuns.RunReplays | twitter.cc:67-96 | every run equals the replay of all entities in order |
| StoreLaws.FirstTweetStays | twitter.hpp:136 | from any stores, an id holds what it held unless that was removed, and then the first tweet added under it since its last removal |
| StoreLaws.FirstUserStays | twitter.hpp:105-106 | a user is stored for good if neither its id nor its name is taken when it comes; otherwise the earlier one stays; ids and names are unique |
| StoreLaws.DateIndexFollows | twitter.hpp:133-139 | after every run the date index holds exactly the tweets of the id index, in order |
| StoreLaws.OrderedMeans | twitter.hpp:137 | in that order dates do not decrease and no id occurs twice |
| StoreEntities.DatesFollowCreatedAt | twitter.cc:81 | after every run of entities each stored tweet came from a complete status of one of them, with its id, text and date, and the date index stands in the order of the `created_at` members |
| StoreEntities.EqualDatesByArrival | twitter.hpp:137 | after every run, tweets of one date stand in the date index in the order in which they came |
| StoreEntities.CompleteIs | twitter.cc:70-88 | construction succeeds at a level if and only if user, text, id and created_at are there with their types |
| StoreEntities.OneKeyOneField | twitter.cc:70-87 | whatever is put under one key of a complete object, only the field of that key can change |
| StoreEntities.RequiredKeysSet | twitter.cc:70-81 | what the four required members set |
| StoreEntities.OptionalKeysSet | twitter.cc:82-87 | what the six optional members set; an explicit retweeted status id overrides the nested one |
| StoreEntities.OptionalKeysLacking | twitter.cc:28-35 | what stands where an optional member is absent, null or of another type |
| StoreEntities.UserKeys | twitter.cc:37-65 | what id and screen name of a user set, and that no other key changes them |
| StoreEntities.DeleteRemoves | black_circle.cc:31-37 | a delete entity, with any further members at its three levels, removes exactly the tweet of its id modulo 2^64 from both indices, changes no user and does not throw |
| StoreEntities.DeleteThrowsExactly | black_circle.cc:32 | a delete entity throws if and only if one of its three levels is absent or of another type, and then changes nothing |
| StoreEntities.OthersChangeNothing | black_circle.cc:27-40 | an object with neither text nor delete is passed over, anything but an object throws, and neither changes the stores |
| StoreEntities.TextGoesFirst | black_circle.cc:28-31 | with a text an entity is a tweet, whatever its delete member says |
| StoreLaws.UsersAreFound | twitter.hpp:146-147 | when no name is given to two ids, after every entity each stored tweet's user is found and no printing misses a user |
| StoreLaws.AllDefined | black_circle.cc:27-38 | and so no entity of such a run ends with a failed user lookup |
| StoreLaws.KnownExactly | twitter.hpp:105-106 | from any stores, an id is found among the users if and only if it was there or some addition of it met neither its id nor its name taken |
| StoreLaws.LookupsFindExactly | twitter.cc:67-90 | from any stores and after every run of any entities each stored tweet's user is found if and only if no id holds a tweet whose user was neither there nor ever accepted |
| StoreLaws.LookupFailsExactly | black_circle.cc:27-38 | from any stores and at any point of any run, retweets, duplicates and deletes included, the printing of an entity misses a user exactly when the tweet held under the id it names has a user that was neither there nor ever accepted |
| StoreLaws.LoneTweetFailsExactly | black_circle.cc:28-30 | for one complete tweet without nested status that condition, read off the stores: the tweet already under its id has no user, or there is none and its user's name is taken by another id |
| StoreLaws.SharedNameLosesUser | twitter.cc:69-73 | two tweets as JSON entities whose users share a name: the printing of the second finds no user |
| StoreLaws.RetweetLosesUser | twitter.cc:69-79 | one retweet as a JSON entity whose inner user has the outer user's name: it is printed, and the inner tweet's user is not found afterwards |
| StoreLaws.HoldsAllAdded | twitter.cc:67-96 | where ids and names determine each other the stores hold everything that was added |
| StoreLaws.OrderDoesNotMatter | twitter.cc:67-96 | there any reordering or repetition of the entities gives the same id-indexed stores |
| Client.TwitterClient.HttpHandler | black_circle.cc:125-166 | the dispatch in place: other statuses, exceptions and texts without a brace change nothing |
| Client.TwitterClient.ProcessTimeline | black_circle.cc:146-148 | the reversed loop, ended by the first exception |
| Client.ItemHandled | black_circle.cc:136-145 | one delivered chunk: a printed object is processed, a bare line end changes nothing |
| Client.OnlySuccessesCount | black_circle.cc:131-135 | for every kind of request, taking the responses with another status than 200 out of a sequence gives the same stores |
| Client.UpdatesChangeNothing | black_circle.cc:149-150 | the responses to status updates leave the stores as they were |
| Client.UpdateConnection | black_circle.cc:149-150 | end to end: so does an update connection, at every moment of every run on any bytes |
| Client.UnreadableChangesNothing | black_circle.cc:138 | a text that opens with a bracket and is no printed tree changes nothing |
| Client.WrongRootChangesNothing | black_circle.cc:27 | an array on the stream and an object as a timeline change nothing |
| Client.DeleteArrives | black_circle.cc:31-37 | a printed delete entity delivered in a chunk removes exactly its tweet |
| Client.DeleteText | black_circle.cc:32 | the text of the shortest delete entity, an item that the stream theorems cover |
| Client.TweetArrives | twitter.cc:67-90 | a printed tweet delivered in a chunk is stored with every field in its place, its user before it |
| Client.TweetTextArrives | twitter.cc:89 | the text of a printed tweet arrives, up to carriage returns, as meant if and only if its control escapes are line feeds |
| Client.StreamReachesStores | black_circle.cc:125-145 | end to end: whatever the stores hold at first, under every cutting of the bytes and every schedule they equal the replay of the entities delivered so far, and in the end of all of them; on the way exactly the entities that miss their user end undefined |
| Client.StreamUsersAreFound | black_circle.cc:28-30 | and where no name is given to two ids, by the stream or by entities handled before it, every stored tweet's user is found at every moment and no handled entity ended undefined |
| Client.ThrownIs | black_circle.cc:27-32 | whether an entity throws depends on the entity alone |
| Client.TimelineReplays | black_circle.cc:146-148 | the timeline equals the replay from the last entity to the first, cut after the first that throws |
| Client.TimelineReachesStores | black_circle.cc:146-148 | end to end for a Content-Length response carrying a printed array, from any stores; on the way exactly the entities that miss their user end undefined |
| Console.RewriteCounts | console.cc:199-203 | each turn of the loop removes exactly one backspace |
| Console.EditedIsTyped | console.cc:198-203 | the loop leaves what typing the line character by character leaves |
| Console.PipeAndLineAreTyped | console.cc:195-211 | under every cutting into reads, pipe followed by line equals the input with CR turned to LF and each backspace cancelling the nearest surviving character |
| Console.SafeExactlyWhenBalanced | console.cc:199-203 | no cutting pops from an empty vector if and only if backspaces never outnumber the characters of their line |
| Console.AtMostOneLine | console.cc:205-211 | a read sends nothing, or one whole line |
| Console.LineEditor.InHandler | console.cc:195-211 | the in-place loop and the sending of a line equal the specification's read |
| Console.ExpandLines | console.cc:212-216 | the loop that inserts into the string it indexes computes the expansion |
| Console.ExpandIs | console.cc:212-216 | the expansion puts a carriage return in front of exactly those line feeds that are not passed over behind another one, and adds, drops or moves nothing else |
| Console.EchoHasCr | console.cc:186-189 | every line feed of the result follows a carriage return |
| Console.EchoIsExpanded | console.cc:186-189 | expanding again changes nothing |

## Left out

- Sockets, TLS, name resolution and the stream wrappers; of the two asynchronous reads only the completion conditions are kept.
- Error codes and early end of stream, which the read handlers never look at: bytes keep arriving or stop.
- A second response on the same connection, pipelined or behind a zero chunk.
- StoreEntities.UserKeys: the remaining profile keys of a user are kept together as the object they are set from, not as fields.
- HttpReader.HttpClient.Handler: the response is recorded by value, so that a user's handler holding the shared response would see later chunks overwrite it is not modelled.
- Json.ParseDouble: a double is the text matched for it; rounding to a machine number is not modelled.
- OAuth.SignatureIsCurrent: HMAC-SHA1 is any function; nonce and time are arguments of the call.
- OAuthTheorems.ServerRebuildsPost: parameter names consist of unreserved characters, because the source never escapes names; the names it writes itself do (`OAuthTheorems.CallsKeepPlain`).
- Stores.UserOf: an id the user object does not carry is an arbitrary function of the object, standing for uninitialised memory; the profile fields other than id and screen name are kept as that object.
- Stores.TweetOf: dates are an uninterpreted function of their text; the flags that may stay unset are optional.
- Client.Handled: the reconnection when a stream is no longer open, and all output.
- Console.LineEditor.InHandler: characters of one byte, so that the conversion to wide characters and back is the identity; the writing of the echo itself.
- Request sending, the authorisation dialogue, program options, terminal modes, pipes and character conversion.
