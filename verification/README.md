# A Dafny model of ccl2's parsers

ccl2 is a C++ library of small services. This project models the four places in it where text or trees are
taken apart and put together, and proves what they promise:

- the streaming `multipart/form-data` parser: a five-state push parser over a sliding buffer, fed in chunks;
- the URL canonicaliser and parser: three passes over one buffer, a UTF-8 check, and component splitting;
- the route-pattern compiler, the matcher and the query splitter of the HTTP router;
- the type-directed conversion between values and JSON trees.

Where the C++ code works by changing things, so does the model: the multipart parser is a class over an array,
the passes of the canonicaliser rewrite an array with a reading and a writing index, the URL parser fills the
fields of a record object, and loops stay loops. Each such method is proved equal to a function on plain values
(`Drain`, `SafeDecode`, `Squeeze`, `Reduce`, `ParseUrl`, `BuildRule`, `ParseQuery`, `Encode`, `Decode`), and the
theorems are about these functions. What the functions mean is stated on the texts and trees themselves, with
the characters written out: which lines are type lines, which texts are messages, percent-encodings, URLs with
which components, and which trees write a value or yield one.

## Files

| file | content |
|---|---|
| `Options.dfy`, `Substring.dfy` | options; first occurrences of a text or a character |
| `Multipart.dfy` | parser state, events, and one call of the parse loop as the function `Drain` |
| `MultipartParser.dfy` | the class, its buffer operations and `Parse` |
| `MultipartChunking.dfy` | where the stream may be cut in two: the exact condition |
| `MultipartFeed.dfy` | runs of any number of chunks: the exact condition, failing runs included |
| `MultipartRuns.dfy` | the opening delimiter, the exact body of a part, refusing callbacks |
| `MultipartRoundTrip.dfy` | rendering a message and parsing it back |
| `MultipartAccepted.dfy` | exactly which texts are accepted as a message; an opening delimiter that is cut and not missed |
| `UrlText.dfy`, `UrlSegments.dfy` | the passes as functions; pass 3 as a stack machine over segments |
| `Utf8.dfy` | NUL-terminated text, the UTF-8 check, RFC 3629 |
| `UrlCanonify.dfy`, `UrlDecode.dfy` | the passes and the plain decoder over buffers |
| `UrlCanonical.dfy` | canonical form, meaning, idempotence |
| `UrlParse.dfy`, `UrlRoundTrip.dfy` | component splitting; printing and parsing back; when the parse is defined |
| `UrlReprint.dfy` | printing what was parsed; using a record again |
| `UrlEscapes.dfy` | percent-encodings: what an escape stands for |
| `UrlAccepted.dfy` | exactly which texts are accepted as a URL, with which components, and what a refusal leaves |
| `RouteQuery.dfy`, `Route.dfy`, `RouteRoundTrip.dfy` | query splitter, pattern compiler and matcher, soundness and completeness |
| `Json.dfy`, `JsonRoundTrip.dfy` | encoder and decoder; round trip; what decoding looks at |
| `JsonMeaning.dfy` | which tree writes a value; which trees are accepted, and what they yield |

A C++ `char` is a Dafny `char`; a byte is one below 256 and nothing depends on that bound. A NUL-terminated
buffer is an array that `Holds` a NUL-free text.

## Properties that the code has only under a condition

- Cutting the multipart stream in two is harmless exactly under `MayCut` (`CutExactly`), and a run of any number of
  chunks is like one call exactly under `CutsAllowed` (`FeedExactly`). What can go wrong is a closing delimiter
  followed by anything but another one, a header line that is resumed behind an earlier line of the same block
  and is longer than 8192 bytes, because only then is its length looked at, and a line given up as too long one
  byte before its end shows that it is not.
- In its first state the parser throws away a chunk that does not hold the whole opening delimiter, so a
  delimiter cut in two is lost (`OpenedExactly`, `CutOpening`). Such a cut does no harm exactly when the second
  text holds another delimiter and the parser comes to the same end from there (`CutUnopened`), which does happen
  (`HarmlessStraddle`).
- The UTF-8 check adds, for each continuation byte it checks, the byte behind it to the value
  (`src/url.cpp:60-62`), although the comment at `src/url.cpp:23-26` promises to reject malformed, overlong and
  invalid sequences. It enforces the table of RFC 3629 on the third byte of a unit where the standard has it on
  the second (`AcceptsSwapped`, `UnitAgreement`, `TextAgreement`, `Disagreement`), and agrees with the standard
  on every text without the four lead bytes that narrow the range (`AgreesWithRfc`).
- Behind an `@` the host scan looks at the next character but one. Exactly when the authority ends the text with an
  `@` that no other divider precedes, a leading `@` and the character skipped behind it apart, the text is read
  past its end, which the model reports as the outcome `PastEnd` (`UndefinedExactly`; `http://u@` is such a text).
- The record of a URL is not cleared: what a fresh record accepts, a used one accepts with the same components
  exactly when it holds no user, and no query or fragment that the new target does not replace (`UsedRecord`).
- The values a route pattern was filled with come back exactly when no other values make the same path and are longer
  where they first differ (`ComesBackExactly`), because the search takes the longest first. For all values without
  a slash that holds exactly of the patterns with one key per segment (`SlashFreePromise`); what happens
  otherwise is in `TwoInOneSegment` and `SlashInValue`.
- A route pattern with metacharacters outside its keys compiles to another expression, or to none at all. When it is
  made of plain characters and groups of its own, its rule accepts nothing (`PlainOrDead`).
- The test for a host that is just `*` compares the character behind it (`src/url.cpp:315`) and never holds; only
  the `*:` test is modelled as having an effect.

## Model

| member | source | states |
|---|---|---|
| Multipart.TrimExact | include/ccl2/http/multipart_parser.h:28-42 | trimming takes exactly the spaces and tabs around a text away, and everything when there is nothing else |
| Multipart.StartsExactly | include/ccl2/http/multipart_parser.h:99-103 | the comparison holds exactly when the characters are the same or the two cases of one letter |
| Multipart.HeaderExactly | include/ccl2/http/multipart_parser.h:100-116 | a header line sets the type exactly when it is "content-type:" in any spelling, blanks, the type, and blanks; any other line is left to the recogniser |
| MultipartParser.Trim | include/ccl2/http/multipart_parser.h:28-37 | the two independent scans stop at the edges of the untrimmed text |
| MultipartParser.StartWithCaseIgnore | include/ccl2/http/multipart_parser.h:184-194 | the loop computes the prefix test that `StartsExactly` characterises on the characters |
| MultipartParser.MultipartFormDataParser.constructor | include/ccl2/http/multipart_parser.h:203-286 | a new parser is in state 0, not valid, with nothing unread and nothing reported |
| MultipartParser.MultipartFormDataParser.SetBoundary | include/ccl2/http/multipart_parser.h:49-53 | both delimiters are derived from the boundary and the parser becomes usable |
| MultipartParser.MultipartFormDataParser.StartWith | include/ccl2/http/multipart_parser.h:208-219 | true exactly when the unread text has the given text at that place |
| MultipartParser.MultipartFormDataParser.BufFind | include/ccl2/http/multipart_parser.h:231-260 | the first occurrence in the unread text, or its length; both nested scans end |
| MultipartParser.MultipartFormDataParser.BufAppend | include/ccl2/http/multipart_parser.h:262-280 | whatever shifting or growing happens, the unread text becomes the old one followed by the new bytes |
| MultipartParser.MultipartFormDataParser.BufErase | include/ccl2/http/multipart_parser.h:282-282 | drops exactly that many unread bytes |
| MultipartParser.MultipartFormDataParser.ParseLine | include/ccl2/http/multipart_parser.h:102-116 | one header line updates content type or name and file name, or makes the parser invalid |
| MultipartParser.MultipartFormDataParser.ParseHeaders | include/ccl2/http/multipart_parser.h:90-123 | the in-place loop over header lines has the effect of `HeaderLoop` on values |
| MultipartParser.MultipartFormDataParser.ParseOpening | include/ccl2/http/multipart_parser.h:68-79 | state 0 has the effect of one turn on values, whatever the callbacks |
| MultipartParser.MultipartFormDataParser.ParseBody | include/ccl2/http/multipart_parser.h:125-149 | state 3 has the effect of one turn: deliver up to the delimiter, or all but the held-back tail |
| MultipartParser.MultipartFormDataParser.ParseBoundary | include/ccl2/http/multipart_parser.h:150-170 | state 4 has the effect of one turn: next part, end with the epilogue dropped, or wait |
| MultipartParser.MultipartFormDataParser.Parse | include/ccl2/http/multipart_parser.h:57-175 | a call refines `Drain` on the unread text plus the chunk: state, validity, file, unread text, events and result; the loop ends by the pair of unread bytes and "state is 1" |
| Substring.FindFirst | include/ccl2/http/multipart_parser.h:231-260 | the search result is the first occurrence, and the length exactly when there is none |
| Substring.FindPlanted | include/ccl2/http/multipart_parser.h:129-130 | a delimiter whose first character does not recur in it is found exactly where it was put behind text without it |
| MultipartChunking.DrainLog | include/ccl2/http/multipart_parser.h:57-175 | with callbacks that agree, what was reported before a call has no influence on it |
| MultipartChunking.TurnExtend | include/ccl2/http/multipart_parser.h:66-172 | a turn that goes on does the same, with the same events, when more text is already in the buffer |
| MultipartChunking.BodyExtend | include/ccl2/http/multipart_parser.h:125-149 | content delivered early is exactly the front of what the longer buffer delivers at once |
| MultipartChunking.Extend | include/ccl2/http/multipart_parser.h:57-175 | a call on the joined text goes on where the call on its front ended, in one of three ways |
| MultipartChunking.HeaderFirst | include/ccl2/http/multipart_parser.h:80-124 | outside a body a header is reported before any content, and without one the parser stays outside a body |
| MultipartChunking.AfterClose | include/ccl2/http/multipart_parser.h:150-170 | after the end, exactly silence or a second closing delimiter leaves everything unchanged |
| MultipartChunking.LateLine | include/ccl2/http/multipart_parser.h:85-89 | resuming a header line gives the uninterrupted result exactly when it ends within the limit, or is unknown, complete and no close was seen |
| MultipartChunking.CutExactly | include/ccl2/http/multipart_parser.h:57-175 | from states 1 to 4, two calls have the effect of one call on the joined text if and only if `MayCut` holds |
| MultipartFeed.FailExactly | include/ccl2/http/multipart_parser.h:86-116 | when the call on the front of a text returns false, the call on all of it does the same if and only if `CleanFailure` holds |
| MultipartFeed.NotClosed | include/ccl2/http/multipart_parser.h:150-170 | behind a boundary, text that does not begin with the closing delimiter leaves something unread, begins a part or fails, however it is cut |
| MultipartFeed.LateFed | include/ccl2/http/multipart_parser.h:85-89 | a header line over the limit that is resumed in any number of chunks is refused with nothing consumed |
| MultipartFeed.FeedExactly | include/ccl2/http/multipart_parser.h:57-175 | from states 1 to 4, a run of any number of chunks has the state, result and merged events of one call on the joined text if and only if `CutsAllowed` holds |
| MultipartFeed.TamePrefix | include/ccl2/http/multipart_parser.h:57-175 | every prefix of a text with short header lines and nothing behind the close may be cut there, or fails as the whole text does |
| MultipartFeed.FeedJoined | include/ccl2/http/multipart_parser.h:57-175 | on a tame text, one whose header lines, finished or not, stay under 8192 bytes and that has nothing behind its closing delimiter, any number of cuts anywhere gives the state, result and merged events of one call, accepted or not |
| MultipartRuns.OpeningDropped | include/ccl2/http/multipart_parser.h:68-79 | in state 0 a chunk without the opening delimiter vanishes, and one with it starts the first part behind it |
| MultipartRuns.OpenedExactly | include/ccl2/http/multipart_parser.h:68-79 | a run leaves state 0 if and only if one chunk holds the whole opening delimiter |
| MultipartRuns.CutOpening | include/ccl2/http/multipart_parser.h:68-72 | the same bytes leave or do not leave state 0 depending on the cut |
| MultipartRuns.CutOpened | include/ccl2/http/multipart_parser.h:68-79 | from state 0, a cut behind the opening delimiter is harmless if and only if `MayCut` holds behind it |
| MultipartRuns.CutUnopened | include/ccl2/http/multipart_parser.h:68-79 | from state 0, a cut before the opening delimiter is harmless if and only if it goes through no opening delimiter, or the second text holds another one and the calls behind the two agree |
| MultipartAccepted.HarmlessStraddle | include/ccl2/http/multipart_parser.h:68-79 | for any boundary fit for a content type, a cut through the opening delimiter that loses it and still changes nothing |
| MultipartRuns.BodyExact | include/ccl2/http/multipart_parser.h:125-149 | over any chunks, the content before the next header is the stream up to the first delimiter, or all but the tail that may still begin one; no delimiter byte is delivered and none is missed |
| MultipartRuns.Refusal | include/ccl2/http/multipart_parser.h:85-149 | for any callbacks, the first refusal is the last event of the call, which returns false with an invalid parser |
| MultipartRuns.RefusedFront | include/ccl2/http/multipart_parser.h:85-149 | for any callbacks, a call is the call with agreeing callbacks, or is refused and reports a front part of what that one reports |
| MultipartRoundTrip.PartStep | include/ccl2/http/multipart_parser.h:80-149 | one rendered part produces its header, its exact body, and the state behind its delimiter |
| MultipartRoundTrip.GatherExpected | include/ccl2/http/multipart_parser.h:57-58 | a consumer that starts a part at each header and appends the content recovers the list of parts |
| MultipartRoundTrip.RoundTrip | include/ccl2/http/multipart_parser.h:49-175 | a rendered message, with "Content-Type:" in any spelling and any blanks around the types, cut anywhere behind its opening delimiter, yields exactly its parts in order and a valid, empty parser |
| MultipartAccepted.EntryRead | include/ccl2/http/multipart_parser.h:80-149 | from state 1, any block of known header lines, of which only the first is held to the limit, and a body up to the first delimiter are reported as one part |
| MultipartAccepted.MessageRead | include/ccl2/http/multipart_parser.h:57-175 | a message, with anything behind its closing delimiter, is accepted and delivers exactly its parts |
| MultipartAccepted.MessageFound | include/ccl2/http/multipart_parser.h:57-175 | the converse: a call that ends valid was given a message, entry by entry |
| MultipartAccepted.ValidExactly | include/ccl2/http/multipart_parser.h:57-175 | a call from state 1 makes the parser valid if and only if its text is a message |
| MultipartAccepted.FreshExactly | include/ccl2/http/multipart_parser.h:57-175 | a call of a new parser makes it valid if and only if a message stands behind the first opening delimiter |
| MultipartAccepted.OneReading | include/ccl2/http/multipart_parser.h:80-170 | no text is a message with two different lists of parts |
| UrlCanonify.SafeDecodePass | src/url.cpp:110-139 | pass 1 in place: fails exactly on a bad escape, with the decoded front before the untouched rest, and otherwise leaves `SafeDecode` of the text over the front of the buffer |
| UrlCanonify.SqueezePass | src/url.cpp:141-158 | pass 2 in place leaves `Squeeze` of the text over the front of the buffer, and what lay behind it |
| UrlCanonify.PopPass | src/url.cpp:169-173 | the writing index moves back to the last kept slash, or to the start |
| UrlCanonify.StartsSegment | src/url.cpp:166-179 | true exactly when the whole dot segment stands at the reading index |
| UrlCanonify.ReducePass | src/url.cpp:160-193 | pass 3 in place leaves `Reduce` of the text and behind it what was passed over; the writing index never passes the reading index |
| UrlCanonify.UrlCanonifyUri | src/url.cpp:103-203 | succeeds exactly when the escapes are good and the result passes the UTF-8 check, and returns that result; a refused text leaves `Torn` of it |
| UrlCanonify.TornLength | src/url.cpp:103-203 | the buffer that a refused text leaves is as long as the text |
| UrlCanonify.TornEscape | src/url.cpp:110-118 | at the first bad escape the text before it is decoded, and the rest of the buffer is as it was |
| UrlCanonify.BadEscape | src/url.cpp:110-118 | every text that pass 1 refuses has such a place |
| UrlCanonify.TornText | src/url.cpp:139-201 | a result that fails the UTF-8 check is what a reader of the buffer finds |
| UrlSegments.SplitText | src/url.cpp:160-193 | splitting a path at its slashes inverts joining its segments |
| UrlSegments.ReduceIsStack | src/url.cpp:160-193 | pass 3 is the stack machine: "." segments vanish, ".." takes the last segment (or the head) back, the suffix is copied |
| UrlDecode.NniUrlDecode | src/url.cpp:77-101 | succeeds exactly when every escape is good and the result fits, and writes the decoded bytes |
| UrlEscapes.EscapeRead | src/url.cpp:88-93 | the escape of any byte, its two digits in either case, stands for that byte |
| UrlEscapes.DecodeExactly | src/url.cpp:77-101 | the decoder accepts exactly the percent-encodings of texts, with any of the bytes escaped and every percent sign, and gives the text that was encoded |
| UrlEscapes.SafeDecodeEncoded | src/url.cpp:110-139 | pass 1 replaces exactly the escapes of unreserved characters and of bytes from 0x80 on, and writes the others with upper-case digits |
| UrlCanonical.MeaningKept | src/url.cpp:77-139 | pass 1 rejects exactly what the plain decoder rejects, and its result decodes to the same bytes |
| UrlCanonical.SafeDecodeNormal | src/url.cpp:110-139 | after pass 1 every percent sign starts an upper-case escape of a byte that needs one |
| UrlCanonical.SafeDecodeSuffix | src/url.cpp:110-139 | pass 1 neither makes nor hides a suffix mark and treats the suffix on its own |
| UrlCanonical.CanonicalForm | src/url.cpp:103-203 | every result has single slashes and no dot segment in its path, only needed upper-case escapes, pass 1's image of the suffix, and the path the stack machine makes of the input's |
| UrlCanonical.SqueezeSegments | src/url.cpp:141-158 | pass 2 removes the empty segments of a path, but for an empty last one, and nothing else |
| UrlCanonical.CanonicalSegments | src/url.cpp:103-203 | the segments of a result are those of the decoded path without the empty ones, resolved |
| UrlCanonical.Idempotent | src/url.cpp:103-203 | canonifying a result succeeds and returns it unchanged |
| UrlCanonical.FixedExactly | src/url.cpp:103-203 | canonifying leaves a text as it is if and only if its escapes are normal, its path has single slashes and no dot segment, and its units pass the check |
| Utf8.ReadTail | src/url.cpp:56-63 | reads exactly the announced continuation bytes and never past the terminating NUL, with the value as coded |
| Utf8.RangeTests | src/url.cpp:64-72 | the three tests on the value come to one range test on the third byte; the byte behind the unit plays no part |
| Utf8.UrlUtf8Validate | src/url.cpp:27-75 | returns 0 exactly for the texts all of whose units pass the check as coded |
| Utf8.UnitsUnique | src/url.cpp:32-73 | a text falls into lead bytes with their continuation bytes in at most one way, and is accepted exactly when each unit passes |
| Utf8.AcceptedUnits | src/url.cpp:32-73 | accepted are exactly the texts that fall into units that pass the check |
| Utf8.AcceptsSwapped | src/url.cpp:55-72 | a text is accepted if and only if it is well-formed by RFC 3629 with the second and third byte of each longer unit exchanged |
| Utf8.UnitAgreement | src/url.cpp:55-72 | on one unit, check and standard differ exactly when a narrowing lead has just one of the two bytes in range |
| Utf8.LegalExactly | src/url.cpp:23-26 | the table of RFC 3629 used for the comparison allows exactly the shortest units of the code points that are no surrogates |
| Utf8.TextAgreement | src/url.cpp:55-72 | a text that the check or the standard accepts is accepted by both if and only if no unit of it has just one of the two bytes in range |
| Utf8.AgreesWithRfc | src/url.cpp:27-75 | without the four narrowing leads exactly the well-formed texts are accepted |
| Utf8.Disagreement | src/url.cpp:55-72 | a well-formed text that is refused and an overlong one that is accepted |
| UrlParse.UrlDefaultPort | src/url.cpp:205-220 | the table lookup is `DefaultPort` |
| UrlParse.UrlT.UrlParseRequri | src/url.cpp:222-262 | succeeds exactly when the canonicaliser does; path, query and fragment are split off, absent ones keep their old values; on failure only the target changes, to what the canonicaliser left |
| UrlParse.UrlT.FindHost | src/url.cpp:298-312 | the scan finds user, host start and host end of `ScanAuthority`, including its skipped character behind '@', and keeps the first user when it refuses a second |
| UrlParse.UrlT.HostBounds | src/url.cpp:327-353 | host name and port part of the host text, or failure for an unclosed or badly followed bracket |
| UrlParse.UrlT.PortAt | src/url.cpp:355-369 | the port as written, the scheme's default without a colon, or no port |
| UrlParse.UrlT.UrlParse | src/url.cpp:269-376 | verdict and every field of the record are those of `ParseUrl`, after a refusal too, and up to the read past the end where there is one |
| UrlAccepted.StoiExactly | src/url.cpp:361-365 | a text gives a number exactly when it is blanks, an optional sign, and digits within the range of 32 bits, whatever follows them |
| UrlAccepted.DefaultExactly | src/url.cpp:205-220 | the eight schemes with their ports, and no other |
| UrlAccepted.PortExactly | src/url.cpp:355-373 | no colon gives the port of the scheme, a colon the number behind it; exactly a known port or a number other than -1 is accepted |
| UrlAccepted.HostExactly | src/url.cpp:327-373 | host name and port are accepted exactly when the host text is a name, in brackets or without a colon, and a good port |
| UrlAccepted.AuthorityRead | src/url.cpp:294-322 | user, host and rest are found where they stand in the text, for every form of authority |
| UrlAccepted.AcceptedExactly | src/url.cpp:269-376 | a fresh record accepts a text with certain components if and only if they stand in it: scheme, "://", user, host, port and a target that is canonicalised and divided |
| UrlAccepted.UnixAccepted | src/url.cpp:289-292 | a "unix" URL is its path, and nothing else in the record changes |
| UrlAccepted.NoScheme | src/url.cpp:285-287 | a text without "://" behind its first run of other characters than a colon is refused |
| UrlAccepted.PortRefused | src/url.cpp:355-373 | a port that is empty, no number, or -1 is refused, for every scheme, target and record |
| UrlAccepted.SecondAt | src/url.cpp:303-309 | a second '@' behind a user is refused, and the user stays in the record |
| UrlAccepted.StaleRefused | src/url.cpp:303-306 | with a user left in the record the first '@' is refused |
| UrlAccepted.RefusedRecord | src/url.cpp:318-373 | what a refusal behind a good authority leaves: user and host, then the target, torn or divided, then host name and port -1 |
| UrlRoundTrip.UnsplitSplit | src/url.cpp:232-259 | the target is path, then '?' and query, then '#' and fragment, with no mark in the path and no '#' in the query |
| UrlRoundTrip.SplitUnsplit | src/url.cpp:232-259 | separable components are found again |
| UrlRoundTrip.RequriFixpoint | src/url.cpp:222-262 | parsing the stored target again succeeds with the same record |
| UrlRoundTrip.StoiDigits | src/url.cpp:361-365 | a digit string within int range has its decimal value |
| UrlRoundTrip.DecimalValue | src/url.cpp:361-365 | every number is the value of its decimal digits |
| UrlRoundTrip.UrlRound | src/url.cpp:269-376 | printed components, with a plain or bracketed host, optional user and port, and a canonical target, parse to exactly themselves |
| UrlRoundTrip.UndefinedExactly | src/url.cpp:298-312 | the scan reads past the terminator if and only if the record has no user and the text behind the scheme ends with an '@' that is its first divider, or the first behind a leading '@' and the character skipped after it |
| UrlRoundTrip.UserOnly | src/url.cpp:303-311 | in particular an authority that is a user and nothing else takes the scan past the end |
| UrlReprint.ScanGood | src/url.cpp:298-312 | what the scan stores holds no divider behind its first character, and it stops where the authority ends |
| UrlReprint.ReparsePrinted | src/url.cpp:269-376 | whatever a fresh record accepts, "unix" URLs apart, can be printed from its components, and the printed text parses to the same components |
| UrlReprint.StaleUser | src/url.cpp:303-308 | with a user left in the record no '@' is accepted and the old user stays |
| UrlReprint.UsedRecord | src/url.cpp:222-376 | a used record gives the components a fresh one gives if and only if it holds no user, and no query or fragment that is not replaced |
| RouteQuery.HttpRouterQueryParse | src/http/router.cpp:52-84 | result and map are those of `ParseQuery`, fields put in before a bad one included |
| RouteQuery.AcceptedExactly | src/http/router.cpp:58-83 | accepted are exactly the texts all of whose '&'-fields, bar one empty last one, have a '=' with something behind it |
| RouteQuery.PairText | src/http/router.cpp:64-76 | a field is its key, the first '=', and its value |
| RouteQuery.FrontStored | src/http/router.cpp:52-84 | accepted or not, the map holds exactly what the fields before the first bad one say |
| RouteQuery.FirstWins | src/http/router.cpp:77-77 | what is in the map stays, any other key gets the value of its first field |
| RouteQuery.QueryRound | src/http/router.cpp:52-84 | the '&'-joined text of a list of pairs parses to the first-wins map of the list |
| Route.HttpRouterPathParse | src/http/router.cpp:28-50 | an empty key is refused; otherwise the rewriting loop ends with the regex text and keys of `Compile`, and the anchored text is read as a rule of plain characters and one group per "(\S+)", or is foreign |
| Route.EmptyKeyExactly | src/http/router.cpp:33-43 | a pattern is refused exactly when some ':' is at its end, or before a slash or another ':' |
| Route.OneCharacter | src/http/router.cpp:48-49 | of the single characters exactly the fourteen operators are not matched literally |
| Route.GroupCharacter | src/http/router.cpp:44-44 | a group takes any character but the six of whitespace |
| Route.SearchSound | src/http/router.cpp:95-98 | what the longest-first search captures is a match |
| Route.SearchFirst | src/http/router.cpp:95-98 | when there is a match the search finds one, and what it finds is longer than any other match where they first differ |
| Route.CompiledReads | src/http/router.cpp:28-50 | the compiled text of a pattern without metacharacters outside its keys reads as its literals with one group for each key |
| Route.ReadJoin | src/http/router.cpp:44-49 | a group that is put in does not change how the text before it reads |
| Route.GroupsOfRule | src/http/router.cpp:44-49 | a rule has as many groups as keys if and only if its pattern is plain, and never fewer |
| Route.PlainOrDead | src/http/router.cpp:93-102 | a pattern that brings groups of its own compiles to a rule that accepts no path |
| Route.HttpRouterPathApplyRule | src/http/router.cpp:93-110 | result and map are those of `ApplyRule`; on failure the map is unchanged |
| Route.AppliedInto | src/http/router.cpp:93-110 | a failed match leaves the map as it is; a match adds its keys and changes none that is there |
| RouteRoundTrip.MatchIsInstance | src/http/router.cpp:28-50 | a text matches with some captures exactly when it is the pattern instantiated with them |
| RouteRoundTrip.AcceptedInstances | src/http/router.cpp:28-110 | the rule compiled from a plain pattern accepts a path if and only if it is an instance of the pattern |
| RouteRoundTrip.RouteSound | src/http/router.cpp:28-110 | when the rule compiled from a plain pattern accepts a path, substituting the bound values for the keys gives back the path, and exactly the keys are bound |
| RouteRoundTrip.InstanceUnique | src/http/router.cpp:28-50 | when any two keys have a barred character or whitespace between them, values free of these can be read off an instance |
| RouteRoundTrip.ComesBackExactly | src/http/router.cpp:28-110 | values come back from the instantiated pattern if and only if it has no NUL and no other values make the same path and are longer where they first differ |
| RouteRoundTrip.Confused | src/http/router.cpp:28-50 | a pattern with nothing between two keys that values cannot contain has two lists of values for one path |
| RouteRoundTrip.PatternPromise | src/http/router.cpp:28-110 | for any set of barred characters, all values free of them come back if and only if any two keys have a barred character or whitespace between them |
| RouteRoundTrip.SegmentsPart | src/http/router.cpp:34-37 | with slashes barred, that condition says that no segment has two keys |
| RouteRoundTrip.SlashFreePromise | src/http/router.cpp:28-110 | all slash-free values come back if and only if no segment has two keys |
| RouteRoundTrip.RouteComplete | src/http/router.cpp:28-110 | a plain pattern with one key per segment, instantiated with slash-free values, is accepted by its compiled rule and binds each key to exactly its value |
| RouteRoundTrip.TwoInOneSegment | src/http/router.cpp:28-110 | of two keys in one segment the first gets all but the last character, whatever the path was made of |
| RouteRoundTrip.SlashInValue | src/http/router.cpp:28-110 | of two keys with a slash between them the first gets everything up to the last slash, whatever the path was made of |
| Json.ToJson | include/ccl2/json.h:38-201 | the loops that append to arrays and objects build `Encode` of the value |
| JsonMeaning.EncodeExactly | include/ccl2/json.h:38-201 | the encoded tree is the one tree that writes the value: the same numbers and texts, items and entries in order, and the present members in declaration order under their keys |
| Json.ObjGet | include/ccl2/json.h:69-69 | the first value under a key |
| Json.FromJson | include/ccl2/json.h:63-216 | the loops that fill the target compute `Decode`, with the same failures |
| JsonMeaning.DecodeVerdict | include/ccl2/json.h:63-216 | exactly the trees are accepted whose kinds fit at every depth and in which every required member occurs; the program ends exactly when the first bad thing is a missing one, and any other refusal is thrown |
| JsonMeaning.DecodeExactly | include/ccl2/json.h:63-246 | decoding into a target gives a value exactly when the tree yields it: items behind those of the target, the first entry under each key that is not there yet, and the first occurrence of each member |
| JsonRoundTrip.WrapFits | include/ccl2/json.h:103-111 | conversion to a narrower integer type keeps every number that fits |
| JsonMeaning.Widths | include/ccl2/json.h:103-111 | the ranges of the integer types, in numbers |
| JsonMeaning.WrapExactly | include/ccl2/json.h:91-111 | narrowing gives the one number of the type that is congruent modulo its size |
| JsonRoundTrip.RoundTrip | include/ccl2/json.h:38-246 | for every type and value, decoding the encoded tree into an empty target gives the value back, absent optionals included |
| JsonRoundTrip.DecodedHasType | include/ccl2/json.h:63-246 | what decoding produces is a value of the type: integers in range, keys distinct, required members present |
| JsonRoundTrip.DecodeEncodeDecode | include/ccl2/json.h:38-246 | decoding, encoding and decoding again is decoding |
| JsonRoundTrip.AlikeDecode | include/ccl2/json.h:63-83 | trees that agree on the first value under each declared key, at every depth, decode to the same value or the same failure |
| JsonRoundTrip.Permuted | include/ccl2/json.h:63-83 | members with distinct keys may come in any order |
| JsonRoundTrip.Inserted | include/ccl2/json.h:63-83 | an undeclared member, or one behind an earlier member of its key, may be put in anywhere |

## Left out

- The Content-Disposition expression is a parameter of the parser (`recognise`), a function from a line to the name
  and file name it matches; the round trip assumes it recognises the rendered lines.
- MultipartChunking.CutExactly: is about callbacks that agree to everything; what a refusing callback does is `Refusal`.
- MultipartFeed.FeedJoined: is stated for tame texts; `FeedExactly` has the exact condition for every text.
- Reading behind the terminating NUL is undefined; nothing is said about what a parse does from there on.
- `isxdigit` and the other character tests are those of the C locale, and are false for characters above ASCII.
- `stoi` is the function `Stoi`: leading blanks, a sign, the longest run of digits, and the range of a 32-bit int.
- Lengths are unbounded; the 32-bit `int` lengths of the URL and query code are not modelled to overflow.
- Route.HttpRouterPathParse: what the regex library makes of a text with other operators, another expression or an exception, is the one outcome `Foreign`.
- `Router::handle_request`, sessions, clients, response builders: coroutines, sockets and files.
- Reading and writing JSON text, number formatting, narrowing of `double` to `float`, and `yyjson_val*` members; yyjson
  is not part of this model, its accessors are taken to return 0 for a number that is not an integer.
- The order in which a map is iterated: a map is the list of its entries in that order, and decoding yields the order of insertion.
- `async_queue.h`, `asio_pool.h`, `signal.h`, `service.h`, `function.h`, `singleton_provider.h`: scheduling that is
  not visible in the source, or thin wrappers over library containers.
- `mime_types.h` and `utils.h`: a constant table and a comparator.
