# A verified model of gweb++

gweb++ is an HTTP/1.1 server written without a standard container library: its parsers, printers, buffers
and tables are all its own. This project models them in Dafny and proves what they promise. Code that
rewrites an array or the fields of an object is a class with the same fields and methods; every such method
is proved against a pure specification, and the properties are proved about the specification.

Run `dafny verify dfyconfig.toml` to check everything.

| part | files |
|---|---|
| bytes, sequences, numbers, growing buffers | `Bytes`, `Sequences`, `Numbers`, `Buffers` |
| URL path normaliser and encoder | `UrlPath` (specification), `UrlParser` (in place), `UrlEncoding`, `UrlTheorems` |
| header store | `HttpNames`, `HeaderTable`, `HeaderValues`, `HeaderParsing`, `HeaderFolding`, `HeaderRoundTrip`, `HttpHeaders` (the object) |
| response sender | `Multipart`, `MultipartReading` (what a client reads), `RangeParser` (the loop), `RangeLists` (its language), `Responses` (what is owed in each state), `HttpConnection` (the object) |
| message framing | `ChunkedParser`, `ChunkedCoding`, `FastCgi`, `NameValuePairs`, `FcgiRecords`, `FcgiConnection` |
| XML | `XmlForest`, `XmlDocument`, `XmlMachine`, `XmlParser` (the object), `XmlText` (white space), `XmlReading`, `XmlMarkup` (whole documents), `XmlAccepted` (nothing else), `XmlRoundTrip`, `XmlPrinting`, `XmlTidy` |
| tables of the server | `PathList`, `Descriptors`, `TmpFiles` |

## Conventions

- A `char` is a number below 256. The XML parser takes its characters as signed `char` values, as on x86:
  bytes above 127 are accepted in character data only.
- `off_t` and `size_t` arithmetic wraps around in 64 bits where the code lets it; lengths kept in an
  `unsigned short` are bounded where the code bounds them.
- The system is nondeterministic: what a socket takes of a call, and which descriptor a new file gets, are
  parameters. An answer of `sendfile` may have moved bytes before EAGAIN or EINTR; those of `write` and
  `writev` may not. Whether a call may be answered with zero bytes is left open: safety does not depend on
  it, and the termination of a round says so where it does.
- The dictionary of known headers is a parameter: any table that is strictly sorted by name, as the
  binary search needs.
- `strncasecmp` and `%.*s` stop at a NUL, and so does the model.

## What the proofs found

- A response of several ranges announces its length with the width of the file's size, but prints the
  announced length in every part header. Below 10^18 bytes the two agree if and only if they have the same
  number of digits, which is never so for files shorter than 100 bytes; beyond, the digits that are not counted
  come in as well (`Multipart.AnnouncedIffSameWidth`).
- HEAD to a FastCGI application that sends a body all the same is answered with that body
  (`Responses.BackendResponse`); no other response to HEAD has one (`Responses.BodilessResponse`,
  `Responses.PageResponse`).
- A header table survives writing and reading if and only if no value is empty or ends with a space, and
  the values that must be one token are (`HeaderRoundTrip.RoundTripIff`).
- Headers that may come several times are never found by the search by type: they cannot be read, replaced
  or removed. The model does the same (`HeaderTable.Find`).
- The end of a header block may lie one byte beyond the size limit, and no more (`HeaderRoundTrip.EndIsNear`,
  `HeaderRoundTrip.EndIsBeyond`).
- An accepted path may contain NULs, where the file system sees its end. What it sees is canonical if and only
  if it does not end in a segment of dots (`UrlTheorems.SeenCanonical`); `/..%00` is accepted and seen as `/..`
  (`UrlTheorems.DotsBeforeNul`).
- A file that has become shorter while it is sent is answered with zero bytes: the connection stays as it is,
  and its round never ends (`HttpConnection.Connection.Loop`).
- The bytes read of a malformed request stay in the count of the round in which its error page is sent. No call
  asks for more than the write quota if and only if that count is within it (`HttpConnection.QuotaHoldsIff`).
- In state 0 of the path normaliser the write cursor meets the read cursor exactly when nothing that has been
  read was dropped, as in `/a/` when the second slash is to be read again (`UrlParser.Parser.CursorsMeet`,
  `UrlParser.Parser.CursorsMeetInDirectory`). It never passes it, and after a segment was removed at least four
  bytes lie between the two (`UrlParser.Parser.AfterDots`).
- A file without any element is accepted by the XML parser (`XmlParser.NothingIsAccepted`).
- The XML parser keeps one space for the white space between two words, unless its buffer of 4096 bytes has no
  room for the space and what follows it: then the words become one (`XmlText.KeptWords`). 4095 letters, a
  space and a `b` are read without the space (`XmlText.SpaceIsLost`).
- A processing instruction or a document type that does not fit into that buffer becomes several nodes, one for
  each buffer that it fills (`XmlReading.InstructionRead`, `XmlReading.DoctypeRead`).
- A number in a `Range` header that does not fit 64 bits may wrap around. In a file of no more than 2^63 / 10
  bytes this can refuse a list, but never change a range of one that is accepted (`RangeLists.AcceptedRead`).
- A chunk size beyond 64 bits is taken modulo 2^64 (`ChunkedCoding.NumberIsValue`); 10000000000000005 is read
  as 5 (`ChunkedCoding.WrappedSize`).
- A FastCGI application that ends its request before the end of its headers leaves no temporary file; more
  output then fails (`FcgiConnection.EndedBeforeHeaders`, `FcgiConnection.EndedAtOnce`).
- Cutting a FastCGI stream somewhere makes no difference to the callbacks, whatever follows, if and only if no
  record header before the cut is wrong (`FcgiRecords.CutsMatterIff`; for example `FcgiRecords.WrongHeaderCuts`).
- Two XML comments next to each other become one, and are printed as one (`XmlPrinting.PrintedReadBack`).
- A temporary file that is used again keeps what it held behind the new bytes: it holds the body of the answer
  and nothing else if and only if it was not longer before (`FcgiConnection.FileIsBody`; for example
  `FcgiConnection.FileUsedAgain`). Only as many bytes as have been recorded are sent, so the client gets the
  body in any case (`FcgiConnection.BodyIsSent`).

## Model

| member | source | states |
|---|---|---|
| UrlParser.Parser.ParsePath | net/url_parser.cpp:297-687 | the in-place normaliser answers for every NUL-terminated path what the specification `UrlPath.Normalize` answers: the same code, path, query and fragment; whatever it answers, no byte before the path nor from its NUL on has changed |
| UrlParser.Parser.Walk | net/url_parser.cpp:305-643 | the main loop comes to an end on every path, keeps the write cursor behind the read cursor, and at every byte what is written and what is unread still stand for the answer to the whole path |
| UrlParser.Parser.Step | net/url_parser.cpp:308-641 | one turn of the loop keeps the gap between the cursors (1, 2, 3 and 0 by state; 0 also in state 0, over a slash) and either moves on or goes back to state 0 at a slash; it writes nowhere outside of the path |
| UrlParser.Parser.CursorsMeet | net/url_parser.cpp:309-380 | in state 0 the cursors meet if and only if the directories kept are as long as all that was read; the byte under them is then a slash |
| UrlParser.Parser.CursorsMeetInDirectory | net/url_parser.cpp:546-616 | a concrete path on which they meet |
| UrlParser.Parser.AfterSlash | net/url_parser.cpp:309-380 | state 0: a segment begins; slashes collapse, escapes become the byte they stand for, also when that is a dot or a slash |
| UrlParser.Parser.AfterDot | net/url_parser.cpp:381-453 | state 1: a segment of one dot is dropped, and a longer one keeps it |
| UrlParser.Parser.AfterDots | net/url_parser.cpp:454-545 | state 2: a segment of two dots removes the segment before it and leaves a gap of four bytes or more, or is forbidden when there is none |
| UrlParser.Parser.Rewind | net/url_parser.cpp:455-490 | the backward scan stops at the slash before the last segment and never before the start of the path |
| UrlParser.Parser.ReadSegment | net/url_parser.cpp:546-616 | state 3: the bytes of a segment are kept, decoded once, up to the slash or the end of the path |
| UrlParser.Parser.ReadQuery | net/url_parser.cpp:617-634 | state 4: a query may contain only printable bytes and ends at the first `#` |
| UrlParser.Parser.ReadFragment | net/url_parser.cpp:635-641 | state 5: a fragment may contain only printable bytes |
| UrlParser.Parser.AtEnd | net/url_parser.cpp:645-686 | the end of the string closes an open dot segment, and gives a path without query or fragment its slash |
| UrlTheorems.NormalizeCanonical | net/url_parser.cpp:297-687 | an accepted path starts with a slash and has no empty, `.` or `..` segment except that it may end with a slash |
| UrlTheorems.SeenCanonical | http/http_connection.cpp:988-994 | the part of an accepted path up to its first NUL is canonical if and only if it does not end in a segment of dots |
| UrlTheorems.DotsBeforeNul | net/url_parser.cpp:454-545 | a concrete path that is accepted and seen as the parent of the root |
| UrlTheorems.ForbiddenIff | net/url_parser.cpp:454-545 | a path is forbidden if and only if some prefix of its decoded segments has more `..` than named segments |
| UrlTheorems.EncodeThenNormalize | net/url_parser.cpp:297-687 | normalising an encoded absolute path gives that path if and only if it is canonical and not too long |
| UrlTheorems.NormalizeTwice | net/url_parser.cpp:297-687 | encoding an accepted path and normalising it again changes nothing |
| UrlTheorems.LengthsFit | net/url_parser.cpp:645-686 | path, query and fragment may each have 4096 bytes, counted in 16 bits |
| UrlTheorems.DecodeEncode | net/url_encoder.cpp:4-55 | percent-decoding undoes percent-encoding for all bytes |
| UrlTheorems.DecodeSpelled | net/url_parser.cpp:338-380 | a text whose bytes are written as they are or as escapes, each digit of which is in either case, is decoded to those bytes |
| UrlTheorems.NormalizeSpelled | net/url_parser.cpp:297-687 | so a path is answered by what its bytes mean, however they are written |
| UrlTheorems.EscapedSlash | net/url_parser.cpp:546-616 | a concrete path: `/a%2Fb` is `/a/b` |
| Bytes.HexValueIs | net/url_parser.cpp:343-346 | a byte has a value as a hexadecimal digit if and only if it is one, of either case, and then its own |
| UrlTheorems.JoinSplit | net/url_parser.cpp:309-616 | splitting at slashes and joining again is the identity |
| UrlTheorems.SplitJoin | net/url_parser.cpp:309-616 | joining segments that contain no slash and splitting again is the identity |
| UrlPath.ResumeSlash | net/url_parser.cpp:381-616 | a slash in the middle of a path closes the segment before it: the rest resolves against the new stack |
| UrlPath.ResumeByte | net/url_parser.cpp:546-616 | a decoded byte that is not a slash belongs to the segment being read |
| UrlEncoding.Needed | net/url_encoder.cpp:9-19 | the counting pass gives the exact length of the encoded form |
| UrlEncoding.WriteEncoded | net/url_encoder.cpp:27-50 | the writing pass fills exactly the bytes that were counted |
| UrlEncoding.EncodeUrl | net/url_encoder.cpp:4-55 | the encoded form is appended to the buffer, and its length returned |
| UrlEncoding.EncodeByteIs | net/url_encoder.cpp:27-50 | letters, digits and `-._~/` stay; every other byte becomes a percent sign and two lower-case digits |
| HttpNames.GetHeader | http/http_headers.cpp:662-686 | binary search over the sorted dictionary answers a header if and only if the name is that header's with its letters in any case |
| HttpNames.SameNameIs | http/http_headers.cpp:669 | two names are the same if and only if they have one length and at each place the same byte or a letter and its capital |
| HttpNames.CompareEqual | http/http_headers.cpp:662-686 | the case-insensitive comparison finds two names of one length equal exactly when they agree up to their NULs |
| HttpNames.CompareIsLess | http/http_headers.cpp:662-686 | the sign of the comparison, and the lengths when it is zero, decide a strict order of names |
| HeaderTable.EditsKeepHistory | http/http_headers.cpp:181-295 | after any sequence of adds, replaces and removes, each header's values are the `, `-joins (or, for headers that may come several times, the list) of those added since its last replace or removal |
| HeaderTable.EditsValid | http/http_headers.cpp:181-295 | after any sequence of edits known headers are ordered by type with unknown ones last, with one entry for each name that may come once |
| HeaderTable.AddValues | http/http_headers.cpp:735-803 | an addition changes the values of its own header and of no other |
| HeaderTable.RemoveValues | http/http_headers.cpp:255-295 | a removal takes away its own header's values and no other's |
| HeaderTable.AddValid | http/http_headers.cpp:735-803 | an addition keeps the order of the table and the uniqueness of names |
| HeaderTable.RemoveValid | http/http_headers.cpp:265-295 | a removal keeps the order of the table and the uniqueness of names |
| HttpHeaders.Headers.AddHeader | http/http_headers.cpp:735-803 | the entry is found or inserted in its place, the value moved to the end of the arena, and nothing else in the table changes |
| HttpHeaders.Headers.AddKnownHeader | http/http_headers.cpp:191-204 | the table becomes that of `HeaderTable.Add`, or the store is full and unchanged |
| HttpHeaders.Headers.AddUnknownHeader | http/http_headers.cpp:240-253 | the same for a header found by its name in any case |
| HttpHeaders.Headers.AppendValue | http/http_headers.cpp:198-201 | the cleaned value goes behind what the entry holds already, and is counted |
| HttpHeaders.Headers.RemoveKnownHeader | http/http_headers.cpp:265-279 | the entry of a known header is taken out; a header that may come several times is never found, and stays |
| HttpHeaders.Headers.RemoveUnknownHeader | http/http_headers.cpp:281-295 | the entry of an unknown header is taken out |
| HttpHeaders.Headers.SearchKnown | http/http_headers.h:267-281 | the search by type stops at the entry, or at the place where it belongs |
| HttpHeaders.Headers.SearchUnknown | http/http_headers.h:283-296 | the search by name stops at the entry, or at the end |
| HttpHeaders.Headers.GetValueKnownHeader | http/http_headers.cpp:307-323 | the value found is the one the table holds |
| HttpHeaders.Headers.Reset | http/http_headers.h:214-226 | an empty table, and a parser at its start |
| HttpHeaders.Headers.CanAllocate | http/http_headers.cpp:708-733 | the arena grows in steps of 1024 up to the largest that a 16-bit length can count |
| HttpHeaders.Headers.Serialize | http/http_headers.cpp:343-395 | every header is written in table order, folded at spaces, so that unfolding gives back its value, and every line fits the width if its words do |
| HttpHeaders.Headers.Parse | http/http_headers.cpp:397-660 | a call answers what the machine `HeaderParsing.Run` answers on the same bytes, and leaves the fields where a later call can go on |
| HttpHeaders.Headers.ReadName | http/http_headers.cpp:403-493 | states 0 to 2: field names |
| HttpHeaders.Headers.ReadValue | http/http_headers.cpp:494-546 | states 3 and 4: field values |
| HttpHeaders.Headers.ReadLineEnd | http/http_headers.cpp:547-651 | states 5 to 7: line ends, continuation lines, and the addition of the field before |
| HeaderValues.CleanValue | http/http_headers.cpp:805-844 | the loop that cleans a value computes `HeaderValues.Clean` |
| HeaderValues.CleanIsTidy | http/http_headers.cpp:805-844 | a cleaned value has no control characters, no leading space and no two spaces in a row |
| HeaderValues.CleanKeepsWords | http/http_headers.cpp:805-844 | cleaning keeps the words of a value, in order |
| HeaderValues.TidyIsClean | http/http_headers.cpp:805-844 | cleaning leaves a clean value alone |
| HeaderFolding.FoldValue | http/http_headers.cpp:358-390 | folding replaces single spaces by CR LF TAB so that unfolding gives the value back, and each line fits unless it is one long word |
| HeaderFolding.UnfoldBreak | http/http_headers.cpp:368-377 | a fold stands for one space |
| HeaderParsing.StepWithin | http/http_headers.cpp:397-660 | every slice the parser remembers lies within the bytes already read |
| HeaderParsing.FullIs | http/http_headers.cpp:708-733 | a value is refused if and only if the arena would exceed 64512 bytes or a new header comes after 65530 |
| HeaderParsing.Resumes | http/http_headers.cpp:397-660 | a call on a prefix gives the final answer, or leaves a state from which a call on the whole buffer gives it |
| HeaderParsing.FeedIsRun | http/http_connection.cpp:809-835 | growing prefixes, cut anywhere, end with the code, body offset and table of one call on the whole buffer |
| HeaderRoundTrip.ParseSerialized | http/http_headers.cpp:343-660 | parsing the serialised form of a table, for every way of folding it, ends at its last byte with the table `Reparsed` |
| HeaderRoundTrip.ParseSpelled | http/http_headers.cpp:397-660 | and so it does when each known name is written in letters of any case |
| HeaderRoundTrip.RoundTripIff | http/http_headers.cpp:343-660 | the same table comes back if and only if the form is within the size limit and every value is stable: not empty, no space at its end, one word where only one token may stand |
| HeaderFolding.WrittenReadBack | http/http_headers.cpp:343-660 | whatever the serialiser writes for a table, at any line width, is read back as that table under exactly the same condition |
| HeaderRoundTrip.TrailingSpaceIsLost | http/http_headers.cpp:805-844 | a concrete table that does not come back: a value that ends with a space is read back without it |
| HeaderRoundTrip.EndIsNear | http/http_headers.cpp:547-657 | the end of a header block is found at most one byte beyond the size limit |
| HeaderRoundTrip.EndIsBeyond | http/http_headers.cpp:547-657 | a concrete header block that ends one byte beyond the limit |
| HeaderRoundTrip.ScanLine | http/http_headers.cpp:397-660 | a serialised line, wherever it is folded, is read as its header |
| Numbers.Length | util/number.cpp:5-28 | the digit count is the exact width of a number if and only if it is below 10^18, and 18 above |
| Numbers.DecimalWidth | util/number.cpp:13-25 | a number has at most k digits exactly when it is below the k-th power of ten |
| Multipart.ContentLength | http/http_connection.cpp:1605-1632 | the announced length is that of a body whose numbers are as wide as they are counted and whose part headers print a total as wide as the size of the file |
| Multipart.CountedIsExact | http/http_connection.cpp:1605-1632 | below 10^18 bytes all widths are counted exactly |
| Multipart.BodyHasLength | http/http_connection.cpp:305-325 | the length of a multipart body as its format strings render it |
| Multipart.AnnouncedIffSameWidth | http/http_connection.cpp:1605-1632 | for every file size, the announced length (as long as it fits an `off_t`) is right if and only if the digits missing from it make up for those not counted; below 10^18 bytes, if and only if it has as many digits as the size of the file |
| Multipart.ShortFilesAnnounceTooLittle | http/http_connection.cpp:1605-1632 | for files shorter than 100 bytes a multipart response is always longer than announced |
| Multipart.NineByteText | http/http_connection.h:232-237 | a concrete response that is four bytes longer than announced |
| MultipartReading.BodyRead | http/http_connection.h:232-237 | taken apart from front to back, a multipart body gives back every range in order, each with the boundary, the media type, the first and last byte, the total and the bytes of the file, and then ends |
| MultipartReading.PartRead | http/http_connection.h:232-237 | a part header and its bytes are read as that part, whatever follows |
| MultipartReading.RangeTextRead | http/http_connection.h:232-237 | the range printed in a part header is one that the range parser reads as that range |
| HttpConnection.Gather | net/tcp_connection.cpp:153-176 | the vector built for `writev` is the next stretch of the joined buffers, as long as the quota allows |
| HttpConnection.Skip | net/tcp_connection.cpp:153-159 | skipping the buffers that have been sent leaves the cursor in the first that has not |
| HttpConnection.QuotaHoldsIff | net/tcp_connection.cpp:85-98 | no call asks for more than the quota if and only if the count of the round is within it; beyond, the difference wraps around |
| HttpConnection.Connection.Write | net/tcp_connection.cpp:85-130 | what the system takes goes to the wire and moves the cursor and the count of the round; a spent quota, a short count, EAGAIN and EINTR set the flags |
| HttpConnection.Connection.Writev | net/tcp_connection.cpp:132-207 | the same for several buffers as if they were one, limited to `UINT_MAX` bytes or the quota |
| HttpConnection.Connection.Sendfile | net/tcp_connection.cpp:209-280 | the same for a file or the current range of it, also when bytes moved before EAGAIN or EINTR |
| HttpConnection.Connection.SendTwoBuffers | http/http_connection.cpp:239-256 | sent bytes and owed bytes together stay the same |
| HttpConnection.Connection.SendHeaders | http/http_connection.cpp:257-283 | the same; at the end of the buffer the body of a file follows, if there is one to send |
| HttpConnection.Connection.SendBody | http/http_connection.cpp:284-331 | the same for a file, a range, or one of several ranges |
| HttpConnection.Connection.FinishRange | http/http_connection.cpp:290-328 | behind a range comes the next part's header, the closing delimiter, or the end |
| HttpConnection.Connection.SendPartHeader | http/http_connection.cpp:332-346 | the same; behind the header of a part comes its range |
| HttpConnection.Connection.SendFooter | http/http_connection.cpp:347-360 | the same; behind the closing delimiter comes the end |
| HttpConnection.Connection.SendBackendHeaders | http/http_connection.cpp:361-399 | the same for a backend's headers, alone or with a payload in memory |
| HttpConnection.Connection.SendBackendBody | http/http_connection.cpp:400-413 | the same for a payload in a temporary file |
| HttpConnection.Connection.Step | http/http_connection.cpp:239-413 | every step, whatever the socket answers, keeps sent and owed bytes together the same, keeps to the quota if the count is within it, and comes closer to the end when the socket takes something; an answer of zero bytes changes nothing |
| HttpConnection.Connection.Loop | http/http_connection.cpp:152-448 | after any number of calls of a round, with any count carried into it, sent and owed bytes together are the same; within the quota if the count began so; unless a socket takes zero bytes the round ends by itself, with the socket full, the connection queued or the response complete, and if it takes nothing but zero bytes nothing ever changes |
| HttpConnection.Connection.Serve | http/http_server.cpp:713-740 | over any rounds, calls and answers the wire is a prefix of the response, the request is complete only when it is all of it, and it is complete after one waking round more than there are bytes and states |
| HttpConnection.DeliverFile | http/http_connection.cpp:257-360 | for every quota, every socket and at every moment the wire is a prefix of header block and content (whole file, one range, or multipart body), and all of it when the request is complete; what stands behind the header block is then taken apart into the ranges, in order, each with its first and last byte, the total and its bytes of the file |
| HttpConnection.KeepPipelined | http/http_connection.cpp:428-441 | bytes of a pipelined request move to the front of the input buffer |
| Responses.NextOwesTheSame | http/http_connection.cpp:257-413 | changing state neither loses nor repeats a byte |
| Responses.Stepping | http/http_connection.cpp:239-413 | a step takes the bytes it passes off the front of what is owed |
| Responses.FileResponse | http/http_connection.cpp:257-331 | a response for a file owes its header block and the file, the range, or the multipart body |
| Responses.BodilessResponse | http/http_connection.cpp:1060-1252 | the response to a request for a file owes its header block alone if and only if it is for HEAD or the file is empty; ranges are read for GET only |
| Responses.BackendResponse | http/http_connection.cpp:361-413 | a backend's response owes headers and payload; for HEAD only headers if and only if the payload is in memory, whatever size is announced, or empty |
| Responses.PageResponse | http/http_connection.cpp:1634-1653 | an error page or a directory listing owes its header block and the page, for HEAD the header block alone, even if ranges were read before the error |
| RangeParser.Parse | http/range_parser.cpp:5-200 | the switch over ten states computes `RangeParser.Run`, and every range it has kept lies in the file, even where the arithmetic wraps |
| RangeParser.StepKeeps | http/range_parser.cpp:17-177 | no byte makes a number negative or keeps a range outside of the file |
| RangeLists.ListsRead | http/range_parser.cpp:5-200 | a list with any blanks around its numbers and hyphens and any leading zeros, all of which fit, is accepted if and only if every range in it can be satisfied, and gives them in order, clamped to the file |
| RangeLists.AcceptedRead | http/range_parser.cpp:5-200 | whatever is accepted is blank or such a list; in a file of no more than 2^63 / 10 bytes its ranges are those of the list, clamped to the file, even if numbers do not fit |
| RangeLists.BlanksAccepted | http/range_parser.cpp:180-182 | blanks alone are accepted and ask for nothing |
| RangeLists.PrintedListRead | http/range_parser.cpp:5-200 | so a list printed without blanks is accepted if and only if every range in it can be satisfied, and gives them in order, clamped to the file |
| RangeLists.DigitsRead | http/range_parser.cpp:29-45 | digits, however many, are refused only if they do not fit 64 bits, or for a first byte beyond the file; if they fit their number is read exactly |
| ChunkedParser.Parser.ParseChunk | http/chunked_parser.cpp:4-124 | a call does what the byte machine `ChunkedParser.Run` does: the same data, the same result, the size just behind the end |
| ChunkedParser.Parser.ReadByte | http/chunked_parser.cpp:11-118 | the switch over the states outside of chunk data does what `ChunkedParser.Step` does |
| ChunkedParser.RunJoins | http/chunked_parser.cpp:4-124 | where the input is cut changes neither data nor result nor the place of the end |
| ChunkedParser.BlockRun | http/chunked_parser.cpp:57-77 | taking a block of data at once is the same as taking it byte by byte |
| ChunkedCoding.DecodesExactly | http/chunked_parser.cpp:4-124 | the decoder comes to the end of a message if and only if the input begins with a legal one (each size the length of its data modulo 2^64), hands over exactly its body and stops right behind it |
| ChunkedCoding.DecodesStandard | http/chunked_parser.cpp:4-124 | so it does if and only if the input begins with a message whose sizes are true, or with a legal one that has a size of more than 64 bits |
| ChunkedCoding.DecodeEncode | http/chunked_parser.cpp:4-124 | decoding undoes encoding for all chunks, extensions and trailers, whatever follows |
| ChunkedCoding.ReadMessage | http/chunked_parser.cpp:4-124 | whatever is decoded to its end can be taken apart into a legal message |
| ChunkedCoding.SizeLine | http/chunked_parser.cpp:11-56 | a size line is read as the number its hexadecimal digits stand for, modulo 2^64, and leads to data unless that is zero |
| ChunkedCoding.NumberIsValue | http/chunked_parser.cpp:11-41 | reducing at every digit is reducing once, and the size is true if and only if it is below 2^64 |
| ChunkedCoding.ValueIs | http/chunked_parser.cpp:11-45 | the value of a size is that of its digits, in whatever case each is written |
| ChunkedCoding.WrappedSize | http/chunked_parser.cpp:11-41 | a concrete message with a size of 65 bits that is accepted with five bytes of data |
| FastCgi.PairsRoundTrip | http/fastcgi.cpp:297-386 | decoding undoes encoding for every list of pairs, with lengths of one and of four bytes |
| FastCgi.PairRoundTrip | http/fastcgi.cpp:85-166 | an encoded pair is the first decoded, and decoding goes on behind it |
| FastCgi.LengthRoundTrip | http/fastcgi.cpp:301-362 | a length is read back from its one or four bytes |
| NameValuePairs.Writer.Add | http/fastcgi.cpp:85-166 | a pair is added to the record, with its name prefixed and in upper case if asked, unless the record would exceed 65535 bytes; the name in it is the variable of the header: `HTTP_` if asked for, each letter as its capital, an underscore for each hyphen, and every other byte as it is |
| FastCgi.SameVariable | http/fastcgi.cpp:140-150 | names that differ only in the case of their letters have the same variable |
| FastCgi.VariableRaised | http/fastcgi.cpp:140-150 | no byte of a variable is a small letter or a hyphen |
| NameValuePairs.Writer.PutPair | http/fastcgi.cpp:112-159 | the bytes written are those of the encoded pair |
| NameValuePairs.Writer.End | http/fastcgi.cpp:168-191 | the finished record has the length of its pairs in its header and is padded to a multiple of eight bytes; nothing before it changes |
| NameValuePairs.Writer.constructor | http/fastcgi.cpp:69-83 | a record header with no pairs behind whatever the buffer holds |
| NameValuePairs.Decode | http/fastcgi.cpp:297-386 | the loop takes out the pairs of `FastCgi.DecodePairs`, and ignores what is cut off |
| NameValuePairs.GetLength | http/fastcgi.cpp:304-362 | a length is refused when it is cut off or exceeds 65535 |
| FcgiRecords.ProcessResumes | http/fastcgi.cpp:208-295 | as long as no header is wrong, cutting the stream changes neither the callbacks nor what is kept |
| FcgiRecords.WireFormat | http/fastcgi.h:205-222 | where the fields of a record stand |
| FcgiRecords.TypesAre | http/fastcgi.cpp:247-291 | which types of records there are, and which callbacks they make |
| FcgiRecords.FeedIsProcess | http/fcgi_connection.cpp:202-225 | however a stream without wrong headers is cut, the callbacks are those of the whole, in the same order |
| FcgiRecords.CutsMatterIff | http/fastcgi.cpp:208-295 | whether a stream is cut behind a given part makes no difference to the callbacks, whatever follows, if and only if no header in that part is wrong |
| FcgiRecords.WrongHeaderCuts | http/fastcgi.cpp:208-295 | a record behind a wrong header is dropped if it comes with it, and handled if it comes after it |
| FcgiRecords.ProcessRecs | http/fastcgi.cpp:208-295 | a stream of records makes the callbacks of each in turn and keeps exactly the incomplete suffix |
| FcgiRecords.FeedRecs | http/fcgi_connection.cpp:202-225 | however a stream of records is cut, it makes the callbacks of the records and nothing is left |
| FcgiRecords.ProcessPairs | http/fastcgi.cpp:247-253 | a record that the writer built is reported as its pairs, in order |
| FcgiConnection.Connection.Process | http/fastcgi.cpp:208-295 | all whole records are handled, the rest is moved to the front of the buffer, and a callback that fails stops it |
| FcgiConnection.Connection.Record | http/fastcgi.cpp:247-291 | the callbacks of one record by its type |
| FcgiConnection.Connection.StdoutStream | http/fcgi_connection.cpp:288-334 | output goes to the header parser until it finds the end, and to the temporary file from there on |
| FcgiConnection.Connection.ReadResponse | http/fcgi_connection.cpp:202-225 | reading in pieces until the answer is complete has the outcome of the records of the whole |
| FcgiConnection.FileIsBody | http/fcgi_connection.cpp:288-334 | if every callback succeeds, there is a temporary file exactly if the output has come to the end of its headers; it begins with everything behind the header block, the recorded size is the length of that, and it holds nothing else if and only if it was not longer before |
| FcgiConnection.FileUsedAgain | file/tmpfiles_cache.cpp:84-97 | two concrete answers in one file: the longer body of the first stays behind that of the second |
| FcgiConnection.BodyIsSent | http/http_connection.cpp:361-413 | whatever the file held before, the response owes the header block and the body alone |
| FcgiConnection.RecordsReassemble | http/fcgi_connection.cpp:202-334 | for all records and all ways of cutting them, the temporary file holds the body of the concatenated contents of the output records |
| FcgiConnection.Connection.ReadAnswer | http/fcgi_connection.cpp:202-225 | reading a whole answer in any pieces completes the response, with that file |
| FcgiConnection.EndedBeforeHeaders | http/fcgi_connection.cpp:288-334 | a request that ends before the end of its headers has no file, and any output behind it fails |
| FcgiConnection.EndedAtOnce | http/fcgi_connection.cpp:288-334 | a concrete stream that ends so |
| FcgiConnection.StdoutReassembles | http/fcgi_connection.cpp:288-334 | one more piece of output keeps headers, file and size in step with all output so far |
| XmlForest.AddNode | xml/xml_document.cpp:440-485 | a node added under an open parent keeps every link of every node what the parents say it must be |
| XmlForest.SiblingChain | xml/xml_document.cpp:421-486 | from the first child the chain of siblings lists exactly the children, in index order, up to the last child |
| XmlForest.NeighboursAgree | xml/xml_document.cpp:471-477 | `previous` undoes `next`, and `next` undoes `previous` |
| XmlForest.BuildNode | xml/xml_document.cpp:226-257 | creating a node keeps the forest well formed and in depth-first order, and is one visit more of the walk |
| XmlForest.BuildEnd | xml/xml_document.cpp:259-273 | closing an element makes it the previous sibling, and is a step of the walk if it has children |
| XmlForest.WalkIsScan | xml/xml_document.cpp:326-370 | the walk by the links is the scan of the nodes in index order, each left before the first node that is not below it |
| XmlForest.WalkInOrder | xml/xml_document.cpp:326-370 | the walk visits every node exactly once, in index order |
| XmlForest.NeverBack | xml/xml_document.cpp:421-486 | a node that has been left never gets another descendant |
| XmlDocument.Document.CreateNode | xml/xml_document.cpp:421-486 | the document gains the item below its open element, or the text of its last node grows when text follows text or comment comment, and all links stay right |
| XmlDocument.Document.Merge | xml/xml_document.cpp:423-439 | text is added to the last node exactly when it is of the same kind under the same parent |
| XmlDocument.Document.OnElementStart | xml/xml_document.cpp:226-257 | the new element becomes the innermost open one |
| XmlDocument.Document.OnElementEnd | xml/xml_document.cpp:259-273 | the innermost open element is closed if the name is its own in any case; otherwise nothing changes |
| XmlDocument.Document.OnEmptyElement | xml/xml_document.cpp:275-304 | an element is added and not opened |
| XmlDocument.Document.OnCharacterData | xml/xml_document.cpp:306-314 | text is added, or joined with the text before |
| XmlDocument.Document.OnComment | xml/xml_document.cpp:316-324 | a comment is added, or joined with the comment before |
| XmlDocument.Document.OnDoctype | xml/xml_document.cpp:206-214 | a document type is added |
| XmlDocument.Document.OnProcessingInstruction | xml/xml_document.cpp:216-224 | a processing instruction is added |
| XmlDocument.Document.WriteNodes | xml/xml_document.cpp:326-370 | the recursion over children and siblings prints the walk, plain or indented |
| XmlDocument.Document.NodeToString | xml/xml_document.cpp:372-419 | a node is printed by its kind, up to the first NUL of its text |
| XmlDocument.Document.ToString | xml/xml_document.cpp:193-204 | the printed document is the walk by the links; once no element is open it is `XmlDocument.PrintedDocument` of what the document says |
| XmlDocument.SoundMore | xml/xml_document.cpp:440-486 | a new text goes behind the others in the buffer and changes none of them |
| XmlDocument.SoundLonger | xml/xml_document.cpp:423-439 | a text written over the last NUL becomes part of the last node |
| XmlParser.Parser.ParseChunk | xml/xml_parser.cpp:92-1045 | a call on a piece does what the byte machine does; if a byte is refused the document is in order and holds what was read before it |
| XmlParser.Parser.ParseByte | xml/xml_parser.cpp:97-1043 | the switch over 48 states; after every byte the depth is the number of open elements and there is one root element as soon as there is a root; the document stays a sound forest for every byte, and a refused byte leaves it alone |
| XmlParser.Parser.ReadProlog | xml/xml_parser.cpp:101-396 | states 0 to 2 and 7 to 15: fields and document afterwards, or the refusal, are those of the specification |
| XmlParser.Parser.ReadComment | xml/xml_parser.cpp:145-286 | states 3 to 6, with two hyphens held back: fields and document afterwards, or the refusal, are those of the specification |
| XmlParser.Parser.ReadConditional | xml/xml_parser.cpp:397-429 | states 16 to 18: fields and document afterwards, or the refusal, are those of the specification |
| XmlParser.Parser.ReadInstruction | xml/xml_parser.cpp:430-525 | states 19 and 20: fields and document afterwards, or the refusal, are those of the specification |
| XmlParser.Parser.ReadTag | xml/xml_parser.cpp:526-634 | states 21 to 25: fields and document afterwards, or the refusal, are those of the specification |
| XmlParser.Parser.ReadValue | xml/xml_parser.cpp:635-720 | states 26 to 29: fields and document afterwards, or the refusal, are those of the specification |
| XmlParser.Parser.ReadData | xml/xml_parser.cpp:721-846 | states 30 to 38: fields and document afterwards, or the refusal, are those of the specification |
| XmlParser.Parser.ReadSection | xml/xml_parser.cpp:847-926 | states 39 to 41, with two brackets held back: fields and document afterwards, or the refusal, are those of the specification |
| XmlParser.Parser.ReadEnd | xml/xml_parser.cpp:927-1032 | states 42 to 47: fields and document afterwards, or the refusal, are those of the specification |
| XmlParser.Parser.ParseFile | xml/xml_parser.cpp:67-90 | the outcome does not depend on the pieces; the document is a sound forest whatever the outcome, and an accepted file has no open element, and one root or (ended before any) none; `XmlAccepted.Load` says which files are accepted and what the document then holds |
| XmlParser.NothingIsAccepted | xml/xml_parser.cpp:67-100 | a file of nothing but white space is accepted |
| XmlParser.RunJoins | xml/xml_parser.cpp:92-1045 | where the input is cut makes no difference |
| XmlParser.AdvanceFits | xml/xml_parser.cpp:92-1045 | every byte of every input keeps the buffers within their sizes, the depth equal to the number of open elements, and the root unique |
| XmlParser.PrologKeeps | xml/xml_parser.cpp:101-429 | the prolog's states keep the bounds of the buffers and the facts about depth and root |
| XmlParser.CommentKeeps | xml/xml_parser.cpp:145-286 | so do those of comments |
| XmlParser.TagKeeps | xml/xml_parser.cpp:526-720 | so do those of tags and attributes |
| XmlParser.CDataKeeps | xml/xml_parser.cpp:847-926 | so do those of CDATA sections |
| XmlParser.EndKeeps | xml/xml_parser.cpp:927-1032 | so do those of end tags and of what follows the root |
| XmlAccepted.AcceptsIff | xml/xml_parser.cpp:67-1045 | the parser accepts a text if and only if it is a document, or what may stand before the root element of one, and however it is taken for one, the content is what that stands for |
| XmlAccepted.AcceptedIsFile | xml/xml_parser.cpp:92-1045 | whatever is accepted is such a text: names, tags, attributes, texts, comments and the rest can be found in it |
| XmlAccepted.Load | xml/xml_document.cpp:48-63 | a file is loaded if and only if it is such a text, however it is read in pieces, and the document holds what it stands for |
| XmlMarkup.DocumentRead | xml/xml_parser.cpp:92-1045 | the text of every document is accepted and read as what it stands for: prolog and rest with white space, comments, processing instructions, document types and conditional sections; elements of any depth with white space wherever a tag allows it, values in quotes of either kind, and end tags in letters of any case; text, CDATA sections, comments and processing instructions inside |
| XmlMarkup.MarkupRun | xml/xml_parser.cpp:721-999 | markup inside an element is added below it, up to text that may still grow |
| XmlMarkup.AttributesRun | xml/xml_parser.cpp:566-698 | attributes are read in order, with white space before them and around their equals signs |
| XmlMarkup.TooLong | xml/xml_parser.cpp:526-674 | a name that goes on beyond 256 bytes is refused, and a value beyond 4096 |
| XmlMarkup.ClassesOfXml | xml/xml_parser.cpp:7-50 | which bytes begin a name, go on in it, and may stand in text |
| XmlReading.CharactersRead | xml/xml_parser.cpp:721-752 | character data between two tags is one text, with its words and single spaces between them if and only if there is always room for the space; full buffers are handed over on the way and merged again |
| XmlReading.RemarkRead | xml/xml_parser.cpp:162-286 | the same for a comment, up to the next `-->`, whatever hyphens it contains |
| XmlReading.InstructionRead | xml/xml_parser.cpp:430-525 | a processing instruction, up to the next `?>`, is an item for each buffer that it fills |
| XmlReading.ShortInstruction | xml/xml_parser.cpp:430-525 | if it fits into one buffer it is one item with its words and single spaces between them |
| XmlReading.DoctypeRead | xml/xml_parser.cpp:350-396 | so is a document type |
| XmlReading.SectionRead | xml/xml_parser.cpp:753-926 | a CDATA section arrives byte for byte, up to the next `]]>`, with one space before it for white space behind text |
| XmlReading.ContinuesUntil | xml/xml_parser.cpp:145-926 | a comment, a processing instruction, a document type or a CDATA section goes on if and only if all its bytes are characters and its ending has not occurred |
| XmlText.KeptWords | xml/xml_parser.cpp:721-752 | what arrives of a text is its words with single spaces between them if and only if, wherever a space belongs, the buffer has room for it with what follows; every other byte arrives in any case, in order |
| XmlText.LaidIff | xml/xml_parser.cpp:736-746 | over any pieces, a space is lost if and only if it belongs where the buffer has no room for it and the piece behind it |
| XmlText.ShortKept | xml/xml_parser.cpp:736-746 | in a text of less than a buffer there is room for everything |
| XmlText.SolidKept | xml/xml_parser.cpp:736-746 | text without white space arrives byte for byte at any length and behind whatever there is, and so does a CDATA section |
| XmlText.KeptTrimmed | xml/xml_parser.cpp:733-750 | white space around character data is lost, and alone it is nothing |
| XmlText.SpaceIsLost | xml/xml_parser.cpp:736-746 | a concrete text that loses a space |
| XmlRoundTrip.ParsePrinted | xml/xml_parser.cpp:92-1045 | parsing what the printer writes for a tree, with any white space in its texts, comments and processing instructions, gives the tree with every text as it arrives |
| XmlPrinting.LoadedIsShown | xml/xml_document.cpp:193-419 | what the printer writes for the content of a tree without neighbours to be joined is the text of that tree, on one line or with each node on a line of its own behind as many tabs as elements are open |
| XmlPrinting.LoadMerged | xml/xml_document.cpp:423-439 | joining neighbours of one kind beforehand makes no difference to the content |
| XmlPrinting.PrintedReadBack | xml/xml_document.cpp:193-419 | what the printer writes for the content of any tree that the parser takes is the text of the tree with neighbours joined; parsing that gives the content with every text as it arrives, and so the same content if all of them arrive as they are |
| XmlTidy.TidyReadBack | xml/xml_document.cpp:193-419 | a document whose texts are words with single spaces between them, for which there is room, is read back as itself from its printed form, indented or not |
| XmlTidy.ArrivesIff | xml/xml_parser.cpp:721-752 | a tree arrives as it is if and only if its texts are such words |
| XmlTidy.Reread | xml/xml_document.cpp:193-204 | a document printed by one object, indented or not, and parsed by another is the same document |
| PathList.Index.Search | util/pathlist.cpp:107-137 | binary search finds a path or the place where it belongs |
| PathList.Index.Add | util/pathlist.cpp:24-74 | the index stays strictly sorted and gains exactly the path, without its trailing slash |
| PathList.Index.Exists | util/pathlist.cpp:76-105 | a path is found if and only if a stored path is the root, equals it, or is a directory on the way to it |
| PathList.MemCmpIsLess | util/pathlist.cpp:107-137 | comparing as far as the shorter path goes, and then the lengths, decides the lexicographic order |
| PathList.EntryInserted | util/pathlist.cpp:44-70 | appending to the arena and inserting an entry changes no other path |
| Descriptors.Selector.Add | net/poll_selector.cpp:35-48 | a descriptor goes to the end of the list and of the poll array, unless it is in the set |
| Descriptors.Selector.Remove | net/poll_selector.cpp:50-68 | the last descriptor takes the place of the removed one in the list, the map and the poll array |
| Descriptors.Selector.Modify | net/poll_selector.cpp:70-84 | only the events of that descriptor change |
| Descriptors.Selector.Room | net/fdmap.cpp:58-69 | there is always room for a descriptor that is not in the set |
| Descriptors.AddInverse | net/fdmap.cpp:58-69 | adding keeps map and list inverse to each other |
| Descriptors.RemoveInverse | net/fdmap.cpp:71-89 | moving the last entry into the gap keeps map and list inverse to each other |
| Descriptors.Selector.HandleAlarm | net/tcp_server.cpp:202-220 | the sweep ends, removes exactly the idle connections, and leaves the listener in its place |
| TmpFiles.Cache.Open | file/tmpfiles_cache.cpp:82-117 | a spare file is taken or a new one made; descriptors and names stay distinct, the files on disk are those of the pool, and the table of files in use has room |
| TmpFiles.Cache.Close | file/tmpfiles_cache.cpp:119-154 | a file becomes spare or is deleted, the last in use takes its place, and no other is lost or doubled |
| TmpFiles.Cache.Room | file/tmpfiles_cache.cpp:82-117 | the table of files in use cannot be full while the server holds a descriptor of its own |
| TmpFiles.PoolCloses | file/tmpfiles_cache.cpp:119-148 | closing keeps descriptors and names distinct and the disk in step |
| Buffers.Buffer.Allocate | string/buffer.cpp:6-29 | growing keeps the contents and makes room |
| Buffers.Buffer.Append | string/buffer.h:156-170 | the bytes go behind those already there |

## Left out

- Real sockets, files, clocks, signals and name lookup, and the selectors other than `poll`: their answers are parameters.
- Allocation failure, and failure to open or write a temporary file: every buffer grows, and every such write succeeds.
- `url_parser::parse`: scheme, host and port before the path. The path normaliser is modelled from the first slash on.
- The extension recorded by `parse_path`: percent-decoded characters are not counted in it.
- The concrete table of 52 known headers: the model is about any sorted table.
- `add_known_header` with a time, and the multipart content type: formatted values added as any other.
- The strict mode of the header parser is modelled, but nothing in the repository switches it on.
- XmlRoundTrip.ParsePrinted: values that contain quotes of both kinds are printed in a form that is not read back, and texts that contain markup are printed as markup: the printer writes no entities.
- NameValuePairs.Writer.Add: names and values together with the prefix are shorter than 65536 bytes, as header names and values are.
- FcgiRecords.FeedIsProcess: streams without wrong headers; `FcgiRecords.CutsMatterIff` shows that the cut matters for all others.
- HttpConnection.Connection.Loop: ends with the response; the code goes on to the next pipelined request in the same round.
- NameValuePairs.GetLength: stops at the end of the data; the code looks at the first byte of a value's length before it compares the lengths.
- Multipart.AnnouncedIffSameWidth: about the sum before it is wrapped to an `off_t`; `Multipart.ContentLength` gives the wrapped one.
- TmpFiles.Cache.Open: fewer than 2^32 files are ever created, so that names do not repeat.
- The request side of `http_connection`: request line, body routing and the choice of handler.
- `http_proxy`, which is not built, and the links between client and backend connections.
- `fastcgi::input_stream`, which splits a request body, and `begin_request`.
- `selector::process_events`, `process_ready_list` and `on_event`: loops around handlers that may do anything to the set.
- Line and column numbers of XML errors, and the attribute list's own buffer: attributes are values.
- The cursor of XML iterators: it follows the links that are proved right.
- Date parsing, HTML encoding, logging, directory listing, configuration and static tables: finite or easy.
