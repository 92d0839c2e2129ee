# Models of the MMS server's data structures, codecs and thread protocols

MMS is a C++ server in which most of the machinery is written by hand: containers, text and binary
codecs, a log that many threads write, and a listener that hands events of epoll to many threads. Each
module here models one of these and proves what it is for. Code that changes things in place is a class or
a method over arrays with a specification next to it; what threads do beside each other is a state machine
whose steps interleave in any order.

| files | what they model |
|---|---|
| `PrefixShape`, `PrefixTrie`, `PrefixMap` | the path-compressed tree that routes URLs: as a map from paths, as a tree, and as linked nodes |
| `Bits`, `HuffmanCode`, `HuffmanTable`, `HuffmanEncoder`, `HuffmanTree`, `HuffmanRoundTrip`, `HuffmanMissing` | the Huffman codec of HPACK, for any good table and for the concrete one, and what it cannot decode |
| `HttpGrammar`, `HttpRoundTrip`, `HttpTexts`, `HttpParser` | the HTTP/1 parser and printer: what comes back, and what is read from any text |
| `Maths`, `Ipv6Text`, `Ipv6Spelling`, `Ipv6Codec` | numbers, IPv6 addresses and socket addresses as text: what is printed, and what is read of any spelling |
| `StopProtocol`, `Dispatch` | the shutdown of the listener threads and the one-shot dispatch |
| `LogPipeline`, `LogReader`, `FormatString`, `FormatReader` | the log buffer and its flusher, the re-sorting reader, the four scanners of format strings and what is read back of them |
| `Chains`, `HashBuckets`, `SplitOrderMap` | the hash map with a lock for each bucket |
| `DependencyList` | the list of HTTP/2 stream headers |
| `Ring` | the ring between one producer and one consumer |
| `HpackTable` | the header tables with their two indexes |
| `BodyFrame` | the framing of HTTP/2 bodies |
| `Options` | a value that may be missing |

Where the code does less than its documentation or its name promises, the model follows the code, and the
lemmas say exactly when the promise is kept:

- `prefixmap::insert` overwrites a value under the empty key if that is the first key, and drops a NUL of a
  key that falls right behind a node, because the scan compares one character past the fragment.
- `prefixmap::search` gives the default in place of the longest inserted prefix where two longer keys part on
  the way of the query.
- Rows 5 and 6 of the Huffman table are the same, so byte 5 is decoded as byte 6, and the code that RFC 7541
  gives to byte 6 leads the decoder to a null pointer.
- A response without fields and with a body does not come back: the blank line is read as a field. One odd
  kind of request comes back as well, with an empty path and a method of two words.
- `StopListenerThread` waits for ever if a loop leaves between the arming of the stopper and the read of the
  count. This can happen as soon as two other loops run.
- A thread that leaves in the middle of its batch of events drops the rest of it, unless `epoll_wait` gives one
  event at a time; the default is eight.
- `createLogsString` stays in its specifier after `%c`, reads one byte for `%lc`, reads a float for the double
  of `%f` and skips `%F`.
- `pop_back` of the HPACK table forgets a pair that was pushed twice, and a table made from a list has empty
  indexes.
- `CreateBodyFrame` casts the size of the body to 32 bits. Beyond that size it may announce more than it copies,
  and on a multiple of 2^32 bytes it never ends.
- `to_ipv6_addr_t` refuses a double colon in front of seven groups, and takes up to eight groups behind a double
  colon that follows seven, the later ones over the earlier.
- `to_uint` knows no digit above `f`, though `to_string` writes radices up to 36, and `to_string` of the least
  signed number of a type, which has no absolute value in it, takes a negative index.

## Model

| member | source | states |
|---|---|---|
| `PrefixShape.InsertIsUpdate` | core/include/mms/ds/prefixmap.h:68-105 | one insert changes exactly the entry of its key, if and only if no value under the empty key is overwritten by the first insert and no NUL of the key falls right behind a node |
| `PrefixShape.RunRefinesMap` | core/include/mms/ds/prefixmap.h:68-105 | after any run of inserts with keys free of NUL the visible entries are those of a finite map, the nodes are exactly the pairwise common prefixes of the keys, and k keys need at most 2k - 1 nodes |
| `PrefixShape.InsertPreservesCanonical` | core/include/mms/ds/prefixmap.h:68-105 | every insert keeps the canonical shape and updates the entries |
| `PrefixShape.TreeDeterminedByMap` | core/include/mms/ds/prefixmap.h:41-105 | any two runs of inserts that build the same map build the same tree, whatever their order |
| `PrefixShape.EveryNodeEarnsItsPlace` | core/include/mms/ds/prefixmap.h:41-105 | every node holds an entry or has at least two children |
| `PrefixShape.EffectiveIsKey` | core/include/mms/ds/prefixmap.h:76-80 | the key is filed under its own name exactly when no node is followed by a NUL in it |
| `PrefixShape.SearchByKeys` | core/include/mms/ds/prefixmap.h:108-140 | in terms of the inserted keys alone: search gives the value of the longest inserted prefix of the query if and only if no two keys have a common prefix that is itself no key, is a prefix of the query and is longer; otherwise, and without an inserted prefix, it gives the default |
| `PrefixShape.SearchAfterRun` | core/include/mms/ds/prefixmap.h:68-140 | the same after any run of inserts, told from the keys and values that were inserted |
| `PrefixShape.PartingKeysHideEntries` | core/include/mms/ds/prefixmap.h:68-140 | after inserts of a, abc and abd the query abx gets the default, although a is its inserted prefix |
| `PrefixShape.EmptyFirstKeyIsLost` | core/include/mms/ds/prefixmap.h:70-101 | after an insert under the empty key into an unused tree, the next insert leaves only its own entry |
| `PrefixShape.NulIsDropped` | core/include/mms/ds/prefixmap.h:76-80 | after an insert under a, the key of a, NUL and b is filed under ab |
| `PrefixTrie.SplitKeepsTrie` | core/include/mms/ds/prefixmap.h:41-54 | cutting a fragment keeps the tree well formed and adds exactly one path |
| `PrefixTrie.LeafKeepsTrie` | core/include/mms/ds/prefixmap.h:91-95 | hanging a new node below another keeps the tree well formed |
| `PrefixTrie.EffectiveAfterScan` | core/include/mms/ds/prefixmap.h:76-80 | what scanning one fragment, terminating NUL included, means for where the key is filed |
| `PrefixTrie.WalkEnds` | core/include/mms/ds/prefixmap.h:74-99 | where the walk of insert ends, splitting, adding a leaf and setting the value is the insert on the map of paths |
| `PrefixTrie.SearchEnds` | core/include/mms/ds/prefixmap.h:108-140 | where the walk of search ends, its answer is the one for the deepest node |
| `PrefixMap.SplitRepresents` | core/include/mms/ds/prefixmap.h:41-54 | the pointer writes of breakmatch turn the representation of a tree into that of the split tree |
| `PrefixMap.LeafRepresents` | core/include/mms/ds/prefixmap.h:91-95 | a fresh node in the children of another represents the tree with the new leaf |
| `PrefixMap.PrefixMap.BreakMatch` | core/include/mms/ds/prefixmap.h:41-54 | the node is cut in place: the objects represent the split tree |
| `PrefixMap.PrefixMap.ScanFragment` | core/include/mms/ds/prefixmap.h:76-80 | the scan runs as far as fragment, NUL and key agree |
| `PrefixMap.PrefixMap.InsertStep` | core/include/mms/ds/prefixmap.h:74-99 | one round of the outer loop descends or ends with the tree the specification asks for |
| `PrefixMap.PrefixMap.EndWalk` | core/include/mms/ds/prefixmap.h:82-97 | where the walk ends the node is cut if the key left its fragment, and a node for the rest of the key is hung below |
| `PrefixMap.PrefixMap.Insert` | core/include/mms/ds/prefixmap.h:68-105 | the pointer tree after insert is the specified insert on the map of paths |
| `PrefixMap.PrefixMap.MatchFragment` | core/include/mms/ds/prefixmap.h:114-119 | how far fragment and query agree |
| `PrefixMap.PrefixMap.Search` | core/include/mms/ds/prefixmap.h:108-140 | search gives the answer for the deepest node on the way of the query |
| `HuffmanCode.DecodeEncode` | library/http/lib/hpack.cpp:50-106 | for every good table, decoding an encoded string with up to seven padding ones gives each byte as the last row of its code |
| `HuffmanCode.RoundTripIff` | library/http/lib/hpack.cpp:50-106 | a string comes back exactly if each of its bytes is the last row of its code |
| `HuffmanTable.TableIsGood` | library/http/include/http/hpack.h:312-346 | every code of the concrete table fits its length, a code begins another only if the two are equal, and the end-of-string code is a run of at least eight ones, so padding reaches no leaf |
| `HuffmanTable.TableCanon` | library/http/include/http/hpack.h:312-346 | byte 5 shares its code with byte 6 and comes back as that; every other byte comes back as itself |
| `HuffmanTable.StaticRoundTripIff` | library/http/lib/hpack.cpp:50-106 | with the table of the repository a byte string comes back if and only if it has no byte 5 |
| `HuffmanEncoder.AddBits` | library/http/lib/hpack.cpp:75-106 | adding bits to the free end of a byte never carries into the bits already there |
| `HuffmanEncoder.AppendChunk` | library/http/lib/hpack.cpp:84-98 | a chunk of code bits added to the byte under construction appends exactly those bits |
| `HuffmanEncoder.LastChunk` | library/http/lib/hpack.cpp:84-86 | the masked shift left gives the last bits of a code |
| `HuffmanEncoder.NextChunk` | library/http/lib/hpack.cpp:93-96 | the masked shift right gives the bits that fill the byte |
| `HuffmanEncoder.PutChunk` | library/http/lib/hpack.cpp:84-98 | a chunk of bits goes into the byte under construction; a byte that is full by then is followed by a cleared one |
| `HuffmanEncoder.PutSome` | library/http/lib/hpack.cpp:83-100 | one round of the inner loop writes the next bits of the code and nothing else |
| `HuffmanEncoder.PutCode` | library/http/lib/hpack.cpp:80-100 | one code is written, however many byte boundaries it straddles |
| `HuffmanEncoder.HuffmanStringSize` | library/http/include/http/hpack.h:373-380 | the announced size is the number of code bits divided by eight, rounded up |
| `HuffmanEncoder.AddHuffmanString` | library/http/lib/hpack.cpp:75-106 | the bytes written hold the codes in order and then ones, the cursor moves by the announced size, and all other bytes stay |
| `HuffmanTree.GrowRepresents` | library/http/lib/hpack.cpp:32-42 | a fresh child hung below a node represents the tree with one path more |
| `HuffmanTree.PartTreeStep` | library/http/lib/hpack.cpp:31-43 | one bit of a code makes the tree hold one more beginning of it |
| `HuffmanTree.HuffmanTree.Created` | library/http/lib/hpack.cpp:24-48 | the tree built row by row has exactly the ways of the codes, and each node the last row that ends there |
| `HuffmanTree.HuffmanTree.GetHuffmanString` | library/http/lib/hpack.cpp:50-73 | the walk over the linked tree decodes the bits, or fails where the source would follow a null pointer |
| `HuffmanRoundTrip.WrittenComesBackIff` | library/http/lib/hpack.cpp:50-106 | what the encoder wrote, padding included, decodes to the string exactly if it has no byte 5 |
| `HuffmanRoundTrip.EncodeThenDecode` | library/http/lib/hpack.cpp:50-106 | running the encoder and then the decoder gives the string back exactly if it has no byte 5 |
| `HuffmanMissing.EveryCodeIsUsed` | library/http/include/http/hpack.h:312-346 | of the 257 codes that the lengths of the table leave room for, every one but 0xfffffe6 of 28 bits belongs to a row |
| `HuffmanMissing.OnlyMissingChild` | library/http/lib/hpack.cpp:24-48 | at an inner node of the tree a child is missing if and only if its path is that code |
| `HuffmanMissing.DecodeMissing` | library/http/lib/hpack.cpp:50-73 | a stream that begins with that code, which Appendix B of RFC 7541 gives to byte 6, leads to a null pointer |
| `HuffmanMissing.DecodeFailsIff` | library/http/lib/hpack.cpp:50-73 | the walk follows a null pointer if and only if the bits are whole codes of some bytes, then that code, then anything |
| `HttpRoundTrip.RequestRoundTripIff` | library/http/lib/parser.cpp:43-219 | parsing the printed request gives it back, for every order of the fields and every body, if and only if version, names and values are ones a line can carry and the request line reads back |
| `HttpRoundTrip.RequestForward` | library/http/lib/parser.cpp:205-219 | a request that meets the conditions comes back |
| `HttpRoundTrip.RequestBackward` | library/http/lib/parser.cpp:205-219 | a request that came back meets the conditions |
| `HttpRoundTrip.ResponseRoundTripIff` | library/http/lib/parser.cpp:66-296 | parsing the printed response gives it back if and only if version, code, names and values are good and it has a field or no body |
| `HttpRoundTrip.ParseBlock` | library/http/lib/parser.cpp:181-190 | a printed block of fields is read back, and what follows the blank line is left as the body |
| `HttpRoundTrip.ParseFieldsKeeps` | library/http/lib/parser.cpp:181-190 | reading fields only adds known names with clean values and always consumes something |
| `HttpRoundTrip.NoFieldsEatBody` | library/http/lib/parser.cpp:181-190 | without fields the blank line is taken for a field, and part of the body with it |
| `HttpRoundTrip.TillCRLFText` | library/http/lib/parser.cpp:127-153 | a line without line ends is read, trimmed, up to its line end |
| `HttpRoundTrip.SpacedIsNoVersion` | library/http/lib/parser.cpp:174-179 | what has a space inside is not read as a version |
| `HttpParser.ParseTillSpace` | library/http/lib/parser.cpp:89-100 | the loop gives the word up to the next space, or fails on none |
| `HttpParser.ParseTillColon` | library/http/lib/parser.cpp:102-125 | the loops give the name before the colon and pass the colon |
| `HttpParser.ParseText` | library/http/lib/parser.cpp:127-139 | the loop gives the text up to the line end without its last spaces |
| `HttpParser.ParseTillCRLF` | library/http/lib/parser.cpp:127-153 | the text of the line, with its line end passed, or failure for a CR without LF |
| `HttpParser.ParseCheckCRLF` | library/http/lib/parser.cpp:161-172 | the line end at the cursor, if there is one |
| `HttpParser.ParseFieldLines` | library/http/lib/parser.cpp:181-190 | the loop over field lines computes what the grammar says |
| `HttpParser.PrintFields` | library/http/lib/parser.cpp:50-58 | the printing loop gives the field lines in the order of the hash map and the blank line |
| `HttpParser.HttpRequest.ToString` | library/http/lib/parser.cpp:43-64 | the text is request line, fields in the given order, blank line and body |
| `HttpParser.HttpRequest.ParseLine` | library/http/lib/parser.cpp:192-211 | method, path and version of the request line are in the fields and the version, or it fails where the source throws |
| `HttpParser.HttpRequest.Parse` | library/http/lib/parser.cpp:213-219 | the parsed request, or failure where the source throws |
| `HttpParser.HttpResponse.ToString` | library/http/lib/parser.cpp:66-87 | the text is status line, fields in the given order, blank line and body |
| `HttpParser.HttpResponse.ParseLine` | library/http/lib/parser.cpp:276-288 | version and code of the status line, or failure where the source throws |
| `HttpParser.HttpResponse.Parse` | library/http/lib/parser.cpp:290-296 | the parsed response, or failure where the source throws |
| `HttpRoundTrip.CodeComesBack` | library/http/include/http/httpdef.h:435-441 | the printed digits of a listed code are one word and are read as that code |
| `HttpTexts.ToCodeIff` | library/http/include/http/httpdef.h:435-441 | of all texts only the printed number of a listed code is read as that code |
| `HttpTexts.StatusLineIff` | library/http/lib/parser.cpp:276-288 | exactly which texts begin with a status line, and what is read of it: a version, the number of a listed code, and any line behind them; every other number is refused |
| `HttpTexts.ResponseCodeIsRead` | library/http/lib/parser.cpp:276-296 | whatever text a response is read from, its code is the number that stands there as the second word |
| `HttpTexts.RequestLineIff` | library/http/lib/parser.cpp:192-211 | exactly which texts begin with a request line, and what is read of it: a method, a path and a version, and nothing else on the line |
| `HttpTexts.TillCRLFIff` | library/http/lib/parser.cpp:127-172 | exactly which texts begin with a line: a value with spaces around it, up to CR LF, a bare LF or the end of the text; a lone CR is refused |
| `HttpTexts.TillColonIff` | library/http/lib/parser.cpp:102-125 | exactly which texts begin with a field name, with what may stand between the name and its colon |
| `HttpTexts.ParseAnyBlock` | library/http/lib/parser.cpp:181-190 | in a block of fields of any text unknown names are skipped, of repeated names the last line counts, lines may end in a bare LF, and what is behind the blank line is left |
| `HttpTexts.AnyRequestIsRead` | library/http/lib/parser.cpp:192-219 | what a request gives that is written in any of these ways, with fields and a body or with nothing behind its first line |
| `HttpTexts.AnyResponseIsRead` | library/http/lib/parser.cpp:276-296 | the same for a response |
| `HttpTexts.PrintedMessages` | library/http/lib/parser.cpp:43-87 | a printed request and a printed response, line by line |
| `Maths.ReadDigitsIff` | core/include/mms/base/maths.h:88-143 | reading the digits of a number back, in any radix up to 36 and any unsigned type, gives it if and only if no digit is worth sixteen or more; otherwise something smaller |
| `Maths.SignedRoundTripIff` | core/include/mms/base/maths.h:88-175 | a signed number is written and read back if and only if it is not the least of its type |
| `Maths.DigitsMean` | core/include/mms/base/maths.h:88-115 | the digits of a number, in any radix and either letter case, mean that number in positional notation |
| `Maths.ReadIsMeant` | core/include/mms/base/maths.h:127-143 | any text of digits below sixteen, with leading zeros and in either case, is read as what it means, up to the width of the type |
| `Maths.TableMeans` | core/include/mms/base/maths.h:40-57 | the table of the reader has the value of every digit below sixteen in either case, and 0 for all else |
| `Maths.NoLeadingZero` | core/include/mms/base/maths.h:88-115 | the digits begin with 0 only for zero itself |
| `Maths.LengthBound` | core/include/mms/base/maths.h:88-115 | a number below the k-th power of the radix has at most k digits |
| `Maths.WriteLowFirst` | core/include/mms/base/maths.h:97-103 | the do-while loop writes the digits from the last to the first |
| `Maths.PutSigned` | core/include/mms/base/maths.h:93-109 | the digits and the sign behind them, turned round, are the signed number |
| `Maths.ToStringSigned` | core/include/mms/base/maths.h:88-115 | the buffer holds the signed number; it fails on the least of the type, where the remainder is a negative index |
| `Maths.Reverse` | core/include/mms/base/maths.h:108 | the part of the buffer is turned round in place |
| `Maths.ToString` | core/include/mms/base/maths.h:88-115 | the buffer holds the digits of the number, and NUL where asked for |
| `Ipv6Text.SearchFinds` | core/include/mms/net/ipv6addr.h:99-111 | the search loop finds the leftmost longest run of at least two zero groups |
| `Ipv6Text.LeftmostLongestIsUnique` | core/include/mms/net/ipv6addr.h:99-111 | there is only one such run |
| `Ipv6Text.AddressTextFits` | core/include/mms/net/ipv6addr.h:31 | the printed address and its NUL fit 40 bytes |
| `Ipv6Text.AddressTextIs` | core/include/mms/net/ipv6addr.h:95-136 | the leftmost longest run of two or more zero groups is printed as a double colon, and without such a run all groups are printed |
| `Ipv6Text.ShortTexts` | core/include/mms/net/ipv6addr.h:95-136 | the text of the own host is ::1, that of no groups ::, and one with letters in both cases |
| `Ipv6Text.JoinedIsAddressIff` | core/include/mms/net/ipv6addr.h:39-93 | groups joined by single colons are read as an address if and only if there are eight of them |
| `Ipv6Spelling.EightGroupsAreRead` | core/include/mms/net/ipv6addr.h:39-93 | eight groups are read however they are spelled: with leading zeros, in either case, and of more than four digits the last sixteen bits |
| `Ipv6Spelling.DoubleColonIff` | core/include/mms/net/ipv6addr.h:39-93 | exactly which texts with a double colon are read, and as what, for any groups before and after it |
| `Ipv6Spelling.NotTheStandard` | core/include/mms/net/ipv6addr.h:39-93 | a text with a double colon is read exactly when at most seven groups are given (section 2.2 of RFC 4291), unless seven groups are behind a leading double colon or one to eight behind a double colon that follows seven |
| `Ipv6Text.ParseAddressText` | core/include/mms/net/ipv6addr.h:39-136 | parsing undoes printing for every address, in both letter cases |
| `Ipv6Text.ParseAcrossZeros` | core/include/mms/net/ipv6addr.h:64-92 | the two passes of the parser put the groups behind the double colon where they belong |
| `Ipv6Codec.RestIsText` | core/include/mms/net/ipv6addr.h:113-130 | group by group the printer gives the groups joined by colons with one run of zeros replaced by a double colon (section 4 of RFC 5952) |
| `Ipv6Codec.FindZeros` | core/include/mms/net/ipv6addr.h:99-111 | the first loop gives that run |
| `Ipv6Codec.AddressToString` | core/include/mms/net/ipv6addr.h:95-136 | the buffer holds the text of the address |
| `Ipv6Codec.CountColons` | core/include/mms/net/ipv6addr.h:44-62 | the first pass: the number of colons and where the double colon is |
| `Ipv6Codec.FillGroups` | core/include/mms/net/ipv6addr.h:64-86 | the second pass: the groups, or failure where it would write outside of them |
| `Ipv6Codec.ToIpv6Addr` | core/include/mms/net/ipv6addr.h:39-93 | the address of the text up to NUL or bracket, and its length |
| `Ipv6Codec.ToUint` | core/include/mms/base/maths.h:128-143 | the number that the text up to NUL means in an unsigned type, and its length |
| `Ipv6Codec.ParseAddressBuffer` | core/include/mms/net/ipv6addr.h:39-136 | the same for the text in a buffer that ends in NUL |
| `Ipv6Codec.ParseSocketText` | core/include/mms/net/ipv6addr.h:138-166 | parsing undoes printing for every address and port |
| `Ipv6Codec.SocketTextFits` | core/include/mms/net/ipv6addr.h:154-155 | the printed socket address and its NUL fit 48 bytes |
| `Ipv6Codec.SocketToString` | core/include/mms/net/ipv6addr.h:157-166 | the buffer holds the text of the socket address |
| `Ipv6Codec.ToIpv6SocketAddr` | core/include/mms/net/ipv6addr.h:138-152 | the loops over the buffer give the address and port that the text means, or fail where the source would read or write out of bounds; the length reported ends behind the NUL |
| `StopProtocol.OneLoopPerArming` | core/src/listener.cpp:68-96 | in every run each arming of the stopper ends exactly one loop, but for the last while it is still armed |
| `StopProtocol.RoundLowersByOne` | core/src/listener.cpp:73-81 | a round that completes has lowered the count it read by exactly one |
| `StopProtocol.ClosedMeansAllEnded` | core/src/listener.cpp:73-85 | when the descriptor is closed all other loops have ended and the count is last_thread |
| `StopProtocol.RunsAreShort` | core/src/listener.cpp:68-96 | every step lowers a measure built from the running count, so no run goes on for ever |
| `StopProtocol.RestIsClosedOrStuck` | core/src/listener.cpp:68-96 | a run that cannot go on is closed, or waits for a change that nothing can bring about |
| `StopProtocol.AlwaysClosesIff` | core/src/listener.cpp:68-90 | the shutdown is sure to complete if and only if at most one other loop runs |
| `StopProtocol.LostRound` | core/src/listener.cpp:72-81 | with two loops: the first leaves between the arming and the read of the count, and the protocol is stuck |
| `StopProtocol.StuckIff` | core/src/listener.cpp:72-81 | exactly the runs that are stuck, for any number of loops: the last step reads the count with loops still to end, every arming used up and its thread already counted out |
| `StopProtocol.StuckIffLastThree` | core/src/listener.cpp:72-81 | told from the events: a run is stuck if and only if it ends with a thread that takes the stopper and leaves and then the read of the count, with loops still to end |
| `StopProtocol.SomeRunCloses` | core/src/listener.cpp:68-90 | for every number of loops there is a run that completes the shutdown |
| `Dispatch.ExactlyOnePlace` | core/src/listener.cpp:178-239 | in every interleaving each processor is armed, in the batch of exactly one thread, spent or removed, and in one of these only |
| `Dispatch.OneThreadHandles` | core/src/listener.cpp:182-231 | no two threads run the handlers of one processor at once |
| `Dispatch.DeletedIsNeverDispatched` | core/include/mms/listener.h:147-150 | a deleted processor is never handed out or handled again |
| `Dispatch.InvStep` | core/src/listener.cpp:178-239 | every step of a thread keeps the places of the processors apart and complete |
| `Dispatch.LeaveSpendsTheRest` | core/src/listener.cpp:182-238 | a thread that leaves drops what was still in its batch |
| `Dispatch.SpentIsNotServed` | core/src/listener.cpp:182-238 | a processor dropped that way gets no more events unless it is armed again |
| `Dispatch.ServedIff` | core/src/listener.cpp:182-231 | in every run a processor is armed, or in a batch to be armed again, if and only if it was added or enabled and has not been deleted, removed or left behind since; and an idle thread can be given one that is in no batch |
| `Dispatch.KeptInService` | core/src/listener.cpp:216-224 | a processor that nothing takes out is armed or in a batch at any time of any run |
| `Dispatch.RunCanServe` | core/src/listener.cpp:189-231 | at any time a thread can work its batch off, and then it is idle and the processors are armed again |
| `Dispatch.FreedOnce` | core/include/mms/listener.h:147-150 | in every run a processor is freed at most once, and exactly if a loop deleted it |
| `Dispatch.DropsOnlyTheThrowerIff` | core/src/listener.cpp:181-238 | in all runs in which epoll_wait gives at most k events a leaving thread drops only the processor whose handler threw, if and only if k is at most 1 |
| `Dispatch.ProcessorBehindStopperIsLost` | core/src/listener.cpp:182-238 | a run from the start: the processor behind the stopper in one batch is dropped when the thread leaves, and is in no batch however the run goes on |
| `LogPipeline.FileAndBufferArePublished` | core/include/mms/log/log.h:248-269 | in every interleaving of owner and flusher the file followed by the buffer between the cursors is what was published |
| `LogPipeline.FileHoldsWholeEntries` | core/src/log.cpp:88-103 | between flushes the file holds whole entries, the oldest ones |
| `LogPipeline.FileIsPrefix` | core/src/log.cpp:88-103 | also during a flush the file is a beginning of what was published |
| `LogPipeline.AssertionsHold` | core/src/log.cpp:88-123 | the assertions of flush and replinish hold and nothing is copied outside the buffer |
| `LogPipeline.InvStep` | core/src/log.cpp:88-123 | every step of either thread keeps the cursors in order and loses, repeats or tears nothing |
| `LogPipeline.OwnerCanGoOn` | core/src/log.cpp:105-123 | the owner is never blocked for good |
| `LogPipeline.OwnerCanPublish` | core/src/log.cpp:105-123 | whenever no flush is under way the owner can publish its entry by steps of its own |
| `LogPipeline.PublishesIff` | core/include/mms/log/log.h:252-266 | the owner can publish an entry without a flush if and only if the buffer is allocated and the entry leaves a byte of it free |
| `LogPipeline.FlusherCatchesUp` | core/src/log.cpp:88-103 | whenever no flush is under way the flusher can write everything published to the file by steps of its own |
| `LogReader.SortedPermutation` | core/src/log.cpp:573-615 | reading a file to its end gives every record once, and in order if no record is later than the window |
| `LogReader.EmitsInOrder` | core/src/log.cpp:573-610 | one call keeps the order: what it gives is before everything still to come |
| `LogReader.WindowIsExact` | core/include/mms/log/log.h:300-301 | one nanosecond beyond the window records can come out of order |
| `LogReader.SortsUpToIff` | core/include/mms/log/log.h:300-301 | all files whose records are at most so late are read in order, if and only if that is at most 200 milliseconds |
| `LogReader.Log.ReadNext` | core/src/log.cpp:573-610 | one non-live call takes in records and gives out the earliest, as specified |
| `LogReader.ReadAll` | core/src/log.cpp:573-615 | the loop of the reader tool gives a permutation of the file, sorted if the records keep to the window |
| `FormatString.ScannersAgree` | core/include/mms/log/varadic.h:73-608 | on every accepted string without characters and reals the count, the type list, its length and what the reader consumes agree |
| `FormatString.AcceptedReadsBack` | core/src/log.cpp:355-530 | with as many arguments as specifiers every argument is read back in order from exactly its bytes |
| `FormatString.TextIsExpansion` | core/src/log.cpp:380-530 | the text shown is the format string with every directive replaced by the next argument and all else copied |
| `FormatReader.ReadsBackIff` | core/src/log.cpp:379-530 | for every format string and all arguments the reader gives back exactly these out of exactly their bytes if and only if the types it takes, a scan of the string alone, are theirs |
| `FormatReader.AcceptedReadsBackIff` | core/include/mms/log/varadic.h:136-608 | of the accepted strings exactly those are read back whose type list, as the writer makes it, is the list of types the reader takes |
| `FormatReader.DirectiveIff` | core/src/log.cpp:381-484 | of the single directives that are accepted, exactly those are misread: the reals but for %hf, and %c with a modifier |
| `FormatReader.IntegerIff` | core/include/mms/log/varadic.h:400-608 | integers are accepted exactly with the size of their modifier, signed for d and i and unsigned for u, o, x and X |
| `FormatReader.RealAndCharIff` | core/include/mms/log/varadic.h:400-608 | which arguments are accepted for reals and characters, with their sizes |
| `FormatReader.OwnIff` | core/include/mms/log/varadic.h:400-608 | the custom directives are accepted for the listed arguments, and the reader takes the same |
| `FormatReader.TrustedIff` | core/src/log.cpp:381-530 | the sets of specifier letters that are read back on all accepted strings: those without %c, %f and %F |
| `FormatReader.CharsAreMisread` | core/src/log.cpp:482-484 | two %c in a row: the second is not read |
| `FormatReader.RealsAreMisread` | core/src/log.cpp:472-480 | a double is packed with eight bytes, of which %f reads four and %F none |
| `FormatString.StepInStep` | core/include/mms/log/varadic.h:73-608 | one character takes all four scans from states that belong together to such states |
| `FormatString.PackAt` | core/include/mms/log/varadic.h:34-44 | where the bytes of an argument lie in the packed data |
| `FormatString.CopyVaradic` | core/include/mms/log/varadic.h:40-44 | the buffer holds the packed arguments |
| `FormatString.FormatStringCount` | core/include/mms/log/varadic.h:73-134 | the loop ends with the number of specifiers that the scan of the whole literal, NUL included, counts |
| `FormatString.FormatStringTypeList` | core/include/mms/log/varadic.h:136-343 | the loop ends with the listed types and their summed length, with a bad type more if the string ends inside a specifier |
| `FormatString.CheckFormatString` | core/include/mms/log/varadic.h:400-608 | the loop returns early or at the end with success exactly if no character of the literal is refused |
| `FormatString.CreateLogsString` | core/src/log.cpp:379-530 | the loop ends with the pieces shown, the bytes consumed, and whether bytes behind the arguments were read |
| `HashBuckets.Linearizable` | library/lockfree/include/SplitOrderList.h:69-195 | under any interleaving of threads that walk their bucket node by node, make their one write, count and release, with resizes in between, the answers are those of the operations done one by one on the one map the buckets stand for, and with no lock held size is the number of nodes |
| `HashBuckets.WalkIsUndisturbed` | library/lockfree/include/SplitOrderList.h:69-166 | what a thread has seen on its walk still holds when it makes its write, whatever the others do in between |
| `HashBuckets.CanBeDone` | library/lockfree/include/SplitOrderList.h:69-166 | at any time an operation on a bucket that is not locked can be carried out to its end, and gives the answer of the map |
| `HashBuckets.HistoryTells` | library/lockfree/include/SplitOrderList.h:69-166 | told from the answers: a key is in the map if and only if the last change answered with true was an insert, and then with the value of that insert |
| `HashBuckets.ResizedStands` | library/lockfree/include/SplitOrderList.h:173-195 | the new table of a resize, filled node by node, stands for the same map |
| `HashBuckets.ApplyRefines` | library/lockfree/include/SplitOrderList.h:69-166 | the write behind a walk is the operation on the map, with its answer |
| `HashBuckets.TotalIsSize` | library/lockfree/include/SplitOrderList.h:168-170 | the number of nodes is the number of keys |
| `HashBuckets.InsertStands` | library/lockfree/include/SplitOrderList.h:87-90 | a new key at the front of its bucket updates the map |
| `HashBuckets.RemoveStands` | library/lockfree/include/SplitOrderList.h:121-131 | a node taken out of its bucket removes its key |
| `HashBuckets.TakeOverOne` | library/lockfree/include/SplitOrderList.h:181-192 | one entry taken over into the new table |
| `SplitOrderMap.UnlinkHangs` | library/lockfree/include/SplitOrderList.h:121-131 | making the node before point behind it takes exactly one node off its chain |
| `SplitOrderMap.SplitOrderMap.Insert` | library/lockfree/include/SplitOrderList.h:69-98 | true if and only if the key was absent; an existing value stays |
| `SplitOrderMap.SplitOrderMap.Remove` | library/lockfree/include/SplitOrderList.h:113-136 | true if and only if the key was there; exactly its node is unlinked |
| `SplitOrderMap.SplitOrderMap.Find` | library/lockfree/include/SplitOrderList.h:138-151 | the value of the key in the map |
| `SplitOrderMap.SplitOrderMap.Contains` | library/lockfree/include/SplitOrderList.h:153-166 | whether the key is in the map |
| `SplitOrderMap.SplitOrderMap.Resize` | library/lockfree/include/SplitOrderList.h:173-195 | map and size are the same in the new table |
| `DependencyList.RunHoldsAll` | library/http/include/http/http2.h:668-703 | after any run of inserts with fresh headers every header and placeholder is on the chain exactly once, and the map only has headers that are on it |
| `DependencyList.RunOrderIsKept` | library/http/include/http/http2.h:668-703 | headers on the chain keep their order |
| `DependencyList.RunFollowsParents` | library/http/include/http/http2.h:668-703 | a header follows the one it was made dependent on, after any run |
| `DependencyList.PlacedRightBehind` | library/http/include/http/http2.h:675-699 | a header with a dependency stands right behind its parent and the others as they stood; one without, and a placeholder, stand at the end |
| `DependencyList.RunLaterIsCloser` | library/http/include/http/http2.h:685-690 | of two headers made dependent on the same stream the later one comes first, after any run |
| `DependencyList.RunMapKeeps` | library/http/include/http/http2.h:675-702 | the map never gives another header for an identifier it has |
| `DependencyList.MapKeeps` | library/http/include/http/http2.h:675-702 | a call enters the stream depended on and the new one if they are not there, and no others |
| `DependencyList.Requests.Insert` | library/http/include/http/http2.h:668-703 | the linked list and the map change as specified, and last is the end of the chain |
| `DependencyList.Requests.Destroy` | library/http/include/http/http2.h:659-666 | each header is freed once, in the order of the chain |
| `Ring.FirstInFirstOut` | core/include/mms/lockfree/fixedqueue.h:40-109 | in every interleaving popped entries and queued entries make up the pushed ones, and the queue has at most one entry less than slots |
| `Ring.NeverOverwrites` | core/include/mms/lockfree/fixedqueue.h:58-66 | the producer never writes a slot that is unread |
| `Ring.LoadsTheOldest` | core/include/mms/lockfree/fixedqueue.h:105-109 | what the consumer has loaded is the oldest entry |
| `Ring.ChecksStayTrue` | core/include/mms/lockfree/fixedqueue.h:41-48 | what one thread has checked is not undone by the other |
| `Ring.UnsafePushIff` | core/include/mms/lockfree/fixedqueue.h:69-74 | the unchecked push appends if and only if the ring is not full |
| `Ring.PushesIff` | core/include/mms/lockfree/fixedqueue.h:58-66 | at any time an idle producer gets its value into the queue by its three steps, if and only if a slot besides one is free |
| `Ring.PopsIff` | core/include/mms/lockfree/fixedqueue.h:46-48 | at any time an idle consumer takes the oldest entry off by its three steps, if and only if there is one |
| `Ring.FixedQueue.PushBack` | core/include/mms/lockfree/fixedqueue.h:58-66 | an entry is appended unless the ring is full |
| `Ring.FixedQueue.GetPopFront` | core/include/mms/lockfree/fixedqueue.h:105-109 | the first entry is taken off |
| `Ring.FixedQueue.Full` | core/include/mms/lockfree/fixedqueue.h:41-43 | full means one entry less than slots |
| `Ring.FixedQueue.Size` | core/include/mms/lockfree/fixedqueue.h:51-53 | the number of entries |
| `HpackTable.FieldIndexIsExact` | library/http/include/http/hpack.h:84-168 | over every run from an empty table entry_map is exactly the first index and the number of each field, and every hit of entry_value_map points at an equal entry |
| `HpackTable.LineIndexIsExact` | library/http/include/http/hpack.h:84-168 | as long as no pair is pushed that is there, entry_value_map finds every entry with a value |
| `HpackTable.PopLines` | library/http/include/http/hpack.h:98-125 | taking an entry off keeps entry_value_map exact if and only if its value is empty or no equal entry comes before it |
| `HpackTable.PairTwiceIsLost` | library/http/include/http/hpack.h:98-125 | a pair pushed twice and taken off once is no longer found |
| `HpackTable.SizeIsBounded` | library/http/include/http/hpack.h:154-168 | the dynamic table has at most max(1, max_size) entries |
| `HpackTable.InsertsKeepLast` | library/http/include/http/hpack.h:162-168 | after k inserts into an empty table of limit n the entries are the last (k - 1) % max(1, n) + 1 of those inserted, in order |
| `HpackTable.InsertKeepsAllIff` | library/http/include/http/hpack.h:162-168 | an insert keeps all entries in front of the new one if and only if there is room, but for one equal entry |
| `HpackTable.UpdateKeepsFirst` | library/http/include/http/hpack.h:154-160 | a new limit below the size keeps that many of the oldest entries |
| `HpackTable.ListTableIsNotIndexed` | library/http/include/http/hpack.h:56 | the table made from a list finds nothing by field or by line |
| `HpackTable.DynamicTable.PushBackEntry` | library/http/include/http/hpack.h:84-96 | the entry is appended; entry_value_map keeps an earlier index of it, entry_map counts it or enters its index, and both still index the table |
| `HpackTable.DynamicTable.PopBackEntry` | library/http/include/http/hpack.h:98-125 | the last entry is gone from the list and from entry_value_map, its field is counted down or dropped, and the exception of the debug build is never thrown |
| `HpackTable.DynamicTable.UpdateTo` | library/http/include/http/hpack.h:154-160 | entries are taken off the end until the new limit is met, unless the limit is the old one; the indexes stay right |
| `HpackTable.DynamicTable.InsertEntry` | library/http/include/http/hpack.h:162-168 | a full table is cleared first; the table is then the old or the empty one with the entry appended, and indexed |
| `HpackTable.DynamicTable.IndexOfField` | library/http/include/http/hpack.h:76-82 | the first entry with the field, or -1 if there is none |
| `BodyFrame.SplitIsBody` | library/http/lib/http2.cpp:38-68 | the payloads one behind the other are the body |
| `BodyFrame.SplitShape` | library/http/lib/http2.cpp:38-68 | every payload but the last is as large as allowed, and only the last frame ends the stream |
| `BodyFrame.SplitCount` | library/http/lib/http2.cpp:38-68 | there are max(1, ceil(n / m)) frames |
| `BodyFrame.ReadRecoversBody` | library/http/lib/http2.cpp:38-68 | a reader that follows the length fields gets the body |
| `BodyFrame.LengthIsBigEndian` | library/http/include/http/http2.h:164-165 | the length field is three bytes, the most significant first (section 4.1 of RFC 7540) |
| `BodyFrame.LengthRoundTripIff` | library/http/include/http/http2.h:164-165 | a length is read back if and only if it is below 2^24 |
| `BodyFrame.ReadsPayloads` | library/http/lib/http2.cpp:38-68 | a reader gets what the length fields announce |
| `BodyFrame.FramesAreSeen` | library/http/lib/http2.cpp:38-68 | on the wire the first frame is of type 0 and the others of type 9, only the last has flag 1, and all carry the stream identifier and their payload |
| `BodyFrame.EndsIff` | library/http/lib/http2.cpp:54-60 | the writer ends if and only if the body is empty or its size is no multiple of 2^32 |
| `BodyFrame.FourGigabytesNeverEnd` | library/http/lib/http2.cpp:39-60 | on a body of 2^32 bytes it writes an empty first frame and is in its loop after every number of turns |
| `BodyFrame.WrittenIff` | library/http/lib/http2.cpp:38-68 | when it has ended: the bytes are those of the frames of the body, and give the body to a reader, if and only if the size is below the limit of a frame or is not below it after the cast |
| `BodyFrame.ReceivedIff` | library/http/lib/http2.cpp:38-68 | a reader ever gets the body if and only if that holds, as it does for all sizes below 2^32 |
| `BodyFrame.PutTurns` | library/http/lib/http2.cpp:54-67 | the loop announces full frames, copies as many bytes as the first frame had, and leaves what was in the buffer behind them |
| `BodyFrame.CreateBodyFrame` | library/http/lib/http2.cpp:38-68 | the bytes written, for a body of any size and after any number of turns, are those of the specification |

## Left out

- HttpGrammar.FieldNames: the 227 field names are any set of tokens that has Method and Path; the name of IGNORE_THIS has a space and is none of them.
- HttpRoundTrip.ResponseRoundTripIff: the reason phrase is any text without line ends, not the table of phrases.
- HttpParser.ParseText: asks for one character in front of the cursor, which the source reads and which is there wherever it is called.
- Ipv6Spelling.DoubleColonIff: texts with more than one double colon or a single colon at an end are not among those it speaks of.
- Ipv6Codec.ToIpv6Addr: where the source writes outside the address or fails its assertion the model only says so; characters above 127 are not modelled.
- StopProtocol.AlwaysClosesIff: all loop threads run when the shutdown begins, and a thread that can take a step takes it in the end.
- Dispatch.ExactlyOnePlace: assumes that epoll hands a one-shot registration to one thread only, and that processors are armed by their own loop, and the stopper by the shutdown.
- LogPipeline.FileAndBufferArePublished: the flusher is enabled, every write to the file is complete, and memory is sequentially consistent; one logger is modelled, as part of the file that all of them share.
- LogReader.SortedPermutation: the non-live mode only; differences of timestamps do not overflow.
- FormatString.CreateLogsString: how a value is rendered is left open, only which bytes it is made from.
- FormatReader.TrustedIff: speaks of sets of letters in every string; for the single string see FormatReader.AcceptedReadsBackIff.
- SplitOrderMap.SplitOrderMap.Find: gives the value, not a reference through which it could be changed or that could outlive its node.
- SplitOrderMap.SplitOrderMap.Insert: runs under the lock of its bucket; the interleaving of the steps of several threads is in HashBuckets.Linearizable, over lists of entries.
- SplitOrderMap.SplitOrderMap.Resize: the nodes of the old table, which the source leaks, are not followed further.
- DependencyList.Requests.Insert: headers are fresh, that is on no chain and without a successor.
- HpackTable.SizeIsBounded: for insert, clear, pop_back and update_size; push_back has no limit.
- BodyFrame.CreateBodyFrame: the loop is followed for a given number of turns, so that the endless one can be modelled; the room for the output is asked for, and a frame must have room for its header and fit the length field.
- BodyFrame.ReadRecoversBody: frames are not padded; the stream identifier is any four bytes.
- Maths.SignedRoundTripIff: an accumulator of to_int that overflows wraps around; floating point is not modelled.
- HPACK integers and header strings, and the lockstep of encoder and decoder tables: the two directions do not undo each other in this code.
- `fixedqueue_t::pop_front` and its `operator[]`: the first tests a function name, the second ignores the index it computes.
- Sockets, SSL, UDP, signals, file status, the clock, live log reading, JSON configuration and command lines: they end in calls into libraries and the system.
- `cache::CallAPI`: depends on a JSON library that is not part of this model.
- GUID text, country codes, QUIC integers, the file cache, REST glue and MD5: easy or vendored members.
