# A verified model of iipsrv

iipsrv serves tiles and regions of very large images over FastCGI. This project models the path of a
request, from the bytes on the FastCGI connection to the samples of a tile, and proves what that path
keeps. The methods are written as the source writes them: streams with byte buffers and indices, a
cache with a list, an index and a byte counter, loops over sample buffers. Each is proved against a
function that says what it means, and the theorems are about those functions, for all inputs and all
runs. `dafny verify dfyconfig.toml` checks everything.

## How it is organised

**FastCGI records** (FastCGI Specification 1.0, sections 3.3, 3.4, 5.1 to 5.3 and 5.5).
`Wire` has the record format, `Transport` the socket: reads and writes move arbitrary non-empty
pieces. `Deframing` says what a reader makes of all bytes of a connection, and `Reader` proves that
the stream object does that, however the bytes arrive. `DeframingTheorem` lifts it to lists of
records. `Framing` says which records a writer sends and `Writer` proves that the stream object,
with its mutual recursion of flushing and closing, sends them. `FramingTheorem` and `RequestTheorem`
are about every sequence of calls on one writer and on the two writers of a request, `RoundTrip`
and `Session` about a writer facing a reader. `NameValues` and `Params` have the environment of a
request, `Padding` what unread padding does, `Acceptance` the start of a request from its first byte
to its standard input.

**Tiles.** `CacheKey`, `Lru` and `TileCache` are the cache: its keys, its meaning as a list in order
of last use, and the class with list, index and counter. `Tiles` and `TileManager` say what a tile
is when decoded anew and prove that the cache never shows. `Geometry` and `Region` stitch a region
out of tiles and prove it to be a slice of the image.

**Samples.** `Raster` has the tile that the transforms work on, `Symmetry` rotation and flipping as
symmetries of the rectangle, `Resample` the transforms that overwrite the buffer they read,
`Threshold` Otsu's threshold in exact arithmetic, `Pyramid` the resolution levels and the choice of
one, `Icc` the splitting of a colour profile.

## What does not hold

Some properties one would expect fail. Each has an exact condition.

- An empty record of another request makes a reader lose its own next record, and the content of a
  management record leaks into the stream. `DeliveredIsOwnIff` is the condition.
- Padding that is unread when the reader type is switched, such as that of a begin record, is taken for
  records (`SwitchIff`, `AcceptedIffIgnored`).
- A request is rejected when an empty record of another request, with nothing but empty ones behind it, or
  a management record with content comes before its begin record (`AcceptBehind`).
- A request that is cut off between two of its params is accepted with fewer of them (`CutAccepted`).
- A second begin record with the id of the running request makes the reader end that request
  (`SecondBeginIsRefused`); without one, END_REQUEST is sent once (`EveryRun`).
- A parameter whose name contains '=' answers for a shorter name, and a NUL hides what follows it
  (`FoundIff`, `LookupIff`).
- The Java encoder of name-value pairs cuts off strings that are not ASCII (`ReadsBackIffNarrow`).
- A closed stderr to which nothing was put has no end-of-stream record, so a reader of it ends with
  an error (`ReadsBackIffEofSent`).
- Cache keys of more than 1023 characters are cut off and collide; file names of up to 971
  characters are the exact limit (`KeysInjectiveIff`).
- A tile that cannot be compressed as asked is decoded again each time while a stale compressed tile of
  an older image is in the cache (`SecondTimeHitsIff`).
- A rotation by -90, -180 or -270 degrees fills the tile with what happens to be in memory
  (`RotatesIff`).
- Nearest neighbour resizing in place goes wrong when it overwrites a pixel it still needs
  (`ResizeInPlaceIff`; `WideningIff` for images that get wider).
- A profile of more than 255 * 65519 bytes cannot be put together again (`SplitIsLosslessIff`).

Twice the source says one thing and does another, and the model follows what it does. A comment in
`calculateResolution` speaks of keeping a greater resolution that was set before, but the resolution
is reset first (src/View.cc:31-53). Loading a JPEG2000 image logs n - numResolutions extra levels but
records one less in `virtual_levels` (src/OpenJPEGImage.cc:196-205).

## Model

| member | source | states |
|---|---|---|
| Wire.HeaderRoundTrip | fcgi/libfcgi/fcgiapp.c:1201-1219 | decoding a header gives back its type, lengths and the low sixteen bits of its request id |
| Wire.HeaderFields | fcgi/libfcgi/fcgiapp.c:1201-1219 | the value of every field of a header, ids and lengths as big-endian numbers |
| Wire.HeaderReads | fcgi/libfcgi/fcgiapp.c:1592-1600 | a reader takes the id and the length for big-endian numbers |
| Wire.EndBodyIs | fcgi/libfcgi/fcgiapp.c:1230-1242 | the body of END_REQUEST carries, for every exit status, its low 32 bits as a big-endian number, so every C int is read back as it was, then the protocol status and zeros |
| Wire.AlignInt8 | fcgi/libfcgi/fcgiapp.c:1272-1274 | the smallest multiple of 8 that is not below its argument |
| Wire.EncodeRecordsConcat | fcgi/libfcgi/fcgiapp.c:1386-1430 | the bytes of two lists of records, one after the other, are the bytes of the joined list |
| Transport.Socket.Read | fcgi/libfcgi/fcgiapp.c:1635-1644 | an arbitrary non-empty piece of what has arrived, moved to the buffer; nothing only at the end |
| Transport.Socket.WriteAll | fcgi/libfcgi/fcgiapp.c:1362-1374 | all bytes are sent in order, whatever part of them each write takes |
| Reader.Stream.constructor | fcgi/libfcgi/fcgiapp.c:1754-1809 | a new reader, with a buffer of the requested size, rounded up and within 32 and 65536, will deliver what Deliver makes of the bytes on the socket |
| Reader.Stream.FillBuffProc | fcgi/libfcgi/fcgiapp.c:1624-1742 | terminates on every finite wire; ends with a non-empty window or with the stream ended as Deliver says; what is still to come is unchanged |
| Reader.Stream.DeliverContent | fcgi/libfcgi/fcgiapp.c:1649-1654 | opens a non-empty window on the content that is buffered and loses nothing of the rest |
| Reader.Stream.ProcessHeader | fcgi/libfcgi/fcgiapp.c:1588-1613 | by version, type and id alone: the records of this id and type are the stream's, those of other ids are skipped, those of this id and another type are a protocol error; with it the reply, the request state and the record body left in place |
| Reader.Stream.ProcessBeginRecord | fcgi/libfcgi/fcgiapp.c:1527-1564 | a request is begun exactly when the id is not 0, the body is 8 bytes and all of it arrives; a second one is refused with CANT_MPX_CONN |
| Reader.Stream.ProcessManagementRecord | fcgi/libfcgi/fcgiapp.c:1454-1507 | every management record but GET_VALUES is answered with UNKNOWN_TYPE |
| Reader.Stream.GetStr | fcgi/libfcgi/fcgiapp.c:143-181 | the next n bytes of the delivery, or all that are left and then the end that Deliver gives |
| Reader.Stream.GetChar | fcgi/libfcgi/fcgiapp.c:108-126 | the next byte of the delivery, or EOF exactly at its end; an open stream always has a byte to return |
| Reader.Stream.UnGetChar | fcgi/libfcgi/fcgiapp.c:237-246 | the byte pushed back is the next one delivered, unless the window has no room before it |
| Reader.Stream.SetReaderType | fcgi/libfcgi/fcgiapp.c:1845-1857 | reading goes on at the same byte for another record type, with no memory of the record before |
| Deframing.Deliver | fcgi/libfcgi/fcgiapp.c:1624-1742 | the fate of all bytes of a wire: content, replies and the end; a begun request is not begun again, and only a confined reader ends at the end of a record |
| Deframing.ContentBite | fcgi/libfcgi/fcgiapp.c:1649-1654 | taking the content of a record in smaller pieces changes nothing |
| Deframing.PadBite | fcgi/libfcgi/fcgiapp.c:1668-1674 | dropping padding in smaller pieces changes nothing |
| DeframingTheorem.WireDelivery | fcgi/libfcgi/fcgiapp.c:1588-1742 | for every list of records and every record that stops the reader: exactly the contents of the records that reach the client, the replies to the others, and where reading stops; what each record is depends on its type and id alone |
| DeframingTheorem.OtherStreamFails | fcgi/libfcgi/fcgiapp.c:1606-1611 | a record of this request but another of its streams ends the stream with a protocol error, whatever follows |
| DeframingTheorem.DeliveredIsOwnIff | fcgi/libfcgi/fcgiapp.c:1649-1663 | the records delivered are those of this id and type if and only if no own content follows an empty foreign record with only empty records in between, and all content of management records does |
| DeframingTheorem.Deframed | fcgi/libfcgi/fcgiapp.c:1588-1742 | a wire of such records delivers the contents of the stream's own records and ends at the first empty one, with no byte of padding or of another record |
| DeframingTheorem.OwnAreMatching | fcgi/libfcgi/fcgiapp.c:1606-1612 | the own records hold the contents of all records of the stream's type and id, and of no other |
| DeframingTheorem.EmptyForeignRecordLosesContent | fcgi/libfcgi/fcgiapp.c:1649-1663 | an empty record of another request makes the reader drop the next record of its own |
| DeframingTheorem.ManagementContentLeaks | fcgi/libfcgi/fcgiapp.c:1493-1506 | the content of a management record reaches the client as if it were its own |
| DeframingTheorem.Truncated | fcgi/libfcgi/fcgiapp.c:1638-1641 | a wire cut anywhere before its end-of-stream record delivers a prefix of the content and then a protocol error |
| Writer.Stream.constructor | fcgi/libfcgi/fcgiapp.c:1754-1809 | a new writer has an empty buffer with room for a header, of the requested size, rounded up and within 32 and 65536 |
| Writer.Stream.FrameRecord | fcgi/libfcgi/fcgiapp.c:1397-1409 | the buffer becomes one complete record of the bytes put, zero padded to a multiple of 8, without leaving the buffer |
| Writer.Stream.EmptyBuffProc | fcgi/libfcgi/fcgiapp.c:1386-1430 | sends exactly the records that Flush, or on closing Close, prescribes; in raw mode the bytes as they are |
| Writer.Stream.WriteCloseRecords | fcgi/libfcgi/fcgiapp.c:1326-1358 | adds the end-of-stream record (not on a stderr never written to) and, for the last writer, END_REQUEST, from which the exit status can be read back |
| Writer.Stream.PutStr | fcgi/libfcgi/fcgiapp.c:310-341 | sends the records that Put prescribes and buffers the rest, however the bytes meet the buffer size |
| Writer.Stream.PutChar | fcgi/libfcgi/fcgiapp.c:282-293 | the same for one byte |
| Writer.Stream.FFlush | fcgi/libfcgi/fcgiapp.c:887-893 | sends one record of what is buffered, none when nothing is |
| Writer.Stream.FClose | fcgi/libfcgi/fcgiapp.c:912-929 | closes once: the closing records are sent and one writer fewer is counted; later calls do nothing |
| Framing.Pad | fcgi/libfcgi/fcgiapp.c:1397-1411 | at most 7 bytes, up to a multiple of 8 |
| Framing.PutBite | fcgi/libfcgi/fcgiapp.c:310-341 | putting bytes in two calls is putting them in one |
| Framing.PutFull | fcgi/libfcgi/fcgiapp.c:310-341 | putting into a full buffer is flushing first |
| Framing.PutFills | fcgi/libfcgi/fcgiapp.c:310-341 | a put sends full records only, none while everything fits, and never empties the buffer |
| FramingTheorem.StepFrames | fcgi/libfcgi/fcgiapp.c:1386-1430 | every call keeps: the records sent are data records of 1 to 65528 bytes, zero padding of at most 7, and closing records only after a close; their contents and the buffer are all bytes put |
| FramingTheorem.AloneFramed | fcgi/libfcgi/fcgiapp.c:1902-1916 | the same after every sequence of puts, flushes and closes on a writer of its own |
| FramingTheorem.AloneTakes | fcgi/libfcgi/fcgiapp.c:310-341 | the bytes taken are those put before the first close |
| RequestTheorem.EveryRun | fcgi/libfcgi/fcgiapp.c:1326-1358 | for every interleaving of puts, flushes, closes, changes of the exit status and replies of the reader: each stream is framed as above. END_REQUEST is sent once, when both streams are closed and not before, and the exit status read back from that record is the one set last before; only replies are behind it, if and only if no begin record that repeats the id of the request was answered |
| RequestTheorem.RepliesAreRecords | fcgi/libfcgi/fcgiapp.c:1493-1506 | the replies of a reader are records: UNKNOWN_TYPE with the type it does not know, or the refusal of another request with CANT_MPX_CONN |
| RequestTheorem.SecondBeginIsRefused | fcgi/libfcgi/fcgiapp.c:1534-1550 | a begin record with the id of the running request is answered with END_REQUEST for that id |
| RequestTheorem.LastStep | fcgi/libfcgi/fcgiapp.c:1347-1356 | being the last writer adds END_REQUEST to a close and changes nothing else |
| RequestTheorem.WireAligned | fcgi/libfcgi/fcgiapp.c:1397-1411 | the length of everything sent is a multiple of 8 |
| RequestTheorem.Finished | fcgi/libfcgi/fcgiapp.c:2002-2021 | after any calls, closing stderr and then stdout leaves a wire with one END_REQUEST for the request, behind all its other records, from which the exit status set last is read back, if and only if its id was not refused |
| RoundTrip.ClosedReadsBack | fcgi/libfcgi/fcgiapp.c:1902-1916 | all bytes put on a writer that was closed are delivered to a reader of the same type and id, then the end of the stream, with what follows it unread |
| RoundTrip.ReadsBackIffEofSent | fcgi/libfcgi/fcgiapp.c:1337-1343 | a closed stream reads back as it was put if and only if it is not a stderr to which nothing was put |
| Session.ReadMix | fcgi/libfcgi/fcgiapp.c:108-181 | any mix of GetChar and GetStr returns the content in order and ends only when more is asked for than there is |
| Session.ReadWire | fcgi/libfcgi/fcgiapp.c:1624-1742 | on every such wire, for every split into reads, buffer size and mix of calls: exactly the contents of the records of the stream's type and id |
| Session.PerformAll | fcgi/libfcgi/fcgiapp.c:887-929 | the writer objects send what the model of the request says, for every sequence of calls on both, changes of the exit status and replies |
| Session.Finish | fcgi/libfcgi/fcgiapp.c:2002-2021 | both streams are closed, with the records the model prescribes; the connection is kept if and only if the client asked for it and its input had no error |
| Session.WriteThenRead | fcgi/libfcgi/fcgiapp.c:1902-1916 | bytes written through one stream object are read back by another, for all ids, buffer sizes, alignments, splits and call patterns; the end is an error exactly for a stderr to which nothing was put |
| NameValues.PairsRoundTrip | fcgi/libfcgi/fcgiapp.c:1138-1190 | decoding the encoding of any list of pairs gives the list, in order |
| NameValues.LenRoundTrip | fcgi/libfcgi/fcgiapp.c:1146-1175 | a length in one or in four bytes is read back as it was |
| NameValues.EncodeLenIs | fcgi/java/FCGIMessage.java:264-292 | a length is written in that format, in one byte where it can be |
| NameValues.DecodeLenIff | fcgi/libfcgi/fcgiapp.c:1146-1158 | a length is read if and only if it is there: a byte below 128, or four as a big-endian number with the top bit set |
| NameValues.DecodePairIff | fcgi/libfcgi/fcgiapp.c:1138-1190 | a pair is read if and only if the bytes are its two lengths, its name and its value, in this order |
| NameValues.WholePairs | fcgi/libfcgi/fcgiapp.c:1138-1190 | a prefix of encoded pairs is decoded without complaint only if it is cut between two pairs |
| NameValues.MakeNameVal | fcgi/java/FCGIMessage.java:264-292 | writes, at the position and nothing after it, the encoding of as many UTF-8 bytes of each string as it has chars |
| NameValues.Utf8OfAscii | fcgi/java/FCGIMessage.java:264-292 | an ASCII string is sent as its characters |
| NameValues.Utf8Decodes | fcgi/java/FCGIMessage.java:264-292 | read as UTF-8, the bytes of a string are its characters; a surrogate without its partner is lost |
| NameValues.ReadsBackIffNarrow | fcgi/java/FCGIMessage.java:264-292 | the pair is read back with all bytes of its strings if and only if every char takes one byte |
| Params.Params.constructor | fcgi/libfcgi/fcgiapp.c:1023-1032 | an empty vector with its NULL in bounds |
| Params.Params.PutParam | fcgi/libfcgi/fcgiapp.c:1076-1088 | appends the entry; the terminating NULL stays in bounds through every doubling |
| Params.ReadParams | fcgi/libfcgi/fcgiapp.c:1138-1190 | appends the entries of all pairs that can be decoded from the stream; fails exactly when a pair is cut off |
| Params.GetParam | fcgi/libfcgi/fcgiapp.c:1103-1118 | the text after '=' of the first entry that starts with the name and '=', NULL if there is none |
| Params.MatchesIff | fcgi/libfcgi/fcgiapp.c:1103-1118 | an entry answers for its own name, if that has no NUL, and for every name that with a '=' starts its text |
| Params.MisleadsIff | fcgi/libfcgi/fcgiapp.c:1103-1118 | for a name without '=', the others that answer for it are those whose name, up to a NUL, starts with it and a '=' |
| Params.FoundIff | fcgi/libfcgi/fcgiapp.c:1103-1118 | the lookup stops at the first pair of the name if and only if no earlier pair answers for a name that is not its own |
| Params.LookupIff | fcgi/libfcgi/fcgiapp.c:1103-1118 | the answer is then the value of that pair up to a NUL: all of it if and only if it has none, and nothing if there is no such pair |
| Params.LookupFindsFirst | fcgi/libfcgi/fcgiapp.c:1103-1118 | for names without '=' or NUL and values without NUL, the value of the first pair with that name |
| Params.NameWithEqualsIsMisread | fcgi/libfcgi/fcgiapp.c:1103-1118 | a pair whose name contains '=' answers for a shorter name |
| Acceptance.AcceptRequest | fcgi/libfcgi/fcgiapp.c:2178-2256 | accepts or rejects as the bytes on the connection demand; then the request fields, the environment, the reader of standard input, the replies sent and the two writers are what those bytes say |
| Acceptance.RoleIsFound | fcgi/libfcgi/fcgiapp.c:2212-2228 | an accepted request has role 1, 2 or 3, and a lookup of FCGI_ROLE in its environment gives the name of that role |
| Acceptance.AcceptBehind | fcgi/libfcgi/fcgiapp.c:2205-2211 | records before the begin record: the request is rejected if the content of one reaches the client, or an empty one of another request makes the reader drop the begin body; otherwise they are answered and change nothing else |
| Acceptance.WellFormedAccepted | fcgi/libfcgi/fcgiapp.c:2178-2256 | every well-formed start of a request, unpadded, is accepted with its role and exactly the pairs sent, and standard input starts at the next byte |
| Padding.SwitchIff | fcgi/libfcgi/fcgiapp.c:1845-1857 | unread padding does no harm to any stream that may follow a switch of the reader type if and only if, read as records, it is made of complete records of other requests, own content that an empty one makes the reader drop, and no drop left over |
| Padding.IgnoredIsHarmless | fcgi/libfcgi/fcgiapp.c:1845-1857 | such padding makes no difference to whatever follows |
| Padding.NotIgnoredHarms | fcgi/libfcgi/fcgiapp.c:1845-1857 | any other padding harms a stream with nothing but its end, or one with a single byte |
| Padding.EndNeeds | fcgi/libfcgi/fcgiapp.c:1624-1742 | a stream that ends takes at least the rest of its record and one more header |
| Padding.SwitchIffUnpadded | fcgi/libfcgi/fcgiapp.c:1845-1857 | with unread padding that does not start with the version byte, every stream is read as it was sent if and only if there is no padding |
| Padding.HarmlessPadding | fcgi/libfcgi/fcgiapp.c:1845-1857 | unread padding that looks like records of other requests, each with content, does no harm |
| Acceptance.BeginPadding | fcgi/libfcgi/fcgiapp.c:2205-2231 | the padding of a begin record is read as the start of the params stream |
| Acceptance.AcceptIs | fcgi/libfcgi/fcgiapp.c:2205-2232 | a request is accepted as its role and its params stream demand, and that stream starts with the padding of the begin record |
| Acceptance.AcceptedIffIgnored | fcgi/libfcgi/fcgiapp.c:2178-2256 | padding of a begin record goes unnoticed before every params stream if and only if it is ignored in the sense above |
| Acceptance.AcceptedIffUnpadded | fcgi/libfcgi/fcgiapp.c:2178-2256 | a well-formed start of a request, padded with bytes that cannot start a header, is accepted as it should be if and only if there are none |
| Acceptance.CutAccepted | fcgi/libfcgi/fcgiapp.c:2178-2256 | a well-formed request that is cut off anywhere in its params stream is accepted if and only if what was delivered of it ends between two pairs, and then with the pairs so far |
| Acceptance.OnlyBeginAccepted | fcgi/libfcgi/fcgiapp.c:2178-2256 | a request of which nothing but the begin record arrives is accepted, without params |
| CacheKey.KeyInjective | src/Cache.h:289-293 | two tiles have the same key only if the file name and all six numbers agree, for names without NUL and keys that fit the buffer |
| CacheKey.KeysInjectiveIff | src/Cache.h:289-293 | for all numbers the commands pass, keys tell the tiles of all files with names of up to n characters apart if and only if n is at most 971 |
| CacheKey.LongNamesCollide | src/Cache.h:289-293 | with a name of 1023 characters or more, all tiles of a file have the same key |
| Lru.FitIsLongest | src/Cache.h:234-240 | what eviction leaves is the longest prefix, in order of use, that fits |
| Lru.InsertIs | src/Cache.h:201-242 | an insertion puts the tile before all others and keeps as many of them, in order of use, as fit; only an older tile under its own key goes; one that is not older is used instead and all stay |
| Lru.OversizedClears | src/Cache.h:234-240 | a tile larger than the cache empties it, itself included, unless one at least as new is resident under its key |
| Lru.EveryRun | src/Cache.h:201-275 | after every sequence of insertions, look-ups and clears: no key twice, the total within the limit, and the tiles strictly ordered by last use |
| Lru.EvictedIsOldest | src/Cache.h:201-242 | after every run, an insertion evicts only tiles last used before all those it keeps |
| Lru.TouchKeeps | src/Cache.h:140-146 | moving a tile to the front loses and changes none |
| Lru.TimestampsNeverGoBack | src/Cache.h:208-219 | an insertion never lowers the timestamp of a resident key |
| TileCache.Cache.constructor | src/Cache.h:177-182 | an empty cache |
| TileCache.Cache.TouchKey | src/Cache.h:140-146 | the list is spliced as Touch says and stays in bijection with the index |
| TileCache.Cache.RemoveKey | src/Cache.h:154-169 | the entry leaves list and index, and the byte counter still is the sum of the costs |
| TileCache.Cache.Clear | src/Cache.h:192-196 | nothing is left |
| TileCache.Cache.Insert | src/Cache.h:201-242 | list, index and counter agree and hold what Lru.Insert says: the new tile and then the longest part of the others, in order of use, that fits; newer tiles replace, older ones do not |
| TileCache.Cache.Evict | src/Cache.h:234-240 | ends before the list is empty while it has to pop, leaving the longest prefix that fits |
| TileCache.Cache.GetTile | src/Cache.h:264-275 | the tile stored under the key, now the most recently used; nothing when caching is off |
| Tiles.Crop | src/TileManager.cc:120-153 | the tile's buffer starts with the scanlines of the part to keep, closed up |
| Tiles.ScanlineAt | src/TileManager.cc:120-153 | sample i of kept scanline r is sample i of scanline r of the tile |
| Tiles.FreshIsInForm | src/TileManager.cc:63-103 | the answer is compressed as asked for every PNG request, and for JPEG exactly if eight bits in one or three channels were decoded; otherwise it is the uncompressed one |
| Tiles.UncompressedIs | src/TileManager.cc:34-72 | the uncompressed tile has the numbers that were asked for, the dimensions that were decoded and, unless it is padded, the samples |
| Tiles.CroppedSample | src/TileManager.cc:56-60 | sample by sample, the tile of a padded decoded one |
| TileManager.Transparent | src/TileManager.cc:158-293 | for every sound cache, the answer is the tile decoded, cropped and compressed anew from the current image, and the cache stays sound; also when only the uncompressed form is cached or the hit is stale |
| TileManager.ShortNamesArePlain | src/Cache.h:289-293 | for names of up to 971 characters, all requests of the commands have keys that identify them |
| TileManager.HitIsSound | src/TileManager.cc:261-265 | a current uncompressed hit of a sound cache has the buffer that cropping takes for granted |
| TileManager.CacheNeverShows | src/TileManager.cc:158-293 | over every run of requests, clears and image changes with increasing timestamps, the answers are the same as with no cache |
| TileManager.SecondTimeHitsIff | src/TileManager.cc:158-293 | whatever the cache held, a request that was served before, of a tile that fits, is answered from the cache if and only if the tile has the form asked for or no entry is left under the key of that form |
| TileManager.WrongTileServed | src/TileManager.cc:158-293 | with a name that fills the key alone, a request for one tile is answered with the tile asked for before |
| TileManager.SearchSound | src/TileManager.cc:172-200 | a hit that is not stale is the tile asked for, or its uncompressed form, as decoded from the current image |
| TileManager.Manager.CropTile | src/TileManager.cc:120-153 | the cropped tile, with its data and length |
| TileManager.Manager.GetNewTile | src/TileManager.cc:34-116 | the tile decoded, cropped and compressed anew, in the form that the decoded tile alone determines, which is also put into the cache |
| TileManager.Manager.SearchCache | src/TileManager.cc:172-200 | looks for the forms of the tile in the order the requested compression prescribes |
| TileManager.Manager.GetTile | src/TileManager.cc:158-293 | answers and leaves the cache as Serve says, whatever is cached, if a hit can be cropped; from a sound cache, returns the tile decoded anew from the current image, in the form that the decoded tile alone determines |
| Geometry.TileCount | src/TPTImage.cc:319-338 | the number of tiles that just cover a level |
| Geometry.TileSizeIs | src/TPTImage.cc:319-338 | a tile reaches from its offset to the next tile or to the edge of the level |
| Geometry.CopySizeIs | src/TileManager.cc:408-456 | what getRegion's case distinctions compute for a tile is the part of the region in that tile |
| Geometry.PartsAbut | src/TileManager.cc:408-456 | the parts of consecutive tiles are adjacent and together are the region |
| Region.ServedTile | src/TileManager.cc:34-153 | a tile as served shows its part of the level, edge tiles cropped to size |
| Region.TileNoIs | src/TileManager.cc:394 | the tile number of a row and column is the one from which a decoder finds them again |
| Region.CopyRow | src/TileManager.cc:463-471 | one line is copied and each of its samples counted as written once more |
| Region.CopyTile | src/TileManager.cc:459-487 | exactly the rectangle of a tile is written, each sample once, with the samples of the level |
| Region.TilePart | src/TileManager.cc:393-456 | the tile for a place in the region, with the part of it to copy: as wide and high as the region goes on there, and inside the tile |
| Region.StitchTile | src/TileManager.cc:388-490 | one more tile of a row of tiles is in place, and each sample so far was written once |
| Region.StitchRow | src/TileManager.cc:380-492 | one more row of tiles is in place |
| Region.GetRegion | src/TileManager.cc:296-498 | sample k of pixel (r, c) of the region is that of pixel (y + r, x + c) of the level, for all level, tile and region sizes and channel counts, and every sample is written exactly once |
| Region.RegionIsSlice | src/TileManager.cc:296-498 | a region painted row by row is the slice, pixel by pixel and channel by channel |
| Region.CodecDepicts | src/TPTImage.cc:319-338 | for every level and tile size there are tiles that show it |
| Region.TilesArePlain | src/TileManager.cc:388-394 | the tiles of a level have keys that identify them, for names of up to 971 characters and as many tiles as a C int can number |
| Region.CutOut | src/TileManager.cc:296-498 | from an empty cache, every region of every level is cut out of it |
| Symmetry.Rotate | src/Transforms.cc:702-772 | turns the tile by 90, 180 or 270 degrees; angles that are no multiple of 90, or one of 360, change nothing; for other multiples of 90 below 0 every sample is what happened to be in the new buffer |
| Symmetry.RotatesIff | src/Transforms.cc:702-772 | an image with samples is turned as its angle asks, whatever is in a new buffer, if and only if the angle is not a multiple of 90 below 0, multiples of 360 aside |
| Symmetry.Flip | src/Transforms.cc:885-927 | mirrors the tile, up-down for 2 and left-right for any other orientation |
| Symmetry.Moves | src/Transforms.cc:702-772 | where every pixel goes |
| Symmetry.TopLeftCorner | src/Transforms.cc:702-772 | where the top left corner goes: turns are clockwise, a horizontal flip goes right and a vertical one down |
| Symmetry.TurnTwice | src/Transforms.cc:702-772 | turning twice, by any two of the eight symmetries of the rectangle, is turning once by their composition: 90 twice is 180, and so on |
| Symmetry.ThereAndBack | src/Transforms.cc:702-772 | each of the eight followed by its inverse gives the tile back: 90 then 270, a flip twice |
| Symmetry.Group | src/Transforms.cc:702-772 | composition is associative, and each of the eight has an inverse |
| Symmetry.FlipAndRotate | src/CVT.cc:448-469 | a flip and then a rotation is the composition of the two, '!90' and '!270' the reflections in the diagonals; after a rotation that copies nothing the samples are what was in the new buffer |
| Symmetry.TurnedUnique | src/Transforms.cc:702-772 | a turn has one result, so its description determines the samples |
| Raster.CopySamples | src/Transforms.cc:520-525 | copies the samples of a pixel, also within one buffer |
| Symmetry.FlippedHalfTurn | src/Task.cc:362-366 | a horizontal flip and then 180 degrees is a vertical flip, which justifies rewriting '!180' |
| Resample.InterpolateNearestNeighbour | src/Transforms.cc:489-537 | in a new buffer, or in place with safe targets, pixel i of row j shows the pixel whose column is the floor of i * width / new width, and its row likewise; in place it always is what copying in that order gives; dimensions and length follow |
| Resample.SourceIsScaled | src/Transforms.cc:507-520 | the source of a pixel is the one at the scaled row and column |
| Resample.ResizeInPlaceIff | src/Transforms.cc:500-526 | resizing in place is right for every image if and only if no target needs a pixel that was overwritten with another |
| Resample.InPlaceIff | src/Transforms.cc:516-526 | the same for any map from targets to sources |
| Resample.ShrinkingIsSafe | src/Transforms.cc:511-526 | it is right whenever neither dimension grows: no source is before its target |
| Resample.WideningIff | src/Transforms.cc:500-526 | when the width grows and the area does not, it is right if and only if the image is one pixel wide |
| Resample.TallerCanFail | src/Transforms.cc:500-526 | four pixels in a row, resized to two by two in place, come out wrong |
| Resample.Flatten | src/Transforms.cc:860-880 | every pixel keeps its first bands samples, in place; nothing happens if there are no more than that |
| Raster.BytesIs | src/Transforms.cc:534 | a sample occupies as many whole bytes as its bits fill |
| Threshold.Otsu | src/Transforms.cc:965-998 | the smallest level with the greatest variance between two non-empty classes, as a byte; 0 if no level splits the pixels |
| Threshold.SplitsIff | src/Transforms.cc:979-985 | a level is considered if and only if there are pixels at most that bright and brighter ones |
| Threshold.BetweenPositive | src/Transforms.cc:980-995 | the variance of a split is never zero, so the first comparison with 0 always succeeds |
| Threshold.ScatterSplits | src/Transforms.cc:986-990 | variance between the classes and scatter within them add up to a total that does not depend on the level |
| Threshold.BestScattersLeast | src/Transforms.cc:965-998 | the level returned has the least scatter within its two classes, and no smaller level has as little |
| Pyramid.HalvedIsQuotient | src/OpenJPEGImage.cc:170-194 | halving k times with rounding is dividing by the k-th power of 2 |
| Pyramid.Image.LoadImageInfo | src/OpenJPEGImage.cc:156-205 | level k of the tables has the dimensions divided by 2^k; the number of levels is the least with which the smallest fits one tile; missing levels are generated and counted |
| Pyramid.View.CalculateResolution | src/View.cc:28-55 | terminates with the lowest level of at least the requested size, the full image if there is none |
| Pyramid.View.ResolutionSize | src/View.cc:69-76 | the dimensions of the chosen level |
| Pyramid.LowestUnique | src/View.cc:28-55 | there is only one such level |
| Pyramid.ChosenInTables | src/OpenJPEGImage.cc:287-297 | in the tables of the image, the chosen level is wide enough and all smaller ones are not |
| Icc.WriteICCProfile | src/JPEGCompressor.cc:475-534 | the markers emitted, their announced lengths and numbers, each with 1 to 65519 bytes of the profile; none for an empty profile |
| Icc.ChunkSize | src/JPEGCompressor.cc:497-509 | no marker is empty or longer than a JPEG marker can be |
| Icc.SplitIsLosslessIff | src/JPEGCompressor.cc:475-534 | the markers, in any order, give the profile back by their numbers if and only if it has at most 255 * 65519 bytes |

## Left out

- Codecs and compressors, which are fixed functions of a tile and the current version of an image; quality layers and embedded metadata, which are not part of a cache key, are fixed.
- FCGX_VFPrintF, the stdio wrappers and the close of a reading stream.
- Integer widths: lengths, indices and products are unbounded; in particular the sum of a name length and a value length, and width * height, do not overflow.
- The bytes an entry occupies (data, string capacities, bookkeeping), which are one positive cost for each key and tile.
- Sample types: tile data are samples, not bytes of 8, 16 or 32 bits.
- Floating point rounding: the ceil in getRegion, the scale factors of resizing and the means of the threshold are exact.
- Images that decode regions themselves, and regions that are empty or reach beyond the level.
- Bilinear interpolation, colour conversion and the other per-sample transforms; the histogram itself.
- Scaling, view ports and the maximum size of a view; headers, logging, configuration and command parsing.
- Transport.Socket.Read: does not model reads that fail; the input only ends.
- Transport.Socket.WriteAll: does not model writes that fail or are interrupted.
- Reader.Stream.FillBuffProc: does not model failing reads, and ends with a code of its own at a GET_VALUES record.
- Reader.Stream.ProcessHeader: does not model the reply to GET_VALUES, for which it returns a code of its own.
- Reader.Stream.ProcessManagementRecord: does not state the reply to GET_VALUES, which takes the values of limits from the server.
- Reader.Stream.ProcessBeginRecord: does not model the return of -1 when the refusal cannot be written.
- Reader.Stream.GetStr: returns a sequence instead of filling a caller's array.
- Deframing.Deliver: ends at a GET_VALUES record, where the source would answer and go on.
- DeframingTheorem.WireDelivery: counts a GET_VALUES record among those that stop the reader.
- Writer.Stream.EmptyBuffProc: does not model the error state after a failed write.
- Writer.Stream.FFlush: returns no error, because no write fails.
- Writer.Stream.FClose: returns no error, because no write fails.
- Session.Finish: does not model freeing the request and closing the connection.
- Acceptance.AcceptRequest: is one pass of the loop that tries again on another connection; keeping a connection for a second request is not modelled.
- TileManager.Manager.GetNewTile: does not model the watermark, which is placed at random.
- TileManager.CacheNeverShows: is for names whose keys identify their tiles (WrongTileServed shows another), and for timestamps that increase when an image changes.
- Pyramid.Image.LoadImageInfo: is for an image whose tables are empty, as after its construction.
