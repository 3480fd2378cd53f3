# CoreFoundation algorithms, verified

This project models seven self-contained algorithms of CoreFoundation (CF-1153.18) in Dafny and proves what they are
for. Each model keeps the shape of the C code: what the C code updates in place is a class or an array here, its loops
are loops, and each method is proved against a specification on values, about which the main results are then proved.
`dafny verify dfyconfig.toml` checks everything.

**Binary property lists** (`Bytes`, `PlistTree`, `PlistFormat`, `PlistReader`, `PlistEncoding`, `PlistObjects`,
`PlistRoundTrip`, `PlistBytes`, `PlistMarkers`, `PlistWriter`). The writer flattens a shared object graph into a
numbered list, emits it through an 8160-byte buffer and appends an offset table and a trailer. The reader checks the
trailer and rebuilds the graph recursively, with a table of objects already read and a path set that detects cycles.
`PlistTree.Decodes` is the reference definition of what an offset of a file denotes; it knows nothing of depths, path
sets or caches. Plain reading is proved sound and complete for it, reading with the table is proved equal to plain
reading and to build each collection once when everything is immutable, and parsing what was written is proved to give
the graph's tree. A round trip alone would allow any format, so `PlistBytes` says in bytes what is written, and
`PlistMarkers` what is read.

**The open-addressing hash table** (`HashTables`, `HashSlots`, `HashIdeal`, `HashIndex`, `BasicHash`, `HashRuns`). One
structure for sets, bags, dictionaries and index maps, with linear probing, tombstones counted in 16 bits, counts that
widen, and three kinds of rehash. Keys are words, two keys are equal when an uninterpreted function puts them in the
same class, and the hash is an uninterpreted function of the class. A table refines an ideal map from classes to
entries over every run.

**The deque-backed array** (`Powers`, `Ordering`, `DequeMoves`, `ArrayIdeal`, `MutableArray`). Every way the one splice
operation moves the store equals a sequence splice; the calls of the retain and release callbacks are logged in order,
and reference counts are proved balanced at the end of every run and never negative on the way.

**UTF-8** (`Utf`, `Utf8Encoder`, `Utf8Decoder`). The strict encoder and decoder against RFC 3629 and RFC 2781.

**The binary heap** (`HeapOrder`, `BinaryHeap`), **the bit vector** (`BitBuckets`, `BitRanges`, `BitVector`) and **base
one billion arithmetic** (`BigNumDigits`, `BigNumber`) against a multiset, a sequence of bits and the integers.

## What the proofs found

These are places where the code does less than a reader might expect. The model follows the code.

- The uniquing set and the object table of the property list writer compare by pointer, and only strings, numbers, dates
  and data are uniqued. A shared collection, boolean or UID is therefore listed again at every visit
  (`PlistRoundTrip.TimesListed`); only its first number is used by references. So the list has a repetition exactly when
  one of those is shared (`PlistRoundTrip.RepeatsIffShared`). The file is still right, but a chain of shared arrays makes
  it exponentially long (`PlistRoundTrip.SharedChainDoubles`).
- The property list reader keeps the low word of a 128-bit integer (`PlistRoundTrip.HighWordIsLost`), and rejects a
  dictionary with a collection for a key, which the writer writes (`PlistRoundTrip.ArrayKeyIsRejected`).
  `PlistRoundTrip.RoundTripIsExactIff` says that nothing else is lost.
- The integer reader passes its byte count on in 8 bits, so an integer of 256 or more bytes reads as 0
  (`PlistFormat.ReadIntIsRightIff`), and what has such an integer for its count reads as empty
  (`PlistFormat.LongCountReadsAsEmpty`). `PlistRoundTrip.LongCountLosesData` is a file of 301 bytes that stores one byte
  of data and parses as empty data.
- A hash table that grows fast skips a size. Full at the last but one, it goes to an index where the size table says no
  buckets (`HashTables.FullTableGrows`, `HashTables.FastGrowthLeavesTheTable`). By adds alone it never is there
  (`HashRuns.AddsReachTheLastSize`), but after removals (`HashTables.ShrinkingLeadsThere`). Setting its capacity to one
  more than its contents does the same whenever that needs the last size (`HashTables.RehashStaysInTableIff`).
- Comparing two hash tables looks keys up with the second table's callbacks and compares values with the first one's. It
  is symmetric exactly when the two agree on which keys and which values are equal, hashes and counts aside
  (`HashIdeal.ComparisonIsSymmetricIff`); a table without keys compares no values, so it does not agree with one
  that tells values apart.
- Renumbering an index map does not keep values apart from the two sentinels, which read back as 0 and as all ones
  (`HashIndex.RenumbersIff`, `HashIndex.SentinelReadsAsZero`).
- A surrogate pair that finds room for one unit only is consumed by the UTF-8 decoder and not written; the contract of
  `Utf8Decoder.FromUTF8` says exactly when, and `Utf8Decoder.PairIsLost` is an input. A lone 0xA9 decodes to U+FFFD, so
  such input does not encode back (`Utf.EncodeDecodeIff`, `Utf.LoneByteComesBackLonger`).
- The UTF-8 length of text counts three bytes for a surrogate on its own, at which the encoder stops
  (`Utf8Encoder.CountedLenIff`, `Utf8Encoder.LoneSurrogateIsCounted`).
- A column sum of exactly one billion is not carried, so a sum can have a digit out of range
  (`BigNumDigits.SumIsCanonicalIff`, `BigNumber.BillionIsNotCarried`), and a negative number added to its opposite leaves
  a negative zero, which compares as less than zero (`BigNumber.Add`, `BigNumber.CompareIsExactIff`,
  `BigNumber.NegativeZeroIsLess`).

## Model

| member | source | states |
|---|---|---|
| PlistRoundTrip.WriteThenParse | CF-1153.18/CFBinaryPList.c:543-707 | the round trip: for every shared acyclic graph that fits the format, parsing the written file gives the tree the graph unfolds to (128-bit integers cut to their low word), and fails exactly when some dictionary in it has a collection for a key |
| PlistRoundTrip.RoundTripIsExactIff | CF-1153.18/CFBinaryPList.c:1061-1559 | write-then-parse is the identity if and only if no dictionary key is a collection and no 128-bit integer has a non-zero high word |
| PlistWriter.WritePlist | CF-1153.18/CFBinaryPList.c:610-707 | a non-zero result is the length of the file; the sink got exactly that file, which is "bplist00", the objects byte by byte as the format describes them, their offsets and the trailer, lists the objects in preorder with each class of uniqued leaves once, and parses back to the graph's tree; a failing stream leaves at most a prefix of it and gives 0; at the first object without an encoding it gives 0 and the sink got the header and the objects before that one, up to what was still in the buffer |
| PlistRoundTrip.FlattenNumbersTheGraph | CF-1153.18/CFBinaryPList.c:543-585 | after flattening, the root is number 0, each reference of each listed object has a number, and each number leads to an object equal to the one it stands for, although shared collections are listed once a visit |
| PlistRoundTrip.FlattenKeepsInv | CF-1153.18/CFBinaryPList.c:543-585 | what every call of the flattening keeps: numbers lead to equal objects, the uniquing set only holds listed objects, and whatever is listed has its references numbered |
| PlistRoundTrip.FlattenGrows | CF-1153.18/CFBinaryPList.c:543-585 | flattening only appends to the list and never renumbers an object that has a number |
| PlistRoundTrip.ListedOnceAVisit | CF-1153.18/CFBinaryPList.c:543-585 | in every graph, objects that are not uniqued are listed once for each time the unfolded tree comes to them |
| PlistRoundTrip.ListedOnceAClass | CF-1153.18/CFBinaryPList.c:543-585 | a class of uniqued leaves is listed once, at the first visit to any of its members, and not again |
| PlistRoundTrip.TimesListed | CF-1153.18/CFBinaryPList.c:543-585 | how often the written list holds each object: never twice when it is uniqued, otherwise exactly as often as it is visited |
| PlistRoundTrip.RepeatsIffShared | CF-1153.18/CFBinaryPList.c:543-585 | the list is free of repetition if and only if no collection, boolean or UID is visited twice |
| PlistRoundTrip.SharedChainDoubles | CF-1153.18/CFBinaryPList.c:557-585 | a chain of k + 1 arrays, each holding the one before it twice, is written as 2^(k + 1) - 1 objects |
| PlistWriter.Flattener.FlattenPlist | CF-1153.18/CFBinaryPList.c:543-585 | the recursion that updates the object list, the object table and the uniquing set in place computes one flattening step after the other |
| PlistRoundTrip.FileIsAccepted | CF-1153.18/CFBinaryPList.c:759-847 | every file the writer produces passes every trailer and offset-table check of the reader |
| PlistRoundTrip.OffsetsAreStarts | CF-1153.18/CFBinaryPList.c:658-688 | entry k of the written offset table, read back with the written width, is where object k starts in the file |
| PlistRoundTrip.TreeReadsBack | CF-1153.18/CFBinaryPList.c:1061-1559 | in a file that holds the graph, each object denotes its tree when its dictionary keys are primitive and denotes nothing otherwise |
| PlistRoundTrip.RefIsHome | CF-1153.18/CFBinaryPList.c:872-886 | a reference written for an object is resolved to the place where an equal object starts |
| PlistRoundTrip.TrailerBack | CF-1153.18/CFBinaryPList.c:759-847 | a written trailer is parsed back field by field |
| PlistRoundTrip.LowWordsKeepIff | CF-1153.18/CFBinaryPList.c:1104-1127 | cutting 128-bit integers to their low word changes a tree exactly when it has one with a non-zero high word |
| PlistRoundTrip.HighWordIsLost | CF-1153.18/CFBinaryPList.c:1104-1127 | a file that does not round-trip: the 128-bit integer 2^64 comes back as 0 |
| PlistRoundTrip.ArrayKeyIsRejected | CF-1153.18/CFBinaryPList.c:1513-1526 | a file the writer produces and the reader rejects: an array as a dictionary key |
| PlistObjects.LeafBack | CF-1153.18/CFBinaryPList.c:1083-1298 | the encoding of every leaf, wherever it stands in an accepted file, is read as that leaf (low word of a 128-bit integer) |
| PlistObjects.RefsBack | CF-1153.18/CFBinaryPList.c:1299-1559 | the header and reference run of a written collection are read as its kind, count and references |
| PlistObjects.ReadIntBack | CF-1153.18/CFBinaryPList.c:855-869 | an encoded integer object is read back with its value and the position after it |
| PlistObjects.CountBack | CF-1153.18/CFBinaryPList.c:329-350 | a marker with its count, inline or as a following integer object, is read back as the count |
| PlistObjects.LowWordOfInt128 | CF-1153.18/CFBinaryPList.c:735-757 | reading 16 bytes through a 64-bit accumulator leaves the low word |
| Bytes.GetSizedInt | CF-1153.18/CFBinaryPList.c:735-757 | the byte loop yields the big-endian value of any number of bytes modulo 2^64 |
| Bytes.SizedIntIsValue | CF-1153.18/CFBinaryPList.c:735-757 | the 64-bit accumulator holds the positional value modulo 2^64 |
| Bytes.SizedIntInvertsToBE | CF-1153.18/CFBinaryPList.c:735-757 | reading w big-endian bytes inverts writing them for every value that fits |
| Bytes.ConcatBEEntry | CF-1153.18/CFBinaryPList.c:684-688 | entry k of a run of fixed-width integers stands at k times the width |
| PlistWriter.ComputeByteCount | CF-1153.18/CFBinaryPList.c:589-597 | the loops find the smallest of 1, 2, 4 and 8 bytes that hold the count: it holds it, and half of it does not |
| PlistWriter.WriteBuffer.WriteBytes | CF-1153.18/CFBinaryPList.c:169-205 | all bytes reach the sink, or an error is noted and a prefix of them did; after an error nothing is written |
| PlistWriter.WriteBuffer.Flush | CF-1153.18/CFBinaryPList.c:207-210 | the buffer is empty afterwards and, without an error, the sink holds everything written |
| PlistWriter.WriteBuffer.Write | CF-1153.18/CFBinaryPList.c:212-237 | buffering is transparent for every length: without an error, sink plus buffer is everything written so far and written + used is its length |
| PlistWriter.PositionIsTotal | CF-1153.18/CFBinaryPList.c:658-661 | without an error the position recorded for an object is the number of bytes written before it |
| PlistWriter.WriteBuffer.AppendInt | CF-1153.18/CFBinaryPList.c:329-350 | writes 10, 11, 12 or 13 and the value in the fewest of 1, 2, 4 or 8 bytes that hold it |
| PlistWriter.WriteBuffer.AppendUid | CF-1153.18/CFBinaryPList.c:352-371 | writes 80, 81 or 83 and the number in the fewest of 1, 2 or 4 bytes that hold it |
| PlistWriter.WriteBuffer.AppendString | CF-1153.18/CFBinaryPList.c:373-404 | what is written has high half 5 and a byte a character exactly when every character is at most 7F, and otherwise high half 6 and two bytes a character, behind the count |
| PlistWriter.WriteBuffer.AppendObject | CF-1153.18/CFBinaryPList.c:456-541 | writes exactly the object as the format describes it, marker, count, value or references, or nothing and false for a type it does not know |
| PlistBytes.IntIs | CF-1153.18/CFBinaryPList.c:329-350 | the encoding of every integer is one of the markers 10 to 13 and its value in the fewest bytes the format has |
| PlistBytes.UidIs | CF-1153.18/CFBinaryPList.c:352-371 | the same for UIDs, behind 80, 81 or 83 |
| PlistBytes.StringIs | CF-1153.18/CFBinaryPList.c:373-404 | a string is one byte a character behind high half 5 when all its characters are at most 7F, and two bytes a character behind 6 in every other case |
| PlistBytes.LeafIs | CF-1153.18/CFBinaryPList.c:456-541 | every leaf is encoded behind its marker: 09 and 08 for booleans, 14 and both words of a 128-bit integer, 22 and 23 for reals, 33 for dates, 4 with its count for data |
| PlistBytes.NodeIs | CF-1153.18/CFBinaryPList.c:456-541 | an array is its count behind A and the number of each item, a dictionary its pairs behind D and the numbers of keys and then values, each in the width given |
| PlistBytes.FileIs | CF-1153.18/CFBinaryPList.c:643-707 | the whole file, in bytes: header, objects end to end from 8 on, a table of where each starts in the fewest bytes, and a trailer that says all this |
| PlistBytes.ListedInPreorder | CF-1153.18/CFBinaryPList.c:543-585 | every flattening call lists the preorder of the unfolded tree, without uniqued leaves whose class has been seen |
| PlistBytes.UniquedKinds | CF-1153.18/CFBinaryPList.c:543-562 | the kinds of which only the first object of a class is listed are strings, numbers, dates and data |
| PlistBytes.ExampleOrder | CF-1153.18/CFBinaryPList.c:543-585 | an array of a string, another and the first again is listed as the array, the one string and the other |
| PlistBytes.WrittenOrder | CF-1153.18/CFBinaryPList.c:543-585 | so the written list is the preorder from the root with each class of uniqued leaves at its first place only |
| PlistWriter.WriteObjects | CF-1153.18/CFBinaryPList.c:652-676 | the header and the objects are written in list order up to the first without an encoding, and the recorded positions are where each starts |
| PlistWriter.WriteTables | CF-1153.18/CFBinaryPList.c:680-707 | the offset table, the trailer and the last flush complete the file |
| PlistFormat.GetTopLevelInfo | CF-1153.18/CFBinaryPList.c:759-847 | the trailer check succeeds exactly on accepted files, with the parsed trailer and the root's offset |
| PlistFormat.TableLeavesArePrimitive | CF-1153.18/CFBinaryPList.c:849-853 | no object the reader finishes without following references is a collection |
| PlistFormat.ReadIntIsRightIff | CF-1153.18/CFBinaryPList.c:855-869 | an integer object is read as the integer stored, modulo 2^64, if and only if it has fewer than 256 bytes or is zero; longer ones read as zero |
| PlistFormat.CountIsRightIff | CF-1153.18/CFBinaryPList.c:1195-1201 | the same condition for the element count behind a marker |
| PlistFormat.LongCountReadsAsEmpty | CF-1153.18/CFBinaryPList.c:1189-1215 | data, a string or a collection whose count is such an integer reads as an empty one |
| PlistRoundTrip.LongCountIsAccepted | CF-1153.18/CFBinaryPList.c:759-847 | a whole file with such a count passes every trailer and offset-table check |
| PlistRoundTrip.LongCountLosesData | CF-1153.18/CFBinaryPList.c:855-869 | that file stores one byte behind a count of 1 in 256 bytes, the count is read as 0, and the file parses as empty data |
| PlistReader.Reader.CreateObject | CF-1153.18/CFBinaryPList.c:1061-1559 | reading with the offset-to-object table gives the success flag and value of plain reading from the same depth and below the same path, keeps every cached object what its offset denotes and, when collections are cached, those built once and complete; it hands the path set back unchanged on success |
| PlistReader.Reader.CreateCollection | CF-1153.18/CFBinaryPList.c:1299-1556 | the collection branch: the path set appears only past depth 15, an offset already on it fails, and it is removed again on success |
| PlistReader.Reader.ReadRef | CF-1153.18/CFBinaryPList.c:1513-1526 | one reference of a collection is read as plain reading reads it, one level down and below the collection |
| PlistReader.Reader.ReadList | CF-1153.18/CFBinaryPList.c:1513-1526 | the loop over references delivers the values of all references in order, or fails with the first failure or collection key |
| PlistReader.Reader.Complete | CF-1153.18/CFBinaryPList.c:1536-1556 | a collection all of whose references are read is built, taken off the path and cached; when collections are cached, its offset was not built before and its parts were |
| PlistReader.NotAmongItsParts | CF-1153.18/CFBinaryPList.c:1536-1556 | no collection is cached by the reading of its own parts, as they are all smaller |
| PlistReader.EveryWalkIsBuilt | CF-1153.18/CFBinaryPList.c:1061-1559 | once the root is built, so is every collection that any walk along references ends at |
| PlistReader.TryParse | CF-1153.18/CFBinaryPList.c:1566-1584 | for each mutability option the parse of a byte string is what plain reading makes of it; when everything is immutable, each collection that references lead to from the root is built exactly once, however often it is referred to |
| PlistReader.ParseSucceedsIff | CF-1153.18/CFBinaryPList.c:1061-1559 | an accepted file parses exactly when no reference cycle, no unreadable object and no collection key can be reached from its root |
| PlistMarkers.MarkerSaysKind | CF-1153.18/CFBinaryPList.c:1083-1559 | in every accepted file, the kind of the value an offset denotes is the one its marker byte says, and no other marker has a value: 00, 08, 09, 10 to 14, 22, 23, 33 and high halves 4, 5, 6, 8, A, C and D |
| PlistMarkers.RootMarkerSaysKind | CF-1153.18/CFBinaryPList.c:1299-1424 | the same for a file that parses: the value is null, false, true, an array, a set or a dictionary exactly when the byte at the root's offset is 00, 08, 09 or has high half A, C or D |
| PlistMarkers.CountSays | CF-1153.18/CFBinaryPList.c:1195-1201 | the count of an object is the low half of its marker, or the positional value of the integer behind it, and is missing in exactly the cases named |
| PlistMarkers.LeafSays | CF-1153.18/CFBinaryPList.c:1104-1298 | numbers, reals, dates and UIDs are the bytes behind the marker, as many as it says, all before the offset table |
| PlistMarkers.TextSays | CF-1153.18/CFBinaryPList.c:1189-1277 | data and strings are as many bytes, or characters of one or two bytes, most significant first, as the count says |
| PlistMarkers.RefsSay | CF-1153.18/CFBinaryPList.c:1299-1424 | a collection has as many references as its count says, a dictionary twice as many, from behind the count on |
| PlistMarkers.RefSays | CF-1153.18/CFBinaryPList.c:872-886 | a reference leads to where the entry of the offset table with its number says, or nowhere when there is no such object or it does not lie between the header and the offset table |
| PlistMarkers.ReadableIff | CF-1153.18/CFBinaryPList.c:1061-1559 | an object can be read if and only if its marker is known and all of it lies between the header and the offset table |
| PlistMarkers.AcceptedIff | CF-1153.18/CFBinaryPList.c:759-847 | a file is accepted if and only if its table and trailer fill it to the end, its widths hold the numbers they are for, and every entry leads back into the objects, the root behind the header |
| PlistMarkers.TrailerSays | CF-1153.18/CFBinaryPList.c:759-847 | each field of the trailer is the positional value of its bytes at the end of the file |
| PlistMarkers.SetFileIsASet | CF-1153.18/CFBinaryPList.c:1299-1424 | a file of 46 bytes, given byte by byte, is accepted and parses as a set of one string |
| PlistTree.PathStartsAtSixteen | CF-1153.18/CFBinaryPList.c:1323-1328 | there is no path set down to depth 15, and the collection at depth 16 starts it |
| PlistReader.Reader.CachesWhat | CF-1153.18/CFBinaryPList.c:1083-1556 | which finished objects the table of objects remembers, for each mutability option |
| PlistTree.ReadIsSound | CF-1153.18/CFBinaryPList.c:1061-1559 | whatever plain reading returns is what the offset denotes |
| PlistTree.ReadIsComplete | CF-1153.18/CFBinaryPList.c:1061-1559 | whatever an offset denotes is read from every depth and below every path that leads to it: the cycle check never rejects a value |
| PlistTree.ReadIffDecodes | CF-1153.18/CFBinaryPList.c:1061-1559 | from the root, plain reading returns a value exactly when the root denotes it |
| PlistTree.DecodesIsDeterministic | CF-1153.18/CFBinaryPList.c:1061-1559 | an offset denotes at most one value |
| PlistTree.NotOnPath | CF-1153.18/CFBinaryPList.c:1063-1073 | an offset that denotes a value (a cached one, say) is on no path that leads down to it |
| PlistTree.RoomShrinks | CF-1153.18/CFBinaryPList.c:1072-1078 | the termination measure: entering a collection uses up one of the offsets the path set does not hold |
| PlistTree.CyclesNeverRead | CF-1153.18/CFBinaryPList.c:1323-1328 | reading never succeeds when a reference cycle can be reached, although the path set starts only past depth 15 |
| PlistTree.ReadSucceedsIff | CF-1153.18/CFBinaryPList.c:1299-1556 | reading succeeds exactly when every walk along references from the root is free of repetition and ends at an understood object whose keys are leaves |
| HashRuns.Run | CF-1153.18/CFBasicHash.c:1332-1391 | every run of adds, sets, replaces and removes from an empty table refines the same run on the ideal map, whatever tombstones and rehashes it goes through, up to the first operation the table is stuck at, and its count is the successful adds less the successful removes; a fast-growing table that is never removed from stays at even size indices |
| HashRuns.StuckIff | CF-1153.18/CFBasicHash.c:1259-1262 | a table is stuck at an operation exactly when that adds a class and the table is full at the last size, or growing fast and full at the last but one |
| HashRuns.AddsReachTheLastSize | CF-1153.18/CFBasicHash.c:1135-1143 | a fast-growing table that is only added to is stuck at the last size only |
| HashTables.FullTableGrows | CF-1153.18/CFBasicHash.c:1127-1147 | a full table grows by one size, fast-growing by two; so it finds no size if and only if it is at the last, and goes past the last if and only if it grows fast and is at the last but one |
| HashTables.RehashStaysInTableIff | CF-1153.18/CFBasicHash.c:1135-1147 | for every request, the size a rehash goes to is one of the table's exactly when the capacity suffices, at the last but one size if a fast-growing table asks for one more |
| HashTables.FastGrowthLeavesTheTable | CF-1153.18/CFBasicHash.c:1135-1147 | such a table: 2003267722 classes at index 43 go to index 45, which has no buckets |
| HashTables.ShrinkingLeadsThere | CF-1153.18/CFBasicHash.c:1314-1325 | how a fast-growing table gets there: shrunk to an odd index, and grown again |
| BasicHash.Table.CanAddIff | CF-1153.18/CFBasicHash.c:1259-1262 | one more class can be added unless the table is full at its last size, or growing fast and full at the last but one |
| BasicHash.Table.FindBucket | CF-1153.18/CFBasicHashFindBucket.m:38-192 | linear probing finds a class exactly when it is present, with its bucket and count, and otherwise the first bucket that is not live, going on from the hash around the end (none only when the table is full) |
| BasicHash.Table.FindBucketNoCollision | CF-1153.18/CFBasicHashFindBucket.m:38-192 | without tombstones, an absent class gets the first bucket that is not live, going on from the hash |
| HashSlots.ProbeIsModular | CF-1153.18/CFBasicHashFindBucket.m:99-181 | the bucket probed after j others is the hash plus j, modulo the number of buckets |
| HashSlots.FoundFree | CF-1153.18/CFBasicHashFindBucket.m:112-192 | a search that stops at a bucket without a class, having met no tombstone, has found the first one that is free |
| HashSlots.StoredWords | CF-1153.18/CFBasicHash.c:499-514 | 0 and all ones are stored as A7BAADB1 and A5BAADB9, every other word as itself |
| HashSlots.EmptyEndsSearch | CF-1153.18/CFBasicHashFindBucket.m:112-122 | a class not met before an empty bucket is nowhere in the table |
| HashSlots.FullSearch | CF-1153.18/CFBasicHashFindBucket.m:183-192 | a search of all buckets misses nothing, and one without a tombstone means all are live |
| HashSlots.AddKeeps | CF-1153.18/CFBasicHash.c:1259-1286 | filling a free bucket, tombstone or empty, keeps every other class reachable and adds one entry |
| HashSlots.ReplaceKeeps | CF-1153.18/CFBasicHash.c:1288-1298 | replacing a live bucket changes one entry only |
| HashSlots.RemoveKeeps | CF-1153.18/CFBasicHash.c:1300-1330 | leaving a tombstone keeps every other class reachable and removes one entry |
| HashSlots.MoveBucket | CF-1153.18/CFBasicHash.c:1199-1229 | one turn of a rehash carries one entry over and keeps those already there |
| HashSlots.AllMoved | CF-1153.18/CFBasicHash.c:1127-1249 | after a rehash the new buckets stand for the same ideal map |
| HashSlots.EncodeRoundTripsIff | CF-1153.18/CFBasicHash.c:499-514 | a word stored in a slot reads back as itself exactly when it is not one of the two sentinels |
| BasicHash.Table.Rehash | CF-1153.18/CFBasicHash.c:1127-1249 | grow, shrink and sweep keep the contents and the number of used buckets, leave no tombstone, and go to the size asked for |
| BasicHash.Table.RehashIndex | CF-1153.18/CFBasicHash.c:1135-1143 | the new size is the first with the capacity asked for, one more when a fast-growing table asks for one, and the same in a sweep |
| BasicHash.Table.NumBucketsIndexForCapacity | CF-1153.18/CFBasicHash.c:702-708 | the first size whose capacity is enough |
| BasicHash.Table.BumpCounts | CF-1153.18/CFBasicHash.c:569-626 | widening the counts loses nothing |
| BasicHash.Table.IncSlotCount | CF-1153.18/CFBasicHash.c:628-676 | exactly one count goes up by one; the counts are widened if and only if the width does not hold one more, and only as far as that takes |
| BasicHash.Table.Store | CF-1153.18/CFBasicHash.c:499-546 | one bucket gets the encoded key and value |
| BasicHash.Table.AddBucket | CF-1153.18/CFBasicHash.c:1259-1286 | a new class is added, growing first exactly when capacity is used up and taking a reused tombstone off the count |
| BasicHash.Table.RemoveBucket | CF-1153.18/CFBasicHash.c:1300-1330 | a class is removed and the table is again valid: tombstones counted exactly across the 16-bit roll-over, fewer than a quarter of 20 or more buckets |
| BasicHash.Table.EmptyBucket | CF-1153.18/CFBasicHash.c:1300-1313 | the true number of tombstones goes up by one, the 16-bit field by one modulo 2^16 |
| BasicHash.Table.ShrinkOrSweep | CF-1153.18/CFBasicHash.c:1314-1330 | the contents stay and the accounting is restored: the table shrinks if and only if two sizes down (five when it grows fast) would do, and is otherwise swept if and only if tombstones are a quarter of 20 or more buckets or their count rolled over |
| BasicHash.Table.CountUp | CF-1153.18/CFBasicHash.c:1338-1345 | one entry of a bag counts one more |
| BasicHash.Table.CountDown | CF-1153.18/CFBasicHash.c:1382-1387 | one entry of a bag counts one less |
| BasicHash.Table.ReplaceBucket | CF-1153.18/CFBasicHash.c:1288-1298 | one entry gets a new key and value and keeps its count |
| BasicHash.Table.Accounting | CF-1153.18/CFBasicHash.c:1300-1330 | in every valid table used_buckets is the number of live buckets within capacity, deleted is exactly the number of tombstones, and 20 or more buckets have fewer tombstones than a quarter |
| HashIdeal.LiveBucketsAreClasses | CF-1153.18/CFBasicHash.c:1300-1330 | there is one live bucket for each class |
| BasicHash.Table.AddValue | CF-1153.18/CFBasicHash.c:1332-1350 | an absent class gets exactly this key and value and counts 1; a present one keeps its key and value, and counts once more in a bag, up to the largest count; every other class is as it was, and the result says whether anything changed |
| BasicHash.Table.ReplaceValue | CF-1153.18/CFBasicHash.c:1352-1362 | a present class holds exactly this key and value afterwards, with the count it had; an absent one stays absent, and every other class is as it was |
| BasicHash.Table.SetValue | CF-1153.18/CFBasicHash.c:1364-1376 | afterwards the class holds exactly this key and value, with the count it had or 1, and every other class is as it was |
| BasicHash.Table.RemoveValue | CF-1153.18/CFBasicHash.c:1378-1391 | the result is the count before; a class that counts 1 goes, one that counts more keeps key and value and counts once less, except at the largest count; a sentinel removes nothing, and every other class is as it was |
| HashIdeal.AddMeans | CF-1153.18/CFBasicHash.c:1332-1350 | what an add is in every run: absent, present in a bag, present elsewhere |
| HashIdeal.SetMeans | CF-1153.18/CFBasicHash.c:1364-1376 | what a set is in every run: the class holds this key and value afterwards |
| HashIdeal.ReplaceMeans | CF-1153.18/CFBasicHash.c:1352-1362 | what a replace is in every run |
| HashIdeal.RemoveMeans | CF-1153.18/CFBasicHash.c:1378-1391 | what a remove is in every run: the last count drops the class |
| BasicHash.Table.GetCount | CF-1153.18/CFBasicHash.c:931-941 | the sum over all slots is the sum of the counts of the ideal map |
| BasicHash.Table.GetCountOfKey | CF-1153.18/CFBasicHash.c:943-951 | the count of the key's class, or 0 when it is absent or the key is a sentinel |
| BasicHash.Table.GetBucket | CF-1153.18/CFBasicHash.c:723-736 | the entry of a live bucket, or one that counts 0 |
| BasicHash.Table.SetCapacity | CF-1153.18/CFBasicHash.c:1251-1257 | the contents stay, the capacity is at least the one asked for, and the size is the one a rehash for it goes to |
| BasicHash.Table.RemoveAllValues | CF-1153.18/CFBasicHash.c:1407-1411 | the table is valid and empty, and back at the size without buckets |
| HashIdeal.RunTotal | CF-1153.18/CFBasicHash.c:931-941 | over any run the total of the counts is the sum of what each operation changed |
| HashIdeal.StepChangesTotal | CF-1153.18/CFBasicHash.c:1332-1391 | an operation changes the total by exactly the amount its result tells the caller |
| HashRuns.HashesAreEqual | CF-1153.18/CFBasicHash.c:971-989 | true exactly when the totals are equal and each entry of the first table is found in the second, its key as the second table's callbacks compare keys and, where the first has keys, its value as the first table's compare values; for keyings that agree, exactly when each entry of either table is found in the other |
| HashIdeal.ComparisonIsEquality | CF-1153.18/CFBasicHash.c:971-989 | between tables whose keyings agree, comparing totals and the entries of one side is equality of the contents |
| HashIdeal.ComparisonIsSymmetricIff | CF-1153.18/CFBasicHash.c:971-989 | comparing is symmetric on all contents two tables can have if and only if their keyings agree on which keys are equal and on which values pass for equal; hashes, counts and class names do not matter |
| HashIdeal.KeysTellApart | CF-1153.18/CFBasicHash.c:971-989 | for any two keys that the keyings tell apart differently, two tables of one entry that compare equal one way only |
| HashIdeal.ValuesTellApart | CF-1153.18/CFBasicHash.c:971-989 | the same for any two values, as the value callback is that of the first table |
| HashIdeal.SameContentsIffSameEntries | CF-1153.18/CFBasicHash.c:971-989 | where keys are classed alike, equal contents are the same classes with the same counts and equal values |
| HashRuns.CompareBothWays | CF-1153.18/CFBasicHash.c:971-989 | two tables of one entry, built and compared both ways: exactly which of the two results is true |
| BasicHash.Table.ContentsAreStorable | CF-1153.18/CFBasicHash.c:1332-1391 | every valid table holds each key in its class, no sentinels, and counts as its kind has them |
| HashIdeal.MatchedAndEqualTotals | CF-1153.18/CFBasicHash.c:971-989 | one-sided matching and equal totals are enough for equal contents, because an unmatched entry would count for something |
| HashRuns.EveryBucketIsFound | CF-1153.18/CFBasicHash.c:991-1002 | the walk that stops after the used buckets compares every entry |
| HashRuns.CompareBucket | CF-1153.18/CFBasicHash.c:991-1002 | one turn of the walk: whether the bucket is used, and whether the other table has as much |
| HashRuns.RunIndex | CF-1153.18/CFBasicHash.c:1413-1465 | every run of insertions and deletions on an index map is the same run on a sequence, including all rehashes, up to the first insertion the table is stuck at |
| HashIndex.InsertIndex | CF-1153.18/CFBasicHash.c:1413-1443 | adding an absent class with value v inserts its key at position v of the sequence |
| HashIndex.DeleteIndex | CF-1153.18/CFBasicHash.c:1445-1465 | removing the class numbered v deletes position v |
| HashIndex.RenumberKeeps | CF-1153.18/CFBasicHash.c:1428-1438 | renumbering values in place changes the value of each entry to the shifted one as it reads back, and nothing else |
| HashIndex.RenumbersIff | CF-1153.18/CFBasicHash.c:1428-1438 | each value is shifted as it should if and only if none becomes a sentinel |
| HashIndex.SentinelReadsAsZero | CF-1153.18/CFBasicHash.c:1428-1438 | the failing input: a value one below a sentinel becomes 0 |
| HashIndex.SizeOfIndex | CF-1153.18/CFBasicHash.c:1413-1465 | an index map has as many classes as its sequence has entries |
| BasicHash.Table.AddIntValueAndInc | CF-1153.18/CFBasicHash.c:1413-1443 | the absent class is added with v, values below v stay and values from v on go up by one, except where that is a sentinel or wraps around; a present class changes nothing |
| BasicHash.Table.RemoveIntValueAndDec | CF-1153.18/CFBasicHash.c:1445-1465 | a class with value v goes, values below v stay and greater values come down by one, except where that is a sentinel |
| HashIndex.AddShifts | CF-1153.18/CFBasicHash.c:1428-1438 | after an insertion at v every entry keeps its key and count, and its value is as it should be |
| HashIndex.RemoveShifts | CF-1153.18/CFBasicHash.c:1445-1465 | the same after a deletion |
| MutableArray.Run | CF-1153.18/CFArray.c:686-772 | every run of replace, set, insert, append, remove, exchange and remove-all is the same run on a sequence, and with both callbacks each value is retained on balance once for each of its places and never released more often than retained |
| MutableArray.DequeArray.ReplaceValues | CF-1153.18/CFArray.c:922-993 | in every case the contents become old[..loc] + new + old[loc+len..], place by place; the calls made are one retain for each new value in order, and then one release for each old value in order; cells no longer in use are cleared |
| MutableArray.DequeArray.Reposition | CF-1153.18/CFArray.c:775-859 | the regions before and after the range keep their items around a gap of the new size, whichever of the cases moves them: in a new store if and only if the old one is too tight, centred in the capacity that is next, and otherwise in the old one at the place stated |
| MutableArray.DequeArray.Reallocate | CF-1153.18/CFArray.c:795-817 | both regions are copied to the middle of a store of the rounded capacity |
| MutableArray.DequeArray.MoveC | CF-1153.18/CFArray.c:819-826 | moving the right region only |
| MutableArray.DequeArray.MoveA | CF-1153.18/CFArray.c:827-835 | moving the left region only |
| MutableArray.DequeArray.Recenter | CF-1153.18/CFArray.c:836-858 | moving both regions inside the store in the order that loses nothing |
| DequeMoves.MoveRightPart | CF-1153.18/CFArray.c:819-826 | an overlapping move of the right region and the clearing behind it leave both regions in place |
| DequeMoves.MoveLeftPart | CF-1153.18/CFArray.c:827-835 | the same for the left region |
| DequeMoves.MoveBothLeft | CF-1153.18/CFArray.c:847-851 | re-centring to the left, left region first, clobbers no cell that is still to be read |
| DequeMoves.MoveBothRight | CF-1153.18/CFArray.c:852-857 | re-centring to the right, right region first, clobbers no cell that is still to be read |
| Powers.RoundUpBounds | CF-1153.18/CFArray.c:46-49 | the rounded capacity is 4 below 4, and otherwise the power of two that is above the capacity and at most twice as large |
| Powers.FlslBounds | CF-1153.18/CFArray.c:46-49 | 1 << flsl(n) is the first power of two above n |
| MutableArray.DequeArray.ReleaseValues | CF-1153.18/CFArray.c:197-240 | the values of the range are released in order and their cells cleared, and no other |
| MutableArray.DequeArray.SetValueAtIndex | CF-1153.18/CFArray.c:695-720 | one place changes and no other, one retain before one release, as far as there are callbacks; at the end it appends |
| MutableArray.DequeArray.InsertValueAtIndex | CF-1153.18/CFArray.c:722-729 | the contents become old[..idx] + [value] + old[idx..], with exactly one retain when there is a callback |
| MutableArray.DequeArray.AppendValue | CF-1153.18/CFArray.c:686-693 | the contents become old + [value], with exactly one retain when there is a callback |
| MutableArray.DequeArray.RemoveValueAtIndex | CF-1153.18/CFArray.c:753-760 | the contents become old[..idx] + old[idx + 1..], with exactly one release, of the value that was there, when there is a callback |
| MutableArray.DequeArray.ExchangeValuesAtIndices | CF-1153.18/CFArray.c:733-751 | each of two places holds what the other held, all others what they held, and no callback is called |
| MutableArray.DequeArray.RemoveAllValues | CF-1153.18/CFArray.c:762-772 | everything is released in order and the store is given up |
| MutableArray.DequeArray.AppendArray | CF-1153.18/CFArray.c:1102-1108 | a range of another array, or of the array itself as it was, is appended, and each value retained in order |
| ArrayIdeal.InsertMeans | CF-1153.18/CFArray.c:722-729 | what an insertion is in every run: where the value goes, and the one call for it |
| ArrayIdeal.SetMeans | CF-1153.18/CFArray.c:695-720 | what a set is in every run |
| ArrayIdeal.RemoveMeans | CF-1153.18/CFArray.c:753-760 | what a removal is in every run: which value goes, and the one call for it |
| ArrayIdeal.ReplaceMeans | CF-1153.18/CFArray.c:922-993 | what a replacement is, place by place and call by call |
| ArrayIdeal.RemoveAllMeans | CF-1153.18/CFArray.c:762-772 | nothing is left, and every value is released in order |
| ArrayIdeal.StepBalance | CF-1153.18/CFArray.c:922-993 | with both callbacks every operation leaves each value retained once for each of its places |
| ArrayIdeal.StepNeverDips | CF-1153.18/CFArray.c:934-958 | during an operation the balance of a value never falls below the smaller of its balances before and after |
| ArrayIdeal.RunBalance | CF-1153.18/CFArray.c:197-240 | the same over whole runs: balanced at the end, never negative on the way |
| MutableArray.DequeArray.BSearchValues | CF-1153.18/CFArray.c:1074-1100 | on a sorted range under a total preorder, the lower bound: everything before it is less than the value and nothing from it on is |
| MutableArray.DequeArray.ProbeByPowers | CF-1153.18/CFArray.c:1088-1098 | the probes by falling powers of two stay in the range and close in on the bound |
| MutableArray.DequeArray.ZSort | CF-1153.18/CFArray.c:1006-1018 | the range becomes sorted, by exchanges only, and nothing else changes |
| Utf.GrammarGivesOctets | CF-1153.18/CFBuiltinConverters.c:999-1011 | the grammar of RFC 3629 section 4 generates only octets of section 3 |
| Utf.OctetsInGrammar | CF-1153.18/CFBuiltinConverters.c:999-1011 | and every character number's octets are in the grammar and give the number back |
| Utf.DecodeEncode | CF-1153.18/CFBuiltinConverters.c:946-986 | decode(encode(s)) == s for every well-formed UTF-16 s, with all input consumed both ways |
| Utf.EncodeDecode | CF-1153.18/CFBuiltinConverters.c:1013-1106 | encode(decode(b)) == b for every well-formed UTF-8 b, with all input consumed both ways |
| Utf.EncodeDecodeIff | CF-1153.18/CFBuiltinConverters.c:1025-1044 | decoding any input and encoding the result gives the input back if and only if it is well-formed, that is, all of it is accepted and it has no lone 0xA9 |
| Utf.LoneByteComesBackLonger | CF-1153.18/CFBuiltinConverters.c:1025-1044 | the failing input: the single byte A9 |
| Utf.AcceptsIff | CF-1153.18/CFBuiltinConverters.c:1025-1044 | the decoder consumes its whole input exactly when that is a concatenation of grammar sequences and lone 0xA9 bytes |
| Utf.Pieces8OfOctets | CF-1153.18/CFBuiltinConverters.c:1025-1044 | no two lists of such pieces have the same bytes |
| Utf.Scalars16OfUnits | CF-1153.18/CFBuiltinConverters.c:956-974 | no two lists of characters have the same UTF-16 units, and reading them gives the list |
| Utf.WellFormed16Iff | CF-1153.18/CFBuiltinConverters.c:956-974 | a sequence is well-formed UTF-16 exactly when the encoder reads all of it |
| Utf.UnitsSay | CF-1153.18/CFBuiltinConverters.c:956-974 | a character of the basic plane is one unit; any other is a high surrogate and a low one, of which the number is 10000 + 400 * (high - D800) + (low - DC00) |
| Utf.Next16Says | CF-1153.18/CFBuiltinConverters.c:956-974 | the first character of a sequence of units, in those numbers |
| Utf.OctetsSay | CF-1153.18/CFBuiltinConverters.c:923-944 | how many octets a character has, and its number from them, six bits from each after the first |
| Utf.Examples | CF-1153.18/CFBuiltinConverters.c:923-986 | 1F600 is D83D DE00 and F0 9F 98 80, and an example of every other length |
| Utf.ExampleText | CF-1153.18/CFBuiltinConverters.c:946-986 | a text of four characters, one of each length, both ways |
| Utf8Encoder.ToUTF8 | CF-1153.18/CFBuiltinConverters.c:946-986 | the longest run of whole characters that is well-formed and fits is consumed, its octets written and nothing else touched; 0 room counts only |
| Utf8Encoder.ToUTF8Core | CF-1153.18/CFBuiltinConverters.c:923-944 | for every 32-bit number, all its bytes are written or none when they do not fit |
| Utf8Encoder.StoresAreBytes | CF-1153.18/CFBuiltinConverters.c:935-942 | the fall-through stores, last byte first, are the lead and continuation bytes of the character in each of the six lengths |
| Utf8Encoder.CoreBytesAreOctets | CF-1153.18/CFBuiltinConverters.c:923-944 | for every character number of Unicode these are the octets of RFC 3629 |
| Utf8Encoder.LongFormsSay | CF-1153.18/CFBuiltinConverters.c:923-944 | from 200000 on: five or six bytes that give the number back, and FF BD for what does not fit 31 bits |
| Utf8Encoder.NextCharacter | CF-1153.18/CFBuiltinConverters.c:956-974 | a unit that is no surrogate is itself, a high and a low surrogate are put together as 10000 + 400 * (high - D800) + (low - DC00), and a surrogate on its own stops |
| Utf8Encoder.ToUTF8Len | CF-1153.18/CFBuiltinConverters.c:1108-1123 | the length of the encoding with three bytes for each surrogate on its own |
| Utf8Encoder.CountedLenIff | CF-1153.18/CFBuiltinConverters.c:1108-1123 | that length is the number of bytes the encoder writes if and only if the input is well-formed UTF-16 |
| Utf8Encoder.LoneSurrogateIsCounted | CF-1153.18/CFBuiltinConverters.c:1108-1123 | the failing input: the single unit D800 counts 3 bytes and encodes to none |
| Utf8Decoder.IsLegalUTF8 | CF-1153.18/CFBuiltinConverters.c:999-1011 | true exactly for a character of the grammar |
| Utf8Decoder.Assemble | CF-1153.18/CFBuiltinConverters.c:1046-1056 | shifting the bytes together and subtracting the table's offset gives the character number |
| Utf8Decoder.NextPiece | CF-1153.18/CFBuiltinConverters.c:1025-1056 | the checks at the head of each turn find the next piece exactly |
| Utf8Decoder.FromUTF8 | CF-1153.18/CFBuiltinConverters.c:1013-1106 | the units of the first pieces that fit are written, within the room given, and nothing else; a pair is lost if and only if it meets exactly one place; with enough room everything accepted is written and consumed |
| Utf8Decoder.LostAtEdge | CF-1153.18/CFBuiltinConverters.c:1088-1097 | the lost pair as a condition on the input and the room alone |
| Utf8Decoder.PairIsLost | CF-1153.18/CFBuiltinConverters.c:1088-1097 | such an input: F0 90 80 80 with room for one unit |
| Utf8Decoder.EnoughRoom | CF-1153.18/CFBuiltinConverters.c:1088-1097 | nothing is lost or left over when there is room, or when it only counts |
| Utf8Decoder.FromUTF8Len | CF-1153.18/CFBuiltinConverters.c:1125-1187 | the units the decoder produces, on every input |
| BinaryHeap.Heap.AddValue | CF-1153.18/CFBinaryHeap.c:367-396 | the order is kept, the value is added to the multiset, and a value not before the parent of the last place stays last |
| BinaryHeap.Heap.RemoveMinimumValue | CF-1153.18/CFBinaryHeap.c:398-430 | the order is kept and exactly the first item is gone |
| BinaryHeap.Heap.GetMinimum | CF-1153.18/CFBinaryHeap.c:308-312 | no item is before the one returned |
| BinaryHeap.Heap.CreateCopy | CF-1153.18/CFBinaryHeap.c:266-269 | the copy has the same buckets in the same order |
| BinaryHeap.Heap.GetValues | CF-1153.18/CFBinaryHeap.c:321-337 | a sorted permutation of the items, leaving the heap as it was |
| BinaryHeap.Heap.Grow | CF-1153.18/CFBinaryHeap.c:355-365 | a store of the rounded capacity with the same items |
| BinaryHeap.Heap.SiftUp | CF-1153.18/CFBinaryHeap.c:383-395 | the rising hole restores the order and loses nothing |
| BinaryHeap.Heap.SiftDown | CF-1153.18/CFBinaryHeap.c:413-429 | the sinking hole restores the order and loses nothing |
| HeapOrder.Rise | CF-1153.18/CFBinaryHeap.c:384-390 | changing places with a greater parent moves the only possible disorder up |
| HeapOrder.Sink | CF-1153.18/CFBinaryHeap.c:415-428 | changing places with the lesser child moves the only possible disorder down |
| HeapOrder.MinimumFirst | CF-1153.18/CFBinaryHeap.c:308-312 | the first item of a heap is not after any other |
| HeapOrder.HeapIff | CF-1153.18/CFBinaryHeap.c:413-429 | the order the sifts keep, in places: no item is after the ones at twice its place and one or two on |
| HeapOrder.TakeNext | CF-1153.18/CFBinaryHeap.c:330-335 | taking the minimum out keeps what was taken in order |
| BitVector.Bits.InternalMap | CF-1153.18/CFBitVector.c:284-315 | for any range the bits of the range are mapped, the others are unchanged, and the counting mapper counts exactly the range |
| BitRanges.MapBucket | CF-1153.18/CFBitVector.c:284-315 | blending a bucket under a mask maps exactly the bits of the mask |
| BitRanges.MappedOn | CF-1153.18/CFBitVector.c:303-315 | mapping and counting up to a place and on from it is mapping and counting the whole |
| BitRanges.CountBucket | CF-1153.18/CFBitVector.c:323-333 | the nibble table under a mask counts exactly the bits of the mask |
| BitRanges.CountInIsPlaces | CF-1153.18/CFBitVector.c:335-344 | counting down a range gives the number of places in it that hold the value |
| BitBuckets.MaskBits | CF-1153.18/CFBitVector.c:107-113 | the mask has exactly the bits from bottom to top |
| BitBuckets.CountBits | CF-1153.18/CFBitVector.c:323-333 | the two nibble look-ups count the bits of a bucket |
| BitBuckets.SetBits | CF-1153.18/CFBitVector.c:121-135 | setting, clearing and flipping one bit touch no other |
| BitVector.Bits.GetCountOfBit | CF-1153.18/CFBitVector.c:335-344 | the number of places of the range that hold the value, leaving the vector as it was |
| BitVector.Bits.SetBits | CF-1153.18/CFBitVector.c:501-511 | the range becomes the value and nothing else changes |
| BitVector.Bits.FlipBits | CF-1153.18/CFBitVector.c:486-492 | exactly the bits of the range are flipped |
| BitVector.Bits.SetAllBits | CF-1153.18/CFBitVector.c:513-528 | every bit becomes the value |
| BitVector.Bits.SetCount | CF-1153.18/CFBitVector.c:456-473 | bits kept are unchanged and new ones are zero, whatever the reallocated store held |
| BitVector.Bits.GetBitAtIndex | CF-1153.18/CFBitVector.c:115-119 | the shifted-out bit is the bit at the index |
| BitVector.Bits.SetBitAtIndex | CF-1153.18/CFBitVector.c:494-499 | one bit changes |
| BitVector.Bits.FlipBitAtIndex | CF-1153.18/CFBitVector.c:475-480 | one bit is flipped |
| BigNumber.Add | CF-1153.18/CFBigNumber.c:465-509 | for all digits, the signed value is conserved with the returned carry weighed by 10^45 if and only if no column leaves its 32-bit word, also when the result is one of the operands, and the digits are canonical if and only if every column leaves one; canonical operands always conserve the value, and give a negative zero exactly when stated |
| BigNumber.Sub | CF-1153.18/CFBigNumber.c:511-515 | the same for the difference: conservation, canonical digits and negative zero |
| BigNumber.Neg | CF-1153.18/CFBigNumber.c:447-463 | the value is negated, and the sign stays exactly when the number is a zero |
| BigNumber.Compare | CF-1153.18/CFBigNumber.c:416-431 | signs first, then the digits from the most significant, reversed for negative numbers |
| BigNumber.CompareIsExactIff | CF-1153.18/CFBigNumber.c:416-431 | for canonical numbers that is the order of the values, except for zero against negative zero |
| BigNumber.NegativeZeroIsLess | CF-1153.18/CFBigNumber.c:416-431 | the failing input: negative zero is below the zero it equals |
| BigNumber.AbsoluteLessThan | CF-1153.18/CFBigNumber.c:433-445 | compares digits from the most significant, which compares the magnitudes of canonical numbers |
| BigNumDigits.BeforeIffLess | CF-1153.18/CFBigNumber.h:35-41 | canonical digits compare as the numbers they write |
| BigNumDigits.SumConserves | CF-1153.18/CFBigNumber.c:469-480 | column-wise addition conserves the magnitude with the last carry and what columns lose that do not fit 32 bits |
| BigNumDigits.SumIsCanonicalIff | CF-1153.18/CFBigNumber.c:470-478 | for all operands the sum has canonical digits if and only if no column is exactly one billion or reaches two billion |
| BigNumDigits.DiffConserves | CF-1153.18/CFBigNumber.c:492-501 | column-wise subtraction conserves the magnitude with the last borrow and what columns gain that wrap around |
| BigNumDigits.DiffIsCanonicalIff | CF-1153.18/CFBigNumber.c:492-501 | the difference has canonical digits if and only if no column is one billion or more up, or more than one billion down |
| BigNumDigits.NoBorrowLeft | CF-1153.18/CFBigNumber.c:482-501 | taking digits from digits they are not before leaves no borrow, canonical or not |
| BigNumDigits.DifferenceDecides | CF-1153.18/CFBigNumber.c:420-427 | digits compare as their most significant difference does, canonical or not |
| BigNumber.BillionIsNotCarried | CF-1153.18/CFBigNumber.c:470-478 | 999999999 + 1 leaves a digit of one billion, and compares as less than the number it equals |
| BigNumber.OverflowIsLost | CF-1153.18/CFBigNumber.c:469-480 | operands that lose value: a column of 2^32 |
| BigNumber.BigNum.InitWithInt128 | CF-1153.18/CFBigNumber.c:138-157 | canonical digits with the value |
| BigNumber.BigNum.GetInt128 | CF-1153.18/CFBigNumber.c:247-257 | the one 128-bit number that is a multiple of 2^128 away from the value, so reading back what was stored gives it back |
| BigNumber.BigNum.InitWithInt64 | CF-1153.18/CFBigNumber.c:122-135 | canonical digits with the value |
| BigNumber.BigNum.GetInt64 | CF-1153.18/CFBigNumber.c:236-244 | the one 64-bit number that is a multiple of 2^64 away from what the three low digits and the sign say, which is the value whenever it fits |
| BigNumber.WrapSays | CF-1153.18/CFBigNumber.c:236-257 | for every word size, the wrapped number is the only one within the word a multiple of it away |
| BigNumber.CarryWeighs | CF-1153.18/CFBigNumber.c:469-480 | what a carry stands for, written out: 10^45 |

## Left out

- Allocation failure, allocators, garbage collection, Objective-C dispatch, mutation counters and HALT: a precondition stands where the source halts.
- Machine arithmetic is unbounded except where it matters (64-bit accumulators, 32-bit references, 8-bit byte counts, 16-bit tombstone counts, count widths, 128-bit and 64-bit number words); the overflow checks of the property list reader then are plain comparisons.
- Property lists: key-path filtering, look-up of one array index or dictionary key, UUIDs, URLs and ordered sets.
- Property lists: reals and dates are their eight (or four) bytes; no floating-point value is modelled.
- Property lists: a dictionary or set that is read is the list of its references' values; that the collection constructors fold equal keys and members together is not modelled.
- Property lists: the writer's entry that counts bytes without a sink, and flattening without an object table.
- Property lists: the table of objects read and the path set are ideal collections keyed by offsets; the source's hash tables would stop the program for an offset that is one of the two sentinels, above 2.7 billion.
- PlistWriter.WritePlist: demands fewer than 2^32 listed objects and a file length below 2^63, because the source numbers objects in 32 bits and returns the length as a signed word without checking either.
- HashRuns.Run: stops before an operation at which the source stops the program (or, growing fast, leaves its table of sizes); what the source does from there on is not modelled.
- Hash table: double and exponential probing, indirect keys, cached hashes, weak and strong references, and the retain and release callbacks of keys and values.
- BasicHash.Table.RemoveIntValueAndDec: demands a class with the value, because the source writes outside its buckets when there is none, and in a bag that it counts 1, because the source marks the bucket deleted whatever its count.
- BasicHash.Table.GetCount: the sum is unbounded; the source adds it up in a signed 64-bit word.
- Array: immutable arrays, `_CFArraySetCapacity`, callbacks that mutate the array, and `CFQSortArray`, which is not part of this model. Counts stay below 2^29, so that capacities do not overflow their shift.
- MutableArray.DequeArray.ReplaceValues: new storage holds arbitrary values here, so nothing is said of cells never used.
- UTF-8: lenient, lossy, HFS+ and decomposing modes.
- Utf8Encoder.ToUTF8Len: the length is unbounded; the source adds it up in 32 bits.
- Heap: retain and release callbacks, `__CFBinaryHeapEqual`, contains and count queries. The pointer order used without a compare callback is one of the orders the model ranges over.
- Bit vector: `CFBitVectorGetBits`, searches for a bit, and `__CFBitVectorEqual`, which also compares spare bits.
- Big numbers: decimal strings and the 8-, 16-, 32-bit and unsigned forms of initialisation and reading. The magnitude of the most negative word is taken as its mathematical value, which C leaves undefined.
