# Verification of the proton driver's codec, parser and protocol

The driver turns Python rows into column byte streams, ships them in blocks over one connection, and turns
the server's blocks back into rows. This project models that path in Dafny and proves what it promises.

* **The columnar codec** (`Columns`, `Scalars`, `Slicing`, `Nesting`, `Dictionaries`, `ColumnCodec`, `Levels`,
  `ColumnWriter`, `ColumnReader`). Columns form a tree of leaves, arrays, tuples, maps and low_cardinality
  nodes, any of them nullable. `ColumnCodec` gives every node's layout as recursive functions from values to
  bytes and back. `ColumnWriter` and `ColumnReader` are the loops of the driver, over buffers and over lists
  that are overwritten in place, and are proved equal to those functions; `Levels` proves the breadth-first
  treatment of arrays equal to the recursive one. `ColumnRoundTrip` proves that reading undoes writing for
  every tree, `Shapes` that lists and tuples are written alike, `ColumnWrites` that writing succeeds, and
  `ColumnLimits`, `NullableArrays`, `Unhashable` and `SingleUse` state what is lost or refused, exactly where
  they can.
* **Bytes** (`Bits`, `Varint`, `StructPack`, `Utf8`, `BinaryText`, `Buffers`, `Buffered`, `WireFormat`).
  Variable-length integers are unsigned LEB128 (section 7.6 of DWARF Version 5), text is UTF-8 (RFC 3629).
  `WireFormat` says what the bytes are where the reader does not look: header flags, marks, placeholders for None,
  versions, method bytes.
* **The type parser** (`SpecText`, `SpecParser`, `EnumOptions`, `Numerals`). Bracket counting and slicing
  build the tree from a specification; parsing is proved to invert printing. The enum option machine is
  proved to invert two renderings, one of them only without backslashes.
* **Blocks and frames** (`Blocks`, `Native`, `NativeRoundTrip`, `Compressed`, `CompressedRoundTrip`). Blocks of
  rows or columns with their block information; `NativeRoundTrip.RowsSurvive` puts parser, blocks and columns
  together. Compressed frames are read back across any chunking, a read in any pieces is one read, and
  `CompressedRoundTrip.BlocksArrive` sends blocks of rows through them.
* **The protocol** (`Packets`, `Results`, `Insert`, `DictRows`, `NestedRows`, `InsertRoundTrip`,
  `Connection`). The packet
  generator and its three consumers, the chunking of inserts, dict rows, host failover, and the guard against
  simultaneous queries over whole runs. `InsertRoundTrip.InsertArrives` joins inserts, blocks and columns.

`None` stands for an exception. Where the source raises after part of its output is written, what that part
is remains unspecified. The compression and hash libraries, the network and the clock are parameters.

Findings, each with its exact condition or a witness:

* A leaf column writes exactly the values that have a canonical form, and reads that form (`ColumnLimits.LeafReads`).
  Leaf values come back exactly if they are typed: a fixed_string that ends in NUL loses it, the alias of an enum
  member comes back as its first name, an enum code as a name, and bytes that are UTF-8 as text
  (`ColumnLimits.LeafExactly`).
* A column without items round-trips exactly if it is not a tuple, a map or a nullable low_cardinality
  (`ColumnLimits.EmptyRoundTripsExactly`); rows of empty dicts round-trip exactly if both inner columns do
  (`ColumnLimits.EmptyMapsExactly`).
* A block without rows is read correctly exactly if it announces the columns it declares and none of them writes
  anything for no items: the reader skips even the state prefixes that the writer writes. A column block without
  data announces no column, but its names and types are written and left in the stream
  (`Native.EmptyBlockExactly`, `Native.UnannouncedColumns`).
* Rows of a nullable array, of any depth, come back exactly if no leaf value is below them: the writer puts a
  null map before the offsets that the reader takes for offsets (`NullableArrays.NullableArrayExactly`).
* A map whose keys are or hold arrays or maps comes back exactly if its rows have no entries and both inner
  columns survive empty; a low_cardinality over such values comes back exactly if there are no items
  (`Unhashable.UnhashableKeysExactly`, `Unhashable.UnhashableDictionaryExactly`).
* A low_cardinality over a nullable enum is written exactly if the enum has a member of code 0, even where no
  item is None (`ColumnWrites.PlaceholderDecides`).
* Writing through one array column twice takes the elements of the rows for lists: it fails on numbers and
  silently spells strings out (`SingleUse.ArrayIsSingleUse`, `SingleUse.SecondWriteSpells`).
* What is written through a used low_cardinality column over leaf values comes back exactly if the dictionary is
  not nullable, there are no items, or they are booleans of which the first is None. Otherwise None is refused
  (`SingleUse.NoneFails`), and items without None are written without an error but the first value comes back as
  None wherever it stands (`SingleUse.SecondWriteReads`, `SingleUse.DictionaryIsSingleUse`).
* The repository's own rendering of enum choices is read back exactly if no name has a backslash
  (`EnumOptions.ParseRenderedExactly`).
* Among enum choices a later one replaces an earlier one of the same name, but the very last does not
  (`EnumOptions.RepeatedNames`).
* A tuple of two types with a bare comma between them is understood exactly if the first type is a tuple or a
  map or wraps one, and then the first replaces the second, so it is the tuple meant exactly if both are the
  same (`SpecParser.BareComma`, `SpecParser.BareCommaExactly`).
* nested(...) is not always rewritten to something shorter, yet the parser always terminates
  (`SpecParser.NestedShrinks`).
* A frame with an empty payload reads as the end of the stream (`Compressed.FramesHoldNoMore`).
* An insert with a block size of zero loses all data without an error (`Insert.ZeroBlockSizeLosesRows`).
* A reconnect inside `force_connect` clears the mark of the query being started, so a second query is not
  refused (`Connection.ForceConnectMarks`, `Connection.RefusedExactly`).

## Model

| member | source | states |
|---|---|---|
| Bits.OrDisjoint | proton_driver/varint.c:3383-3442 | setting bits above a number that lies below them is addition |
| Bits.AndMask | proton_driver/varint.c:3383-3442 | masking with 2^k - 1 takes the remainder modulo 2^k |
| Bits.ShlMultiplies | proton_driver/varint.c:3638-3720 | a 64-bit left shift multiplies by a power of two modulo 2^64 |
| Varint.MeaningOfEncode | proton_driver/varint.pyx:29-50 | an encoding stands for its number, whatever follows it |
| Varint.EncodeIsMinimal | proton_driver/varint.c:3322-3487 | no byte string that stands for the number is shorter than its encoding |
| Varint.EncodeAtMostTen | proton_driver/varint.c:3354-3442 | every 64-bit number takes one to ten bytes |
| Varint.EncodeLength | proton_driver/varint.c:3322-3487 | k bytes suffice exactly for the numbers below 2^(7k) |
| Varint.LoopReadsMeaning | proton_driver/varint.c:3638-3720 | on any stream the shifting loop finds what the number at its front stands for, modulo 2^64, or fails exactly where a shift would reach 64 |
| Varint.RoundTrip | proton_driver/varint.pyx:53-69 | reading undoes writing and stops at the end of the number |
| Varint.RoundTripAll | proton_driver/varint.c:3583-3754 | concatenated numbers read back as the same list |
| Varint.MakeVarint | proton_driver/varint.c:3068-3218 | the loop fills the 32-byte buffer with the encoding and stays inside it |
| Varint.WriteVarint | proton_driver/varint.c:3322-3487 | appends the encoding; numbers of more than 64 bits are refused and nothing is written |
| Varint.ReadVarint | proton_driver/varint.c:3583-3754 | takes exactly the bytes of one number, with the source's bit operations |
| StructPack.IntRoundTrip | proton_driver/reader.py:24-30 | every integer in range survives packing, signed or not, and nothing after it is touched |
| StructPack.PackAllSucceeds | proton_driver/columns/base.py:126-132 | a list is packed exactly when every element is in range |
| StructPack.WriteInt | proton_driver/writer.py:24-29 | appends the packed integer, or nothing when it is out of range |
| StructPack.TakeInt | proton_driver/reader.py:24-30 | takes exactly one packed integer |
| Utf8.RoundTrip | proton_driver/writer.py:14-16 | decoding undoes encoding for every text |
| WireFormat.IntegerWeighs | proton_driver/writer.py:24-67 | the bytes of an integer, each times its power of 256, make up the integer, or what a negative one lacks to the next power |
| WireFormat.Ranges | proton_driver/columns/intcolumn.py:61-110 | the ranges of the integer columns |
| WireFormat.NullMapMarks | proton_driver/columns/base.py:30-33 | the data of a nullable column starts with a byte for every item, one for None and zero for a value |
| WireFormat.BooleanBytes | proton_driver/columns/boolcolumn.py:4-7 | a bool column writes a one for every true value and a zero for every false one, of whatever type |
| WireFormat.DictionaryHeader | proton_driver/columns/lowcardinalitycolumn.py:30-96 | the header of a dictionary has bits 9 and 10 set, no other bit above the low byte, and in it the number of bytes that the number of entries takes, less one; the number of entries follows |
| WireFormat.DictionaryTail | proton_driver/columns/lowcardinalitycolumn.py:16-99 | the data of a dictionary ends with the number of items and their keys, of one, two, four or eight bytes as the number of entries is below 2^8, 2^16, 2^24 or not |
| WireFormat.PrefixIsOnes | proton_driver/columns/lowcardinalitycolumn.py:44-46 | the state prefixes are the number one for each low_cardinality that is not inside another |
| WireFormat.NoneIsZeros | proton_driver/columns/base.py:39-71 | None is stored as nothing but zeros in leaf and tuple columns, at any depth of tuples |
| WireFormat.NoneInMapFails | proton_driver/columns/mapcolumn.py:37-47 | a map column cannot write None |
| WireFormat.NoneAmongDictionaries | proton_driver/columns/tuplecolumn.py:8-18 | in a nullable tuple of low_cardinality columns None is written as the number zero in each |
| WireFormat.IteratedAsLists | proton_driver/columns/arraycolumn.py:57-84 | an array column writes tuples, texts, bytes and dicts as the lists of what iterating over them yields, and fails on all else |
| WireFormat.InfoLayout | proton_driver/block.py:11-19 | block information is eight bytes: field 1 and the flag, field 2 and the bucket, zero |
| WireFormat.InfoAtRevision | proton_driver/streams/native.py:16-25 | a block starts with its information if and only if the server has revision 51903 or later |
| WireFormat.FrameExists | proton_driver/compression/base.py:39-51 | a frame can be made if and only if both sizes fit 32 bits |
| WireFormat.FrameLayout | proton_driver/compression/base.py:39-51 | the bytes of a frame: hash with the high half first, 0x82 for both lz4 compressors or 0x90 for zstd, the two sizes, the compressed data |
| BinaryText.TextRoundTrip | proton_driver/reader.py:6-21 | length-prefixed text comes back, with nothing after it touched |
| BinaryText.WriteBinaryText | proton_driver/writer.py:14-21 | appends length and bytes of a text |
| BinaryText.ReadBinaryText | proton_driver/reader.py:6-21 | takes one length-prefixed text |
| Buffered.BufferedWriter.Write | proton_driver/bufferedwriter.pyx:31-44 | what was sent and what is buffered together are everything written, however small the buffer |
| Buffered.BufferedWriter.Flush | proton_driver/bufferedwriter.pyx:46-47 | everything written is sent and the buffer is empty |
| Scalars.ItemRoundTrip | proton_driver/columns/stringcolumn.py:6-48 | every leaf value that can be packed leaves the stream intact and is read in canonical form: integers as they are, anything in a bool column by its truth, enum names and codes as the first name of the code, padded text without NULs at its end, bytes as text if they are |
| Scalars.PackedExactly | proton_driver/columns/enumcolumn.py:14-42 | a leaf value is packed if and only if it has a canonical form |
| Scalars.FitsExactly | proton_driver/bufferedreader.pyx:193-227 | a leaf value is its own canonical form if and only if it is typed |
| Scalars.ListReadsBack | proton_driver/columns/base.py:79-104 | every list of leaf values that can be packed is read back whole and in canonical form, None where the column is nullable |
| Scalars.ListRoundTrip | proton_driver/columns/base.py:79-104 | a list of typed leaf values, None included where the column is nullable, survives, placeholders notwithstanding |
| Nesting.OffsetsPartition | proton_driver/columns/arraycolumn.py:70-78 | the offsets of a level are non-decreasing, lie within the flattened items and end at their number |
| Nesting.SlicesUndoFlatten | proton_driver/columns/arraycolumn.py:152-156 | cutting data at the offsets of lists restores the lists, wherever in the data their items start |
| Dictionaries.DistinctIsExact | proton_driver/columns/lowcardinalitycolumn.py:48-82 | the dictionary has every non-null value once and nothing else |
| Dictionaries.DistinctKeepsOrder | proton_driver/columns/lowcardinalitycolumn.py:48-82 | dictionary entries come in the order of their first occurrences |
| Dictionaries.KeysPointAtItems | proton_driver/columns/lowcardinalitycolumn.py:58-82 | every key points at its item; key 0 of a nullable dictionary means None and nothing else does, not even the placeholder value |
| Dictionaries.KeyTypeExists | proton_driver/columns/lowcardinalitycolumn.py:89-90 | a key type exists exactly for dictionaries of fewer than 2^32 entries |
| Dictionaries.KeysFit | proton_driver/columns/lowcardinalitycolumn.py:89-99 | every key fits the width chosen from the dictionary size |
| Levels.LevelsWriteNested | proton_driver/columns/arraycolumn.py:57-105 | offsets level by level, then null map and leaves: the breadth-first form writes what the recursive form writes, at every depth |
| Levels.LevelsReadNested | proton_driver/columns/arraycolumn.py:123-156 | reading levels first and rebuilding from the innermost out reads what the recursive form reads |
| ColumnRoundTrip.DataRoundTrip | proton_driver/columns/base.py:73-104 | read_data undoes write_data for every tree, whatever follows in the stream |
| ColumnRoundTrip.NestedRoundTrip | proton_driver/columns/arraycolumn.py:57-156 | arrays of any depth come back, empty sublists and empty columns included |
| ColumnRoundTrip.TupleReads | proton_driver/columns/tuplecolumn.py:20-37 | transposing to columns and back restores the rows |
| ColumnRoundTrip.MapReads | proton_driver/columns/mapcolumn.py:24-51 | offsets, keys and values restore the dicts in insertion order, if the keys have hashes |
| ColumnRoundTrip.FirstPlaceStays | proton_driver/columns/mapcolumn.py:24-35 | the dict read has each key once, in the order of their first occurrences |
| ColumnRoundTrip.LastValueStays | proton_driver/columns/mapcolumn.py:24-35 | in the dict read the last of repeated keys gives the value |
| ColumnRoundTrip.TypedHashable | proton_driver/columns/lowcardinalitycolumn.py:58-82 | a typed value can be hashed if and only if its column has no array and no map in it |
| ColumnRoundTrip.DictionaryRoundTrip | proton_driver/columns/lowcardinalitycolumn.py:48-123 | low_cardinality decoding undoes encoding, nullable or not |
| ColumnRoundTrip.PrefixRoundTrip | proton_driver/columns/tuplecolumn.py:42-52 | the state prefixes of a tree are read back to their last byte before any data |
| ColumnRoundTrip.ColumnReadsBack | proton_driver/columns/service.py:128-145 | for every tree read_column on what write_column wrote returns the items and leaves exactly what follows |
| Shapes.WrittenAlike | proton_driver/columns/tuplecolumn.py:20-28 | lists and tuples given for each other, at any depth outside keys and dictionaries, make the same bytes or the same failure |
| Shapes.ShapesReadBack | proton_driver/columns/service.py:128-145 | what is read back has the declared shapes, lists for arrays and tuples for tuples |
| ColumnWrites.PlaceholderDecides | proton_driver/columns/lowcardinalitycolumn.py:52-56 | typed items of a low_cardinality over a nullable enum are written if and only if the enum has a member of code 0 |
| ColumnWrites.ColumnIsWritten | proton_driver/columns/service.py:135-145 | typed, readable items of bounded volume are always written |
| ColumnLimits.LeafReads | proton_driver/columns/base.py:39-104 | a leaf column writes items if and only if each has a canonical form, and what is read in front of any stream are these forms |
| ColumnLimits.LeafExactly | proton_driver/columns/enumcolumn.py:14-53 | any items round-trip through a leaf column, nullable or not, if and only if they are written and typed |
| ColumnLimits.EmptyRoundTripsExactly | proton_driver/columns/lowcardinalitycolumn.py:52-103 | a column without items round-trips if and only if it is not a tuple, a map or a nullable low_cardinality |
| ColumnLimits.EmptyMapsExactly | proton_driver/columns/mapcolumn.py:24-51 | rows of empty dicts round-trip if and only if both inner columns round-trip without items |
| NullableArrays.NullableArrayLosesRows | proton_driver/columns/arraycolumn.py:57-84 | rows of a nullable array above any leaf value are never recovered, whatever follows in the stream |
| NullableArrays.NullableArrayExactly | proton_driver/columns/arraycolumn.py:57-156 | any number of typed rows of a nullable array of any depth round-trips if and only if no leaf value is below them |
| Unhashable.UnhashableValue | proton_driver/columns/mapcolumn.py:24-35 | a value that a column with an array or map in it has both written and read has no hash |
| Unhashable.UnhashableKeysExactly | proton_driver/columns/mapcolumn.py:24-51 | whatever the rows of a map with such keys, they round-trip if and only if they are dicts without entries and both inner columns round-trip without items |
| Unhashable.UnhashableDictionaryExactly | proton_driver/columns/lowcardinalitycolumn.py:48-123 | whatever the items of a low_cardinality over such values, they round-trip if and only if there are none and the dictionary is not nullable |
| SingleUse.LastingStays | proton_driver/columns/lowcardinalitycolumn.py:48-56 | a column without arrays and nullable dictionaries in it is the same column after any write |
| SingleUse.ArrayIsSingleUse | proton_driver/columns/arraycolumn.py:38-84 | whatever was written first and whatever it changed below, a second write through the same array column fails if an element cannot be iterated over, and else writes what the elements would be as lists |
| SingleUse.SecondWriteSpells | proton_driver/columns/arraycolumn.py:38-84 | a second write of strings through an array(string) succeeds, and a column of type array(array(string)) reads what it wrote as lists of characters |
| SingleUse.NoneFails | proton_driver/columns/lowcardinalitycolumn.py:52-56 | a second write of None through a low_cardinality column of anything but booleans fails |
| SingleUse.SecondWriteReads | proton_driver/columns/lowcardinalitycolumn.py:48-123 | a second write without None through a nullable low_cardinality column succeeds, and the declared column reads None wherever the first value stood, and False for None among booleans |
| SingleUse.DictionaryIsSingleUse | proton_driver/columns/lowcardinalitycolumn.py:48-123 | typed items written through a used low_cardinality column come back in front of every stream if and only if the dictionary is not nullable, there are none, or they are booleans of which the first is None |
| ColumnLimits.NothingForNothing | proton_driver/columns/lowcardinalitycolumn.py:101-103 | a reader asked for no items takes no bytes |
| ColumnWriter.PrepareItems | proton_driver/columns/base.py:39-71 | overwrites the list in place with placeholders and codes, or fails on an unknown enum member |
| ColumnWriter.BeforeWriteItems | proton_driver/columns/enumcolumn.py:14-42 | enum names become codes in place |
| ColumnWriter.FlattenLevel | proton_driver/columns/arraycolumn.py:70-78 | one level's loop yields the cumulative offsets and the next level's items, and fails exactly on an element that has no length |
| ColumnWriter.WriteSizes | proton_driver/columns/arraycolumn.py:57-84 | the breadth-first loop writes a stray null map, if any, and then the offsets of all levels |
| ColumnWriter.WriteArray | proton_driver/columns/arraycolumn.py:38-111 | the array loops write what the recursive layout says |
| ColumnWriter.WriteTuple | proton_driver/columns/tuplecolumn.py:20-28 | the tuple loop writes column by column, failing on no rows and on short rows |
| ColumnWriter.SplitDicts | proton_driver/columns/mapcolumn.py:37-47 | one pass yields offsets, all keys and all values |
| ColumnWriter.WriteMap | proton_driver/columns/mapcolumn.py:37-51 | the map loop writes offsets, keys and values |
| ColumnWriter.BuildDictionary | proton_driver/columns/lowcardinalitycolumn.py:49-82 | one pass with a hash table yields the dictionary and the keys, and fails exactly on a value without a hash |
| ColumnWriter.WriteLowCardinality | proton_driver/columns/lowcardinalitycolumn.py:48-99 | header, dictionary, count and keys are written as laid out |
| ColumnWriter.WriteColumnOf | proton_driver/columns/service.py:135-145 | the whole writer appends exactly the specified bytes |
| ColumnReader.TakeLevels | proton_driver/columns/arraycolumn.py:123-139 | the loop reads the offsets of every level and how many leaves follow |
| ColumnReader.TakeArray | proton_driver/columns/arraycolumn.py:123-156 | levels, leaves, then slicing in reverse: what the recursive reader returns |
| ColumnReader.TakeLowCardinality | proton_driver/columns/lowcardinalitycolumn.py:101-123 | the dictionary reader takes and returns what is specified |
| ColumnReader.TakeColumn | proton_driver/columns/service.py:128-132 | the whole reader takes exactly the specified bytes |
| Numerals.ParseShow | proton_driver/columns/enumcolumn.py:33-36 | an integer printed in decimal is parsed back |
| EnumOptions.ParseOptionString | proton_driver/columns/enumcolumn.py:79-119 | the character loop computes the option machine |
| EnumOptions.ParseRendered | proton_driver/columns/enumcolumn.py:79-119 | reading inverts rendering with quotes and backslashes escaped, for any distinct names and any codes |
| EnumOptions.RepeatedNames | proton_driver/columns/enumcolumn.py:79-119 | of rendered choices whose names repeat each name keeps its first place and takes its last code in front of the last choice, which itself counts only if its name is new |
| EnumOptions.ParseRenderedExactly | proton_driver/columns/enumcolumn.py:33-36 | reading inverts the repository's own rendering if and only if no name has a backslash |
| SpecText.GetInnerSpec | proton_driver/columns/util.py:2-16 | the bracket loop finds the specified inner text; nothing after the name raises |
| SpecText.GetInnerColumns | proton_driver/columns/util.py:19-37 | the index loop cuts what the character machine cuts |
| SpecText.GetInnerColumnsWithTypes | proton_driver/columns/util.py:40-63 | the index loop finds the names and types the character machine finds |
| SpecText.StripsWhite | proton_driver/columns/util.py:40-63 | stripping removes exactly the white space on either side |
| SpecText.InnerOfBrackets | proton_driver/columns/util.py:2-16 | a bracketed body is found whatever it holds, as long as its brackets match |
| SpecText.TypesOfListing | proton_driver/columns/util.py:40-63 | a list written with ", " is cut into exactly its names and types, in order |
| SpecText.ColumnsOfPair | proton_driver/columns/util.py:19-37 | the two types of a map are found |
| SpecParser.ParsePrint | proton_driver/columns/service.py:75-122 | for every printable tree parsing the printed specification rebuilds it, names, order and nullability included |
| SpecParser.PrintIsQuiet | proton_driver/columns/util.py:40-63 | a printed type never shows a comma or space outside brackets, so it can stand in any list |
| SpecParser.NestedIsArrayOfTuples | proton_driver/columns/nestedcolumn.py:6-10 | nested(x) parses as array(tuple(x)) for every bracketed x |
| SpecParser.NestedShrinks | proton_driver/columns/nestedcolumn.py:6-10 | the text nested recurses on is never longer, and shorter if and only if the specification has eight characters or more |
| SpecParser.AggregateIsItsType | proton_driver/columns/simpleaggregatefunctioncolumn.py:3-7 | an aggregate function column is a column of its second argument |
| SpecParser.ParseBehind | proton_driver/columns/service.py:75-122 | with a comma or bracket and anything after it behind a printed type, the type is still parsed if it ends in a tuple or a map, and nothing is otherwise |
| SpecParser.BareComma | proton_driver/columns/util.py:40-63 | a tuple of two printed types separated by a bare comma parses if and only if the first ends in a tuple or a map, and then to that type twice |
| SpecParser.BareCommaExactly | proton_driver/columns/util.py:40-63 | it parses to the tuple of the two types if and only if they are the same and end so |
| Blocks.InfoRoundTrip | proton_driver/block.py:11-31 | block information is read back whatever the reader starts from, and nothing after it is touched |
| Blocks.UnknownFieldSkipped | proton_driver/block.py:21-31 | a field number above two is passed over alone |
| Blocks.DictRowCells | proton_driver/block.py:151-152 | a dict among positional rows has the cells under the numbers of the columns |
| Blocks.BlockInfo.Write | proton_driver/block.py:11-19 | appends the field pairs and the final zero |
| Blocks.BlockInfo.Read | proton_driver/block.py:21-31 | the field loop sets the fields as specified and takes exactly their bytes |
| Native.BlockReadsBack | proton_driver/streams/native.py:16-90 | any block with rows comes back column by column with names, types and information, and nothing after it is read |
| Native.RowsReadBack | proton_driver/streams/native.py:16-90 | rows at least as wide as declared, written as a row block, are read as tuples of their declared cells; further cells are lost silently |
| Native.ShortRowsFail | proton_driver/block.py:151-152 | a row that lacks a declared column, wherever it stands, keeps the block from being written |
| Native.EmptyBlockExactly | proton_driver/streams/native.py:16-76 | a block without rows comes back in front of every stream if and only if it is no column block that declares columns without data, and none of its columns writes anything for no items |
| Native.UnannouncedColumns | proton_driver/block.py:66-109 | from a column block that declares columns and has no data the reader takes no column, and the names and types written stay in the stream |
| Native.EmptyColumn | proton_driver/columns/service.py:135-145 | write_column writes nothing for no items if and only if the column has no tuple on top and no dictionary anywhere; otherwise it raises or writes a dictionary version first |
| Native.WriteBlockTo | proton_driver/streams/native.py:16-44 | the writing loop appends exactly the specified block |
| Native.ReadBlockFrom | proton_driver/streams/native.py:54-90 | the reading loop takes exactly one block |
| NativeRoundTrip.RowsSurvive | proton_driver/streams/native.py:16-90 | any rows of any printable types, with lists for tuples and tuples for lists as the caller likes, are written, parsed, and read back as the same rows in the declared shapes in front of any stream |
| NativeRoundTrip.ColumnsSurvive | proton_driver/block.py:66-109 | any columns of any printable types given column by column, lists and tuples in either shape, are accepted, written, and read back as the same columns in the declared shapes in front of any stream |
| Compressed.HashDecides | proton_driver/compression/base.py:65-81 | the reader hashes the bytes the writer hashed: a frame is accepted if and only if its hash is the one the writer computes, else it is a checksum mismatch |
| Compressed.HashedExactly | proton_driver/compression/base.py:65-81 | in any stream with a known method byte the size field decides what is hashed: a mismatch if and only if the hash of exactly those bytes is another, malformed if the size is below five or above what is there |
| Compressed.UnknownMethodRefused | proton_driver/compression/__init__.py:18-28 | a frame is refused for its method if and only if its method byte is neither 0x82 nor 0x90 |
| Compressed.CutFrameFails | proton_driver/streams/compressed.py:74-88 | every proper prefix of a frame is malformed |
| Compressed.FrameReadsBack | proton_driver/streams/compressed.py:74-88 | a frame yields its payload and leaves what follows |
| Compressed.Pack128Reads | proton_driver/writer.py:64-67 | a 128-bit number written high half first is read back |
| Compressed.WriteSlices | proton_driver/streams/compressed.py:41-46 | writing in slices of the block size is writing once |
| Compressed.CompressedOutput.GetCompressed | proton_driver/compression/base.py:39-51 | method byte, sizes and compressed data; the store is emptied |
| Compressed.CompressedOutput.Finalize | proton_driver/streams/compressed.py:32-48 | everything written since the last call goes out as one frame |
| Compressed.ReadBlock | proton_driver/streams/compressed.py:74-88 | takes exactly one frame and checks its hash |
| Compressed.FetchAcross | proton_driver/bufferedreader.pyx:26-52 | a read of any number of pending bytes yields them in order across block boundaries and leaves the others pending |
| Compressed.FetchTooMuch | proton_driver/bufferedreader.pyx:26-52 | asking for more than is pending fails |
| Compressed.FetchSplits | proton_driver/bufferedreader.pyx:26-52 | reading n bytes and then m leaves the same bytes, buffer and stream, or the same end of file, as reading n + m at once |
| Compressed.PiecesAreWhole | proton_driver/bufferedreader.pyx:26-52 | a read cut into any number of pieces is one read |
| Compressed.FramesReadBack | proton_driver/streams/compressed.py:65-88 | concatenated frames of non-empty payloads decode to the concatenated payloads |
| CompressedRoundTrip.BlocksArrive | proton_driver/streams/compressed.py:32-88 | any number of blocks of any rows, each sent as a frame and fetched in any pieces, are read back one by one as the rows sent, and what follows is left |
| Compressed.FrameFetched | proton_driver/bufferedreader.pyx:26-52 | the payload of the first frame is fetched whole with nothing of the next |
| Compressed.FramesHoldNoMore | proton_driver/bufferedreader.pyx:244-256 | no more can be read than the payloads before the first empty one |
| Compressed.CompressedReader.Read | proton_driver/bufferedreader.pyx:26-52 | the refill loop returns exactly the bytes specified |
| Packets.YieldsExactly | proton_driver/client.py:165-208 | the generator yields exactly the DATA, TOTALS, EXTREMES and PROGRESS packets before the first END_OF_STREAM, EXCEPTION or unreadable packet, and stops normally if and only if that is END_OF_STREAM; profile and other packets are not yielded |
| Packets.SumIsTallied | proton_driver/progress.py:27-32 | incrementing packet by packet adds up each of the five counters |
| Packets.AnswerProgress | proton_driver/client.py:181-208 | over an answer each counter grows by that counter of the progress packets in front of its end |
| Packets.PacketGenerator.ReceivePacket | proton_driver/client.py:181-208 | what each packet type is turned into, and what it stores in the query info |
| Packets.PacketGenerator.Next | proton_driver/client.py:165-179 | one step of the generator; an error disconnects, and a finished generator stays finished |
| Results.QueryResult.Store | proton_driver/result.py:22-43 | a block with rows extends the result, one without gives the columns once |
| Results.QueryResult.GetResult | proton_driver/result.py:45-60 | the result of the whole stream, or an error; the query's progress is the running sum |
| Results.ProgressQueryResult.Next | proton_driver/result.py:76-86 | gives the next report of those the stream holds; looking at the progress changes neither the outcome nor the total |
| Results.ReportsAreTallies | proton_driver/result.py:76-86 | report k gives the rows and the announced total of the first k progress packets |
| Results.ProgressQueryResult.GetResult | proton_driver/result.py:88-93 | the outcome and both progress sums, whatever was looked at before |
| Results.PollThenCollect | proton_driver/result.py:63-93 | any number of looks at the progress before asking for the result leaves result and sums as they would be without |
| Results.IterQueryResult.Next | proton_driver/result.py:113-125 | hands out one packet's rows and keeps the others |
| Results.IterQueryResult.Drain | proton_driver/client.py:154-163 | row by row everything the stream holds, and fails exactly if the stream does |
| Results.BatchResult | proton_driver/result.py:22-60 | of any stream the row result is the rows of all DATA, TOTALS and EXTREMES blocks before the END_OF_STREAM with the columns of the first block without rows, or there is none if something else ends it |
| Results.ItemsAreRows | proton_driver/client.py:154-163 | the iterator delivers the same rows, with the columns before the first block if asked |
| Results.IteratedResult | proton_driver/client.py:154-163 | of any stream the iterator delivers the rows of all blocks before its end, with the columns of the first block in front if asked |
| Results.ColumnarIsTranspose | proton_driver/result.py:29-40 | the columnar result is the transpose of the row result when blocks with rows share a width |
| Results.ColumnarResult | proton_driver/result.py:22-60 | of any stream whose blocks share a width the columnar result is the transpose of the row result, with the same column types |
| Results.ColumnarExactly | proton_driver/result.py:29-38 | once a block is stored the columnar result exists and is rectangular if and only if all later blocks with rows are as wide |
| Insert.ChunksPartition | proton_driver/util/helpers.py:4-19 | chunks join to the input; none is empty and all but the last are full |
| Insert.SentUpToFailure | proton_driver/client.py:568-576 | an insert that fails has sent exactly the blocks in front of the first that cannot be built or written |
| Insert.RowInsert | proton_driver/client.py:545-576 | for positional and dict rows: the insert completes if and only if every chunk fits and every block can be written; then each block carries its chunk, dicts as rows that say the same, and the count is that of the rows |
| Insert.PositionalInsert | proton_driver/client.py:545-576 | without dicts a completed insert has sent exactly the rows given, in order |
| InsertRoundTrip.InsertArrives | proton_driver/client.py:545-576 | typed rows inserted in chunks over a connection that writes blocks are all sent and counted, and the stream is read back as blocks whose rows join to the rows, followed by the empty block |
| InsertRoundTrip.ColumnarInsertArrives | proton_driver/client.py:566-576 | typed columns inserted in the columnar form in chunks are all sent and counted, and the stream is read back as blocks of the chunks of the columns, followed by the empty block |
| Insert.NewRowBlockOf | proton_driver/block.py:117-132 | the first row decides between rewriting the dicts in place and checking the width |
| Insert.ZeroBlockSizeLosesRows | proton_driver/util/helpers.py:4-19 | a block size of zero sends only the empty block and reports no rows |
| Insert.ColumnarInsert | proton_driver/client.py:566-576 | the columnar form completes if and only if the columns fit and every block can be written; then every column is conserved in non-empty blocks of bounded size with one empty block after them, and the result is the column length |
| Insert.ChunkGenerator.Next | proton_driver/util/helpers.py:4-11 | the generator yields the chunks in order |
| Insert.ColumnChunkGenerator.Next | proton_driver/util/helpers.py:28-44 | the generator yields the column chunks in order |
| Insert.SendRows | proton_driver/client.py:568-576 | the row loop sends what is specified, up to the first failure |
| Insert.SendColumns | proton_driver/client.py:568-576 | the columnar loop sends what is specified, up to the first failure |
| DictRows.DictsBecomeRows | proton_driver/block.py:165-192 | the rewriting yields a list of rows if and only if each row says what its dict says, at every level of nesting, with the same number of rows |
| NestedRows.CellByDeclaration | proton_driver/block.py:170-190 | for every declaration, plain types as printed and nested columns of any depth as lists of names and types, the rewriting of a value by the text is the rewriting by the declaration |
| NestedRows.DeclaredRows | proton_driver/block.py:117-192 | a block of dicts holds for each dict the list of its values in declared order, those of printed types untouched and those of nested ones rewritten so again, or cannot be built |
| NestedRows.BareWordFails | proton_driver/block.py:172-176 | under the bare word nested no value can be rewritten |
| DictRows.KeyOrderIrrelevant | proton_driver/block.py:178-190 | rows that differ in the order of keys, at any level of nesting, are rewritten to the same rows |
| DictRows.RowsComplete | proton_driver/block.py:165-192 | rows are rewritten if and only if each is a dict with every declared name and, under nested names, lists of such dicts |
| DictRows.SameBlock | proton_driver/block.py:117-132 | the block of rows written as dicts is the block of the positional rows |
| DictRows.MutateDictsToRows | proton_driver/block.py:165-192 | the loop overwrites the list in place with the specified rows |
| Connection.ConnectFailsOver | proton_driver/connection.py:311-346 | one call of connect: where it stops, that success leaves the connected host at the head, that total socket failure restores the order, leaves nothing open and raises the last error, and that any other error is raised at once |
| Connection.ConnectKeepsRotation | proton_driver/connection.py:311-346 | the hosts stay a rotation of the original list |
| Connection.ForceConnectMarks | proton_driver/connection.py:215-223 | a query is refused exactly while one executes; a started one counts as executing exactly on a live or first-try connection |
| Connection.QueryStartsExactly | proton_driver/connection.py:215-223 | unless one executes, a query starts if and only if the live connection answers the ping, or there is none or the ping is lost and the first attempt that is no socket failure is a success; which host it starts on, the new order of hosts and the error otherwise |
| Connection.StepKeepsConsistent | proton_driver/connection.py:348-387 | every event keeps the state consistent: connected exactly with a socket, executing only while connected |
| Connection.FailureEndsIdle | proton_driver/client.py:231-245 | which events fail, and that every failure, refusals included, and every disconnect ends disconnected, without a socket and with nothing executing |
| Connection.MarkIsExact | proton_driver/connection.py:506-507 | in every run the mark says exactly whether a firmly started query is open |
| Connection.RefusedExactly | proton_driver/connection.py:669-676 | in every run a query is refused if and only if a firmly started one has met neither its END_OF_STREAM nor a failure nor a disconnect; after the refusal a fresh one is not refused |
| Connection.Lock.Release | proton_driver/connection.py:669-676 | the lock is only ever released while held |
| Connection.ServerConnection.ResetState | proton_driver/connection.py:348-364 | the reset clears the execution mark too |
| Connection.ServerConnection.ConnectTo | proton_driver/connection.py:311-346 | the hosts are dialled in cyclic order from the head, each at most once |
| Connection.ServerConnection.CheckQueryExecution | proton_driver/connection.py:669-676 | a refusal leaves the lock held; otherwise the query is marked |
| Connection.ServerConnection.ForceConnectTo | proton_driver/connection.py:215-223 | check, ping, and connect where needed |
| Connection.Client.Handle | proton_driver/client.py:231-245 | one event of a run, with the handlers that disconnect |
| Connection.Client.HandleAll | proton_driver/client.py:165-245 | a whole run |

## Left out

- ColumnRoundTrip.ColumnReadsBack: what it excludes is shown to be lost where it occurs (leaf values that are not typed, a column without items, rows of empty dicts, nullable arrays with leaves, keys and dictionaries without hashes), except for the two cases below; that a loss deep inside a tree always shows in the whole is not proved.
- ColumnRoundTrip.WellFormed: a nullable dictionary inside low_cardinality is a leaf column. One of arrays, tuples or maps is never read back, since its index is a list (`Unhashable.ListIndexFails`); one of another low_cardinality, as in low_cardinality(nullable(low_cardinality(uint8))), is written and read back by the definitions but left out.
- ColumnRoundTrip.HasType: None rows of nullable maps, and of nullable tuples inside arrays, are left out, though their null map restores them; a nullable tuple outside arrays writes no null map.
- SpecParser.BareComma: the first type is not, and does not wrap, an enum without members, which takes its members from the text behind it.
- SingleUse.ArrayIsSingleUse: column objects are values here; what one successful write leaves behind in an object is a function of the object and the items, and what a failed write or a read leaves behind is not modelled.
- Native.WriteBlockTo: a column-oriented block hands its own lists to the columns, which overwrite them; here the lists are copied.
- Dictionaries.DistinctIsExact: values are told apart by structure, where Python takes 1 and True for one key; typed columns do not mix them.
- DictRows.MutateDictsToRows: the outer list is overwritten in place, nested lists are values, so a list shared between rows is not modelled.
- Insert.ColumnChunkGenerator.Next: the generators of the single columns advance together and are kept as one position; the type check on columns is left out.
- Compressed.CompressedReader.Read: the extra branch for reads that end inside the buffer returns the same bytes and is not repeated.
- Varint.Read: more than ten bytes give no result, where the C code shifts by 64 or more.
- Type checking of values, the masking of integers it adds, strings as bytes, named tuples as dicts, other text encodings.
- Floats, dates, decimals, JSON, UUID, IP addresses, intervals, integers of 128 and 256 bits, nothing and NULL columns: the parser returns None for them here.
- Python's own restrictions on enum member names, and the spaces and underscores int() accepts in numbers.
- numpy and pandas columns, results and blocks.
- Sockets, TLS, DNS, timeouts, URL parsing, settings, logging, elapsed time.
- The hello and ping exchanges beyond their outcomes, external tables, query parameters, the DB-API layer.
- LZ4, ZSTD and CityHash internals: decompression is assumed to invert compression for the payloads at hand, and hashes to fit 128 bits.
- Several threads on one connection: the result of the non-blocking acquire is ignored by the source, so there is no exclusion to prove.
