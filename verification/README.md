# Models of the persistent, streaming and packed data structures

This project models three parts of the repository whose correctness rests on invariants
rather than on reading one function: the collections and codecs that the bundled API page
carries, the packed-key utilities of the persistence example, and the byte-array builder.
`dafny verify dfyconfig.toml` checks everything.

* **Persistent hash map** (`Words`, `HashTrie`, `HashTrieProofs`, `HashTrieBranches`,
  `HashTrieUpdates`, `ImmutableMap`, `HashTrieContents`, `HashTrieLoops`): a map that is
  empty, a flat list of up to eight entries, or a trie of bitmap nodes, 32-slot nodes,
  collision buckets and leaves. Every run of `set` and `remove`, under every hash function,
  is proved to read like a plain dictionary, with every node in its prescribed shape. Bit
  operations are defined on numbers bit by bit, and the branch-free bit count is proved to
  count bits. The loops over arrays are methods, proved equal to the functions that the
  recursive code is modelled by.
* **Ordered map** (`OrderedMap`): a hash map from keys to indices over a list with holes.
* **Linked map** (`LinkedMap`): the insertion-ordered Map polyfill on the heap: entries with
  forward and back links, a key index, and iterators that survive any change. The ghost
  fields `history` and `live` record which entries ever existed and which are live. Keys
  that the index cannot hold are looked for with the loose comparison, as in the code; how
  it behaves is a parameter, `Keys`.
* **Shared by these** (`EntryLists`, `Sequences`, `Quotients`, `Options`): lists of entries
  and the dictionary that keeps the order of insertion, and facts about sequences and
  about division by powers of two.
* **UTF-8** (`Utf8`, `StringDecoder`, `StringDecoderProofs`): the buffer's encoder with its
  byte limit, its decoder, and the decoder object that takes text in chunks.
* **Recency queue** (`LruQueue`, `LruQueueRuns`): two index maps, a counter and the oldest
  index, against a list ordered by last use.
* **Base64** (`Base64`, `Base64Decoder`, `YamlBinary`, `YamlBinaryReader`): two encoders that
  were written independently, and both decoders.
* **Packed keys and byte codecs** (`ByteSeqs`, `JavaNumbers`, `ByteCodecs`, `ByteHash`,
  `PackedKeys`): the comparator, big-endian numbers in place, the polynomial hash in 32-bit
  arithmetic, and the binary search that compares seven bytes at a time.
* **Byte-array builder** (`ByteArrayBuilder`): a growing buffer against an append-only byte
  sequence, with the cost of reallocation.

## How the code is represented

Keys of the persistent maps are compared by equality and hashed by an arbitrary function to
32 bits; values are compared by equality. Integers are unbounded, so 32- and 64-bit
wrap-around is written out (`Wrap32`, `Wrap64`) wherever the code computes in a fixed width.
A byte is its unsigned value; `Signed8` gives Java's view of it. Shifts and masks outside
the trie are divisions and remainders by powers of two, and an "or" of fields that do not
overlap is a sum. Exceptions are results: `Error`, or `ok == false` with the state
unchanged but for what the contract says. The memory that the key search reads is a
sequence of bytes that starts at a given address; it holds exactly the byte before the
table and the table, so that every read is shown to stay within it.

## What turned out not to hold

Each of these is proved with its exact condition, and where it fails at one input.

* The Map polyfill looks for a frozen object with the loose comparison, which converts it:
  after `set("a", 1)`, `set(Object.freeze(["a"]), 2)` overwrites the entry of `"a"`. The
  lookup is right if and only if the key is not frozen, or no entry before its place (or
  anywhere, if it is absent) has a loosely equal key (`LocatedIff`). `delete` is a
  dictionary's under exactly that condition (`RemovedIff`), `set` also where both entries
  already held the value (`StoredIff`); `FrozenKeyMistaken` is such an input.
* The UTF-8 encoder loses the last code unit of a text that ends with two lead surrogates
  (`EncodesAllIff`; `SecondLeadLost`).
* The `!!binary` reader makes three zero bytes of an empty text, and the writer writes four
  characters for no bytes, so only non-empty data comes back (`ReadsBackIff`;
  `NothingReadsAsThree`).
* The base64 decoder accepts padding at the start of a group and replaces the group before
  it by two zero bytes; a text that starts with padding is an error. It gives the bytes of
  the characters before the padding if and only if the length is a multiple of four and
  the padding, if any, does not start a group (`DecodedIff`, `DecodedErrorIff`). Where it
  starts a later group, the text without the group before it is decoded and two zeros are
  added (`PaddingReplacesGroup`; `OnlyGroupReplaced` is an input).
* The bytes of two ints compare like the ints exactly if these have the same sign
  (`SignedOrderIff`; `MinusOneAboveZero`).
* The streaming decoder gives what decoding at once gives, for every cutting into chunks, if
  and only if no bytes are stranded: no first byte of a three- or four-byte character is
  followed by at least one continuation byte but too few (`ChunkInvarianceIff`). Stranded
  bytes before another byte make the cuttings differ from each other (`CuttingsAgreeIff`;
  `InvalidBytesDiffer` is an input); at the end they make every cutting, also a single chunk,
  write one U+FFFD where decoding at once writes more (`StreamedParts`). Valid UTF-8 strands
  none (`ValidIsNotStranded`, `ChunkInvariance`).
* The builder's character append reserves one byte and writes two; it overflows exactly if
  one byte is free, or none is and the capacity cannot double to two more (`AppendChar`;
  `CharOverflows`).
* A trim that shortens the array sets the builder back to position 0, so the contents stay
  if and only if there were none or the array was full (`Trim`; `TrimForgets`).

## Model

| member | source | states |
|---|---|---|
| ImmutableMap.RunRefinesDictionary | src/main/resources/swagger-ui/swagger-ui-standalone-preset.js:1 | after every run of set and remove, under any hash function, every key reads what a finite map holds, the size is its number of keys, and every node has its shape |
| ImmutableMap.UpdateRepresents | src/main/resources/swagger-ui/swagger-ui-standalone-preset.js:1 | one update of a map that stands for a dictionary stands for the updated dictionary, on every kind of root |
| ImmutableMap.UpdateRootOk | src/main/resources/swagger-ui/swagger-ui-standalone-preset.js:1 | an update changes what its key reads and no other key; it reports altered and resized exactly when it did so, and an unaltered root is returned itself |
| ImmutableMap.InsertAllOk | src/main/resources/swagger-ui/swagger-ui-standalone-preset.js:1 | a flat list that outgrows eight entries becomes a well-formed trie that reads all of them |
| ImmutableMap.FlatOrder | src/main/resources/swagger-ui/swagger-ui-standalone-preset.js:1 | in a flat list a new entry comes last, a new value stays in place, and the last entry takes the place of a removed one |
| ImmutableMap.BucketOrder | src/main/resources/swagger-ui/swagger-ui-standalone-preset.js:1 | the same within a collision bucket, down to a single entry |
| ImmutableMap.NinthFirst | src/main/resources/swagger-ui/swagger-ui-standalone-preset.js:1 | when a full list of colliding keys becomes a bucket, the new entry comes first and the list after it |
| ImmutableMap.SizesInNumbers | src/main/resources/swagger-ui/swagger-ui-standalone-preset.js:1 | every node of a trie: 1 to 16 children behind a bitmap, 8 or more of 32 slots filled, two entries or more in a bucket, at most seven branches deep |
| ImmutableMap.OutgrowsIff | src/main/resources/swagger-ui/swagger-ui-standalone-preset.js:1 | a list becomes a trie exactly with its ninth entry |
| ImmutableMap.ExpandsIff | src/main/resources/swagger-ui/swagger-ui-standalone-preset.js:1 | a bitmap node becomes an array of slots exactly with its seventeenth child |
| ImmutableMap.PacksIff | src/main/resources/swagger-ui/swagger-ui-standalone-preset.js:1 | an array of slots becomes a bitmap node exactly when seven children are left |
| HashTrieUpdates.UpdateOk | src/main/resources/swagger-ui/swagger-ui-standalone-preset.js:1 | at every node kind an update keeps the shape, gives the key its new reading, leaves every other key, and a node disappears only where a leaf stood |
| HashTrieUpdates.BitmapOk | src/main/resources/swagger-ui/swagger-ui-standalone-preset.js:1 | a bitmap node takes its updated child by replacing, adding, expanding to 32 slots, removing or collapsing into a sole leaf, and still reads the same otherwise |
| HashTrieUpdates.ArrayOk | src/main/resources/swagger-ui/swagger-ui-standalone-preset.js:1 | a 32-slot node keeps an exact count of at least eight, or packs into a bitmap node that reads the same |
| HashTrieUpdates.CollisionHit | src/main/resources/swagger-ui/swagger-ui-standalone-preset.js:1 | a collision bucket keeps at least two distinct keys of one hash, or collapses into the remaining leaf |
| HashTrieProofs.MergeWellFormed | src/main/resources/swagger-ui/swagger-ui-standalone-preset.js:1 | pushing a leaf and a new entry down gives a well-formed node: a bucket for equal hashes, a branch otherwise |
| HashTrieProofs.MergeGet | src/main/resources/swagger-ui/swagger-ui-standalone-preset.js:1 | the merged node reads the new entry and everything the leaf read |
| HashTrieProofs.HashesPart | src/main/resources/swagger-ui/swagger-ui-standalone-preset.js:1 | two different hashes on one path part within seven slices, so the merge ends at a shift of at most 30 |
| HashTrieContents.DepthBound | src/main/resources/swagger-ui/swagger-ui-standalone-preset.js:1 | no path of a well-formed trie has more than seven branch levels |
| HashTrieContents.IterationListsDictionary | src/main/resources/swagger-ui/swagger-ui-standalone-preset.js:1 | iterating over the nodes lists every entry of the dictionary once and nothing else |
| HashTrieContents.IterationOrder | src/main/resources/swagger-ui/swagger-ui-standalone-preset.js:1 | iteration visits the entries in the order of the five-bit slices of their hashes, lowest slice first |
| HashTrie.Locate | src/main/resources/swagger-ui/swagger-ui-standalone-preset.js:1 | masking tells whether a slot is used, and counting the bits below it gives its packed position |
| HashTrieBranches.SpliceInChild | src/main/resources/swagger-ui/swagger-ui-standalone-preset.js:1 | setting the bit and splicing the child in adds that child and moves no other |
| HashTrieBranches.SpliceOutChild | src/main/resources/swagger-ui/swagger-ui-standalone-preset.js:1 | clearing the bit and splicing out removes that child and moves no other |
| HashTrieBranches.ExpandChild | src/main/resources/swagger-ui/swagger-ui-standalone-preset.js:1 | expanding keeps every child in its slot and adds one |
| HashTrieBranches.PackChild | src/main/resources/swagger-ui/swagger-ui-standalone-preset.js:1 | packing keeps every child but one in its slot |
| HashTrieLoops.ExpandNodes | src/main/resources/swagger-ui/swagger-ui-standalone-preset.js:1 | the loop that shifts the bitmap places each child in its slot |
| HashTrieLoops.PackNodes | src/main/resources/swagger-ui/swagger-ui-standalone-preset.js:1 | the loop over the slots gathers the children and their bits in order |
| HashTrieLoops.SpliceInLoop | src/main/resources/swagger-ui/swagger-ui-standalone-preset.js:1 | the copying loop inserts one element |
| HashTrieLoops.SpliceOutLoop | src/main/resources/swagger-ui/swagger-ui-standalone-preset.js:1 | the copying loop removes one element |
| HashTrieLoops.FindEntry | src/main/resources/swagger-ui/swagger-ui-standalone-preset.js:1 | the linear search finds the first entry of the key, or the length |
| Words.Popcount | src/main/resources/swagger-ui/swagger-ui-standalone-preset.js:1 | the branch-free count is the number of set bits of every 32-bit word |
| Words.RankAll | src/main/resources/swagger-ui/swagger-ui-standalone-preset.js:1 | the number of used slots of a bitmap is its bit count |
| Words.SliceByMask | src/main/resources/swagger-ui/swagger-ui-standalone-preset.js:1 | shifting and masking with 31 takes the five-bit slice that the paths are made of |
| Words.SlicesDetermine | src/main/resources/swagger-ui/swagger-ui-standalone-preset.js:1 | 32-bit hashes with the same seven slices are equal |
| OrderedMap.RunKeepsOrder | src/main/resources/swagger-ui/swagger-ui-standalone-preset.js:1 | after every run of updates the entries without holes are those of an ordered dictionary: insertion order, overwritten ones in place; index and list agree and holes are at most max(31, size + 1) |
| OrderedMap.UpdateOk | src/main/resources/swagger-ui/swagger-ui-standalone-preset.js:1 | one update keeps index and list in agreement and is the update of the ordered dictionary |
| OrderedMap.CompactOk | src/main/resources/swagger-ui/swagger-ui-standalone-preset.js:1 | compaction keeps the order, drops the holes and the removed entry, and rebuilds a correct index |
| OrderedMap.CompactsIff | src/main/resources/swagger-ui/swagger-ui-standalone-preset.js:1 | a removal compacts the list exactly if it has at least 32 slots and no more than half are filled; otherwise it empties the slot or drops the last one |
| OrderedMap.GetReadsLive | src/main/resources/swagger-ui/swagger-ui-standalone-preset.js:1 | lookup reads the entry that iteration yields; keys are distinct and counted by size |
| LinkedMap.Interleave | src/main/resources/swagger-ui/swagger-ui.js:8 | any interleaving of set, delete, clear and iterator steps: the contents are those of the list after the same changes, an ordered dictionary's if no key is mistaken; entries are yielded in the order of their creation, none twice; what is yielded at a step is among the contents at that step with its value there; if the end is reported, every entry of the contents at that step has been yielded: its key never left the contents since a step that yielded it, or since the start if it had been passed before |
| LinkedMap.RunIsOrdered | src/main/resources/swagger-ui/swagger-ui.js:8 | a run in which no frozen key is loosely equal to a key before its place is the run of an ordered dictionary |
| LinkedMap.LocatedIff | src/main/resources/swagger-ui/swagger-ui.js:8 | the lookup finds the key's own entry, or rightly none, if and only if the key is not frozen or no entry before its place has a loosely equal key |
| LinkedMap.StoredIff | src/main/resources/swagger-ui/swagger-ui.js:8 | set is that of an ordered dictionary if and only if the lookup is right or both entries already held the value |
| LinkedMap.RemovedIff | src/main/resources/swagger-ui/swagger-ui.js:8 | delete is that of an ordered dictionary if and only if the lookup is right |
| LinkedMap.FrozenKeyMistaken | src/main/resources/swagger-ui/swagger-ui.js:8 | a frozen array around a text overwrites and deletes the entry of the text |
| LinkedMap.Perform | src/main/resources/swagger-ui/swagger-ui.js:8 | one step of an interleaving on the contents; a yielded entry is live with its present value, and at the end all live entries have been yielded; no other entry becomes a passed one |
| LinkedMap.Iterator.Next | src/main/resources/swagger-ui/swagger-ui.js:8 | yields the first live entry not yet passed, never one yielded before; reports the end exactly with every live entry yielded (section 23.1.5.2.1 of ECMA-262, 6th edition) |
| LinkedMap.Iterator.WalkBack | src/main/resources/swagger-ui/swagger-ui.js:8 | walking stale back links from a removed entry ends at the nearest live entry before it |
| LinkedMap.Iterator.Survives | src/main/resources/swagger-ui/swagger-ui.js:8 | whatever happens to the collection, an iterator's guarantees stay |
| LinkedMap.Collection.Def | src/main/resources/swagger-ui/swagger-ui.js:8 | set overwrites the entry that the lookup finds in place, keeping its key, or appends; links, index and size are kept; an ordered dictionary's update if no key is mistaken |
| LinkedMap.Collection.Delete | src/main/resources/swagger-ui/swagger-ui.js:8 | delete removes exactly the entry that the lookup finds and tells whether there was one: the key's own exactly if no key is mistaken; removed entries stay linked back past removed entries only |
| LinkedMap.Collection.Clear | src/main/resources/swagger-ui/swagger-ui.js:8 | clear empties list and index and cuts every entry off, so that live iterators restart correctly |
| LinkedMap.Collection.GetEntry | src/main/resources/swagger-ui/swagger-ui.js:8 | finds the live entry of a key by index or, for a key that cannot be indexed, the first whose key is loosely equal, by walking |
| LinkedMap.Collection.Get | src/main/resources/swagger-ui/swagger-ui.js:8 | reads the value of the entry that the lookup finds: the key's own in the list of contents if no key is mistaken |
| Utf8.FirstScalarIff | src/main/resources/swagger-ui/swagger-ui-standalone-preset.js:13 | the decoder takes a character from the front exactly if the shortest encoding of that scalar value stands there (section 3 of RFC 3629) |
| Utf8.ByteTable | src/main/resources/swagger-ui/swagger-ui-standalone-preset.js:13 | the encoding of a scalar value has the length, the first byte and the bits of the table in section 3 of RFC 3629 |
| Utf8.BytesInOrder | src/main/resources/swagger-ui/swagger-ui-standalone-preset.js:13 | encodings compare bytewise like the scalar values (section 1 of RFC 3629) |
| Utf8.PairsCount | src/main/resources/swagger-ui/swagger-ui-standalone-preset.js:13 | surrogate pairs count from U+10000 to U+10FFFF without a gap |
| Utf8.UnitsStandFor | src/main/resources/swagger-ui/swagger-ui-standalone-preset.js:13 | a scalar value is pushed as itself or as the pair that stands for it |
| Utf8.BadByte | src/main/resources/swagger-ui/swagger-ui-standalone-preset.js:13 | a byte where no encoding of a scalar value starts comes out as U+FFFD, and only that byte |
| Utf8.GoodBytes | src/main/resources/swagger-ui/swagger-ui-standalone-preset.js:13 | an encoding at the front comes out as the code units of its scalar value |
| Utf8.LoneSurrogate | src/main/resources/swagger-ui/swagger-ui-standalone-preset.js:13 | an unpaired surrogate counts as U+FFFD, and only that code unit |
| Utf8.RoundTrip | src/main/resources/swagger-ui/swagger-ui-standalone-preset.js:13 | decoding the encoding of a well-formed text gives the text |
| Utf8.EncodedIsDecoded | src/main/resources/swagger-ui/swagger-ui-standalone-preset.js:13 | what the encoder writes for a well-formed text without a limit is decoded to the text |
| Utf8.DecodedIsWellFormed | src/main/resources/swagger-ui/swagger-ui-standalone-preset.js:13 | whatever the bytes, the decoded text has no unpaired surrogate |
| Utf8.DecodeIsIdempotent | src/main/resources/swagger-ui/swagger-ui-standalone-preset.js:13 | decoding, encoding and decoding again changes nothing, for all bytes |
| Utf8.DecodeSlice | src/main/resources/swagger-ui/swagger-ui-standalone-preset.js:13 | the decoder's loop decodes the bytes from start up to the end or the end of the buffer |
| Utf8.Encode | src/main/resources/swagger-ui/swagger-ui-standalone-preset.js:13 | the encoder's loop writes the longest fitting prefix of the characters it emits; a missing or zero limit is none |
| Utf8.EmittedIsKept | src/main/resources/swagger-ui/swagger-ui-standalone-preset.js:13 | the encoder's state machine emits the scalar values of the text, with U+FFFD for unpaired surrogates, but for a last lead after a lead |
| Utf8.EncodesAllIff | src/main/resources/swagger-ui/swagger-ui-standalone-preset.js:13 | without a limit the whole text is encoded if and only if it does not end with two leads |
| Utf8.SecondLeadLost | src/main/resources/swagger-ui/swagger-ui-standalone-preset.js:13 | of two leads only one replacement character comes out |
| Utf8.EncodesLongestPrefix | src/main/resources/swagger-ui/swagger-ui-standalone-preset.js:13 | with a positive limit a well-formed text is cut to the longest prefix of whole characters that fits |
| StringDecoder.Decoder.Write | src/main/resources/swagger-ui/swagger-ui-standalone-preset.js:13 | the object's new state and text are those of the chunk function, for all bytes |
| StringDecoder.Decoder.FillLast | src/main/resources/swagger-ui/swagger-ui-standalone-preset.js:13 | completes, extends or gives up the held-back character as the chunk function says |
| StringDecoder.Decoder.CheckIncomplete | src/main/resources/swagger-ui/swagger-ui-standalone-preset.js:13 | the backward scan over at most three bytes finds a cut character's length and missing bytes |
| StringDecoderProofs.KindTable | src/main/resources/swagger-ui/swagger-ui-standalone-preset.js:13 | which bytes are ASCII, continuation bytes, first bytes of two, three or four, or none of these |
| StringDecoder.Decoder.Text | src/main/resources/swagger-ui/swagger-ui-standalone-preset.js:13 | decodes a chunk from a position on and keeps a cut character back |
| StringDecoder.Decoder.End | src/main/resources/swagger-ui/swagger-ui-standalone-preset.js:13 | writes a last chunk and U+FFFD for a character still cut |
| StringDecoderProofs.ChunkInvariance | src/main/resources/swagger-ui/swagger-ui-standalone-preset.js:13 | for every valid byte sequence and every cutting into chunks the texts together are the one-shot decoding (section 3 of RFC 3629) |
| StringDecoderProofs.ChunkInvarianceIff | src/main/resources/swagger-ui/swagger-ui-standalone-preset.js:13 | for all bytes: every cutting into chunks gives, with the end, the one-shot decoding, if and only if no bytes are stranded |
| StringDecoderProofs.CuttingsAgreeIff | src/main/resources/swagger-ui/swagger-ui-standalone-preset.js:13 | for all bytes: all cuttings give the same text if and only if no bytes are stranded before another byte |
| StringDecoderProofs.ValidIsNotStranded | src/main/resources/swagger-ui/swagger-ui-standalone-preset.js:13 | valid UTF-8 strands no bytes |
| StringDecoderProofs.RunOk | src/main/resources/swagger-ui/swagger-ui-standalone-preset.js:13 | after any chunks, unless bytes were stranded inside, what has come out is the decoding of all bytes but those of a character cut at the end, and exactly these are held back |
| StringDecoderProofs.StreamedParts | src/main/resources/swagger-ui/swagger-ui-standalone-preset.js:13 | unless bytes are stranded inside, every cutting gives the decoding of all bytes but those of a character cut at the end, and one U+FFFD for these, right or wrong |
| StringDecoderProofs.TruncatedInvariance | src/main/resources/swagger-ui/swagger-ui-standalone-preset.js:13 | a sequence that ends inside a character gives its whole characters and one U+FFFD, however it is cut |
| StringDecoderProofs.ChunkOk | src/main/resources/swagger-ui/swagger-ui-standalone-preset.js:13 | one chunk after any held-back bytes, right or wrong: unless bytes were stranded, what can now be decoded comes out as at once and exactly the bytes of the character cut at the end are held back |
| StringDecoderProofs.BrokenOff | src/main/resources/swagger-ui/swagger-ui-standalone-preset.js:13 | a held-back character that breaks off after any number of continuing bytes of the next chunk gives one U+FFFD for all of them, and the text goes on with the byte that broke it |
| StringDecoderProofs.BrokenInsideChunk | src/main/resources/swagger-ui/swagger-ui-standalone-preset.js:13 | a first byte, and then a continuing byte and a letter, give U+FFFD and the letter |
| StringDecoderProofs.CutFindsLast | src/main/resources/swagger-ui/swagger-ui-standalone-preset.js:13 | for all bytes, the backward scan finds the character that is cut at the end, with its length and missing bytes, if and only if there is one |
| StringDecoderProofs.InvalidBytesDiffer | src/main/resources/swagger-ui/swagger-ui-standalone-preset.js:13 | two bytes of a three-byte character and a letter give two U+FFFD at once, but one if the letter comes in a second chunk |
| LruQueue.Queue.Hit | src/main/resources/swagger-ui/swagger-ui-standalone-preset.js:13 | moves the id to the recent end of the list; evicts the oldest, and tells which, exactly if a new id passes the limit; maps stay inverse, base the smallest index, size within the limit |
| LruQueue.Queue.Delete | src/main/resources/swagger-ui/swagger-ui-standalone-preset.js:13 | takes the id out of the recency list and keeps maps, base and counter consistent |
| LruQueue.Queue.Clear | src/main/resources/swagger-ui/swagger-ui-standalone-preset.js:13 | empties the list |
| LruQueue.Queue.Advance | src/main/resources/swagger-ui/swagger-ui-standalone-preset.js:13 | the pointer loop ends at the next live index |
| LruQueue.ListedRemove | src/main/resources/swagger-ui/swagger-ui-standalone-preset.js:13 | deleting an index takes exactly its id out of the list of ids by index |
| LruQueueRuns.HeldIff | src/main/resources/swagger-ui/swagger-ui-standalone-preset.js:13 | after any run of hits an id is held if and only if it was hit and fewer than limit distinct ids were hit since |
| LruQueueRuns.HeldAfterAnyRunIff | src/main/resources/swagger-ui/swagger-ui-standalone-preset.js:13 | after any run of hits, deletions and clears an id is held if and only if since its last hit it was not deleted, the queue was not cleared, and there never stood limit ids hit later |
| LruQueueRuns.RunOrdered | src/main/resources/swagger-ui/swagger-ui-standalone-preset.js:13 | after any run of hits, deletions and clears the ids are distinct, ordered by their last hits and within the limit |
| LruQueueRuns.EvictsLeastRecent | src/main/resources/swagger-ui/swagger-ui-standalone-preset.js:13 | a hit evicts if and only if the id is new and the queue full, and then an id whose last hit is older than that of every id kept |
| Base64.FromByteArray | src/main/resources/swagger-ui/swagger-ui-standalone-preset.js:13 | the chunked encoder with its padding writes the text of section 4 of RFC 4648, across the 16383-byte chunks |
| Base64.Alphabet | src/main/resources/swagger-ui/swagger-ui-standalone-preset.js:13 | the 64 characters of section 4 of RFC 4648, in order |
| Base64.LookupTable | src/main/resources/swagger-ui/swagger-ui-standalone-preset.js:13 | a character of the alphabet has its place in it as value, '-' has 62 and '_' has 63, and every other character has 0 |
| Base64.GroupValue | src/main/resources/swagger-ui/swagger-ui-standalone-preset.js:13 | four characters stand for the same 24 bits as their three bytes |
| Base64.LastValue | src/main/resources/swagger-ui/swagger-ui-standalone-preset.js:13 | a last group of one or two bytes stands for these and zero bits, and ends with two or one '=' |
| Base64Decoder.ToByteArray | src/main/resources/swagger-ui/swagger-ui-standalone-preset.js:13 | the decoder's loop and its size computation give Decoded of every text, with its errors and its treatment of misplaced padding |
| Base64Decoder.DecodedIff | src/main/resources/swagger-ui/swagger-ui-standalone-preset.js:13 | the decoder gives the bytes of the characters before the padding if and only if the length is a multiple of four and the padding, if any, does not start a group |
| Base64Decoder.DecodedErrorIff | src/main/resources/swagger-ui/swagger-ui-standalone-preset.js:13 | it reports an error if and only if the length is no multiple of four or the text starts with padding |
| Base64Decoder.PaddingReplacesGroup | src/main/resources/swagger-ui/swagger-ui-standalone-preset.js:13 | for every text with padding at the start of a later group: it decodes to what the text without the group before it gives and two zeros, in place of that group's three bytes |
| Base64Decoder.OnlyGroupReplaced | src/main/resources/swagger-ui/swagger-ui-standalone-preset.js:13 | one group and padding after it decode to two zeros |
| Base64Decoder.RoundTrip | src/main/resources/swagger-ui/swagger-ui-standalone-preset.js:13 | decoding an encoded byte sequence gives it back, for every length |
| YamlBinary.Represent | src/main/resources/swagger-ui/swagger-ui-standalone-preset.js:13 | the accumulator encoder writes the same text as the other encoder for non-empty data, although its 32-bit accumulator overflows, and four characters for none |
| YamlBinaryReader.WritersAgreeIff | src/main/resources/swagger-ui/swagger-ui-standalone-preset.js:13 | the two encoders write the same text if and only if the data is not empty |
| YamlBinaryReader.Construct | src/main/resources/swagger-ui/swagger-ui-standalone-preset.js:13 | the accumulator decoder gives the bytes of the characters left after line breaks and padding are dropped |
| YamlBinaryReader.StrippedAt | src/main/resources/swagger-ui/swagger-ui-standalone-preset.js:13 | a carriage return, line feed or '=' does not matter wherever it stands, and every other character does |
| YamlBinaryReader.ValidIff | src/main/resources/swagger-ui/swagger-ui-standalone-preset.js:13 | the characters read are exactly those of the alphabet, not '-' and '_' |
| YamlBinaryReader.ReadsBackIff | src/main/resources/swagger-ui/swagger-ui-standalone-preset.js:13 | the reader gives back what either encoder wrote if and only if the data was not empty |
| YamlBinaryReader.NothingReadsAsThree | src/main/resources/swagger-ui/swagger-ui-standalone-preset.js:13 | no bytes are written as four characters and read as three zeros |
| ByteCodecs.Compare | examples/src/main/scala/examples/persistence/Utils.java:57-67 | the loop computes Compared, the unsigned lexicographic order that ComparedDecided states |
| ByteSeqs.ComparedDecided | examples/src/main/scala/examples/persistence/Utils.java:57-67 | where two arrays agree, the next bytes decide by their unsigned difference, and if one array ends there the difference of the lengths: a prefix comes before the longer array |
| ByteSeqs.ComparedIsTotalOrder | examples/src/main/scala/examples/persistence/Utils.java:51-67 | the comparator is a total order whose zero is equality |
| ByteSeqs.ComparedNumbers | examples/src/main/scala/examples/persistence/Utils.java:57-67 | on equal lengths it orders the big-endian numbers |
| ByteCodecs.Greatest | examples/src/main/scala/examples/persistence/Utils.java:79-86 | returns a new array of ones |
| ByteCodecs.AllOnesIsGreatest | examples/src/main/scala/examples/persistence/Utils.java:79-86 | no array of the size compares above it, and only itself equal |
| ByteHash.ByteArrayHashCode | examples/src/main/scala/examples/persistence/Utils.java:70-77 | the loop computes the wrapped polynomial of the signed bytes from seed 1 |
| ByteHash.HashedByte | examples/src/main/scala/examples/persistence/Utils.java:70-77 | one more byte, taken as signed, is added to the hash so far times -1640531527, modulo 2 to the 32; with the seed 1 this fixes the hash |
| ByteHash.OneByteNeverCollides | examples/src/main/scala/examples/persistence/Utils.java:70-77 | changing exactly one byte always changes the hash |
| ByteHash.HashedInjectiveInSeed | examples/src/main/scala/examples/persistence/Utils.java:70-77 | equal hashes of the same bytes come from equal seeds: the odd multiplier is invertible |
| ByteHash.ConcatenationLaw | examples/src/main/scala/examples/persistence/Utils.java:70-77 | the hash of a concatenation follows from the first hash, a power of the multiplier and the second part's hash from zero |
| ByteCodecs.GetLong7 | examples/src/main/scala/examples/persistence/Utils.java:88-97 | the big-endian number of seven bytes |
| ByteCodecs.GetInt | examples/src/main/scala/examples/persistence/Utils.java:169-175 | the signed 32-bit value of four big-endian bytes |
| ByteCodecs.PutInt | examples/src/main/scala/examples/persistence/Utils.java:177-182 | writes the four bytes of the number and changes no other |
| ByteCodecs.GetLong | examples/src/main/scala/examples/persistence/Utils.java:185-196 | the signed 64-bit value of eight big-endian bytes |
| ByteCodecs.PutLong | examples/src/main/scala/examples/persistence/Utils.java:198-207 | writes the eight bytes of the number and changes no other |
| ByteCodecs.PutLongOfSize | examples/src/main/scala/examples/persistence/Utils.java:209-214 | writes the lowest vSize bytes, the same eight for size 8, and changes no other |
| ByteCodecs.IntRoundTrip | examples/src/main/scala/examples/persistence/Utils.java:169-182 | every int is read back from its bytes |
| ByteCodecs.LongRoundTrip | examples/src/main/scala/examples/persistence/Utils.java:185-207 | every long is read back from its bytes |
| ByteCodecs.SizedRoundTrip | examples/src/main/scala/examples/persistence/Utils.java:209-214 | an unsigned number below 256 to the vSize is read back from its vSize bytes |
| ByteCodecs.SevenBytesRoundTrip | examples/src/main/scala/examples/persistence/Utils.java:88-97 | the seven-byte reader undoes the sized writer anywhere in an array |
| ByteCodecs.EncodingKeepsOrder | examples/src/main/scala/examples/persistence/Utils.java:209-214 | the comparator on written bytes has the sign of the unsigned numbers' difference |
| ByteCodecs.SignedOrderIff | examples/src/main/scala/examples/persistence/Utils.java:177-182 | written signed ints compare like the ints if and only if they have the same sign |
| ByteCodecs.MinusOneAboveZero | examples/src/main/scala/examples/persistence/Utils.java:177-182 | the bytes of -1 compare above those of 0 |
| ByteSeqs.BigEndianLow | examples/src/main/scala/examples/persistence/Utils.java:209-214 | only the lowest bytes of a number matter to what is written |
| PackedKeys.ParseKey | examples/src/main/scala/examples/persistence/Utils.java:99-107 | the key as numbers of seven bytes each, the last one moved back to end with the key |
| PackedKeys.MaskedRead | examples/src/main/scala/examples/persistence/Utils.java:114-117 | a little-endian read, reversed and masked, is the big-endian number of the seven bytes after the address |
| PackedKeys.UnsafeCompare | examples/src/main/scala/examples/persistence/Utils.java:138-150 | comparing by chunks has the sign of the bytewise comparator, the overlap notwithstanding; no read leaves the window and the product does not overflow |
| PackedKeys.ChunkDecides | examples/src/main/scala/examples/persistence/Utils.java:138-150 | rows that agree so far are decided by a differing chunk as the comparator decides, or agree through an equal one |
| PackedKeys.UnsafeBinarySearch | examples/src/main/scala/examples/persistence/Utils.java:119-136 | returns a row that equals the key, or -1 if and only if there is none; it ends, stays within the table and the byte before it, and no 32-bit sum overflows |
| ByteArrayBuilder.AppendAll | sparkz-util/src/main/scala/sparkz/util/ByteArrayBuilder.java:63-127 | after any run of appends the bytes are the concatenated encodings; up to 2 to the 30 bytes, fewer than twice the length were copied and the capacity is the initial one or at most twice the length |
| ByteArrayBuilder.NumbersRecovered | sparkz-util/src/main/scala/sparkz/util/ByteArrayBuilder.java:103-113 | every appended int and long is read back at its cumulative offset |
| ByteArrayBuilder.ItemAtOffset | sparkz-util/src/main/scala/sparkz/util/ByteArrayBuilder.java:70-113 | every appended item stands at the sum of the lengths before it |
| ByteArrayBuilder.Builder.EnsureCapacity | sparkz-util/src/main/scala/sparkz/util/ByteArrayBuilder.java:115-127 | makes room exactly if the new length fits an int, keeps contents and position, and pays for its copies by growth |
| ByteArrayBuilder.Growth | sparkz-util/src/main/scala/sparkz/util/ByteArrayBuilder.java:115-127 | the capacity doubles, or grows to what is needed if that is more or doubling overflows; a length that is no int leaves it |
| ByteArrayBuilder.Builder.AppendByte | sparkz-util/src/main/scala/sparkz/util/ByteArrayBuilder.java:70-74 | appends the byte if the length stays within an int, and otherwise nothing |
| ByteArrayBuilder.Builder.AppendSlice | sparkz-util/src/main/scala/sparkz/util/ByteArrayBuilder.java:80-84 | appends the slice as it was at the call, or nothing |
| ByteArrayBuilder.Builder.AppendArray | sparkz-util/src/main/scala/sparkz/util/ByteArrayBuilder.java:76-78 | appends the whole array, or nothing |
| ByteArrayBuilder.Builder.AppendBoolean | sparkz-util/src/main/scala/sparkz/util/ByteArrayBuilder.java:86-89 | appends one byte, 1 or 0 |
| ByteArrayBuilder.Builder.AppendChar | sparkz-util/src/main/scala/sparkz/util/ByteArrayBuilder.java:91-95 | appends two bytes, and exactly when it overflows |
| ByteArrayBuilder.CharOverflows | sparkz-util/src/main/scala/sparkz/util/ByteArrayBuilder.java:91-95 | on a new builder with room for one byte every character overflows, and nothing is appended |
| ByteArrayBuilder.Builder.AppendShort | sparkz-util/src/main/scala/sparkz/util/ByteArrayBuilder.java:97-101 | appends the two big-endian bytes, or nothing |
| ByteArrayBuilder.Builder.AppendInt | sparkz-util/src/main/scala/sparkz/util/ByteArrayBuilder.java:103-107 | appends the four big-endian bytes, or nothing |
| ByteArrayBuilder.Builder.AppendLong | sparkz-util/src/main/scala/sparkz/util/ByteArrayBuilder.java:109-113 | appends the eight big-endian bytes, or nothing |
| ByteArrayBuilder.Builder.ToBytes | sparkz-util/src/main/scala/sparkz/util/ByteArrayBuilder.java:63-68 | a new array with exactly the contents |
| ByteArrayBuilder.Builder.Trim | sparkz-util/src/main/scala/sparkz/util/ByteArrayBuilder.java:54-61 | returns the contents, and which position remains: the builder keeps its contents if and only if it was empty or its array full |
| ByteArrayBuilder.TrimForgets | sparkz-util/src/main/scala/sparkz/util/ByteArrayBuilder.java:54-61 | a builder that held one byte in a longer array holds nothing after a trim |
| ByteArrayBuilder.Builder.SetLength | sparkz-util/src/main/scala/sparkz/util/ByteArrayBuilder.java:32-34 | moves the position within the capacity, and refuses any other |

## Left out

- The in-place mode of the persistent map (owner ids, `withMutations`): every update copies here, also where the code fills a new trie under one owner.
- The persistent List below the ordered map: it is a sequence here. Seq, Record, Range and the string hash caches are not modelled.
- Key identity of the persistent map is plain equality (in the code: `is`, with NaN and value objects), and hash values are taken to be 32-bit.
- LinkedMap.Collection: the hidden key under which an object is indexed is left out; that objects frozen before their first use have none is kept as the predicate `frozen`, which is fixed: an object that is frozen between two calls, before it was first stored, is not modelled. What the loose comparison converts is left to the relation `loose`. `forEach`, which takes the same walk as the iterator, and weak collections are left out.
- StringDecoder: the decoder's UTF-16 and base64 modes are left out.
- Utf8.DecodeSlice: turning code units into a string 4096 at a time is left out; the string is the sequence of units.
- The queue's hit counter is unbounded here; in the code it is a floating-point number, exact up to 2 to the 53.
- PackedKeys.UnsafeBinarySearch: keys of fewer than seven bytes are excluded, as the code's own note says that small keys do not work; a table of 2 to the 31 bytes or more is excluded, since the product of index and key size would wrap.
- YamlBinaryReader.Construct: characters outside the alphabet are excluded, as the type's `resolve` refuses them first; `resolve` itself is left out.
- ByteArrayBuilder.AppendAll: nothing is promised about copying once doubling overflows above 2 to the 30 bytes. Running out of memory is left out.
- `crop` of the builder, which moves bytes but not the position; `array`, `byteAt`, `length` and `capacity`, which only read a field.
- File access, checksums by the external hash library, listing of files, reflection for `Unsafe`.
- The authenticated structures of `scrypto` (`scrypto/src/main/scala/sparkz/crypto/authds`: the batched AVL+ trees with their prover, verifier and proofs, the Merkle and sparse Merkle trees, the treaps): they rest on invariants at least as hard as those here and on properties of hash functions; they are not part of this model.
- The page's components, reducers and requests, and the peer-management design, whose code is not part of this model.
