# xmlParsiewer in Dafny

This project models the algorithmic core of xmlParsiewer, a desktop editor for
XML files, and proves properties of the model. It has six parts.

- **The byte-pair-encoding codec of `BPE.py`.** The text's bytes are
  compressed by repeatedly replacing the most frequent adjacent pair with an
  unused byte value. The result is a self-describing container
  `[N] ++ payload ++ N x (code, first, second)`. Decompression rebuilds the
  code table from the trailer and expands every payload byte recursively.
  - The substitution loop is specified by a function over the loop's own
    variables (`Bpe.Run`).
  - The stateful `BPE` object is a class (`Bpe.Codec`) whose `Compress`
    method is proved to end in the state `Run` describes.
  - The round trip is proved for every non-empty input
    (`Bpe.FreshRoundTrip`); the empty input overflows the one-byte header
    (`Bpe.EmptyInputOverflows`).
  - `customedDS/BPE.py` is a second compressor with a different tie-break
    (the last maximal pair in map order wins) and no iteration limit. It is
    modelled in `BpeBinary`, with its own round trip.
- **The hash tables of `customedDS/`.** `CustomDict` (100 buckets),
  `CustomSet` (4999 buckets) and the `Dictionary` of `newCustom.py` (a length
  counter, deletion and `KeyError`) are classes over an `array` of bucket
  lists. Each keeps the map or set it represents as a ghost field, and every
  operation is proved against that field.
- **The LZW codec of `compression.py`**, with its fixed-width decimal code
  format. Decoding the encoding gives the text back for every non-empty text
  whose characters are all below 256 (`Lzw.RoundTrip`). Loading the saved
  format gives the codes back for every non-empty list of non-negative codes
  (`Lzw.SaveLoad`).
- **The markup passes, over token lists given as input:**
  - the tag-stack error detector of `xml_error_detector.py`;
  - the repair pass of `correct_xml.py`;
  - the indentation loop of `prettify` in `formatting.py`;
  - the tree builder of `xml_document.py`;
  - the JSON writer of `xml2json.py`.
- **The social network of `customedDS/SocialGraph.py`**, with its users
  (`customedDS/User.py`) and graph (`add_node`/`add_edge` of
  `customedDS/CustomDiGraph.py`).
- **Shared helpers** in `Common`: Python slicing, `str(int)`, `int(str)` and
  ASCII lower case.

Files: `common.dfy`, `buckets.dfy`, `bpe_core.dfy`, `bpe.dfy`,
`bpe_binary.dfy`, `custom_dict.dfy`, `custom_set.dfy`, `new_custom.dfy`,
`lzw.dfy`, `error_detector.dfy`, `correct_xml.dfy`, `formatting.dfy`,
`xml_document.dfy`, `xml2json.dfy`, `user.dfy`, `digraph.dfy`,
`social_graph.dfy`. There is one module per file, and all files are
verified together.

## Behaviour of `BPE.py` worth knowing

As written, the first substitution round already raises `TypeError` at
BPE.py:121: `CustomDict.set` hashes the `bytes` key with `key % 100`
(customedDS/CustomDict.py:41). The facts below describe `compress` with the
lookup table taken as an abstract map from code to pair, as "## Left out"
records.

- **The round whose best pair count is 1 still substitutes.** It takes a
  code, records the pair and replaces it; the loop test at BPE.py:93 only
  stops the round after it (BPE.py:115-124). For `"aaa"` the container is
  `[2, 1, 0, 0x61, 0x61, 1, 0, 0x61]`.
- **Inputs shorter than 2 bytes.** No pair is ever counted, so the best
  count stays 0 and the pair chosen at BPE.py:117-119 is `(0x00, 0x00)`.
  Every remaining code is recorded with that pair (`Bpe.ShortInputPairs`).
- **The empty input.** It records 256 entries, and `to_bytes(length = 1)` at
  BPE.py:130 raises `OverflowError` for 256. The model reports this as
  `Err(HeaderOverflow)` (`Bpe.EmptyInputOverflows`).
- **Codes that run out.** A code is taken before the best pair is looked
  for (BPE.py:103-107). Running out of codes therefore ends the loop before
  the count of that round matters.
- **The lookup table is an instance field that is never cleared**
  (BPE.py:39). A second `compress` on the same object starts from the old
  table, and `Codec.Compress` is specified from `old(lookupTable)`.

## Model

| member | source | states |
|---|---|---|
| BpeCore.PairAt | BPE.py:117-119 | slot `k < 65536` is read back as the pair `(k // 256, k % 256)`, whose slot is `k` again |
| BpeCore.WindowIndex | BPE.py:96-99 | the slot of the window at `i, i+1` is `first * 256 + second` of that window and lies below 65536 |
| BpeCore.PairCount | BPE.py:95-100 | a buffer shorter than 2 bytes counts nothing; no pair is counted more than `len - 1` times |
| BpeCore.CountPositive | BPE.py:95-100 | a pair's count is positive exactly when the pair occurs as an adjacent window |
| BpeCore.WindowBytes | BPE.py:95-100 | both bytes of a counted pair occur in the buffer |
| BpeCore.OccursIffCounted | BPE.py:95-124 | the pair the replacement looks for occurs exactly when its count is positive |
| BpeCore.BestIndexIsBest | BPE.py:109-115 | the chosen slot has the largest count, and every lower slot has a strictly smaller one (the strict `>` scan keeps the first maximum) |
| BpeCore.BestUnique | BPE.py:109-115 | at most one slot is the best in that sense, so the choice is deterministic |
| BpeCore.BestIsBest | BPE.py:109-115 | a counted slot that no window beats is the best slot |
| BpeCore.BestFromDominates | BPE.py:109-115 | the scan over the windows ends on a counted slot that no window beats |
| BpeCore.BestCountPositive | BPE.py:109-115 | on a buffer of at least 2 bytes the best count is at least 1 |
| BpeCore.BestIndex | BPE.py:109-115 | on a buffer shorter than 2 bytes the chosen slot is 0, i.e. the pair `(0x00, 0x00)` |
| BpeCore.Replace | BPE.py:124 | non-overlapping left-to-right replacement never lengthens the buffer, at most halves it, and leaves buffers shorter than 2 bytes alone |
| BpeCore.ReplaceShrinks | BPE.py:124-125 | the buffer gets shorter exactly when the pair occurs in it |
| BpeCore.ReplaceBytes | BPE.py:124 | every byte after replacement is the code or a byte of the buffer before |
| BpeCore.ReplaceKeepsTwo | BPE.py:124 | a pair counted at least twice leaves at least 2 bytes behind |
| BpeCore.Expand | BPE.py:55-62 | a byte that is not a table key expands to itself |
| BpeCore.ExpandAllSplit | BPE.py:154-158 | expanding a concatenation gives the concatenation of the expansions, and fails if either part fails |
| BpeCore.ExpandAll | BPE.py:154-158 | expanding a payload, when it succeeds, gives at least one byte per payload byte |
| BpeCore.ExpandAllSingle | BPE.py:154-155 | the expansion of one payload byte is that byte's recursive expansion |
| BpeCore.ExpandAllPlain | BPE.py:62 | a payload with no table key expands to itself |
| BpeCore.ExpandGrounded | BPE.py:55-62 | on a table whose pairs use only original bytes and smaller codes, recursion terminates and gives the original bytes |
| BpeCore.ExpandAllGrounded | BPE.py:154-158 | on such a table the whole payload expands to its original bytes |
| BpeCore.OriginalExtend | BPE.py:121 | adding a fresh code leaves the expansion of every already-known byte unchanged |
| BpeCore.OriginalAllExtend | BPE.py:121 | adding a fresh code leaves the expansion of a buffer of known bytes unchanged |
| BpeCore.OriginalAllReplace | BPE.py:124 | replacing a recorded pair by its code does not change what the buffer expands to |
| BpeCore.SubstitutionPreserves | BPE.py:121-124 | one round (a fresh code larger than all keys, recorded and substituted) keeps the table acyclic and the buffer's expansion unchanged |
| BpeCore.Select | BPE.py:79 | the selected byte values are in ascending order and are exactly those from `from` on that pass the membership test |
| BpeCore.Absent | BPE.py:79 | the pool lists, in ascending order, exactly the byte values absent from the input |
| BpeCore.AbsentShorter | BPE.py:79 | a non-empty input leaves at most 255 codes |
| BpeCore.SelectShorter | BPE.py:79 | a rejected value shortens the selection |
| BpeCore.SelectAll | BPE.py:79 | on the empty input all 256 values are codes |
| BpeCore.AscendingDistinct | BPE.py:52 | codes popped from an ascending pool are never handed out twice |
| BpeCore.TakenStep | BPE.py:46-53 | the next code popped is not yet a key and is larger than every key, and recording it keeps the keys equal to the codes taken so far |
| BpeCore.ExpandsStep | BPE.py:121-124 | a round keeps "the buffer expands to the input" |
| BpeCore.KeysAscending | BPE.py:138 | the trailer lists every key once, in ascending order |
| BpeCore.KeysCount | BPE.py:130-138 | the trailer lists as many keys as the header counts |
| BpeCore.Trailer | BPE.py:138-139 | the trailer is 3 bytes per entry |
| BpeCore.TrailerAt | BPE.py:138-139 | entry `j` occupies bytes `3j .. 3j+2` as code, first, second |
| BpeCore.WriteContainer | BPE.py:130-139 | a table of more than 255 entries overflows the header; otherwise the container is `1 + len(payload) + 3N` bytes, byte 0 is `N` and bytes `1 .. len(payload)` are the payload |
| BpeCore.ReadTable | BPE.py:71-72 | reading `g` groups yields at most `g` entries |
| BpeCore.RestrictedEntries | BPE.py:71-72 | the rebuilt table holds exactly the keys read, each with its stored pair |
| BpeCore.TrailerGroups | BPE.py:71-72 | reading the first `j` groups of a written trailer rebuilds the first `j` entries |
| BpeCore.TrailerRead | BPE.py:71-72 | reading one more group of a written trailer adds the next key with its entry |
| BpeCore.RestrictedLast | BPE.py:71-72 | the entries of one more key are the earlier ones with that key set |
| BpeCore.ReadTrailer | BPE.py:64-73 | reading a written trailer rebuilds the entries written |
| BpeCore.TrailerReadsBack | BPE.py:64-73 | the trailer written for a table reads back as that table |
| BpeCore.TrailerSlice | BPE.py:68 | `data[-3N:]` is the last `3N` bytes, and the whole container when `N = 0` or `3N` exceeds the length |
| BpeCore.Decompress | BPE.py:141-158 | an empty container fails on `data[0]`; a header promising more trailer than there is fails |
| BpeCore.ContainerRoundTrip | BPE.py:130-158 | a container written from a table of at most 255 entries decompresses to the payload's expansion |
| BpeCore.ReconstructTable | BPE.py:64-73 | the rebuilding loop yields the table read from the last `3N` bytes, or the two errors above |
| BpeCore.DecompressData | BPE.py:141-158 | the decompression loop over bytes `1 .. len - 3N - 1` computes `Decompress` |
| BpeCore.Unpack | BPE.py:151-158 | the loop over bytes `1 .. len - 3 * len(table) - 1` computes `Unpacked` for the table read |
| BpeCore.Unpacked | BPE.py:151-158 | the payload part fails only by an unending expansion; a success gives at least one byte per payload byte, and with an empty table it is the data after the count byte |
| BpeCore.ExpandBytes | BPE.py:154-155 | the expansion loop computes the expansion of the whole payload |
| BpeCore.ExpandPrefixStep | BPE.py:154-155 | each loop turn appends the expansion of the next byte |
| BpeCore.ExpandPrefixFails | BPE.py:154-155 | once a prefix fails to expand, the whole payload fails |
| Bpe.UniqueBytes | BPE.py:78 | the distinct bytes of the input, each once, and no others |
| Bpe.UniqueInOrder | BPE.py:78 | the `reduce` loop computes those distinct bytes in order of first appearance |
| Bpe.Pool | BPE.py:79 | the available codes are, in ascending order, exactly the byte values absent from the input |
| Bpe.Run | BPE.py:93-128 | the loop always ends, in a state where the best count was 1, `iterate` is false, or no code is left |
| Bpe.Round | BPE.py:95-128 | one pass takes the first available code, never lengthens the buffer, records a positive count exactly when the buffer has 2 bytes or more, and leaves `iterate` alone without a round limit and sets it to `_iter < iterations` with one |
| Bpe.RunStep | BPE.py:93 | while the loop test holds, the loop runs one more round |
| Bpe.RunDone | BPE.py:93-107 | once the test fails or codes have run out, the state is final |
| Bpe.Codec.GetReplacement | BPE.py:46-53 | pops and returns the lowest remaining code, or reports exhaustion and changes nothing |
| Bpe.Codec.Compress | BPE.py:75-139 | stores the input and its distinct bytes; the table and the code pool end as the loop run from the table left by earlier calls; the result is the container of that run |
| Bpe.Codec.Substitutions | BPE.py:82-128 | the `while` loop ends in the state `Run` gives |
| Bpe.Codec.Substitute | BPE.py:95-128 | one loop turn: without codes it stops and changes nothing, otherwise it performs one round |
| Bpe.CountPairs | BPE.py:95-100 | the frequency array holds every pair's count |
| Bpe.PickBest | BPE.py:109-115 | the scan over the frequency array picks the best slot, and its count |
| Bpe.ScanMax | BPE.py:109-114 | returns a maximal value and the first position holding it |
| Bpe.TakenPrefix | BPE.py:46-53 | the codes a run hands out are a prefix of the pool, in order, and the rest of the pool is what remains |
| Bpe.RunKeys | BPE.py:121 | after a run the table's keys are the keys it had plus the codes handed out |
| Bpe.RunKeeps | BPE.py:121 | entries of an earlier table whose code is not handed out again survive a run unchanged |
| Bpe.ShortInputTakesAll | BPE.py:93-107 | without a limit, an input shorter than 2 bytes never reaches count 1: every code is handed out and the buffer is unchanged |
| Bpe.ShortRound | BPE.py:95-124 | a round on a buffer shorter than 2 bytes records `(0x00, 0x00)` and leaves the best count at 0 |
| Bpe.ShortInputPairs | BPE.py:93-124 | on such an input every code handed out is recorded as `(0x00, 0x00)` |
| Bpe.RoundsBound | BPE.py:86-93 | with `iterations = k` at most `max(k, 1)` rounds take a code |
| Bpe.UnlimitedStops | BPE.py:87-93 | without a limit the loop ends only after a count-1 round or on exhaustion |
| Bpe.RoundTracks | BPE.py:93-128 | a round keeps the invariant: the table is acyclic, the buffer expands to the input, and the keys are the codes taken from the pool |
| Bpe.RunTracks | BPE.py:93-128 | the whole loop keeps that invariant |
| Bpe.RunKeepsShort | BPE.py:93-124 | a buffer shorter than 2 bytes is never changed by the loop |
| Bpe.PoolSize | BPE.py:79 | a non-empty input leaves at most 255 codes; the empty input leaves 256 |
| Bpe.FreshTableSize | BPE.py:121-130 | on a fresh instance the header counts exactly the rounds that took a code |
| Bpe.FreshExpandsLong | BPE.py:75-128 | on a fresh instance and an input of at least 2 bytes, the final buffer expands to the input |
| Bpe.FreshExpandsShort | BPE.py:75-128 | the same holds for inputs shorter than 2 bytes, whose `(0x00, 0x00)` codes never occur in the buffer |
| Bpe.FreshRoundTrip | BPE.py:75-158 | on a fresh instance every non-empty input yields a container, and every container it yields decompresses to exactly the input |
| Bpe.EmptyInputOverflows | BPE.py:93-130 | the empty input records 256 entries and overflows the one-byte header |
| Bpe.FreshRoundsBound | BPE.py:86-93 | with `iterations = k` a fresh table ends with at most `max(k, 1)` entries |
| BpeBinary.Bump | customedDS/BPE.py:69-74 | a pair map after one update is never empty |
| BpeBinary.BumpCounts | customedDS/BPE.py:69-74 | one update raises the pair's count by 1 and no other, keeps the pairs distinct and the counts positive, and adds no pair except this one |
| BpeBinary.CountOfAt | customedDS/BPE.py:69-74 | the count the map stores for an entry is the pair's count |
| BpeBinary.TallyCounts | customedDS/BPE.py:63-74 | the pair map holds each adjacent pair once with its number of occurrences, and is empty exactly when the buffer is shorter than 2 bytes |
| BpeBinary.Tally | customedDS/BPE.py:63-74 | the pair map holds each pair once, every count is at least 1, and it is empty exactly when the buffer is shorter than 2 bytes |
| BpeBinary.TallyPairs | customedDS/BPE.py:63-74 | the counting loop builds that pair map |
| BpeBinary.LastMaxIndex | customedDS/BPE.py:30-36 | the chosen entry has the largest count and every later entry a strictly smaller one (the `>=` scan keeps the last maximum) |
| BpeBinary.MaxPair | customedDS/BPE.py:30-36 | on an empty map nothing is chosen (`max_pair` is never assigned); otherwise the last maximal entry |
| BpeBinary.BinRun | customedDS/BPE.py:61-89 | the loop always ends, after a count-1 round, on exhaustion, or on the empty pair map |
| BpeBinary.BinRound | customedDS/BPE.py:63-89 | one pass takes the first available code; it raises (the unbound `max_pair` of `__max_pair`) exactly when the buffer is shorter than 2 bytes, leaving table and buffer alone; otherwise the count is at least 1, the code becomes a key and the buffer does not grow |
| BpeBinary.BinRunStep | customedDS/BPE.py:61 | while the loop test holds, the loop runs one more round |
| BpeBinary.BinRunDone | customedDS/BPE.py:61-82 | a final state stays as it is |
| BpeBinary.Members | customedDS/BPE.py:52-54 | the reserved bytes are listed in ascending order (the bucket order of small integers), exactly the set's elements |
| BpeBinary.BinaryCodec.GetReplacement | customedDS/BPE.py:12-19 | pops and returns the lowest remaining code, or reports exhaustion and changes nothing |
| BpeBinary.BinaryCodec.CompressBinary | customedDS/BPE.py:49-100 | adds the input's bytes to the unique set and the reserved list, runs the loop from the existing table, and returns the container or the failure |
| BpeBinary.BinaryCodec.BinarySubstitutions | customedDS/BPE.py:61-89 | the `while` loop ends in the state `BinRun` gives |
| BpeBinary.BinaryCodec.BinarySubstitute | customedDS/BPE.py:62-89 | one loop turn: without codes it stops, otherwise one round, failing on an empty pair map |
| BpeBinary.FreshCodes | customedDS/BPE.py:51-55 | on a fresh instance the available codes are exactly the byte values absent from the input |
| BpeBinary.ShortBufferRaises | customedDS/BPE.py:65-82 | a round on a buffer shorter than 2 bytes takes a code and then fails |
| BpeBinary.BinRoundTracks | customedDS/BPE.py:82-89 | a round keeps the table acyclic and the buffer expanding to the input |
| BpeBinary.BinRunTracks | customedDS/BPE.py:61-89 | the whole loop keeps that invariant |
| BpeBinary.BinaryRoundTrip | customedDS/BPE.py:49-119 | an input of at least 2 bytes compresses and decompresses to itself; a shorter one makes compression fail |
| BpeBinary.LongRoundTrip | customedDS/BPE.py:49-119 | an input of at least 2 bytes compresses without failing and decompresses to itself |
| BpeBinary.ShortRaises | customedDS/BPE.py:30-36 | an input shorter than 2 bytes has no pair, so `__max_pair` raises |
| Buckets.PolyHash | customedDS/CustomDict.py:34-38 | the base-31 polynomial hash reduced at each step lies in `[0, m)` |
| Buckets.PolyHashLoop | customedDS/CustomDict.py:36-38 | the hashing loop computes that polynomial |
| Buckets.Position | customedDS/CustomDict.py:56-60 | the scan stops at the first entry with the key, or runs off the bucket when none has it |
| Buckets.Scan | customedDS/CustomDict.py:56-60 | the bucket loop finds that position |
| Buckets.LookupPosition | customedDS/CustomDict.py:79-83 | lookup returns the value at the first matching entry, and finds an entry exactly when the key is in the bucket |
| Buckets.LookupDistinct | customedDS/CustomDict.py:79-83 | in a bucket of distinct keys, lookup returns the value of the one matching entry, or nothing |
| Buckets.LookupUpdate | customedDS/CustomDict.py:56-60 | overwriting an entry in place changes that key's value only |
| Buckets.LookupAppend | customedDS/CustomDict.py:63 | appending a new key adds that key and changes no other |
| Buckets.LookupRemove | customedDS/newCustom.py:45-47 | removing an entry removes that key only |
| Buckets.RemoveAt | customedDS/CustomSet.py:90-91 | removing one element of a duplicate-free bucket removes exactly it |
| Buckets.FlattenSize | customedDS/CustomDict.py:140-147 | the number of entries listed is the sum of the bucket lengths |
| Buckets.TableDistinct | customedDS/CustomSet.py:108-115 | when every element sits in its own hash bucket once, the bucket-by-bucket listing has no duplicates and lists every element |
| Buckets.FlattenKeys | customedDS/CustomDict.py:92-110 | the key listing is the listing of the entries' keys |
| Buckets.RepresentsFind | customedDS/CustomDict.py:76-83 | in a table that represents a map, the key's bucket holds the key exactly when the map does, with the map's value |
| Buckets.RepresentsStore | customedDS/CustomDict.py:53-63 | rewriting the key's bucket as an upsert makes the table represent the map updated at the key |
| Buckets.RepresentsDrop | customedDS/newCustom.py:44-49 | rewriting the key's bucket without the key makes the table represent the map without it |
| Buckets.TableAgree | customedDS/CustomDict.py:85-110 | the listing of a represented map names each key once, exactly the map's keys, with the map's values, and its length is the map's size |
| CustomDicts.DictHash | customedDS/CustomDict.py:24-43 | the bucket of a str or int key lies in `[0, 100)` |
| CustomDicts.CustomDict.constructor | customedDS/CustomDict.py:10-22 | a new dictionary is empty |
| CustomDicts.CustomDict.HashFunction | customedDS/CustomDict.py:24-43 | the hashing method computes that bucket |
| CustomDicts.CustomDict.Set | customedDS/CustomDict.py:45-63 | upsert: the key maps to the value and every other key keeps its value; only the key's bucket changes; `len` grows by 1 exactly for a new key |
| CustomDicts.CustomDict.Put | customedDS/CustomDict.py:56-63 | replaces in place at the found position or appends, with the same effect |
| CustomDicts.CustomDict.Get | customedDS/CustomDict.py:65-83 | returns the stored value, or the caller's default when the key is absent |
| CustomDicts.CustomDict.Contains | customedDS/CustomDict.py:112-129 | true exactly when the key has been set |
| CustomDicts.CustomDict.ItemsAgree | customedDS/CustomDict.py:85-110 | `Keys`, `Values` and `items` list the same entries in bucket order, each key once, with the stored values, and as many as `len` counts |
| CustomSets.SetHash | customedDS/CustomSet.py:28-54 | the bucket of a str, bytes or int element lies in `[0, 4999)` |
| CustomSets.HoldsStore | customedDS/CustomSet.py:64-91 | rewriting one element's bucket keeps the buckets representing the updated set |
| CustomSets.CustomSet.constructor | customedDS/CustomSet.py:10-26 | construction from a list holds exactly the list's elements |
| CustomSets.CustomSet.HashFunction | customedDS/CustomSet.py:28-54 | the hashing method computes that bucket |
| CustomSets.CustomSet.Add | customedDS/CustomSet.py:57-68 | adds the element; an element already present is not appended again, and `len` grows by 1 exactly for a new element |
| CustomSets.CustomSet.Update | customedDS/CustomSet.py:70-78 | adds every element of the list |
| CustomSets.CustomSet.Remove | customedDS/CustomSet.py:80-91 | removes a present element from its bucket and is a silent no-op otherwise; `len` drops by 1 exactly when it was present |
| CustomSets.CustomSet.Store | customedDS/CustomSet.py:64-91 | writes one bucket back and adjusts the represented set |
| CustomSets.CustomSet.Contains | customedDS/CustomSet.py:93-106 | true exactly when the element was added and not removed since |
| CustomSets.CustomSet.MembersAgree | customedDS/CustomSet.py:108-124 | iteration lists each element once, exactly the set's elements, as many as `len` counts |
| CustomSets.CustomSet.Intersection | customedDS/CustomSet.py:126-142 | a new set holding exactly the elements in both sets |
| CustomSets.CustomSet.Difference | customedDS/CustomSet.py:144-160 | a new set holding exactly the elements of this set not in the other |
| NewCustom.Quoted | customedDS/newCustom.py:132-139 | str keys and values are wrapped in single quotes; integers are written plain |
| NewCustom.EntryTexts | customedDS/newCustom.py:129-141 | one `key: value` text per entry, in order |
| NewCustom.JoinEmpty | customedDS/newCustom.py:142 | the joined text is empty only for no parts or one empty part |
| NewCustom.RenderShape | customedDS/newCustom.py:124-143 | the rendering is braced, and it is `{}` exactly for a dictionary without entries |
| NewCustom.EntryTextsAppend | customedDS/newCustom.py:129-141 | rendering bucket by bucket concatenates the buckets' texts |
| NewCustom.Dictionary.Slot | customedDS/newCustom.py:16 | `hash(key) % size` lies in `[0, size)` |
| NewCustom.Dictionary.constructor | customedDS/newCustom.py:3-10 | a new dictionary is empty with `length` 0 |
| NewCustom.Dictionary.SetItem | customedDS/newCustom.py:12-23 | overwrites an existing key and keeps `length`, or appends a new key and increments `length`; other keys are unchanged |
| NewCustom.Dictionary.Put | customedDS/newCustom.py:17-23 | the in-place overwrite or the append, at the position found |
| NewCustom.StoreStep | customedDS/newCustom.py:16-23 | the scan finds the key exactly when it is stored; the overwrite or append keeps the buckets representing the updated mapping, and the count grows only for a new key |
| NewCustom.Upserted | customedDS/newCustom.py:17-22 | in one bucket, the overwrite or append keeps the keys distinct and homed, and changes the lookup of that key only |
| NewCustom.StoreCount | customedDS/newCustom.py:21-23 | setting a key adds one entry exactly when it was absent |
| NewCustom.Dictionary.GetItem | customedDS/newCustom.py:25-36 | returns the stored value, or the `KeyError` "Key … dont exist" |
| NewCustom.Dictionary.DelItem | customedDS/newCustom.py:38-51 | removes only that key (the buckets become `Dropped`) and decrements `length`, or raises `KeyError` and changes nothing |
| NewCustom.Dictionary.Unlink | customedDS/newCustom.py:45-49 | removes exactly the found entry from its bucket, leaves every other bucket alone, drops the key from the mapping and decrements `length` |
| NewCustom.Dictionary.Locate | customedDS/newCustom.py:44-46 | the slot is `hash(key) % size` and the scan stops at the key, found exactly when it is stored |
| NewCustom.Dropped | customedDS/newCustom.py:44-49 | removing a key touches its own bucket only |
| NewCustom.DropStep | customedDS/newCustom.py:44-49 | removing a found key leaves buckets that represent the mapping without it |
| NewCustom.Unlinked | customedDS/newCustom.py:45-47 | in one bucket, removing the found entry keeps the keys distinct and homed and makes only that key absent |
| NewCustom.RemoveCount | customedDS/newCustom.py:48 | removing a present key takes one entry off the count |
| NewCustom.Dictionary.Contains | customedDS/newCustom.py:53-63 | true exactly when the key is stored |
| NewCustom.Dictionary.Get | customedDS/newCustom.py:113-122 | the stored value, or `None` instead of the `KeyError` |
| NewCustom.Dictionary.ItemsAgree | customedDS/newCustom.py:65-111 | keys, values and items list the same entries in bucket order, each key once, and `length` equals their number |
| NewCustom.Dictionary.ToString | customedDS/newCustom.py:124-143 | the rendering loop produces `{k: v, ...}` over the entries in bucket order |
| NewCustom.AppendTexts | customedDS/newCustom.py:130-141 | the inner loop appends one text per entry of the bucket |
| Lzw.EncodeSeedFacts | compression.py:10-12 | the encoder starts with the 256 one-character strings, each mapped to its code point |
| Lzw.DecodeSeedFacts | compression.py:47-49 | the decoder starts with codes 0 to 255, each mapped to its character |
| Lzw.CodedAdd | compression.py:22 | a new string gets the code equal to the dictionary's current size: 256, 257, … in order |
| Lzw.SeedCoded | compression.py:10-12 | the seeded dictionary satisfies the coding invariant |
| Lzw.EncodedFirst | compression.py:16-23 | after the first character nothing is emitted and the pending string is that character |
| Lzw.EncodeStep | compression.py:16-23 | one character keeps every dictionary entry, appends at most one code to the output and leaves a non-empty current string |
| Lzw.Encoding | compression.py:9-25 | `encode` returns no codes exactly for the empty text |
| Lzw.EncodedStep | compression.py:16-23 | each loop turn keeps the invariant tying the emitted codes, the phrases and the dictionary to the text read |
| Lzw.ScanLast | compression.py:16-23 | reading one more character is one more loop turn: the phrases and the added entries grow only when `w + c` is new |
| Lzw.EncodedExtend | compression.py:18-19 | when `w + c` is known, extending the pending string keeps the invariant |
| Lzw.EncodedEmit | compression.py:20-23 | when `w + c` is new, emitting the code of `w`, adding `w + c` under the next code and restarting from `c` keeps the invariant |
| Lzw.EncodedAll | compression.py:14-23 | the whole loop keeps that invariant |
| Lzw.EncodedParse | compression.py:24-25 | after the final flush every emitted code names a dictionary entry, and the phrases spell the text |
| Lzw.EncodingParses | compression.py:9-25 | for text whose characters are below 256, every emitted code is defined and the codes spell the text |
| Lzw.Unwrap | compression.py:21 | the codes without the `None` wrapper, one for one |
| Lzw.DecodedFirst | compression.py:51-52 | the decoder starts with the first code's character |
| Lzw.DecodeStep | compression.py:53-62 | a code is accepted exactly when it is a key or the next free code, and is otherwise the `Bad compressed k` error; an accepted code appends its entry to the result, the stored string for a key |
| Lzw.DecodeScan | compression.py:51-62 | a first code that is not a character fails; a success yields one string per code |
| Lzw.Decoding | compression.py:46-63 | no codes is the error of `codes[0]`; a first code that is not a character is the error of `chr`; success implies the first code is a character |
| Lzw.DecodeStepKeeps | compression.py:53-62 | a turn of the decoding loop keeps the invariant and adds the next phrase |
| Lzw.DecodedStep | compression.py:53-62 | the same, stated over prefixes of the code list |
| Lzw.ScanNext | compression.py:53-62 | decoding one more code is one more loop turn from the state before it |
| Lzw.DecodedAll | compression.py:53-62 | the whole decoding loop keeps the invariant |
| Lzw.DecodingParse | compression.py:46-63 | codes that spell a list of phrases decode to their concatenation |
| Lzw.RoundTrip | compression.py:9-63 | `decode(encode(t)) == t` for every non-empty `t` whose characters are below 256 |
| Lzw.EmptyText | compression.py:14-51 | `encode("")` is `[]`, and `decode([])` fails on `codes[0]` |
| Lzw.DecodingRejects | compression.py:54-59 | after a valid first code, a second code that is negative or above the next free code 256 raises `ValueError("Bad compressed k: …")` |
| Lzw.DecodeScanNext | compression.py:53-62 | the decoding loop over one more code is one more step |
| Lzw.DecodeScanFails | compression.py:53-62 | once decoding has failed, later codes do not matter |
| Lzw.EncodeDictionary | compression.py:10-12 | the seeding loop fills a `CustomDict` with the 256 one-character strings |
| Lzw.Encode | compression.py:9-44 | the encoding loop over a `CustomDict` computes `Encoding` |
| Lzw.DecodeDictionary | compression.py:47-49 | the seeding loop fills a `CustomDict` with codes 0 to 255 |
| Lzw.Decode | compression.py:46-63 | the decoding loop over a `CustomDict` computes `Decoding`, errors included |
| Lzw.DecodeTurn | compression.py:54-62 | one decoding turn: a known code, the code equal to the size (`w + w[0]`), or the `ValueError` |
| Lzw.Width | compression.py:85-88 | the width is at least every code's decimal length, and at least 1 for a non-empty list |
| Lzw.Lengths | compression.py:86-87 | one decimal length per code, in order |
| Lzw.Longest | compression.py:85-88 | the running maximum is at least every length |
| Lzw.LongestAttained | compression.py:85-88 | for a non-empty list the maximum is one of the lengths |
| Lzw.MaxLength | compression.py:85-88 | the `max_len` loop computes the width |
| Lzw.WidthAttained | compression.py:85-88 | some code has exactly that width |
| Lzw.Pad | compression.py:89 | a code padded with zeros has at least the given width |
| Lzw.Padded | compression.py:89 | every code is zero-padded to the width, in order |
| Lzw.SaveCodes | compression.py:84-92 | the saving loop writes the width, a comma and the padded codes |
| Lzw.Saved | compression.py:84-92 | for non-negative codes the file splits at its comma into the decimal width and a payload of digits |
| Lzw.SavedFields | compression.py:92-98 | a width, a comma and a digit payload split back into the two fields |
| Lzw.SplitComma | compression.py:97-98 | splitting always yields at least one field |
| Lzw.SplitCommaJoin | compression.py:97-98 | splitting at commas and joining with commas gives back the text |
| Lzw.SplitCommaFields | compression.py:97-98 | no field of the split holds a comma |
| Lzw.SplitCommaPair | compression.py:97-98 | `a,b` without other commas splits into `a` and `b` |
| Lzw.SplitCommaNone | compression.py:97-98 | a text without commas is one field |
| Lzw.Chunks | compression.py:99 | the fixed-width slices put together give back the text |
| Lzw.ChunksFlatten | compression.py:99 | pieces of equal width are cut back into exactly those pieces |
| Lzw.ParseAll | compression.py:99 | parsing gives one code per slice |
| Lzw.Loaded | compression.py:94-100 | text without a comma fails (`split(",")[1]` is out of range); every code loaded is non-negative |
| Lzw.ParsePadded | compression.py:89-99 | zero-padded non-negative codes parse back to themselves |
| Lzw.PadParses | compression.py:89-99 | one zero-padded code parses back to itself, whatever the width |
| Lzw.DigitsFlatten | compression.py:89 | the padded codes are all digits |
| Lzw.SaveLoad | compression.py:84-100 | a saved non-empty list of non-negative codes loads back exactly |
| Lzw.SaveLoadEmpty | compression.py:84-100 | the empty list is saved as `0,` and loading it fails on a slice step of 0 |
| ErrorDetector.TagEnd | xml_error_detector.py:33-47 | the inner scan stops at the first `>`, or finds none |
| ErrorDetector.LexFrom | xml_error_detector.py:21-50 | the scan yields at most one event per remaining character |
| ErrorDetector.LexPlain | xml_error_detector.py:21-28 | text without `<` scans to newline events only |
| ErrorDetector.ContinuePrepend | xml_error_detector.py:21-96 | one event read is one step of the stack logic |
| ErrorDetector.ScanTag | xml_error_detector.py:31-35 | the inner scanning loop collects the text up to the first `>`, or runs off the end |
| ErrorDetector.Occurs | xml_error_detector.py:59-64 | the `for … else` scan is true exactly when the name is in the open stack |
| ErrorDetector.Flush | xml_error_detector.py:72-73 | popping the errors stack writes one "Missing closed tag" line per name, outermost first |
| ErrorDetector.PoppedReversed | xml_error_detector.py:68-73 | popping a stack that holds the collected names in reverse writes their "Missing closed tag" lines in collection order |
| ErrorDetector.ReversedPush | xml_error_detector.py:68 | pushing the next popped name keeps the errors stack the reverse of the popped names |
| ErrorDetector.SearchLoop | xml_error_detector.py:58-80 | the search loop computes `Search` |
| ErrorDetector.Search | xml_error_detector.py:58-87 | the open stack only loses its top part, and loses something exactly when the last closed name is open somewhere; the last closed name is always consumed (the report is covered by `SearchReport`) |
| ErrorDetector.Settle | xml_error_detector.py:53-94 | handling a closing tag with open tags computes `Resolve` |
| ErrorDetector.Resolve | xml_error_detector.py:53-94 | the `closing` flag survives only with no open tags; stacks never grow; the line stays (the report is covered by `ResolveReport`) |
| ErrorDetector.Step | xml_error_detector.py:21-96 | the line advances exactly on a newline; `closing` survives only with no open tags (the report is covered by `StepReport`) |
| ErrorDetector.NewlinesOnly | xml_error_detector.py:21-25 | newlines leave empty stacks and an empty report as they are |
| ErrorDetector.Finish | xml_error_detector.py:99-108 | the final loops produce the verdict |
| ErrorDetector.ReportOpen | xml_error_detector.py:99-100 | the first final loop appends one "tag is not closed" line per name left open, innermost first |
| ErrorDetector.ReportClosed | xml_error_detector.py:102-103 | the second final loop appends one "tag is not opened" line per closing name left over, last first |
| ErrorDetector.Visit | xml_error_detector.py:21-96 | one turn of the outer loop moves past at least one character and is one step of `Continue` over the events read, or reports the index error of reading past the end |
| ErrorDetector.ReadTag | xml_error_detector.py:28-50 | a `<` starts an opening or a closing tag whose name is read up to `>`, or the scan reads past the end |
| ErrorDetector.Detect | xml_error_detector.py:1-108 | the whole detector computes `Detection`: reading errors included |
| ErrorDetector.Detection | xml_error_detector.py:1-108 | text without any `<` is reported as `correct XML file ` |
| ErrorDetector.ResolveQuiet | xml_error_detector.py:53-94 | after handling, the closing flag is down |
| ErrorDetector.TopMatch | xml_error_detector.py:89-93 | a closing tag equal to the top opening name pops both stacks and reports nothing |
| ErrorDetector.Unopened | xml_error_detector.py:76-87 | a closing name absent from the open stack reports "Unmatched tag … or missing an opening tag", is discarded, and leaves the open stack unchanged |
| ErrorDetector.DeepMatch | xml_error_detector.py:66-74 | a closing name found deeper reports each opening above it as missing its closing tag, outermost first, and pops them and the match |
| ErrorDetector.LinesJoin | xml_error_detector.py:73-103 | two error texts made of whole lines join into whole lines |
| ErrorDetector.MissingAllLines | xml_error_detector.py:73 | the "Missing closed tag" text is made of whole lines |
| ErrorDetector.NotClosedAllLines | xml_error_detector.py:99-100 | the unclosed-tag report is whole lines, empty exactly when nothing is left open |
| ErrorDetector.NotOpenedAllLines | xml_error_detector.py:102-103 | the unopened-tag report is whole lines, empty exactly when no closing is left |
| ErrorDetector.SearchReport | xml_error_detector.py:58-87 | a search always adds at least one line to the error text and keeps what was there |
| ErrorDetector.ResolveReport | xml_error_detector.py:53-94 | handling a tag only appends to the error text |
| ErrorDetector.StepReport | xml_error_detector.py:21-96 | every step only appends whole lines and leaves the closing flag down |
| ErrorDetector.LeftoversEmpty | xml_error_detector.py:99-104 | the final text is empty exactly when nothing was reported and both stacks are empty |
| ErrorDetector.VerdictCorrect | xml_error_detector.py:105-108 | the result is exactly `"correct XML file "` when no error text was accumulated, and the error text otherwise |
| ErrorDetector.StepClosed | xml_error_detector.py:52-94 | a step that reports nothing never shrinks the closing stack |
| ErrorDetector.StaysWrong | xml_error_detector.py:21-104 | once something is reported or a closing is pending, the verdict is an error |
| ErrorDetector.NestedRun | xml_error_detector.py:21-104 | from a clean state, the run ends clean exactly when the tags are properly nested |
| ErrorDetector.CloseWrong | xml_error_detector.py:52-87 | a closing tag that does not match the top opening one makes the verdict an error |
| ErrorDetector.RunLines | xml_error_detector.py:21-96 | the error text is always whole lines |
| ErrorDetector.CorrectIffNested | xml_error_detector.py:1-108 | the result is `"correct XML file "` exactly when the bare-name tags are properly nested |
| ErrorDetector.LineCount | xml_error_detector.py:23-25 | the line counter grows only by the newlines the outer loop meets, not those inside tags |
| CorrectXml.ReadBack | correct_xml.py:19-38 | a synthesized closing tag is read back as a closing of its name, and a synthesized opening tag as an opening |
| CorrectXml.ClosingsOrder | correct_xml.py:44-46 | closing a stack emits one closing tag per entry, innermost first |
| CorrectXml.CloseAbove | correct_xml.py:24-31 | the inner `while` closes the tags above the name, or the whole stack plus `<name>` and the token when the name is not on it |
| CorrectXml.AboveStep | correct_xml.py:25-31 | one turn of the inner `while` closes the top name, adds `<name>` and the token when it empties the stack, and keeps the loop invariant |
| CorrectXml.AboveDone | correct_xml.py:25-31 | when the inner `while` stops, the stack is cut just above the name's last occurrence, or emptied when the name is absent |
| CorrectXml.ClosingsBottom | correct_xml.py:25-31 | closing one more name below a stretch of the stack emits its closing tag last |
| CorrectXml.CloseOff | correct_xml.py:23-39 | a closing token: close above and pop the match, or synthesize the opening tag |
| CorrectXml.Feed | correct_xml.py:19-42 | one token of the loop: copy, push, close, or fail on an unreadable token |
| CorrectXml.Emit | correct_xml.py:19-42 | every token emits something; an opening tag pushes its name; any other token leaves a prefix of the stack |
| CorrectXml.RepairStep | correct_xml.py:19-42 | a token is handled exactly when it can be read (otherwise its indexing fails), and its output strictly extends what was there |
| CorrectXml.Correct | correct_xml.py:4-51 | the whole pass computes `Corrected` |
| CorrectXml.Repaired | correct_xml.py:13-49 | no tokens is the error of `tokens[0]`; the repaired list starts with the first token and, when the root is matched, ends with its closing tag |
| CorrectXml.Corrected | correct_xml.py:13-51 | no tokens is an error; the joined text starts with the first token |
| CorrectXml.BalanceConcat | correct_xml.py:18-49 | nesting of a concatenation is nesting of the first part, then the second |
| CorrectXml.ClosingsBalance | correct_xml.py:44-46 | the closing tags emitted for the top of a stack close exactly those entries |
| CorrectXml.ShutFound | correct_xml.py:25-35 | closing a name found deeper closes the tags above it and the match |
| CorrectXml.ShutMissing | correct_xml.py:25-39 | a name not on the stack closes everything, and its synthesized pair nests |
| CorrectXml.EmitBalanced | correct_xml.py:19-42 | every token's output nests with respect to the stack it leaves |
| CorrectXml.StepBalanced | correct_xml.py:19-42 | one token keeps the output from the start of the loop well nested, leaving open exactly the new stack |
| CorrectXml.RunBalanced | correct_xml.py:18-42 | the loop's output always nests to the repair stack |
| CorrectXml.BodyNested | correct_xml.py:16-46 | after the final closings, the output after `tokens[0]` is properly nested |
| CorrectXml.RepairNested | correct_xml.py:11-49 | the output starts with `tokens[0]`, its body is properly nested and the stack ends empty; with a matched opening root the whole output nests |
| CorrectXml.RootNested | correct_xml.py:16-49 | wrapping a nested body in the root's opening and closing tags nests |
| CorrectXml.BalanceShift | correct_xml.py:18-42 | nesting does not depend on what lies deeper in the stack |
| CorrectXml.RunKeeps | correct_xml.py:18-42 | the loop only appends to the output |
| CorrectXml.NestedRun | correct_xml.py:18-42 | properly nested tokens pass through the loop unchanged |
| CorrectXml.TidyStep | correct_xml.py:19-42 | a well-formed token that nests is copied through as it is |
| CorrectXml.NestedUnchanged | correct_xml.py:4-51 | a well-nested bare-name token list comes out unchanged, and its join equals the concatenated input |
| CorrectXml.NestedBody | correct_xml.py:11-46 | for such a list only the inner tokens are processed and they leave the stack empty |
| CorrectXml.RootBody | correct_xml.py:13-18 | when the root's name matches the last closing, exactly `tokens[1:-1]` are processed |
| Formatting.ReadableIff | formatting.py:73-78 | a token can be read exactly when it is neither empty nor a lone `<` |
| Formatting.Prettify | formatting.py:69-87 | the token loop computes `Prettified` |
| Formatting.Prettified | formatting.py:69-87 | no tokens prettify to the empty text; success means every token could be read |
| Formatting.ContinueStep | formatting.py:72-84 | each token is printed on a new line after the indentation its shape gives |
| Formatting.Margin | formatting.py:76-79 | `d` levels of indentation are `d * tab_length` spaces |
| Formatting.Indent | formatting.py:73-80 | opening, self-closing and text tokens print at the current indent; an opening tag adds `tab_length` spaces; a closing tag cuts the indent to a prefix and prints at it |
| Formatting.IndentLevels | formatting.py:73-83 | an opening tag is printed at the current level and raises it, a self-closing tag or text leaves it, a closing tag lowers it first and is printed there |
| Formatting.LinesLevels | formatting.py:72-84 | every token appears exactly once, in order, on its own line, indented by the level of the tokens before it |
| Formatting.LinesFrom | formatting.py:72-84 | success yields one line per token, and only when every token can be read |
| Formatting.LinesError | formatting.py:73-78 | the loop fails exactly when some token cannot be read |
| Formatting.PrettyError | formatting.py:69-87 | `prettify` fails exactly on an empty token or a lone `<` |
| Formatting.PrettyStart | formatting.py:85-87 | the output has no leading newline, and an empty token list yields `""` |
| Formatting.FirstLine | formatting.py:72-74 | the first token gets a line of its own with no indentation |
| Formatting.NestedShift | formatting.py:73-80 | nesting and levels shift with the starting level |
| Formatting.WrappedLevel | formatting.py:73-80 | an opening tag raises the level by one, and its closing tag after a balanced segment lowers it back |
| Formatting.LevelAppend | formatting.py:73-80 | one more token changes the level by its shape |
| Formatting.AlignedClose | formatting.py:73-80 | in well-nested input, a closing tag lines up with its opening tag |
| XmlDocument.FirstIndex | xml_document.py:102-106 | the first space, or the end of the text |
| XmlDocument.Partition | xml_document.py:116 | `partition('=')` splits at the first `=` and puts the three parts back together |
| XmlDocument.ToAttributes | xml_document.py:115-117 | one attribute per piece, in order |
| XmlDocument.ReadAttributes | xml_document.py:94-118 | the scanning loop computes the tag name and the attributes |
| XmlDocument.GetAttr | xml_document.py:94-118 | the name is the tag text up to its first space and holds no space; the attributes are read from the rest |
| XmlDocument.TagName | xml_document.py:94-109 | the tag name is the text after `<` up to the first space, with `>` or `/>` removed |
| XmlDocument.AttributePiece | xml_document.py:115-117 | `key="value"` splits at the first `=` and has its quotes stripped |
| XmlDocument.GroupIndex | xml_document.py:133-137 | the first child group whose name is the element's name, or past the end |
| XmlDocument.Adopted | xml_document.py:60-63 | a new element whose parent is the stack top is added, and only the parent's children change |
| XmlDocument.Rewritten | xml_document.py:70-76 | rewriting the top element's content keeps the tree well-formed |
| XmlDocument.Opened | xml_document.py:60-67 | adding an element keeps the tree well-formed |
| XmlDocument.LinkedGrow | xml_document.py:120-140 | child groups stay valid when more elements are added |
| XmlDocument.GroupedLinked | xml_document.py:120-140 | filing an element keeps the groups valid |
| XmlDocument.Grouped | xml_document.py:131-140 | a new group `[child]` is added at the end exactly when no group has the child's name; otherwise the number of groups stays |
| XmlDocument.GroupedJoinsFirst | xml_document.py:133-137 | the child joins the first group of its name, and every other group is unchanged |
| XmlDocument.OpenedFormed | xml_document.py:60-67 | the stack stays within the elements after an opening |
| XmlDocument.OpenedChain | xml_document.py:60-67 | after an opening, each stack entry is the parent of the entry above it |
| XmlDocument.Step | xml_document.py:58-76 | a step that succeeds keeps the document well-formed |
| XmlDocument.KindOf | xml_document.py:60-76 | a token is text exactly when it does not start with `<`, self-closing exactly when `token[-2]` is `/`, closing exactly when it starts with `</` and is not self-closing |
| XmlDocument.ParseFrom | xml_document.py:58-76 | a parse that succeeds keeps the document well-formed |
| XmlDocument.Parsed | xml_document.py:57-76 | no tokens leaves the document with only the root pushed; a successful parse keeps the tree well formed |
| XmlDocument.GroupingAgree | xml_document.py:120-140 | grouping only depends on names and parents |
| XmlDocument.GroupedGrouping | xml_document.py:120-140 | child groups stay name-homogeneous with distinct names: a new element joins its name's group or opens a new one at the end |
| XmlDocument.RewrittenValid | xml_document.py:70-76 | closing and text steps keep the tree invariant |
| XmlDocument.OpenedValid | xml_document.py:60-67 | opening steps keep the tree invariant |
| XmlDocument.OpenedGroups | xml_document.py:120-140 | adding an element keeps every element's child groups name-homogeneous |
| XmlDocument.StepValid | xml_document.py:58-76 | every step keeps the tree invariant: the root named `"root"` is its own parent, each parent precedes its children |
| XmlDocument.ParseValid | xml_document.py:51-76 | parsing keeps that invariant |
| XmlDocument.OpenedElement | xml_document.py:60-67 | an opening token creates an element whose parent is the stack top, files it under its name, and pushes it only if not self-closing |
| XmlDocument.OpenedJoins | xml_document.py:61-67 | the element an opening tag builds is the new last element, a child of the top in the group of its name, pushed exactly when asked |
| XmlDocument.CloseIgnoresName | xml_document.py:70-72 | a closing token pops the top element without checking its name |
| XmlDocument.StepHeight | xml_document.py:58-76 | a step fails exactly on an unreadable token or an empty stack, and otherwise moves the stack by the token's kind |
| XmlDocument.ParseHeight | xml_document.py:51-76 | parsing succeeds exactly when the stack never empties, and ends at the height the tokens give |
| XmlDocument.NestedFits | xml_document.py:57-76 | nested tokens never empty a non-empty stack |
| XmlDocument.WellNestedRoot | xml_document.py:45-72 | after a well-nested token list the stack is exactly `[root]` |
| XmlDocument.RStrip | xml_document.py:71 | `rstrip` removes exactly the trailing white space, the characters `str.isspace` accepts |
| XmlDocument.RStripWideSpace | xml_document.py:71 | `"a\u3000".rstrip()` is `"a"`: white space beyond ASCII is stripped |
| XmlDocument.Document.constructor | xml_document.py:45-48 | the root is named `"root"`, is its own parent, and the stack is empty |
| XmlDocument.Document.Parse | xml_document.py:51-76 | pushes the root and parses every token in place, as `Parsed` describes |
| XmlDocument.Document.Advance | xml_document.py:58-76 | one token updates the document in place exactly as `Step` says, and leaves it unchanged when `Step` fails |
| XmlDocument.Document.OpenElement | xml_document.py:60-67 | an opening token in place is one step |
| XmlDocument.Document.AddChild | xml_document.py:120-140 | the element joins its name's group among the top element's children, or opens a new group at the end |
| XmlDocument.Document.CloseElement | xml_document.py:70-72 | right-strips the top element's content and pops it |
| XmlDocument.Document.AddText | xml_document.py:75-76 | appends the text and one space to the top element's content |
| Xml2Json.ValidOrdered | xml2json.py:47-96 | the tree the parser builds can always be walked to the end |
| Xml2Json.AttrLines | xml2json.py:76-78 | one `"#key": "value",` line per attribute, in order |
| Xml2Json.SpaceEnd | xml2json.py:45 | the first position after the white space |
| Xml2Json.DropOnlyCommas | xml2json.py:45 | the comma pass deletes commas and nothing else: with commas taken out the text is as before |
| Xml2Json.DropCommas | xml2json.py:45 | the substitution removes only commas, and changes nothing when no comma is trailing |
| Xml2Json.DropStep | xml2json.py:45 | dropping commas works character by character |
| Xml2Json.DropCount | xml2json.py:45 | the pass deletes exactly as many characters as there are commas followed by white space and `}`, `]` or the end |
| Xml2Json.DropNone | xml2json.py:45 | a text without such commas is unchanged |
| Xml2Json.WideSpaceComma | xml2json.py:45 | a comma followed by an ideographic space and `}` is deleted, as `\s` matches that space |
| Xml2Json.CountFlatten | xml2json.py:43 | counting over the pieces is counting over their join |
| Xml2Json.JsonEven | xml2json.py:47-96 | when no name, text or attribute holds a brace or bracket, each node writes as many closing braces and brackets as opening ones |
| Xml2Json.Json | xml2json.py:65-96 | the output of a node is never empty and starts with its indent when it has siblings |
| Xml2Json.Object | xml2json.py:72-96 | an object opens with the two characters `{` and newline (the `+=` of a string extends the list by characters) and closes with the indent and `},` |
| Xml2Json.ObjectEven | xml2json.py:72-96 | a braced object is balanced |
| Xml2Json.GroupsEven | xml2json.py:80-94 | the child groups are balanced |
| Xml2Json.GroupEven | xml2json.py:82-94 | a single child or an array is balanced |
| Xml2Json.MembersEven | xml2json.py:90-93 | the members of an array are balanced |
| Xml2Json.WithoutCount | xml2json.py:45 | deleting commas keeps the braces and brackets |
| Xml2Json.ConvertedEven | xml2json.py:27-96 | when no name, text or attribute holds a brace or bracket, the JSON text has as many closing braces and brackets as opening ones |
| Xml2Json.Converter.constructor | xml2json.py:27-45 | walks from the root, joins the pieces and removes the trailing commas |
| Xml2Json.Converter.AddJsonChildren | xml2json.py:47-70 | appends the pieces of one node: the indentation when it is not single, then `"content",\n` for a node without attributes and children, or its object |
| Xml2Json.Converter.AddObject | xml2json.py:72-96 | appends `{`, the `_text` line, the attributes, the groups and `tabs + "},\n"` |
| Xml2Json.Converter.AddAttributes | xml2json.py:76-78 | appends one line per attribute |
| Xml2Json.Converter.AddGroups | xml2json.py:80-94 | appends every child group in order |
| Xml2Json.GroupsFrom | xml2json.py:80-94 | the groups from one on are that group, then the ones after it |
| Xml2Json.Converter.AddGroup | xml2json.py:82-94 | a group of one or an array, by size |
| Xml2Json.Converter.AddSingle | xml2json.py:83-87 | appends `"name": ` and the child's value one level deeper |
| Xml2Json.Converter.AddArray | xml2json.py:88-94 | appends `"name": [`, the members two levels deeper, and `],` |
| Xml2Json.Converter.AddMembers | xml2json.py:90-93 | appends each member as not single |
| Users.User.constructor | customedDS/User.py:26-29 | a new user has the given id and name, no followers and no posts |
| Users.User.AddFollower | customedDS/User.py:31-38 | a set insert: adding a follower twice is adding it once; posts are unchanged |
| Users.User.AddPost | customedDS/User.py:40-47 | appends at the end, keeping earlier posts and duplicates; followers are unchanged |
| Digraphs.Linked | customedDS/CustomDiGraph.py:45-49 | `add_edge` appends the target to the end of the source's list and leaves every other source's list unchanged |
| Digraphs.LinkedTwice | customedDS/CustomDiGraph.py:45-49 | repeated edges are listed twice |
| Digraphs.Included | customedDS/CustomDiGraph.py:39-43 | an absent endpoint is added with empty data; a present one is not re-initialised |
| Digraphs.IncludedCommute | customedDS/CustomDiGraph.py:39-43 | including endpoints is order-independent and idempotent |
| Digraphs.LinkedJoined | customedDS/CustomDiGraph.py:39-49 | after `add_edge` both endpoints are nodes and every listed target is a node |
| Digraphs.CustomDiGraph.constructor | customedDS/CustomDiGraph.py:15-20 | a new graph has no nodes and no edges |
| Digraphs.CustomDiGraph.AddNode | customedDS/CustomDiGraph.py:22-29 | maps the node to a fresh empty dictionary, replacing any existing data |
| Digraphs.CustomDiGraph.AddEdge | customedDS/CustomDiGraph.py:31-49 | includes both endpoints and appends the target to the source's list |
| SocialGraphs.Slot | customedDS/CustomDict.py:63-92 | the position after every listed user in the same or a lower bucket |
| SocialGraphs.EnlistedListing | customedDS/CustomDict.py:63-92 | a new user enters the users dictionary's listing after its bucket's users, keeping the listing duplicate-free and bucket-ordered |
| SocialGraphs.EnlistedAt | customedDS/CustomDict.py:63 | the new user sits at that position and the others keep their order |
| SocialGraphs.EnlistedSorted | customedDS/CustomDict.py:92 | the listing stays in bucket order |
| SocialGraphs.EnlistedDistinct | customedDS/CustomDict.py:92 | the listing stays duplicate-free |
| SocialGraphs.EnlistedElements | customedDS/CustomDict.py:92 | the listing holds exactly the users |
| SocialGraphs.Best | customedDS/SocialGraph.py:81-89 | `max` picks the first position with the largest score |
| SocialGraphs.Maximum | customedDS/SocialGraph.py:81-89 | the `max` loop computes that position |
| SocialGraphs.Counts | customedDS/SocialGraph.py:81 | each listed user's follower count |
| SocialGraphs.InfluentialMost | customedDS/SocialGraph.py:79-81 | `most_influential_user` is none exactly without users; otherwise no user has more followers, and every user listed before it has fewer |
| SocialGraphs.Influential | customedDS/SocialGraph.py:79-81 | none exactly without users listed; the user chosen has at least as many followers as every listed user |
| SocialGraphs.SpreadRemove | customedDS/SocialGraph.py:87 | the sum over the followers does not depend on their order |
| SocialGraphs.Activities | customedDS/SocialGraph.py:86-87 | each listed user's activity score |
| SocialGraphs.ActiveIs | customedDS/SocialGraph.py:89 | the chosen user is the one at the best score's position |
| SocialGraphs.ActiveMost | customedDS/SocialGraph.py:83-89 | `most_active_user` is none exactly without users; otherwise it maximises own follower count plus the followers' follower counts |
| SocialGraphs.Active | customedDS/SocialGraph.py:83-89 | none exactly without users listed; the user chosen scores at least as high as every listed user |
| SocialGraphs.ActivityAlone | customedDS/SocialGraph.py:87 | a user without followers scores 0 |
| SocialGraphs.MutualFollowsBoth | customedDS/SocialGraph.py:91-95 | `mutual_followers` is exactly the users following both, empty if either is unknown, and symmetric |
| SocialGraphs.Mutual | customedDS/SocialGraph.py:91-95 | nobody when either user is unknown; otherwise only followers of both |
| SocialGraphs.SuggestedMeaning | customedDS/SocialGraph.py:97-105 | a suggestion follows one of the user's followers, does not follow the user and is not the user; nothing for an unknown user; every suggestion is a user |
| SocialGraphs.Suggested | customedDS/SocialGraph.py:97-105 | never the user, nobody for an unknown user, and nobody who already follows the user |
| SocialGraphs.ReachGrow | customedDS/SocialGraph.py:102-103 | each turn of the loop adds one follower's followers |
| SocialGraphs.Matching | customedDS/SocialGraph.py:111-114 | at most one body per post |
| SocialGraphs.MatchingMeaning | customedDS/SocialGraph.py:111-114 | a body is found exactly when some post carrying it lists the topic, compared in lower case |
| SocialGraphs.FoundAppend | customedDS/SocialGraph.py:110-114 | results come user by user, in listing order |
| SocialGraphs.Found | customedDS/SocialGraph.py:107-115 | nothing without users; every body found is the body of a tagged post of a listed user |
| SocialGraphs.SocialGraph.Snapshot | customedDS/SocialGraph.py:29 | the network read from the user objects has exactly the users' ids, names, followers and posts |
| SocialGraphs.SocialGraph.Listed | customedDS/SocialGraph.py:29 | the users are listed in bucket order, and every follower is a user |
| SocialGraphs.SocialGraph.constructor | customedDS/SocialGraph.py:27-30 | a new network has no users and an empty graph |
| SocialGraphs.SocialGraph.AddUser | customedDS/SocialGraph.py:40-50 | an existing id changes nothing (the name is not overwritten); a new id becomes a user without followers or posts and a graph node |
| SocialGraphs.SocialGraph.Insert | customedDS/SocialGraph.py:49 | a new user, without followers or posts, enters the dictionary under its id and at the end of its listing; the other users are unchanged |
| SocialGraphs.SocialGraph.Place | customedDS/SocialGraph.py:50 | adds a node without edges for the new id and leaves the users as they were |
| SocialGraphs.SocialGraph.AddFollower | customedDS/SocialGraph.py:52-64 | when both ids are users, adds the follower to the user's set and the edge follower→user to the graph; otherwise changes nothing |
| SocialGraphs.SocialGraph.Connect | customedDS/SocialGraph.py:64 | adds the edge follower→user, adding missing nodes, and leaves the users as they were |
| SocialGraphs.SocialGraph.Follow | customedDS/SocialGraph.py:61-63 | the follower joins that user's set and nothing else changes |
| SocialGraphs.SocialGraph.AddPost | customedDS/SocialGraph.py:66-77 | appends the post for an existing user and changes nothing otherwise |
| SocialGraphs.SocialGraph.Rewritten | customedDS/SocialGraph.py:63-77 | writing one user back changes only that user's entry of the network |
| SocialGraphs.SocialGraph.MostInfluential | customedDS/SocialGraph.py:79-81 | returns the user `Influential` chooses, or none without users |
| SocialGraphs.SocialGraph.FollowerCounts | customedDS/SocialGraph.py:81 | the follower counts of the users in listing order |
| SocialGraphs.SocialGraph.FollowerSum | customedDS/SocialGraph.py:87 | the sum of the follower counts of the user's followers |
| SocialGraphs.SocialGraph.MostActive | customedDS/SocialGraph.py:83-89 | returns the id `Active` chooses, or none without users |
| SocialGraphs.SocialGraph.ActiveScores | customedDS/SocialGraph.py:85-87 | the activity score of each user in listing order |
| SocialGraphs.SocialGraph.MutualFollowers | customedDS/SocialGraph.py:91-95 | computes `Mutual` |
| SocialGraphs.SocialGraph.SuggestedFollows | customedDS/SocialGraph.py:97-105 | the gathering loop and the two differences compute `Suggested` |
| SocialGraphs.SocialGraph.SearchPostsByTopic | customedDS/SocialGraph.py:107-115 | the nested loop computes `Found` over the users in listing order |
| SocialGraphs.PostsOf | customedDS/SocialGraph.py:111-114 | the inner loop collects the bodies of one user's matching posts |
| SocialGraphs.LowerAll | customedDS/SocialGraph.py:113 | every topic in lower case, one for one |
| Common.Slice | BPE.py:68 | Python slicing: within bounds it is the plain subsequence |
| Common.SliceBound | BPE.py:68 | Python's clamping of a slice bound, negative bounds counting from the end |
| Common.NatToStringValue | compression.py:87-89 | the decimal text of a number reads back as that number |
| Common.ZerosValue | compression.py:89 | leading zeros do not change a decimal's value |
| Common.ParseNat | compression.py:97 | the model's `int()` on a slice, restricted to digit strings: it succeeds exactly on a non-empty run of ASCII digits |
| Common.IntToString | compression.py:87 | `str(c)`: digits, with a minus sign for negatives |
| Common.Lower | customedDS/SocialGraph.py:113 | the model's ASCII-only `.lower()`: it keeps the length and maps each character, `A`-`Z` to `a`-`z` and every other character to itself |

## Left out

- File I/O, `print` and the module-level demo code are left out. The codecs
  work on byte sequences, the LZW format on a string, and the markup passes
  on token lists given as input.
- UTF-8 encoding and decoding around the byte-pair codec are left out; the
  codec is modelled on bytes. Decompression does not check that the bytes
  are valid UTF-8.
- The regular expressions are not modelled. This covers `minify`, the
  `re.findall` tokenisers, and the attribute pattern of `xml_document.py`,
  which is a parameter (`Matcher`). Of the `xml2json.py` pass, only the
  comma deletion is modelled, written out.
- `xml_checker.py`, `gui.py` and `build_graph_network_from_xml.py` are not
  part of this model. Nor are `visualize`, `well_separated_layout`,
  `visualize_graph` and `print_network_analysis`: they are plotting, random
  layout and printing.
- `BpeCore.Expand`: the recursive expansion carries fuel 256. A table with
  pairs in ascending code order never needs more. A cyclic table, which only
  a crafted container can hold, yields `None`, where Python would recurse
  until it raises `RecursionError`.
- `BPE.py` calls `Keys_iter` and `items_iter`, which `CustomDict` does not
  define. `CustomDict` also hashes `bytes` keys with `key % 100`, which
  raises `TypeError`. The lookup table is therefore an abstract
  `map<byte, Pair>`, and the trailer is written in ascending code order.
  Decompression does not depend on that order.
- `BpeBinary.Tally`: the pair map of customedDS/BPE.py:63-74 is modelled
  as a list of entries in order of first occurrence, and the lookup table of
  customedDS/BPE.py:85 as an abstract map. Both are `CustomDict`s with
  `bytes` keys, which cannot hold them: `key % 100`
  (customedDS/CustomDict.py:41) raises `TypeError`. The order chosen is the
  one of the built-in `dict` in the commented-out lines 62, 70 and 73.
  Which of several equally frequent pairs `__max_pair` picks depends on that
  order, since its `>=` keeps the last maximum (customedDS/BPE.py:33).
- `Bpe.Limit`: `iterations` is taken as already parsed. A string that
  `int()` rejects is not modelled.
- `Bpe.Codec`: the 65536-entry frequency array is a local array of each
  round, not an instance field, because no other member reads it.
- `CustomDicts.DictKey` excludes byte strings, since `key % 100` raises on
  them. The value stored for a key is any Dafny value.
- `NewCustom.Dictionary`: Python's built-in `hash()` is the constructor
  parameter `hasher`. The size must be positive; with size 0 every operation
  raises. Keys and values are strings or integers (`Scalar`), the types
  `__str__` distinguishes.
- `CustomSets.CustomSet.Intersection` and
  `CustomSets.CustomSet.Difference`: the source builds a built-in `set()`
  first. Its iteration order is not modelled: the elements are added in the
  order of the scanned set, and only the contents are specified.
- `Lzw.Decoding`: `chr(first)` is modelled as rejecting the surrogate range
  (`IsCodePoint`), which Python accepts.
- `Lzw.Loaded`: `int()` on a slice accepts only plain digit strings. Signs,
  surrounding white space and underscores are not modelled.
- `Common.ParseNat` accepts only non-empty runs of ASCII digits. The signs,
  surrounding white space, underscores and non-ASCII digits that Python's
  `int()` also accepts are not modelled.
- `Common.Lower` lower-cases `A`-`Z` only and keeps every other character.
  Python's `str.lower` also maps non-ASCII letters and can change the
  length (`'İ'.lower()` has two characters); that is not modelled.
- `ErrorDetector.Search`: the loop that pushes `errors` back onto the open
  stack (xml_error_detector.py:82-83) never finds anything to push. The
  stack is always emptied before it, or was never filled, so it is not
  modelled separately.
- `CorrectXml.Repaired` stops at the `''.join`. The `prettify` call that
  follows is `Formatting.Prettify`, over the token list rather than
  re-tokenised text.
- `XmlDocument.Document`: elements are kept in one list, and an element's
  parent and children are written as positions in it. The aliasing of Python
  object references is not modelled beyond that.
- `Xml2Json.Converter` takes the element list of a parsed document. Building
  the document from text is the tokeniser left out above.
- `Users.User`: the follower `CustomSet` is modelled by the set it
  represents. A post dictionary is a `Post` with its `body` and `topics`.
- `SocialGraphs`: `.lower()` is ASCII-only (`Common.Lower`). The `max(…,
  key=…)` of `most_influential_user` and `most_active_user` runs over the
  users in `CustomDict` bucket order; ties go to the first.
- `SocialGraphs.SocialGraph.MutualFollowers` and
  `SocialGraphs.SocialGraph.SuggestedFollows` return the set a `CustomSet`
  represents, not a new `CustomSet` object.
- `Digraphs.CustomDiGraph`: a node's data dictionary is a value
  (`NodeData`), not a separate `CustomDict` object.
