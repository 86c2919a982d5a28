# duc directory records (`lib/dir.c`) in Dafny

duc indexes disk usage into a key/value database. `lib/dir.c` is the layer
that works with one stored directory, the `duc_dir`. Its jobs:

- **Load a record.** `duc_db_read_dir` reads a directory record, keyed by
  the hexadecimal text `"<dev>/<ino>"`, into a growable entry list, then
  sorts that list by size.
- **Store a record.** `duc_db_write_dir` serialises the header and every
  entry back.
- **Walk the entries.** `duc_dir_read` returns them one at a time and
  `duc_dir_rewind` restarts the walk. `duc_dir_find_child` finds an entry
  by name. `duc_dir_limit` folds the small entries into one aggregate
  entry.
- **Open by path.** `duc_dir_open` finds the longest indexed prefix of a
  canonical path and then follows the remaining components from record to
  record. `duc_dir_openent` and `duc_dir_openat` open one child or the
  parent.

The model is split into modules:

- **`Numerals`**: the `%jx` and `%ld` printing of numbers, with its
  inverse.
- **`Keys`**: `mkkey`, the record key and the 32-byte buffer it is printed
  into.
- **`Entries`**: `struct duc_dirent`, the `fn_comp_ent` order with an
  in-place sort on an array, first-match lookup and the aggregation of
  `duc_dir_limit`.
- **`Codec`**: the record layout as a stream of tokens, with encoder,
  decoder and round trip.
- **`Lookup`**: canonical paths, glibc `dirname`, `strtok` splitting, the
  top-prefix search and the meaning of "a path leads to a directory".
- **`Dir`**: the `Duc` handle and the `DucDir` class. The entry list is an
  `array` sized from `ent_pool`, and the methods update it in place.

The database is two maps on the `Duc` object:

- `records` maps a key text to the token stream of a directory record.
- `index` maps a top path to its report value.

`DucDir.Loaded()` is the invariant of a directory read from the database:

- its header is the stored header;
- its entries are a permutation of the stored children that have a name;
- the entries are sorted by decreasing size.

`Duc.DirOpen` is proved sound and complete:

- a directory it returns is the one the path leads to;
- when names are unique within each record, every path that leads to a
  directory opens it.

## Model

| member | source | states |
|---|---|---|
| Numerals.Digits | lib/dir.c:68 | the numeral printed for any number is non-empty and made only of digits of the base |
| Numerals.ParseDigitsOfDigits | lib/dir.c:68 | reading a printed numeral back gives the number: `%jx` and `%ld` lose nothing |
| Numerals.HexWidth | lib/dir.c:68 | a number below 16^k prints in at most k hexadecimal digits |
| Keys.SlashIndex | lib/dir.c:68 | finds the first '/' of a text, or its length when there is none |
| Keys.HexHasNoSlash | lib/dir.c:68 | a hexadecimal numeral contains no '/', so the separator in a key is unambiguous |
| Keys.Key | lib/dir.c:68 | the key text is the device numeral, a '/', then the inode numeral; both numerals are non-empty and that '/' is the only one in the text |
| Keys.KeyRoundTrip | lib/dir.c:66-69 | the key text "dev/ino" parses back to (dev, ino) |
| Keys.KeyInjective | lib/dir.c:66-69 | different (dev, ino) pairs get different keys, so records never collide |
| Keys.Snprintf | lib/dir.c:68 | snprintf stores at most size - 1 characters, always a prefix of the full text, the whole text when it fits, and returns the full length |
| Keys.MkKey | lib/dir.c:66-69 | mkkey returns the length of the whole key, and the buffer holds a prefix of the key of at most 31 characters |
| Keys.MkKeyExactIff | lib/dir.c:111-112 | the printed key is exact, and its returned length equals what was stored, if and only if the key is shorter than the 32-byte buffer |
| Keys.MkKeyTruncates | lib/dir.c:111-113 | for dev = ino = 2^64 - 1 the key needs 33 characters; the buffer keeps 31 and 33 is passed on as the key length |
| Keys.TopHex | lib/dir.c:68 | 16^k - 1 prints as k letters 'f' |
| Keys.KeyFitsWideBuffer | lib/dir.c:111-112 | every key of two 64-bit ids has at most 33 characters, so a 34-byte buffer always holds it exactly |
| Entries.CompEnt | lib/dir.c:58-63 | the comparator answers 1 exactly when a is smaller than b and 0 otherwise; it never answers a negative value |
| Entries.AdjacentOrderIsSorted | lib/dir.c:58-63 | fn_comp_ent reports no adjacent pair out of order exactly when the list is in non-increasing size order |
| Entries.Swap | lib/dir.c:176 | exchanging two slots keeps every other slot and the multiset of entries |
| Entries.InsertAt | lib/dir.c:176 | one insertion step leaves the prefix up to i in size order and is a permutation that leaves the slots after i alone |
| Entries.SortBySize | lib/dir.c:176 | the qsort of duc_db_read_dir leaves the first n slots in non-increasing size order, as a permutation of what was there, and touches no later slot |
| Entries.FirstIndexOf | lib/dir.c:212-217 | the result is the first index whose entry has the name, or none when no entry has it |
| Entries.FirstIndexOfReordered | lib/dir.c:253-267 | when names are unique, the lookup finds a name in a reordered list exactly when the original list has it, and finds the same entry |
| Entries.SumSizesAppend | lib/dir.c:233-236 | the total size of two joined lists is the sum of their totals |
| Entries.RestLabel | lib/dir.c:243 | the aggregate label is a decimal numeral between "(" and " files)" |
| Entries.RestLabelCarriesNumber | lib/dir.c:243 | the label "(<n> files)" reads back as n |
| Entries.RestEntry | lib/dir.c:243-247 | the aggregate entry has mode DUC_MODE_REST, the given size, device and inode 0, and the label of the given count |
| Entries.Limited | lib/dir.c:226-247 | the limited list has count entries: the first count - 1 entries as they were, then an entry of mode DUC_MODE_REST whose size is the total of the entries from position count - 1 on |
| Entries.LimitedKeepsTotal | lib/dir.c:224-250 | the limited list has exactly count entries, keeps the first count - 1, keeps the total size, and its label number is one less than the number of entries folded |
| Codec.EncodeHeader | lib/dir.c:92-96 | the header is written as five varints |
| Codec.EncodeEntry | lib/dir.c:103-107 | an entry is written as one child group: a present name, then the size, mode, device and inode, in the token kinds the reader takes |
| Codec.EncodeChildren | lib/dir.c:102-109 | every entry takes five tokens |
| Codec.Encode | lib/dir.c:92-109 | a record of n entries has 5 + 5n tokens, and its header reads back as the header written |
| Codec.DecodeHeader | lib/dir.c:148-152 | when the first five tokens are varints, writing the header read from them gives back exactly those five tokens |
| Codec.DecodeEntry | lib/dir.c:162-171 | a child group yields an entry exactly when its name is present, and writing that entry gives back the group |
| Codec.DecodeChildren | lib/dir.c:154-172 | every entry read consumes a whole group of five tokens |
| Codec.Children | lib/dir.c:148-172 | the children of a record follow the five header tokens, five tokens each; a record shorter than a header has none |
| Codec.DecodeChildrenSnoc | lib/dir.c:154-172 | decoding one more group appends its entry when the name is present and nothing otherwise |
| Codec.DecodeNextGroup | lib/dir.c:154-166 | at every group boundary of a well-formed record, the next five tokens form a group, and decoding up to its end extends the decoded prefix by that group |
| Codec.DecodeEncodeChildren | lib/dir.c:102-109 | decoding the encoded children gives the entries back, in order |
| Codec.EncodeChildrenGroups | lib/dir.c:102-109 | the k-th group of the encoded children is the encoding of the k-th entry |
| Codec.EncodeWellFormed | lib/dir.c:92-109 | every encoded record is well formed |
| Codec.DecodeEncode | lib/dir.c:88-179 | a record written by duc_db_write_dir reads back with the same header and the same entries |
| Lookup.ChildPath | lib/dir.c:186 | the child path is the parent path, a '/', then the name; for a name, that '/' is the last one in the path |
| Lookup.Dirname | lib/dir.c:201-202 | dirname cuts the buffer back to a prefix of the path, which is non-empty when the path is |
| Lookup.LastSlashBefore | lib/dir.c:202 | the memrchr in dirname: the last '/' before position n, or none when there is no '/' before n |
| Lookup.SlashRunStart | lib/dir.c:202 | the start of the run of '/' characters that ends at k |
| Lookup.DirnameOfChild | lib/dir.c:186-202 | dirname of "<p>/<name>" is p for a canonical p other than "/"; below "/" the child path is "//name" and its dirname is "//"; dirname of "/name" is "/" |
| Lookup.DirnameIsCanonicalPrefix | lib/dir.c:201-202 | dirname of a canonical path is a canonical prefix of it |
| Lookup.Segments | lib/dir.c:320-334 | strtok on '/' yields only non-empty names without '/' |
| Lookup.SegmentsOfJoin | lib/dir.c:320-334 | splitting names joined by '/' gives the names back |
| Lookup.ScanBack | lib/dir.c:297 | the inner scan stops at the nearest position at or below j that ends a component, and skips none |
| Lookup.NextProbe | lib/dir.c:296-297 | the next probe length is the longest component boundary below the current one, or 0 |
| Lookup.TopFrom | lib/dir.c:286-298 | the search from length l stops at a boundary whose prefix is indexed as a report, and no longer boundary up to l is indexed |
| Lookup.LongestPrefix | lib/dir.c:283-305 | the prefix found is the longest boundary prefix of the path indexed as a report, or 0 when none is |
| Lookup.NoPrefixNoPath | lib/dir.c:300-305 | a path without an indexed prefix leads to no directory |
| Lookup.PathResolvesAt | lib/dir.c:307-341 | with the indexed prefix at (dev, ino), the path leads to a directory exactly when its remaining components lead there from (dev, ino) |
| Lookup.PathLeads | lib/dir.c:307-341 | a path that leads somewhere has remaining components that lead somewhere from its indexed prefix |
| Lookup.ResolvesSnoc | lib/dir.c:322-335 | walking one more component, through a child of the record reached, reaches that child |
| Lookup.ResolvesStep | lib/dir.c:322-335 | with unique names, components that lead somewhere from a record have their first name among its children, and the rest lead somewhere from that child |
| Dir.Duc.ReadDir | lib/dir.c:129-179 | null exactly when no record is stored under the key, with DUC_E_PATH_NOT_FOUND; otherwise a fresh directory of that identity with the stored header and children, sorted, the cursor at 0 and no path |
| Dir.Duc.FindTop | lib/dir.c:283-298 | the probing loop returns the longest indexed prefix and the (dev, ino) of its report, or 0 and (0, 0) |
| Dir.Duc.DirOpen | lib/dir.c:271-342 | a result is a loaded directory whose path is the canonical path and which the path leads to; null comes with DUC_E_PATH_NOT_FOUND; with unique names a path that leads somewhere is opened |
| Dir.Duc.OpenFrom | lib/dir.c:307-341 | from the record of the longest indexed prefix, a directory returned is loaded and is one the path leads to; null comes with DUC_E_PATH_NOT_FOUND; with unique names a path that leads somewhere is opened |
| Dir.Duc.Walk | lib/dir.c:320-335 | the component loop ends at the directory the components lead to, or with null and DUC_E_PATH_NOT_FOUND; with unique names it never fails when they lead somewhere |
| Dir.Duc.Step | lib/dir.c:324-334 | one turn of the loop: the child opened is one step further along the walked components |
| Dir.LoadedStep | lib/dir.c:324-329 | in a loaded directory, the next component of a path that leads somewhere is found, and names a stored child from which the rest leads somewhere |
| Dir.LoadedEntryIsChild | lib/dir.c:154-176 | every entry in use in a loaded directory is a child of its stored record |
| Dir.DucDir.constructor | lib/dir.c:19-35 | a new directory has a zero header, no entries, cursor 0, no path and a 32768-byte pool |
| Dir.DucDir.AddEnt | lib/dir.c:38-55 | appends exactly the given entry, doubling ent_pool when the entry would not fit, and changes nothing else |
| Dir.DucDir.Load | lib/dir.c:145-176 | after loading a well-formed record, the header is the record's header and the entries are its named children, as a permutation sorted by decreasing size |
| Dir.DucDir.SortEntries | lib/dir.c:176 | the entries in use become sorted by decreasing size, as a permutation of what they were |
| Dir.DucDir.LoadChildren | lib/dir.c:154-172 | the entries loaded are the record's children that have a name, in stored order |
| Dir.DucDir.EncodeRecord | lib/dir.c:90-109 | the buffer built is the encoding of the header and the entries, is well formed, and decodes back to the same header and entries |
| Dir.DucDir.WriteDir | lib/dir.c:88-122 | on a zero db_put status the record stored under the key is the encoding, and reads back as this header and these entries; otherwise -1, the store error in duc->err and the database unchanged |
| Dir.DucDir.Read | lib/dir.c:345-355 | returns the entry under the cursor and advances, or nothing at the end; the error is cleared either way |
| Dir.DucDir.Rewind | lib/dir.c:358-362 | the cursor returns to 0 |
| Dir.DucDir.GetSize | lib/dir.c:72-75 | for a loaded directory, the total size stored in the header of its record |
| Dir.DucDir.GetPath | lib/dir.c:78-81 | the path the directory was given when it was opened |
| Dir.DucDir.FindChild | lib/dir.c:253-267 | returns the first entry with the name, or none with DUC_E_PATH_NOT_FOUND |
| Dir.DucDir.OpenEnt | lib/dir.c:182-189 | null exactly when the entry's record is missing; otherwise that record loaded, with path "<path>/<name>" |
| Dir.DucDir.OpenAt | lib/dir.c:192-221 | ".." opens the parent record with the path cut back by dirname, and gives null without an error when a parent id is 0; another name opens the first entry of that name, and gives null without an error when there is none |
| Dir.DucDir.OpenParent | lib/dir.c:194-204 | with both parent ids non-zero: null exactly when the parent record is missing, otherwise the parent loaded with the path cut back by dirname; with a zero id, null and the error untouched |
| Dir.DucDir.OpenNamed | lib/dir.c:206-220 | opens the first entry of that name, as duc_dir_openent does, or gives null without touching the error when no entry has the name |
| Dir.DucDir.RestSize | lib/dir.c:231-236 | the summing loop gives the total size of the entries from position count - 1 on |
| Dir.DucDir.Shrunk | lib/dir.c:238-247 | the reallocated list has count slots: the first count - 1 entries, then the aggregate entry |
| Dir.DucDir.Limit | lib/dir.c:224-250 | with more than count entries, the list becomes the limited list, with count slots, a pool of count entries and the cursor at 0; otherwise nothing changes |
| Dir.AddStep | lib/dir.c:40-46 | one more entry is in use; ent_pool stays or doubles, a doubling reallocates to the new ent_pool, and an entry that fits changes neither ent_pool nor the allocation |
| Dir.LimitAsWritten | lib/dir.c:238-240 | as written, limiting leaves ent_pool as it was, while the entries in use drop to count and the allocation shrinks to count entries |
| Dir.LimitFixed | lib/dir.c:238-240 | with ent_pool following the realloc, limiting drops the entries in use to count and keeps ent_pool equal to the allocation |
| Dir.AddStepKeepsPool | lib/dir.c:40-46 | with ent_pool matching the allocation, an add always writes inside the allocation and keeps the two matched |
| Dir.LimitAsWrittenOverflows | lib/dir.c:224-250 | after duc_dir_limit as written shrinks two entries to one, leaving ent_pool as it was, the next duc_dir_add_ent (lines 40-45) writes past the 40 bytes left allocated |
| Dir.LimitFixedKeepsPool | lib/dir.c:238-240 | with ent_pool set to the new allocation, limiting keeps ent_pool matching the allocation, with count entries in use |

## Left out

- realpath, at lib/dir.c:275, is outside the model. `Duc.DirOpen` takes its result as an `Option<string>`, where None means it failed. Paths are assumed canonical where the lemmas need it.
- The database, its varint and string byte formats, and `buffer.c` are not part of this model. A record is a sequence of tokens: a number, a mode, or a name that may be missing. The index maps each top path either to a report-sized value holding (dev, ino) or to some other value.
- Decode errors are left out. Every stored record is assumed to be well formed (`Duc.Valid`). dir.c ignores the results of `buffer_get_varint` and `buffer_get_string`, so it has no error path to model.
- Memory is left out: `duc_dir_close`, the frees and the leaks (the buffer in `duc_db_write_dir` on failure, `path_canon`), and out-of-memory handling.
- `duc_log` messages are left out; they have no effect on the results.
- Integers are unbounded. 64-bit `dev_t`, `ino_t` and `off_t` wrap-around is not modelled, apart from the key-width finding.
- `sizeof(struct duc_dirent)` is taken as 40 bytes, as on LP64.
- The `char rest[PATH_MAX]` copy is left out, so paths longer than PATH_MAX are not truncated.
- DUC_MODE_REST is kept symbolic (`Mode.Rest`), because its number is defined outside lib/dir.c.
- `Dir.DucDir.Limit`: requires count >= 1 whenever it shrinks the list. With count 0 the code writes to `ent_list[-1]`, which is undefined behaviour.
- `Dir.DucDir.OpenAt`: requires a path when it opens "..". `duc_strdup` of a null path is undefined, so the model does not cover it.
- Dir.DucDir.GetPath: returns the path field itself. The `strdup` copy is the same text, and `strdup` of a null path, which is undefined behaviour, is not modelled.
- `Entries.SortBySize`: the sort is an insertion sort whose ordering is `fn_comp_ent`. glibc's qsort algorithm and its exact order among equal sizes are not modelled.
- `Dir.Duc.DirOpen`: the completeness half holds only when names are unique within each record. With duplicate names the code follows the first match, like the model.
- Behaviour of the code that one might not expect, which the model follows:
  - The aggregate label of `duc_dir_limit` says ent_count - count, which is one less than the number of entries folded (`Entries.LimitedKeepsTotal` states this).
  - `duc_dir_open` does not treat a ".." component specially. It looks it up as a child name.
  - `duc_dir_openat` on ".." with a zero parent id returns null without setting an error.
  - Decoding never fails with a separate error.
- The realloc of `duc_dir_limit` is modelled as a fresh array holding the kept entries; whether realloc moves the block is not modelled.
- `duc_dir_openent` below a directory without a path prints the glibc text "(null)". The resulting path is `PathText(None)/name`.

## Findings

| source | as written | input that shows it | evidently intended | confidence | as-written member | corrected member |
|---|---|---|---|---|---|---|
| lib/dir.c:111-113 | `char key[32]` holds at most 31 characters of "%jx/%jx", and the length snprintf returns is passed on as the key length | dev = ino = 2^64 - 1: the key needs 33 characters, 31 are stored and 33 is passed on | a buffer of at least 34 bytes, so every key is stored whole; the model keys records by the whole text `Keys.Key` | not executed | Keys.MkKeyTruncates | Keys.KeyFitsWideBuffer |
| lib/dir.c:238-240 | `duc_dir_limit` reallocates `ent_list` to count entries but leaves `ent_pool` at its old size | 2 entries in a 32768-byte pool, limit to 1, then add one entry: 80 > 32768 is false, so there is no reallocation, and the entry is written at bytes 40-79 of a 40-byte block | `ent_pool = count * sizeof(struct duc_dirent)`, as `Dir.DucDir.Limit` does | not executed | Dir.LimitAsWrittenOverflows | Dir.LimitFixedKeepsPool |
