# A verified model of a multilingual dictionary's hash table

The dictionary stores words with their translations into several languages. It has two layers:

- **Records** (dictionary.h, dictionary.cpp).
  - A `Translation` is a language plus an ordered list of meanings.
  - An `Entry` is a word plus its translations. It holds the lowered key, the original spelling, the line that created it and a tombstone flag.
- **The table** (hashtable.h, hashtable.cpp). A `HashTable` is a fixed array of buckets.
  - It uses open addressing with linear probing.
  - A deleted entry stays in its bucket as a tombstone.
  - It keeps a `size` (the live entries) and a `collisions` counter.
  - Its operations are `insert`/`addWord` (insert or merge), `find`, `delWord`, `delTranslation`, `delMeaning`, `exportData` and `import`.

## Modules

| file | module | what it holds |
|---|---|---|
| wrappers.dfy | `Wrappers` | `Option` |
| casefold.dfy | `CaseFold` | `toLower` character by character |
| delimited.dfy | `Delimited` | splitting at a separator, joining, dropping empty pieces, and the lemmas linking them |
| dictionary.dfy | `Dictionary` | `Translation` and `Entry` as datatypes, with one method for each C++ member that changes them |
| erasure.dfy | `Erasure` | the erase loops of `delTranslation` and `delMeaning` |
| line_format.dfy | `LineFormat` | the line format of export and import: trimming, parsing, writing |
| probing.dfy | `Probing` | the table as a value: one function per operation over a `seq<Slot>`, and the lemmas about them |
| hashtable.dfy | `HashTables` | the `HashTable` class over an `array<Slot>`, whose methods run the source's loops |

### How the model is built

**The class.** Each method of `HashTables.HashTable` is proved to leave the array, outcome and counters that its `Probing` function gives for the old array. An example is `buckets[..] == InsertInto(old(buckets[..]), ...).slots`. The lemmas in `Probing` then state what the operation promises. The class invariant `Valid()` says three things:

- the chains are intact, i.e. `Probing.TableInv`: every entry can be reached from its home bucket without crossing an empty bucket;
- every entry keeps at most one translation per language and at least one meaning in each;
- `size` equals the number of live buckets.

Every mutating method keeps this invariant. The probe helper `ProbeForInsert` writes only `collisions`, which the invariant does not mention; it requires only that the array has the capacity as its length, and it keeps `Valid()` exactly when it held before.

**Outcomes.** Each message the source prints becomes an outcome value:

- `InsertOutcome`: invalid input, table full, added at a slot, or merged at a slot;
- `FindResult`, which carries the comparison count;
- `EditOutcome`;
- `ExportOutcome`, which carries the lines written;
- `ImportOutcome`, which carries the count.

**Tombstones.** `insert` and the lookup walk treat tombstones differently:

- `insert`'s probe stops at the first tombstone (hashtable.cpp:79).
- `find` and the deletions walk past tombstones (hashtable.cpp:127-136).

So `insert` can create a second live entry for a key that already lives further along its chain. The model does the same:

- `Probing.InsertCanDuplicate` exhibits the case concretely.
- `Probing.InsertKeepsUnique` proves one live entry per key in every other case.

**Where the model follows the code rather than the comments.**

- hashtable.h:53 says `exportData` writes entries in alphabetical order. The code writes them in bucket order, and so does the model.
- hashtable.h:47 says `delTranslation` deletes all translations for the language. The code erases only the first one. Since an entry never holds two translations of one language (`Dictionary.WithTranslationKeepsOk`), none is left afterwards (`Erasure.WithoutLanguage`).
- `delMeaning` prints the same message for a missing language and a missing meaning (hashtable.cpp:234). The model therefore has a single `PartNotFound` outcome for both.
- `import` counts every line that has a word, including one whose insert is then rejected for empty meanings (hashtable.cpp:325-328). `Probing.ImportCountsRejectedLine` shows this.

## Model

| member | source | states |
|---|---|---|
| CaseFold.LowerChar | dictionary.cpp:23 | an upper-case ASCII letter becomes its lower-case letter (code + 32); every other character is unchanged; no upper-case letter remains |
| CaseFold.ToLower | dictionary.cpp:20-25 | the result has the same length as the input, and every position holds the lowered character of the input |
| CaseFold.ToLowerIsLowered | dictionary.cpp:20-25 | the result has no upper-case letter, and a string without one is left unchanged |
| CaseFold.ToLowerIdempotent | dictionary.cpp:20-25 | lowering twice is the same as lowering once |
| Delimited.IndexOf | hashtable.cpp:311 | `find(':')`: the position of the first occurrence of the character, or the length when it is absent; it occurs nowhere before that position |
| Delimited.Split | dictionary.cpp:44 | the pieces between separators, empty ones included: at least one piece, none containing the separator; `getline(ss, meaning, ';')` yields no trailing empty piece ("a;" gives "a" alone, "" gives nothing), so `Split` can have one more, empty, piece, which `NonEmpty` drops |
| Delimited.NonEmpty | dictionary.cpp:45-47 | the pieces kept by the `!meaning.empty()` test: no more than given, and none of them empty |
| Delimited.NonEmptyMembers | dictionary.cpp:45-47 | a string is kept iff it is one of the pieces and is not empty |
| Delimited.Join | hashtable.cpp:268-271 | joining no pieces gives the empty string, and the result starts with the first piece |
| Delimited.JoinSplit | dictionary.cpp:44-48 | joining the pieces of a split gives back the string |
| Delimited.SplitJoin | dictionary.cpp:44-48 | splitting a join of separator-free pieces gives back the pieces |
| Delimited.NonEmptySplitIsEmpty | dictionary.cpp:44-50 | no piece survives exactly when the string is all separators |
| Dictionary.MeaningsOf | dictionary.cpp:39-53 | the stored meanings: none exactly for "", otherwise no piece holds ';', and either the single empty meaning or only non-empty pieces |
| Dictionary.MeaningsOfJoin | dictionary.cpp:44-48 | non-empty, separator-free meanings joined by ';' are read back as exactly those meanings, in order |
| Dictionary.MeaningsOfOnlySeparators | dictionary.cpp:50-52 | the result is `[""]` if and only if the string is non-empty and made only of ';' |
| Dictionary.MeaningsOfSplitsEverySeparator | dictionary.cpp:44-48 | every ';' cuts: "a;b;c" gives the three meanings "a", "b" and "c" |
| Dictionary.MeaningsOfKeepsDuplicates | dictionary.cpp:44-48 | "a;a" gives two meanings: pieces are not deduplicated |
| Dictionary.NewTranslation | dictionary.cpp:39-53 | the constructor's scanning loop builds the language with exactly `MeaningsOf(meanings)` |
| Dictionary.WithMeaning | dictionary.cpp:56-63 | the language is kept and the old meanings are a prefix of the new ones; exactly one meaning is appended iff the new one is non-empty and absent case-insensitively, and that meaning is the new one; afterwards a non-empty meaning is present |
| Dictionary.WithMeaningIdempotent | dictionary.cpp:56-63 | adding the same meaning twice is the same as adding it once |
| Dictionary.AddMeaning | dictionary.cpp:56-63 | the loop over the existing meanings returns exactly `WithMeaning` |
| Dictionary.FirstLanguage | dictionary.cpp:107-112 | the first translation whose language matches case-insensitively; no earlier one matches; none when none matches |
| Dictionary.MakeEntry | dictionary.cpp:91-101 | not deleted, with exactly one translation, of the language, built from the meanings; an empty word stores "unknown" as word and original word and "unknown:" + meanings as the line; a non-empty word keeps the original word and line, and the key is the word lowered; the key is lowered and never empty; with non-empty meanings the entry is well formed |
| Dictionary.NewEntry | dictionary.cpp:91-101 | the constructor builds `MakeEntry`, storing "unknown" for an empty word |
| Dictionary.WithTranslation | dictionary.cpp:104-115 | an empty language or meanings string leaves the entry unchanged; otherwise the first translation of the language, case-insensitively, gains the meanings by `WithMeaning` and no other translation changes, or, when there is none, a new translation of the split meanings is appended; word, original word, line and flag are never changed; afterwards the language is present |
| Dictionary.WithTranslationKeepsOk | dictionary.cpp:104-115 | the translations keep one per language, case-insensitively, and at least one meaning each |
| Dictionary.MergeDoesNotSplit | dictionary.cpp:109 | merging "b;c" into an existing language adds the single meaning "b;c" |
| Dictionary.CaseVariantMeaningMerges | dictionary.cpp:108-109 | adding "X" after "x" for one language leaves the single meaning "x" |
| Dictionary.AddTranslation | dictionary.cpp:104-115 | the loop over the translations returns exactly `WithTranslation` |
| Dictionary.MarkDeleted | dictionary.cpp:148-150 | the flag is set and every other field is unchanged |
| Dictionary.MarkDeletedIdempotent | dictionary.cpp:148-150 | marking twice is the same as marking once |
| Erasure.RemoveAt | hashtable.cpp:187 | `vector::erase`: one element shorter, with the elements before the position kept and those after it shifted down by one |
| Erasure.RemoveAtKeepsShape | hashtable.cpp:187 | erasing a translation keeps the languages distinct and keeps every translation non-empty |
| Erasure.WithoutLanguage | hashtable.cpp:183-193 | succeeds iff the entry has the language; the translations become exactly the old ones with the first translation of the language removed, every other field unchanged; with distinct languages the language is gone afterwards; a well-formed entry stays well formed |
| Erasure.RemoveTranslation | hashtable.cpp:183-193 | the erase loop returns exactly `WithoutLanguage` |
| Erasure.FirstMeaning | hashtable.cpp:221-222 | the first meaning equal case-insensitively; no earlier one is equal |
| Erasure.FirstHit | hashtable.cpp:217-222 | the first translation of the language that holds the meaning; no earlier one does |
| Erasure.FirstMeaningFinds | hashtable.cpp:221-222 | the search finds a meaning iff one is present |
| Erasure.WithoutMeaning | hashtable.cpp:215-233 | succeeds iff some translation of the language holds the meaning; in the first such translation the first copy of the meaning is removed, and that translation is removed too when it has no meaning left; nothing else changes; a well-formed entry stays well formed |
| Erasure.FindMeaning | hashtable.cpp:221-222 | the inner search loop returns the index of the first copy of the meaning, or none |
| Erasure.RemoveMeaning | hashtable.cpp:215-233 | the nested erase loops return exactly `WithoutMeaning` |
| LineFormat.TrimLeft | hashtable.cpp:319 | a suffix of the input; only blanks were dropped, and it does not start with a blank |
| LineFormat.TrimRight | hashtable.cpp:320 | a prefix of the input; only blanks were dropped, and it does not end with a blank |
| LineFormat.Trim | hashtable.cpp:319-322 | the result has no blank at either end, and a trimmed string is kept as it is |
| LineFormat.TrimDropsOnlyBlanks | hashtable.cpp:319-322 | the input is the trimmed string with only blanks before and after it |
| LineFormat.ParseLine | hashtable.cpp:310-322 | skipped iff the line has no ':'; otherwise word and meanings are the trimmed halves around the first ':' |
| LineFormat.ExportLine | hashtable.cpp:266-272 | the line starts with the word followed by ':', and the rest is the meanings joined by ';' |
| LineFormat.ParseExportLine | hashtable.cpp:266-272 | an exported line parses back to its word and its joined meanings |
| LineFormat.ReimportExportLine | hashtable.cpp:266-272 | an exported line read back gives its word, and the constructor splits the same meanings again |
| LineFormat.WriteLine | hashtable.cpp:266-272 | the loop that writes word, ':' and the meanings with ';' between them produces exactly `ExportLine` |
| Probing.Fold | hashtable.cpp:57-59 | the rolling hash `(h * 31 + ch) % n` stays below the capacity |
| Probing.Hash | hashtable.cpp:50-61 | below the capacity, and 0 for the empty word |
| Probing.HashIgnoresCase | hashtable.cpp:52 | words equal up to case hash alike, and hashing a lowered word gives the same hash |
| Probing.Key | hashtable.cpp:79 | `toLower(getWord())`: as long as the word, with no upper-case letter, and the word itself when it is already lowered |
| Probing.BlocksInsert | hashtable.cpp:79 | the insertion probe moves past a bucket exactly when it holds a live entry of another key, and stops at an empty bucket, a tombstone or the key's live entry |
| Probing.StopsLookup | hashtable.cpp:127-136 | a bucket that ends the lookup walk never blocks an insertion of the same key |
| Probing.Probe | hashtable.cpp:80 | the q-th bucket of the probe sequence is a bucket index |
| Probing.Dist | hashtable.cpp:80 | the unique number of steps from a start to a bucket |
| Probing.ProbeNext | hashtable.cpp:80 | `(idx + 1) % capacity` is the next step of the probe sequence |
| Probing.ProbeWraps | hashtable.cpp:84 | the index comes back to its start exactly after `capacity` steps |
| Probing.InsertStop | hashtable.cpp:79-90 | the first step whose bucket is not a live entry of another key; every earlier step is one; `capacity` when there is none |
| Probing.LookupStop | hashtable.cpp:127-136 | the first step whose bucket is empty or the key's live entry; no earlier step is one; `capacity` when there is none |
| Probing.LiveCount | hashtable.h:14 | the number of live buckets, at most the capacity |
| Probing.LiveCountUpdate | hashtable.cpp:103 | writing one bucket changes the live count by what that bucket gains or loses |
| Probing.EmptyTableFacts | hashtable.cpp:24-27 | an all-empty table is intact, holds no live entry and has one entry per key |
| Probing.LookupCompleteAt | hashtable.cpp:127-136 | in an intact table, the walk for a key held live somewhere stops at a live entry of that key |
| Probing.WriteKeepsInv | hashtable.cpp:95-96 | writing a well-formed entry that is reachable from its home keeps the table invariant |
| Probing.RewriteKeepsInv | hashtable.cpp:104-105 | replacing an entry by a well-formed one with the same key keeps the table invariant |
| Probing.InsertInto | hashtable.cpp:64-113 | the length is kept; invalid iff an input is empty; invalid and full leave the buckets unchanged (0 and `capacity` collisions); otherwise exactly one bucket, the first insertion stop, is written with the key's live entry; collisions equal the steps taken; added over a non-live bucket as `MakeEntry`, or merged into the key's live entry by `WithTranslation` |
| Probing.InsertFullIff | hashtable.cpp:84-89 | the table is full for a key iff every bucket holds a live entry of another key |
| Probing.InsertFreshKey | hashtable.cpp:95-103 | a key without a live entry is added, never merged, unless the table is full |
| Probing.InsertCounts | hashtable.cpp:103 | the live count grows by one exactly when an entry is added |
| Probing.InsertKeepsInv | hashtable.cpp:64-113 | insertion keeps every chain intact and every entry well formed |
| Probing.Walk | hashtable.cpp:127-136 | the number of buckets the walk passes is at most the capacity |
| Probing.Locate | hashtable.cpp:127-136 | a found bucket holds the key's live entry, and it is where the walk stopped |
| Probing.WalkEndsAtHit | hashtable.cpp:130-132 | a walk reaching the key's live entry stops there |
| Probing.WalkEndsAtEmpty | hashtable.cpp:127 | a walk reaching an empty bucket finds nothing |
| Probing.WalkEndsAtWrap | hashtable.cpp:135 | a walk that comes back to its start finds nothing |
| Probing.LocateComplete | hashtable.cpp:127-136 | in an intact table the walk finds the key iff some bucket holds it live |
| Probing.LocateUnique | hashtable.cpp:127-136 | with one live entry per key, the walk finds exactly that bucket |
| Probing.LocateAfterRewrite | hashtable.cpp:181-183 | rewriting the found entry with a live one of the same key leaves the walk unchanged |
| Probing.LookUp | hashtable.cpp:116-138 | invalid iff the word is empty; found iff the lookup walk of the lowered word ends at a live entry, and then the index is where it ends, the entry is that bucket's content, and the comparisons are the steps walked plus one; a miss reports exactly the steps walked, at most `capacity` |
| Probing.LookUpComplete | hashtable.cpp:116-138 | in an intact table `find` succeeds iff a live entry has the word in any case |
| Probing.WalkAfterWrite | hashtable.cpp:79-96 | writing the key's live entry where its insertion probe stopped makes the walk stop there, after the same number of steps |
| Probing.InsertThenFind | hashtable.cpp:79-136 | after an insertion that adds or merges, `find` with the word in any case reports that bucket, after one comparison more than the collisions the insertion added |
| Probing.ChainCovers | hashtable.cpp:79 | an entry lies closer to its home than the first empty bucket after it |
| Probing.NoLiveBehindEmpty | hashtable.cpp:79 | a probe that passes only other keys and reaches an empty bucket shows the key has no live entry |
| Probing.UniqueAfterWrite | hashtable.cpp:95-106 | writing a bucket keeps one live entry per key when no other bucket holds the written key live |
| Probing.InsertKeepsUnique | hashtable.cpp:79-106 | insertion keeps one live entry per key, unless it added over a tombstone |
| Probing.InsertCanDuplicate | hashtable.cpp:79-96 | there is an intact table with one live entry per key where an insertion over a tombstone leaves two live entries for one key |
| Probing.DuplicateTable | hashtable.cpp:79-96 | the two-bucket table of that example is intact, with one live entry per key, the live "a" in bucket 0 and a tombstone in bucket 1, the home of "a" |
| Probing.DeleteWordIn | hashtable.cpp:141-162 | invalid iff the word is empty; "not found" iff the lookup walk of the lowered word finds nothing; on success the index is where the walk ends, and exactly that live entry is tombstoned, with no other field and no other bucket changed; otherwise nothing changes |
| Probing.DeleteWordComplete | hashtable.cpp:151-161 | in an intact table `delWord` succeeds iff some live entry holds the word, in any case |
| Probing.DeleteTranslationIn | hashtable.cpp:170-199 | invalid iff an input is empty; the word is "not found" iff the lookup walk finds nothing; the language is "not found" only when the walk ends at an entry that `WithoutLanguage` cannot edit; on success the index is where the walk ends and only that entry changes, by `WithoutLanguage`; otherwise nothing changes |
| Probing.DeleteMeaningIn | hashtable.cpp:202-241 | invalid iff an input is empty; the word is "not found" iff the lookup walk finds nothing; the meaning is "not found" only when the walk ends at an entry that `WithoutMeaning` cannot edit; on success the index is where the walk ends and only that entry changes, by `WithoutMeaning`; otherwise nothing changes |
| Probing.DeleteWordKeepsInv | hashtable.cpp:151-156 | the table invariant holds afterwards, and the live count drops by one exactly on success |
| Probing.DeleteTranslationKeepsInv | hashtable.cpp:181-193 | the table invariant and the live count are kept, and the entry stays live: the entry is never tombstoned |
| Probing.DeleteMeaningKeepsInv | hashtable.cpp:213-233 | the table invariant and the live count are kept, and the entry stays live |
| Probing.DeleteWordThenFind | hashtable.cpp:151-161 | with one live entry per key, after a deletion `find` misses the word in any case, and a second deletion reports it not found |
| Probing.FindAfterRewrite | hashtable.cpp:127-136 | rewriting the found entry: `find` reports the new entry in the same bucket with the same count |
| Probing.DeleteTranslationThenFind | hashtable.cpp:181-193 | after `delTranslation`, `find` reports the edited entry in the same bucket with the same count |
| Probing.DeleteMeaningThenFind | hashtable.cpp:213-233 | after `delMeaning`, `find` reports the edited entry in the same bucket with the same count |
| Probing.EntryLines | hashtable.cpp:263-273 | one entry writes no more lines than it has translations |
| Probing.ExportLines | hashtable.cpp:259-276 | the lines of the buckets in bucket order; a table without a live entry writes none |
| Probing.ExportLinesStep | hashtable.cpp:259-276 | one more bucket appends that bucket's lines at the end |
| Probing.Holders | hashtable.cpp:259-276 | the number of live entries with the language is at most the live count |
| Probing.EntryLinesCount | hashtable.cpp:263-273 | an entry with distinct languages writes one line if it has the language, else none |
| Probing.ExportCount | hashtable.cpp:256-279 | the export writes one line per live entry that has the language |
| Probing.EntryLinesFrom | hashtable.cpp:263-273 | each line of an entry is its original word and one of its translations of the language, in the file format |
| Probing.ExportLinesFrom | hashtable.cpp:259-276 | each exported line comes from a live entry and one of its translations of the language |
| Probing.ExportFrom | hashtable.cpp:244-280 | a bad input iff the language or path is empty; cannot create iff the file is not writable; otherwise the language header comes first, then the entries' lines, and the count is the number of lines after the header |
| Probing.ImportStep | hashtable.cpp:309-329 | one line counts iff it parses with a non-empty word, and the bucket count is kept |
| Probing.ImportStepEffect | hashtable.cpp:310-328 | a skipped line leaves the buckets as they were with no collisions; a counted line gives the buckets and collisions of `InsertInto` on its trimmed word and meanings |
| Probing.ImportAll | hashtable.cpp:309-329 | the capacity is kept, and no more lines are counted than are given |
| Probing.ImportAllSnoc | hashtable.cpp:309-329 | one more line is one more step after the earlier ones |
| Probing.ImportKeepsInv | hashtable.cpp:309-329 | importing keeps the table invariant, never lowers the live count and raises it by at most the lines counted |
| Probing.SeparatorsOnlyLostOnReimport | hashtable.cpp:266-272 | an entry whose meanings were ";" exports the line "w:", and importing that line is counted while the table stays empty |
| Probing.MergedMeaningSplitsOnReimport | hashtable.cpp:266-272 | the merged meaning "b;c" is exported as "w:a;b;c", which parses to the word "w" and is split into three meanings |
| Probing.ImportCountsRejectedLine | hashtable.cpp:325-328 | the line "w:" is counted while the table and collisions are unchanged |
| HashTables.WriteEntry | hashtable.cpp:261-274 | the loop over one entry's translations writes exactly `EntryLines` |
| HashTables.HashTable.constructor | hashtable.cpp:13-28 | capacity 0 becomes 1171891; every bucket is empty; `size` and `collisions` are 0; the invariant holds |
| HashTables.HashTable.HashCode | hashtable.cpp:50-61 | the fold loop computes `Hash` |
| HashTables.HashTable.Seek | hashtable.cpp:121-136 | the probe loop finds `Locate` and counts the buckets compared, the hit included |
| HashTables.HashTable.ProbeForInsert | hashtable.cpp:73-90 | the probe loop stops at `InsertStop`, reports a full loop iff there is no stop, adds one collision per step, keeps `size`, and keeps `Valid()` exactly when it held before |
| HashTables.HashTable.Insert | hashtable.cpp:64-113 | buckets, outcome and collisions are those of `InsertInto`; `size` grows by one iff an entry is added; the invariant is kept |
| HashTables.HashTable.AddWord | hashtable.cpp:165-167 | `Insert` with the line rebuilt as word, ':' and meanings |
| HashTables.HashTable.Find | hashtable.cpp:116-138 | the result is `LookUp` of the buckets |
| HashTables.HashTable.DelWord | hashtable.cpp:141-162 | buckets and outcome are those of `DeleteWordIn`; `size` drops by one on success; collisions are unchanged; the invariant is kept |
| HashTables.HashTable.DelTranslation | hashtable.cpp:170-199 | buckets and outcome are those of `DeleteTranslationIn`; the invariant is kept; nothing else changes |
| HashTables.HashTable.DelMeaning | hashtable.cpp:202-241 | buckets and outcome are those of `DeleteMeaningIn`; the invariant is kept; nothing else changes |
| HashTables.HashTable.ExportData | hashtable.cpp:244-280 | the result is `ExportFrom` of the buckets |
| HashTables.HashTable.ImportLine | hashtable.cpp:310-328 | buckets, collisions and the count are those of `ImportStep` |
| HashTables.HashTable.ImportLines | hashtable.cpp:309-329 | buckets, collisions and the count are those of `ImportAll`; the invariant is kept |
| HashTables.HashTable.Import | hashtable.cpp:283-332 | each early failure gets its outcome and leaves the table as it was; otherwise the result is `ImportAll` over the lines after the header, with that header as the language |

## Left out

- main.cpp, the interactive command loop, is not part of this model. This includes its argument splitting, its help text and its floating-point average of collisions.
- `getCurrentWorkingDirectory` is not modelled: it only feeds an error message and is an operating-system call.
- Printing is replaced by outcome values. This covers `display`, `print`, every diagnostic and the `silent` flag of `insert`.
- The message for a full table prints the comparison count (hashtable.cpp:86). That count equals the collisions added, which `InsertInto` does model.
- Files are modelled as sequences of lines:
  - `import` takes `file: Option<seq<string>>`, with `None` when the file cannot be opened. Line splitting by `getline` is taken as already done, so a trailing '\r' is part of the line text.
  - `exportData` takes a `writable` flag and returns the lines it writes.
- The model does not cover allocation failure and `exit(1)`, the destructor, or the entry leaked when a tombstone is overwritten (hashtable.cpp:96). A bucket write is a replacement.
- Characters are Dafny `char`s taken as numbers:
  - `::tolower` maps only ASCII `A`–`Z`, as in the "C" locale;
  - `hashCode` adds the character's code point, not a possibly negative signed `char`.
- Probing.Fold: does not model the width of `unsigned long`. With a 64-bit `unsigned long` (Linux, macOS), `hash * 31 + ch` cannot overflow for any capacity that fits the `unsigned int` indices. With a 32-bit one (Windows, the branch at dictionary.cpp:12-14), it wraps once the capacity exceeds about 138.5 million, since `hash` can then reach `capacity - 1`. The model computes without wrap-around. The default capacity 1171891 is far below that bound.
- HashTables.HashTable.Insert: `size` and `collisions` are unbounded naturals, so the 32-bit wrap of `unsigned int` after 2^32 collisions is not modelled.
- `Translation` and `Entry` are immutable values. Their C++ members that change a vector in place are methods that return the new value. The table owns each entry through exactly one bucket, so no aliasing is lost.
- The getters (`getSize`, `getCollisions`, `getWord` and the others) are not modelled as members. They are the fields `size`, `collisions` and the datatype fields.
- The default capacity 1171891 is kept as a constant. Every lemma holds for any capacity above 0.
- A full export and import round trip of a whole table is not claimed, because the code does not give the table back:
  - a translation built from ";" alone holds the single empty meaning, is written as the bare line "w:", and is counted but not inserted on import, so the entry is lost (`Probing.ImportCountsRejectedLine`, `Probing.SeparatorsOnlyLostOnReimport`);
  - a meaning merged in with a ';' inside (`Dictionary.MergeDoesNotSplit`) comes back as several meanings (`Probing.MergedMeaningSplitsOnReimport`);
  - blanks at either end of a word or of its meanings text are trimmed on import (hashtable.cpp:319-322, `LineFormat.Trim`);
  - entries are merged and reordered by bucket.
  Only single lines are proved to round-trip, under the conditions `LineFormat.ReimportExportLine` names.
- The "alphabetical order" in the comment at hashtable.h:53 is not implemented by the code, so it is not stated.
