/**
 * The `HashTable` class of hashtable.h and hashtable.cpp: a fixed array of buckets with
 * open addressing, linear probing and tombstones, a live-entry count and a collision
 * counter. Each method runs the source's loops over the array and is proved to leave the
 * buckets, the outcome and the counters that the functions of module Probing describe.
 */
module HashTables {
  import opened Wrappers
  import opened CaseFold
  import opened Dictionary
  import opened Erasure
  import opened LineFormat
  import opened Probing

  /** hashtable.cpp:261-273: the lines of one live entry, one per translation of the language. */
  method WriteEntry(e: Entry, language: string) returns (lines: seq<string>)
    ensures lines == EntryLines(e.originalWord, e.translations, language)
  {
    var lowerLanguage := ToLower(language);
    var ts := e.translations;
    lines := [];
    for j := 0 to |ts|
      invariant lines == EntryLines(e.originalWord, ts[..j], language)
    {
      assert ts[..j + 1][..j] == ts[..j];
      if ToLower(ts[j].language) == lowerLanguage {
        var line := WriteLine(e.originalWord, ts[j].meanings);
        lines := lines + [line];
      }
    }
    assert ts[..|ts|] == ts;
  }

  class HashTable {
    const capacity: nat
    const buckets: array<Slot>
    var size: nat
    var collisions: nat

    /** The bucket array has the capacity as its length. */
    ghost predicate Shaped()
      reads this
    {
      capacity > 0 && buckets.Length == capacity
    }

    /** The buckets fill the capacity, the chains are intact and `size` counts the live entries. */
    ghost predicate Valid()
      reads this, buckets
    {
      Shaped() && TableInv(buckets[..]) && size == LiveCount(buckets[..])
    }

    /** hashtable.cpp:13-28: a capacity of 0 is replaced by the default; every bucket starts empty. */
    constructor (cap: nat)
      ensures Valid() && fresh(buckets)
      ensures capacity == (if cap == 0 then DefaultCapacity else cap)
      ensures AllEmpty(buckets[..]) && UniqueLive(buckets[..])
      ensures size == 0 && collisions == 0
    {
      var c := if cap == 0 then DefaultCapacity else cap;
      var b := new Slot[c];
      for i := 0 to c
        invariant forall j :: 0 <= j < i ==> b[j] == Empty
      {
        b[i] := Empty;
      }
      capacity := c;
      buckets := b;
      size := 0;
      collisions := 0;
      new;
      EmptyTableFacts(buckets[..]);
    }

    /** hashtable.cpp:50-61: the polynomial fold of the lowered word, reduced at every step. */
    method HashCode(word: string) returns (h: nat)
      requires capacity > 0
      ensures h == Hash(word, capacity)
    {
      var lowerWord := ToLower(word);
      if lowerWord == [] {
        return 0;
      }
      h := 0;
      for i := 0 to |lowerWord|
        invariant h == Fold(lowerWord[..i], capacity)
      {
        assert lowerWord[..i + 1][..i] == lowerWord[..i];
        h := (h * 31 + lowerWord[i] as int) % capacity;
      }
      assert lowerWord[..|lowerWord|] == lowerWord;
    }

    /**
     * The walk of `find`, `delWord`, `delTranslation` and `delMeaning`: from the hash,
     * through tombstones and other keys, until an empty slot, the live entry of the key or
     * a full loop. Reports the slot found and how many slots were compared.
     */
    method Seek(lowerWord: string) returns (found: Option<nat>, comparisons: nat)
      requires Shaped()
      ensures found == Locate(buckets[..], lowerWord)
      ensures comparisons == Walk(buckets[..], lowerWord) + (if found.Some? then 1 else 0)
    {
      ghost var slots := buckets[..];
      var idx := HashCode(lowerWord);
      ghost var h := idx;
      var originalIdx := idx;
      comparisons := 0;
      while buckets[idx].Occupied?
        invariant comparisons < capacity && idx == Probe(h, comparisons, capacity)
        invariant Walk(slots, lowerWord) == LookupStop(slots, lowerWord, h, comparisons)
        decreases capacity - comparisons
      {
        if ToLower(buckets[idx].entry.word) == lowerWord && !buckets[idx].entry.deleted {
          WalkEndsAtHit(slots, lowerWord, comparisons);
          return Some(idx), comparisons + 1;
        }
        ProbeWraps(h, comparisons, capacity);
        idx := (idx + 1) % capacity;
        comparisons := comparisons + 1;
        if idx == originalIdx {
          WalkEndsAtWrap(slots, lowerWord);
          return None, comparisons;
        }
        ProbeNext(h, comparisons - 1, capacity);
      }
      WalkEndsAtEmpty(slots, lowerWord, comparisons);
      found := None;
    }

    /**
     * hashtable.cpp:74-90, the probe of `insert`: from the hash, past live entries of other
     * keys, one collision per step; `full` when it has come back to where it started.
     */
    method ProbeForInsert(lowerWord: string) returns (idx: nat, full: bool)
      requires Shaped()
      modifies this
      ensures size == old(size)
      ensures Valid() <==> old(Valid())
      ensures var h := Hash(lowerWord, capacity);
              var p := InsertStop(buckets[..], lowerWord, h, 0);
              (full <==> p == capacity) && collisions == old(collisions) + p
              && (!full ==> idx == Probe(h, p, capacity))
    {
      ghost var slots := buckets[..];
      idx := HashCode(lowerWord);
      ghost var h := idx;
      var originalIdx := idx;
      var comparisons := 0;
      while buckets[idx].Occupied? && ToLower(buckets[idx].entry.word) != lowerWord && !buckets[idx].entry.deleted
        invariant comparisons < capacity && idx == Probe(h, comparisons, capacity)
        invariant InsertStop(slots, lowerWord, h, 0) == InsertStop(slots, lowerWord, h, comparisons)
        invariant collisions == old(collisions) + comparisons && size == old(size)
        decreases capacity - comparisons
      {
        ProbeWraps(h, comparisons, capacity);
        idx := (idx + 1) % capacity;
        collisions := collisions + 1;
        comparisons := comparisons + 1;
        if idx == originalIdx {
          InsertStopsAt(slots, lowerWord, h, comparisons);
          return idx, true;
        }
        ProbeNext(h, comparisons - 1, capacity);
      }
      InsertStopsAt(slots, lowerWord, h, comparisons);
      full := false;
    }

    /**
     * hashtable.cpp:64-113: reject empty input, probe, give up when the table is full,
     * then write a fresh entry over an empty or tombstoned slot, or merge into the live
     * entry of the key.
     */
    method Insert(word: string, meanings: string, language: string, originalLine: string)
      returns (outcome: InsertOutcome)
      requires Valid()
      modifies this, buckets
      ensures Valid()
      ensures var r := InsertInto(old(buckets[..]), word, meanings, language, originalLine);
              buckets[..] == r.slots && outcome == r.outcome && collisions == old(collisions) + r.probes
      ensures size == old(size) + (if outcome.Added? then 1 else 0)
    {
      ghost var slots := buckets[..];
      InsertKeepsInv(slots, word, meanings, language, originalLine);
      InsertCounts(slots, word, meanings, language, originalLine);
      if word == [] || meanings == [] || language == [] {
        return InvalidInsert;
      }
      var lowerWord := ToLower(word);
      var idx, full := ProbeForInsert(lowerWord);
      if full {
        return TableFull;
      }
      if buckets[idx].Empty? || buckets[idx].entry.deleted {
        var e := NewEntry(word, meanings, language, originalLine);
        buckets[idx] := Occupied(e);
        size := size + 1;
        outcome := Added(idx);
      } else {
        var e := AddTranslation(buckets[idx].entry, meanings, language);
        buckets[idx] := Occupied(e);
        outcome := Merged(idx);
      }
    }

    /** hashtable.cpp:165-167: insert with the line rebuilt as word, colon, meanings. */
    method AddWord(word: string, meanings: string, language: string) returns (outcome: InsertOutcome)
      requires Valid()
      modifies this, buckets
      ensures Valid()
      ensures var r := InsertInto(old(buckets[..]), word, meanings, language, word + ":" + meanings);
              buckets[..] == r.slots && outcome == r.outcome && collisions == old(collisions) + r.probes
      ensures size == old(size) + (if outcome.Added? then 1 else 0)
    {
      outcome := Insert(word, meanings, language, word + ":" + meanings);
    }

    /** hashtable.cpp:116-138: the live entry of the word with the slots compared, or the count of a failed walk. */
    method Find(word: string) returns (r: FindResult)
      requires Valid()
      ensures r == LookUp(buckets[..], word)
    {
      if word == [] {
        return InvalidWord;
      }
      var found, comparisons := Seek(ToLower(word));
      match found
      case Some(i) => r := Found(i, comparisons, buckets[i].entry);
      case None => r := NotFound(comparisons);
    }

    /** hashtable.cpp:141-162: tombstone the live entry of the word and decrement `size`. */
    method DelWord(word: string) returns (outcome: EditOutcome)
      requires Valid()
      modifies this, buckets
      ensures Valid()
      ensures var r := DeleteWordIn(old(buckets[..]), word);
              buckets[..] == r.slots && outcome == r.outcome
      ensures size == old(size) - (if outcome.Edited? then 1 else 0)
      ensures collisions == old(collisions)
    {
      ghost var slots := buckets[..];
      DeleteWordKeepsInv(slots, word);
      if word == [] {
        return InvalidInput;
      }
      var found, _ := Seek(ToLower(word));
      match found
      case None => outcome := WordNotFound;
      case Some(i) =>
        buckets[i] := Occupied(MarkDeleted(buckets[i].entry));
        size := size - 1;
        outcome := Edited(i);
    }

    /** hashtable.cpp:170-199: erase the first translation of the language from the live entry of the word. */
    method DelTranslation(word: string, language: string) returns (outcome: EditOutcome)
      requires Valid()
      modifies buckets
      ensures Valid()
      ensures var r := DeleteTranslationIn(old(buckets[..]), word, language);
              buckets[..] == r.slots && outcome == r.outcome
    {
      ghost var slots := buckets[..];
      ghost var r := DeleteTranslationIn(slots, word, language);
      DeleteTranslationKeepsInv(slots, word, language);
      if word == [] || language == [] {
        return InvalidInput;
      }
      var found, _ := Seek(ToLower(word));
      match found
      case None => outcome := WordNotFound;
      case Some(i) =>
        var e := RemoveTranslation(buckets[i].entry, language);
        match e
        case None => outcome := PartNotFound;
        case Some(e') =>
          buckets[i] := Occupied(e');
          assert buckets[..] == r.slots;
          outcome := Edited(i);
    }

    /** hashtable.cpp:202-241: erase the meaning from the first translation of the language that holds it. */
    method DelMeaning(word: string, meaning: string, language: string) returns (outcome: EditOutcome)
      requires Valid()
      modifies buckets
      ensures Valid()
      ensures var r := DeleteMeaningIn(old(buckets[..]), word, meaning, language);
              buckets[..] == r.slots && outcome == r.outcome
    {
      ghost var slots := buckets[..];
      ghost var r := DeleteMeaningIn(slots, word, meaning, language);
      DeleteMeaningKeepsInv(slots, word, meaning, language);
      if word == [] || meaning == [] || language == [] {
        return InvalidInput;
      }
      var found, _ := Seek(ToLower(word));
      match found
      case None => outcome := WordNotFound;
      case Some(i) =>
        var e := RemoveMeaning(buckets[i].entry, meaning, language);
        match e
        case None => outcome := PartNotFound;
        case Some(e') =>
          buckets[i] := Occupied(e');
          assert buckets[..] == r.slots;
          outcome := Edited(i);
    }

    /**
     * hashtable.cpp:244-280: the header, then every live entry's lines for the language in
     * slot order. Whether the file can be created is the parameter `writable`.
     */
    method ExportData(language: string, filePath: string, writable: bool) returns (r: ExportOutcome)
      requires Valid()
      ensures r == ExportFrom(buckets[..], language, filePath, writable)
    {
      if language == [] || filePath == [] {
        return BadExportInput;
      }
      if !writable {
        return CannotCreate;
      }
      var lines := [language];
      var count := 0;
      for i := 0 to capacity
        invariant lines == [language] + ExportLines(buckets[..i], language)
        invariant count == |lines| - 1
      {
        ExportLinesStep(buckets[..], i, language);
        assert buckets[..][..i] == buckets[..i] && buckets[..][..i + 1] == buckets[..i + 1];
        if buckets[i].Occupied? && !buckets[i].entry.deleted {
          var more := WriteEntry(buckets[i].entry, language);
          ConcatAssoc([language], ExportLines(buckets[..i], language), more);
          lines := lines + more;
          count := count + |more|;
        }
      }
      assert buckets[..capacity] == buckets[..];
      return Exported(lines, count);
    }

    /** hashtable.cpp:310-328: one line after the header: parse it and insert it when it has a word. */
    method ImportLine(line: string, language: string) returns (counted: bool)
      requires Valid()
      modifies this, buckets
      ensures Valid()
      ensures var step := ImportStep(old(buckets[..]), line, language);
              buckets[..] == step.slots && collisions == old(collisions) + step.probes
              && step.count == (if counted then 1 else 0)
    {
      match ParseLine(line)
      case None => counted := false;
      case Some(rec) =>
        if rec.word != [] {
          var _ := Insert(rec.word, rec.meanings, language, line);
          counted := true;
        } else {
          counted := false;
        }
    }

    /** hashtable.cpp:309-329: every line after the header, in order, counting those with a word. */
    method ImportLines(lines: seq<string>, language: string) returns (count: nat)
      requires Valid()
      modifies this, buckets
      ensures Valid()
      ensures var loaded := ImportAll(old(buckets[..]), lines, language);
              buckets[..] == loaded.slots && collisions == old(collisions) + loaded.probes
              && count == loaded.count
    {
      ghost var start := buckets[..];
      ghost var before := collisions;
      count := 0;
      for i := 0 to |lines|
        invariant Valid()
        invariant var loaded := ImportAll(start, lines[..i], language);
                  buckets[..] == loaded.slots && collisions == before + loaded.probes && count == loaded.count
      {
        assert lines[..i + 1] == lines[..i] + [lines[i]];
        ImportAllSnoc(start, lines[..i], lines[i], language);
        var counted := ImportLine(lines[i], language);
        if counted {
          count := count + 1;
        }
      }
      assert lines[..|lines|] == lines;
    }

    /**
     * hashtable.cpp:283-332: the file is `file` (None when it cannot be opened), as its
     * lines. Its first line is the language; every later line is parsed and, when it has
     * a word, inserted and counted.
     */
    method Import(path: string, file: Option<seq<string>>) returns (outcome: ImportOutcome)
      requires Valid()
      modifies this, buckets
      ensures Valid()
      ensures path == [] ==> outcome == BadPath
      ensures path != [] && file.None? ==> outcome == CannotOpen
      ensures path != [] && file == Some([]) ==> outcome == EmptyFile
      ensures path != [] && file.Some? && |file.value| > 0 && file.value[0] == [] ==> outcome == NoLanguage
      ensures !outcome.Imported? ==> buckets[..] == old(buckets[..]) && collisions == old(collisions)
      ensures path != [] && file.Some? && |file.value| > 0 && file.value[0] != [] ==>
                var loaded := ImportAll(old(buckets[..]), file.value[1..], file.value[0]);
                buckets[..] == loaded.slots && collisions == old(collisions) + loaded.probes
                && outcome == Imported(loaded.count)
    {
      if path == [] {
        return BadPath;
      }
      if file.None? {
        return CannotOpen;
      }
      var lines := file.value;
      if lines == [] {
        return EmptyFile;
      }
      var language := lines[0];
      if language == [] {
        return NoLanguage;
      }
      var count := ImportLines(lines[1..], language);
      outcome := Imported(count);
    }
  }
}
