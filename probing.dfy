/**
 * The hash table of hashtable.cpp as values: the bucket array is a sequence of slots, and
 * each operation is a function from the old slots to the new ones and its outcome. The
 * class in module HashTables runs the source's loops and is proved to compute these
 * functions; the lemmas here state what the operations promise.
 */
module Probing {
  import opened Wrappers
  import opened CaseFold
  import opened Dictionary
  import opened Erasure
  import opened LineFormat

  /** The capacity the constructor uses when it is given 0. */
  const DefaultCapacity: nat := 1171891

  /** A bucket: `nullptr`, or an entry that may carry the tombstone flag. */
  datatype Slot = Empty | Occupied(entry: Entry)

  /** The key an entry is compared by: `toLower(getWord())`. */
  function Key(e: Entry): (r: string)
    ensures |r| == |e.word| && IsLowered(r)
    ensures IsLowered(e.word) ==> r == e.word
  {
    ToLowerIsLowered(e.word);
    ToLower(e.word)
  }

  predicate Live(s: Slot) {
    s.Occupied? && !s.entry.deleted
  }

  predicate Tombstone(s: Slot) {
    s.Occupied? && s.entry.deleted
  }

  /** The slot holds the live entry of key `k`. */
  predicate LiveWith(s: Slot, k: string) {
    Live(s) && Key(s.entry) == k
  }

  /** hashtable.cpp:79: the insertion probe passes only a live entry of another key. */
  predicate BlocksInsert(s: Slot, k: string): (r: bool)
    ensures r <==> Live(s) && !LiveWith(s, k)
    ensures !r <==> s.Empty? || Tombstone(s) || LiveWith(s, k)
  {
    s.Occupied? && Key(s.entry) != k && !s.entry.deleted
  }

  /** hashtable.cpp:127-136: the lookup walk stops at an empty slot or at the live entry of the key. */
  predicate StopsLookup(s: Slot, k: string): (r: bool)
    ensures r ==> !BlocksInsert(s, k)
  {
    s.Empty? || LiveWith(s, k)
  }

  // ---------------------------------------------------------------------------------------
  // Hashing and the probe sequence

  /** The polynomial fold `h := (h * 31 + ch) % n` over the characters, from the left. */
  function Fold(s: string, n: nat): (r: nat)
    requires n > 0
    ensures r < n
  {
    if s == [] then 0 else (Fold(s[..|s| - 1], n) * 31 + s[|s| - 1] as int) % n
  }

  /** `hashCode`: 0 for the empty word, else the fold of the lowered word. */
  function Hash(word: string, n: nat): (r: nat)
    requires n > 0
    ensures r < n
    ensures ToLower(word) == [] ==> r == 0
  {
    var lw := ToLower(word);
    if lw == [] then 0 else Fold(lw, n)
  }

  /** Words equal up to case hash alike, and hashing the lowered word changes nothing. */
  lemma HashIgnoresCase(a: string, b: string, n: nat)
    requires n > 0
    ensures SameText(a, b) ==> Hash(a, n) == Hash(b, n)
    ensures Hash(ToLower(a), n) == Hash(a, n)
  {
    ToLowerIdempotent(a);
  }

  /** The `q`-th slot of the probe sequence from `h`: `(h + q) % n`, for q < n. */
  function Probe(h: nat, q: nat, n: nat): (r: nat)
    requires h < n && q < n
    ensures r < n
  {
    if h + q < n then h + q else h + q - n
  }

  /** How many steps the probe from `h` takes to reach slot `i`. */
  function Dist(h: nat, i: nat, n: nat): (r: nat)
    requires h < n && i < n
    ensures r < n && Probe(h, r, n) == i
    ensures forall q :: 0 <= q < n && Probe(h, q, n) == i ==> q == r
  {
    if i >= h then i - h else i + n - h
  }

  /** hashtable.cpp:80: one step `(idx + 1) % n` along the probe sequence. */
  lemma ProbeNext(h: nat, q: nat, n: nat)
    requires h < n && q + 1 < n
    ensures (Probe(h, q, n) + 1) % n == Probe(h, q + 1, n)
  {
    var i := Probe(h, q, n);
    if i + 1 == n {
      assert (i + 1) % n == 0;
    } else {
      assert (i + 1) % n == i + 1;
    }
  }

  /** After n steps the probe is back at its start, which is how the source detects a full loop. */
  lemma ProbeWraps(h: nat, q: nat, n: nat)
    requires h < n && q < n
    ensures (Probe(h, q, n) + 1) % n == h <==> q + 1 == n
  {
    var i := Probe(h, q, n);
    if i + 1 == n {
      assert (i + 1) % n == 0;
    } else {
      assert (i + 1) % n == i + 1;
    }
  }

  /** The first step at or after `q` where the insertion probe stops, or n if it never does. */
  function InsertStop(slots: seq<Slot>, k: string, h: nat, q: nat): (r: nat)
    requires h < |slots| && q <= |slots|
    ensures q <= r <= |slots|
    ensures r < |slots| ==> !BlocksInsert(slots[Probe(h, r, |slots|)], k)
    ensures forall j :: q <= j < r ==> BlocksInsert(slots[Probe(h, j, |slots|)], k)
    decreases |slots| - q
  {
    if q == |slots| then q
    else if !BlocksInsert(slots[Probe(h, q, |slots|)], k) then q
    else InsertStop(slots, k, h, q + 1)
  }

  /** The insertion probe, unstopped up to `q`, stops at `q` when that slot does not block it. */
  lemma InsertStopsAt(slots: seq<Slot>, k: string, h: nat, q: nat)
    requires h < |slots| && q <= |slots|
    requires q < |slots| ==> !BlocksInsert(slots[Probe(h, q, |slots|)], k)
    ensures InsertStop(slots, k, h, q) == q
  {
  }

  /** The first step at or after `q` where the lookup walk stops, or n if it never does. */
  function LookupStop(slots: seq<Slot>, k: string, h: nat, q: nat): (r: nat)
    requires h < |slots| && q <= |slots|
    ensures q <= r <= |slots|
    ensures r < |slots| ==> StopsLookup(slots[Probe(h, r, |slots|)], k)
    ensures forall j :: q <= j < r ==> !StopsLookup(slots[Probe(h, j, |slots|)], k)
    decreases |slots| - q
  {
    if q == |slots| then q
    else if StopsLookup(slots[Probe(h, q, |slots|)], k) then q
    else LookupStop(slots, k, h, q + 1)
  }

  // ---------------------------------------------------------------------------------------
  // Counting and invariants

  /** The number of live slots, which the table keeps in `size`. */
  function LiveCount(slots: seq<Slot>): (r: nat)
    ensures r <= |slots|
  {
    if slots == [] then 0
    else LiveCount(slots[..|slots| - 1]) + (if Live(slots[|slots| - 1]) then 1 else 0)
  }

  /** Writing one slot changes the live count by what that slot gains or loses. */
  lemma {:induction false} LiveCountUpdate(slots: seq<Slot>, i: nat, s: Slot)
    requires i < |slots|
    ensures LiveCount(slots[i := s]) ==
            LiveCount(slots) - (if Live(slots[i]) then 1 else 0) + (if Live(s) then 1 else 0)
  {
    var n := |slots|;
    var t := slots[i := s];
    assert t[..n - 1] == if i == n - 1 then slots[..n - 1] else slots[..n - 1][i := s];
    if i < n - 1 {
      LiveCountUpdate(slots[..n - 1], i, s);
    }
  }

  /** Where the lookup for the key of `e` starts. */
  function Home(e: Entry, n: nat): (r: nat)
    requires n > 0
    ensures r < n
  {
    Hash(Key(e), n)
  }

  /** The first `d` slots of the probe sequence from `h` are all occupied. */
  predicate PathOccupied(slots: seq<Slot>, h: nat, d: nat)
    requires h < |slots| && d <= |slots|
  {
    forall q :: 0 <= q < d ==> slots[Probe(h, q, |slots|)].Occupied?
  }

  /** An occupied slot can be reached from its home without crossing an empty slot. */
  predicate Reachable(slots: seq<Slot>, i: nat)
    requires i < |slots|
  {
    slots[i].Occupied? ==>
      var h := Home(slots[i].entry, |slots|);
      PathOccupied(slots, h, Dist(h, i, |slots|))
  }

  predicate ChainsIntact(slots: seq<Slot>) {
    forall i :: 0 <= i < |slots| ==> Reachable(slots, i)
  }

  /** What every operation keeps: probe chains unbroken and every entry well formed. */
  predicate EntriesOk(slots: seq<Slot>) {
    forall i :: 0 <= i < |slots| && slots[i].Occupied? ==> EntryOk(slots[i].entry)
  }

  predicate TableInv(slots: seq<Slot>) {
    |slots| > 0 && ChainsIntact(slots) && EntriesOk(slots)
  }

  /** At most one live entry per key. The source does not keep this; see InsertCanDuplicate. */
  predicate UniqueLive(slots: seq<Slot>) {
    forall i, j ::
      (0 <= i < |slots| && 0 <= j < |slots| && Live(slots[i]) && Live(slots[j])
       && Key(slots[i].entry) == Key(slots[j].entry)) ==> i == j
  }

  /** A table of empty slots, as the constructor leaves it. */
  predicate AllEmpty(slots: seq<Slot>) {
    forall i :: 0 <= i < |slots| ==> slots[i].Empty?
  }

  /** A fresh table is intact, holds nothing live and trivially one entry per key. */
  lemma {:induction false} EmptyTableFacts(slots: seq<Slot>)
    requires AllEmpty(slots)
    ensures |slots| > 0 ==> TableInv(slots)
    ensures LiveCount(slots) == 0 && UniqueLive(slots)
  {
    if slots != [] {
      EmptyTableFacts(slots[..|slots| - 1]);
    }
  }

  /** Occupying a slot keeps every chain, as long as the new entry is itself reachable there. */
  lemma ChainsAfterWrite(slots: seq<Slot>, i: nat, e: Entry)
    requires ChainsIntact(slots) && i < |slots|
    requires PathOccupied(slots, Home(e, |slots|), Dist(Home(e, |slots|), i, |slots|))
    ensures ChainsIntact(slots[i := Occupied(e)])
  {
    var n := |slots|;
    var t := slots[i := Occupied(e)];
    forall j | 0 <= j < n
      ensures Reachable(t, j)
    {
      if t[j].Occupied? {
        var h := Home(t[j].entry, n);
        forall q | 0 <= q < Dist(h, j, n)
          ensures t[Probe(h, q, n)].Occupied?
        {
          if Probe(h, q, n) != i {
            assert j != i ==> Reachable(slots, j);
          }
        }
      }
    }
  }

  /** The lookup for a key finds its live entry whenever there is one, in an intact table. */
  lemma LookupCompleteAt(slots: seq<Slot>, k: string, j: nat)
    requires TableInv(slots) && j < |slots| && LiveWith(slots[j], k)
    ensures var h := Hash(k, |slots|);
      var p := LookupStop(slots, k, h, 0);
      p < |slots| && LiveWith(slots[Probe(h, p, |slots|)], k)
  {
    var n := |slots|;
    var h := Hash(k, n);
    assert Home(slots[j].entry, n) == h;
    var d := Dist(h, j, n);
    assert Reachable(slots, j);
    var p := LookupStop(slots, k, h, 0);
    assert p <= d;
    if p < d {
      assert slots[Probe(h, p, n)].Occupied?;
    }
  }

  /** Writing an entry that is reachable where it is written, and well formed, keeps the table invariant. */
  lemma WriteKeepsInv(slots: seq<Slot>, i: nat, e: Entry)
    requires TableInv(slots) && i < |slots| && EntryOk(e)
    requires PathOccupied(slots, Home(e, |slots|), Dist(Home(e, |slots|), i, |slots|))
    ensures TableInv(slots[i := Occupied(e)])
  {
    ChainsAfterWrite(slots, i, e);
  }

  /** Replacing an entry by a well-formed one with the same word keeps the table invariant. */
  lemma RewriteKeepsInv(slots: seq<Slot>, i: nat, e: Entry)
    requires TableInv(slots) && i < |slots| && slots[i].Occupied?
    requires e.word == slots[i].entry.word && EntryOk(e)
    ensures TableInv(slots[i := Occupied(e)])
  {
    assert Reachable(slots, i);
    WriteKeepsInv(slots, i, e);
  }

  // ---------------------------------------------------------------------------------------
  // insert

  datatype InsertOutcome = InvalidInsert | TableFull | Added(index: nat) | Merged(index: nat)

  /** The slots after an insertion, its outcome, and the collisions it adds. */
  datatype Inserted = Inserted(slots: seq<Slot>, outcome: InsertOutcome, probes: nat)

  /**
   * What `insert` does: walk from the hash of the lowered word past live entries of other
   * keys; give up after a full loop; write a fresh entry over an empty or tombstoned slot,
   * or merge into the live entry of the same key. Every step of the walk is a collision.
   */
  function InsertInto(slots: seq<Slot>, word: string, meanings: string, language: string, line: string): (r: Inserted)
    requires |slots| > 0
    ensures |r.slots| == |slots|
    ensures r.outcome.InvalidInsert? <==> word == [] || meanings == [] || language == []
    ensures r.outcome.InvalidInsert? || r.outcome.TableFull? ==> r.slots == slots
    ensures r.outcome.InvalidInsert? ==> r.probes == 0
    ensures r.outcome.TableFull? ==> r.probes == |slots|
    ensures r.outcome.Added? || r.outcome.Merged? ==>
              var i := r.outcome.index;
              i < |slots| && r.probes < |slots| && r.slots == slots[i := r.slots[i]]
              && LiveWith(r.slots[i], ToLower(word))
              && r.probes == InsertStop(slots, ToLower(word), Hash(ToLower(word), |slots|), 0)
              && i == Probe(Hash(ToLower(word), |slots|), r.probes, |slots|)
    ensures r.outcome.Added? ==>
              (!Live(slots[r.outcome.index])
               && r.slots[r.outcome.index].entry == MakeEntry(word, meanings, language, line))
    ensures r.outcome.Merged? ==>
              (LiveWith(slots[r.outcome.index], ToLower(word))
               && r.slots[r.outcome.index].entry == WithTranslation(slots[r.outcome.index].entry, meanings, language))
  {
    var n := |slots|;
    if word == [] || meanings == [] || language == [] then Inserted(slots, InvalidInsert, 0)
    else
      var k := ToLower(word);
      var h := Hash(k, n);
      var p := InsertStop(slots, k, h, 0);
      if p == n then Inserted(slots, TableFull, n)
      else
        var i := Probe(h, p, n);
        ToLowerIdempotent(word);
        if slots[i].Empty? || slots[i].entry.deleted then
          Inserted(slots[i := Occupied(MakeEntry(word, meanings, language, line))], Added(i), p)
        else
          Inserted(slots[i := Occupied(WithTranslation(slots[i].entry, meanings, language))], Merged(i), p)
  }

  /** The table is full for a key exactly when every slot holds a live entry of another key. */
  lemma InsertFullIff(slots: seq<Slot>, word: string, meanings: string, language: string, line: string)
    requires |slots| > 0 && word != [] && meanings != [] && language != []
    ensures InsertInto(slots, word, meanings, language, line).outcome.TableFull? <==>
            forall i :: 0 <= i < |slots| ==> BlocksInsert(slots[i], ToLower(word))
  {
    var n := |slots|;
    var k := ToLower(word);
    var h := Hash(k, n);
    if InsertStop(slots, k, h, 0) == n {
      forall i | 0 <= i < n
        ensures BlocksInsert(slots[i], k)
      {
        assert slots[Probe(h, Dist(h, i, n), n)] == slots[i];
      }
    }
  }

  /** A key with no live entry is added, never merged, unless the table is full. */
  lemma InsertFreshKey(slots: seq<Slot>, word: string, meanings: string, language: string, line: string)
    requires |slots| > 0 && word != [] && meanings != [] && language != []
    requires forall j :: 0 <= j < |slots| ==> !LiveWith(slots[j], ToLower(word))
    ensures var r := InsertInto(slots, word, meanings, language, line);
            r.outcome.Added? || r.outcome.TableFull?
  {
  }

  /** `size` follows the live count: it grows by one exactly when a fresh entry is added. */
  lemma InsertCounts(slots: seq<Slot>, word: string, meanings: string, language: string, line: string)
    requires |slots| > 0
    ensures var r := InsertInto(slots, word, meanings, language, line);
            LiveCount(r.slots) == LiveCount(slots) + (if r.outcome.Added? then 1 else 0)
  {
    var r := InsertInto(slots, word, meanings, language, line);
    if r.outcome.Added? || r.outcome.Merged? {
      var i := r.outcome.index;
      LiveCountUpdate(slots, i, r.slots[i]);
      assert slots[i := r.slots[i]] == r.slots;
    }
  }

  /** Insertion keeps every probe chain intact and every entry well formed. */
  lemma InsertKeepsInv(slots: seq<Slot>, word: string, meanings: string, language: string, line: string)
    requires TableInv(slots)
    ensures TableInv(InsertInto(slots, word, meanings, language, line).slots)
  {
    var n := |slots|;
    var r := InsertInto(slots, word, meanings, language, line);
    if r.outcome.Added? {
      var k := ToLower(word);
      var h := Hash(k, n);
      var p := InsertStop(slots, k, h, 0);
      var i := r.outcome.index;
      var e := MakeEntry(word, meanings, language, line);
      ToLowerIdempotent(word);
      assert Home(e, n) == h;
      assert Dist(h, i, n) == p;
      WriteKeepsInv(slots, i, e);
      assert slots[i := Occupied(e)] == r.slots;
    } else if r.outcome.Merged? {
      var i := r.outcome.index;
      WithTranslationKeepsOk(slots[i].entry, meanings, language);
      RewriteKeepsInv(slots, i, r.slots[i].entry);
      assert slots[i := Occupied(r.slots[i].entry)] == r.slots;
    }
  }

  // ---------------------------------------------------------------------------------------
  // The lookup walk shared by find, delWord, delTranslation and delMeaning

  /** How many slots the walk for key `k` passes before it stops (n when it loops around). */
  function Walk(slots: seq<Slot>, k: string): (p: nat)
    requires |slots| > 0
    ensures p <= |slots|
  {
    LookupStop(slots, k, Hash(k, |slots|), 0)
  }

  /** The slot of the live entry the walk for `k` stops at, if it stops at one. */
  function Locate(slots: seq<Slot>, k: string): (r: Option<nat>)
    requires |slots| > 0
    ensures r.Some? ==> r.value < |slots| && LiveWith(slots[r.value], k)
    ensures r.Some? ==> Walk(slots, k) < |slots| && r.value == Probe(Hash(k, |slots|), Walk(slots, k), |slots|)
  {
    var n := |slots|;
    var h := Hash(k, n);
    var p := Walk(slots, k);
    if p < n && slots[Probe(h, p, n)].Occupied? then Some(Probe(h, p, n)) else None
  }

  /** A walk that has reached step `q` without stopping ends, at `q`, on the key's live entry. */
  lemma WalkEndsAtHit(slots: seq<Slot>, k: string, q: nat)
    requires |slots| > 0 && q < |slots|
    requires Walk(slots, k) == LookupStop(slots, k, Hash(k, |slots|), q)
    requires LiveWith(slots[Probe(Hash(k, |slots|), q, |slots|)], k)
    ensures Walk(slots, k) == q && Locate(slots, k) == Some(Probe(Hash(k, |slots|), q, |slots|))
  {
  }

  /** A walk that has reached step `q` without stopping ends, at `q`, on an empty slot. */
  lemma WalkEndsAtEmpty(slots: seq<Slot>, k: string, q: nat)
    requires |slots| > 0 && q < |slots|
    requires Walk(slots, k) == LookupStop(slots, k, Hash(k, |slots|), q)
    requires slots[Probe(Hash(k, |slots|), q, |slots|)].Empty?
    ensures Walk(slots, k) == q && Locate(slots, k) == None
  {
  }

  /** A walk that has gone once round the table finds nothing. */
  lemma WalkEndsAtWrap(slots: seq<Slot>, k: string)
    requires |slots| > 0
    requires Walk(slots, k) == LookupStop(slots, k, Hash(k, |slots|), |slots|)
    ensures Walk(slots, k) == |slots| && Locate(slots, k) == None
  {
  }

  /** In an intact table the walk finds the key exactly when a live entry holds it. */
  lemma LocateComplete(slots: seq<Slot>, k: string)
    requires TableInv(slots)
    ensures Locate(slots, k).Some? <==> exists j :: 0 <= j < |slots| && LiveWith(slots[j], k)
  {
    if j :| 0 <= j < |slots| && LiveWith(slots[j], k) {
      LookupCompleteAt(slots, k, j);
    }
  }

  /** With at most one live entry per key, the walk finds exactly that entry. */
  lemma LocateUnique(slots: seq<Slot>, k: string, j: nat)
    requires TableInv(slots) && UniqueLive(slots) && j < |slots| && LiveWith(slots[j], k)
    ensures Locate(slots, k) == Some(j)
  {
    LocateComplete(slots, k);
  }

  /** Overwriting the found entry by a live one of the same key leaves the walk as it was. */
  lemma LocateAfterRewrite(slots: seq<Slot>, k: string, e: Entry)
    requires |slots| > 0 && Locate(slots, k).Some?
    requires Key(e) == k && !e.deleted
    ensures var i := Locate(slots, k).value;
            var t := slots[i := Occupied(e)];
            Walk(t, k) == Walk(slots, k) && Locate(t, k) == Some(i)
  {
    var n := |slots|;
    var h := Hash(k, n);
    var p := Walk(slots, k);
    var i := Probe(h, p, n);
    var t := slots[i := Occupied(e)];
    forall q | 0 <= q < p
      ensures !StopsLookup(t[Probe(h, q, n)], k)
    {
      assert Probe(h, q, n) != i;
    }
    assert StopsLookup(t[Probe(h, p, n)], k);
    assert Walk(t, k) == p;
  }

  // ---------------------------------------------------------------------------------------
  // find

  datatype FindResult = InvalidWord | NotFound(comparisons: nat) | Found(index: nat, comparisons: nat, entry: Entry)

  /**
   * What `find` reports: the live entry of the lowered word with the number of slots it
   * compared (including the hit), or the number of slots compared before giving up.
   */
  function LookUp(slots: seq<Slot>, word: string): (r: FindResult)
    requires |slots| > 0
    ensures r.InvalidWord? <==> word == []
    ensures r.Found? ==> r.index < |slots| && slots[r.index] == Occupied(r.entry)
                         && LiveWith(slots[r.index], ToLower(word)) && 1 <= r.comparisons <= |slots|
    ensures r.NotFound? ==> r.comparisons <= |slots|
    ensures word != [] ==> (r.Found? <==> Locate(slots, ToLower(word)).Some?)
    ensures r.Found? ==> Locate(slots, ToLower(word)) == Some(r.index) && r.comparisons == Walk(slots, ToLower(word)) + 1
    ensures r.NotFound? ==> r.comparisons == Walk(slots, ToLower(word))
  {
    if word == [] then InvalidWord
    else
      var k := ToLower(word);
      match Locate(slots, k)
      case Some(i) => Found(i, Walk(slots, k) + 1, slots[i].entry)
      case None => NotFound(Walk(slots, k))
  }

  /** In an intact table `find` succeeds exactly when a live entry has the word, in any case. */
  lemma LookUpComplete(slots: seq<Slot>, word: string)
    requires TableInv(slots) && word != []
    ensures LookUp(slots, word).Found? <==>
            exists j :: 0 <= j < |slots| && LiveWith(slots[j], ToLower(word))
  {
    LocateComplete(slots, ToLower(word));
  }

  /** Writing the live entry of `k` where its insertion probe stopped makes the walk for `k` stop there. */
  lemma WalkAfterWrite(slots: seq<Slot>, k: string, p: nat, s: Slot)
    requires |slots| > 0 && p < |slots| && LiveWith(s, k)
    requires forall q :: 0 <= q < p ==> BlocksInsert(slots[Probe(Hash(k, |slots|), q, |slots|)], k)
    ensures var i := Probe(Hash(k, |slots|), p, |slots|);
            Walk(slots[i := s], k) == p && Locate(slots[i := s], k) == Some(i)
  {
    var n := |slots|;
    var h := Hash(k, n);
    var i := Probe(h, p, n);
    var t := slots[i := s];
    forall q | 0 <= q < p
      ensures !StopsLookup(t[Probe(h, q, n)], k)
    {
      assert Probe(h, q, n) != i;
    }
    assert StopsLookup(t[i], k);
    assert Walk(t, k) == p;
  }

  /**
   * Right after an insertion that added or merged, `find` with the word in any case finds
   * that slot, comparing one slot more than the insertion counted as collisions.
   */
  lemma InsertThenFind(slots: seq<Slot>, word: string, meanings: string, language: string, line: string, query: string)
    requires |slots| > 0 && SameText(query, word)
    ensures var r := InsertInto(slots, word, meanings, language, line);
            r.outcome.Added? || r.outcome.Merged? ==>
              LookUp(r.slots, query) == Found(r.outcome.index, r.probes + 1, r.slots[r.outcome.index].entry)
  {
    var r := InsertInto(slots, word, meanings, language, line);
    if r.outcome.Added? || r.outcome.Merged? {
      var k := ToLower(word);
      WalkAfterWrite(slots, k, r.probes, r.slots[r.outcome.index]);
    }
  }

  /** An entry sits closer to its home than the first empty slot of the probe sequence from there. */
  lemma ChainCovers(slots: seq<Slot>, j: nat, p: nat)
    requires TableInv(slots) && j < |slots| && slots[j].Occupied? && p < |slots|
    requires slots[Probe(Home(slots[j].entry, |slots|), p, |slots|)].Empty?
    ensures Dist(Home(slots[j].entry, |slots|), j, |slots|) < p
  {
    var h := Home(slots[j].entry, |slots|);
    assert Reachable(slots, j);
    assert Probe(h, p, |slots|) != j;
  }

  /** A walk that reaches an empty slot after passing only other keys proves the key absent. */
  lemma NoLiveBehindEmpty(slots: seq<Slot>, k: string, p: nat)
    requires TableInv(slots) && p < |slots|
    requires slots[Probe(Hash(k, |slots|), p, |slots|)].Empty?
    requires forall q :: 0 <= q < p ==> BlocksInsert(slots[Probe(Hash(k, |slots|), q, |slots|)], k)
    ensures forall j :: 0 <= j < |slots| ==> !LiveWith(slots[j], k)
  {
    var n := |slots|;
    var h := Hash(k, n);
    forall j | 0 <= j < n
      ensures !LiveWith(slots[j], k)
    {
      if slots[j].Occupied? && Home(slots[j].entry, n) == h {
        ChainCovers(slots, j, p);
        assert BlocksInsert(slots[Probe(h, Dist(h, j, n), n)], k);
      }
    }
  }

  /** Writing a slot keeps one live entry per key when no other slot holds the written key live. */
  lemma UniqueAfterWrite(slots: seq<Slot>, i: nat, s: Slot)
    requires UniqueLive(slots) && i < |slots|
    requires Live(s) ==> forall j :: 0 <= j < |slots| && j != i ==> !LiveWith(slots[j], Key(s.entry))
    ensures UniqueLive(slots[i := s])
  {
    var t := slots[i := s];
    forall a, b | 0 <= a < |t| && 0 <= b < |t| && Live(t[a]) && Live(t[b]) && Key(t[a].entry) == Key(t[b].entry)
      ensures a == b
    {
      if a != i && b != i {
        assert t[a] == slots[a] && t[b] == slots[b];
      }
    }
  }

  /**
   * Insertion keeps at most one live entry per key, except when it reuses a tombstone: a
   * live entry of the same key may then sit further along the chain.
   */
  lemma InsertKeepsUnique(slots: seq<Slot>, word: string, meanings: string, language: string, line: string)
    requires TableInv(slots) && UniqueLive(slots)
    ensures var r := InsertInto(slots, word, meanings, language, line);
            !(r.outcome.Added? && Tombstone(slots[r.outcome.index])) ==> UniqueLive(r.slots)
  {
    var n := |slots|;
    var r := InsertInto(slots, word, meanings, language, line);
    if r.outcome.Added? && slots[r.outcome.index].Empty? {
      var k := ToLower(word);
      var p := r.probes;
      assert p == InsertStop(slots, k, Hash(k, n), 0);
      NoLiveBehindEmpty(slots, k, p);
      UniqueAfterWrite(slots, r.outcome.index, r.slots[r.outcome.index]);
      assert slots[r.outcome.index := r.slots[r.outcome.index]] == r.slots;
    } else if r.outcome.Merged? {
      var i := r.outcome.index;
      UniqueAfterWrite(slots, i, r.slots[i]);
      assert slots[i := r.slots[i]] == r.slots;
    }
  }

  /**
   * The exception is real: with "a" live in slot 0 and a tombstone in slot 1, where "a"
   * hashes in a table of two slots, inserting "A" fills the tombstone and leaves two live
   * entries for the key "a".
   */
  lemma InsertCanDuplicate()
    ensures var slots := [Occupied(MakeEntry("a", "m", "L", "a:m")),
                          Occupied(MarkDeleted(MakeEntry("x", "m", "L", "x:m")))];
            var r := InsertInto(slots, "A", "m", "L", "A:m");
            TableInv(slots) && UniqueLive(slots) && r.outcome == Added(1) && !UniqueLive(r.slots)
  {
    var slots := [Occupied(MakeEntry("a", "m", "L", "a:m")),
                  Occupied(MarkDeleted(MakeEntry("x", "m", "L", "x:m")))];
    DuplicateTable(slots);
    var r := InsertInto(slots, "A", "m", "L", "A:m");
    assert InsertStop(slots, "a", 1, 0) == 0;
    assert r.outcome == Added(1);
    assert LiveWith(r.slots[0], "a") && LiveWith(r.slots[1], "a");
  }

  /**
   * The table of InsertCanDuplicate: the live "a" sits in bucket 0, reached from its home,
   * bucket 1, after a wrap; bucket 1 holds the tombstone of "x".
   */
  lemma DuplicateTable(slots: seq<Slot>)
    requires slots == [Occupied(MakeEntry("a", "m", "L", "a:m")),
                       Occupied(MarkDeleted(MakeEntry("x", "m", "L", "x:m")))]
    ensures TableInv(slots) && UniqueLive(slots)
    ensures ToLower("A") == "a" && Hash("a", 2) == 1
    ensures LiveWith(slots[0], "a") && Tombstone(slots[1])
  {
    assert LowerChar('a') == 'a' && LowerChar('x') == 'x' && LowerChar('A') == 'a';
    assert ToLower("a") == "a" && ToLower("x") == "x" && ToLower("A") == "a";
    assert Fold("a", 2) == 1 by {
      assert "a"[..0] == [];
    }
    assert Fold("x", 2) == 0 by {
      assert "x"[..0] == [];
    }
    assert Hash("a", 2) == 1 && Hash("x", 2) == 0;
    assert slots[0].entry.word == "a" && slots[1].entry.word == "x";
    assert Reachable(slots, 0) && Reachable(slots, 1);
  }

  // ---------------------------------------------------------------------------------------
  // delWord, delTranslation, delMeaning

  datatype EditOutcome = InvalidInput | WordNotFound | PartNotFound | Edited(index: nat)

  /** The slots after an edit and its outcome. */
  datatype Edit = Edit(slots: seq<Slot>, outcome: EditOutcome)

  /** What `delWord` does: tombstone the live entry the walk finds; nothing else changes. */
  function DeleteWordIn(slots: seq<Slot>, word: string): (r: Edit)
    requires |slots| > 0
    ensures |r.slots| == |slots| && !r.outcome.PartNotFound?
    ensures r.outcome.InvalidInput? <==> word == []
    ensures !r.outcome.Edited? ==> r.slots == slots
    ensures r.outcome.Edited? ==>
              var i := r.outcome.index;
              i < |slots| && LiveWith(slots[i], ToLower(word))
              && r.slots == slots[i := Occupied(MarkDeleted(slots[i].entry))]
    ensures word != [] ==> (r.outcome.WordNotFound? <==> Locate(slots, ToLower(word)).None?)
    ensures r.outcome.Edited? ==> Locate(slots, ToLower(word)) == Some(r.outcome.index)
  {
    if word == [] then Edit(slots, InvalidInput)
    else match Locate(slots, ToLower(word))
      case None => Edit(slots, WordNotFound)
      case Some(i) => Edit(slots[i := Occupied(MarkDeleted(slots[i].entry))], Edited(i))
  }

  /** What `delTranslation` does: erase the first translation of the language from the found entry. */
  function DeleteTranslationIn(slots: seq<Slot>, word: string, language: string): (r: Edit)
    requires |slots| > 0
    ensures |r.slots| == |slots|
    ensures r.outcome.InvalidInput? <==> word == [] || language == []
    ensures !r.outcome.Edited? ==> r.slots == slots
    ensures r.outcome.PartNotFound? ==>
              exists i :: 0 <= i < |slots| && LiveWith(slots[i], ToLower(word))
                          && !HasLanguage(slots[i].entry.translations, language)
    ensures r.outcome.Edited? ==>
              var i := r.outcome.index;
              i < |slots| && LiveWith(slots[i], ToLower(word))
              && WithoutLanguage(slots[i].entry, language).Some?
              && r.slots == slots[i := Occupied(WithoutLanguage(slots[i].entry, language).value)]
    ensures word != [] && language != [] ==> (r.outcome.WordNotFound? <==> Locate(slots, ToLower(word)).None?)
    ensures r.outcome.PartNotFound? ==>
              Locate(slots, ToLower(word)).Some?
              && WithoutLanguage(slots[Locate(slots, ToLower(word)).value].entry, language).None?
    ensures r.outcome.Edited? ==> Locate(slots, ToLower(word)) == Some(r.outcome.index)
  {
    if word == [] || language == [] then Edit(slots, InvalidInput)
    else match Locate(slots, ToLower(word))
      case None => Edit(slots, WordNotFound)
      case Some(i) =>
        match WithoutLanguage(slots[i].entry, language)
        case None => Edit(slots, PartNotFound)
        case Some(e) => Edit(slots[i := Occupied(e)], Edited(i))
  }

  /** What `delMeaning` does: erase the meaning from the first translation of the language holding it. */
  function DeleteMeaningIn(slots: seq<Slot>, word: string, meaning: string, language: string): (r: Edit)
    requires |slots| > 0
    ensures |r.slots| == |slots|
    ensures r.outcome.InvalidInput? <==> word == [] || meaning == [] || language == []
    ensures !r.outcome.Edited? ==> r.slots == slots
    ensures r.outcome.PartNotFound? ==>
              exists i :: 0 <= i < |slots| && LiveWith(slots[i], ToLower(word))
                          && WithoutMeaning(slots[i].entry, meaning, language).None?
    ensures r.outcome.Edited? ==>
              var i := r.outcome.index;
              i < |slots| && LiveWith(slots[i], ToLower(word))
              && WithoutMeaning(slots[i].entry, meaning, language).Some?
              && r.slots == slots[i := Occupied(WithoutMeaning(slots[i].entry, meaning, language).value)]
    ensures word != [] && meaning != [] && language != [] ==>
              (r.outcome.WordNotFound? <==> Locate(slots, ToLower(word)).None?)
    ensures r.outcome.PartNotFound? ==>
              Locate(slots, ToLower(word)).Some?
              && WithoutMeaning(slots[Locate(slots, ToLower(word)).value].entry, meaning, language).None?
    ensures r.outcome.Edited? ==> Locate(slots, ToLower(word)) == Some(r.outcome.index)
  {
    if word == [] || meaning == [] || language == [] then Edit(slots, InvalidInput)
    else match Locate(slots, ToLower(word))
      case None => Edit(slots, WordNotFound)
      case Some(i) =>
        match WithoutMeaning(slots[i].entry, meaning, language)
        case None => Edit(slots, PartNotFound)
        case Some(e) => Edit(slots[i := Occupied(e)], Edited(i))
  }

  /** In an intact table `delWord` succeeds exactly when a live entry holds the word, in any case. */
  lemma DeleteWordComplete(slots: seq<Slot>, word: string)
    requires TableInv(slots) && word != []
    ensures DeleteWordIn(slots, word).outcome.Edited? <==>
            exists j :: 0 <= j < |slots| && LiveWith(slots[j], ToLower(word))
  {
    LocateComplete(slots, ToLower(word));
  }

  /** `delWord` keeps the table invariant and lowers the live count by one exactly when it succeeds. */
  lemma DeleteWordKeepsInv(slots: seq<Slot>, word: string)
    requires TableInv(slots)
    ensures var r := DeleteWordIn(slots, word);
            TableInv(r.slots) && LiveCount(r.slots) == LiveCount(slots) - (if r.outcome.Edited? then 1 else 0)
  {
    var r := DeleteWordIn(slots, word);
    if r.outcome.Edited? {
      var i := r.outcome.index;
      RewriteKeepsInv(slots, i, MarkDeleted(slots[i].entry));
      LiveCountUpdate(slots, i, r.slots[i]);
    }
  }

  /** `delTranslation` keeps the table invariant and the live count; the entry it edits stays live. */
  lemma DeleteTranslationKeepsInv(slots: seq<Slot>, word: string, language: string)
    requires TableInv(slots)
    ensures var r := DeleteTranslationIn(slots, word, language);
            TableInv(r.slots) && LiveCount(r.slots) == LiveCount(slots)
            && (r.outcome.Edited? ==> LiveWith(r.slots[r.outcome.index], ToLower(word)))
  {
    var r := DeleteTranslationIn(slots, word, language);
    if r.outcome.Edited? {
      var i := r.outcome.index;
      RewriteKeepsInv(slots, i, r.slots[i].entry);
      LiveCountUpdate(slots, i, r.slots[i]);
    }
  }

  /** `delMeaning` keeps the table invariant and the live count; the entry it edits stays live. */
  lemma DeleteMeaningKeepsInv(slots: seq<Slot>, word: string, meaning: string, language: string)
    requires TableInv(slots)
    ensures var r := DeleteMeaningIn(slots, word, meaning, language);
            TableInv(r.slots) && LiveCount(r.slots) == LiveCount(slots)
            && (r.outcome.Edited? ==> LiveWith(r.slots[r.outcome.index], ToLower(word)))
  {
    var r := DeleteMeaningIn(slots, word, meaning, language);
    if r.outcome.Edited? {
      var i := r.outcome.index;
      RewriteKeepsInv(slots, i, r.slots[i].entry);
      LiveCountUpdate(slots, i, r.slots[i]);
    }
  }

  /**
   * With one live entry per key, a deleted word is gone: `find` no longer sees it in any
   * case and a second `delWord` reports it not found.
   */
  lemma DeleteWordThenFind(slots: seq<Slot>, word: string, query: string)
    requires TableInv(slots) && UniqueLive(slots) && SameText(query, word)
    ensures var r := DeleteWordIn(slots, word);
            r.outcome.Edited? ==>
              UniqueLive(r.slots) && LookUp(r.slots, query).NotFound?
              && DeleteWordIn(r.slots, query).outcome == WordNotFound
  {
    var r := DeleteWordIn(slots, word);
    if r.outcome.Edited? {
      var i := r.outcome.index;
      var k := ToLower(word);
      assert |query| == |ToLower(query)| == |k| == |word|;
      assert forall j :: 0 <= j < |slots| ==> !LiveWith(r.slots[j], k);
      assert Locate(r.slots, k).None?;
    }
  }

  /** Overwriting the found entry by a live one of the same key: `find` reports the new entry, same slot, same count. */
  lemma FindAfterRewrite(slots: seq<Slot>, word: string, query: string, e: Entry)
    requires |slots| > 0 && word != [] && SameText(query, word) && Locate(slots, ToLower(word)).Some?
    requires Key(e) == ToLower(word) && !e.deleted
    ensures var i := Locate(slots, ToLower(word)).value;
            LookUp(slots, query).Found?
            && LookUp(slots[i := Occupied(e)], query) == LookUp(slots, query).(entry := e)
  {
    var k := ToLower(word);
    assert |query| == |ToLower(query)| == |k| == |word|;
    LocateAfterRewrite(slots, k, e);
  }

  /** After `delTranslation`, `find` still finds the entry where it was, now without that translation. */
  lemma DeleteTranslationThenFind(slots: seq<Slot>, word: string, language: string, query: string)
    requires |slots| > 0 && SameText(query, word)
    ensures var r := DeleteTranslationIn(slots, word, language);
            r.outcome.Edited? ==>
              LookUp(slots, query).Found?
              && LookUp(r.slots, query) == LookUp(slots, query).(entry := r.slots[r.outcome.index].entry)
  {
    var r := DeleteTranslationIn(slots, word, language);
    if r.outcome.Edited? {
      FindAfterRewrite(slots, word, query, r.slots[r.outcome.index].entry);
    }
  }

  /** After `delMeaning`, `find` still finds the entry where it was, now without that meaning. */
  lemma DeleteMeaningThenFind(slots: seq<Slot>, word: string, meaning: string, language: string, query: string)
    requires |slots| > 0 && SameText(query, word)
    ensures var r := DeleteMeaningIn(slots, word, meaning, language);
            r.outcome.Edited? ==>
              LookUp(slots, query).Found?
              && LookUp(r.slots, query) == LookUp(slots, query).(entry := r.slots[r.outcome.index].entry)
  {
    var r := DeleteMeaningIn(slots, word, meaning, language);
    if r.outcome.Edited? {
      FindAfterRewrite(slots, word, query, r.slots[r.outcome.index].entry);
    }
  }

  // ---------------------------------------------------------------------------------------
  // exportData

  /** The lines written for one entry: one per translation of the language, in order. */
  function EntryLines(word: string, ts: seq<Translation>, language: string): (r: seq<string>)
    ensures |r| <= |ts|
  {
    if ts == [] then []
    else
      var t := ts[|ts| - 1];
      EntryLines(word, ts[..|ts| - 1], language)
        + (if SameText(t.language, language) then [ExportLine(word, t.meanings)] else [])
  }

  /** The lines written after the header: every live entry in slot order. */
  function ExportLines(slots: seq<Slot>, language: string): (r: seq<string>)
    ensures (forall i :: 0 <= i < |slots| ==> !Live(slots[i])) ==> r == []
  {
    if slots == [] then []
    else
      var last := slots[|slots| - 1];
      ExportLines(slots[..|slots| - 1], language)
        + (if Live(last) then EntryLines(last.entry.originalWord, last.entry.translations, language) else [])
  }

  /** One more slot adds that slot's lines at the end. */
  lemma ExportLinesStep(slots: seq<Slot>, i: nat, language: string)
    requires i < |slots|
    ensures ExportLines(slots[..i + 1], language)
            == ExportLines(slots[..i], language)
               + (if Live(slots[i]) then EntryLines(slots[i].entry.originalWord, slots[i].entry.translations, language) else [])
  {
    assert slots[..i + 1][..i] == slots[..i];
  }

  /** How many live entries hold a translation of the language. */
  function Holders(slots: seq<Slot>, language: string): (r: nat)
    ensures r <= LiveCount(slots)
  {
    if slots == [] then 0
    else
      var last := slots[|slots| - 1];
      Holders(slots[..|slots| - 1], language)
        + (if Live(last) && HasLanguage(last.entry.translations, language) then 1 else 0)
  }

  /** With one translation per language, an entry yields one line if it has the language, else none. */
  lemma {:induction false} EntryLinesCount(word: string, ts: seq<Translation>, language: string)
    requires LanguagesDistinct(ts)
    ensures |EntryLines(word, ts, language)| == if HasLanguage(ts, language) then 1 else 0
  {
    if ts != [] {
      var m := |ts| - 1;
      var init := ts[..m];
      assert LanguagesDistinct(init);
      EntryLinesCount(word, init, language);
      if HasLanguage(ts, language) && !SameText(ts[m].language, language) {
        var j :| 0 <= j < |ts| && SameText(ts[j].language, language);
        assert init[j] == ts[j];
      }
    }
  }

  /** The count `exportData` reports is the number of live entries holding the language. */
  lemma {:induction false} ExportCount(slots: seq<Slot>, language: string)
    requires EntriesOk(slots)
    ensures |ExportLines(slots, language)| == Holders(slots, language)
  {
    if slots != [] {
      var m := |slots| - 1;
      assert EntriesOk(slots[..m]);
      ExportCount(slots[..m], language);
      if Live(slots[m]) {
        EntryLinesCount(slots[m].entry.originalWord, slots[m].entry.translations, language);
      }
    }
  }

  /** Every line of an entry is the word and a translation of the language, joined as the file format says. */
  lemma {:induction false} EntryLinesFrom(word: string, ts: seq<Translation>, language: string, x: nat)
    requires x < |EntryLines(word, ts, language)|
    ensures exists j :: 0 <= j < |ts| && SameText(ts[j].language, language)
                        && EntryLines(word, ts, language)[x] == ExportLine(word, ts[j].meanings)
  {
    var m := |ts| - 1;
    var init := EntryLines(word, ts[..m], language);
    if x < |init| {
      EntryLinesFrom(word, ts[..m], language, x);
      var j :| 0 <= j < m && SameText(ts[..m][j].language, language)
               && init[x] == ExportLine(word, ts[..m][j].meanings);
      assert ts[j] == ts[..m][j];
    } else {
      assert EntryLines(word, ts, language)[x] == ExportLine(word, ts[m].meanings);
    }
  }

  /** Every exported line comes from a live entry and one of its translations of the language. */
  lemma {:induction false} ExportLinesFrom(slots: seq<Slot>, language: string, x: nat)
    requires x < |ExportLines(slots, language)|
    ensures exists i, j :: 0 <= i < |slots| && Live(slots[i]) && 0 <= j < |slots[i].entry.translations|
                           && SameText(slots[i].entry.translations[j].language, language)
                           && ExportLines(slots, language)[x]
                              == ExportLine(slots[i].entry.originalWord, slots[i].entry.translations[j].meanings)
  {
    var m := |slots| - 1;
    var init := ExportLines(slots[..m], language);
    if x < |init| {
      ExportLinesFrom(slots[..m], language, x);
      var i, j :| 0 <= i < m && Live(slots[..m][i]) && 0 <= j < |slots[..m][i].entry.translations|
                  && SameText(slots[..m][i].entry.translations[j].language, language)
                  && init[x] == ExportLine(slots[..m][i].entry.originalWord, slots[..m][i].entry.translations[j].meanings);
      assert slots[i] == slots[..m][i];
    } else {
      var e := slots[m].entry;
      EntryLinesFrom(e.originalWord, e.translations, language, x - |init|);
    }
  }

  datatype ExportOutcome = BadExportInput | CannotCreate | Exported(lines: seq<string>, count: nat)

  /**
   * What `exportData` produces, with the file's creation reduced to `writable`: the
   * language as given as a header, then the lines of every live entry; the count is the
   * number of lines after the header.
   */
  function ExportFrom(slots: seq<Slot>, language: string, path: string, writable: bool): (r: ExportOutcome)
    ensures r.BadExportInput? <==> language == [] || path == []
    ensures r.CannotCreate? <==> language != [] && path != [] && !writable
    ensures r.Exported? ==> |r.lines| >= 1 && r.lines[0] == language && r.count == |r.lines| - 1
    ensures r.Exported? ==> r.lines[1..] == ExportLines(slots, language)
  {
    if language == [] || path == [] then BadExportInput
    else if !writable then CannotCreate
    else
      var body := ExportLines(slots, language);
      assert ([language] + body)[1..] == body;
      Exported([language] + body, |body|)
  }

  // ---------------------------------------------------------------------------------------
  // import

  /** The slots after importing some lines, the collisions the inserts added, and the lines counted. */
  datatype Loaded = Loaded(slots: seq<Slot>, probes: nat, count: nat)

  /** One line of an imported file: skipped unless it parses with a non-empty word, else inserted and counted. */
  function ImportStep(slots: seq<Slot>, line: string, language: string): (r: Loaded)
    requires |slots| > 0
    ensures |r.slots| == |slots|
    ensures r.count == (if ParseLine(line).Some? && ParseLine(line).value.word != [] then 1 else 0)
  {
    match ParseLine(line)
    case None => Loaded(slots, 0, 0)
    case Some(rec) =>
      if rec.word == [] then Loaded(slots, 0, 0)
      else
        var ins := InsertInto(slots, rec.word, rec.meanings, language, line);
        Loaded(ins.slots, ins.probes, 1)
  }

  /** A skipped line changes nothing; a counted line is `insert` of its trimmed word and meanings. */
  lemma ImportStepEffect(slots: seq<Slot>, line: string, language: string)
    requires |slots| > 0
    ensures var r := ImportStep(slots, line, language);
            r.count == 0 ==> r.slots == slots && r.probes == 0
    ensures var r := ImportStep(slots, line, language);
            r.count == 1 ==>
              var rec := ParseLine(line).value;
              var ins := InsertInto(slots, rec.word, rec.meanings, language, line);
              r.slots == ins.slots && r.probes == ins.probes
  {
  }

  /** The lines after the header, in order. */
  function ImportAll(slots: seq<Slot>, lines: seq<string>, language: string): (r: Loaded)
    requires |slots| > 0
    ensures |r.slots| == |slots| && r.count <= |lines|
    decreases |lines|
  {
    if lines == [] then Loaded(slots, 0, 0)
    else
      var prev := ImportAll(slots, lines[..|lines| - 1], language);
      var step := ImportStep(prev.slots, lines[|lines| - 1], language);
      Loaded(step.slots, prev.probes + step.probes, prev.count + step.count)
  }

  /** Importing one more line is one more step after the earlier ones. */
  lemma ImportAllSnoc(slots: seq<Slot>, lines: seq<string>, line: string, language: string)
    requires |slots| > 0
    ensures var prev := ImportAll(slots, lines, language);
            var step := ImportStep(prev.slots, line, language);
            ImportAll(slots, lines + [line], language)
              == Loaded(step.slots, prev.probes + step.probes, prev.count + step.count)
  {
    assert (lines + [line])[..|lines|] == lines;
  }

  /** Importing keeps the table invariant; the live count grows by at most the lines counted. */
  lemma {:induction false} ImportKeepsInv(slots: seq<Slot>, lines: seq<string>, language: string)
    requires TableInv(slots)
    ensures var r := ImportAll(slots, lines, language);
            TableInv(r.slots) && LiveCount(slots) <= LiveCount(r.slots) <= LiveCount(slots) + r.count
  {
    if lines != [] {
      var m := |lines| - 1;
      ImportKeepsInv(slots, lines[..m], language);
      var acc := ImportAll(slots, lines[..m], language);
      match ParseLine(lines[m])
      case None =>
      case Some(rec) =>
        if rec.word != [] {
          InsertKeepsInv(acc.slots, rec.word, rec.meanings, language, lines[m]);
          InsertCounts(acc.slots, rec.word, rec.meanings, language, lines[m]);
        }
    }
  }

  /** A line with a word but no meanings is counted although the insert rejects it. */
  lemma ImportCountsRejectedLine(slots: seq<Slot>, language: string)
    requires |slots| > 0
    ensures ImportAll(slots, ["w:"], language) == Loaded(slots, 0, 1)
  {
    assert ["w:"][..0] == [];
    assert "w:"[..1] == "w" && "w:"[2..] == [];
    assert Trimmed("w") && Trimmed([]);
    assert ParseLine("w:") == Some(Record("w", []));
  }

  /**
   * An export and import of a whole file does not give the table back. A translation built
   * from ";" alone holds the single empty meaning and is written as the bare line "w:";
   * import counts that line, but the insert rejects its empty meanings, so the entry is lost.
   */
  lemma SeparatorsOnlyLostOnReimport()
    ensures var e := MakeEntry("w", ";", "L", "w:;");
            EntryLines(e.originalWord, e.translations, "L") == ["w:"]
            && ImportAll([Empty], ["w:"], "L") == Loaded([Empty], 0, 1)
  {
    MeaningsOfOnlySeparators(";");
    var e := MakeEntry("w", ";", "L", "w:;");
    assert e.translations == [Translation("L", [[]])];
    assert e.translations[..0] == [];
    assert ExportLine("w", [[]]) == "w:";
    ImportCountsRejectedLine([Empty], "L");
  }

  /**
   * A meaning merged in with a ';' inside (`MergeDoesNotSplit`) is written as one more
   * ';'-separated piece, so reading the line back gives two meanings where there was one.
   */
  lemma MergedMeaningSplitsOnReimport()
    ensures var e := WithTranslation(Entry("w", "w", "", [Translation("L", ["a"])], false), "b;c", "L");
            EntryLines(e.originalWord, e.translations, "L") == ["w:a;b;c"]
            && ParseLine("w:a;b;c") == Some(Record("w", "a;b;c"))
            && MeaningsOf("a;b;c") == ["a", "b", "c"]
  {
    MergeDoesNotSplit();
    var ts := [Translation("L", ["a", "b;c"])];
    assert ts[..0] == [];
    assert Delimited.Join(["a", "b;c"], ';') == "a;b;c";
    assert ExportLine("w", ["a", "b;c"]) == "w:a;b;c";
    ParseExportLine("w", ["a", "b;c"]);
    MeaningsOfSplitsEverySeparator();
  }

  datatype ImportOutcome = BadPath | CannotOpen | EmptyFile | NoLanguage | Imported(count: nat)
}
