/**
 * The records the dictionary stores (dictionary.h, dictionary.cpp): a `Translation` is one
 * language with its ordered meanings, an `Entry` is one word with its translations and a
 * tombstone flag. Both are values here; the C++ members that change a vector in place are
 * methods that return the changed value, each proved equal to a specification function.
 */
module Dictionary {
  import opened Wrappers
  import opened CaseFold
  import opened Delimited

  datatype Translation = Translation(language: string, meanings: seq<string>)

  datatype Entry = Entry(
    word: string,              // the lowered word, the key
    originalWord: string,      // the word as first given
    originalLine: string,      // the line that created the entry (diagnostic only)
    translations: seq<Translation>,
    deleted: bool)             // tombstone flag

  /** Case-insensitive equality, as every comparison of words, languages and meanings does it. */
  predicate SameText(a: string, b: string) {
    ToLower(a) == ToLower(b)
  }

  predicate HasMeaning(ms: seq<string>, m: string) {
    exists i :: 0 <= i < |ms| && SameText(ms[i], m)
  }

  predicate HasLanguage(ts: seq<Translation>, language: string) {
    exists i :: 0 <= i < |ts| && SameText(ts[i].language, language)
  }

  /** At most one translation per language, compared case-insensitively. */
  predicate LanguagesDistinct(ts: seq<Translation>) {
    forall i, j :: 0 <= i < j < |ts| ==> !SameText(ts[i].language, ts[j].language)
  }

  /** Every translation holds at least one meaning. */
  predicate MeaningsPresent(ts: seq<Translation>) {
    forall i :: 0 <= i < |ts| ==> |ts[i].meanings| >= 1
  }

  /** The shape every entry in the table keeps. */
  predicate EntryOk(e: Entry) {
    LanguagesDistinct(e.translations) && MeaningsPresent(e.translations)
  }

  // ---------------------------------------------------------------------------------------
  // Translation

  /**
   * The meanings the `Translation` constructor stores for a meanings string: none for "",
   * else the non-empty ';'-separated pieces in order, else the one empty meaning.
   */
  function MeaningsOf(s: string): (r: seq<string>)
    ensures s == [] <==> r == []
    ensures forall i :: 0 <= i < |r| ==> ';' !in r[i]
    ensures r == [[]] || forall i :: 0 <= i < |r| ==> r[i] != []
  {
    if s == [] then []
    else
      var ps := NonEmpty(Split(s, ';'));
      NonEmptyFacts(Split(s, ';'), ';');
      if ps == [] then [[]] else ps
  }

  /** A list of non-empty, separator-free meanings survives being written joined by ';' and read back. */
  lemma MeaningsOfJoin(ms: seq<string>)
    requires |ms| >= 1
    requires forall i :: 0 <= i < |ms| ==> ms[i] != [] && ';' !in ms[i]
    ensures MeaningsOf(Join(ms, ';')) == ms
  {
    SplitJoin(ms, ';');
    NonEmptyFacts(ms, ';');
  }

  /** The string becomes the single empty meaning exactly when it is non-empty and all separators. */
  lemma MeaningsOfOnlySeparators(s: string)
    ensures MeaningsOf(s) == [[]] <==> s != [] && forall i :: 0 <= i < |s| ==> s[i] == ';'
  {
    NonEmptySplitIsEmpty(s, ';');
    if s != [] && NonEmpty(Split(s, ';')) != [] {
      assert MeaningsOf(s) == NonEmpty(Split(s, ';'));
      assert MeaningsOf(s)[0] != [];
    }
  }

  /** Pieces are not deduplicated: "a;a" gives two meanings. */
  lemma MeaningsOfKeepsDuplicates()
    ensures MeaningsOf("a;a") == ["a", "a"]
  {
    assert Join(["a", "a"], ';') == "a;a";
    MeaningsOfJoin(["a", "a"]);
  }

  /** Every ';' cuts, wherever the text came from: "a;b;c" gives three meanings. */
  lemma MeaningsOfSplitsEverySeparator()
    ensures MeaningsOf("a;b;c") == ["a", "b", "c"]
  {
    assert Join(["b", "c"], ';') == "b;c";
    assert Join(["a", "b", "c"], ';') == "a;b;c" by {
      assert ["a", "b", "c"][1..] == ["b", "c"];
    }
    MeaningsOfJoin(["a", "b", "c"]);
  }

  lemma EmptyPrefix(x: string)
    ensures NonEmpty(Split([] + x, ';')) == NonEmpty(Split(x, ';'))
  {
    assert [] + x == x;
  }

  lemma ConcatAssoc<T>(a: seq<T>, b: seq<T>, c: seq<T>)
    ensures a + (b + c) == (a + b) + c
  {
  }

  /** The scan of the constructor at a ';': the piece read so far, if any, is complete. */
  lemma PieceEnds(s: string, i: nat, cur: string, found: seq<string>, pieces: seq<string>)
    requires i < |s| && s[i] == ';' && ';' !in cur
    requires pieces == found + NonEmpty(Split(cur + s[i..], ';'))
    ensures pieces == (if cur != [] then found + [cur] else found) + NonEmpty(Split(s[i + 1..], ';'))
  {
    ScanSeparatorAt(s, i, cur, ';');
    var whole := NonEmpty(Split(cur + s[i..], ';'));
    var rest := NonEmpty(Split(s[i + 1..], ';'));
    var head: seq<string> := if cur == [] then [] else [cur];
    assert whole == head + rest;
    assert pieces == found + (head + rest);
    ConcatAssoc(found, head, rest);
    assert found + head == if cur != [] then found + [cur] else found;
  }

  /** The scan of the constructor at any other character: the piece grows by it. */
  lemma PieceGrows(s: string, i: nat, cur: string, found: seq<string>, pieces: seq<string>)
    requires i < |s| && s[i] != ';' && ';' !in cur
    requires pieces == found + NonEmpty(Split(cur + s[i..], ';'))
    ensures ';' !in cur + [s[i]]
    ensures pieces == found + NonEmpty(Split((cur + [s[i]]) + s[i + 1..], ';'))
  {
    ScanChar(s, i, cur, ';');
  }

  /** dictionary.cpp:39-53: the constructor that reads the meanings with `std::getline(ss, meaning, ';')`. */
  method NewTranslation(meanings: string, language: string) returns (t: Translation)
    ensures t == Translation(language, MeaningsOf(meanings))
  {
    var found: seq<string> := [];
    if meanings != [] {
      ghost var pieces := NonEmpty(Split(meanings, ';'));
      var cur: string := [];
      var i := 0;
      assert cur + meanings[i..] == meanings;
      while i < |meanings|
        invariant 0 <= i <= |meanings|
        invariant ';' !in cur
        invariant pieces == found + NonEmpty(Split(cur + meanings[i..], ';'))
      {
        if meanings[i] == ';' {
          PieceEnds(meanings, i, cur, found, pieces);
          EmptyPrefix(meanings[i + 1..]);
          if cur != [] {
            found := found + [cur];
          }
          cur := [];
        } else {
          PieceGrows(meanings, i, cur, found, pieces);
          cur := cur + [meanings[i]];
        }
        i := i + 1;
      }
      assert cur + meanings[i..] == cur;
      ScanEnd(cur, ';');
      if cur != [] {
        found := found + [cur];
      }
      if found == [] {
        found := [[]];
      }
    }
    t := Translation(language, found);
  }

  /** A function stating what `addMeaning` leaves behind. */
  function WithMeaning(t: Translation, m: string): (r: Translation)
    ensures r.language == t.language
    ensures t.meanings <= r.meanings && |r.meanings| <= |t.meanings| + 1
    ensures m != [] ==> HasMeaning(r.meanings, m)
    ensures |r.meanings| == |t.meanings| + 1 <==> m != [] && !HasMeaning(t.meanings, m)
    ensures |r.meanings| == |t.meanings| + 1 ==> r.meanings[|t.meanings|] == m
  {
    if m == [] || HasMeaning(t.meanings, m) then t
    else
      var r := t.(meanings := t.meanings + [m]);
      assert SameText(r.meanings[|t.meanings|], m);
      r
  }

  /** Adding the same meaning a second time changes nothing. */
  lemma WithMeaningIdempotent(t: Translation, m: string)
    ensures WithMeaning(WithMeaning(t, m), m) == WithMeaning(t, m)
  {
  }

  /** dictionary.cpp:56-63: append the meaning unless it is empty or already there case-insensitively. */
  method AddMeaning(t: Translation, newMeaning: string) returns (r: Translation)
    ensures r == WithMeaning(t, newMeaning)
  {
    if newMeaning == [] {
      return t;
    }
    var i := 0;
    while i < |t.meanings|
      invariant 0 <= i <= |t.meanings|
      invariant forall j :: 0 <= j < i ==> !SameText(t.meanings[j], newMeaning)
    {
      if ToLower(t.meanings[i]) == ToLower(newMeaning) {
        return t;
      }
      i := i + 1;
    }
    r := t.(meanings := t.meanings + [newMeaning]);
  }

  // ---------------------------------------------------------------------------------------
  // Entry

  /** Index of the first translation at or after `from` whose language matches case-insensitively. */
  function FirstLanguage(ts: seq<Translation>, language: string, from: nat): (r: Option<nat>)
    requires from <= |ts|
    ensures r.Some? ==> from <= r.value < |ts| && SameText(ts[r.value].language, language)
    ensures forall j :: from <= j < (if r.Some? then r.value else |ts|) ==> !SameText(ts[j].language, language)
    decreases |ts| - from
  {
    if from == |ts| then None
    else if SameText(ts[from].language, language) then Some(from)
    else FirstLanguage(ts, language, from + 1)
  }

  /** What the `Entry` constructor builds; an empty word is stored as "unknown". */
  function MakeEntry(word: string, meanings: string, language: string, originalLine: string): (e: Entry)
    ensures !e.deleted && |e.translations| == 1
    ensures e.translations[0] == Translation(language, MeaningsOf(meanings))
    ensures word != [] ==> SameText(e.word, word) && e.originalWord == word
    ensures IsLowered(e.word) && e.word != []
    ensures meanings != [] ==> EntryOk(e)
    ensures word == [] ==>
              e.word == "unknown" && e.originalWord == "unknown" && e.originalLine == "unknown:" + meanings
    ensures word != [] ==> e.word == ToLower(word) && e.originalLine == originalLine
  {
    ToLowerIsLowered(word);
    ToLowerIdempotent(word);
    if word == [] then
      Entry("unknown", "unknown", "unknown:" + meanings, [Translation(language, MeaningsOf(meanings))], false)
    else
      Entry(ToLower(word), word, originalLine, [Translation(language, MeaningsOf(meanings))], false)
  }

  /** dictionary.cpp:91-101, the `Entry` constructor. */
  method NewEntry(word: string, meanings: string, language: string, originalLine: string) returns (e: Entry)
    ensures e == MakeEntry(word, meanings, language, originalLine)
  {
    var t := NewTranslation(meanings, language);
    if word == [] {
      e := Entry("unknown", "unknown", "unknown:" + meanings, [t], false);
    } else {
      e := Entry(ToLower(word), word, originalLine, [t], false);
    }
  }

  /** What `addTranslation` leaves behind: merge into the first translation of that language, else append one. */
  function WithTranslation(e: Entry, newMeanings: string, language: string): (r: Entry)
    ensures r.word == e.word && r.originalWord == e.originalWord
    ensures r.originalLine == e.originalLine && r.deleted == e.deleted
    ensures |e.translations| <= |r.translations| <= |e.translations| + 1
    ensures language != [] && newMeanings != [] ==> HasLanguage(r.translations, language)
    ensures |r.translations| == |e.translations| + 1 <==>
              language != [] && newMeanings != [] && !HasLanguage(e.translations, language)
    ensures language == [] || newMeanings == [] ==> r == e
    ensures language != [] && newMeanings != [] && FirstLanguage(e.translations, language, 0).Some? ==>
              var i := FirstLanguage(e.translations, language, 0).value;
              r.translations == e.translations[i := WithMeaning(e.translations[i], newMeanings)]
    ensures language != [] && newMeanings != [] && FirstLanguage(e.translations, language, 0).None? ==>
              r.translations == e.translations + [Translation(language, MeaningsOf(newMeanings))]
  {
    if language == [] || newMeanings == [] then e
    else
      var ts := e.translations;
      match FirstLanguage(ts, language, 0)
      case Some(i) =>
        var ts' := ts[i := WithMeaning(ts[i], newMeanings)];
        assert SameText(ts'[i].language, language);
        e.(translations := ts')
      case None =>
        var ts' := ts + [Translation(language, MeaningsOf(newMeanings))];
        assert SameText(ts'[|ts|].language, language);
        e.(translations := ts')
  }

  /** `addTranslation` keeps one translation per language and at least one meaning in each. */
  lemma WithTranslationKeepsOk(e: Entry, newMeanings: string, language: string)
    requires EntryOk(e)
    ensures EntryOk(WithTranslation(e, newMeanings, language))
  {
    var ts := e.translations;
    var r := WithTranslation(e, newMeanings, language);
    if language != [] && newMeanings != [] {
      match FirstLanguage(ts, language, 0)
      case Some(i) =>
        assert forall j :: 0 <= j < |ts| ==> r.translations[j].language == ts[j].language;
      case None =>
        assert r.translations == ts + [Translation(language, MeaningsOf(newMeanings))];
    }
  }

  /** Merging into an existing language does not split at ';': "b;c" becomes one meaning. */
  lemma MergeDoesNotSplit()
    ensures WithTranslation(Entry("w", "w", "", [Translation("L", ["a"])], false), "b;c", "L").translations
            == [Translation("L", ["a", "b;c"])]
  {
    var t := Translation("L", ["a"]);
    assert FirstLanguage([t], "L", 0) == Some(0);
    assert !SameText("a", "b;c") by {
      assert |ToLower("a")| == 1 && |ToLower("b;c")| == 3;
    }
    assert !HasMeaning(["a"], "b;c");
    assert WithMeaning(t, "b;c") == Translation("L", ["a", "b;c"]);
    assert [t][0 := WithMeaning(t, "b;c")] == [Translation("L", ["a", "b;c"])];
  }

  /** Adding "x" and then "X" for one language keeps a single meaning. */
  lemma CaseVariantMeaningMerges(word: string, language: string)
    requires word != [] && language != []
    ensures WithTranslation(MakeEntry(word, "x", language, ""), "X", language).translations
            == [Translation(language, ["x"])]
  {
    MeaningsOfJoin(["x"]);
    var e := MakeEntry(word, "x", language, "");
    assert e.translations == [Translation(language, ["x"])];
    assert FirstLanguage(e.translations, language, 0) == Some(0);
    assert SameText("x", "X");
    assert HasMeaning(["x"], "X");
  }

  /** dictionary.cpp:104-115: merge the whole string as one meaning, or append a new translation. */
  method AddTranslation(e: Entry, newMeanings: string, language: string) returns (r: Entry)
    ensures r == WithTranslation(e, newMeanings, language)
  {
    if language == [] || newMeanings == [] {
      return e;
    }
    var ts := e.translations;
    var i := 0;
    while i < |ts|
      invariant 0 <= i <= |ts|
      invariant FirstLanguage(ts, language, 0) == FirstLanguage(ts, language, i)
    {
      if ToLower(ts[i].language) == ToLower(language) {
        var t := AddMeaning(ts[i], newMeanings);
        return e.(translations := ts[i := t]);
      }
      i := i + 1;
    }
    var t := NewTranslation(newMeanings, language);
    r := e.(translations := ts + [t]);
  }

  /** `markDeleted`: the tombstone flag is set and nothing else changes. */
  function MarkDeleted(e: Entry): (r: Entry)
    ensures r.deleted
    ensures r.(deleted := e.deleted) == e
  {
    e.(deleted := true)
  }

  lemma MarkDeletedIdempotent(e: Entry)
    ensures MarkDeleted(MarkDeleted(e)) == MarkDeleted(e)
  {
  }
}
