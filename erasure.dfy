/**
 * The erase loops of `delTranslation` and `delMeaning` (hashtable.cpp): once the live entry
 * is found, the first translation of the language, or the first matching meaning of a
 * translation of that language, is erased from its vector.
 */
module Erasure {
  import opened Wrappers
  import opened CaseFold
  import opened Dictionary

  /** `vector::erase` at one position. */
  function RemoveAt<T>(s: seq<T>, i: nat): (r: seq<T>)
    requires i < |s|
    ensures |r| == |s| - 1
    ensures forall j :: 0 <= j < i ==> r[j] == s[j]
    ensures forall j :: i <= j < |r| ==> r[j] == s[j + 1]
  {
    s[..i] + s[i + 1..]
  }

  /** Erasing a translation keeps the rest of them distinct and non-empty. */
  lemma RemoveAtKeepsShape(ts: seq<Translation>, i: nat)
    requires i < |ts|
    ensures LanguagesDistinct(ts) ==> LanguagesDistinct(RemoveAt(ts, i))
    ensures MeaningsPresent(ts) ==> MeaningsPresent(RemoveAt(ts, i))
  {
    var r := RemoveAt(ts, i);
    if LanguagesDistinct(ts) {
      forall a, b | 0 <= a < b < |r|
        ensures !SameText(r[a].language, r[b].language)
      {
        var a' := if a < i then a else a + 1;
        var b' := if b < i then b else b + 1;
        assert r[a] == ts[a'] && r[b] == ts[b'];
      }
    }
    if MeaningsPresent(ts) {
      forall a | 0 <= a < |r|
        ensures |r[a].meanings| >= 1
      {
        assert r[a] == ts[if a < i then a else a + 1];
      }
    }
  }

  // ---------------------------------------------------------------------------------------
  // delTranslation

  /** What erasing the first translation of `language` leaves, or None when the entry has none. */
  function WithoutLanguage(e: Entry, language: string): (r: Option<Entry>)
    ensures r.Some? <==> HasLanguage(e.translations, language)
    ensures r.Some? ==> r.value == e.(translations := r.value.translations)
    ensures r.Some? ==> |r.value.translations| == |e.translations| - 1
    ensures r.Some? && LanguagesDistinct(e.translations) ==> !HasLanguage(r.value.translations, language)
    ensures r.Some? && EntryOk(e) ==> EntryOk(r.value)
    ensures r.Some? ==> FirstLanguage(e.translations, language, 0).Some?
                        && r.value.translations == RemoveAt(e.translations, FirstLanguage(e.translations, language, 0).value)
  {
    var ts := e.translations;
    match FirstLanguage(ts, language, 0)
    case None => None
    case Some(i) =>
      var ts' := RemoveAt(ts, i);
      RemoveAtKeepsShape(ts, i);
      assert LanguagesDistinct(ts) ==> !HasLanguage(ts', language) by {
        if LanguagesDistinct(ts) {
          forall j | 0 <= j < |ts'|
            ensures !SameText(ts'[j].language, language)
          {
            var j' := if j < i then j else j + 1;
            assert ts'[j] == ts[j'];
            assert !SameText(ts[j'].language, ts[i].language) || j' == i;
          }
        }
      }
      Some(e.(translations := ts'))
  }

  /** hashtable.cpp:183-193: erase the first translation whose language matches. */
  method RemoveTranslation(e: Entry, language: string) returns (r: Option<Entry>)
    ensures r == WithoutLanguage(e, language)
  {
    var lowerLanguage := ToLower(language);
    var ts := e.translations;
    var i := 0;
    while i < |ts|
      invariant 0 <= i <= |ts|
      invariant FirstLanguage(ts, language, 0) == FirstLanguage(ts, language, i)
    {
      if ToLower(ts[i].language) == lowerLanguage {
        return Some(e.(translations := ts[..i] + ts[i + 1..]));
      }
      i := i + 1;
    }
    return None;
  }

  // ---------------------------------------------------------------------------------------
  // delMeaning

  /** Index of the first meaning at or after `from` equal to `meaning` case-insensitively. */
  function FirstMeaning(ms: seq<string>, meaning: string, from: nat): (r: Option<nat>)
    requires from <= |ms|
    ensures r.Some? ==> from <= r.value < |ms| && SameText(ms[r.value], meaning)
    ensures forall k :: from <= k < (if r.Some? then r.value else |ms|) ==> !SameText(ms[k], meaning)
    decreases |ms| - from
  {
    if from == |ms| then None
    else if SameText(ms[from], meaning) then Some(from)
    else FirstMeaning(ms, meaning, from + 1)
  }

  /** A translation of `language` that holds `meaning`. */
  predicate Hit(t: Translation, meaning: string, language: string) {
    SameText(t.language, language) && HasMeaning(t.meanings, meaning)
  }

  /** The first translation at or after `from` that is a hit, by index. */
  function FirstHit(ts: seq<Translation>, meaning: string, language: string, from: nat): (r: Option<nat>)
    requires from <= |ts|
    ensures r.Some? ==> from <= r.value < |ts| && Hit(ts[r.value], meaning, language)
    ensures forall j :: from <= j < (if r.Some? then r.value else |ts|) ==> !Hit(ts[j], meaning, language)
    decreases |ts| - from
  {
    if from == |ts| then None
    else if Hit(ts[from], meaning, language) then Some(from)
    else FirstHit(ts, meaning, language, from + 1)
  }

  /** `FirstMeaning` finds a meaning exactly when there is one. */
  lemma FirstMeaningFinds(ms: seq<string>, meaning: string)
    ensures FirstMeaning(ms, meaning, 0).Some? <==> HasMeaning(ms, meaning)
  {
    if HasMeaning(ms, meaning) {
      var k :| 0 <= k < |ms| && SameText(ms[k], meaning);
      assert FirstMeaning(ms, meaning, 0).Some?;
    }
  }

  /**
   * What erasing the first matching meaning of the first translation of `language` that has
   * one leaves: the translation goes too if that was its last meaning. None when no
   * translation of that language holds the meaning.
   */
  function WithoutMeaning(e: Entry, meaning: string, language: string): (r: Option<Entry>)
    ensures r.Some? <==> exists j :: 0 <= j < |e.translations| && Hit(e.translations[j], meaning, language)
    ensures r.Some? ==> r.value == e.(translations := r.value.translations)
    ensures r.Some? ==> |e.translations| - 1 <= |r.value.translations| <= |e.translations|
    ensures r.Some? && EntryOk(e) ==> EntryOk(r.value)
    ensures r.Some? ==>
              var ts := e.translations;
              var j := FirstHit(ts, meaning, language, 0).value;
              FirstMeaning(ts[j].meanings, meaning, 0).Some?
              && var ms' := RemoveAt(ts[j].meanings, FirstMeaning(ts[j].meanings, meaning, 0).value);
                 r.value.translations == if ms' == [] then RemoveAt(ts, j) else ts[j := ts[j].(meanings := ms')]
  {
    var ts := e.translations;
    match FirstHit(ts, meaning, language, 0)
    case None => None
    case Some(j) =>
      FirstMeaningFinds(ts[j].meanings, meaning);
      var k := FirstMeaning(ts[j].meanings, meaning, 0).value;
      var ms' := RemoveAt(ts[j].meanings, k);
      RemoveAtKeepsShape(ts, j);
      var ts' := if ms' == [] then RemoveAt(ts, j) else ts[j := ts[j].(meanings := ms')];
      assert EntryOk(e) ==> EntryOk(e.(translations := ts')) by {
        if EntryOk(e) && ms' != [] {
          forall a, b | 0 <= a < b < |ts'|
            ensures !SameText(ts'[a].language, ts'[b].language)
          {
            assert ts'[a].language == ts[a].language && ts'[b].language == ts[b].language;
          }
        }
      }
      Some(e.(translations := ts'))
  }

  /** hashtable.cpp:221-222: the inner loop, the first meaning equal to `meaning` case-insensitively. */
  method FindMeaning(ms: seq<string>, meaning: string) returns (r: Option<nat>)
    ensures r == FirstMeaning(ms, meaning, 0)
  {
    var k := 0;
    while k < |ms|
      invariant 0 <= k <= |ms|
      invariant FirstMeaning(ms, meaning, 0) == FirstMeaning(ms, meaning, k)
    {
      if ToLower(ms[k]) == ToLower(meaning) {
        return Some(k);
      }
      k := k + 1;
    }
    return None;
  }

  /** hashtable.cpp:215-233: the nested search for the meaning, its erasure, and the erasure of an emptied translation. */
  method RemoveMeaning(e: Entry, meaning: string, language: string) returns (r: Option<Entry>)
    ensures r == WithoutMeaning(e, meaning, language)
  {
    var lowerLanguage := ToLower(language);
    var ts := e.translations;
    var j := 0;
    while j < |ts|
      invariant 0 <= j <= |ts|
      invariant FirstHit(ts, meaning, language, 0) == FirstHit(ts, meaning, language, j)
    {
      if ToLower(ts[j].language) == lowerLanguage {
        var ms := ts[j].meanings;
        FirstMeaningFinds(ms, meaning);
        var found := FindMeaning(ms, meaning);
        if found.Some? {
          var k := found.value;
          var ms' := ms[..k] + ms[k + 1..];
          var ts' := ts[j := ts[j].(meanings := ms')];
          if ms' == [] {
            ts' := ts'[..j] + ts'[j + 1..];
            assert ts' == RemoveAt(ts, j);
          }
          return Some(e.(translations := ts'));
        }
      }
      j := j + 1;
    }
    return None;
  }
}
