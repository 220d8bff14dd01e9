/**
 * The line format of `exportData` and `import` (hashtable.cpp): a file is a language line
 * followed by `word:meaning1;meaning2;...` lines. Files become sequences of lines here.
 */
module LineFormat {
  import opened Wrappers
  import opened Delimited
  import opened Dictionary

  /** The characters `find_first_not_of(" \t")` skips. */
  predicate IsBlank(c: char) {
    c == ' ' || c == '\t'
  }

  /** No blank at either end. */
  predicate Trimmed(s: string) {
    s == [] || (!IsBlank(s[0]) && !IsBlank(s[|s| - 1]))
  }

  /** `s.erase(0, s.find_first_not_of(" \t"))`: the leading blanks removed (all of `s` when it is all blanks). */
  function TrimLeft(s: string): (r: string)
    ensures |r| <= |s| && r == s[|s| - |r|..]
    ensures forall i :: 0 <= i < |s| - |r| ==> IsBlank(s[i])
    ensures r != [] ==> !IsBlank(r[0])
  {
    if s != [] && IsBlank(s[0]) then TrimLeft(s[1..]) else s
  }

  /** `s.erase(s.find_last_not_of(" \t") + 1)`: the trailing blanks removed. */
  function TrimRight(s: string): (r: string)
    ensures |r| <= |s| && r == s[..|r|]
    ensures forall i :: |r| <= i < |s| ==> IsBlank(s[i])
    ensures r != [] ==> !IsBlank(r[|r| - 1])
  {
    if s != [] && IsBlank(s[|s| - 1]) then TrimRight(s[..|s| - 1]) else s
  }

  /** `s` is `r` at position `i` with only blanks before and after it. */
  predicate BlanksAround(s: string, i: nat, r: string) {
    i + |r| <= |s| && r == s[i..i + |r|]
    && (forall k :: 0 <= k < i ==> IsBlank(s[k]))
    && (forall k :: i + |r| <= k < |s| ==> IsBlank(s[k]))
  }

  /** Both ends trimmed; a trimmed string is left alone. */
  function Trim(s: string): (r: string)
    ensures Trimmed(r)
    ensures Trimmed(s) ==> r == s
  {
    var l := TrimLeft(s);
    var r := TrimRight(l);
    assert r != [] ==> r[0] == l[0];
    r
  }

  /** Trimming drops only blanks, at the two ends: `s` is `Trim(s)` with blanks around it. */
  lemma TrimDropsOnlyBlanks(s: string)
    ensures exists i :: BlanksAround(s, i, Trim(s))
  {
    var l := TrimLeft(s);
    var r := TrimRight(l);
    var i := |s| - |l|;
    assert Trim(s) == r;
    assert l == s[i..] && r == l[..|r|];
    assert r == s[i..i + |r|];
    forall k | i + |r| <= k < |s|
      ensures IsBlank(s[k])
    {
      assert s[k] == l[k - i];
    }
    assert BlanksAround(s, i, r);
  }

  /** One data line of an import file: the trimmed word and the trimmed meanings text. */
  datatype Record = Record(word: string, meanings: string)

  /**
   * hashtable.cpp:310-322: an empty line or one without ':' is skipped; otherwise the line is
   * cut at its first ':' and both halves are trimmed.
   */
  function ParseLine(line: string): (r: Option<Record>)
    ensures r.None? <==> ':' !in line
    ensures r.Some? ==> Trimmed(r.value.word) && Trimmed(r.value.meanings)
    ensures r.Some? ==> exists c :: 0 <= c < |line| && line[c] == ':' && ':' !in line[..c]
                          && r.value.word == Trim(line[..c]) && r.value.meanings == Trim(line[c + 1..])
  {
    if line == [] then None
    else
      var c := IndexOf(line, ':');
      if c == |line| then
        assert line[..c] == line;
        None
      else
        Some(Record(Trim(line[..c]), Trim(if c + 1 < |line| then line[c + 1..] else [])))
  }

  /** hashtable.cpp:267-272: the line `exportData` writes for one word and one translation. */
  function ExportLine(word: string, meanings: seq<string>): (r: string)
    ensures |r| > |word| && r[..|word|] == word && r[|word|] == ':'
    ensures r[|word| + 1..] == Join(meanings, ';')
  {
    word + ":" + Join(meanings, ';')
  }

  /** Reading back an exported line gives the word and the joined meanings. */
  lemma ParseExportLine(word: string, meanings: seq<string>)
    requires ':' !in word && Trimmed(word)
    requires Trimmed(Join(meanings, ';'))
    ensures ParseLine(ExportLine(word, meanings)) == Some(Record(word, Join(meanings, ';')))
  {
    var line := ExportLine(word, meanings);
    var c := IndexOf(line, ':');
    assert line[..|word|] == word;
    assert line[|word|] == ':';
    if c != |word| {
      assert false;
    }
    assert line[c + 1..] == Join(meanings, ';');
  }

  /**
   * What an import file holding one exported line gives back: the word, and, once the
   * `Translation` constructor has split the text again, the same meanings.
   */
  lemma ReimportExportLine(word: string, meanings: seq<string>)
    requires ':' !in word && Trimmed(word)
    requires |meanings| >= 1
    requires forall i :: 0 <= i < |meanings| ==> meanings[i] != [] && ';' !in meanings[i]
    requires Trimmed(Join(meanings, ';'))
    ensures ParseLine(ExportLine(word, meanings)).Some?
    ensures var rec := ParseLine(ExportLine(word, meanings)).value;
      rec.word == word && MeaningsOf(rec.meanings) == meanings
  {
    ParseExportLine(word, meanings);
    var joined := Join(meanings, ';');
    assert ParseLine(ExportLine(word, meanings)) == Some(Record(word, joined));
    MeaningsOfJoin(meanings);
    assert MeaningsOf(joined) == meanings;
  }

  /** hashtable.cpp:267-272: the loop that writes the word, the colon and the meanings with ";" between them. */
  method WriteLine(word: string, meanings: seq<string>) returns (line: string)
    ensures line == ExportLine(word, meanings)
  {
    var out := [];
    for k := 0 to |meanings|
      invariant k == 0 ==> out == []
      invariant k > 0 ==> out == Join(meanings[..k], ';') + (if k < |meanings| then ";" else "")
    {
      if k > 0 {
        JoinSnoc(meanings[..k], meanings[k], ';');
        assert meanings[..k + 1] == meanings[..k] + [meanings[k]];
      } else {
        assert meanings[..1] == [meanings[0]];
      }
      out := out + meanings[k] + (if k < |meanings| - 1 then ";" else "");
    }
    assert meanings[..|meanings|] == meanings;
    line := word + ":" + out;
  }
}
