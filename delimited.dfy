/**
 * Strings cut at, and glued with, a separator character. The `Translation` constructor
 * reads its meanings with `std::getline(ss, meaning, ';')` and `exportData` writes them
 * back joined by ';'; both are stated here in terms of `Split` and `Join`. `Split` keeps
 * every piece, where `getline` yields no trailing empty piece ("a;" gives "a" alone, ""
 * gives nothing); the two agree once the empty pieces are dropped by `NonEmpty`, which is
 * all the constructor keeps.
 */
module Delimited {

  /** Index of the first `c` in `s`, or |s| when there is none. */
  function IndexOf(s: string, c: char): (r: nat)
    ensures r <= |s|
    ensures r < |s| ==> s[r] == c
    ensures c !in s[..r]
  {
    if s == [] then 0
    else if s[0] == c then 0
    else
      var r := 1 + IndexOf(s[1..], c);
      assert s[..r] == [s[0]] + s[1..][..r - 1];
      r
  }

  /**
   * The pieces of `s` between separators, in order, empty pieces included:
   * "a;;b" has the three pieces "a", "" and "b", and "" has the one piece "".
   */
  function Split(s: string, sep: char): (r: seq<string>)
    ensures |r| >= 1
    ensures forall i :: 0 <= i < |r| ==> sep !in r[i]
    decreases |s|
  {
    var i := IndexOf(s, sep);
    if i == |s| then [s] else [s[..i]] + Split(s[i + 1..], sep)
  }

  /** The pieces with `sep` between each two neighbours; the empty list gives "". */
  function Join(parts: seq<string>, sep: char): (r: string)
    ensures parts == [] ==> r == []
    ensures |parts| >= 1 ==> parts[0] <= r
  {
    if |parts| == 0 then []
    else if |parts| == 1 then parts[0]
    else parts[0] + [sep] + Join(parts[1..], sep)
  }

  /** The non-empty pieces, in order, duplicates kept. */
  function NonEmpty(parts: seq<string>): (r: seq<string>)
    ensures |r| <= |parts|
    ensures forall i :: 0 <= i < |r| ==> r[i] != []
  {
    if parts == [] then []
    else
      var rest := NonEmpty(parts[1..]);
      if parts[0] == [] then rest else [parts[0]] + rest
  }

  /** Dropping the empty pieces keeps exactly the non-empty ones. */
  lemma {:induction false} NonEmptyMembers(parts: seq<string>)
    ensures forall x :: x in NonEmpty(parts) <==> x in parts && x != []
  {
    if parts != [] {
      NonEmptyMembers(parts[1..]);
      assert parts == [parts[0]] + parts[1..];
    }
  }

  /** Dropping empty pieces keeps a list that has none, and keeps every piece free of `sep`. */
  lemma {:induction false} NonEmptyFacts(parts: seq<string>, sep: char)
    ensures (forall i :: 0 <= i < |parts| ==> parts[i] != []) ==> NonEmpty(parts) == parts
    ensures (forall i :: 0 <= i < |parts| ==> sep !in parts[i]) ==>
              forall i :: 0 <= i < |NonEmpty(parts)| ==> sep !in NonEmpty(parts)[i]
  {
    if parts != [] {
      NonEmptyFacts(parts[1..], sep);
      if forall i :: 0 <= i < |parts| ==> sep !in parts[i] {
        assert forall i :: 0 <= i < |parts[1..]| ==> sep !in parts[1..][i];
      }
      if forall i :: 0 <= i < |parts| ==> parts[i] != [] {
        assert forall i :: 0 <= i < |parts[1..]| ==> parts[1..][i] != [];
        assert [parts[0]] + parts[1..] == parts;
      }
    }
  }

  /** Dropping the empty pieces distributes over the first piece. */
  lemma NonEmptyCons(x: string, rest: seq<string>)
    ensures NonEmpty([x] + rest) == (if x == [] then [] else [x]) + NonEmpty(rest)
  {
    assert ([x] + rest)[1..] == rest;
  }

  /** A piece that holds no separator is cut off whole at the next separator. */
  lemma SplitAfterPiece(x: string, rest: string, sep: char)
    requires sep !in x
    ensures Split(x + [sep] + rest, sep) == [x] + Split(rest, sep)
  {
    var s := x + [sep] + rest;
    var i := IndexOf(s, sep);
    assert s[..|x|] == x;
    assert s[|x|] == sep;
    if i != |x| {
      assert false;
    }
    assert s[|x| + 1..] == rest;
  }

  /** A separator-free string is a single piece. */
  lemma SplitSepFree(x: string, sep: char)
    requires sep !in x
    ensures Split(x, sep) == [x]
  {
    assert x[..|x|] == x;
  }

  /** A left-to-right scan, at a separator: the piece read so far is complete. */
  lemma ScanSeparator(cur: string, rest: string, sep: char)
    requires sep !in cur
    ensures NonEmpty(Split(cur + [sep] + rest, sep)) == (if cur == [] then [] else [cur]) + NonEmpty(Split(rest, sep))
  {
    SplitAfterPiece(cur, rest, sep);
    NonEmptyCons(cur, Split(rest, sep));
  }

  /** A left-to-right scan, at the end of the string: the last piece is complete. */
  lemma ScanEnd(cur: string, sep: char)
    requires sep !in cur
    ensures NonEmpty(Split(cur, sep)) == if cur == [] then [] else [cur]
  {
    SplitSepFree(cur, sep);
    NonEmptyCons(cur, []);
  }

  /** A left-to-right scan, at a character that is not the separator: it extends the piece being read. */
  lemma ScanChar(s: string, i: nat, cur: string, sep: char)
    requires i < |s| && s[i] != sep
    requires sep !in cur
    ensures sep !in cur + [s[i]]
    ensures cur + s[i..] == (cur + [s[i]]) + s[i + 1..]
  {
    assert s[i..] == [s[i]] + s[i + 1..];
  }

  /** A left-to-right scan, at the separator: the piece read so far is complete. */
  lemma ScanSeparatorAt(s: string, i: nat, cur: string, sep: char)
    requires i < |s| && s[i] == sep
    requires sep !in cur
    ensures NonEmpty(Split(cur + s[i..], sep)) == (if cur == [] then [] else [cur]) + NonEmpty(Split(s[i + 1..], sep))
  {
    assert s[i..] == [s[i]] + s[i + 1..];
    assert cur + s[i..] == cur + [sep] + s[i + 1..];
    ScanSeparator(cur, s[i + 1..], sep);
  }

  /** Joining the pieces gives back the string: `Split` loses nothing. */
  lemma {:induction false} JoinSplit(s: string, sep: char)
    ensures Join(Split(s, sep), sep) == s
    decreases |s|
  {
    var i := IndexOf(s, sep);
    if i < |s| {
      var rest := s[i + 1..];
      JoinSplit(rest, sep);
      assert s == s[..i] + [sep] + rest;
    }
  }

  /** Splitting the glued pieces gives them back, when no piece holds a separator. */
  lemma {:induction false} SplitJoin(parts: seq<string>, sep: char)
    requires |parts| >= 1
    requires forall i :: 0 <= i < |parts| ==> sep !in parts[i]
    ensures Split(Join(parts, sep), sep) == parts
  {
    if |parts| == 1 {
      SplitSepFree(parts[0], sep);
    } else {
      SplitJoin(parts[1..], sep);
      SplitAfterPiece(parts[0], Join(parts[1..], sep), sep);
      assert [parts[0]] + parts[1..] == parts;
    }
  }

  /** Joining one more piece appends a separator and that piece. */
  lemma {:induction false} JoinSnoc(parts: seq<string>, x: string, sep: char)
    requires |parts| >= 1
    ensures Join(parts + [x], sep) == Join(parts, sep) + [sep] + x
  {
    if |parts| > 1 {
      assert (parts + [x])[1..] == parts[1..] + [x];
      JoinSnoc(parts[1..], x, sep);
    }
  }

  /** All pieces empty exactly when the string holds nothing but separators. */
  lemma {:induction false} NonEmptySplitIsEmpty(s: string, sep: char)
    ensures NonEmpty(Split(s, sep)) == [] <==> forall i :: 0 <= i < |s| ==> s[i] == sep
    decreases |s|
  {
    var i := IndexOf(s, sep);
    if i < |s| {
      var rest := s[i + 1..];
      NonEmptySplitIsEmpty(rest, sep);
      if i == 0 {
        assert forall j :: 0 <= j < |rest| ==> rest[j] == s[j + 1];
      } else {
        assert s[0] != sep;
      }
    } else if s != [] {
      assert s[0] != sep by { assert s[0] in s[..i]; }
    }
  }
}
