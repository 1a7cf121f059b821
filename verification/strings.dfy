/** The handful of `str` operations the extractor relies on. */
module Strings {

  /** `s.find(c)` for the first of several stop characters: the position of the
      first character of `s` in `stops`, or `|s|` when there is none. */
  function FirstIndex(s: string, stops: set<char>): (i: nat)
    ensures i <= |s|
    ensures i < |s| ==> s[i] in stops
    ensures forall j :: 0 <= j < i ==> s[j] !in stops
  {
    if |s| == 0 then 0
    else if s[0] in stops then 0
    else 1 + FirstIndex(s[1..], stops)
  }

  /** `s.split(sep)`: the maximal `sep`-free pieces of `s`, left to right. */
  function Split(s: string, sep: char): (parts: seq<string>)
    ensures |parts| >= 1
    ensures forall k :: 0 <= k < |parts| ==> sep !in parts[k]
    ensures sep !in s <==> |parts| == 1
    ensures sep !in s ==> parts == [s]
  {
    if |s| == 0 then [""]
    else
      var rest := Split(s[1..], sep);
      assert s == [s[0]] + s[1..];
      if s[0] == sep then [""] + rest
      else [[s[0]] + rest[0]] + rest[1..]
  }

  /** `sep.join(parts)` */
  function Join(parts: seq<string>, sep: char): string
    requires |parts| >= 1
  {
    if |parts| == 1 then parts[0] else parts[0] + [sep] + Join(parts[1..], sep)
  }

  /** The text after the last `sep` in `s` (all of `s` when it has none). */
  function LastPart(s: string, sep: char): (t: string)
    ensures sep !in t
    ensures |t| <= |s| && s[|s| - |t|..] == t
    ensures |t| < |s| ==> s[|s| - |t| - 1] == sep
  {
    if sep !in s then s else LastPart(s[1..], sep)
  }

  /** Text without the separator, appended, joins the last part. */
  lemma {:induction false} LastPartAppend(a: string, b: string, sep: char)
    requires sep !in b
    ensures LastPart(a + b, sep) == LastPart(a, sep) + b
    decreases |a|
  {
    if sep in a + b {
      assert sep in a;
      assert (a + b)[1..] == a[1..] + b;
      LastPartAppend(a[1..], b, sep);
    }
  }

  /** `s.replace(from, to)` for single characters. */
  function ReplaceChar(s: string, from: char, to: char): (r: string)
    ensures |r| == |s|
    ensures from != to ==> from !in r
    ensures forall k :: 0 <= k < |s| && s[k] != from ==> r[k] == s[k]
  {
    seq(|s|, k requires 0 <= k < |s| => if s[k] == from then to else s[k])
  }

  /** Splitting and joining on the same separator gives the text back. */
  lemma {:induction false} JoinSplit(s: string, sep: char)
    ensures Join(Split(s, sep), sep) == s
    decreases |s|
  {
    if |s| > 0 {
      JoinSplit(s[1..], sep);
      var rest := Split(s[1..], sep);
      if s[0] == sep {
        assert Split(s, sep) == [""] + rest;
        assert Join([""] + rest, sep) == [sep] + Join(rest, sep) by {
          assert ([""] + rest)[1..] == rest;
        }
      } else {
        assert Split(s, sep) == [[s[0]] + rest[0]] + rest[1..];
        JoinPrepend(s[0], rest, sep);
      }
      assert s == [s[0]] + s[1..];
    }
  }

  /** Prepending a character to the first piece prepends it to the joined text. */
  lemma JoinPrepend(c: char, parts: seq<string>, sep: char)
    requires |parts| >= 1
    ensures Join([[c] + parts[0]] + parts[1..], sep) == [c] + Join(parts, sep)
  {
    var longer := [[c] + parts[0]] + parts[1..];
    if |parts| > 1 {
      assert longer[1..] == parts[1..];
    }
  }

  /** Joining separator-free pieces and splitting again gives the pieces back. */
  lemma {:induction false} SplitJoin(parts: seq<string>, sep: char)
    requires |parts| >= 1
    requires forall k :: 0 <= k < |parts| ==> sep !in parts[k]
    ensures Split(Join(parts, sep), sep) == parts
    decreases |parts|, |parts[0]|
  {
    if |parts| == 1 {
    } else if |parts[0]| == 0 {
      SplitJoin(parts[1..], sep);
      SplitJoinEmptyHead(parts, sep);
    } else {
      var shorter := [parts[0][1..]] + parts[1..];
      assert forall k :: 0 <= k < |shorter| ==> sep !in shorter[k] by {
        assert shorter[1..] == parts[1..];
        assert forall k :: 0 <= k < |parts[0][1..]| ==> parts[0][1..][k] == parts[0][k + 1];
      }
      SplitJoin(shorter, sep);
      SplitJoinCharHead(parts, sep);
    }
  }

  /** The inductive step of `SplitJoin` when the first piece is empty. */
  lemma SplitJoinEmptyHead(parts: seq<string>, sep: char)
    requires |parts| >= 2 && parts[0] == ""
    requires Split(Join(parts[1..], sep), sep) == parts[1..]
    ensures Split(Join(parts, sep), sep) == parts
  {
    var j := Join(parts, sep);
    assert j == [sep] + Join(parts[1..], sep);
    assert j[1..] == Join(parts[1..], sep);
    assert parts == [""] + parts[1..];
  }

  /** The inductive step of `SplitJoin` when the first piece starts with a
      character other than the separator. */
  lemma SplitJoinCharHead(parts: seq<string>, sep: char)
    requires |parts| >= 2 && |parts[0]| > 0 && parts[0][0] != sep
    requires Split(Join([parts[0][1..]] + parts[1..], sep), sep) == [parts[0][1..]] + parts[1..]
    ensures Split(Join(parts, sep), sep) == parts
  {
    var c := parts[0][0];
    var shorter := [parts[0][1..]] + parts[1..];
    assert shorter[1..] == parts[1..];
    var j := Join(parts, sep);
    assert Join(shorter, sep) == parts[0][1..] + [sep] + Join(parts[1..], sep);
    assert j == [c] + Join(shorter, sep);
    assert j[1..] == Join(shorter, sep);
    assert [c] + parts[0][1..] == parts[0];
    assert parts == [[c] + shorter[0]] + shorter[1..];
  }

  /** The last piece of `s.split(sep)` (Python's `[-1]`) is the text after the last separator. */
  lemma {:induction false} SplitLastPiece(s: string, sep: char)
    ensures Split(s, sep)[|Split(s, sep)| - 1] == LastPart(s, sep)
    decreases |s|
  {
    if |s| > 0 {
      SplitLastPiece(s[1..], sep);
      if s[0] == sep || |Split(s[1..], sep)| > 1 {
        LastPieceOfTail(s, sep);
      } else {
        WholeLastPiece(s, sep);
      }
    } else {
      assert Split(s, sep) == [""];
    }
  }

  /** Without a separator anywhere, the only piece is the whole text, and so is the last part. */
  lemma WholeLastPiece(s: string, sep: char)
    requires |s| > 0 && s[0] != sep && |Split(s[1..], sep)| == 1
    ensures Split(s, sep) == [s] && LastPart(s, sep) == s
  {
    assert sep !in s by {
      assert sep !in s[1..];
      forall k | 0 <= k < |s| ensures s[k] != sep {
        if k > 0 {
          assert s[k] == s[1..][k - 1];
        }
      }
    }
  }

  /** When `s` has a separator after its first character, or starts with one,
      its last piece and last part are those of `s[1..]`. */
  lemma LastPieceOfTail(s: string, sep: char)
    requires |s| > 0 && (s[0] == sep || |Split(s[1..], sep)| > 1)
    requires Split(s[1..], sep)[|Split(s[1..], sep)| - 1] == LastPart(s[1..], sep)
    ensures Split(s, sep)[|Split(s, sep)| - 1] == LastPart(s, sep)
  {
    SameLastPiece(s, sep);
    assert sep in s by {
      if s[0] != sep {
        var i :| 0 <= i < |s[1..]| && s[1..][i] == sep;
        assert s[i + 1] == sep;
      }
    }
  }

  /** Under the same condition, the last piece of `s` is the last piece of `s[1..]`. */
  lemma SameLastPiece(s: string, sep: char)
    requires |s| > 0 && (s[0] == sep || |Split(s[1..], sep)| > 1)
    ensures Split(s, sep)[|Split(s, sep)| - 1] == Split(s[1..], sep)[|Split(s[1..], sep)| - 1]
  {
    var rest := Split(s[1..], sep);
    if s[0] == sep {
      assert Split(s, sep) == [""] + rest;
    } else {
      assert Split(s, sep) == [[s[0]] + rest[0]] + rest[1..];
    }
  }

  /** Replacing a character the text does not hold changes nothing. */
  lemma ReplaceAbsentChar(s: string, from: char, to: char)
    requires from !in s
    ensures ReplaceChar(s, from, to) == s
  {
    assert forall k :: 0 <= k < |s| ==> ReplaceChar(s, from, to)[k] == s[k];
  }
}
