/** JavaScript's `String.prototype.split` and `Array.prototype.join` for a
    one-character separator, with the two proved inverse to each other. */
module Strings {

  /** The pieces of `s` between occurrences of `sep`, empty pieces kept, as
      `s.split(sep)` returns them: `"".split("/")` is `[""]` and
      `"/a/".split("/")` is `["", "a", ""]`. Defined from the right end, so
      appending one character changes only the last piece. */
  function Split(s: string, sep: char): (parts: seq<string>)
    ensures |parts| >= 1
    decreases |s|
  {
    if |s| == 0 then [""]
    else
      var init := Split(s[..|s| - 1], sep);
      var c := s[|s| - 1];
      if c == sep then init + [""]
      else init[..|init| - 1] + [init[|init| - 1] + [c]]
  }

  /** `parts.join(sep)`: the pieces with one `sep` between neighbours. */
  function Join(parts: seq<string>, sep: char): string
    decreases |parts|
  {
    if |parts| == 0 then ""
    else if |parts| == 1 then parts[0]
    else Join(parts[..|parts| - 1], sep) + [sep] + parts[|parts| - 1]
  }

  /** The last element of a non-empty sequence of pieces. */
  function Last(parts: seq<string>): string
    requires |parts| >= 1
  {
    parts[|parts| - 1]
  }

  /** No piece of a split contains the separator. */
  lemma {:induction false} SplitPiecesSeparatorFree(s: string, sep: char)
    ensures forall i :: 0 <= i < |Split(s, sep)| ==> sep !in Split(s, sep)[i]
    decreases |s|
  {
    if |s| > 0 {
      var init := Split(s[..|s| - 1], sep);
      SplitPiecesSeparatorFree(s[..|s| - 1], sep);
      var c := s[|s| - 1];
      if c != sep {
        assert sep !in Last(init);
        assert sep !in Last(init) + [c];
      }
    }
  }

  /** The last piece of a split is empty exactly when the string is empty or
      ends with the separator. */
  lemma {:induction false} LastPieceEmpty(s: string, sep: char)
    ensures Last(Split(s, sep)) == "" <==> |s| == 0 || s[|s| - 1] == sep
  {
    if |s| > 0 && s[|s| - 1] != sep {
      var init := Split(s[..|s| - 1], sep);
      assert Last(Split(s, sep)) == init[|init| - 1] + [s[|s| - 1]];
    }
  }

  /** Appending a character other than the separator extends the last piece
      of the join. */
  lemma {:induction false} JoinExtendLast(parts: seq<string>, sep: char, c: char)
    requires |parts| >= 1
    ensures Join(parts[..|parts| - 1] + [Last(parts) + [c]], sep) == Join(parts, sep) + [c]
  {
    var q := parts[..|parts| - 1] + [Last(parts) + [c]];
    assert q[..|q| - 1] == parts[..|parts| - 1];
  }

  /** Joining the pieces of a split gives back the string. */
  lemma {:induction false} JoinSplit(s: string, sep: char)
    ensures Join(Split(s, sep), sep) == s
    decreases |s|
  {
    if |s| == 0 {
      assert Split(s, sep) == [""];
    } else {
      JoinSplit(s[..|s| - 1], sep);
      JoinSplitSnoc(s, sep);
      assert s[..|s| - 1] + [s[|s| - 1]] == s;
    }
  }

  /** One more character of the string is one more character of the join of
      its pieces. */
  lemma JoinSplitSnoc(s: string, sep: char)
    requires |s| > 0
    ensures Join(Split(s, sep), sep) == Join(Split(s[..|s| - 1], sep), sep) + [s[|s| - 1]]
  {
    var init := Split(s[..|s| - 1], sep);
    var c := s[|s| - 1];
    if c == sep {
      var parts := init + [""];
      assert Split(s, sep) == parts;
      assert parts[..|parts| - 1] == init;
    } else {
      assert Split(s, sep) == init[..|init| - 1] + [Last(init) + [c]];
      JoinExtendLast(init, sep, c);
    }
  }

  /** Splitting a string that ends in a separator followed by a separator-free
      piece `x` yields the pieces before the separator, then `x`. */
  lemma {:induction false} SplitAfterSep(a: string, sep: char, x: string)
    requires sep !in x
    ensures Split(a + [sep] + x, sep) == Split(a, sep) + [x]
    decreases |x|
  {
    var s := a + [sep] + x;
    if |x| == 0 {
      assert s[..|s| - 1] == a;
    } else {
      var x' := x[..|x| - 1];
      assert s[..|s| - 1] == a + [sep] + x';
      SplitAfterSep(a, sep, x');
      assert x' + [x[|x| - 1]] == x;
    }
  }

  /** Splitting a separator-free piece yields that piece alone. */
  lemma {:induction false} SplitNoSep(x: string, sep: char)
    requires sep !in x
    ensures Split(x, sep) == [x]
    decreases |x|
  {
    if |x| > 0 {
      var x' := x[..|x| - 1];
      SplitNoSep(x', sep);
      assert x' + [x[|x| - 1]] == x;
    }
  }

  /** Splitting the join of separator-free pieces gives back the pieces. */
  lemma {:induction false} SplitJoin(parts: seq<string>, sep: char)
    requires |parts| >= 1
    requires forall i :: 0 <= i < |parts| ==> sep !in parts[i]
    ensures Split(Join(parts, sep), sep) == parts
    decreases |parts|
  {
    if |parts| == 1 {
      SplitNoSep(parts[0], sep);
    } else {
      var init := parts[..|parts| - 1];
      SplitJoin(init, sep);
      SplitAfterSep(Join(init, sep), sep, Last(parts));
      assert init + [Last(parts)] == parts;
    }
  }

  /** Every character of every piece occurs in the join. */
  lemma {:induction false} PieceCharsInJoin(parts: seq<string>, sep: char)
    ensures forall i, j :: 0 <= i < |parts| && 0 <= j < |parts[i]| ==> parts[i][j] in Join(parts, sep)
    decreases |parts|
  {
    if |parts| > 1 {
      var init := parts[..|parts| - 1];
      PieceCharsInJoin(init, sep);
      forall i, j | 0 <= i < |parts| && 0 <= j < |parts[i]|
        ensures parts[i][j] in Join(parts, sep)
      {
        if i < |parts| - 1 {
          assert parts[i] == init[i];
        }
      }
    }
  }
}
