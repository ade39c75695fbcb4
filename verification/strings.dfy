/** Splitting strings at separator characters, as `String.prototype.split`
    does in the front end and `str::split` does in the back end. */
module Strings {
  import opened Wrappers

  /** No character of `s` is one of `seps`. */
  predicate FreeOf(s: string, seps: set<char>)
  {
    forall i :: 0 <= i < |s| ==> s[i] !in seps
  }

  /** The pieces of `s` between separator characters, in order. There is
      always at least one piece: the empty string gives one empty piece, and
      a leading or trailing separator gives an empty first or last piece. */
  function Split(s: string, seps: set<char>): (pieces: seq<string>)
    ensures |pieces| >= 1
    decreases |s|
  {
    if s == [] then [[]]
    else
      var rest := Split(s[1..], seps);
      if s[0] in seps then [[]] + rest
      else [[s[0]] + rest[0]] + rest[1..]
  }

  /** No piece holds a separator. */
  lemma {:induction false} SplitPiecesFree(s: string, seps: set<char>)
    ensures forall k :: 0 <= k < |Split(s, seps)| ==> FreeOf(Split(s, seps)[k], seps)
    decreases |s|
  {
    if s != [] {
      SplitPiecesFree(s[1..], seps);
      var rest := Split(s[1..], seps);
      if s[0] !in seps {
        var head := [s[0]] + rest[0];
        assert FreeOf(head, seps) by {
          forall i | 0 <= i < |head|
            ensures head[i] !in seps
          {
            if i > 0 {
              assert head[i] == rest[0][i - 1];
            }
          }
        }
      }
    }
  }

  /** A string splits into one piece exactly when it has no separator. */
  lemma {:induction false} SplitSingle(s: string, seps: set<char>)
    ensures |Split(s, seps)| == 1 <==> FreeOf(s, seps)
    decreases |s|
  {
    if s != [] {
      SplitSingle(s[1..], seps);
    }
  }

  /** The first piece is the longest prefix free of separators. */
  lemma {:induction false} SplitFirst(s: string, seps: set<char>)
    ensures var first := Split(s, seps)[0];
      |first| <= |s| && first == s[..|first|] &&
      (|first| < |s| ==> s[|first|] in seps)
    decreases |s|
  {
    if s != [] {
      SplitFirst(s[1..], seps);
    }
  }

  /** The last piece is the longest suffix free of separators. */
  lemma {:induction false} SplitLast(s: string, seps: set<char>)
    ensures var pieces := Split(s, seps); var last := pieces[|pieces| - 1];
      |last| <= |s| && last == s[|s| - |last|..] &&
      (|last| < |s| ==> s[|s| - |last| - 1] in seps)
    decreases |s|
  {
    if s != [] {
      SplitLast(s[1..], seps);
      var rest := Split(s[1..], seps);
      var tail := rest[|rest| - 1];
      if s[0] in seps || |rest| > 1 {
        SplitLastUnchanged(s, seps);
        if s[0] !in seps {
          SplitSingle(s[1..], seps);
          SplitLastFree(s[1..], seps);
        }
        assert s[1..][|s| - 1 - |tail|..] == s[|s| - |tail|..];
      } else {
        SplitSingle(s[1..], seps);
        assert Split(s, seps) == [[s[0]] + tail];
        assert tail == s[1..];
      }
    }
  }

  /** The last piece holds no separator. */
  lemma SplitLastFree(s: string, seps: set<char>)
    ensures var pieces := Split(s, seps); FreeOf(pieces[|pieces| - 1], seps)
  {
    SplitPiecesFree(s, seps);
  }

  /** A leading separator, or a separator further on, leaves the last
      piece to the rest of the string. */
  lemma SplitLastUnchanged(s: string, seps: set<char>)
    requires s != []
    requires s[0] in seps || |Split(s[1..], seps)| > 1
    ensures var pieces := Split(s, seps); var rest := Split(s[1..], seps);
      pieces[|pieces| - 1] == rest[|rest| - 1]
  {
  }

  /** The inverse of splitting at one separator: the pieces glued back
      together with `sep` between neighbours. */
  function Join(pieces: seq<string>, sep: char): string
  {
    if |pieces| == 0 then []
    else if |pieces| == 1 then pieces[0]
    else pieces[0] + [sep] + Join(pieces[1..], sep)
  }

  /** Splitting at one separator loses nothing: joining the pieces gives the
      string back. */
  lemma {:induction false} JoinSplit(s: string, sep: char)
    ensures Join(Split(s, {sep}), sep) == s
    decreases |s|
  {
    if s != [] {
      var rest := Split(s[1..], {sep});
      JoinSplit(s[1..], sep);
      if s[0] == sep {
        calc {
          Join(Split(s, {sep}), sep);
          Join([[]] + rest, sep);
          { assert ([[]] + rest)[1..] == rest; }
          [sep] + Join(rest, sep);
          s;
        }
      } else {
        var head := [s[0]] + rest[0];
        JoinCons(s[0], rest, sep);
        calc {
          Join(Split(s, {sep}), sep);
          Join([head] + rest[1..], sep);
          [s[0]] + Join(rest, sep);
          s;
        }
      }
    }
  }

  /** Gluing a character onto the first piece glues it onto the front of
      the joined string. */
  lemma JoinCons(c: char, pieces: seq<string>, sep: char)
    requires |pieces| >= 1
    ensures Join([[c] + pieces[0]] + pieces[1..], sep) == [c] + Join(pieces, sep)
  {
    var moved := [[c] + pieces[0]] + pieces[1..];
    if |pieces| > 1 {
      assert moved[1..] == pieces[1..];
    }
  }

  /** The text after the last separator of `s`: all of `s` when it has no
      separator, empty when `s` ends with one. It is the longest suffix of
      `s` free of separators. */
  function LastPiece(s: string, seps: set<char>): (t: string)
    ensures |t| <= |s| && t == s[|s| - |t|..]
    ensures FreeOf(t, seps)
    ensures |t| < |s| ==> s[|s| - |t| - 1] in seps
  {
    SplitLast(s, seps);
    SplitPiecesFree(s, seps);
    var pieces := Split(s, seps);
    pieces[|pieces| - 1]
  }

  /** The last piece of a sequence of pieces, `None` for no pieces. */
  function Last(pieces: seq<string>): Option<string>
  {
    if |pieces| == 0 then None else Some(pieces[|pieces| - 1])
  }

  /** Taking the last piece of a split never fails: it is the text after
      the last separator. */
  lemma LastOfSplit(s: string, seps: set<char>)
    ensures Last(Split(s, seps)) == Some(LastPiece(s, seps))
  {
  }
}
