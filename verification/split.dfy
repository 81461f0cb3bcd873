/** Python's `str.split(sep)` for a one-character separator, and its inverse
    `sep.join(pieces)`. No trimming is done, empty pieces are kept, and every
    string (the empty one included) splits into at least one piece. */
module TextSplit {

  /** Number of occurrences of `c` in `s`. */
  function Count(s: string, c: char): nat {
    if |s| == 0 then 0 else (if s[0] == c then 1 else 0) + Count(s[1..], c)
  }

  /** The pieces of `s` between occurrences of `sep`, left to right. */
  function Split(s: string, sep: char): (pieces: seq<string>)
    ensures |pieces| >= 1
    ensures forall i :: 0 <= i < |pieces| ==> sep !in pieces[i]
  {
    if |s| == 0 then [""]
    else
      var rest := Split(s[1..], sep);
      if s[0] == sep then [""] + rest
      else [[s[0]] + rest[0]] + rest[1..]
  }

  /** The pieces glued back together with `sep` between neighbours. */
  function Join(pieces: seq<string>, sep: char): string
    requires |pieces| >= 1
  {
    if |pieces| == 1 then pieces[0] else pieces[0] + [sep] + Join(pieces[1..], sep)
  }

  /** A string with `n` separators has `n + 1` pieces. */
  lemma {:induction false} SplitCount(s: string, sep: char)
    ensures |Split(s, sep)| == Count(s, sep) + 1
  {
    if |s| > 0 {
      SplitCount(s[1..], sep);
    }
  }

  /** Joining the pieces gives back the string that was split. */
  lemma {:induction false} JoinSplit(s: string, sep: char)
    ensures Join(Split(s, sep), sep) == s
  {
    if |s| > 0 {
      var rest := Split(s[1..], sep);
      JoinSplit(s[1..], sep);
      if s[0] == sep {
        assert ([""] + rest)[1..] == rest;
      } else {
        var pieces := [[s[0]] + rest[0]] + rest[1..];
        if |rest| > 1 {
          assert pieces[1..] == rest[1..];
          assert Join(pieces, sep) == [s[0]] + (rest[0] + [sep] + Join(rest[1..], sep));
        }
      }
    }
  }

  /** A string without the separator is a single piece, and a separator after
      such a prefix ends the first piece. */
  lemma {:induction false} SplitAfterPiece(a: string, t: string, sep: char)
    requires sep !in a
    ensures Split(a, sep) == [a]
    ensures Split(a + [sep] + t, sep) == [a] + Split(t, sep)
  {
    if |a| > 0 {
      SplitAfterPiece(a[1..], t, sep);
      assert (a + [sep] + t)[1..] == a[1..] + [sep] + t;
      assert [a[0]] + a[1..] == a;
    } else {
      assert a + [sep] + t == [sep] + t;
      assert ([sep] + t)[1..] == t;
    }
  }

  /** Splitting joined separator-free pieces gives back the pieces, so `Split`
      and `Join` are inverse bijections between strings and non-empty lists of
      separator-free pieces. */
  lemma {:induction false} SplitJoin(pieces: seq<string>, sep: char)
    requires |pieces| >= 1
    requires forall i :: 0 <= i < |pieces| ==> sep !in pieces[i]
    ensures Split(Join(pieces, sep), sep) == pieces
  {
    SplitAfterPiece(pieces[0], [], sep);
    if |pieces| > 1 {
      SplitJoin(pieces[1..], sep);
      SplitAfterPiece(pieces[0], Join(pieces[1..], sep), sep);
      assert [pieces[0]] + pieces[1..] == pieces;
    }
  }

  /** Some separator in `s` is directly followed by another separator or by the
      end of `s`: the piece after it is empty. */
  predicate HasGapAfterSep(s: string, sep: char) {
    exists i :: 0 <= i < |s| && s[i] == sep && (i + 1 == |s| || s[i + 1] == sep)
  }

  /** An empty piece other than the first one exists exactly when a separator
      is followed by another separator or by the end. */
  lemma {:induction false} EmptyLaterPieceIff(s: string, sep: char)
    ensures "" in Split(s, sep)[1..] <==> HasGapAfterSep(s, sep)
  {
    if |s| > 0 {
      var t := s[1..];
      var rest := Split(t, sep);
      EmptyLaterPieceIff(t, sep);
      if HasGapAfterSep(t, sep) {
        var i :| 0 <= i < |t| && t[i] == sep && (i + 1 == |t| || t[i + 1] == sep);
        assert s[i + 1] == sep && (i + 2 == |s| || s[i + 2] == sep);
      }
      if HasGapAfterSep(s, sep) {
        var i :| 0 <= i < |s| && s[i] == sep && (i + 1 == |s| || s[i + 1] == sep);
        if i > 0 {
          assert t[i - 1] == sep && (i == |t| || t[i] == sep);
        }
      }
      if s[0] == sep {
        assert Split(s, sep)[1..] == rest;
        assert "" in rest <==> (|t| == 0 || t[0] == sep || "" in rest[1..]) by {
          if |t| > 0 && t[0] != sep {
            assert rest[0] != "" by {
              assert rest == [[t[0]] + Split(t[1..], sep)[0]] + Split(t[1..], sep)[1..];
            }
          }
          if |t| > 0 && t[0] == sep {
            assert rest == [""] + Split(t[1..], sep);
          }
          assert rest == [rest[0]] + rest[1..];
        }
      } else {
        assert Split(s, sep)[1..] == rest[1..];
      }
    }
  }

  /** A split has an empty piece exactly when the string is empty, starts with
      the separator, or has a separator followed by another one or by the end. */
  lemma EmptyPieceIff(s: string, sep: char)
    ensures "" in Split(s, sep) <==> |s| == 0 || s[0] == sep || HasGapAfterSep(s, sep)
  {
    var pieces := Split(s, sep);
    EmptyLaterPieceIff(s, sep);
    assert pieces == [pieces[0]] + pieces[1..];
    if |s| > 0 && s[0] != sep {
      assert pieces[0] != "";
    }
  }
}
