/** Rust's `str::split("..")`, as `parse_date_range` uses it: the input is
    searched left to right for the separator `..`, each match is consumed
    whole (matches never overlap), and the text between matches becomes a
    piece. An input without a separator is one piece; `..` alone is two
    empty pieces. */
module StrSplit {

  const Sep: string := ".."

  /** `s` contains the separator somewhere. */
  predicate HasSep(s: string) {
    exists i :: 0 <= i < |s| - 1 && s[i] == '.' && s[i + 1] == '.'
  }

  predicate EndsWithDot(s: string) {
    |s| > 0 && s[|s| - 1] == '.'
  }

  /** The pieces glued back together with the separator. */
  function Join(pieces: seq<string>): string
    requires |pieces| >= 1
  {
    if |pieces| == 1 then pieces[0] else pieces[0] + Sep + Join(pieces[1..])
  }

  /** What separates a leftmost, non-overlapping split from any other way of
      cutting `s` at separators: the pieces join back to `s`, no piece holds a
      separator, and no piece but the last ends with a dot (otherwise that
      dot and the separator after it would have held an earlier match). */
  predicate IsLeftmostSplit(s: string, pieces: seq<string>) {
    && |pieces| >= 1
    && Join(pieces) == s
    && (forall i :: 0 <= i < |pieces| ==> !HasSep(pieces[i]))
    && (forall i :: 0 <= i < |pieces| - 1 ==> !EndsWithDot(pieces[i]))
  }

  /** The pieces of `s.split("..")`, in order. */
  function Split(s: string): (pieces: seq<string>)
    ensures |pieces| >= 1
    decreases |s|
  {
    if |s| < 2 then [s]
    else if s[0] == '.' && s[1] == '.' then [""] + Split(s[2..])
    else
      var rest := Split(s[1..]);
      [[s[0]] + rest[0]] + rest[1..]
  }

  /** The split is leftmost and non-overlapping. */
  lemma {:induction false} SplitIsLeftmost(s: string)
    ensures IsLeftmostSplit(s, Split(s))
    decreases |s|
  {
    if |s| < 2 {
    } else if s[0] == '.' && s[1] == '.' {
      SplitIsLeftmost(s[2..]);
      LeftmostAfterSep(s[2..], Split(s[2..]));
      assert s == Sep + s[2..];
    } else {
      SplitIsLeftmost(s[1..]);
      LeftmostCons(s[0], s[1..], Split(s[1..]));
      assert s == [s[0]] + s[1..];
    }
  }

  /** A separator in front of a leftmost split adds an empty first piece. */
  lemma LeftmostAfterSep(t: string, rest: seq<string>)
    requires IsLeftmostSplit(t, rest)
    ensures IsLeftmostSplit(Sep + t, [""] + rest)
  {
    JoinCons("", rest);
    assert ([""] + rest)[1..] == rest;
  }

  /** A character that does not start a separator joins the first piece. */
  lemma LeftmostCons(c: char, t: string, rest: seq<string>)
    requires IsLeftmostSplit(t, rest)
    requires !(c == '.' && |t| > 0 && t[0] == '.')
    ensures IsLeftmostSplit([c] + t, [[c] + rest[0]] + rest[1..])
  {
    JoinHead(rest);
    JoinCons(rest[0], rest[1..]);
    var head := [c] + rest[0];
    var pieces := [head] + rest[1..];
    assert pieces[1..] == rest[1..];
    assert !HasSep(head) by {
      if rest[0] != "" {
        assert rest[0][0] == t[0];
      } else if |rest| > 1 {
        assert t[..2] == Sep;
      }
    }
    assert |rest| > 1 ==> !EndsWithDot(head) by {
      if |rest| > 1 && rest[0] == "" {
        assert t[..2] == Sep;
      }
    }
    JoinCons(head, rest[1..]);
  }

  /** Joining a piece in front of the rest. */
  lemma JoinCons(p: string, rest: seq<string>)
    ensures rest == [] ==> Join([p] + rest) == p
    ensures rest != [] ==> Join([p] + rest) == p + Sep + Join(rest)
  {
    assert ([p] + rest)[1..] == rest;
  }

  /** The first piece is a prefix of the joined text, followed by the
      separator when more pieces come. */
  lemma JoinHead(pieces: seq<string>)
    requires |pieces| >= 1
    ensures |pieces[0]| <= |Join(pieces)| && Join(pieces)[..|pieces[0]|] == pieces[0]
    ensures |pieces| > 1 ==>
      |Join(pieces)| >= |pieces[0]| + 2 && Join(pieces)[|pieces[0]|..|pieces[0]| + 2] == Sep
  {
  }

  /** A separator in the tail of `s` is a separator in `s`. */
  lemma SepInTail(s: string)
    requires |s| >= 1
    ensures HasSep(s[1..]) ==> HasSep(s)
  {
    if HasSep(s[1..]) {
      var i :| 0 <= i < |s[1..]| - 1 && s[1..][i] == '.' && s[1..][i + 1] == '.';
      assert s[i + 1] == '.' && s[i + 2] == '.';
    }
  }

  /** Splitting a text with no separator gives the text back as its only piece. */
  lemma {:induction false} SplitNoSep(s: string)
    requires !HasSep(s)
    ensures Split(s) == [s]
    decreases |s|
  {
    if |s| >= 2 {
      assert !(s[0] == '.' && s[1] == '.');
      SepInTail(s);
      SplitNoSep(s[1..]);
      assert [s[0]] + s[1..] == s;
    }
  }

  /** A leading piece that holds no separator and does not end with a dot is
      split off as it is. */
  lemma {:induction false} SplitPrefix(p: string, t: string)
    requires !HasSep(p) && !EndsWithDot(p)
    ensures Split(p + Sep + t) == [p] + Split(t)
    decreases |p|
  {
    var s := p + Sep + t;
    if p == [] {
      assert s[2..] == t;
    } else {
      var p' := p[1..];
      assert s[1..] == p' + Sep + t;
      SepInTail(p);
      assert !EndsWithDot(p') by {
        if p' != [] {
          assert p'[|p'| - 1] == p[|p| - 1];
        }
      }
      if p' == [] {
        assert s[1] == '.';
        assert s[0] != '.';
      } else {
        assert s[1] == p'[0] == p[1];
        assert !(p[0] == '.' && p[1] == '.');
      }
      SplitPrefix(p', t);
      assert [s[0]] + p' == p;
    }
  }

  /** The leftmost split is the only way of cutting `s` that satisfies
      IsLeftmostSplit. */
  lemma {:induction false} SplitUnique(s: string, pieces: seq<string>)
    requires IsLeftmostSplit(s, pieces)
    ensures pieces == Split(s)
    decreases |pieces|
  {
    if |pieces| == 1 {
      SplitNoSep(s);
    } else {
      var rest := pieces[1..];
      assert forall i :: 0 <= i < |rest| ==> rest[i] == pieces[i + 1];
      assert IsLeftmostSplit(Join(rest), rest);
      SplitUnique(Join(rest), rest);
      assert !HasSep(pieces[0]) && !EndsWithDot(pieces[0]);
      SplitPrefix(pieces[0], Join(rest));
      assert pieces == [pieces[0]] + rest;
    }
  }

  /** Both directions: a sequence of pieces is the result of the split exactly
      when it is a leftmost, non-overlapping cut of `s`. */
  lemma SplitCharacterization(s: string, pieces: seq<string>)
    ensures IsLeftmostSplit(s, pieces) <==> pieces == Split(s)
  {
    SplitIsLeftmost(s);
    if IsLeftmostSplit(s, pieces) {
      SplitUnique(s, pieces);
    }
  }

  /** The number of non-overlapping matches of the separator found by a
      left-to-right search (`s.matches("..").count()`). */
  function Occurrences(s: string): nat
    decreases |s|
  {
    if |s| < 2 then 0
    else if s[0] == '.' && s[1] == '.' then 1 + Occurrences(s[2..])
    else Occurrences(s[1..])
  }

  /** There is one more piece than there are separators. */
  lemma {:induction false} PieceCount(s: string)
    ensures |Split(s)| == Occurrences(s) + 1
    decreases |s|
  {
    if |s| >= 2 {
      if s[0] == '.' && s[1] == '.' {
        PieceCount(s[2..]);
      } else {
        PieceCount(s[1..]);
      }
    }
  }

  /** A text has no separator exactly when the search finds no match. */
  lemma {:induction false} NoOccurrences(s: string)
    ensures Occurrences(s) == 0 <==> !HasSep(s)
    decreases |s|
  {
    if |s| >= 2 {
      if s[0] == '.' && s[1] == '.' {
      } else {
        NoOccurrences(s[1..]);
        if HasSep(s) {
          var i :| 0 <= i < |s| - 1 && s[i] == '.' && s[i + 1] == '.';
          assert i > 0;
          assert s[1..][i - 1] == '.' && s[1..][i] == '.';
        }
        SepInTail(s);
      }
    } else {
      assert !HasSep(s);
    }
  }
}
