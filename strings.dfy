/** `string.Split(char)` and `string.Join(string, ...)` for a one-character separator. */
module Strings {

  /** The pieces between separators, in order. There is always at least one piece, and
      empty pieces are kept: `Split("", c) == [""]`, `Split("a+", '+') == ["a", ""]`. */
  function Split(s: string, sep: char): (r: seq<string>)
    ensures |r| > 0
    decreases |s|
  {
    if s == [] then [[]]
    else
      var rest := Split(s[1..], sep);
      if s[0] == sep then [[]] + rest
      else [[s[0]] + rest[0]] + rest[1..]
  }

  /** The pieces with the separator between each neighbouring pair; no pieces give "". */
  function Join(pieces: seq<string>, sep: char): string
    decreases |pieces|
  {
    if pieces == [] then []
    else if |pieces| == 1 then pieces[0]
    else pieces[0] + [sep] + Join(pieces[1..], sep)
  }

  /** Joining the pieces gives the string back. */
  lemma {:induction false} JoinSplit(s: string, sep: char)
    ensures Join(Split(s, sep), sep) == s
    decreases |s|
  {
    if s != [] {
      var rest := Split(s[1..], sep);
      JoinSplit(s[1..], sep);
      if s[0] == sep {
        assert Split(s, sep)[1..] == rest;
      } else {
        var r := Split(s, sep);
        if |rest| == 1 {
          assert r == [[s[0]] + rest[0]];
        } else {
          assert r[1..] == rest[1..];
          assert Join(rest, sep) == rest[0] + [sep] + Join(rest[1..], sep);
        }
      }
    }
  }

  /** No piece holds the separator. */
  lemma {:induction false} SplitPiecesFree(s: string, sep: char)
    ensures forall i :: 0 <= i < |Split(s, sep)| ==> sep !in Split(s, sep)[i]
    decreases |s|
  {
    if s != [] {
      SplitPiecesFree(s[1..], sep);
    }
  }

  /** A string with no separator is one piece. */
  lemma {:induction false} SplitNoSep(s: string, sep: char)
    requires sep !in s
    ensures Split(s, sep) == [s]
    decreases |s|
  {
    if s != [] {
      assert sep !in s[1..];
      SplitNoSep(s[1..], sep);
      assert [s[0]] + s[1..] == s;
    }
  }

  /** A separator between two strings is where their pieces meet. */
  lemma {:induction false} SplitAtSep(a: string, b: string, sep: char)
    ensures Split(a + [sep] + b, sep) == Split(a, sep) + Split(b, sep)
    decreases |a|
  {
    if a == [] {
      assert [] + [sep] + b == [sep] + b;
      assert ([sep] + b)[1..] == b;
    } else {
      assert (a + [sep] + b)[1..] == a[1..] + [sep] + b;
      assert (a + [sep] + b)[0] == a[0];
      SplitAtSep(a[1..], b, sep);
      if a[0] != sep {
        ExtendFirst(a[0], Split(a[1..], sep), Split(b, sep));
      }
    }
  }

  /** Growing the first piece of a list of pieces commutes with appending more pieces. */
  lemma ExtendFirst(ch: char, ra: seq<string>, rb: seq<string>)
    requires |ra| > 0
    ensures [[ch] + (ra + rb)[0]] + (ra + rb)[1..] == ([[ch] + ra[0]] + ra[1..]) + rb
  {
    assert (ra + rb)[0] == ra[0];
    assert (ra + rb)[1..] == ra[1..] + rb;
  }

  /** The pieces of `a` and of `b` with the last piece of the one and the first piece of
      the other run together around `c`. */
  function Glue(ra: seq<string>, c: char, rb: seq<string>): (r: seq<string>)
    requires |ra| > 0 && |rb| > 0
    ensures |r| == |ra| + |rb| - 1
  {
    ra[..|ra| - 1] + [ra[|ra| - 1] + [c] + rb[0]] + rb[1..]
  }

  /** Gluing after a piece that stays whole. */
  lemma GlueCons(x: string, rt: seq<string>, c: char, rb: seq<string>)
    requires |rt| > 0 && |rb| > 0
    ensures Glue([x] + rt, c, rb) == [x] + Glue(rt, c, rb)
  {
    assert ([x] + rt)[..|rt|] == [x] + rt[..|rt| - 1];
  }

  /** Gluing after a piece that grows by one character at the front. */
  lemma GlueHead(ch: char, rt: seq<string>, c: char, rb: seq<string>)
    requires |rt| > 0 && |rb| > 0
    ensures Glue([[ch] + rt[0]] + rt[1..], c, rb)
         == var g := Glue(rt, c, rb); [[ch] + g[0]] + g[1..]
  {
    var g := Glue(rt, c, rb);
    if |rt| == 1 {
      assert g == [rt[0] + [c] + rb[0]] + rb[1..];
      assert [ch] + (rt[0] + [c] + rb[0]) == ([ch] + rt[0]) + [c] + rb[0];
    } else {
      assert g[0] == rt[0];
      assert g[1..] == rt[1..|rt| - 1] + [rt[|rt| - 1] + [c] + rb[0]] + rb[1..];
    }
  }

  /** A character other than the separator joins the last piece of one side to the first
      piece of the other. */
  lemma {:induction false} SplitAtOther(a: string, c: char, b: string, sep: char)
    requires c != sep
    ensures Split(a + [c] + b, sep) == Glue(Split(a, sep), c, Split(b, sep))
    decreases |a|
  {
    var rb := Split(b, sep);
    if a == [] {
      assert [] + [c] + b == [c] + b;
      assert ([c] + b)[1..] == b;
    } else {
      assert (a + [c] + b)[1..] == a[1..] + [c] + b;
      assert (a + [c] + b)[0] == a[0];
      SplitAtOther(a[1..], c, b, sep);
      var rt := Split(a[1..], sep);
      if a[0] == sep {
        GlueCons([], rt, c, rb);
      } else {
        GlueHead(a[0], rt, c, rb);
      }
    }
  }

  /** Joining two non-empty lists of pieces puts one separator where they meet. */
  lemma {:induction false} JoinAppend(a: seq<string>, b: seq<string>, sep: char)
    requires |a| > 0 && |b| > 0
    ensures Join(a + b, sep) == Join(a, sep) + [sep] + Join(b, sep)
    decreases |a|
  {
    if |a| == 1 {
      assert (a + b)[1..] == b;
    } else {
      JoinAppend(a[1..], b, sep);
      assert (a + b)[1..] == a[1..] + b;
    }
  }

  /** Splitting a join gives the pieces back when none holds the separator. */
  lemma {:induction false} SplitJoin(pieces: seq<string>, sep: char)
    requires |pieces| > 0
    requires forall i :: 0 <= i < |pieces| ==> sep !in pieces[i]
    ensures Split(Join(pieces, sep), sep) == pieces
    decreases |pieces|
  {
    if |pieces| == 1 {
      SplitNoSep(pieces[0], sep);
    } else {
      SplitJoin(pieces[1..], sep);
      SplitNoSep(pieces[0], sep);
      SplitAtSep(pieces[0], Join(pieces[1..], sep), sep);
      assert [pieces[0]] + pieces[1..] == pieces;
    }
  }

  /** Ordinal comparison: the first differing character decides, and a proper prefix comes
      first. The result is -1, 0 or 1. */
  function CompareOrdinal(s: string, t: string): (r: int)
    ensures -1 <= r <= 1
  {
    if s == [] && t == [] then 0
    else if s == [] then -1
    else if t == [] then 1
    else if s[0] < t[0] then -1
    else if s[0] > t[0] then 1
    else CompareOrdinal(s[1..], t[1..])
  }

  /** Only equal strings compare equal. */
  lemma {:induction false} CompareOrdinalZero(s: string, t: string)
    ensures CompareOrdinal(s, t) == 0 <==> s == t
  {
    if s != [] && t != [] && s[0] == t[0] {
      CompareOrdinalZero(s[1..], t[1..]);
      if s[1..] == t[1..] {
        assert s == [s[0]] + s[1..] && t == [t[0]] + t[1..];
      }
    }
  }

  /** Swapping the operands flips the sign. */
  lemma {:induction false} CompareOrdinalFlip(s: string, t: string)
    ensures CompareOrdinal(t, s) == -CompareOrdinal(s, t)
  {
    if s != [] && t != [] && s[0] == t[0] {
      CompareOrdinalFlip(s[1..], t[1..]);
    }
  }

  /** The order is transitive. */
  lemma {:induction false} CompareOrdinalTrans(s: string, t: string, u: string)
    requires CompareOrdinal(s, t) <= 0 && CompareOrdinal(t, u) <= 0
    ensures CompareOrdinal(s, u) <= 0
  {
    if s != [] && t != [] && u != [] && s[0] == t[0] && t[0] == u[0] {
      CompareOrdinalTrans(s[1..], t[1..], u[1..]);
    }
  }
}
