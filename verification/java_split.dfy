/**
 Java's `String.split(regex)` (limit 0) for the three patterns the server
 uses, each of which matches exactly one character:
 - the string is cut at every matching character;
 - a match at index 0 leaves a leading empty token;
 - trailing empty tokens are removed;
 - a string with no match at all, the empty string included, comes back whole.
 */
module JavaSplit {

  import JavaDecimal

  datatype Pattern =
    | NonNumeral  // [^0-9\\.] : any character except a digit, '.' or '\'
    | Digit       // [0-9]
    | Bar         // \| : the protocol's field separator

  predicate Matches(p: Pattern, c: char) {
    match p
    case NonNumeral => !(JavaDecimal.IsDigit(c) || c == '.' || c == '\\')
    case Digit => JavaDecimal.IsDigit(c)
    case Bar => c == '|'
  }

  /** No character of `s` matches `p`. */
  predicate Free(s: string, p: Pattern) {
    forall i :: 0 <= i < |s| ==> !Matches(p, s[i])
  }

  /** Every character of `s` matches `p`. */
  predicate AllMatch(s: string, p: Pattern) {
    forall i :: 0 <= i < |s| ==> Matches(p, s[i])
  }

  /** The matching characters of `s`, in order. */
  function Separators(s: string, p: Pattern): (r: string)
    ensures |r| <= |s|
    ensures AllMatch(r, p)
  {
    if |s| == 0 then ""
    else if Matches(p, s[0]) then [s[0]] + Separators(s[1..], p)
    else Separators(s[1..], p)
  }

  /** Every piece of `s` between consecutive matches, empty pieces included:
      one more piece than there are matches. The first piece is the longest
      prefix of `s` without a match. */
  function Pieces(s: string, p: Pattern): (r: seq<string>)
    ensures |r| == |Separators(s, p)| + 1
    ensures forall k :: 0 <= k < |r| ==> Free(r[k], p)
    ensures |r[0]| <= |s| && s[..|r[0]|] == r[0]
    ensures |r[0]| < |s| ==> Matches(p, s[|r[0]|])
    decreases |s|
  {
    if |s| == 0 then [""]
    else
      var rest := Pieces(s[1..], p);
      if Matches(p, s[0]) then [""] + rest
      else
        var head := [s[0]] + rest[0];
        assert s[..|head|] == [s[0]] + s[1..][..|rest[0]|];
        [head] + rest[1..]
  }

  /** Pieces joined back with the separators between them. */
  function Join(pieces: seq<string>, seps: string): string
    requires |pieces| == |seps| + 1
  {
    if |seps| == 0 then pieces[0]
    else pieces[0] + [seps[0]] + Join(pieces[1..], seps[1..])
  }

  /** Cutting `s` into pieces loses nothing: joining the pieces with the
      matched characters rebuilds `s`. */
  lemma {:induction false} PiecesJoin(s: string, p: Pattern)
    ensures Join(Pieces(s, p), Separators(s, p)) == s
    decreases |s|
  {
    if |s| > 0 {
      var rest := Pieces(s[1..], p);
      var seps := Separators(s[1..], p);
      PiecesJoin(s[1..], p);
      if Matches(p, s[0]) {
        assert Pieces(s, p) == [""] + rest;
        assert Pieces(s, p)[1..] == rest;
        assert s == "" + [s[0]] + s[1..];
      } else {
        var r := Pieces(s, p);
        assert r == [[s[0]] + rest[0]] + rest[1..];
        if |seps| == 0 {
          assert Join(rest, seps) == rest[0];
        } else {
          assert r[1..] == rest[1..];
          assert Join(rest, seps) == rest[0] + [seps[0]] + Join(rest[1..], seps[1..]);
        }
      }
    }
  }

  /** `pieces` with its trailing empty strings removed. */
  function DropTrailingEmpty(pieces: seq<string>): (r: seq<string>)
    ensures |r| <= |pieces| && r == pieces[..|r|]
    ensures forall k :: |r| <= k < |pieces| ==> pieces[k] == ""
    ensures |r| == 0 || r[|r| - 1] != ""
  {
    if |pieces| == 0 || pieces[|pieces| - 1] != "" then pieces
    else DropTrailingEmpty(pieces[..|pieces| - 1])
  }

  /** `s.split(p)`. */
  function Split(s: string, p: Pattern): (r: seq<string>)
    ensures forall k :: 0 <= k < |r| ==> Free(r[k], p)
  {
    if Free(s, p) then [s] else DropTrailingEmpty(Pieces(s, p))
  }

  /** The tokens of a split that are not empty, in order. */
  function NonEmpty(tokens: seq<string>): (r: seq<string>)
    ensures |r| <= |tokens|
    ensures forall k :: 0 <= k < |r| ==> r[k] != ""
  {
    if |tokens| == 0 then []
    else if tokens[0] == "" then NonEmpty(tokens[1..])
    else [tokens[0]] + NonEmpty(tokens[1..])
  }

  /** A prefix without a match, then a match: the prefix is the first piece
      and the pieces of the remainder follow. */
  lemma {:induction false} PiecesAtMatch(x: string, c: char, y: string, p: Pattern)
    requires Free(x, p) && Matches(p, c)
    ensures Pieces(x + [c] + y, p) == [x] + Pieces(y, p)
    decreases |x|
  {
    var s := x + [c] + y;
    if |x| == 0 {
      assert s[1..] == y;
    } else {
      assert s[1..] == x[1..] + [c] + y;
      PiecesAtMatch(x[1..], c, y, p);
      assert [x[0]] + x[1..] == x;
    }
  }

  /** A string without a match is a single piece. */
  lemma {:induction false} PiecesOfFree(s: string, p: Pattern)
    requires Free(s, p)
    ensures Pieces(s, p) == [s]
    decreases |s|
  {
    if |s| > 0 {
      PiecesOfFree(s[1..], p);
      assert [s[0]] + s[1..] == s;
    }
  }

  /** A string made only of matches is cut into empty pieces only. */
  lemma {:induction false} PiecesOfAllMatch(s: string, p: Pattern)
    requires AllMatch(s, p)
    ensures forall k :: 0 <= k < |Pieces(s, p)| ==> Pieces(s, p)[k] == ""
    decreases |s|
  {
    if |s| > 0 {
      PiecesOfAllMatch(s[1..], p);
    }
  }

  /** Empty pieces joined back give only the separators. */
  lemma {:induction false} JoinOfEmpties(pieces: seq<string>, seps: string)
    requires |pieces| == |seps| + 1
    requires forall k :: 0 <= k < |pieces| ==> pieces[k] == ""
    ensures Join(pieces, seps) == seps
    decreases |seps|
  {
    if |seps| > 0 {
      JoinOfEmpties(pieces[1..], seps[1..]);
    }
  }

  /** A string with a character that does not match has a non-empty piece. */
  lemma PiecesNotAllEmpty(s: string, p: Pattern, i: nat)
    requires i < |s| && !Matches(p, s[i])
    ensures exists k :: 0 <= k < |Pieces(s, p)| && Pieces(s, p)[k] != ""
  {
    var pieces, seps := Pieces(s, p), Separators(s, p);
    if forall k :: 0 <= k < |pieces| ==> pieces[k] == "" {
      PiecesJoin(s, p);
      JoinOfEmpties(pieces, seps);
      assert false;
    }
  }

  /** A non-empty piece survives the split, and so does every piece before it. */
  lemma SplitKeepsPiece(s: string, p: Pattern, j: nat)
    requires !Free(s, p)
    requires j < |Pieces(s, p)| && Pieces(s, p)[j] != ""
    ensures j < |Split(s, p)| && Split(s, p) == Pieces(s, p)[..|Split(s, p)|]
  {
  }

  /** A match-free prefix followed by a match, or by nothing, is the first piece. */
  lemma FirstPiece(x: string, y: string, p: Pattern)
    requires Free(x, p)
    requires y == "" || Matches(p, y[0])
    ensures Pieces(x + y, p)[0] == x
  {
    if y == "" {
      assert x + y == x;
      PiecesOfFree(x, p);
    } else {
      assert x + y == x + [y[0]] + y[1..];
      PiecesAtMatch(x, y[0], y[1..], p);
    }
  }

  /** `x c y` where `y` starts with a match but later holds a non-matching
      character: the second token is empty, yet it is kept. */
  lemma SplitSecondEmpty(x: string, c: char, y: string, p: Pattern, i: nat)
    requires Free(x, p) && Matches(p, c)
    requires 0 < i < |y| && Matches(p, y[0]) && !Matches(p, y[i])
    ensures var t := Split(x + [c] + y, p); |t| >= 2 && t[0] == x && t[1] == ""
  {
    var s := x + [c] + y;
    var pieces, tail, rest := Pieces(s, p), Pieces(y, p), Pieces(y[1..], p);
    PiecesNotAllEmpty(y[1..], p, i - 1);
    var k :| 0 <= k < |rest| && rest[k] != "";
    assert pieces[0] == x && pieces[1] == "" && pieces[k + 2] != "" by {
      PiecesAtMatch(x, c, y, p);
      assert tail == [""] + rest;
      assert pieces[1] == tail[0] && pieces[k + 2] == tail[k + 1] == rest[k];
    }
    assert !Free(s, p) by {
      assert s[|x|] == c;
    }
    SplitKeepsPiece(s, p, k + 2);
  }

  /** `x c e y` with a non-empty match-free `e`, where `y` is empty or starts
      with a match: the first two tokens are `x` and `e`. */
  lemma SplitSecondNonEmpty(x: string, c: char, e: string, y: string, p: Pattern)
    requires Free(x, p) && Matches(p, c) && e != "" && Free(e, p)
    requires y == "" || Matches(p, y[0])
    ensures var t := Split(x + [c] + e + y, p); |t| >= 2 && t[0] == x && t[1] == e
  {
    var s := x + [c] + (e + y);
    assert s == x + [c] + e + y;
    var pieces := Pieces(s, p);
    assert pieces[0] == x && pieces[1] == e by {
      PiecesAtMatch(x, c, e + y, p);
      FirstPiece(e, y, p);
    }
    assert !Free(s, p) by {
      assert s[|x|] == c;
    }
    SplitKeepsPiece(s, p, 1);
  }

  /** The first two tokens of `x c e y`, where `x` and `e` hold no match, `c`
      matches and `y` is empty or starts with a match: `x` and `e`, provided
      `e` is non-empty or `y` holds a non-matching character. */
  lemma SplitFirstTwo(x: string, c: char, e: string, y: string, p: Pattern)
    requires Free(x, p) && Matches(p, c) && Free(e, p)
    requires y == "" || Matches(p, y[0])
    requires e != "" || exists i :: 0 <= i < |y| && !Matches(p, y[i])
    ensures var t := Split(x + [c] + e + y, p); |t| >= 2 && t[0] == x && t[1] == e
  {
    if e == "" {
      var i :| 0 <= i < |y| && !Matches(p, y[i]);
      assert x + [c] + e + y == x + [c] + y;
      SplitSecondEmpty(x, c, y, p, i);
    } else {
      SplitSecondNonEmpty(x, c, e, y, p);
    }
  }

  /** Splitting the empty string yields one empty token. */
  lemma SplitOfEmpty(p: Pattern)
    ensures Split("", p) == [""]
  {
  }

  /** A split yields no token at all exactly when the string is non-empty and
      made only of matches. */
  lemma SplitEmptyIff(s: string, p: Pattern)
    ensures |Split(s, p)| == 0 <==> |s| > 0 && AllMatch(s, p)
  {
    if |s| > 0 && AllMatch(s, p) {
      assert !Free(s, p) by { assert Matches(p, s[0]); }
      PiecesOfAllMatch(s, p);
    }
    if |Split(s, p)| == 0 {
      var pieces := Pieces(s, p);
      assert !Free(s, p);
      assert forall k :: 0 <= k < |pieces| ==> pieces[k] == "";
      PiecesJoin(s, p);
      JoinOfEmpties(pieces, Separators(s, p));
    }
  }

  /** On a non-empty string, no token is trailing-empty: the last token, if
      any, is non-empty. */
  lemma SplitNoTrailingEmpty(s: string, p: Pattern)
    requires |s| > 0 && |Split(s, p)| > 0
    ensures Split(s, p)[|Split(s, p)| - 1] != ""
  {
  }

  /** A match at index 0 leaves a leading empty token, unless every character
      matches (then there is no token at all). */
  lemma SplitLeadingEmpty(s: string, p: Pattern)
    requires |s| > 0 && Matches(p, s[0]) && !AllMatch(s, p)
    ensures |Split(s, p)| > 0 && Split(s, p)[0] == ""
  {
    SplitEmptyIff(s, p);
    assert !Free(s, p);
  }

  /** The first token, when there is one, is the first piece: the longest
      prefix without a match. */
  lemma SplitFirst(s: string, p: Pattern)
    requires |Split(s, p)| > 0
    ensures Split(s, p)[0] == Pieces(s, p)[0]
  {
    if Free(s, p) {
      PiecesOfFree(s, p);
    }
  }

  /** The first token is `w` (a non-empty string without a match) exactly when
      `s` is `w` alone or `w` followed by a match. */
  lemma SplitHead(s: string, p: Pattern, w: string)
    requires w != "" && Free(w, p)
    ensures |Split(s, p)| > 0 && Split(s, p)[0] == w
        <==> s == w || (|w| < |s| && s[..|w|] == w && Matches(p, s[|w|]))
  {
    if !Free(s, p) {
      var pieces := Pieces(s, p);
      var head := pieces[0];
      if s == w {
        assert false;
      }
      if |w| < |s| && s[..|w|] == w && Matches(p, s[|w|]) {
        assert head == w;
      }
      if |Split(s, p)| > 0 && Split(s, p)[0] == w {
        assert head == w;
      }
    }
  }

  /** When a split yields at least two tokens, the first token is a prefix of
      `s` ended by a match, and the second token is the first piece of what
      follows that match. */
  lemma SplitSecond(s: string, p: Pattern)
    requires |Split(s, p)| >= 2
    ensures var t := Split(s, p); var n := |t[0]|;
      && n < |s| && s[..n] == t[0] && Matches(p, s[n])
      && t[1] == Pieces(s[n + 1..], p)[0]
  {
    assert !Free(s, p);
    var t := Split(s, p);
    var pieces := Pieces(s, p);
    assert t == DropTrailingEmpty(pieces);
    assert t[0] == pieces[0] && t[1] == pieces[1];
    var n := |t[0]|;
    if n == |s| {
      assert false;
    }
    var x, y := s[..n], s[n + 1..];
    assert s == x + [s[n]] + y;
    PiecesAtMatch(x, s[n], y, p);
  }

  /** Filtering keeps exactly the non-empty tokens. */
  lemma {:induction false} NonEmptyMembers(tokens: seq<string>, t: string)
    ensures t in NonEmpty(tokens) <==> t in tokens && t != ""
    decreases |tokens|
  {
    if |tokens| > 0 {
      NonEmptyMembers(tokens[1..], t);
      assert tokens == [tokens[0]] + tokens[1..];
    }
  }

  lemma {:induction false} NonEmptyAppend(a: seq<string>, b: seq<string>)
    ensures NonEmpty(a + b) == NonEmpty(a) + NonEmpty(b)
    decreases |a|
  {
    if |a| == 0 {
      assert a + b == b;
    } else {
      assert (a + b)[0] == a[0];
      assert (a + b)[1..] == a[1..] + b;
      NonEmptyAppend(a[1..], b);
    }
  }

  lemma {:induction false} NonEmptyOfEmpties(a: seq<string>)
    requires forall k :: 0 <= k < |a| ==> a[k] == ""
    ensures NonEmpty(a) == []
    decreases |a|
  {
    if |a| > 0 {
      NonEmptyOfEmpties(a[1..]);
    }
  }

  /** Removing trailing empty tokens does not change the non-empty ones. */
  lemma NonEmptyIgnoresDrop(pieces: seq<string>)
    ensures NonEmpty(DropTrailingEmpty(pieces)) == NonEmpty(pieces)
  {
    var kept := DropTrailingEmpty(pieces);
    var tail := pieces[|kept|..];
    assert pieces == kept + tail;
    NonEmptyAppend(kept, tail);
    NonEmptyOfEmpties(tail);
  }

  lemma {:induction false} NonEmptyPiecesAfterMatches(x: string, c: char, y: string, p: Pattern)
    requires AllMatch(x, p) && !Matches(p, c) && |y| > 0 && Matches(p, y[0])
    ensures NonEmpty(Pieces(x + [c] + y, p)) == [[c]] + NonEmpty(Pieces(y[1..], p))
    decreases |x|
  {
    var s := x + [c] + y;
    var after := Pieces(y[1..], p);
    if |x| == 0 {
      assert s[0] == c && s[1..] == y;
      var rest := Pieces(s[1..], p);
      assert rest == [""] + after;
      assert rest[0] == "" && rest[1..] == after;
      assert [s[0]] + rest[0] == [c];
      var pieces := [[c]] + after;
      assert Pieces(s, p) == pieces;
      assert pieces[0] == [c] && pieces[1..] == after;
    } else {
      assert s[0] == x[0] && s[1..] == x[1..] + [c] + y;
      NonEmptyPiecesAfterMatches(x[1..], c, y, p);
      var pieces := [""] + Pieces(s[1..], p);
      assert Pieces(s, p) == pieces;
      assert pieces[1..] == Pieces(s[1..], p);
    }
  }

  /** Splitting `x c y` where `x` consists of matches, `c` is not a match and
      `y` starts with one: after dropping empty tokens, the first token is
      the single character `c`. */
  lemma FirstNonEmptyToken(x: string, c: char, y: string, p: Pattern)
    requires AllMatch(x, p) && !Matches(p, c) && |y| > 0 && Matches(p, y[0])
    ensures var tokens := NonEmpty(Split(x + [c] + y, p));
      |tokens| > 0 && tokens[0] == [c]
  {
    var s := x + [c] + y;
    assert s[|x| + 1] == y[0];
    assert !Free(s, p);
    NonEmptyIgnoresDrop(Pieces(s, p));
    NonEmptyPiecesAfterMatches(x, c, y, p);
  }
}
