/** Java's `String.split(" ")` and the re-joining of its pieces with single
    spaces, as the control-message handler uses them. */
module JavaText {

  /** Every piece of s between single spaces, empty pieces included:
      a text with k spaces has k + 1 pieces, none of which holds a space. */
  function Pieces(s: string): (r: seq<string>)
    ensures |r| >= 1
    ensures forall i :: 0 <= i < |r| ==> ' ' !in r[i]
  {
    if |s| == 0 then [""]
    else
      var rest := Pieces(s[1..]);
      if s[0] == ' ' then [""] + rest
      else [[s[0]] + rest[0]] + rest[1..]
  }

  /** The longest prefix of xs that does not end in an empty string. */
  function DropTrailingEmpty(xs: seq<string>): (r: seq<string>)
    ensures r <= xs
    ensures |r| > 0 ==> r[|r| - 1] != ""
    ensures forall i :: |r| <= i < |xs| ==> xs[i] == ""
  {
    if |xs| == 0 then []
    else if xs[|xs| - 1] == "" then DropTrailingEmpty(xs[..|xs| - 1])
    else xs
  }

  /** `s.split(" ")`: a text without a space is returned whole (so "" gives
      [""]); otherwise the pieces between spaces, with the trailing empty
      pieces removed (so a text of spaces only gives no piece at all). */
  function Split(s: string): (parts: seq<string>)
    ensures forall i :: 0 <= i < |parts| ==> ' ' !in parts[i]
    ensures ' ' in s ==> |parts| == 0 || parts[|parts| - 1] != ""
  {
    if ' ' !in s then [s] else DropTrailingEmpty(Pieces(s))
  }

  /** The parts with a single space between each two. */
  function Join(parts: seq<string>): string {
    if |parts| == 0 then ""
    else if |parts| == 1 then parts[0]
    else parts[0] + " " + Join(parts[1..])
  }

  /** Appending a part adds it after a space (or alone, to no parts). */
  lemma {:induction false} JoinSnoc(parts: seq<string>, part: string)
    ensures Join(parts + [part]) == if |parts| == 0 then part else Join(parts) + " " + part
  {
    if |parts| > 1 {
      JoinSnoc(parts[1..], part);
      assert (parts + [part])[1..] == parts[1..] + [part];
    } else if |parts| == 1 {
      assert (parts + [part])[1..] == [part];
    }
  }

  /** Joining the pieces of a text gives the text back. */
  lemma {:induction false} JoinPieces(s: string)
    ensures Join(Pieces(s)) == s
  {
    if |s| > 0 {
      var rest := Pieces(s[1..]);
      JoinPieces(s[1..]);
      if s[0] == ' ' {
        assert ([""] + rest)[1..] == rest;
        assert s == [' '] + s[1..];
      } else {
        if |rest| > 1 {
          assert ([[s[0]] + rest[0]] + rest[1..])[1..] == rest[1..] == ([rest[0]] + rest[1..])[1..];
        }
        assert [rest[0]] + rest[1..] == rest;
        assert s == [s[0]] + s[1..];
      }
    }
  }

  /** A text without a space is one piece. */
  lemma {:induction false} PiecesOfWord(s: string)
    requires ' ' !in s
    ensures Pieces(s) == [s]
  {
    if |s| > 0 {
      PiecesOfWord(s[1..]);
      assert s == [s[0]] + s[1..];
    }
  }

  /** Pieces unfolded once, at a leading space. */
  lemma PiecesConsSpace(t: string)
    ensures Pieces([' '] + t) == [""] + Pieces(t)
  {
    assert ([' '] + t)[1..] == t;
  }

  /** Pieces unfolded once, at a leading character that is not a space. */
  lemma PiecesConsChar(c: char, t: string)
    requires c != ' '
    ensures Pieces([c] + t) == [[c] + Pieces(t)[0]] + Pieces(t)[1..]
  {
    assert ([c] + t)[1..] == t;
  }

  /** Splitting at one space splits the pieces there. */
  lemma {:induction false} PiecesAround(a: string, b: string)
    ensures Pieces(a + " " + b) == Pieces(a) + Pieces(b)
  {
    if |a| == 0 {
      assert a + " " + b == [' '] + b;
      PiecesConsSpace(b);
    } else {
      var tail := a[1..];
      assert a == [a[0]] + tail;
      PiecesAround(tail, b);
      PiecesAroundStep(a[0], tail, b);
    }
  }

  /** The inductive step of PiecesAround: one more leading character. */
  lemma PiecesAroundStep(c: char, tail: string, b: string)
    requires Pieces(tail + " " + b) == Pieces(tail) + Pieces(b)
    ensures Pieces([c] + tail + " " + b) == Pieces([c] + tail) + Pieces(b)
  {
    var rest := tail + " " + b;
    assert [c] + tail + " " + b == [c] + rest;
    if c == ' ' {
      PiecesConsSpace(rest);
      PiecesConsSpace(tail);
      SpaceStep(Pieces(tail), Pieces(b));
    } else {
      PiecesConsChar(c, rest);
      PiecesConsChar(c, tail);
      CharStep([c], Pieces(tail), Pieces(b));
    }
  }

  lemma SpaceStep(ra: seq<string>, rb: seq<string>)
    ensures [""] + (ra + rb) == ([""] + ra) + rb
  {
  }

  lemma CharStep(prefix: string, ra: seq<string>, rb: seq<string>)
    requires |ra| > 0
    ensures [prefix + (ra + rb)[0]] + (ra + rb)[1..] == ([prefix + ra[0]] + ra[1..]) + rb
  {
    assert (ra + rb)[0] == ra[0];
    assert (ra + rb)[1..] == ra[1..] + rb;
  }

  /** Joining parts that hold no space and splitting again gives the parts back. */
  lemma {:induction false} PiecesJoin(parts: seq<string>)
    requires |parts| >= 1
    requires forall i :: 0 <= i < |parts| ==> ' ' !in parts[i]
    ensures Pieces(Join(parts)) == parts
  {
    if |parts| == 1 {
      PiecesOfWord(parts[0]);
    } else {
      PiecesOfWord(parts[0]);
      PiecesJoin(parts[1..]);
      PiecesAround(parts[0], Join(parts[1..]));
      assert [parts[0]] + parts[1..] == parts;
    }
  }

  /** The last piece of a text that does not end in a space is not empty. */
  lemma {:induction false} LastPieceOf(s: string)
    requires |s| > 0 && s[|s| - 1] != ' '
    ensures Pieces(s)[|Pieces(s)| - 1] != ""
  {
    if |s| > 1 {
      LastPieceOf(s[1..]);
    }
  }

  /** A text of spaces only has only empty pieces. */
  lemma {:induction false} PiecesOfSpaces(s: string)
    requires forall i :: 0 <= i < |s| ==> s[i] == ' '
    ensures forall i :: 0 <= i < |Pieces(s)| ==> Pieces(s)[i] == ""
  {
    if |s| > 0 {
      PiecesOfSpaces(s[1..]);
    }
  }

  /** Dropping the trailing empty strings of all-empty strings leaves nothing. */
  lemma {:induction false} DropAllEmpty(xs: seq<string>)
    requires forall i :: 0 <= i < |xs| ==> xs[i] == ""
    ensures DropTrailingEmpty(xs) == []
  {
    if |xs| > 0 {
      DropAllEmpty(xs[..|xs| - 1]);
    }
  }

  /** `"".split(" ")` is one empty piece; a text of one or more spaces
      splits into no piece at all. */
  lemma SplitBlank(s: string)
    requires forall i :: 0 <= i < |s| ==> s[i] == ' '
    ensures |s| == 0 ==> Split(s) == [""]
    ensures |s| > 0 ==> Split(s) == []
  {
    if |s| > 0 {
      assert s[0] == ' ';
      PiecesOfSpaces(s);
      DropAllEmpty(Pieces(s));
    }
  }

  /** Split followed by Join restores every text that does not end in a
      space; trailing spaces are what the split loses. */
  lemma SplitJoin(s: string)
    requires |s| == 0 || s[|s| - 1] != ' '
    ensures Join(Split(s)) == s
  {
    if ' ' in s {
      LastPieceOf(s);
      JoinPieces(s);
    }
  }

  /** A join ends in the last character of its last part, when that part is not empty. */
  lemma {:induction false} JoinEndsWithLastPart(parts: seq<string>)
    requires |parts| > 0 && parts[|parts| - 1] != ""
    ensures |Join(parts)| > 0
    ensures Join(parts)[|Join(parts)| - 1] == parts[|parts| - 1][|parts[|parts| - 1]| - 1]
  {
    if |parts| > 1 {
      JoinEndsWithLastPart(parts[1..]);
    }
  }

  /** Strings that end in a non-empty one lose only the empty strings appended to them. */
  lemma DropTrailingEmptyAfter(xs: seq<string>)
    requires |xs| > 0 && xs[|xs| - 1] != ""
    ensures DropTrailingEmpty(xs) == xs
    ensures DropTrailingEmpty(xs + [""]) == xs
  {
    assert (xs + [""])[..|xs|] == xs;
  }

  /** A word followed by a space is the first piece. */
  lemma PiecesAfterWord(w: string, rest: string)
    requires ' ' !in w
    ensures Pieces(w + " " + rest) == [w] + Pieces(rest)
  {
    PiecesOfWord(w);
    PiecesAround(w, rest);
  }

  /** Empty strings appended to xs are dropped again. */
  lemma {:induction false} DropEmptySuffix(xs: seq<string>, empties: seq<string>)
    requires forall i :: 0 <= i < |empties| ==> empties[i] == ""
    ensures DropTrailingEmpty(xs + empties) == DropTrailingEmpty(xs)
  {
    if |empties| > 0 {
      var shorter := empties[..|empties| - 1];
      assert (xs + empties)[..|xs + empties| - 1] == xs + shorter;
      DropEmptySuffix(xs, shorter);
    } else {
      assert xs + empties == xs;
    }
  }

  /** A word followed by spaces only splits into that word alone, or into
      nothing when the word is empty too (a text without a space is
      returned whole). */
  lemma SplitWordAndSpaces(w: string, spaces: string)
    requires ' ' !in w
    requires forall i :: 0 <= i < |spaces| ==> spaces[i] == ' '
    ensures Split(w + spaces) == if |spaces| == 0 then [w] else if w == "" then [] else [w]
  {
    if |spaces| == 0 {
      assert w + spaces == w;
    } else {
      var rest := spaces[1..];
      assert w + spaces == w + " " + rest;
      assert (w + spaces)[|w|] == ' ';
      PiecesAfterWord(w, rest);
      PiecesOfSpaces(rest);
      DropEmptySuffix([w], Pieces(rest));
    }
  }

  /** A text that holds a space splits into its pieces less trailing empty ones. */
  lemma SplitAfterWord(a: string, t: string)
    ensures Split(a + " " + t) == DropTrailingEmpty(Pieces(a + " " + t))
  {
    assert (a + " " + t)[|a|] == ' ';
  }

  /** The pieces of two words and a rest. */
  lemma PiecesTwoWords(a: string, b: string, rest: string)
    requires ' ' !in a && ' ' !in b
    ensures Pieces(a + " " + (b + " " + rest)) == [a, b] + Pieces(rest)
  {
    PiecesAfterWord(b, rest);
    PiecesAfterWord(a, b + " " + rest);
    assert [a] + ([b] + Pieces(rest)) == [a, b] + Pieces(rest);
  }

  /** A text made of two words and a rest splits into the two words and
      the pieces of the rest, less trailing empty pieces. */
  lemma SplitTwoWords(a: string, b: string, rest: string)
    requires ' ' !in a && ' ' !in b
    ensures Split(a + " " + b + " " + rest) == DropTrailingEmpty([a, b] + Pieces(rest))
  {
    assert a + " " + b + " " + rest == a + " " + (b + " " + rest);
    PiecesTwoWords(a, b, rest);
    SplitAfterWord(a, b + " " + rest);
  }

  /** Two words and a final space split into the two words. */
  lemma SplitTwoWordsAndSpace(a: string, b: string)
    requires ' ' !in a && ' ' !in b && b != ""
    ensures Split(a + " " + b + " ") == [a, b]
  {
    SplitTwoWords(a, b, "");
    assert a + " " + b + " " + "" == a + " " + b + " ";
    assert Pieces("") == [""];
    assert [a, b] + Pieces("") == [a, b] + [""];
    DropTrailingEmptyAfter([a, b]);
  }

  /** Two words and a text that does not end in a space split into the
      two words and the pieces of the text. */
  lemma SplitTwoWordsAndText(a: string, b: string, c: string)
    requires ' ' !in a && ' ' !in b
    requires |c| > 0 && c[|c| - 1] != ' '
    ensures Split(a + " " + b + " " + c) == [a, b] + Pieces(c)
  {
    SplitTwoWords(a, b, c);
    KeepsLastPiece([a, b], c);
  }

  /** Pieces of a text that does not end in a space, after any prefix, end
      in a non-empty piece: only appended empty pieces are dropped. */
  lemma KeepsLastPiece(prefix: seq<string>, s: string)
    requires |s| > 0 && s[|s| - 1] != ' '
    ensures DropTrailingEmpty(prefix + Pieces(s)) == prefix + Pieces(s)
    ensures DropTrailingEmpty(prefix + Pieces(s) + [""]) == prefix + Pieces(s)
  {
    var pieces := Pieces(s);
    LastPieceOf(s);
    var parts := prefix + pieces;
    assert parts[|parts| - 1] == pieces[|pieces| - 1];
    DropTrailingEmptyAfter(parts);
  }

  /** A final space after the text only adds an empty piece, which is dropped. */
  lemma SplitTwoWordsAndTextSpace(a: string, b: string, c: string)
    requires ' ' !in a && ' ' !in b
    requires |c| > 0 && c[|c| - 1] != ' '
    ensures Split(a + " " + b + " " + (c + " ")) == [a, b] + Pieces(c)
  {
    var parts := [a, b] + Pieces(c);
    PiecesAround(c, "");
    assert c + " " == c + " " + "";
    assert [a, b] + Pieces(c + " ") == parts + [""];
    SplitTwoWords(a, b, c + " ");
    KeepsLastPiece([a, b], c);
  }

  /** Two words joined by a space split back into the two words. */
  lemma SplitWordPair(a: string, b: string)
    requires ' ' !in a && ' ' !in b && b != ""
    ensures Split(a + " " + b) == [a, b]
  {
    PiecesOfWord(a);
    PiecesOfWord(b);
    PiecesAround(a, b);
    SplitAfterWord(a, b);
  }
}
