/** The few java.lang.String operations that FilterCriteriaParser relies on,
    modelled on `seq<char>` with the semantics of the Java library:
    `length()` in UTF-16 code units, `replaceAll` with a two-character
    literal pattern, `replace(char, char)` and `split` with a one-character
    separator and no limit. */
module JavaStrings {

  /** `s.replaceAll("cc", "b")` for a pattern made of one character twice:
      matches are found left to right and do not overlap, so in "ccc" only
      the first two characters form a match. */
  function ReplaceAllPairs(s: string, c: char, b: char): (r: string)
    ensures |r| == |s| - PairCount(s, c)
    decreases |s|
  {
    if |s| >= 2 && s[0] == c && s[1] == c then [b] + ReplaceAllPairs(s[2..], c, b)
    else if s == [] then []
    else [s[0]] + ReplaceAllPairs(s[1..], c, b)
  }

  /** The number of matches `ReplaceAllPairs` replaces. */
  function PairCount(s: string, c: char): nat
    decreases |s|
  {
    if |s| >= 2 && s[0] == c && s[1] == c then 1 + PairCount(s[2..], c)
    else if s == [] then 0
    else PairCount(s[1..], c)
  }

  /** Whether Java stores `c` as a surrogate pair of two UTF-16 code units:
      it lies outside the Basic Multilingual Plane. */
  predicate Supplementary(c: char)
  {
    c as int > 0xFFFF
  }

  /** `s.length()`: Java counts UTF-16 code units, so a supplementary
      character counts twice. */
  function Utf16Length(s: string): (n: nat)
    ensures |s| <= n <= 2 * |s|
  {
    if s == [] then 0 else (if Supplementary(s[0]) then 2 else 1) + Utf16Length(s[1..])
  }

  /** A string of Basic Multilingual Plane characters has as many code units
      as characters. */
  lemma {:induction false} Utf16LengthBasicPlane(s: string)
    requires forall k :: 0 <= k < |s| ==> !Supplementary(s[k])
    ensures Utf16Length(s) == |s|
    decreases |s|
  {
    if s != [] {
      Utf16LengthBasicPlane(s[1..]);
    }
  }

  /** Every supplementary character adds one code unit beyond the length. */
  lemma {:induction false} Utf16LengthSupplementary(s: string, k: int)
    requires 0 <= k < |s| && Supplementary(s[k])
    ensures Utf16Length(s) > |s|
    decreases |s|
  {
    if k > 0 {
      Utf16LengthSupplementary(s[1..], k - 1);
    }
  }

  /** The code units of a concatenation are those of its halves. */
  lemma {:induction false} Utf16LengthConcat(a: string, b: string)
    ensures Utf16Length(a + b) == Utf16Length(a) + Utf16Length(b)
    decreases |a|
  {
    if a != [] {
      assert (a + b)[1..] == a[1..] + b;
      Utf16LengthConcat(a[1..], b);
    } else {
      assert a + b == b;
    }
  }

  /** `s.replace(from, to)` for two characters: every occurrence is replaced. */
  function ReplaceChar(s: string, from: char, to: char): (r: string)
    ensures |r| == |s|
    ensures from != to ==> from !in r
  {
    if s == [] then [] else [if s[0] == from then to else s[0]] + ReplaceChar(s[1..], from, to)
  }

  /** `replace` changes each character on its own: other characters stay
      where they are. */
  lemma {:induction false} ReplaceCharAt(s: string, from: char, to: char, i: nat)
    requires i < |s|
    ensures ReplaceChar(s, from, to)[i] == if s[i] == from then to else s[i]
  {
    if i > 0 {
      ReplaceCharAt(s[1..], from, to, i - 1);
    }
  }

  /** The pieces of `s` between occurrences of `sep`: one more piece than
      there are separators, empty pieces included. */
  function Pieces(s: string, sep: char): (r: seq<string>)
    ensures |r| >= 1
    ensures forall k :: 0 <= k < |r| ==> sep !in r[k]
    ensures Join(r, sep) == s
    decreases |s|
  {
    if s == [] then [[]]
    else if s[0] == sep then [[]] + Pieces(s[1..], sep)
    else
      var rest := Pieces(s[1..], sep);
      [[s[0]] + rest[0]] + rest[1..]
  }

  /** The parts joined back together, `sep` between neighbours. */
  function Join(ps: seq<string>, sep: char): string
  {
    if |ps| == 0 then []
    else if |ps| == 1 then ps[0]
    else ps[0] + [sep] + Join(ps[1..], sep)
  }

  /** Drops the empty strings at the end of `ps`, as `split` does when no
      limit is given. */
  function DropTrailingEmpty(ps: seq<string>): (r: seq<string>)
    ensures r <= ps
    ensures forall k :: |r| <= k < |ps| ==> ps[k] == []
    ensures r == [] || r[|r| - 1] != []
  {
    if ps != [] && ps[|ps| - 1] == [] then DropTrailingEmpty(ps[..|ps| - 1]) else ps
  }

  /** `s.split(String.valueOf(sep))`: when `sep` does not occur the result is
      `{s}` itself (so "" splits into one empty part); otherwise the pieces
      between separators, leading empty pieces kept and trailing ones dropped. */
  function Split(s: string, sep: char): (r: seq<string>)
    ensures forall k :: 0 <= k < |r| ==> sep !in r[k]
    ensures sep !in s ==> r == [s]
    ensures sep in s ==>
              && r <= Pieces(s, sep)
              && (forall k :: |r| <= k < |Pieces(s, sep)| ==> Pieces(s, sep)[k] == [])
              && (r == [] || r[|r| - 1] != [])
  {
    if sep !in s then [s] else DropTrailingEmpty(Pieces(s, sep))
  }

  /** A string without the separator is a single piece. */
  lemma {:induction false} PiecesWithoutSeparator(s: string, sep: char)
    requires sep !in s
    ensures Pieces(s, sep) == [s]
    decreases |s|
  {
    if s != [] {
      PiecesWithoutSeparator(s[1..], sep);
      assert s == [s[0]] + s[1..];
    }
  }

  /** A separator at the end adds one empty piece. */
  lemma {:induction false} PiecesSeparatorAtEnd(s: string, sep: char)
    ensures Pieces(s + [sep], sep) == Pieces(s, sep) + [[]]
    decreases |s|
  {
    if s == [] {
      assert (s + [sep])[1..] == [];
    } else {
      assert (s + [sep])[1..] == s[1..] + [sep];
      PiecesSeparatorAtEnd(s[1..], sep);
    }
  }

  /** Cutting a joined list of separator-free parts gives the parts back. */
  lemma {:induction false} PiecesOfJoin(ps: seq<string>, sep: char)
    requires ps != []
    requires forall k :: 0 <= k < |ps| ==> sep !in ps[k]
    ensures Pieces(Join(ps, sep), sep) == ps
    decreases |ps|
  {
    if |ps| == 1 {
      PiecesWithoutSeparator(ps[0], sep);
    } else {
      PiecesOfJoin(ps[1..], sep);
      PiecesAfterFirst(ps[0], Join(ps[1..], sep), sep);
      assert ps == [ps[0]] + ps[1..];
    }
  }

  /** The first piece ends at the first separator. */
  lemma {:induction false} PiecesAfterFirst(a: string, b: string, sep: char)
    requires sep !in a
    ensures Pieces(a + [sep] + b, sep) == [a] + Pieces(b, sep)
    decreases |a|
  {
    if a == [] {
      assert a + [sep] + b == [sep] + b;
      assert ([sep] + b)[1..] == b;
    } else {
      assert (a + [sep] + b)[1..] == a[1..] + [sep] + b;
      PiecesAfterFirst(a[1..], b, sep);
      assert a == [a[0]] + a[1..];
    }
  }

  /** Two separators in a row enclose an empty piece. */
  lemma PiecesDoubledSeparator(a: string, b: string, sep: char)
    requires sep !in a
    ensures Pieces(a + [sep, sep] + b, sep) == [a, []] + Pieces(b, sep)
  {
    assert a + [sep, sep] + b == a + [sep] + ([sep] + b);
    PiecesAfterFirst(a, [sep] + b, sep);
    assert ([sep] + b)[1..] == b;
  }

  /** One more empty string at the end is dropped with the others. */
  lemma DropTrailingEmptyAppend(ps: seq<string>)
    ensures DropTrailingEmpty(ps + [[]]) == DropTrailingEmpty(ps)
  {
    assert (ps + [[]])[..|ps|] == ps;
  }

  /** `split` ignores a separator at the very end of a non-empty string. */
  lemma SplitSeparatorAtEnd(s: string, sep: char)
    requires s != []
    ensures Split(s + [sep], sep) == Split(s, sep)
  {
    PiecesSeparatorAtEnd(s, sep);
    DropTrailingEmptyAppend(Pieces(s, sep));
    if sep !in s {
      PiecesWithoutSeparator(s, sep);
    }
  }

  /** A string made of separators only has nothing but empty pieces. */
  lemma {:induction false} PiecesOnlySeparators(s: string, sep: char)
    requires forall k :: 0 <= k < |s| ==> s[k] == sep
    ensures forall k :: 0 <= k < |Pieces(s, sep)| ==> Pieces(s, sep)[k] == []
    decreases |s|
  {
    if s != [] {
      PiecesOnlySeparators(s[1..], sep);
    }
  }

  /** A list of empty strings is dropped entirely. */
  lemma {:induction false} DropTrailingEmptyAllEmpty(ps: seq<string>)
    requires forall k :: 0 <= k < |ps| ==> ps[k] == []
    ensures DropTrailingEmpty(ps) == []
    decreases |ps|
  {
    if ps != [] {
      DropTrailingEmptyAllEmpty(ps[..|ps| - 1]);
    }
  }

  /** A non-empty string made of separators only splits into nothing at all. */
  lemma SplitOnlySeparators(s: string, sep: char)
    requires s != []
    requires forall k :: 0 <= k < |s| ==> s[k] == sep
    ensures Split(s, sep) == []
  {
    assert s[0] == sep;
    PiecesOnlySeparators(s, sep);
    DropTrailingEmptyAllEmpty(Pieces(s, sep));
  }

  /** `split` gives back the parts joined with the separator, provided they
      are free of it and the last one is not empty. */
  lemma SplitOfJoin(ps: seq<string>, sep: char)
    requires ps != [] && ps[|ps| - 1] != []
    requires forall k :: 0 <= k < |ps| ==> sep !in ps[k]
    ensures Split(Join(ps, sep), sep) == ps
  {
    PiecesOfJoin(ps, sep);
    if sep !in Join(ps, sep) {
      PiecesWithoutSeparator(Join(ps, sep), sep);
    }
  }

  /** A character other than the separator lies in a non-empty piece. */
  lemma {:induction false} NonSeparatorInPiece(s: string, sep: char, k: int)
    requires 0 <= k < |s| && s[k] != sep
    ensures exists j :: 0 <= j < |Pieces(s, sep)| && Pieces(s, sep)[j] != []
    decreases |s|
  {
    if s[0] == sep {
      NonSeparatorInPiece(s[1..], sep, k - 1);
      var j :| 0 <= j < |Pieces(s[1..], sep)| && Pieces(s[1..], sep)[j] != [];
      assert Pieces(s, sep)[j + 1] == Pieces(s[1..], sep)[j];
    } else {
      assert Pieces(s, sep)[0] != [];
    }
  }

  /** `split` keeps every piece up to the last non-empty one. */
  lemma SplitKeepsPiece(s: string, sep: char, j: int)
    requires 0 <= j < |Pieces(s, sep)| && Pieces(s, sep)[j] != []
    ensures j < |Split(s, sep)|
    ensures forall i :: 0 <= i < |Split(s, sep)| ==> Split(s, sep)[i] == Pieces(s, sep)[i]
  {
    if sep !in s {
      PiecesWithoutSeparator(s, sep);
    }
  }

  /** Joining empty parts leaves nothing but separators. */
  lemma {:induction false} JoinOfEmptyParts(ps: seq<string>, sep: char)
    requires forall k :: 0 <= k < |ps| ==> ps[k] == []
    ensures forall k :: 0 <= k < |Join(ps, sep)| ==> Join(ps, sep)[k] == sep
    decreases |ps|
  {
    if |ps| > 1 {
      JoinOfEmptyParts(ps[1..], sep);
      assert Join(ps, sep) == [sep] + Join(ps[1..], sep);
    }
  }

  /** `split` gives no parts at all only for a string of separators. */
  lemma SplitEmptyOnlyForSeparators(s: string, sep: char)
    requires Split(s, sep) == []
    ensures forall k :: 0 <= k < |s| ==> s[k] == sep
  {
    JoinOfEmptyParts(Pieces(s, sep), sep);
  }
}
