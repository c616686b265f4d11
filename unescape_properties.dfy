/** Properties of `Unescape`: it agrees with a one-pass reading of the URL
    spelling, keeps every other character in place, and undoes the dash
    escaping of the canonical spelling except where that escaping is
    ambiguous. */
module UnescapeProperties {
  import opened FilterCriteriaParser
  import JavaStrings

  /** The URL spelling read left to right in one pass: "--" is a dash, any
      other dash a space, a tab a dash, and every other character itself. */
  function DecodeSurface(s: string): string
    decreases |s|
  {
    if s == [] then []
    else if |s| >= 2 && s[0] == Dash && s[1] == Dash then [Dash] + DecodeSurface(s[2..])
    else if s[0] == Dash then [Space] + DecodeSurface(s[1..])
    else if s[0] == Tab then [Dash] + DecodeSurface(s[1..])
    else [s[0]] + DecodeSurface(s[1..])
  }

  /** The length of the escape unit at the front of `s`: two for "--",
      otherwise one. */
  function UnitLength(s: string): (n: nat)
    requires s != []
    ensures 1 <= n <= |s|
  {
    if |s| >= 2 && s[0] == Dash && s[1] == Dash then 2 else 1
  }

  /** The character the escape unit at the front of `s` stands for. */
  function UnitChar(s: string): char
    requires s != []
  {
    if UnitLength(s) == 2 then Dash
    else if s[0] == Dash then Space
    else if s[0] == Tab then Dash
    else s[0]
  }

  /** `DecodeSurface` reads one escape unit at a time. */
  lemma DecodeSurfaceUnit(s: string)
    requires s != []
    ensures DecodeSurface(s) == [UnitChar(s)] + DecodeSurface(s[UnitLength(s)..])
  {
  }

  /** The two character passes of `Unescape` act on a leading character alone. */
  lemma CharPassesCons(c: char, p: string)
    ensures JavaStrings.ReplaceChar(JavaStrings.ReplaceChar([c] + p, Dash, Space), Tab, Dash)
         == [if c == Dash || c == Tab then (if c == Dash then Space else Dash) else c]
            + JavaStrings.ReplaceChar(JavaStrings.ReplaceChar(p, Dash, Space), Tab, Dash)
  {
    assert ([c] + p)[1..] == p;
    var q := JavaStrings.ReplaceChar(p, Dash, Space);
    var d := if c == Dash then Space else c;
    assert ([d] + q)[1..] == q;
  }

  /** The three whole-string passes of `Unescape` compute the one-pass reading. */
  lemma {:induction false} UnescapeIsOnePass(s: string)
    ensures Unescape(s) == DecodeSurface(s)
    decreases |s|
  {
    if s == [] {
    } else if UnitLength(s) == 2 {
      UnescapeIsOnePass(s[2..]);
      assert JavaStrings.ReplaceAllPairs(s, Dash, Tab) == [Tab] + JavaStrings.ReplaceAllPairs(s[2..], Dash, Tab);
      CharPassesCons(Tab, JavaStrings.ReplaceAllPairs(s[2..], Dash, Tab));
    } else {
      UnescapeIsOnePass(s[1..]);
      assert JavaStrings.ReplaceAllPairs(s, Dash, Tab) == [s[0]] + JavaStrings.ReplaceAllPairs(s[1..], Dash, Tab);
      CharPassesCons(s[0], JavaStrings.ReplaceAllPairs(s[1..], Dash, Tab));
    }
  }

  /** Every string is the concatenation of its pieces when the first piece
      does not end inside a "--" escape. */
  lemma {:induction false} DecodeSurfaceConcat(a: string, b: string)
    requires a == [] || a[|a| - 1] != Dash
    ensures DecodeSurface(a + b) == DecodeSurface(a) + DecodeSurface(b)
    decreases |a|
  {
    if a == [] {
      assert a + b == b;
    } else {
      var n := UnitLength(a);
      assert a[0] == Dash ==> |a| >= 2;
      assert UnitLength(a + b) == n && UnitChar(a + b) == UnitChar(a);
      assert (a + b)[n..] == a[n..] + b;
      DecodeSurfaceConcat(a[n..], b);
    }
  }

  /** `Unescape` works piece by piece: splitting the input anywhere except just
      after a dash splits the output at the same place. */
  lemma UnescapeConcat(a: string, b: string)
    requires a == [] || a[|a| - 1] != Dash
    ensures Unescape(a + b) == Unescape(a) + Unescape(b)
  {
    UnescapeIsOnePass(a + b);
    UnescapeIsOnePass(a);
    UnescapeIsOnePass(b);
    DecodeSurfaceConcat(a, b);
  }

  /** A doubled dash is one dash. */
  lemma UnescapeDoubledDash()
    ensures Unescape("a--b") == "a-b"
  {
    UnescapeIsOnePass("a--b");
  }

  /** A single dash is a space. */
  lemma UnescapeSingleDash()
    ensures Unescape("a-b") == "a b"
  {
    UnescapeIsOnePass("a-b");
  }

  /** Three dashes: the first two pair up, the third is a space. */
  lemma UnescapeThreeDashes()
    ensures Unescape("---") == "- "
  {
    UnescapeIsOnePass("---");
  }

  /** Both escapes in one string. */
  lemma UnescapeMixed()
    ensures Unescape("a--b-c") == "a-b c"
  {
    UnescapeIsOnePass("a--b-c");
  }

  /** A tab already in the input comes out as a dash. */
  lemma UnescapeInputTab()
    ensures Unescape("a\tb") == "a-b"
  {
    UnescapeIsOnePass("a\tb");
  }

  /** A single dash not followed by another is a space. */
  lemma DecodeSurfaceSpace(w: string)
    requires w == [] || w[0] != Dash
    ensures DecodeSurface([Dash] + w) == [Space] + DecodeSurface(w)
  {
    assert ([Dash] + w)[1..] == w;
  }

  /** A doubled dash is a dash, whatever follows. */
  lemma DecodeSurfacePair(w: string)
    ensures DecodeSurface([Dash, Dash] + w) == [Dash] + DecodeSurface(w)
  {
    assert ([Dash, Dash] + w)[2..] == w;
  }

  /** A character other than dash and tab stands for itself. */
  lemma DecodeSurfacePlain(c: char, w: string)
    requires c != Dash && c != Tab
    ensures DecodeSurface([c] + w) == [c] + DecodeSurface(w)
  {
    assert ([c] + w)[1..] == w;
  }

  /** A string without dashes and tabs reads as itself. */
  lemma {:induction false} DecodeSurfaceWord(w: string)
    requires Dash !in w && Tab !in w
    ensures DecodeSurface(w) == w
    decreases |w|
  {
    if w != [] {
      assert w == [w[0]] + w[1..];
      DecodeSurfaceWord(w[1..]);
      DecodeSurfacePlain(w[0], w[1..]);
    }
  }

  /** `Unescape` returns a string without dashes and tabs unchanged. */
  lemma UnescapeIdentity(s: string)
    requires Dash !in s && Tab !in s
    ensures Unescape(s) == s
  {
    UnescapeIsOnePass(s);
    DecodeSurfaceWord(s);
  }

  /** The characters neither `Unescape` nor its input gives a special role:
      everything except dash, space and tab, in order. */
  function Erase(s: string): (r: string)
    ensures Dash !in r && Space !in r && Tab !in r
  {
    if s == [] then []
    else (if s[0] == Dash || s[0] == Space || s[0] == Tab then [] else [s[0]]) + Erase(s[1..])
  }

  lemma {:induction false} EraseConcat(a: string, b: string)
    ensures Erase(a + b) == Erase(a) + Erase(b)
    decreases |a|
  {
    if a == [] {
      assert a + b == b;
    } else {
      assert (a + b)[1..] == a[1..] + b;
      EraseConcat(a[1..], b);
    }
  }

  /** The one-pass reading copies every character other than dash, space
      and tab, in order. */
  lemma {:induction false} DecodeSurfaceKeepsOtherCharacters(s: string)
    ensures Erase(DecodeSurface(s)) == Erase(s)
    decreases |s|
  {
    if s != [] {
      var n := UnitLength(s);
      DecodeSurfaceUnit(s);
      DecodeSurfaceKeepsOtherCharacters(s[n..]);
      EraseConcat([UnitChar(s)], DecodeSurface(s[n..]));
      assert s == s[..n] + s[n..];
      EraseConcat(s[..n], s[n..]);
      if n == 2 {
        assert s[..n] == [Dash] + [Dash];
        EraseConcat([Dash], [Dash]);
      } else {
        assert s[..n] == [s[0]];
      }
    }
  }

  /** `Unescape` copies every character other than dash, space and tab, in
      order: removing those three from input and output leaves the same
      string. */
  lemma UnescapeKeepsOtherCharacters(s: string)
    ensures Erase(Unescape(s)) == Erase(s)
  {
    UnescapeIsOnePass(s);
    DecodeSurfaceKeepsOtherCharacters(s);
  }

  /** The URL spelling of a canonical filter, as the class documentation
      describes it: each space becomes a dash, each dash is doubled. */
  function EscapeChar(c: char): string
  {
    if c == Dash then [Dash, Dash] else if c == Space then [Dash] else [c]
  }

  function Escape(t: string): (r: string)
    ensures |r| >= |t|
  {
    if t == [] then [] else EscapeChar(t[0]) + Escape(t[1..])
  }

  lemma EscapeCons(c: char, t: string)
    ensures Escape([c] + t) == EscapeChar(c) + Escape(t)
  {
    assert ([c] + t)[1..] == t;
  }

  /** A canonical filter the URL spelling can carry: no tab, and no space
      followed by a space or a dash (their spellings "--" and "---" read back
      as a dash and as a dash and a space). */
  predicate Unambiguous(t: string)
  {
    Tab !in t && forall i :: 0 <= i < |t| - 1 && t[i] == Space ==> t[i + 1] != Space && t[i + 1] != Dash
  }

  /** `Unescape` undoes the escaping of an unambiguous canonical filter. */
  lemma {:induction false} UnescapeInvertsEscape(t: string)
    requires Unambiguous(t)
    ensures Unescape(Escape(t)) == t
  {
    UnescapeInvertsEscapeOnePass(t);
    UnescapeIsOnePass(Escape(t));
  }

  lemma {:induction false} UnescapeInvertsEscapeOnePass(t: string)
    requires Unambiguous(t)
    ensures DecodeSurface(Escape(t)) == t
    decreases |t|
  {
    if t != [] {
      var c, rest := t[0], t[1..];
      assert t == [c] + rest;
      assert Unambiguous(rest) by {
        forall i | 0 <= i < |rest| - 1 && rest[i] == Space
          ensures rest[i + 1] != Space && rest[i + 1] != Dash
        {
          assert t[i + 1] == rest[i] && t[i + 2] == rest[i + 1];
        }
      }
      UnescapeInvertsEscapeOnePass(rest);
      if c == Dash {
        DecodeSurfacePair(Escape(rest));
      } else if c == Space {
        if rest != [] {
          assert t[1] == rest[0];
          EscapeCons(rest[0], rest[1..]);
          assert rest == [rest[0]] + rest[1..];
        }
        DecodeSurfaceSpace(Escape(rest));
      } else {
        DecodeSurfacePlain(c, Escape(rest));
      }
    }
  }

  /** Escaping the unescaped form gives back a URL spelling that has no
      spaces and no tabs: on such strings `Unescape` loses nothing. */
  lemma {:induction false} EscapeInvertsUnescape(s: string)
    requires Space !in s && Tab !in s
    ensures Escape(Unescape(s)) == s
  {
    EscapeInvertsDecodeSurface(s);
    UnescapeIsOnePass(s);
  }

  lemma {:induction false} EscapeInvertsDecodeSurface(s: string)
    requires Space !in s && Tab !in s
    ensures Escape(DecodeSurface(s)) == s
    decreases |s|
  {
    if s != [] {
      var n := UnitLength(s);
      EscapeInvertsDecodeSurface(s[n..]);
      EscapeCons(UnitChar(s), DecodeSurface(s[n..]));
      assert EscapeChar(UnitChar(s)) == s[..n];
      assert s == s[..n] + s[n..];
    }
  }

  /** The escaping is not injective, which is why `UnescapeInvertsEscape`
      needs `Unambiguous`: " -" and "- " have the same spelling "---", which
      reads back as "- ", and two spaces are spelled like one dash. */
  lemma EscapeAmbiguity()
    ensures Escape(" -") == Escape("- ") == "---" && Unescape("---") == "- "
    ensures Escape("  ") == Escape("-") == "--" && Unescape("--") == "-"
  {
    UnescapeThreeDashes();
    UnescapeIsOnePass("--");
  }

  /* ---------------------------------------------------------------------- */
  /* The URL spelling word by word                                          */
  /* ---------------------------------------------------------------------- */

  /** A stretch of a filter as the class documentation describes its URL
      spelling: a word on its own, a word after a space (spelled with one
      dash) or a word after a dash (spelled with two). */
  datatype Piece = Word(w: string) | Spaced(w: string) | Doubled(w: string)

  /** How a piece is written in a URL. */
  function Spelling(p: Piece): string
  {
    match p
    case Word(w) => w
    case Spaced(w) => [Dash] + w
    case Doubled(w) => [Dash, Dash] + w
  }

  /** What a piece stands for in the canonical filter. */
  function Reading(p: Piece): string
  {
    match p
    case Word(w) => w
    case Spaced(w) => [Space] + w
    case Doubled(w) => [Dash] + w
  }

  /** Every word is non-empty and free of dashes and tabs. */
  predicate PlainWords(ps: seq<Piece>)
  {
    ps == [] || (ps[0].w != [] && Dash !in ps[0].w && Tab !in ps[0].w && PlainWords(ps[1..]))
  }

  /** The URL spelling of a sequence of pieces. */
  function Url(ps: seq<Piece>): string
  {
    if ps == [] then [] else Spelling(ps[0]) + Url(ps[1..])
  }

  /** The canonical filter a sequence of pieces stands for. */
  function Text(ps: seq<Piece>): string
  {
    if ps == [] then [] else Reading(ps[0]) + Text(ps[1..])
  }

  lemma PieceDecodes(p: Piece)
    requires p.w != [] && Dash !in p.w && Tab !in p.w
    ensures DecodeSurface(Spelling(p)) == Reading(p)
    ensures Spelling(p)[|Spelling(p)| - 1] != Dash
  {
    DecodeSurfaceWord(p.w);
    match p
    case Word(w) =>
    case Spaced(w) => DecodeSurfaceSpace(w);
    case Doubled(w) => DecodeSurfacePair(w);
  }

  lemma {:induction false} DecodeSurfacePieces(ps: seq<Piece>)
    requires PlainWords(ps)
    ensures DecodeSurface(Url(ps)) == Text(ps)
    decreases |ps|
  {
    if ps != [] {
      PieceDecodes(ps[0]);
      DecodeSurfacePieces(ps[1..]);
      DecodeSurfaceConcat(Spelling(ps[0]), Url(ps[1..]));
    }
  }

  /** The convention of the class documentation holds: a filter written
      with one dash for each space and two for each dash unescapes to the
      filter itself, as long as no word is empty or holds a tab. */
  lemma UnescapeSpelledPieces(ps: seq<Piece>)
    requires PlainWords(ps)
    ensures Unescape(Url(ps)) == Text(ps)
  {
    DecodeSurfacePieces(ps);
    UnescapeIsOnePass(Url(ps));
  }

  lemma {:induction false} PlainWordsConcat(ps: seq<Piece>, qs: seq<Piece>)
    requires PlainWords(ps) && PlainWords(qs)
    ensures PlainWords(ps + qs)
    decreases |ps|
  {
    if ps == [] {
      assert ps + qs == qs;
    } else {
      assert (ps + qs)[1..] == ps[1..] + qs;
      PlainWordsConcat(ps[1..], qs);
    }
  }

  lemma {:induction false} UrlConcat(ps: seq<Piece>, qs: seq<Piece>)
    ensures Url(ps + qs) == Url(ps) + Url(qs)
    decreases |ps|
  {
    if ps == [] {
      assert ps + qs == qs;
    } else {
      assert (ps + qs)[1..] == ps[1..] + qs;
      UrlConcat(ps[1..], qs);
    }
  }

  lemma {:induction false} TextConcat(ps: seq<Piece>, qs: seq<Piece>)
    ensures Text(ps + qs) == Text(ps) + Text(qs)
    decreases |ps|
  {
    if ps == [] {
      assert ps + qs == qs;
    } else {
      assert (ps + qs)[1..] == ps[1..] + qs;
      TextConcat(ps[1..], qs);
    }
  }
}
