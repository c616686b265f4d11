/** Properties of `order`, stated on its reference function `OrderSpec`
    (which `Order` computes): how the dash-separated parts are found, which
    parts are refused and why, and that a well-formed list of entries
    written out as an order expression compiles back to itself. */
module OrderProperties {
  import opened Wrappers
  import opened FilterCriteriaParser
  import JavaStrings

  /** A dash at the end of an order expression does not matter, because
      `split` drops trailing empty parts. */
  lemma OrderSeparatorAtEnd(s: string)
    requires s != []
    ensures OrderSpec(Some(s + [Dash])) == OrderSpec(Some(s))
  {
    JavaStrings.SplitSeparatorAtEnd(s, Dash);
  }

  /** An expression made of dashes only has no parts and compiles to no
      entries, without an error. */
  lemma OrderOnlyDashes(s: string)
    requires s != []
    requires forall k :: 0 <= k < |s| ==> s[k] == Dash
    ensures OrderSpec(Some(s)) == Ok([])
  {
    JavaStrings.SplitOnlySeparators(s, Dash);
  }

  /** A leading dash makes an empty first part, which is too short, unless
      nothing but dashes follows. */
  lemma OrderLeadingDash(t: string, k: int)
    requires 0 <= k < |t| && t[k] != Dash
    ensures OrderSpec(Some([Dash] + t)) == Err(PartTooShort([]))
  {
    var s := [Dash] + t;
    assert s[1..] == t;
    JavaStrings.NonSeparatorInPiece(t, Dash, k);
    var j :| 0 <= j < |JavaStrings.Pieces(t, Dash)| && JavaStrings.Pieces(t, Dash)[j] != [];
    assert JavaStrings.Pieces(s, Dash) == [[]] + JavaStrings.Pieces(t, Dash);
    JavaStrings.SplitKeepsPiece(s, Dash, j + 1);
  }

  /** A doubled dash after a valid part makes an empty part, which is too
      short, unless nothing but dashes follows. */
  lemma OrderDoubledDash(a: string, b: string, k: int)
    requires ValidPart(a) && Dash !in a
    requires 0 <= k < |b| && b[k] != Dash
    ensures OrderSpec(Some(a + [Dash, Dash] + b)) == Err(PartTooShort([]))
  {
    var s := a + [Dash, Dash] + b;
    JavaStrings.PiecesDoubledSeparator(a, b, Dash);
    JavaStrings.NonSeparatorInPiece(b, Dash, k);
    var j :| 0 <= j < |JavaStrings.Pieces(b, Dash)| && JavaStrings.Pieces(b, Dash)[j] != [];
    assert JavaStrings.Pieces(s, Dash)[j + 2] == JavaStrings.Pieces(b, Dash)[j];
    JavaStrings.SplitKeepsPiece(s, Dash, j + 2);
    var parts := Parts(s);
    assert parts[0] == a && parts[1] == [];
    assert FirstInvalid(parts, 1);
    CompilePartsFails(parts, 1);
  }

  /** How an entry is written in an order expression. */
  function EntryText(e: OrderEntry): string
  {
    [if e.dir == Desc then 'D' else 'A'] + e.property
  }

  function EntryTexts(es: seq<OrderEntry>): (r: seq<string>)
    ensures |r| == |es|
    ensures forall i :: 0 <= i < |es| ==> r[i] == EntryText(es[i])
  {
    if es == [] then [] else [EntryText(es[0])] + EntryTexts(es[1..])
  }

  /** The order expression for a list of entries: their texts joined with
      dashes. */
  function Render(es: seq<OrderEntry>): string
  {
    JavaStrings.Join(EntryTexts(es), Dash)
  }

  /** An entry an order expression can carry: a non-empty property without
      a dash. */
  predicate Expressible(e: OrderEntry)
  {
    e.property != [] && Dash !in e.property
  }

  /** Written out and compiled again, a non-empty list of expressible
      entries comes back unchanged. */
  lemma OrderOfRender(es: seq<OrderEntry>)
    requires es != []
    requires forall i :: 0 <= i < |es| ==> Expressible(es[i])
    ensures OrderSpec(Some(Render(es))) == Ok(es)
  {
    var parts := EntryTexts(es);
    assert forall i :: 0 <= i < |parts| ==> ValidPart(parts[i]) && EntryOf(parts[i]) == es[i];
    JavaStrings.SplitOfJoin(parts, Dash);
    assert |Render(es)| >= |parts[0]|;
    CompilePartsSucceeds(parts, es);
  }

  /** Every entry `order` produces is expressible: its property is the rest
      of a part of at least two characters, and parts hold no dash. */
  lemma OrderEntriesExpressible(s: string)
    requires OrderSpec(Some(s)).Ok?
    ensures forall i :: 0 <= i < |OrderSpec(Some(s)).value| ==> Expressible(OrderSpec(Some(s)).value[i])
  {
    OrderSpecMeaning(Some(s));
    var parts := Parts(s);
    forall i | 0 <= i < |OrderSpec(Some(s)).value|
      ensures Expressible(OrderSpec(Some(s)).value[i])
    {
      assert Dash !in parts[i];
      assert OrderSpec(Some(s)).value[i].property == parts[i][1..];
    }
  }

  /** Compiling, writing out and compiling again gives the same entries:
      `Render` puts any expression `order` accepts into a normal form. */
  lemma OrderRenderNormalises(s: string)
    requires OrderSpec(Some(s)).Ok? && OrderSpec(Some(s)).value != []
    ensures OrderSpec(Some(Render(OrderSpec(Some(s)).value))) == OrderSpec(Some(s))
  {
    OrderEntriesExpressible(s);
    OrderOfRender(OrderSpec(Some(s)).value);
  }

  /** A part without dashes is the whole expression, with or without one
      dash after it. */
  lemma OrderSinglePart(p: string)
    requires ValidPart(p) && Dash !in p
    ensures OrderSpec(Some(p)) == Ok([EntryOf(p)])
    ensures OrderSpec(Some(p + [Dash])) == Ok([EntryOf(p)])
  {
    JavaStrings.SplitSeparatorAtEnd(p, Dash);
    CompilePartsSucceeds([p], [EntryOf(p)]);
  }

  /** Two parts without dashes, joined by one dash, give their two entries
      in order. */
  lemma OrderTwoParts(p: string, q: string)
    requires ValidPart(p) && Dash !in p
    requires ValidPart(q) && Dash !in q
    ensures OrderSpec(Some(p + [Dash] + q)) == Ok([EntryOf(p), EntryOf(q)])
  {
    var s := p + [Dash] + q;
    JavaStrings.PiecesAfterFirst(p, q, Dash);
    JavaStrings.PiecesWithoutSeparator(q, Dash);
    assert s[|p|] == Dash;
    assert Parts(s) == [p, q];
    CompilePartsSucceeds([p, q], [EntryOf(p), EntryOf(q)]);
  }

  /** Java measures a part in UTF-16 code units: a part made of one
      supplementary character is two units long, so it passes the length
      test and fails the prefix test on its high surrogate. */
  lemma OrderSupplementaryPart(c: char)
    requires JavaStrings.Supplementary(c)
    ensures OrderSpec(Some([c])) == Err(BadPrefix([c]))
  {
    JavaStrings.Utf16LengthSupplementary([c], 0);
    assert Parts([c]) == [[c]];
  }

  /* ---------------------------------------------------------------------- */
  /* Examples                                                               */
  /* ---------------------------------------------------------------------- */

  /** The empty expression is refused, unlike `null`. */
  lemma OrderEmptyExample()
    ensures OrderSpec(Some("")) == Err(EmptyExpression)
    ensures OrderSpec(None) == Ok([])
  {
  }

  /** Two parts, descending then ascending. */
  lemma OrderTwoPartsExample()
    ensures OrderSpec(Some("Dtitle-AcolumnCount")) == Ok([OrderEntry(Desc, "title"), OrderEntry(Asc, "columnCount")])
  {
    TwoPartsSpelling();
    TwoPartsEntries();
    OrderTwoParts("Dtitle", "AcolumnCount");
  }

  lemma TwoPartsSpelling()
    ensures "Dtitle" + [Dash] + "AcolumnCount" == "Dtitle-AcolumnCount"
    ensures ValidPart("Dtitle") && Dash !in "Dtitle" && ValidPart("AcolumnCount") && Dash !in "AcolumnCount"
  {
  }

  lemma TwoPartsEntries()
    ensures EntryOf("Dtitle") == OrderEntry(Desc, "title")
    ensures EntryOf("AcolumnCount") == OrderEntry(Asc, "columnCount")
  {
  }

  /** A lone dash gives no parts, so no entries and no error. */
  lemma OrderLoneDashExample()
    ensures OrderSpec(Some("-")) == Ok([])
  {
    OrderOnlyDashes("-");
  }

  /** The trailing dash is dropped, leaving one entry. */
  lemma OrderTrailingDashExample()
    ensures OrderSpec(Some("Atitle-")) == Ok([OrderEntry(Asc, "title")])
  {
    OrderSinglePart("Atitle");
    assert "Atitle" + [Dash] == "Atitle-";
  }

  /** A one-character part is too short. */
  lemma OrderShortPartExample()
    ensures OrderSpec(Some("X")) == Err(PartTooShort("X"))
  {
  }

  /** The prefix is case-sensitive. */
  lemma OrderLowerCasePrefixExample()
    ensures OrderSpec(Some("dtitle")) == Err(BadPrefix("dtitle"))
  {
  }

  /** A doubled dash inside the expression makes an empty part. */
  lemma OrderDoubledDashExample()
    ensures OrderSpec(Some("Aa--Db")) == Err(PartTooShort(""))
  {
    OrderDoubledDash("Aa", "Db", 0);
    assert "Aa" + [Dash, Dash] + "Db" == "Aa--Db";
  }

  /** A leading dash makes an empty first part. */
  lemma OrderLeadingDashExample()
    ensures OrderSpec(Some("-Aa")) == Err(PartTooShort(""))
  {
    OrderLeadingDash("Aa", 0);
    assert [Dash] + "Aa" == "-Aa";
  }

  /** An emoji on its own is one character but two code units. */
  lemma OrderEmojiExample()
    ensures OrderSpec(Some("\U{1F600}")) == Err(BadPrefix("\U{1F600}"))
  {
    OrderSupplementaryPart('\U{1F600}');
  }
}
