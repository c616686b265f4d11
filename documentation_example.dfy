/** The example in the class comment of FilterCriteriaParser: its URL
    spelling unescapes to exactly the filter written above it. Both are
    cut into the same six stretches, each given as pieces. */
module DocumentationExample {
  import opened FilterCriteriaParser
  import opened UnescapeProperties

  const Stretch1: seq<Piece> := [Word("(columnCount"), Spaced("eq"), Spaced("21")]
  const Stretch2: seq<Piece> := [Spaced("and"), Spaced("rowCount"), Spaced("eq"), Spaced("21)")]
  const Stretch3: seq<Piece> := [Spaced("and"), Spaced("not"), Spaced("published")]
  const Stretch4: seq<Piece> := [Spaced("isNull"), Spaced("and"), Spaced("(title")]
  const Stretch5: seq<Piece> := [Spaced("like"), Spaced("'space"), Doubled("rug'"), Spaced("or")]
  const Stretch6: seq<Piece> := [Spaced("title"), Spaced("like"), Spaced("'home"), Spaced("\\'rug\\'')")]

  lemma Plain1() ensures PlainWords(Stretch1) {}
  lemma Plain2() ensures PlainWords(Stretch2) {}
  lemma Plain3() ensures PlainWords(Stretch3) {}
  lemma Plain4() ensures PlainWords(Stretch4) {}
  lemma Plain5() ensures PlainWords(Stretch5) {}
  lemma Plain6() ensures PlainWords(Stretch6) {}

  lemma Url1() ensures Url(Stretch1) == "(columnCount-eq-21" {}
  lemma Url2() ensures Url(Stretch2) == "-and-rowCount-eq-21)" {}
  lemma Url3() ensures Url(Stretch3) == "-and-not-published" {}
  lemma Url4() ensures Url(Stretch4) == "-isNull-and-(title" {}
  lemma Url5() ensures Url(Stretch5) == "-like-'space--rug'-or" {}
  lemma Url6() ensures Url(Stretch6) == "-title-like-'home-\\'rug\\'')" {}

  lemma Text1() ensures Text(Stretch1) == "(columnCount eq 21" {}
  lemma Text2() ensures Text(Stretch2) == " and rowCount eq 21)" {}
  lemma Text3() ensures Text(Stretch3) == " and not published" {}
  lemma Text4() ensures Text(Stretch4) == " isNull and (title" {}
  lemma Text5() ensures Text(Stretch5) == " like 'space-rug' or" {}
  lemma Text6() ensures Text(Stretch6) == " title like 'home \\'rug\\'')" {}

  /** The URL spelling in the class comment unescapes to the filter in the
      class comment, character for character. */
  lemma UnescapeDocumentationExample()
    ensures Unescape("(columnCount-eq-21" + "-and-rowCount-eq-21)" + "-and-not-published"
                     + "-isNull-and-(title" + "-like-'space--rug'-or" + "-title-like-'home-\\'rug\\'')")
         == "(columnCount eq 21" + " and rowCount eq 21)" + " and not published"
            + " isNull and (title" + " like 'space-rug' or" + " title like 'home \\'rug\\'')"
  {
    Plain1(); Plain2(); Plain3(); Plain4(); Plain5(); Plain6();
    Url1(); Url2(); Url3(); Url4(); Url5(); Url6();
    Text1(); Text2(); Text3(); Text4(); Text5(); Text6();
    var ps := Stretch1 + Stretch2 + Stretch3 + Stretch4 + Stretch5 + Stretch6;
    PlainWordsConcat(Stretch1, Stretch2);
    PlainWordsConcat(Stretch1 + Stretch2, Stretch3);
    PlainWordsConcat(Stretch1 + Stretch2 + Stretch3, Stretch4);
    PlainWordsConcat(Stretch1 + Stretch2 + Stretch3 + Stretch4, Stretch5);
    PlainWordsConcat(Stretch1 + Stretch2 + Stretch3 + Stretch4 + Stretch5, Stretch6);
    UrlConcat(Stretch1, Stretch2);
    UrlConcat(Stretch1 + Stretch2, Stretch3);
    UrlConcat(Stretch1 + Stretch2 + Stretch3, Stretch4);
    UrlConcat(Stretch1 + Stretch2 + Stretch3 + Stretch4, Stretch5);
    UrlConcat(Stretch1 + Stretch2 + Stretch3 + Stretch4 + Stretch5, Stretch6);
    TextConcat(Stretch1, Stretch2);
    TextConcat(Stretch1 + Stretch2, Stretch3);
    TextConcat(Stretch1 + Stretch2 + Stretch3, Stretch4);
    TextConcat(Stretch1 + Stretch2 + Stretch3 + Stretch4, Stretch5);
    TextConcat(Stretch1 + Stretch2 + Stretch3 + Stretch4 + Stretch5, Stretch6);
    UnescapeSpelledPieces(ps);
  }
}
