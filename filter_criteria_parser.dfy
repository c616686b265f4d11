/** The hand-written string handling of FilterCriteriaParser: `unescape`, which
    turns the URL spelling of a filter (dash for space, doubled dash for a
    dash) into its canonical spelling, and `order`, which compiles a sort
    expression such as "Dtitle-AcolumnCount" into (direction, property)
    entries. */
module FilterCriteriaParser {
  import opened Wrappers
  import JavaStrings

  /* ---------------------------------------------------------------------- */
  /* unescape                                                                */
  /* ---------------------------------------------------------------------- */

  /** The characters `unescape` treats specially. */
  const Dash: char := '-'
  const Space: char := ' '
  const Tab: char := '\t'

  /** `unescape`: three whole-string passes, with tab as the placeholder for
      an escaped dash: every "--" becomes a tab, every remaining dash a space,
      and every tab (placeholders and tabs already in the input) a dash. */
  function Unescape(filter: string): (r: string)
    ensures Tab !in r
    ensures |r| == |filter| - JavaStrings.PairCount(filter, Dash)
  {
    var placeheld := JavaStrings.ReplaceAllPairs(filter, Dash, Tab);
    var spaced := JavaStrings.ReplaceChar(placeheld, Dash, Space);
    JavaStrings.ReplaceChar(spaced, Tab, Dash)
  }

  /* ---------------------------------------------------------------------- */
  /* order                                                                   */
  /* ---------------------------------------------------------------------- */

  datatype Direction = Asc | Desc

  /** A Hibernate `Order`: sort by `property`, in direction `dir`. */
  datatype OrderEntry = OrderEntry(dir: Direction, property: string)

  /** The failures `order` reports with an `OrderParsingException`; the part
      that failed is kept as the message appends it. */
  datatype OrderError =
    | EmptyExpression
    | PartTooShort(part: string)
    | BadPrefix(part: string)

  const EmptyMessage := "Order expression is empty"
  const TooShortMessage := "Order expression part too short: "
  const BadPrefixMessage := "Order expression parts should start with D or A: "

  /** The exception message for each failure: a fixed text for the kind of
      failure, followed by the offending part. */
  function Message(e: OrderError): (m: string)
    ensures e.EmptyExpression? ==> m == EmptyMessage
    ensures e.PartTooShort? ==> TooShortMessage <= m
    ensures e.BadPrefix? ==> BadPrefixMessage <= m
    ensures !e.EmptyExpression? ==> |e.part| <= |m| && m[|m| - |e.part|..] == e.part
  {
    match e
    case EmptyExpression => EmptyMessage
    case PartTooShort(p) => TooShortMessage + p
    case BadPrefix(p) => BadPrefixMessage + p
  }

  /** Different failures have different messages, so the message tells which
      failure occurred and on which part. */
  lemma MessageInjective(e1: OrderError, e2: OrderError)
    requires Message(e1) == Message(e2)
    ensures e1 == e2
  {
    var m := Message(e1);
    if e1.EmptyExpression? || e2.EmptyExpression? {
      assert EmptyMessage[17] == 'i' && TooShortMessage[17] == 'p' && BadPrefixMessage[17] == 'p';
      assert m[17] == 'i' ==> e1.EmptyExpression? && e2.EmptyExpression?;
    } else {
      assert TooShortMessage[21] == ' ' && BadPrefixMessage[21] == 's';
      assert m[21] == ' ' <==> e1.PartTooShort?;
      assert m[21] == ' ' <==> e2.PartTooShort?;
    }
  }

  /** A part `order` accepts: at least two UTF-16 code units long, the first
      character 'D' or 'A'. A part made of one supplementary character passes
      the length test, and then fails the prefix test on its high surrogate. */
  predicate ValidPart(p: string)
  {
    JavaStrings.Utf16Length(p) >= 2 && (p[0] == 'D' || p[0] == 'A')
  }

  /** The entry a valid part compiles to: the direction from the first
      character, the rest verbatim as the property. */
  function EntryOf(p: string): (e: OrderEntry)
    requires ValidPart(p)
    ensures [if e.dir == Desc then 'D' else 'A'] + e.property == p
  {
    OrderEntry(if p[0] == 'D' then Desc else Asc, p[1..])
  }

  /** The failure an invalid part reports: the length check comes first. */
  function PartError(p: string): (e: OrderError)
    requires !ValidPart(p)
    ensures e.PartTooShort? <==> JavaStrings.Utf16Length(p) < 2
    ensures e != EmptyExpression && e.part == p
  {
    if JavaStrings.Utf16Length(p) < 2 then PartTooShort(p) else BadPrefix(p)
  }

  /** True when `parts[i]` is the first invalid part. */
  predicate FirstInvalid(parts: seq<string>, i: int)
  {
    0 <= i < |parts| && !ValidPart(parts[i]) && forall j :: 0 <= j < i ==> ValidPart(parts[j])
  }

  /** The parts of an order expression, as `order.split("-")` gives them. */
  function Parts(order: string): seq<string>
  {
    JavaStrings.Split(order, Dash)
  }

  /** Compiles a list of parts, stopping at the first invalid one. */
  function CompileParts(parts: seq<string>): Result<seq<OrderEntry>, OrderError>
  {
    if parts == [] then Ok([])
    else if !ValidPart(parts[0]) then Err(PartError(parts[0]))
    else match CompileParts(parts[1..])
      case Ok(es) => Ok([EntryOf(parts[0])] + es)
      case Err(e) => Err(e)
  }

  /** `order` as a function: `null` gives no entries, the empty string
      fails, anything else is split on dashes and compiled part by part. */
  function OrderSpec(order: Option<string>): Result<seq<OrderEntry>, OrderError>
  {
    match order
    case None => Ok([])
    case Some(s) => if JavaStrings.Utf16Length(s) == 0 then Err(EmptyExpression) else CompileParts(Parts(s))
  }

  /** `CompileParts` succeeds exactly when every part is valid, with one entry
      per part in the same order, and otherwise fails on the first invalid
      part with that part's error. */
  lemma {:induction false} CompilePartsMeaning(parts: seq<string>)
    ensures CompileParts(parts).Ok? <==> forall i :: 0 <= i < |parts| ==> ValidPart(parts[i])
    ensures CompileParts(parts).Ok? ==>
              && |CompileParts(parts).value| == |parts|
              && forall i :: 0 <= i < |parts| ==> CompileParts(parts).value[i] == EntryOf(parts[i])
    ensures CompileParts(parts).Err? ==>
              exists i :: FirstInvalid(parts, i) && CompileParts(parts).error == PartError(parts[i])
  {
    if parts != [] && ValidPart(parts[0]) {
      var tail := parts[1..];
      CompilePartsMeaning(tail);
      assert forall i :: 1 <= i < |parts| ==> parts[i] == tail[i - 1];
      if CompileParts(tail).Err? {
        var i :| FirstInvalid(tail, i) && CompileParts(tail).error == PartError(tail[i]);
        assert FirstInvalid(parts, i + 1);
      }
    } else if parts != [] {
      assert FirstInvalid(parts, 0);
    }
  }

  /** At most one part is the first invalid one. */
  lemma FirstInvalidUnique(parts: seq<string>, i: int, k: int)
    requires FirstInvalid(parts, i) && FirstInvalid(parts, k)
    ensures i == k
  {
  }

  /** `CompileParts` fails with the error of the first invalid part. */
  lemma CompilePartsFails(parts: seq<string>, i: int)
    requires FirstInvalid(parts, i)
    ensures CompileParts(parts) == Err(PartError(parts[i]))
  {
    CompilePartsMeaning(parts);
    var k :| FirstInvalid(parts, k) && CompileParts(parts).error == PartError(parts[k]);
    FirstInvalidUnique(parts, i, k);
  }

  /** `CompileParts` succeeds with the entries of the parts when every part
      is valid. */
  lemma {:induction false} CompilePartsSucceeds(parts: seq<string>, es: seq<OrderEntry>)
    requires |es| == |parts|
    requires forall j :: 0 <= j < |parts| ==> ValidPart(parts[j]) && es[j] == EntryOf(parts[j])
    ensures CompileParts(parts) == Ok(es)
  {
    if parts != [] {
      CompilePartsSucceeds(parts[1..], es[1..]);
      assert es == [es[0]] + es[1..];
    }
  }

  /** What `OrderSpec` promises: `null` gives no entries, the empty string
      fails, and otherwise the expression compiles exactly when every part is
      valid, each part to its entry, or fails on the first invalid part. */
  lemma OrderSpecMeaning(order: Option<string>)
    ensures order.None? ==> OrderSpec(order) == Ok([])
    ensures order == Some("") ==> OrderSpec(order) == Err(EmptyExpression)
    ensures order.Some? && order.value != "" ==>
              (OrderSpec(order).Ok? <==> forall i :: 0 <= i < |Parts(order.value)| ==> ValidPart(Parts(order.value)[i]))
    ensures order.Some? && OrderSpec(order).Ok? ==>
              && |OrderSpec(order).value| == |Parts(order.value)|
              && forall i :: 0 <= i < |OrderSpec(order).value| ==>
                   && OrderSpec(order).value[i].property == Parts(order.value)[i][1..]
                   && (OrderSpec(order).value[i].dir == Desc <==> Parts(order.value)[i][0] == 'D')
    ensures order.Some? && order.value != "" && OrderSpec(order).Err? ==>
              exists i :: FirstInvalid(Parts(order.value), i) && OrderSpec(order).error == PartError(Parts(order.value)[i])
  {
    if order.Some? && order.value != "" {
      CompilePartsMeaning(Parts(order.value));
    }
  }

  /** `order`: compiles the sort expression into a freshly allocated array,
      filled index by index, and returns its contents; `null` gives no
      entries and any malformed part stops the compilation with an error. */
  method Order(order: Option<string>) returns (r: Result<seq<OrderEntry>, OrderError>)
    ensures r == OrderSpec(order)
  {
    if order.None? {
      return Ok([]);
    }
    var s := order.value;
    var orders := Parts(s);
    if JavaStrings.Utf16Length(s) == 0 {
      return Err(EmptyExpression);
    }
    var result := new OrderEntry[|orders|];
    for i := 0 to |orders|
      invariant forall j :: 0 <= j < i ==> ValidPart(orders[j]) && result[j] == EntryOf(orders[j])
    {
      var o := orders[i];
      if JavaStrings.Utf16Length(o) < 2 {
        CompilePartsFails(orders, i);
        return Err(PartTooShort(o));
      }
      if o[0] == 'D' || o[0] == 'A' {
        // The source's switch has a default branch; this test leaves only 'D' and 'A'.
        if o[0] == 'D' {
          result[i] := OrderEntry(Desc, o[1..]);
        } else {
          result[i] := OrderEntry(Asc, o[1..]);
        }
      } else {
        CompilePartsFails(orders, i);
        return Err(BadPrefix(o));
      }
    }
    CompilePartsSucceeds(orders, result[..]);
    r := Ok(result[..]);
  }
}
