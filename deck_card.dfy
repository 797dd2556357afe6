/**
 * The deck card of the home carousel: the `Deck` record and the colours of
 * its gradient border, derived from the deck's free-text `colors` field.
 */
module DeckCard {
  import opened JsString
  import opened JsObject

  datatype Deck = Deck(id: string, name: string, commander: string, format: string, colors: string)

  /** The five mana colours and their display colours. */
  const MANA_COLORS: map<string, string> := map[
    "White" := "#F8F4E3",
    "Blue" := "#4A90E2",
    "Black" := "#2C2C2C",
    "Red" := "#D64541",
    "Green" := "#4CAF50"
  ]

  /** The colour a segment falls back to when it names no mana colour. */
  const FALLBACK_COLOR: string := "#FFF"

  /** The separator between colour names in `Deck.colors`. */
  const COLOR_SEPARATOR: char := ','

  // ---------------------------------------------------------------------
  // The lookup as written: `palette[c] || "#FFF"` on an object literal.

  /** A value of the border colour list: a string, or an inherited
      Object.prototype member. */
  datatype JsValue = Str(s: string) | PrototypeMember(key: string)

  /** `palette[segment] || "#FFF"`: an inherited member comes out exactly
      for the Object.prototype names the palette does not define; every
      string that comes out is the intended colour. */
  function BorderColorAsWritten(palette: map<string, string>, segment: string): (r: JsValue)
    ensures r.PrototypeMember? <==> segment !in palette && segment in ObjectPrototypeKeys
    ensures r.PrototypeMember? ==> r.key == segment
    ensures r.Str? ==> r.s == BorderColor(palette, segment)
  {
    match Get(palette, segment)
    case Own(v) => if v != "" then Str(v) else Str(FALLBACK_COLOR)
    case Inherited(k) => PrototypeMember(k)
    case Undefined => Str(FALLBACK_COLOR)
  }

  /** `segments.map(c => c.trim()).map(c => palette[c] || "#FFF")`. */
  function LookupAllAsWritten(palette: map<string, string>, segments: seq<string>): (r: seq<JsValue>)
    ensures |r| == |segments|
  {
    if segments == [] then []
    else [BorderColorAsWritten(palette, Trim(segments[0]))] + LookupAllAsWritten(palette, segments[1..])
  }

  /** The border colour list as written: one value per comma-separated
      field. */
  function BorderColorsAsWritten(palette: map<string, string>, colors: string): (r: seq<JsValue>)
    ensures |r| == |Split(colors, COLOR_SEPARATOR)| >= 1
  {
    LookupAllAsWritten(palette, Split(colors, COLOR_SEPARATOR))
  }

  /** The gradient as written: lines 57-60 applied to the as-written list. */
  function GradientAsWritten(palette: map<string, string>, colors: string): (r: seq<JsValue>)
    ensures |r| >= 2
    ensures forall v :: v in r ==> v in BorderColorsAsWritten(palette, colors)
  {
    var border := BorderColorsAsWritten(palette, colors);
    if |border| > 1 then border else [border[0], border[0]]
  }

  /** Every field that names an Object.prototype member, however padded,
      puts that member into the border list instead of a colour. */
  lemma PrototypeNameLeaks(palette: map<string, string>, colors: string, k: nat)
    requires k < |Split(colors, COLOR_SEPARATOR)|
    requires var name := Trim(Split(colors, COLOR_SEPARATOR)[k]); name !in palette && name in ObjectPrototypeKeys
    ensures BorderColorsAsWritten(palette, colors)[k] == PrototypeMember(Trim(Split(colors, COLOR_SEPARATOR)[k]))
  {
    LookupAtAsWritten(palette, Split(colors, COLOR_SEPARATOR), k);
  }

  lemma {:induction false} LookupAtAsWritten(palette: map<string, string>, segments: seq<string>, k: nat)
    requires k < |segments|
    ensures LookupAllAsWritten(palette, segments)[k] == BorderColorAsWritten(palette, Trim(segments[k]))
  {
    if k > 0 {
      LookupAtAsWritten(palette, segments[1..], k - 1);
    }
  }

  /** A deck whose colours are "constructor" gets the Object constructor
      function as its one border value, and as both stops of its gradient,
      instead of a colour. */
  lemma ConstructorDeckBorder(colors: string)
    requires colors == "constructor"
    ensures BorderColorsAsWritten(MANA_COLORS, colors) == [PrototypeMember("constructor")]
    ensures GradientAsWritten(MANA_COLORS, colors) == [PrototypeMember("constructor"), PrototypeMember("constructor")]
  {
    assert COLOR_SEPARATOR !in colors && Trimmed(colors);
    assert colors !in MANA_COLORS && colors in ObjectPrototypeKeys;
    SplitSingle(colors, COLOR_SEPARATOR);
    var segments := Split(colors, COLOR_SEPARATOR);
    assert segments == [colors];
    TrimOfPadded([], colors, []);
    assert [] + colors + [] == colors;
    assert Trim(segments[0]) == colors;
    PrototypeNameLeaks(MANA_COLORS, colors, 0);
    var r := BorderColorsAsWritten(MANA_COLORS, colors);
    assert |r| == 1 && r[0] == PrototypeMember(colors);
  }

  lemma LookupTwo(palette: map<string, string>, a: string, b: string)
    ensures LookupAll(palette, [a, b]) == [BorderColor(palette, Trim(a)), BorderColor(palette, Trim(b))]
  {
    assert [a, b][1..] == [b];
  }

  // ---------------------------------------------------------------------
  // The lookup as intended: only the palette's own names are colours.

  /** The border colour of one trimmed segment: a non-empty palette colour,
      or the fallback. The result is never empty, so `|| "#FFF"` has nothing
      further to replace. */
  function BorderColor(palette: map<string, string>, segment: string): (r: string)
    ensures r != ""
    ensures r == FALLBACK_COLOR || r in palette.Values
    ensures segment in palette && palette[segment] != "" ==> r == palette[segment]
    ensures segment !in palette ==> r == FALLBACK_COLOR
  {
    if segment in palette && palette[segment] != "" then palette[segment] else FALLBACK_COLOR
  }

  /** Off the Object.prototype names the code as written and the intended
      lookup agree. */
  lemma AsWrittenAgreesOffPrototype(palette: map<string, string>, segment: string)
    requires segment in palette || segment !in ObjectPrototypeKeys
    ensures BorderColorAsWritten(palette, segment) == Str(BorderColor(palette, segment))
  {
  }

  /** Lifted to the whole list: when no field trims to an Object.prototype
      name the palette lacks, the list as written is the intended list, so
      the intended model is the program's own behaviour on such decks. */
  lemma AsWrittenAgreesOnOrdinaryDecks(palette: map<string, string>, colors: string)
    requires forall i :: 0 <= i < |Split(colors, COLOR_SEPARATOR)| ==>
      var name := Trim(Split(colors, COLOR_SEPARATOR)[i]); name in palette || name !in ObjectPrototypeKeys
    ensures var written, intended := BorderColorsAsWritten(palette, colors), BorderColorsIn(palette, colors);
      |written| == |intended| && forall i :: 0 <= i < |written| ==> written[i] == Str(intended[i])
  {
    var segments := Split(colors, COLOR_SEPARATOR);
    forall i | 0 <= i < |segments|
      ensures LookupAllAsWritten(palette, segments)[i] == Str(LookupAll(palette, segments)[i])
    {
      LookupAtAsWritten(palette, segments, i);
      AsWrittenAgreesOffPrototype(palette, Trim(segments[i]));
    }
  }

  /** Every border colour is one of the five mana colours or the fallback;
      a segment gets its mana colour exactly when it spells one of the five
      names, case included. */
  lemma ManaColorOfSegment(segment: string)
    ensures BorderColor(MANA_COLORS, segment) in MANA_COLORS.Values + {FALLBACK_COLOR}
    ensures segment in MANA_COLORS ==> BorderColor(MANA_COLORS, segment) == MANA_COLORS[segment]
    ensures segment !in MANA_COLORS ==> BorderColor(MANA_COLORS, segment) == FALLBACK_COLOR
    ensures BorderColor(MANA_COLORS, segment) == FALLBACK_COLOR <==> segment !in MANA_COLORS
  {
    if segment in MANA_COLORS {
      assert MANA_COLORS[segment] in MANA_COLORS.Values;
    }
  }

  /** `deck.colors.split(",").map(c => c.trim()).map(c => palette[c] || "#FFF")`,
      with the intended lookup. */
  function BorderColorsIn(palette: map<string, string>, colors: string): (r: seq<string>)
    ensures |r| >= 1
  {
    LookupAll(palette, Split(colors, COLOR_SEPARATOR))
  }

  /** Each segment, trimmed and looked up, in order. */
  function LookupAll(palette: map<string, string>, segments: seq<string>): (r: seq<string>)
    ensures |r| == |segments|
    ensures forall i :: 0 <= i < |r| ==> r[i] == BorderColor(palette, Trim(segments[i]))
  {
    if segments == [] then []
    else [BorderColor(palette, Trim(segments[0]))] + LookupAll(palette, segments[1..])
  }

  /** The border colour list has one entry per comma-separated field, in
      order, each field looked up after trimming. */
  lemma BorderColorsOfFields(palette: map<string, string>, fields: seq<string>)
    requires |fields| >= 1
    requires forall i :: 0 <= i < |fields| ==> COLOR_SEPARATOR !in fields[i]
    ensures var r := BorderColorsIn(palette, Join(fields, COLOR_SEPARATOR));
      |r| == |fields| && forall i :: 0 <= i < |r| ==> r[i] == BorderColor(palette, Trim(fields[i]))
  {
    SplitJoin(fields, COLOR_SEPARATOR);
  }

  /** There are as many border colours as commas, plus one. */
  lemma BorderColorsCount(palette: map<string, string>, colors: string)
    ensures |BorderColorsIn(palette, colors)| == multiset(colors)[COLOR_SEPARATOR] + 1
  {
    SplitCount(colors, COLOR_SEPARATOR);
  }

  /** The gradient: the border colours when there are several, otherwise
      the single colour twice. */
  function GradientIn(palette: map<string, string>, colors: string): (r: seq<string>)
    ensures |r| >= 2
    ensures r[0] == BorderColorsIn(palette, colors)[0]
    ensures forall c :: c in r ==> c in BorderColorsIn(palette, colors)
  {
    var border := BorderColorsIn(palette, colors);
    if |border| > 1 then border else [border[0], border[0]]
  }

  /** The gradient is the border list untouched exactly when the deck names
      more than one colour, and otherwise repeats the one trimmed colour. */
  lemma GradientShape(palette: map<string, string>, colors: string)
    ensures GradientIn(palette, colors) == BorderColorsIn(palette, colors) <==> COLOR_SEPARATOR in colors
    ensures COLOR_SEPARATOR !in colors ==>
      var c := BorderColor(palette, Trim(colors)); GradientIn(palette, colors) == [c, c]
  {
    SplitSingle(colors, COLOR_SEPARATOR);
    var border := BorderColorsIn(palette, colors);
    if COLOR_SEPARATOR !in colors {
      assert |border| == 1 && border[0] == BorderColor(palette, Trim(colors));
      assert |GradientIn(palette, colors)| == 2;
    }
  }

  /** A deck naming two colours gets exactly those two stops, in order. */
  lemma TwoColorGradient(palette: map<string, string>, colors: string, first: string, second: string)
    requires Split(colors, COLOR_SEPARATOR) == [first, second]
    ensures GradientIn(palette, colors) == [BorderColor(palette, Trim(first)), BorderColor(palette, Trim(second))]
  {
    LookupTwo(palette, first, second);
  }

  /** A deck naming one colour, written without padding, gets that
      colour twice. */
  lemma SingleColorGradient(palette: map<string, string>, colors: string)
    requires COLOR_SEPARATOR !in colors && Trimmed(colors)
    ensures GradientIn(palette, colors) == [BorderColor(palette, colors), BorderColor(palette, colors)]
  {
    GradientShape(palette, colors);
    TrimOfPadded([], colors, []);
    assert [] + colors + [] == colors;
  }

  /** A deck's border colours: each one a mana colour or the fallback. */
  function BorderColors(deck: Deck): (r: seq<string>)
    ensures |r| >= 1
    ensures forall c :: c in r ==> c in MANA_COLORS.Values + {FALLBACK_COLOR}
  {
    BorderColorsIn(MANA_COLORS, deck.colors)
  }

  /** A deck's gradient stops: at least two, each a mana colour or the
      fallback. */
  function GradientColors(deck: Deck): (r: seq<string>)
    ensures |r| >= 2
    ensures forall c :: c in r ==> c in MANA_COLORS.Values + {FALLBACK_COLOR}
  {
    GradientIn(MANA_COLORS, deck.colors)
  }

  /** A deck with an empty `colors` string still gets a two-stop gradient,
      both stops the fallback colour. */
  lemma EmptyColorsGradient(deck: Deck)
    requires deck.colors == ""
    ensures BorderColors(deck) == [FALLBACK_COLOR]
    ensures GradientColors(deck) == [FALLBACK_COLOR, FALLBACK_COLOR]
  {
    assert Split(deck.colors, COLOR_SEPARATOR) == [""];
    TrimOfPadded([], [], []);
    assert Trim("") == "";
    assert BorderColors(deck) == [BorderColor(MANA_COLORS, "")];
  }

  /** Colour names are case-sensitive: "white" is not "White". */
  lemma ColorNamesAreCaseSensitive()
    ensures BorderColor(MANA_COLORS, "white") == FALLBACK_COLOR
    ensures BorderColor(MANA_COLORS, "White") == "#F8F4E3"
  {
  }
}
