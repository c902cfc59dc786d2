/** The PDF settings record and the options of the settings modal
    (ImageToPdf/frontend/src/components/SettingsModal.js; defaults in
    ImageToPdf/frontend/src/screens/HomeScreen.js). */
module PdfSettings {

  datatype Settings = Settings(pageSize: string, orientation: string, margins: string)

  /** The three sections of the modal. */
  datatype Field = PageSize | Orientation | Margins

  /** One tappable option: the caption shown and the value it selects. */
  datatype Choice = Choice(caption: string, value: string)

  const DefaultSettings: Settings := Settings("A4", "Portrait", "Normal")

  /** The options each section offers, in display order. */
  function Offered(field: Field): (r: seq<Choice>)
    ensures |r| > 0
  {
    match field
    case PageSize => [Choice("A4", "A4"), Choice("Letter", "Letter"), Choice("Fit to Image", "Fit")]
    case Orientation => [Choice("Portrait", "Portrait"), Choice("Landscape", "Landscape")]
    case Margins => [Choice("None", "None"), Choice("Small", "Small"), Choice("Normal", "Normal")]
  }

  function Values(choices: seq<Choice>): (r: seq<string>)
    ensures |r| == |choices|
    ensures forall k :: 0 <= k < |r| ==> r[k] == choices[k].value
  {
    if choices == [] then [] else Values(choices[..|choices| - 1]) + [choices[|choices| - 1].value]
  }

  function Get(s: Settings, field: Field): string
  {
    match field
    case PageSize => s.pageSize
    case Orientation => s.orientation
    case Margins => s.margins
  }

  /** `onUpdateSettings({ ...settings, <field>: v })`: the chosen field takes `v`, and the
      other two keep their values. */
  function Select(s: Settings, field: Field, v: string): (r: Settings)
    ensures Get(r, field) == v
    ensures forall g: Field :: g != field ==> Get(r, g) == Get(s, g)
  {
    match field
    case PageSize => s.(pageSize := v)
    case Orientation => s.(orientation := v)
    case Margins => s.(margins := v)
  }

  /** The `selected` flag of an option: its section's field holds its value. */
  predicate IsSelected(s: Settings, field: Field, c: Choice)
  {
    Get(s, field) == c.value
  }

  /** Number of options in `choices` that are shown as selected. */
  function SelectedCount(s: Settings, field: Field, choices: seq<Choice>): nat
  {
    if choices == [] then 0
    else SelectedCount(s, field, choices[..|choices| - 1])
         + (if IsSelected(s, field, choices[|choices| - 1]) then 1 else 0)
  }

  predicate Distinct(xs: seq<string>)
  {
    forall i, j :: 0 <= i < j < |xs| ==> xs[i] != xs[j]
  }

  /** Every field holds one of the values its section offers. */
  predicate Offers(s: Settings)
  {
    forall field: Field :: Get(s, field) in Values(Offered(field))
  }

  lemma DefaultOffered()
    ensures Offers(DefaultSettings)
  {
    assert Values(Offered(PageSize))[0] == "A4";
    assert Values(Offered(Orientation))[0] == "Portrait";
    assert Values(Offered(Margins))[2] == "Normal";
    forall field: Field ensures Get(DefaultSettings, field) in Values(Offered(field)) {
      match field
      case PageSize =>
      case Orientation =>
      case Margins =>
    }
  }

  /** Choosing an offered option keeps every field within the offered values. */
  lemma SelectKeepsOffered(s: Settings, field: Field, c: Choice)
    requires Offers(s)
    requires c in Offered(field)
    ensures Offers(Select(s, field, c.value))
  {
    var k :| 0 <= k < |Offered(field)| && Offered(field)[k] == c;
    assert Values(Offered(field))[k] == c.value;
  }

  /** Selecting the value already held changes nothing. */
  lemma SelectIdempotent(s: Settings, field: Field, v: string)
    ensures Select(Select(s, field, v), field, v) == Select(s, field, v)
    ensures Select(s, field, Get(s, field)) == s
  {
  }

  lemma {:induction false} CountWhenAbsent(s: Settings, field: Field, choices: seq<Choice>)
    requires Get(s, field) !in Values(choices)
    ensures SelectedCount(s, field, choices) == 0
  {
    if choices != [] {
      var init := choices[..|choices| - 1];
      assert Values(init) == Values(choices)[..|choices| - 1];
      CountWhenAbsent(s, field, init);
    }
  }

  lemma {:induction false} CountWhenPresent(s: Settings, field: Field, choices: seq<Choice>)
    requires Distinct(Values(choices))
    requires Get(s, field) in Values(choices)
    ensures SelectedCount(s, field, choices) == 1
  {
    var vs := Values(choices);
    var init := choices[..|choices| - 1];
    assert Values(init) == vs[..|choices| - 1];
    if IsSelected(s, field, choices[|choices| - 1]) {
      assert Get(s, field) !in Values(init);
      CountWhenAbsent(s, field, init);
    } else {
      assert Get(s, field) in Values(init);
      CountWhenPresent(s, field, init);
    }
  }

  /** No section offers the same value twice. */
  lemma OfferedDistinct(field: Field)
    ensures Distinct(Values(Offered(field)))
  {
    var vs := Values(Offered(field));
    match field
    case PageSize =>
      assert vs == ["A4", "Letter", "Fit"];
    case Orientation =>
      assert vs == ["Portrait", "Landscape"];
    case Margins =>
      assert vs == ["None", "Small", "Normal"];
  }

  /** After picking any option of a section, exactly one option of that section is marked
      selected; and while the settings hold offered values, every section shows exactly one. */
  lemma ExactlyOneSelected(s: Settings, field: Field)
    requires Offers(s)
    ensures SelectedCount(s, field, Offered(field)) == 1
  {
    OfferedDistinct(field);
    CountWhenPresent(s, field, Offered(field));
  }
}
