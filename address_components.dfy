/**
  The address-component parser: it reduces the ordered list of tagged address
  fragments of one geocoding result to a record with optional city, state and
  country fields.

  The specification side classifies each component by an ordered table of
  (tag, field) rules, the first rule whose tag the component carries winning,
  and folds the components left to right, each classified one overwriting its
  field. The method ParseAddressComponents is the loop of the implementation,
  an if / else-if chain over the tags, proved equal to that specification.
*/
module AddressComponents {
  import opened Wrappers

  /** One tagged fragment of a geocoded address. */
  datatype Component = Component(longName: string, shortName: string, types: seq<string>)

  /** The parsed record; None is a property that was never assigned. */
  datatype ParsedAddress = ParsedAddress(city: Option<string>, state: Option<string>, country: Option<string>)

  /** The three fields a component can be classified into. */
  datatype Field = City | State | Country

  /** Which of a component's two names feeds a field. */
  datatype NameForm = LongName | ShortName

  /** One classification rule: a component carrying `tag` is written to `field`. */
  datatype Rule = Rule(tag: string, field: Field, form: NameForm)

  const Locality: string := "locality"
  const AdministrativeAreaLevel1: string := "administrative_area_level_1"
  const CountryTag: string := "country"

  /** The rules in the order the implementation tests them. */
  const Rules: seq<Rule> := [
    Rule(Locality, City, LongName),
    Rule(AdministrativeAreaLevel1, State, ShortName),
    Rule(CountryTag, Country, LongName)
  ]

  /** The record a parse starts from: every field absent. */
  const Empty: ParsedAddress := ParsedAddress(None, None, None)

  function Get(a: ParsedAddress, f: Field): (r: Option<string>)
  {
    match f
    case City => a.city
    case State => a.state
    case Country => a.country
  }

  /** Assigns one field, leaving the other two as they were. */
  function Assign(a: ParsedAddress, f: Field, v: string): (r: ParsedAddress)
    ensures Get(r, f) == Some(v)
    ensures forall g :: g != f ==> Get(r, g) == Get(a, g)
  {
    match f
    case City => a.(city := Some(v))
    case State => a.(state := Some(v))
    case Country => a.(country := Some(v))
  }

  function NameOf(c: Component, form: NameForm): (r: string)
  {
    match form
    case LongName => c.longName
    case ShortName => c.shortName
  }

  /** The index of the first rule whose tag occurs among `types`, if any. */
  function FirstMatch(rules: seq<Rule>, types: seq<string>): (r: Option<nat>)
    ensures r.Some? ==> r.value < |rules| && rules[r.value].tag in types
    ensures r.Some? ==> forall j :: 0 <= j < r.value ==> rules[j].tag !in types
    ensures r.None? <==> forall j :: 0 <= j < |rules| ==> rules[j].tag !in types
  {
    if rules == [] then None
    else if rules[0].tag in types then Some(0)
    else
      match FirstMatch(rules[1..], types)
      case None => None
      case Some(k) => Some(k + 1)
  }

  /** The rule a component falls under, if any. */
  function RuleFor(c: Component): (r: Option<Rule>)
  {
    match FirstMatch(Rules, c.types)
    case None => None
    case Some(k) => Some(Rules[k])
  }

  /** The field a component is classified into, if any. */
  function Classify(c: Component): (r: Option<Field>)
  {
    match RuleFor(c)
    case None => None
    case Some(rule) => Some(rule.field)
  }

  /** The value a component classified into a field writes to it. */
  function ValueFor(c: Component): (r: Option<string>)
  {
    match RuleFor(c)
    case None => None
    case Some(rule) => Some(NameOf(c, rule.form))
  }

  /** The effect of one component on the record being built. */
  function Step(a: ParsedAddress, c: Component): (r: ParsedAddress)
  {
    match RuleFor(c)
    case None => a
    case Some(rule) => Assign(a, rule.field, NameOf(c, rule.form))
  }

  /** The record parsed from a sequence of components, processed in order. */
  function Parse(cs: seq<Component>): (r: ParsedAddress)
  {
    if cs == [] then Empty else Step(Parse(cs[..|cs| - 1]), cs[|cs| - 1])
  }

  /** The loop of the implementation: one pass, an if / else-if chain per component. */
  method ParseAddressComponents(components: seq<Component>) returns (address: ParsedAddress)
    ensures address == Parse(components)
  {
    address := Empty;
    for i := 0 to |components|
      invariant address == Parse(components[..i])
    {
      var component := components[i];
      StepByTags(address, component);
      if Locality in component.types {
        address := address.(city := Some(component.longName));
      } else if AdministrativeAreaLevel1 in component.types {
        address := address.(state := Some(component.shortName));
      } else if CountryTag in component.types {
        address := address.(country := Some(component.longName));
      }
      assert components[..i + 1][..i] == components[..i];
    }
    assert components[..|components|] == components;
  }

  // ---------------------------------------------------------------------------
  // Classification of a single component

  /** The rule table read as an if / else-if chain over the three tags. */
  lemma ClassifyByTags(c: Component)
    ensures Classify(c) == Some(City) <==> Locality in c.types
    ensures Classify(c) == Some(State) <==> AdministrativeAreaLevel1 in c.types && Locality !in c.types
    ensures Classify(c) == Some(Country) <==>
      CountryTag in c.types && Locality !in c.types && AdministrativeAreaLevel1 !in c.types
    ensures Classify(c) == None <==>
      Locality !in c.types && AdministrativeAreaLevel1 !in c.types && CountryTag !in c.types
  {
    var m := FirstMatch(Rules, c.types);
    assert Rules[0].tag == Locality && Rules[1].tag == AdministrativeAreaLevel1 && Rules[2].tag == CountryTag;
    if m.Some? {
      assert m.value < 3;
      if m.value == 1 {
        assert Rules[0].tag !in c.types;
      } else if m.value == 2 {
        assert Rules[0].tag !in c.types && Rules[1].tag !in c.types;
      }
    } else {
      assert Rules[0].tag !in c.types && Rules[1].tag !in c.types && Rules[2].tag !in c.types;
    }
  }

  /** City and country take the long name, state the short name. */
  lemma ValueByField(c: Component)
    ensures Classify(c) == Some(City) ==> ValueFor(c) == Some(c.longName)
    ensures Classify(c) == Some(State) ==> ValueFor(c) == Some(c.shortName)
    ensures Classify(c) == Some(Country) ==> ValueFor(c) == Some(c.longName)
    ensures Classify(c) == None <==> ValueFor(c) == None
  {
    var m := FirstMatch(Rules, c.types);
    if m.Some? {
      assert m.value < 3;
    }
  }

  /** One component writes at most the field it is classified into, with its value. */
  lemma StepWritesClassifiedField(a: ParsedAddress, c: Component)
    ensures Classify(c) == None ==> Step(a, c) == a
    ensures forall f :: Classify(c) == Some(f) ==> Get(Step(a, c), f) == ValueFor(c)
    ensures forall f :: Classify(c) != Some(f) ==> Get(Step(a, c), f) == Get(a, f)
  {
  }

  /** One step is the implementation's if / else-if chain: the first matching tag decides. */
  lemma StepByTags(a: ParsedAddress, c: Component)
    ensures Step(a, c) ==
      if Locality in c.types then a.(city := Some(c.longName))
      else if AdministrativeAreaLevel1 in c.types then a.(state := Some(c.shortName))
      else if CountryTag in c.types then a.(country := Some(c.longName))
      else a
  {
    ClassifyByTags(c);
    ValueByField(c);
    StepWritesClassifiedField(a, c);
    var s := Step(a, c);
    assert s == ParsedAddress(Get(s, City), Get(s, State), Get(s, Country));
  }

  // ---------------------------------------------------------------------------
  // The effect of appending one component to those already processed

  lemma ParseSnoc(cs: seq<Component>, c: Component)
    ensures Parse(cs + [c]) == Step(Parse(cs), c)
  {
    assert (cs + [c])[..|cs|] == cs;
  }

  /** A locality sets the city from the long name and nothing else, whatever other tags it has. */
  lemma LocalitySetsCity(cs: seq<Component>, c: Component)
    requires Locality in c.types
    ensures Parse(cs + [c]) == Parse(cs).(city := Some(c.longName))
  {
    ParseSnoc(cs, c);
    StepByTags(Parse(cs), c);
  }

  /** A first-level administrative area that is not a locality sets the state from the short name. */
  lemma AdministrativeAreaSetsState(cs: seq<Component>, c: Component)
    requires AdministrativeAreaLevel1 in c.types && Locality !in c.types
    ensures Parse(cs + [c]) == Parse(cs).(state := Some(c.shortName))
  {
    ParseSnoc(cs, c);
    StepByTags(Parse(cs), c);
  }

  /** A country that is neither a locality nor such an area sets the country from the long name. */
  lemma CountrySetsCountry(cs: seq<Component>, c: Component)
    requires CountryTag in c.types && Locality !in c.types && AdministrativeAreaLevel1 !in c.types
    ensures Parse(cs + [c]) == Parse(cs).(country := Some(c.longName))
  {
    ParseSnoc(cs, c);
    StepByTags(Parse(cs), c);
  }

  /** A component with none of the three tags leaves the record unchanged. */
  lemma UntaggedIsIgnored(cs: seq<Component>, c: Component)
    requires Locality !in c.types && AdministrativeAreaLevel1 !in c.types && CountryTag !in c.types
    ensures Parse(cs + [c]) == Parse(cs)
  {
    ParseSnoc(cs, c);
    StepByTags(Parse(cs), c);
  }

  // ---------------------------------------------------------------------------
  // Whole-sequence characterisation: last write wins, absent means never written

  /** A field is absent exactly when no component was classified into it. */
  lemma {:induction false} AbsentIffNeverClassified(cs: seq<Component>, f: Field)
    ensures Get(Parse(cs), f) == None <==> forall i :: 0 <= i < |cs| ==> Classify(cs[i]) != Some(f)
  {
    if cs != [] {
      var init, last := cs[..|cs| - 1], cs[|cs| - 1];
      AbsentIffNeverClassified(init, f);
      StepWritesClassifiedField(Parse(init), last);
      ValueByField(last);
      assert forall i :: 0 <= i < |init| ==> init[i] == cs[i];
    }
  }

  /** A field holds the value of the last component classified into it. */
  lemma {:induction false} LastWriteWins(cs: seq<Component>, f: Field, i: nat)
    requires i < |cs| && Classify(cs[i]) == Some(f)
    requires forall j :: i < j < |cs| ==> Classify(cs[j]) != Some(f)
    ensures Get(Parse(cs), f) == ValueFor(cs[i])
  {
    var init, last := cs[..|cs| - 1], cs[|cs| - 1];
    StepWritesClassifiedField(Parse(init), last);
    if i < |cs| - 1 {
      assert forall j :: i < j < |init| ==> init[j] == cs[j];
      LastWriteWins(init, f, i);
    }
  }

  /** A present field always comes from some component, carrying that component's name of the right form. */
  lemma {:induction false} PresentFieldHasSource(cs: seq<Component>, f: Field)
    requires Get(Parse(cs), f).Some?
    ensures exists i :: 0 <= i < |cs| && Classify(cs[i]) == Some(f) && Get(Parse(cs), f) == ValueFor(cs[i])
  {
    var init, last := cs[..|cs| - 1], cs[|cs| - 1];
    StepWritesClassifiedField(Parse(init), last);
    if Classify(last) == Some(f) {
      assert Classify(cs[|cs| - 1]) == Some(f) && Get(Parse(cs), f) == ValueFor(cs[|cs| - 1]);
    } else {
      PresentFieldHasSource(init, f);
      var i :| 0 <= i < |init| && Classify(init[i]) == Some(f) && Get(Parse(init), f) == ValueFor(init[i]);
      assert init[i] == cs[i];
    }
  }

  /** The whole record is empty exactly when every component was ignored; an empty input gives an empty record. */
  lemma EmptyIffAllIgnored(cs: seq<Component>)
    ensures Parse(cs) == Empty <==> forall i :: 0 <= i < |cs| ==> Classify(cs[i]) == None
  {
    var a := Parse(cs);
    AbsentIffNeverClassified(cs, City);
    AbsentIffNeverClassified(cs, State);
    AbsentIffNeverClassified(cs, Country);
    assert a == Empty <==> Get(a, City) == None && Get(a, State) == None && Get(a, Country) == None;
    forall i | 0 <= i < |cs| && Classify(cs[i]) != None
      ensures Get(a, Classify(cs[i]).value) != None
    {
    }
  }

  // ---------------------------------------------------------------------------
  // Order: only the relative order of components of the same field matters

  /** Parsing continues from the record alone: equal records stay equal under more components. */
  lemma {:induction false} ParseExtends(p: seq<Component>, q: seq<Component>, ys: seq<Component>)
    requires Parse(p) == Parse(q)
    ensures Parse(p + ys) == Parse(q + ys)
  {
    if ys == [] {
      assert p + ys == p && q + ys == q;
    } else {
      var init, last := ys[..|ys| - 1], ys[|ys| - 1];
      ParseExtends(p, q, init);
      assert p + ys == (p + init) + [last];
      assert q + ys == (q + init) + [last];
      ParseSnoc(p + init, last);
      ParseSnoc(q + init, last);
    }
  }

  /** Removing an ignored component anywhere in the sequence does not change the result. */
  lemma IgnoredComponentAnywhere(xs: seq<Component>, c: Component, ys: seq<Component>)
    requires Classify(c) == None
    ensures Parse(xs + [c] + ys) == Parse(xs + ys)
  {
    ParseSnoc(xs, c);
    ParseExtends(xs + [c], xs, ys);
  }

  /** Two adjacent components classified into different fields can be swapped. */
  lemma SwapDifferentFields(xs: seq<Component>, c: Component, d: Component, ys: seq<Component>)
    requires Classify(c) != Classify(d)
    ensures Parse(xs + [c, d] + ys) == Parse(xs + [d, c] + ys)
  {
    var a := Parse(xs);
    ParseSnoc(xs, c);
    ParseSnoc(xs, d);
    assert xs + [c, d] == (xs + [c]) + [d];
    assert xs + [d, c] == (xs + [d]) + [c];
    ParseSnoc(xs + [c], d);
    ParseSnoc(xs + [d], c);
    StepWritesClassifiedField(a, c);
    StepWritesClassifiedField(a, d);
    StepWritesClassifiedField(Step(a, c), d);
    StepWritesClassifiedField(Step(a, d), c);
    var l, r := Step(Step(a, c), d), Step(Step(a, d), c);
    assert Get(l, City) == Get(r, City) && Get(l, State) == Get(r, State) && Get(l, Country) == Get(r, Country);
    ParseExtends(xs + [c, d], xs + [d, c], ys);
  }

  // ---------------------------------------------------------------------------
  // Worked examples

  /** A city, a state and a country component, in the usual order. */
  lemma NewYorkExample()
    ensures Parse([
      Component("New York", "NY", ["locality", "political"]),
      Component("New York", "NY", ["administrative_area_level_1"]),
      Component("United States", "US", ["country"])
    ]) == ParsedAddress(Some("New York"), Some("NY"), Some("United States"))
  {
    var a := Component("New York", "NY", ["locality", "political"]);
    var b := Component("New York", "NY", ["administrative_area_level_1"]);
    var c := Component("United States", "US", ["country"]);
    LocalitySetsCity([], a);
    assert [a] + [b] == [a, b];
    AdministrativeAreaSetsState([a], b);
    assert [a, b] + [c] == [a, b, c];
    CountrySetsCountry([a, b], c);
  }

  /** A component with an unrecognised tag yields the empty record. */
  lemma PostalCodeExample()
    ensures Parse([Component("X", "X", ["postal_code"])]) == Empty
  {
    UntaggedIsIgnored([], Component("X", "X", ["postal_code"]));
    assert [] + [Component("X", "X", ["postal_code"])] == [Component("X", "X", ["postal_code"])];
  }
}
