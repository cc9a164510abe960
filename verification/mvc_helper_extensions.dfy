/** The logic inside the MVC HTML helpers (`MvcHelperExtensions`): the
    `addCustomClass` update of an attribute dictionary, the two
    `ToSelectListItems` overloads, and the `Value`/`Selected` rules of
    `EnumToSelectList`. The HTML rendering calls around them are not modelled;
    the attribute dictionary, the enum's fields and the comparer are inputs. */
module MvcHelperExtensions {
  import opened Wrappers
  import opened Strings
  import opened Linq

  /** A `SelectListItem`: the shown text, the submitted value, and whether the
      option starts selected. */
  datatype SelectListItem = SelectListItem(text: string, value: string, selected: bool)

  /** An attribute value, as string concatenation renders it (`ToString()`). */
  datatype AttributeValue = NullValue | Text(s: string) | Other(display: string)

  /** How `object + string` renders a value: null becomes the empty string. */
  function Display(v: AttributeValue): string {
    match v
    case NullValue => ""
    case Text(s) => s
    case Other(d) => d
  }

  /** The `IDictionary<string, object>` of HTML attributes. */
  class AttributeDictionary {
    var entries: map<string, AttributeValue>

    /** The dictionary `AnonymousObjectToHtmlAttributes` returns. */
    constructor (initial: map<string, AttributeValue>)
      ensures entries == initial
    {
      entries := initial;
    }

    /** `TryGetValue(key, out value)`: null when the key is missing. */
    method TryGetValue(key: string) returns (found: bool, value: AttributeValue)
      ensures found <==> key in entries
      ensures value == if found then entries[key] else NullValue
    {
      found := key in entries;
      value := if found then entries[key] else NullValue;
    }

    /** The indexer `this[key] = value`: adds or replaces one entry. */
    method Set(key: string, value: AttributeValue)
      modifies this
      ensures key in entries && entries[key] == value
      ensures forall k :: k != key ==> (k in entries <==> k in old(entries))
      ensures forall k :: k != key && k in entries ==> entries[k] == old(entries)[k]
    {
      entries := entries[key := value];
    }
  }

  /** The rendered value of the `"class"` attribute before the update. */
  function PreviousClass(attributes: map<string, AttributeValue>): string {
    if "class" in attributes then Display(attributes["class"]) else ""
  }

  /** The attributes after `addCustomClass`: the class attribute becomes the
      previous classes, a blank and the custom class; nothing else changes. */
  function WithCustomClass(attributes: map<string, AttributeValue>, customClass: string): (r: map<string, AttributeValue>)
    ensures r.Keys == attributes.Keys + {"class"}
    ensures r["class"] == Text(PreviousClass(attributes) + " " + customClass)
    ensures forall k :: k in attributes && k != "class" ==> r[k] == attributes[k]
  {
    attributes["class" := Text(PreviousClass(attributes) + " " + customClass)]
  }

  /** `addCustomClass(htmlAttributes, out attributes, customClass)`. */
  method AddCustomClass(htmlAttributes: map<string, AttributeValue>, customClass: string)
    returns (attributes: AttributeDictionary)
    ensures fresh(attributes)
    ensures attributes.entries == WithCustomClass(htmlAttributes, customClass)
  {
    attributes := new AttributeDictionary(htmlAttributes);
    var found, cssClass := attributes.TryGetValue("class");
    if !found {
      cssClass := Text("");
    }
    attributes.Set("class", Text(Display(cssClass) + " " + customClass));
  }

  /** Without a class attribute the result starts with a blank. */
  lemma CustomClassOnFreshAttributes(attributes: map<string, AttributeValue>, customClass: string)
    requires "class" !in attributes
    ensures WithCustomClass(attributes, customClass)["class"] == Text(" " + customClass)
  {
  }

  /** Two updates append both classes in order, each after a blank. */
  lemma CustomClassTwice(attributes: map<string, AttributeValue>, first: string, second: string)
    ensures WithCustomClass(WithCustomClass(attributes, first), second)["class"]
            == Text(PreviousClass(attributes) + " " + first + " " + second)
  {
  }

  /** The projection the `Select` builds: the item of one element. */
  function ItemMaker<T>(nameSelector: T -> string, valueSelector: T -> string, selected: T -> bool)
    : T -> SelectListItem
  {
    x => SelectListItem(nameSelector(x), valueSelector(x), selected(x))
  }

  /** `items.OrderBy(nameSelector).Select(item => new SelectListItem {
      Selected = selected(item), Text = nameSelector(item), Value = valueSelector(item) })`:
      one item per element, ordered by text. */
  function ToSelectListItems<T>(items: seq<T>, nameSelector: T -> string, valueSelector: T -> string,
                                selected: T -> bool, leq: (string, string) -> bool): (r: seq<SelectListItem>)
    requires TotalPreorder(leq)
    ensures multiset(r) == multiset(Select(items, ItemMaker(nameSelector, valueSelector, selected)))
    ensures forall i, j :: 0 <= i < j < |r| ==> leq(r[i].text, r[j].text)
  {
    var sorted := OrderBy(items, nameSelector, leq);
    SelectPermutation(sorted, items, ItemMaker(nameSelector, valueSelector, selected));
    Select(sorted, ItemMaker(nameSelector, valueSelector, selected))
  }

  /** The selector of the two-argument overload, which leaves `Selected` at false. */
  function NeverSelected<T>(x: T): bool {
    false
  }

  /** The two-argument overload: as above, with every item unselected. */
  function ToUnselectedListItems<T>(items: seq<T>, nameSelector: T -> string, valueSelector: T -> string,
                                    leq: (string, string) -> bool): (r: seq<SelectListItem>)
    requires TotalPreorder(leq)
    ensures multiset(r) == multiset(Select(items, ItemMaker(nameSelector, valueSelector, NeverSelected)))
    ensures forall i, j :: 0 <= i < j < |r| ==> leq(r[i].text, r[j].text)
    ensures forall i :: 0 <= i < |r| ==> !r[i].selected
  {
    var sorted := OrderBy(items, nameSelector, leq);
    SelectPermutation(sorted, items, ItemMaker(nameSelector, valueSelector, NeverSelected));
    Select(sorted, ItemMaker(nameSelector, valueSelector, NeverSelected))
  }

  /** An `Int32` (the result of `Convert.ToInt32`). */
  newtype Int32 = x: int | -0x8000_0000 <= x < 0x8000_0000

  /** The two's-complement bit pattern `&` works on. */
  function Bits(x: Int32): bv32 {
    (if x < 0 then x as int + 0x1_0000_0000 else x as int) as bv32
  }

  /** Integer mode's test `(v & e) == v`: every bit of the field's value is
      set in the enum value. */
  predicate FlagSelected(fieldValue: Int32, enumValue: Int32) {
    Bits(fieldValue) & Bits(enumValue) == Bits(fieldValue)
  }

  /** A public static field of the enum type: its name, its raw constant,
      and the `ToString()` of its first `TAttributeType` attribute, if any. */
  datatype EnumField = EnumField(name: string, rawValue: Int32, attributeText: Option<string>)

  /** `FirstOrDefault().ToString()` on a field without the attribute. */
  datatype EnumError = NullReferenceException

  /** The item of one field, given `enumObj` as an integer and as its `ToString()`. */
  function EnumItem(field: EnumField, enumValue: Int32, enumText: string, useIntegerValue: bool)
    : (r: Result<SelectListItem, EnumError>)
    ensures r.Success? <==> field.attributeText.Some?
    ensures r.Success? ==> r.value.text == field.attributeText.value
    ensures r.Success? && useIntegerValue ==>
              r.value.value == DecimalString(field.rawValue as int)
              && CanonicalDecimal(r.value.value)
              && ParseDecimal(r.value.value) == Some(field.rawValue as int)
              && (r.value.selected <==> FlagSelected(field.rawValue, enumValue))
    ensures r.Success? && !useIntegerValue ==>
              r.value.value == field.name
              && (r.value.selected <==> exists i :: OccursAt(enumText, field.name, i))
  {
    if field.attributeText.None? then Failure(NullReferenceException)
    else
      DecimalRoundTrip(field.rawValue as int);
      Success(SelectListItem(
        field.attributeText.value,
        if useIntegerValue then DecimalString(field.rawValue as int) else field.name,
        if useIntegerValue then FlagSelected(field.rawValue, enumValue) else Contains(enumText, field.name)))
  }

  /** `EnumToSelectList`: one item per field, in field order; the lazy
      sequence throws on the first field without the attribute. */
  function EnumToSelectList(fields: seq<EnumField>, enumValue: Int32, enumText: string, useIntegerValue: bool)
    : (r: Result<seq<SelectListItem>, EnumError>)
    ensures r.Success? <==> forall k :: 0 <= k < |fields| ==> fields[k].attributeText.Some?
    ensures r.Success? ==> |r.value| == |fields|
    ensures r.Success? ==> forall k :: 0 <= k < |fields| ==>
              EnumItem(fields[k], enumValue, enumText, useIntegerValue) == Success(r.value[k])
  {
    if fields == [] then Success([])
    else
      match EnumItem(fields[0], enumValue, enumText, useIntegerValue)
      case Failure(e) => Failure(e)
      case Success(item) =>
        match EnumToSelectList(fields[1..], enumValue, enumText, useIntegerValue)
        case Failure(e) => Failure(e)
        case Success(rest) =>
          assert forall k :: 1 <= k < |fields| ==> fields[k] == fields[1..][k - 1];
          Success([item] + rest)
  }

  /** In integer mode a zero-valued field (a `None = 0` member) is selected
      whatever the enum value. */
  lemma ZeroFieldAlwaysSelected(field: EnumField, enumValue: Int32, enumText: string)
    requires field.rawValue == 0 && field.attributeText.Some?
    ensures EnumItem(field, enumValue, enumText, true).Success?
    ensures EnumItem(field, enumValue, enumText, true).value.selected
  {
  }

  /** In integer mode the field whose value is the enum value is selected. */
  lemma OwnValueSelected(field: EnumField, enumText: string)
    requires field.attributeText.Some?
    ensures EnumItem(field, field.rawValue, enumText, true).Success?
    ensures EnumItem(field, field.rawValue, enumText, true).value.selected
  {
  }

  /** In integer mode selection grows with the enum value's bits. */
  lemma FlagSelectedMonotone(field: EnumField, e: Int32, e': Int32, enumText: string)
    requires field.attributeText.Some?
    requires EnumItem(field, e, enumText, true).value.selected
    requires Bits(e) & Bits(e') == Bits(e)
    ensures EnumItem(field, e', enumText, true).value.selected
  {
  }

  /** In name mode the test is a substring test, so a field whose name
      begins the enum's text is selected, even when that text is the name
      of another, longer field. */
  lemma NameModeMatchesSubstrings(field: EnumField, rest: string, enumValue: Int32)
    requires field.attributeText.Some?
    ensures EnumItem(field, enumValue, field.name + rest, false).Success?
    ensures EnumItem(field, enumValue, field.name + rest, false).value.selected
  {
    assert (field.name + rest)[0..|field.name|] == field.name;
    assert OccursAt(field.name + rest, field.name, 0);
  }
}
