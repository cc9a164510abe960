# CommonTasksLib helpers, modelled in Dafny

This project models the two pieces of real logic in the `CommonTasksLib.Data`
helpers.

1. The **property-transfer utility** `ObjectExtensions.Transfer`. It does a
   shallow copy from a source object to a target object. A source property is
   copied only when all of these hold:
   - the source property is readable;
   - its name is not in the comma-separated skip string (compared ignoring case);
   - the target has a public instance property with exactly the same name;
   - that property is writable;
   - its type is assignable from the source property's type.

   A null target is first replaced by a default-constructed instance.
2. The logic inside the **MVC HTML helpers**:
   - `addCustomClass` appends a CSS class to an attribute dictionary in place;
   - the two `ToSelectListItems` overloads sort by display name and build
     `SelectListItem`s;
   - `EnumToSelectList` computes each item's `Value` and `Selected`.

Files:

- `wrappers.dfy`: `Option` and `Result`.
- `strings.dfy`: the .NET string operations the helpers call:
  - `Split(',')`, with `Join` as its inverse;
  - `Trim` and `char.IsWhiteSpace`;
  - `OrdinalIgnoreCase` equality;
  - ordinal `Contains`;
  - the decimal `ToString()` of an `Int32`, with a parser as its inverse.
- `linq.dfy`: the LINQ operators used, on sequences:
  - `Where`;
  - `Select`;
  - `OrderBy`, as a stable insertion sort under a comparer that is a parameter.
- `object_extensions.dfy`: the transfer model.
  - Reflection is replaced by type descriptors. A `TypeDesc` lists the
    public instance properties in reflection order, each with its name,
    `CanRead`, `CanWrite` and declared type. It also holds the values the
    parameterless constructor leaves.
  - `IsAssignableFrom` is a given set of (to, from) pairs.
  - An object is a class `Obj`: a runtime type, plus a map from property name to
    value that `Transfer` updates in place.
  - The private `Transfer` works in two steps, like the source:
    - `BuildAssignments` is the `foreach` that collects the assignment
      expressions;
    - `Execute` is the compiled delegate, which runs them in order.
- `mvc_helper_extensions.dfy`: the attribute dictionary as a class,
  `AddCustomClass`, both `ToSelectListItems` overloads, and `EnumToSelectList`.

Two behaviours of the code are easy to miss, and the model keeps both.

- **Null source.** There is no up-front null check. A null source throws
  `NullReferenceException` at `source.GetType()` (`ObjectExtensions.cs:22`),
  after a null `targetObj` has already been replaced by a new instance
  (`ObjectExtensions.cs:86-89`). `TransferTo` states exactly that.
- **Blank skip segment.** Only segments that are empty *before* trimming are
  dropped. So a blank segment such as `" "` survives as the name `""`
  (`BlankSegmentKept`).

## Model

| member | source | states |
|---|---|---|
| `ObjectExtensions.TransferTo` | CommonTasksLib/Data/ObjectExtensions.cs:82-100 | A null `targetObj` is replaced by a fresh default-constructed `TargetType`; a non-null one is kept as the same reference. With a non-null source, the target ends in `TransferredValues` of the old values under the parsed skip list. A null source yields `NullReferenceException` after the replacement, with the target values untouched. A source that is not the target is only read. |
| `ObjectExtensions.Transfer` | CommonTasksLib/Data/ObjectExtensions.cs:20-71 | A null source gives `NullReferenceException` and leaves the target unchanged. Otherwise the target's new values are `TransferredValues` of the old source and target values, the target stays well-formed, and a distinct source is unchanged. |
| `ObjectExtensions.BuildAssignments` | CommonTasksLib/Data/ObjectExtensions.cs:38-60 | The loop's collected assignments are exactly `Assignments` of the source properties, in source-property order. |
| `ObjectExtensions.Execute` | CommonTasksLib/Data/ObjectExtensions.cs:63-70 | Running the compiled assignments in order leaves the target's values equal to `Apply` of the old target and old source values. This holds even when source and target are one object. |
| `ObjectExtensions.Obj.constructor` | CommonTasksLib/Data/ObjectExtensions.cs:88 | `new TargetType()` has the given runtime type and holds its constructor defaults. |
| `ObjectExtensions.GetProperty` | CommonTasksLib/Data/ObjectExtensions.cs:49 | Exact-name lookup. A result is a property of the type with that exact name; there is no result only when no property has that name. |
| `ObjectExtensions.IsSkipped` | CommonTasksLib/Data/ObjectExtensions.cs:45-46 | True exactly when a skip list is given and one of its entries equals the name under `OrdinalIgnoreCase`. `SkipIgnoresCase` and `ListedNotTransferred` build on it. |
| `ObjectExtensions.Eligible` | CommonTasksLib/Data/ObjectExtensions.cs:41-52 | The five conditions of one loop iteration, with no contract of its own. `AssignmentsSound` and `AssignmentsComplete` tie it to the collected assignments, and `TargetMatchIsExact` and `SkipIgnoresCase` single out its case rules. |
| `ObjectExtensions.Assignments` | CommonTasksLib/Data/ObjectExtensions.cs:38-59 | The reference definition of the collected assignments, with no contract of its own. `BuildAssignments` is proved equal to it. `AssignmentsSound`, `AssignmentsComplete`, `AssignmentsDistinct` and `AssignmentsSnoc` state its properties. |
| `ObjectExtensions.AssignmentsSound` | CommonTasksLib/Data/ObjectExtensions.cs:38-59 | Every collected assignment comes from a source property that is readable, not skipped, and has an exact-name, writable, assignable target property. The assignment writes exactly that target property. |
| `ObjectExtensions.AssignmentsComplete` | CommonTasksLib/Data/ObjectExtensions.cs:38-59 | Every source property meeting those five conditions has an assignment. |
| `ObjectExtensions.AssignmentsDistinct` | CommonTasksLib/Data/ObjectExtensions.cs:38-59 | When the source type's property names are distinct, no name is assigned twice. |
| `ObjectExtensions.AssignmentsSnoc` | CommonTasksLib/Data/ObjectExtensions.cs:38-59 | One more iteration of the loop appends the property's assignment exactly when it is eligible, and otherwise (a `continue` or a failed test) leaves the list as it is. |
| `ObjectExtensions.Apply` | CommonTasksLib/Data/ObjectExtensions.cs:54-70 | The target keeps its keys and gains only the assigned names. A name no assignment writes keeps its old value. |
| `ObjectExtensions.TransferredValues` | CommonTasksLib/Data/ObjectExtensions.cs:38-70 | The reference definition of the target's values after the private `Transfer`, with no contract of its own. `Transfer` is proved to produce it. `TransferredValuesAt` characterises it property by property, and `TransferIdempotent` and `SelfTransferUnchanged` build on that. |
| `ObjectExtensions.ApplyWritten` | CommonTasksLib/Data/ObjectExtensions.cs:54-58 | An assignment that is the only one writing its property leaves the source value there. |
| `ObjectExtensions.PlanTargets` | CommonTasksLib/Data/ObjectExtensions.cs:49-58 | Each assignment writes the target property of the same name as its source property, and both objects have that property. |
| `ObjectExtensions.TransferredValuesAt` | CommonTasksLib/Data/ObjectExtensions.cs:38-59 | The target keeps exactly its properties. A target property ends holding the source value when some source property of that name is readable, not skipped, exactly matched, writable and assignable; otherwise it keeps its prior value. |
| `ObjectExtensions.TransferredWritten` | CommonTasksLib/Data/ObjectExtensions.cs:50-58 | An eligible source property's value reaches the same-named target property. |
| `ObjectExtensions.TransferredKept` | CommonTasksLib/Data/ObjectExtensions.cs:41-52 | A target property no eligible source property names keeps its prior value (nothing else changes). |
| `ObjectExtensions.TransferIdempotent` | CommonTasksLib/Data/ObjectExtensions.cs:54-58 | Transferring twice with the same source and skip list leaves the same target state as once. |
| `ObjectExtensions.SelfTransferUnchanged` | CommonTasksLib/Data/ObjectExtensions.cs:70 | Transferring an object onto itself leaves it unchanged. |
| `ObjectExtensions.SkipIgnoresCase` | CommonTasksLib/Data/ObjectExtensions.cs:46 | A skip entry equal to the property name up to letter case excludes the property. |
| `ObjectExtensions.TargetMatchIsExact` | CommonTasksLib/Data/ObjectExtensions.cs:49 | With no target property of exactly the same name (a case variant does not count), the property is not copied. |
| `ObjectExtensions.ListedNotTransferred` | CommonTasksLib/Data/ObjectExtensions.cs:45-47 | A name that appears in the skip list is copied from no source property. |
| `ObjectExtensions.SkipNames` | CommonTasksLib/Data/ObjectExtensions.cs:92-93 | At most one name per comma-separated segment, none with white space at either end. `SkipNamesMembers` gives membership exactly, and `SkipNamesOfJoin` gives the order. |
| `ObjectExtensions.SkipList` | CommonTasksLib/Data/ObjectExtensions.cs:90-98 | A skip list exists exactly when a skip string is given. For `""` it is empty (`NullOrEmptySkipsNothing`). |
| `ObjectExtensions.SkipNamesOfJoin` | CommonTasksLib/Data/ObjectExtensions.cs:92-93 | The skip list of `a + "," + b` is the list of `a` followed by the list of `b`, so the names stay in segment order. |
| `ObjectExtensions.SkipNamesOfSegment` | CommonTasksLib/Data/ObjectExtensions.cs:92-93 | A comma-free segment contributes its trimmed form, or nothing when it is empty. |
| `ObjectExtensions.BlankSegmentKept` | CommonTasksLib/Data/ObjectExtensions.cs:92-93 | `IsNullOrEmpty` runs before `Trim`, so an all-white-space segment survives as `""`. |
| `ObjectExtensions.NullOrEmptySkipsNothing` | CommonTasksLib/Data/ObjectExtensions.cs:90-98 | A null skip string gives no list, `""` gives the empty list, and neither skips any name. |
| `ObjectExtensions.SkipNamesMembers` | CommonTasksLib/Data/ObjectExtensions.cs:92-93 | A name is in the skip list exactly when it is the trimmed form of a segment that was non-empty before trimming. |
| `ObjectExtensions.SkipPlainName` | CommonTasksLib/Data/ObjectExtensions.cs:92-93 | A single plain name parses to itself. |
| `ObjectExtensions.SkipSpacedName` | CommonTasksLib/Data/ObjectExtensions.cs:93 | A leading blank is trimmed from a name. |
| `ObjectExtensions.SkipTwoNames` | CommonTasksLib/Data/ObjectExtensions.cs:92-93 | `"a, b"` parses to `[a, b]`. |
| `ObjectExtensions.ScenarioSkipList` | LibTests/ObjectExtensionTests.cs:35 | The test's skip string `"FirstProperty, ReferenceProperty"` parses to the two names. |
| `ObjectExtensions.NullDestinationFixture` | LibTests/ObjectExtensionTests.cs:11-22 | For the `TestClass` fixture under any three distinct property names, a new target receives the source's first and second property values. |
| `ObjectExtensions.SkipFixture` | LibTests/ObjectExtensionTests.cs:26-37 | For the same fixture with both names in the skip list, the new target keeps its defaults for them, whatever the source holds. |
| `ObjectExtensions.NullDestinationScenario` | LibTests/ObjectExtensionTests.cs:11-22 | The `Transfer_NullDestination` test: a new `TestClass` target gets `FirstProperty == "Hi"` and the source's `ReferenceProperty`. |
| `ObjectExtensions.SkipScenario` | LibTests/ObjectExtensionTests.cs:26-37 | The `Transfer_USingSkip` test: with both names skipped, `FirstProperty` stays null and `ReferenceProperty` keeps its default. |
| `Strings.Split` | CommonTasksLib/Data/ObjectExtensions.cs:92 | `Split(',')` keeps empty parts and always returns at least one part. `SplitPartsFree`, `SplitJoin`, `JoinSplit` and `SplitAround` state the rest. |
| `Strings.SplitPartsFree` | CommonTasksLib/Data/ObjectExtensions.cs:92 | No part of `Split(',')` contains a comma. |
| `Strings.SplitJoin` | CommonTasksLib/Data/ObjectExtensions.cs:92 | Joining the parts of a split with the separator gives the input back. |
| `Strings.JoinSplit` | CommonTasksLib/Data/ObjectExtensions.cs:92 | Splitting a join of separator-free parts gives the parts back. |
| `Strings.SplitAround` | CommonTasksLib/Data/ObjectExtensions.cs:92 | The parts of `a + sep + b` are the parts of `a` followed by the parts of `b`. |
| `Strings.Trim` | CommonTasksLib/Data/ObjectExtensions.cs:93 | The result is a slice of the input with only white space removed at either end, and it neither starts nor ends with white space. |
| `Strings.TrimEmptyIffWhiteSpace` | CommonTasksLib/Data/ObjectExtensions.cs:92-93 | Trimming gives `""` exactly when the input is all white space. |
| `Strings.EqualsIgnoreCase` | CommonTasksLib/Data/ObjectExtensions.cs:46 | `OrdinalIgnoreCase` equality: the same length, and the same upper-case character at every index. It has no contract of its own. `ContainsIgnoreCase` and `SkipIgnoresCase` use it. |
| `Strings.ContainsIgnoreCase` | CommonTasksLib/Data/ObjectExtensions.cs:46 | True exactly when some listed name equals the name under `OrdinalIgnoreCase`. |
| `Strings.Contains` | CommonTasksLib/Data/MvcHelperExtensions.cs:120 | True exactly when the name occurs in the text at some index. |
| `Strings.DecimalString` | CommonTasksLib/Data/MvcHelperExtensions.cs:112 | `ToString()` of an `Int32` gives its canonical decimal form: digits with no leading zero (except `"0"`), and a leading `-` exactly for negative numbers. |
| `Strings.DigitsOfValue` | CommonTasksLib/Data/MvcHelperExtensions.cs:112 | A canonical digit string is exactly the digits of the number it denotes. |
| `Strings.DecimalStringUnique` | CommonTasksLib/Data/MvcHelperExtensions.cs:112 | A canonical decimal string that parses to `v` is `DecimalString(v)`: the printed form is the only canonical one. |
| `Strings.DecimalRoundTrip` | CommonTasksLib/Data/MvcHelperExtensions.cs:112 | Parsing the decimal string of an integer gives the integer back. |
| `Linq.Where` | CommonTasksLib/Data/ObjectExtensions.cs:92 | The result keeps exactly the elements that pass the test, and is no longer than the input. |
| `Linq.WhereAppend` | CommonTasksLib/Data/ObjectExtensions.cs:92 | Filtering preserves order: filtering a concatenation concatenates the filtered halves. |
| `Linq.OrderBy` | CommonTasksLib/Data/MvcHelperExtensions.cs:48 | The result is a permutation of the input, sorted by the key under the comparer. |
| `Linq.Select` | CommonTasksLib/Data/MvcHelperExtensions.cs:49-55 | The result has one element per input element: the projection of the element at the same index. |
| `Linq.SelectPermutation` | CommonTasksLib/Data/MvcHelperExtensions.cs:48-55 | Projecting a permutation gives a permutation of the projections. |
| `MvcHelperExtensions.AddCustomClass` | CommonTasksLib/Data/MvcHelperExtensions.cs:272-284 | Returns a new dictionary whose entries are `WithCustomClass` of the given attributes. |
| `MvcHelperExtensions.WithCustomClass` | CommonTasksLib/Data/MvcHelperExtensions.cs:278-283 | `"class"` becomes the previous class value (empty when absent or null), a blank, and the custom class. The keys are the old keys plus `"class"`, and every other key keeps its value. |
| `MvcHelperExtensions.CustomClassOnFreshAttributes` | CommonTasksLib/Data/MvcHelperExtensions.cs:279-283 | Without a `"class"` key the new value is `" " + customClass`, with a leading blank. |
| `MvcHelperExtensions.CustomClassTwice` | CommonTasksLib/Data/MvcHelperExtensions.cs:283 | Two updates append both classes in order, each after a blank. |
| `MvcHelperExtensions.AttributeDictionary.TryGetValue` | CommonTasksLib/Data/MvcHelperExtensions.cs:279 | Reports whether the key is present; the value is the stored one, or null when the key is missing. |
| `MvcHelperExtensions.AttributeDictionary.Set` | CommonTasksLib/Data/MvcHelperExtensions.cs:283 | The indexer writes that key only; every other entry is unchanged. |
| `MvcHelperExtensions.ItemMaker` | CommonTasksLib/Data/MvcHelperExtensions.cs:49-55 | The object initializer: `Text` from the name selector, `Value` from the value selector, `Selected` from the predicate. It has no contract of its own. `ToSelectListItems` states what the list of these items is. |
| `MvcHelperExtensions.ToSelectListItems` | CommonTasksLib/Data/MvcHelperExtensions.cs:40-56 | The result is a permutation of the per-element items (`Text = nameSelector(x)`, `Value = valueSelector(x)`, `Selected = selected(x)`), sorted by text. |
| `MvcHelperExtensions.ToUnselectedListItems` | CommonTasksLib/Data/MvcHelperExtensions.cs:77-91 | Same as the three-argument form, with every item's `Selected` left false. |
| `MvcHelperExtensions.EnumItem` | CommonTasksLib/Data/MvcHelperExtensions.cs:109-121 | A field without the attribute throws. Otherwise `Text` is the attribute's text. In integer mode, `Value` is the canonical decimal string of the raw value (which parses back to it) and `Selected` is `(v & e) == v`. In name mode, `Value` is the field name and `Selected` holds when the enum's text contains the name. |
| `MvcHelperExtensions.EnumToSelectList` | CommonTasksLib/Data/MvcHelperExtensions.cs:102-125 | Fails exactly when some field lacks the attribute. Otherwise there is one item per field, in field order, each that field's `EnumItem`. |
| `MvcHelperExtensions.FlagSelected` | CommonTasksLib/Data/MvcHelperExtensions.cs:117-119 | `(v & e) == v` on the 32-bit two's-complement patterns of the `Convert.ToInt32` results. It has no contract of its own. `ZeroFieldAlwaysSelected`, `OwnValueSelected` and `FlagSelectedMonotone` state its consequences. |
| `MvcHelperExtensions.ZeroFieldAlwaysSelected` | CommonTasksLib/Data/MvcHelperExtensions.cs:115-119 | In integer mode an attributed zero-valued field yields a selected item whatever the enum value. |
| `MvcHelperExtensions.OwnValueSelected` | CommonTasksLib/Data/MvcHelperExtensions.cs:115-119 | In integer mode the attributed field whose value equals the enum value yields a selected item. |
| `MvcHelperExtensions.FlagSelectedMonotone` | CommonTasksLib/Data/MvcHelperExtensions.cs:115-119 | In integer mode, setting more bits in the enum value never deselects an item. |
| `MvcHelperExtensions.NameModeMatchesSubstrings` | CommonTasksLib/Data/MvcHelperExtensions.cs:120 | In name mode any field whose name begins the enum's text is selected, even when it is only part of another name. |

## Left out

- Reflection and expression trees are replaced by type descriptors and direct
  assignments (`ObjectExtensions.cs:22-36`, `63-68`):
  - `GetProperties` and `GetProperty` become descriptor lists;
  - `Expression.*` and `Compile` become the assignment list;
  - `Expression.Convert` is taken to keep the value.

  Properties are stored values, so getters and setters with side effects or
  exceptions are not modelled. Indexer properties are not modelled either.
- A type with two public properties of one name (hiding with `new`) makes
  `GetProperty` throw `AmbiguousMatchException`. Type descriptors are required
  to have distinct names, so that case is not modelled.
- The `new()` constraint (`ObjectExtensions.cs:83`) rules out a missing
  parameterless constructor at compile time, so that failure is not modelled.
- Strings.ToUpperOrdinal: folds only ASCII letters. `OrdinalIgnoreCase` also
  folds non-ASCII letters by their simple upper-case mapping.
- `OrderBy` uses the culture's string comparer. It is a parameter here: any
  total preorder. Stability is not stated, though the insertion sort is stable.
- Deferred execution of the LINQ pipelines is not modelled. The selectors are
  pure functions, evaluated when the sequence is enumerated.
- `EnumToSelectList`:
  - The `Text` is the `ToString()` of the field's first attribute of the
    requested type, given as an input.
  - A missing attribute is the `NullReferenceException` that enumeration throws.
    The items before that field, already produced lazily, are not modelled.
  - Only enums with an `Int32` underlying type are modelled. For other
    underlying types, `Convert.ToInt32` can overflow and the raw constant
    prints differently.
  - The current culture's negative sign is taken to be `-`.
- Strings.ParseDecimal: accepts only the canonical form `DecimalString`
  produces (an optional `-` and digits), not everything `Int32.Parse` accepts.
- `HtmlHelper.AnonymousObjectToHtmlAttributes` (`MvcHelperExtensions.cs:277`)
  is a framework call. The model takes its result as the input map. Its
  underscore-to-hyphen renaming and case-insensitive key comparison are not
  modelled, so keys are compared exactly.
- The HTML helper wrappers (`MvcHelperExtensions.cs:127-270`, `286-336`) are
  one-line calls into the MVC framework and are not modelled: the `C*For` and
  `C*` helpers, `ToSelectList`, `NoEncodeActionLink` and `ActionLinkImage`.
- `ADOHelperExtensions.ToExpandoArray` is not part of this model. It is a
  parallel loop over a data reader, so its substance is I/O and concurrency.
- The `FormatWith` method tested in `LibTests/UnitTest1.cs` is not part of
  this model.
