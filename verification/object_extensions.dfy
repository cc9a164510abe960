/** The property-transfer utility `ObjectExtensions.Transfer`: a shallow copy
    of every readable, not-skipped public instance property of a source object
    into the same-named, writable, assignable property of a target object.

    Reflection is replaced by explicit type descriptors, `IsAssignableFrom` by
    a given relation, and the compiled expression tree by the list of
    assignments it performs: the private `Transfer` first collects the
    assignments (`BuildAssignments`) and then runs them (`Execute`). */
module ObjectExtensions {
  import opened Wrappers
  import opened Strings
  import opened Linq

  type TypeName = string

  /** A property value; a reference-typed value is an object identity. */
  datatype Value = Null | Str(s: string) | Date(ticks: int) | Ref(id: nat)

  /** A public instance property, as reflection describes it. */
  datatype PropertyDesc = PropertyDesc(name: string, canRead: bool, canWrite: bool, propertyType: TypeName)

  /** A runtime type: its public instance properties in reflection order, and
      the values its parameterless constructor leaves in them. */
  datatype TypeDesc = TypeDesc(name: TypeName, properties: seq<PropertyDesc>, defaults: map<string, Value>)

  /** `Type.IsAssignableFrom` as the set of pairs (to, from) it accepts;
      `Expression.Convert` between such types keeps the value. */
  type Assignability = set<(TypeName, TypeName)>

  /** How the private `Transfer` ends. */
  datatype Outcome = Completed | NullReferenceException

  /** One compiled `target.P = (T)source.P` assignment. */
  datatype Assignment = Assignment(from: PropertyDesc, to: PropertyDesc)

  predicate DistinctNames(props: seq<PropertyDesc>) {
    forall i, j :: 0 <= i < j < |props| ==> props[i].name != props[j].name
  }

  /** Every property of `t` has an entry in `values`. */
  predicate Covers(t: TypeDesc, values: map<string, Value>) {
    forall i :: 0 <= i < |t.properties| ==> t.properties[i].name in values
  }

  predicate WellFormed(t: TypeDesc) {
    DistinctNames(t.properties) && Covers(t, t.defaults)
  }

  /** An object: a runtime type and the current values of its properties. */
  class Obj {
    const runtimeType: TypeDesc
    var values: map<string, Value>

    ghost predicate Valid()
      reads this
    {
      WellFormed(runtimeType) && Covers(runtimeType, values)
    }

    /** `new T()`: the parameterless constructor. */
    constructor (t: TypeDesc)
      requires WellFormed(t)
      ensures Valid()
      ensures runtimeType == t && values == t.defaults
    {
      runtimeType := t;
      values := t.defaults;
    }
  }

  /** `Type.GetProperty(name, Public | Instance)`: exact, case-sensitive lookup. */
  function GetProperty(props: seq<PropertyDesc>, name: string): (r: Option<PropertyDesc>)
    ensures r.Some? ==> r.value in props && r.value.name == name
    ensures r.None? <==> forall i :: 0 <= i < |props| ==> props[i].name != name
  {
    if props == [] then None
    else if props[0].name == name then Some(props[0])
    else GetProperty(props[1..], name)
  }

  /** The skip test: `toSkip != null && toSkip.Contains(name, OrdinalIgnoreCase)`. */
  function IsSkipped(toSkip: Option<seq<string>>, name: string): (b: bool)
    ensures b <==> toSkip.Some? && exists k :: 0 <= k < |toSkip.value| && EqualsIgnoreCase(toSkip.value[k], name)
  {
    toSkip.Some? && ContainsIgnoreCase(toSkip.value, name)
  }

  /** `!String.IsNullOrEmpty(s)` for a part of a split (never null). */
  predicate NotEmpty(s: string) {
    s != []
  }

  /** `toSkip.Split(',').Where(s => !String.IsNullOrEmpty(s)).Select(s => s.Trim())`. */
  function SkipNames(toSkip: string): (names: seq<string>)
    ensures |names| <= |Split(toSkip, ',')|
    ensures forall k :: 0 <= k < |names| ==> Trimmed(names[k])
  {
    var kept := Where(Split(toSkip, ','), NotEmpty);
    var names := Select(kept, Trim);
    TrimmedAll(kept, names);
    names
  }

  /** The skip list the generic `Transfer` hands on: none for a null string. */
  function SkipList(toSkip: Option<string>): (r: Option<seq<string>>)
    ensures r.None? <==> toSkip.None?
  {
    if toSkip.None? then None else Some(SkipNames(toSkip.value))
  }

  /** The five conditions under which the loop emits an assignment for `p`:
      readable, not skipped, a same-named target property exists, it is
      writable, and its type is assignable from `p`'s. */
  predicate Eligible(p: PropertyDesc, targetType: TypeDesc, toSkip: Option<seq<string>>, assignable: Assignability) {
    && p.canRead
    && !IsSkipped(toSkip, p.name)
    && GetProperty(targetType.properties, p.name).Some?
    && var tp := GetProperty(targetType.properties, p.name).value;
       tp.canWrite && (tp.propertyType, p.propertyType) in assignable
  }

  /** The assignments the loop collects for the source properties `props`,
      in their order. */
  function Assignments(props: seq<PropertyDesc>, targetType: TypeDesc, toSkip: Option<seq<string>>,
                       assignable: Assignability): seq<Assignment>
  {
    if props == [] then []
    else
      var init := Assignments(props[..|props| - 1], targetType, toSkip, assignable);
      var p := props[|props| - 1];
      if Eligible(p, targetType, toSkip, assignable)
      then init + [Assignment(p, GetProperty(targetType.properties, p.name).value)]
      else init
  }

  /** `a` is the assignment the loop emits for its source property: that
      property is eligible and `a` writes the property the exact-name lookup
      finds on the target. */
  predicate Emitted(a: Assignment, targetType: TypeDesc, toSkip: Option<seq<string>>, assignable: Assignability) {
    Eligible(a.from, targetType, toSkip, assignable) && GetProperty(targetType.properties, a.from.name) == Some(a.to)
  }

  /** Every collected assignment comes from a source property and is the one
      the loop emits for it. */
  lemma {:induction false} AssignmentsSound(props: seq<PropertyDesc>, targetType: TypeDesc,
                                            toSkip: Option<seq<string>>, assignable: Assignability)
    ensures forall a :: a in Assignments(props, targetType, toSkip, assignable) ==>
              a.from in props && Emitted(a, targetType, toSkip, assignable)
  {
    if props != [] {
      var prefix, p := props[..|props| - 1], props[|props| - 1];
      assert props == prefix + [p];
      AssignmentsSnoc(prefix, p, targetType, toSkip, assignable);
      AssignmentsSound(prefix, targetType, toSkip, assignable);
    }
  }

  /** Every eligible source property has an assignment. */
  lemma {:induction false} AssignmentsComplete(props: seq<PropertyDesc>, targetType: TypeDesc,
                                               toSkip: Option<seq<string>>, assignable: Assignability, i: nat)
    requires i < |props| && Eligible(props[i], targetType, toSkip, assignable)
    ensures exists k :: 0 <= k < |Assignments(props, targetType, toSkip, assignable)|
                        && Assignments(props, targetType, toSkip, assignable)[k].from == props[i]
  {
    var prefix, p := props[..|props| - 1], props[|props| - 1];
    assert props == prefix + [p];
    AssignmentsSnoc(prefix, p, targetType, toSkip, assignable);
    var r := Assignments(props, targetType, toSkip, assignable);
    if i == |props| - 1 {
      assert r[|r| - 1].from == props[i];
    } else {
      assert prefix[i] == props[i];
      AssignmentsComplete(prefix, targetType, toSkip, assignable, i);
      var k :| 0 <= k < |Assignments(prefix, targetType, toSkip, assignable)|
               && Assignments(prefix, targetType, toSkip, assignable)[k].from == props[i];
      assert r[k] == Assignments(prefix, targetType, toSkip, assignable)[k];
    }
  }

  /** With distinct property names, no name is assigned twice. */
  lemma {:induction false} AssignmentsDistinct(props: seq<PropertyDesc>, targetType: TypeDesc,
                                               toSkip: Option<seq<string>>, assignable: Assignability)
    requires DistinctNames(props)
    ensures forall j, k :: 0 <= j < k < |Assignments(props, targetType, toSkip, assignable)| ==>
              Assignments(props, targetType, toSkip, assignable)[j].from.name
              != Assignments(props, targetType, toSkip, assignable)[k].from.name
  {
    if props != [] {
      var prefix, p := props[..|props| - 1], props[|props| - 1];
      assert props == prefix + [p];
      AssignmentsSnoc(prefix, p, targetType, toSkip, assignable);
      assert DistinctNames(prefix) by {
        assert forall i :: 0 <= i < |prefix| ==> prefix[i] == props[i];
      }
      AssignmentsDistinct(prefix, targetType, toSkip, assignable);
      var init := Assignments(prefix, targetType, toSkip, assignable);
      if Eligible(p, targetType, toSkip, assignable) {
        assert forall a :: a in init ==> a.from.name != p.name by {
          AssignmentsSound(prefix, targetType, toSkip, assignable);
          forall a | a in init ensures a.from.name != p.name {
            var i :| 0 <= i < |prefix| && prefix[i] == a.from;
            assert props[i] == prefix[i];
          }
        }
        NamesDistinctAppend(init, Assignment(p, GetProperty(targetType.properties, p.name).value));
      }
    }
  }

  /** Appending an assignment for a new name keeps the names distinct. */
  lemma NamesDistinctAppend(init: seq<Assignment>, x: Assignment)
    requires forall j, k :: 0 <= j < k < |init| ==> init[j].from.name != init[k].from.name
    requires forall a :: a in init ==> a.from.name != x.from.name
    ensures forall j, k :: 0 <= j < k < |init + [x]| ==> (init + [x])[j].from.name != (init + [x])[k].from.name
  {
    forall j, k | 0 <= j < k < |init + [x]| ensures (init + [x])[j].from.name != (init + [x])[k].from.name {
      assert (init + [x])[j] == init[j];
      if k == |init| {
        assert init[j] in init;
      }
    }
  }

  /** One more source property adds its assignment exactly when it is eligible. */
  lemma AssignmentsSnoc(props: seq<PropertyDesc>, p: PropertyDesc, targetType: TypeDesc,
                        toSkip: Option<seq<string>>, assignable: Assignability)
    ensures Assignments(props + [p], targetType, toSkip, assignable)
            == if Eligible(p, targetType, toSkip, assignable)
               then Assignments(props, targetType, toSkip, assignable)
                    + [Assignment(p, GetProperty(targetType.properties, p.name).value)]
               else Assignments(props, targetType, toSkip, assignable)
  {
    assert (props + [p])[..|props + [p]| - 1] == props;
  }

  /** The private `Transfer`'s `foreach` over the source properties: the
      compiled assignments, in source-property order. */
  method BuildAssignments(sourceType: TypeDesc, targetType: TypeDesc, toSkip: Option<seq<string>>,
                          assignable: Assignability) returns (expressions: seq<Assignment>)
    ensures expressions == Assignments(sourceType.properties, targetType, toSkip, assignable)
  {
    var props := sourceType.properties;
    expressions := [];
    var i := 0;
    while i < |props|
      invariant 0 <= i <= |props|
      invariant expressions == Assignments(props[..i], targetType, toSkip, assignable)
    {
      var property := props[i];
      assert props[..i + 1] == props[..i] + [property];
      AssignmentsSnoc(props[..i], property, targetType, toSkip, assignable);
      i := i + 1;
      if !property.canRead {
        continue;
      }
      if toSkip.Some? && ContainsIgnoreCase(toSkip.value, property.name) {
        continue;
      }
      var targetProperty := GetProperty(targetType.properties, property.name);
      if targetProperty.Some? && targetProperty.value.canWrite
         && (targetProperty.value.propertyType, property.propertyType) in assignable
      {
        expressions := expressions + [Assignment(property, targetProperty.value)];
      }
    }
    assert props[..i] == props;
  }

  /** The target's values after the assignments of `plan` run in order, each
      reading the source value of its property. */
  function Apply(values: map<string, Value>, source: map<string, Value>, plan: seq<Assignment>): (r: map<string, Value>)
    requires forall k :: 0 <= k < |plan| ==> plan[k].from.name in source
    ensures forall n :: n in r <==> n in values || exists k :: 0 <= k < |plan| && plan[k].to.name == n
    ensures forall n :: n in values && (forall k :: 0 <= k < |plan| ==> plan[k].to.name != n) ==> r[n] == values[n]
  {
    if plan == [] then values
    else
      var a := plan[|plan| - 1];
      var init := plan[..|plan| - 1];
      assert forall k :: 0 <= k < |init| ==> init[k] == plan[k];
      Apply(values, source, init)[a.to.name := source[a.from.name]]
  }

  /** Running one more assignment of `plan` updates its property. */
  lemma ApplyStep(values: map<string, Value>, source: map<string, Value>, plan: seq<Assignment>, i: nat)
    requires forall k :: 0 <= k < |plan| ==> plan[k].from.name in source
    requires i < |plan|
    ensures Apply(values, source, plan[..i + 1])
            == Apply(values, source, plan[..i])[plan[i].to.name := source[plan[i].from.name]]
  {
    assert plan[..i + 1][..i] == plan[..i];
  }

  /** An assignment whose property no other assignment writes leaves the source value. */
  lemma {:induction false} ApplyWritten(values: map<string, Value>, source: map<string, Value>, plan: seq<Assignment>, k: nat)
    requires forall j :: 0 <= j < |plan| ==> plan[j].from.name in source
    requires k < |plan|
    requires forall j :: 0 <= j < |plan| && j != k ==> plan[j].to.name != plan[k].to.name
    ensures plan[k].to.name in Apply(values, source, plan)
    ensures Apply(values, source, plan)[plan[k].to.name] == source[plan[k].from.name]
  {
    if k < |plan| - 1 {
      var init := plan[..|plan| - 1];
      assert forall j :: 0 <= j < |init| ==> init[j] == plan[j];
      ApplyWritten(values, source, init, k);
    }
  }

  /** The state `Transfer` leaves the target in, from the values before the call. */
  function TransferredValues(sourceType: TypeDesc, sourceValues: map<string, Value>,
                             targetType: TypeDesc, targetValues: map<string, Value>,
                             toSkip: Option<seq<string>>, assignable: Assignability): map<string, Value>
    requires Covers(sourceType, sourceValues)
  {
    var plan := Assignments(sourceType.properties, targetType, toSkip, assignable);
    AssignmentsSound(sourceType.properties, targetType, toSkip, assignable);
    assert forall k :: 0 <= k < |plan| ==> plan[k].from.name in sourceValues;
    Apply(targetValues, sourceValues, plan)
  }

  /** Some source property named `n` meets all five conditions. */
  predicate IsTransferred(sourceType: TypeDesc, targetType: TypeDesc, toSkip: Option<seq<string>>,
                          assignable: Assignability, n: string) {
    exists i :: 0 <= i < |sourceType.properties| && sourceType.properties[i].name == n
                && Eligible(sourceType.properties[i], targetType, toSkip, assignable)
  }

  /** Every collected assignment writes the same-named property of the
      target, which the target's values cover, from a property the source's
      values cover. */
  lemma PlanTargets(sourceType: TypeDesc, sourceValues: map<string, Value>,
                    targetType: TypeDesc, targetValues: map<string, Value>,
                    toSkip: Option<seq<string>>, assignable: Assignability)
    requires Covers(sourceType, sourceValues) && Covers(targetType, targetValues)
    ensures var plan := Assignments(sourceType.properties, targetType, toSkip, assignable);
            forall k :: 0 <= k < |plan| ==>
              && plan[k].to.name == plan[k].from.name
              && plan[k].to.name in targetValues
              && plan[k].from.name in sourceValues
  {
    var plan := Assignments(sourceType.properties, targetType, toSkip, assignable);
    AssignmentsSound(sourceType.properties, targetType, toSkip, assignable);
    forall k | 0 <= k < |plan|
      ensures plan[k].to.name == plan[k].from.name && plan[k].to.name in targetValues
      ensures plan[k].from.name in sourceValues
    {
      assert GetProperty(targetType.properties, plan[k].from.name) == Some(plan[k].to);
      assert plan[k].to in targetType.properties;
      var i :| 0 <= i < |targetType.properties| && targetType.properties[i] == plan[k].to;
      var j :| 0 <= j < |sourceType.properties| && sourceType.properties[j] == plan[k].from;
    }
  }

  /** A property some eligible source property names receives the source value. */
  lemma TransferredWritten(sourceType: TypeDesc, sourceValues: map<string, Value>,
                           targetType: TypeDesc, targetValues: map<string, Value>,
                           toSkip: Option<seq<string>>, assignable: Assignability, i: nat)
    requires WellFormed(sourceType) && Covers(sourceType, sourceValues) && Covers(targetType, targetValues)
    requires i < |sourceType.properties| && Eligible(sourceType.properties[i], targetType, toSkip, assignable)
    ensures var n := sourceType.properties[i].name;
            var r := TransferredValues(sourceType, sourceValues, targetType, targetValues, toSkip, assignable);
            n in r && n in sourceValues && r[n] == sourceValues[n]
  {
    var plan := Assignments(sourceType.properties, targetType, toSkip, assignable);
    AssignmentsComplete(sourceType.properties, targetType, toSkip, assignable, i);
    AssignmentsDistinct(sourceType.properties, targetType, toSkip, assignable);
    PlanTargets(sourceType, sourceValues, targetType, targetValues, toSkip, assignable);
    var k :| 0 <= k < |plan| && plan[k].from == sourceType.properties[i];
    ApplyWritten(targetValues, sourceValues, plan, k);
  }

  /** A property no eligible source property names keeps its prior value. */
  lemma TransferredKept(sourceType: TypeDesc, sourceValues: map<string, Value>,
                        targetType: TypeDesc, targetValues: map<string, Value>,
                        toSkip: Option<seq<string>>, assignable: Assignability, n: string)
    requires Covers(sourceType, sourceValues) && Covers(targetType, targetValues)
    requires !IsTransferred(sourceType, targetType, toSkip, assignable, n)
    ensures var r := TransferredValues(sourceType, sourceValues, targetType, targetValues, toSkip, assignable);
            (n in r <==> n in targetValues) && (n in targetValues ==> r[n] == targetValues[n])
  {
    var props := sourceType.properties;
    var plan := Assignments(props, targetType, toSkip, assignable);
    AssignmentsSound(props, targetType, toSkip, assignable);
    PlanTargets(sourceType, sourceValues, targetType, targetValues, toSkip, assignable);
    forall k | 0 <= k < |plan| ensures plan[k].to.name != n {
      var i :| 0 <= i < |props| && props[i] == plan[k].from;
    }
  }

  /** The main property: the target keeps its properties, and each ends up
      holding the source value exactly when a source property of that name
      meets all five conditions; otherwise it keeps its prior value. */
  lemma TransferredValuesAt(sourceType: TypeDesc, sourceValues: map<string, Value>,
                            targetType: TypeDesc, targetValues: map<string, Value>,
                            toSkip: Option<seq<string>>, assignable: Assignability, n: string)
    requires WellFormed(sourceType) && Covers(sourceType, sourceValues) && Covers(targetType, targetValues)
    ensures n in TransferredValues(sourceType, sourceValues, targetType, targetValues, toSkip, assignable)
            <==> n in targetValues
    ensures n in targetValues ==>
              TransferredValues(sourceType, sourceValues, targetType, targetValues, toSkip, assignable)[n]
              == if IsTransferred(sourceType, targetType, toSkip, assignable, n) then sourceValues[n] else targetValues[n]
  {
    if IsTransferred(sourceType, targetType, toSkip, assignable, n) {
      var props := sourceType.properties;
      var i :| 0 <= i < |props| && props[i].name == n && Eligible(props[i], targetType, toSkip, assignable);
      TransferredWritten(sourceType, sourceValues, targetType, targetValues, toSkip, assignable, i);
      var tp := GetProperty(targetType.properties, n).value;
      var j :| 0 <= j < |targetType.properties| && targetType.properties[j] == tp;
    } else {
      TransferredKept(sourceType, sourceValues, targetType, targetValues, toSkip, assignable, n);
    }
  }

  /** Running `Transfer` a second time with the same source and skip list
      changes nothing more. */
  lemma TransferIdempotent(sourceType: TypeDesc, sourceValues: map<string, Value>,
                           targetType: TypeDesc, targetValues: map<string, Value>,
                           toSkip: Option<seq<string>>, assignable: Assignability)
    requires WellFormed(sourceType) && Covers(sourceType, sourceValues) && Covers(targetType, targetValues)
    ensures var once := TransferredValues(sourceType, sourceValues, targetType, targetValues, toSkip, assignable);
            TransferredValues(sourceType, sourceValues, targetType, once, toSkip, assignable) == once
  {
    var once := TransferredValues(sourceType, sourceValues, targetType, targetValues, toSkip, assignable);
    forall i | 0 <= i < |targetType.properties| ensures targetType.properties[i].name in once {
      TransferredValuesAt(sourceType, sourceValues, targetType, targetValues, toSkip, assignable, targetType.properties[i].name);
    }
    var twice := TransferredValues(sourceType, sourceValues, targetType, once, toSkip, assignable);
    forall n ensures n in twice <==> n in once
                 ensures n in once ==> twice[n] == once[n] {
      TransferredValuesAt(sourceType, sourceValues, targetType, targetValues, toSkip, assignable, n);
      TransferredValuesAt(sourceType, sourceValues, targetType, once, toSkip, assignable, n);
    }
  }

  /** Transferring an object onto itself changes nothing. */
  lemma SelfTransferUnchanged(t: TypeDesc, values: map<string, Value>,
                              toSkip: Option<seq<string>>, assignable: Assignability)
    requires WellFormed(t) && Covers(t, values)
    ensures TransferredValues(t, values, t, values, toSkip, assignable) == values
  {
    var r := TransferredValues(t, values, t, values, toSkip, assignable);
    forall n ensures n in r <==> n in values
                 ensures n in values ==> r[n] == values[n] {
      TransferredValuesAt(t, values, t, values, toSkip, assignable, n);
    }
  }

  /** A skip entry equal to the property name up to letter case excludes it. */
  lemma SkipIgnoresCase(p: PropertyDesc, targetType: TypeDesc, names: seq<string>,
                        assignable: Assignability, k: nat)
    requires k < |names| && EqualsIgnoreCase(names[k], p.name)
    ensures !Eligible(p, targetType, Some(names), assignable)
  {
  }

  /** The target lookup is exact: a target property whose name differs from
      `p`'s (if only in letter case) is never matched. */
  lemma TargetMatchIsExact(p: PropertyDesc, targetType: TypeDesc, toSkip: Option<seq<string>>,
                           assignable: Assignability)
    requires forall i :: 0 <= i < |targetType.properties| ==> targetType.properties[i].name != p.name
    ensures !Eligible(p, targetType, toSkip, assignable)
  {
  }

  /** Skip parsing keeps, in order, one trimmed name per segment that was not
      empty before trimming: parts around a comma contribute independently. */
  lemma SkipNamesOfJoin(a: string, b: string)
    ensures SkipNames(a + [','] + b) == SkipNames(a) + SkipNames(b)
  {
    SplitAround(a, b, ',');
    WhereAppend(Split(a, ','), Split(b, ','), NotEmpty);
    SelectAppend(Where(Split(a, ','), NotEmpty), Where(Split(b, ','), NotEmpty), Trim);
  }

  /** A segment without a comma gives its trimmed form, unless it is empty. */
  lemma SkipNamesOfSegment(seg: string)
    requires ',' !in seg
    ensures SkipNames(seg) == if seg == [] then [] else [Trim(seg)]
  {
    SplitNoSeparator(seg, ',');
    if seg != [] {
      assert Where([seg], NotEmpty) == [seg];
    }
  }

  /** White space is trimmed after the emptiness test, so an all-blank
      segment survives as the empty name. */
  lemma BlankSegmentKept(seg: string)
    requires seg != [] && ',' !in seg && AllWhiteSpace(seg)
    ensures SkipNames(seg) == [""]
  {
    SkipNamesOfSegment(seg);
    TrimEmptyIffWhiteSpace(seg);
  }

  /** A null skip string and an empty one both skip nothing. */
  lemma NullOrEmptySkipsNothing(name: string)
    ensures SkipList(None) == None && SkipList(Some("")) == Some([])
    ensures !IsSkipped(SkipList(None), name) && !IsSkipped(SkipList(Some("")), name)
  {
    SkipNamesOfSegment("");
  }

  /** The skip list holds exactly the trimmed forms of the non-empty segments. */
  lemma SkipNamesMembers(toSkip: string, x: string)
    ensures x in SkipNames(toSkip) <==> exists seg :: seg in Split(toSkip, ',') && NotEmpty(seg) && Trim(seg) == x
  {
    var parts := Split(toSkip, ',');
    var w := Where(parts, NotEmpty);
    var r := Select(w, Trim);
    assert r == SkipNames(toSkip);
    if x in r {
      assert exists seg :: seg in parts && NotEmpty(seg) && Trim(seg) == x by {
        var k :| 0 <= k < |r| && r[k] == x;
        assert w[k] in parts && NotEmpty(w[k]) && Trim(w[k]) == x;
      }
    }
    if seg :| seg in parts && NotEmpty(seg) && Trim(seg) == x {
      assert x in r by {
        WhereKeeps(parts, NotEmpty, seg);
        var k :| 0 <= k < |w| && w[k] == seg;
        assert r[k] == x;
      }
    }
  }

  method Transfer(source: Obj?, target: Obj, toSkip: Option<seq<string>>, assignable: Assignability)
    returns (result: Outcome)
    requires source != null ==> source.Valid()
    requires target.Valid()
    modifies target
    ensures target.Valid()
    ensures result == if source == null then NullReferenceException else Completed
    ensures source == null ==> target.values == old(target.values)
    ensures source != null ==>
              target.values == TransferredValues(source.runtimeType, old(source.values), target.runtimeType,
                                                 old(target.values), toSkip, assignable)
    ensures source != null && source != target ==> source.values == old(source.values)
  {
    if source == null {
      // `source.GetType()` dereferences null before anything is assigned
      return NullReferenceException;
    }
    var expressions := BuildAssignments(source.runtimeType, target.runtimeType, toSkip, assignable);
    AssignmentsSound(source.runtimeType.properties, target.runtimeType, toSkip, assignable);
    AssignmentsDistinct(source.runtimeType.properties, target.runtimeType, toSkip, assignable);
    Execute(expressions, source, target);
    result := Completed;
  }

  /** The compiled delegate `del(source, target)`: runs the assignments in
      order. The source is read at each step, so this is also right when the
      source and the target are one object. */
  method Execute(plan: seq<Assignment>, source: Obj, target: Obj)
    requires source.Valid() && target.Valid()
    requires forall k :: 0 <= k < |plan| ==>
               && plan[k].from in source.runtimeType.properties
               && plan[k].to in target.runtimeType.properties
               && plan[k].to.name == plan[k].from.name
    requires forall j, k :: 0 <= j < k < |plan| ==> plan[j].from.name != plan[k].from.name
    modifies target
    ensures target.Valid()
    ensures target.values == Apply(old(target.values), old(source.values), plan)
  {
    var i := 0;
    while i < |plan|
      invariant 0 <= i <= |plan|
      invariant source.Valid() && target.Valid()
      invariant target.values == Apply(old(target.values), old(source.values), plan[..i])
      invariant forall k :: i <= k < |plan| ==>
                  source.values[plan[k].from.name] == old(source.values)[plan[k].from.name]
    {
      var a := plan[i];
      ApplyStep(old(target.values), old(source.values), plan, i);
      target.values := target.values[a.to.name := source.values[a.from.name]];
      i := i + 1;
    }
    assert plan[..i] == plan;
  }

  /** The public `Transfer<SourceType, TargetType>(source, ref targetObj, toSkip)`.
      `target` is the value of `targetObj` on return: a new `TargetType` when it
      was null. A null source throws only after that replacement. */
  method TransferTo(source: Obj?, targetObj: Obj?, targetType: TypeDesc, toSkip: Option<string>,
                    assignable: Assignability) returns (result: Outcome, target: Obj)
    requires WellFormed(targetType)
    requires source != null ==> source.Valid()
    requires targetObj != null ==> targetObj.Valid()
    modifies targetObj
    ensures targetObj != null ==> target == targetObj
    ensures targetObj == null ==> fresh(target) && target.runtimeType == targetType
    ensures target.Valid()
    ensures result == if source == null then NullReferenceException else Completed
    ensures source == null ==>
              target.values == if targetObj == null then targetType.defaults else old(targetObj.values)
    ensures source != null ==>
              target.values == TransferredValues(source.runtimeType, old(source.values), target.runtimeType,
                                                 if targetObj == null then targetType.defaults else old(targetObj.values),
                                                 SkipList(toSkip), assignable)
    ensures source != null && source != target ==> source.values == old(source.values)
  {
    if targetObj == null {
      target := new Obj(targetType);
    } else {
      target := targetObj;
    }
    if toSkip.Some? {
      var skipList := SkipNames(toSkip.value);
      result := Transfer(source, target, Some(skipList), assignable);
    } else {
      result := Transfer(source, target, None, assignable);
    }
  }

  /** The `TestClass` fixture of the unit tests, with its three property
      names as parameters. */
  function Fixture(first: string, reference: string, self: string): TypeDesc {
    TypeDesc(
      "TestClass",
      [ PropertyDesc(first, true, true, "String"),
        PropertyDesc(reference, true, true, "DateTime"),
        PropertyDesc(self, true, true, "TestClass") ],
      map[first := Null, reference := Date(0), self := Null])
  }

  /** The source object of both tests: `FirstProperty = "Hi"` and
      `ReferenceProperty = DateTime.Now`. */
  function FixtureSource(first: string, reference: string, self: string, now: int): map<string, Value> {
    map[first := Str("Hi"), reference := Date(now), self := Null]
  }

  /** The fixture under its three distinct names. */
  lemma FixtureWellFormed(first: string, reference: string, self: string, now: int)
    requires first != reference && first != self && reference != self
    ensures WellFormed(Fixture(first, reference, self))
    ensures Covers(Fixture(first, reference, self), FixtureSource(first, reference, self, now))
  {
  }

  /** Null destination, no skip string, for any three distinct names: the new
      target gets the source's first and second property. */
  lemma NullDestinationFixture(first: string, reference: string, self: string, now: int,
                               assignable: Assignability)
    requires first != reference && first != self && reference != self
    requires ("String", "String") in assignable && ("DateTime", "DateTime") in assignable
    ensures var t := Fixture(first, reference, self);
            var r := TransferredValues(t, FixtureSource(first, reference, self, now), t, t.defaults, None, assignable);
            first in r && reference in r && r[first] == Str("Hi") && r[reference] == Date(now)
  {
    var t := Fixture(first, reference, self);
    var source := FixtureSource(first, reference, self, now);
    FixtureWellFormed(first, reference, self, now);
    assert GetProperty(t.properties, first) == Some(t.properties[0]);
    assert GetProperty(t.properties, reference) == Some(t.properties[1]);
    TransferredWritten(t, source, t, t.defaults, None, assignable, 0);
    TransferredWritten(t, source, t, t.defaults, None, assignable, 1);
  }

  /** Both names skipped, for any three distinct names: the new target keeps
      its defaults for them, whatever the source holds. */
  lemma SkipFixture(first: string, reference: string, self: string, now: int, assignable: Assignability)
    requires first != reference && first != self && reference != self
    ensures var t := Fixture(first, reference, self);
            var r := TransferredValues(t, FixtureSource(first, reference, self, now), t, t.defaults,
                                       Some([first, reference]), assignable);
            first in r && reference in r && r[first] == Null && r[reference] == Date(0)
  {
    var t := Fixture(first, reference, self);
    var source := FixtureSource(first, reference, self, now);
    var names := [first, reference];
    FixtureWellFormed(first, reference, self, now);
    ListedNotTransferred(t, t, names, assignable, 0);
    ListedNotTransferred(t, t, names, assignable, 1);
    TransferredKept(t, source, t, t.defaults, Some(names), assignable, names[0]);
    TransferredKept(t, source, t, t.defaults, Some(names), assignable, names[1]);
  }

  /** `Transfer_NullDestination`: the new target's `FirstProperty` is the
      source's "Hi" (and its `ReferenceProperty` the source's date). */
  lemma NullDestinationScenario(now: int, assignable: Assignability)
    requires ("String", "String") in assignable && ("DateTime", "DateTime") in assignable
    ensures var t := Fixture("FirstProperty", "ReferenceProperty", "SelfReferencedProperty");
            var source := FixtureSource("FirstProperty", "ReferenceProperty", "SelfReferencedProperty", now);
            var r := TransferredValues(t, source, t, t.defaults, SkipList(None), assignable);
            "FirstProperty" in r && r["FirstProperty"] == Str("Hi")
            && "ReferenceProperty" in r && r["ReferenceProperty"] == Date(now)
  {
    var a, b, c := "FirstProperty", "ReferenceProperty", "SelfReferencedProperty";
    assert a[0] != b[0] && a[0] != c[0] && b[0] != c[0];
    NullDestinationFixture(a, b, c, now, assignable);
  }

  /** A name as written in a skip string: non-empty, without a comma, and
      without white space at either end. */
  predicate PlainName(a: string) {
    a != [] && ',' !in a && !IsWhiteSpace(a[0]) && !IsWhiteSpace(a[|a| - 1])
  }

  lemma SkipPlainName(a: string)
    requires PlainName(a)
    ensures SkipNames(a) == [a]
  {
    SkipNamesOfSegment(a);
    TrimUnchanged(a);
  }

  lemma SkipSpacedName(b: string)
    requires PlainName(b)
    ensures SkipNames([' '] + b) == [b]
  {
    SkipNamesOfSegment([' '] + b);
    TrimLeadingWhiteSpace(' ', b);
    TrimUnchanged(b);
  }

  /** "a, b" skips `a` and `b`: the blank after the comma is trimmed away. */
  lemma SkipTwoNames(a: string, b: string)
    requires PlainName(a) && PlainName(b)
    ensures SkipNames(a + ", " + b) == [a, b]
  {
    assert a + ", " + b == a + [','] + ([' '] + b);
    SkipNamesOfJoin(a, [' '] + b);
    SkipPlainName(a);
    SkipSpacedName(b);
  }

  /** The unit tests' skip string "FirstProperty, ReferenceProperty" (written
      here as its two names around ", ") parses to the two property names. */
  lemma ScenarioSkipList()
    ensures SkipList(Some("FirstProperty" + ", " + "ReferenceProperty")) == Some(["FirstProperty", "ReferenceProperty"])
  {
    var a, b := "FirstProperty", "ReferenceProperty";
    assert PlainName(a);
    assert PlainName(b);
    SkipTwoNames(a, b);
  }

  /** A name listed in the skip list is transferred from no source property. */
  lemma ListedNotTransferred(sourceType: TypeDesc, targetType: TypeDesc, names: seq<string>,
                             assignable: Assignability, k: nat)
    requires k < |names|
    ensures !IsTransferred(sourceType, targetType, Some(names), assignable, names[k])
  {
    assert EqualsIgnoreCase(names[k], names[k]);
  }

  /** `Transfer_USingSkip`: with the skip string
      "FirstProperty, ReferenceProperty" (which `ScenarioSkipList` parses to
      the two names), the new target's `FirstProperty` stays null and its
      `ReferenceProperty` keeps its default. */
  lemma SkipScenario(now: int, assignable: Assignability)
    ensures var t := Fixture("FirstProperty", "ReferenceProperty", "SelfReferencedProperty");
            var source := FixtureSource("FirstProperty", "ReferenceProperty", "SelfReferencedProperty", now);
            var r := TransferredValues(t, source, t, t.defaults,
                                       Some(["FirstProperty", "ReferenceProperty"]), assignable);
            "FirstProperty" in r && r["FirstProperty"] == Null
            && "ReferenceProperty" in r && r["ReferenceProperty"] == Date(0)
  {
    var a, b, c := "FirstProperty", "ReferenceProperty", "SelfReferencedProperty";
    assert a[0] != b[0] && a[0] != c[0] && b[0] != c[0];
    SkipFixture(a, b, c, now, assignable);
  }
}
