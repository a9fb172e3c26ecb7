/** One entity-class declaration of an entity definition file (FGD/DEF) and the rules by
    which a declaration takes over the attributes of one of its base classes. */
module EntityClassInfo {
  import opened Wrappers
  import El

  datatype ClassType = BaseClass | PointClass | BrushClass

  datatype Vec3 = Vec3(x: real, y: real, z: real)
  datatype Color = Color(r: real, g: real, b: real, a: real)
  datatype BBox = BBox(min: Vec3, max: Vec3)

  /** A model (or decal) definition is a chain of alternative expressions tried in order;
      appending another definition adds its alternatives as fallbacks after this one's. */
  datatype ModelDefinition = ModelDefinition(alternatives: seq<El.Expression>)
  datatype DecalDefinition = DecalDefinition(alternatives: seq<El.Expression>)

  /** One labelled bit of a flags property; `bit` is the bit index, so the option's value
      is 2 to the power `bit`. */
  datatype FlagsOption = FlagsOption(bit: nat, shortDescription: string, longDescription: string, isDefault: bool)

  /** A property definition. Every kind other than flags is a ValueProperty whose
      type-specific data is left out; only flags properties are merged across classes. */
  datatype PropertyDefinition =
    | ValueProperty(key: string, shortDescription: string, longDescription: string, readOnly: bool)
    | FlagsProperty(key: string, options: seq<FlagsOption>)

  datatype ClassInfo = ClassInfo(
    classType: ClassType,
    line: nat,
    column: nat,
    name: string,
    description: Option<string>,
    color: Option<Color>,
    size: Option<BBox>,
    modelDefinition: Option<ModelDefinition>,
    decalDefinition: Option<DecalDefinition>,
    propertyDefinitions: seq<PropertyDefinition>,
    superClasses: seq<string>)

  /** The key of the property whose flags are merged bit by bit. */
  const Spawnflags: string := "spawnflags"

  // ---------------------------------------------------------------------------
  // Flags options

  /** The first option of `options` that labels bit `bit`, if any. */
  function OptionAt(options: seq<FlagsOption>, bit: nat): (r: Option<FlagsOption>)
    ensures r.Some? ==> r.value.bit == bit && r.value in options
    ensures r.None? <==> !HasBit(options, bit)
  {
    if options == [] then None
    else if options[0].bit == bit then Some(options[0])
    else
      var r := OptionAt(options[1..], bit);
      assert forall i :: 1 <= i < |options| ==> options[i] == options[1..][i - 1];
      r
  }

  /** One more than the highest bit any option labels (0 for no options). */
  function BitBound(options: seq<FlagsOption>): (r: nat)
    ensures forall i :: 0 <= i < |options| ==> options[i].bit < r
  {
    if options == [] then 0
    else
      var rest := BitBound(options[1..]);
      assert forall i :: 1 <= i < |options| ==> options[i] == options[1..][i - 1];
      if options[0].bit + 1 > rest then options[0].bit + 1 else rest
  }

  /** The option the merge keeps for bit `bit`: the derived class's if it labels the bit,
      the base class's otherwise. */
  function PickOption(derived: seq<FlagsOption>, base: seq<FlagsOption>, bit: nat): Option<FlagsOption> {
    OptionAt(derived, bit).OrElse(OptionAt(base, bit))
  }

  /** Whether some option of `options` labels bit `b`. */
  predicate HasBit(options: seq<FlagsOption>, b: nat) {
    exists i :: 0 <= i < |options| && options[i].bit == b
  }

  /** The merged options for the bits in [bit, bound), in ascending bit order. */
  function MergeFlagsFrom(derived: seq<FlagsOption>, base: seq<FlagsOption>, bit: nat, bound: nat): (r: seq<FlagsOption>)
    decreases bound - bit
    ensures forall i :: 0 <= i < |r| ==> bit <= r[i].bit < bound
    ensures forall i, j :: 0 <= i < j < |r| ==> r[i].bit < r[j].bit
    ensures forall i :: 0 <= i < |r| ==> PickOption(derived, base, r[i].bit) == Some(r[i])
    ensures forall b: nat {:trigger HasBit(r, b)} :: bit <= b < bound && PickOption(derived, base, b).Some? ==> HasBit(r, b)
  {
    if bit >= bound then []
    else
      var here := PickOption(derived, base, bit);
      var rest := MergeFlagsFrom(derived, base, bit + 1, bound);
      if here.None? then
        assert forall b: nat :: b == bit ==> PickOption(derived, base, b).None?;
        rest
      else
        var r := [here.value] + rest;
        ConsOptions(here.value, rest);
        r
  }

  /** What prepending an option to a list does to its bits. */
  lemma ConsOptions(x: FlagsOption, rest: seq<FlagsOption>)
    ensures forall b :: HasBit([x] + rest, b) <==> x.bit == b || HasBit(rest, b)
    ensures forall i :: 1 <= i < |[x] + rest| ==> ([x] + rest)[i] == rest[i - 1]
  {
    var r := [x] + rest;
    forall b | HasBit(rest, b)
      ensures HasBit(r, b)
    {
      var i :| 0 <= i < |rest| && rest[i].bit == b;
      assert r[i + 1].bit == b;
    }
    assert r[0] == x;
  }

  /** Merges the options of a derived and an inherited spawnflags property bit by bit:
      every bit either side labels appears once, the derived side's option wins on a bit
      both label, and the options are ordered by ascending bit. */
  function MergeFlags(derived: seq<FlagsOption>, base: seq<FlagsOption>): (r: seq<FlagsOption>)
    ensures forall i, j :: 0 <= i < j < |r| ==> r[i].bit < r[j].bit
    ensures forall i :: 0 <= i < |r| ==>
              Some(r[i]) == OptionAt(derived, r[i].bit).OrElse(OptionAt(base, r[i].bit))
    ensures forall b: nat :: HasBit(r, b) <==> HasBit(derived, b) || HasBit(base, b)
  {
    var bound := if BitBound(derived) > BitBound(base) then BitBound(derived) else BitBound(base);
    var r := MergeFlagsFrom(derived, base, 0, bound);
    forall b: nat | HasBit(derived, b) || HasBit(base, b)
      ensures HasBit(r, b)
    {
      assert b < bound;
      assert PickOption(derived, base, b).Some?;
      assert HasBit(r, b);
    }
    forall b: nat | HasBit(r, b)
      ensures HasBit(derived, b) || HasBit(base, b)
    {
      var i :| 0 <= i < |r| && r[i].bit == b;
      assert PickOption(derived, base, b).Some?;
    }
    r
  }

  /** Looking a bit up in merged options finds the derived side's option for it if there
      is one, the base side's otherwise. */
  lemma MergeFlagsOptionAt(derived: seq<FlagsOption>, base: seq<FlagsOption>, b: nat)
    ensures OptionAt(MergeFlags(derived, base), b) == OptionAt(derived, b).OrElse(OptionAt(base, b))
  {
    var r := MergeFlags(derived, base);
    var o := OptionAt(r, b);
    if o.Some? {
      var i :| 0 <= i < |r| && r[i] == o.value;
      assert Some(r[i]) == OptionAt(derived, r[i].bit).OrElse(OptionAt(base, r[i].bit));
    } else {
      assert !HasBit(r, b);
    }
  }

  // ---------------------------------------------------------------------------
  // Property definitions

  /** The index of the first property definition with key `key`, if any. */
  function IndexOfKey(props: seq<PropertyDefinition>, key: string): (r: Option<nat>)
    ensures r.Some? ==> r.value < |props| && props[r.value].key == key
                        && forall j :: 0 <= j < r.value ==> props[j].key != key
    ensures r.None? <==> forall j :: 0 <= j < |props| ==> props[j].key != key
  {
    if props == [] then None
    else if props[0].key == key then Some(0)
    else
      match IndexOfKey(props[1..], key)
      case None => None
      case Some(i) => Some(i + 1)
  }

  /** Adds an inherited property definition to a class's list: it is appended when no
      definition of that key is present yet; a spawnflags flags property meeting a present
      spawnflags flags property is merged into it in place; otherwise the present
      definition shadows the inherited one. */
  function AddPropertyDefinition(props: seq<PropertyDefinition>, p: PropertyDefinition): seq<PropertyDefinition> {
    match IndexOfKey(props, p.key)
    case None => props + [p]
    case Some(i) =>
      if props[i].FlagsProperty? && p.FlagsProperty? && p.key == Spawnflags then
        props[i := FlagsProperty(Spawnflags, MergeFlags(props[i].options, p.options))]
      else
        props
  }

  /** Adds the inherited definitions `more` one after the other. */
  function AddPropertyDefinitions(props: seq<PropertyDefinition>, more: seq<PropertyDefinition>): seq<PropertyDefinition>
    decreases |more|
  {
    if more == [] then props
    else AddPropertyDefinitions(AddPropertyDefinition(props, more[0]), more[1..])
  }

  /** Adding a definition of a new key appends it. */
  lemma AddNewKey(props: seq<PropertyDefinition>, p: PropertyDefinition)
    requires forall j :: 0 <= j < |props| ==> props[j].key != p.key
    ensures AddPropertyDefinitions(props, [p]) == props + [p]
  {
    assert [p][1..] == [];
  }

  /** The first property definition with key `key`, as a class's property lookup sees
      it. */
  function Lookup(props: seq<PropertyDefinition>, key: string): (r: Option<PropertyDefinition>)
    ensures r.Some? ==> r.value.key == key && r.value in props
    ensures r.None? <==> forall j :: 0 <= j < |props| ==> props[j].key != key
  {
    match IndexOfKey(props, key)
    case None => None
    case Some(i) => Some(props[i])
  }

  /** Whether no two property definitions share a key. */
  predicate UniqueKeys(props: seq<PropertyDefinition>) {
    forall i, j :: 0 <= i < j < |props| ==> props[i].key != props[j].key
  }

  /** What a class ends up with for key `key` when it has `own` and a base class offers
      `inherited`: its own definition shadows the inherited one, except that two spawnflags
      flags properties are merged bit by bit; without an own definition it inherits. */
  function Inherit(key: string, own: Option<PropertyDefinition>, inherited: Option<PropertyDefinition>): Option<PropertyDefinition> {
    if own.None? then inherited
    else if key == Spawnflags && own.value.FlagsProperty? && inherited.Some? && inherited.value.FlagsProperty? then
      Some(FlagsProperty(Spawnflags, MergeFlags(own.value.options, inherited.value.options)))
    else own
  }

  /** Adding one inherited definition changes the lookup of its own key only, as Inherit
      says, and leaves every other key's lookup alone. */
  lemma AddPropertyDefinitionLookup(props: seq<PropertyDefinition>, p: PropertyDefinition, key: string)
    ensures Lookup(AddPropertyDefinition(props, p), key)
            == Inherit(key, Lookup(props, key), if p.key == key then Some(p) else None)
  {
    var r := AddPropertyDefinition(props, p);
    match IndexOfKey(props, p.key)
    case None =>
      assert r == props + [p];
      if p.key == key {
        assert r[|props|] == p;
      } else {
        assert Lookup(r, key) == Lookup(props, key) by {
          IndexOfKeyAppend(props, p, key);
        }
      }
    case Some(i) =>
      if r != props {
        assert r == props[i := FlagsProperty(Spawnflags, MergeFlags(props[i].options, p.options))];
        IndexOfKeyUpdate(props, i, r[i], key);
      }
  }

  lemma {:induction false} IndexOfKeyAppend(props: seq<PropertyDefinition>, p: PropertyDefinition, key: string)
    requires p.key != key
    ensures IndexOfKey(props + [p], key) == IndexOfKey(props, key)
  {
    if props != [] {
      assert (props + [p])[1..] == props[1..] + [p];
      IndexOfKeyAppend(props[1..], p, key);
    }
  }

  /** Replacing a definition by one of the same key keeps every key's first index. */
  lemma {:induction false} IndexOfKeyUpdate(props: seq<PropertyDefinition>, i: nat, q: PropertyDefinition, key: string)
    requires i < |props| && q.key == props[i].key
    ensures IndexOfKey(props[i := q], key) == IndexOfKey(props, key)
  {
    if i > 0 {
      assert props[i := q][1..] == props[1..][i - 1 := q];
      IndexOfKeyUpdate(props[1..], i - 1, q, key);
    }
  }

  /** The lookup in a non-empty list tries its head first. */
  lemma LookupCons(props: seq<PropertyDefinition>, key: string)
    requires props != []
    ensures Lookup(props, key) == if props[0].key == key then Some(props[0]) else Lookup(props[1..], key)
  {
    assert IndexOfKey(props, key) == if props[0].key == key then Some(0) else
      match IndexOfKey(props[1..], key) case None => None case Some(i) => Some(i + 1);
  }

  lemma UniqueTail(props: seq<PropertyDefinition>)
    requires props != [] && UniqueKeys(props)
    ensures UniqueKeys(props[1..])
  {
    forall i, j | 0 <= i < j < |props[1..]| ensures props[1..][i].key != props[1..][j].key {
      assert props[1..][i] == props[i + 1] && props[1..][j] == props[j + 1];
    }
  }

  /** With unique keys, the head's key occurs nowhere in the tail. */
  lemma UniqueHeadAbsent(props: seq<PropertyDefinition>)
    requires props != [] && UniqueKeys(props)
    ensures Lookup(props[1..], props[0].key).None?
  {
    forall j | 0 <= j < |props[1..]| ensures props[1..][j].key != props[0].key {
      assert props[1..][j] == props[j + 1];
    }
  }

  /** Adding a list of inherited definitions, whose spawnflags definition is unique when
      `key` is spawnflags, gives each key what Inherit gives it from the class's own
      definition and the first inherited one. */
  lemma {:induction false} AddPropertyDefinitionsLookup(props: seq<PropertyDefinition>, more: seq<PropertyDefinition>, key: string)
    requires key == Spawnflags ==> UniqueKeys(more)
    decreases |more|
    ensures Lookup(AddPropertyDefinitions(props, more), key) == Inherit(key, Lookup(props, key), Lookup(more, key))
  {
    if more != [] {
      var props' := AddPropertyDefinition(props, more[0]);
      AddPropertyDefinitionLookup(props, more[0], key);
      if key == Spawnflags {
        UniqueTail(more);
      }
      AddPropertyDefinitionsLookup(props', more[1..], key);
      LookupCons(more, key);
      if more[0].key == key && key == Spawnflags {
        UniqueHeadAbsent(more);
      }
    } else {
      assert Lookup(more, key).None?;
    }
  }

  /** Adding inherited definitions to a list without duplicate keys yields one without
      duplicate keys. */
  lemma {:induction false} AddPropertyDefinitionsUnique(props: seq<PropertyDefinition>, more: seq<PropertyDefinition>)
    decreases |more|
    ensures UniqueKeys(props) ==> UniqueKeys(AddPropertyDefinitions(props, more))
  {
    if more != [] && UniqueKeys(props) {
      var p := more[0];
      var props' := AddPropertyDefinition(props, p);
      if IndexOfKey(props, p.key).None? {
        assert props' == props + [p];
        forall i, j | 0 <= i < j < |props'|
          ensures props'[i].key != props'[j].key
        {
          assert props'[i] == props[i];
          if j < |props| {
            assert props'[j] == props[j];
          }
        }
      } else {
        assert forall j :: 0 <= j < |props| ==> props'[j].key == props[j].key;
      }
      AddPropertyDefinitionsUnique(props', more[1..]);
    }
  }

  /** The keys of a list of property definitions, in order. */
  function Keys(props: seq<PropertyDefinition>): seq<string> {
    seq(|props|, i requires 0 <= i < |props| => props[i].key)
  }

  /** The keys of `more` that are not in `present`, each at its first occurrence, in
      order. */
  function NewKeys(present: seq<string>, more: seq<string>): seq<string>
    decreases |more|
  {
    if more == [] then []
    else if more[0] in present then NewKeys(present, more[1..])
    else [more[0]] + NewKeys(present + [more[0]], more[1..])
  }

  /** The definitions of `more` whose key is neither in `present` nor defined earlier in
      `more`, in order. */
  function NewDefinitions(present: seq<string>, more: seq<PropertyDefinition>): seq<PropertyDefinition>
    decreases |more|
  {
    if more == [] then []
    else if more[0].key in present then NewDefinitions(present, more[1..])
    else [more[0]] + NewDefinitions(present + [more[0].key], more[1..])
  }

  /** `q` is what became of `p` in a class's list while inheriting: `p` itself, or, for a
      spawnflags flags property, a spawnflags flags property with inherited options merged
      in. */
  predicate KeptAs(p: PropertyDefinition, q: PropertyDefinition) {
    q == p || (p.key == Spawnflags && q.key == Spawnflags && p.FlagsProperty? && q.FlagsProperty?)
  }

  /** Adding inherited definitions keeps the class's own definitions in place, in their
      order (a spawnflags one possibly merged), and appends the inherited definitions of
      new keys in the order the base lists them. */
  lemma {:induction false} AddPropertyDefinitionsOrder(props: seq<PropertyDefinition>, more: seq<PropertyDefinition>)
    decreases |more|
    ensures var r := AddPropertyDefinitions(props, more);
            var s := props + NewDefinitions(Keys(props), more);
            |r| == |s| && forall i :: 0 <= i < |r| ==> KeptAs(s[i], r[i])
  {
    if more != [] {
      var m := more[0];
      var props' := AddPropertyDefinition(props, m);
      var r := AddPropertyDefinitions(props', more[1..]);
      AddPropertyDefinitionsOrder(props', more[1..]);
      var s' := props' + NewDefinitions(Keys(props'), more[1..]);
      if m.key in Keys(props) {
        var j :| 0 <= j < |props| && Keys(props)[j] == m.key;
        assert props[j].key == m.key;
        AddOldKey(props, m);
        assert Keys(props') == Keys(props);
        var s := props + NewDefinitions(Keys(props), more[1..]);
        assert s == props + NewDefinitions(Keys(props), more);
        assert |s'| == |s|;
        forall i | 0 <= i < |r| ensures KeptAs(s[i], r[i]) {
          if i < |props| {
            assert s'[i] == props'[i] && s[i] == props[i];
          } else {
            assert s'[i] == s[i];
          }
        }
      } else {
        assert IndexOfKey(props, m.key).None? by {
          forall j | 0 <= j < |props| ensures props[j].key != m.key {
            assert Keys(props)[j] == props[j].key;
          }
        }
        assert props' == props + [m];
        assert Keys(props') == Keys(props) + [m.key];
        assert NewDefinitions(Keys(props), more) == [m] + NewDefinitions(Keys(props) + [m.key], more[1..]);
        ConcatAssoc(props, [m], NewDefinitions(Keys(props'), more[1..]));
      }
    }
  }

  lemma ConcatAssoc<T>(a: seq<T>, b: seq<T>, c: seq<T>)
    ensures (a + b) + c == a + (b + c)
  {
  }

  /** Adding a definition of a key already present keeps every entry's key and keeps
      every entry as it was, a spawnflags one possibly merged. */
  lemma AddOldKey(props: seq<PropertyDefinition>, p: PropertyDefinition)
    requires exists j :: 0 <= j < |props| && props[j].key == p.key
    ensures var r := AddPropertyDefinition(props, p);
            |r| == |props| && forall i :: 0 <= i < |props| ==> KeptAs(props[i], r[i])
  {
  }

  /** The keys of the new definitions are the new keys. */
  lemma {:induction false} NewDefinitionsKeys(present: seq<string>, more: seq<PropertyDefinition>)
    decreases |more|
    ensures Keys(NewDefinitions(present, more)) == NewKeys(present, Keys(more))
  {
    if more != [] {
      assert Keys(more)[0] == more[0].key;
      assert Keys(more)[1..] == Keys(more[1..]);
      if more[0].key in present {
        NewDefinitionsKeys(present, more[1..]);
      } else {
        NewDefinitionsKeys(present + [more[0].key], more[1..]);
        var t := NewDefinitions(present + [more[0].key], more[1..]);
        assert Keys([more[0]] + t) == [more[0].key] + Keys(t);
      }
    }
  }

  /** Definitions kept as one another have the same keys. */
  lemma KeptKeys(s: seq<PropertyDefinition>, r: seq<PropertyDefinition>)
    requires |r| == |s| && forall i :: 0 <= i < |r| ==> KeptAs(s[i], r[i])
    ensures Keys(r) == Keys(s)
  {
  }

  /** Keys of a concatenation. */
  lemma KeysAppend(a: seq<PropertyDefinition>, b: seq<PropertyDefinition>)
    ensures Keys(a + b) == Keys(a) + Keys(b)
  {
  }

  /** Adding inherited definitions gives the class's own keys followed by the base's keys
      that are new, each once, in the base's order. */
  lemma AddPropertyDefinitionsKeys(props: seq<PropertyDefinition>, more: seq<PropertyDefinition>)
    ensures Keys(AddPropertyDefinitions(props, more)) == Keys(props) + NewKeys(Keys(props), Keys(more))
  {
    AddPropertyDefinitionsOrder(props, more);
    var nd := NewDefinitions(Keys(props), more);
    KeptKeys(props + nd, AddPropertyDefinitions(props, more));
    KeysAppend(props, nd);
    NewDefinitionsKeys(Keys(props), more);
  }

  /** The options of a class's spawnflags property (none when it has no spawnflags flags
      property). */
  function SpawnflagsOf(c: ClassInfo): seq<FlagsOption> {
    var d := Lookup(c.propertyDefinitions, Spawnflags);
    if d.Some? && d.value.FlagsProperty? then d.value.options else []
  }

  /** Whether a class's spawnflags property, if it has one, is a flags property. */
  predicate SpawnflagsAreFlags(c: ClassInfo) {
    var d := Lookup(c.propertyDefinitions, Spawnflags);
    d.None? || d.value.FlagsProperty?
  }

  // ---------------------------------------------------------------------------
  // Merging one base class into a class

  /** The alternatives of an optional model definition (none when it is absent). */
  function ModelAlternatives(m: Option<ModelDefinition>): seq<El.Expression> {
    if m.None? then [] else m.value.alternatives
  }

  function DecalAlternatives(m: Option<DecalDefinition>): seq<El.Expression> {
    if m.None? then [] else m.value.alternatives
  }

  /** Appending a base class's model definition keeps the derived alternatives first and
      adds the base alternatives after them; the result is absent only when both are. */
  function AppendModel(derived: Option<ModelDefinition>, base: Option<ModelDefinition>): (r: Option<ModelDefinition>)
    ensures r.None? <==> derived.None? && base.None?
    ensures ModelAlternatives(r) == ModelAlternatives(derived) + ModelAlternatives(base)
  {
    if derived.None? then base
    else if base.None? then derived
    else Some(ModelDefinition(derived.value.alternatives + base.value.alternatives))
  }

  function AppendDecal(derived: Option<DecalDefinition>, base: Option<DecalDefinition>): (r: Option<DecalDefinition>)
    ensures r.None? <==> derived.None? && base.None?
    ensures DecalAlternatives(r) == DecalAlternatives(derived) + DecalAlternatives(base)
  {
    if derived.None? then base
    else if base.None? then derived
    else Some(DecalDefinition(derived.value.alternatives + base.value.alternatives))
  }

  /** Takes over what `base` supplies into `derived`: description, colour and size only
      where `derived` lacks them, model and decal definitions as appended fallbacks, and
      property definitions by AddPropertyDefinition. The derived class keeps its own kind,
      location, name and base-class list. */
  function MergeClass(derived: ClassInfo, base: ClassInfo): (r: ClassInfo)
    ensures r.classType == derived.classType && r.name == derived.name
    ensures r.line == derived.line && r.column == derived.column
    ensures r.superClasses == derived.superClasses
    ensures UniqueKeys(derived.propertyDefinitions) ==> UniqueKeys(r.propertyDefinitions)
  {
    AddPropertyDefinitionsUnique(derived.propertyDefinitions, base.propertyDefinitions);
    derived.(
      description := derived.description.OrElse(base.description),
      color := derived.color.OrElse(base.color),
      size := derived.size.OrElse(base.size),
      modelDefinition := AppendModel(derived.modelDefinition, base.modelDefinition),
      decalDefinition := AppendDecal(derived.decalDefinition, base.decalDefinition),
      propertyDefinitions := AddPropertyDefinitions(derived.propertyDefinitions, base.propertyDefinitions))
  }

  /** Merging a base class combines the spawnflags bit by bit: for every bit the derived
      class's option wins and the base class's option fills in. */
  lemma MergeClassSpawnflags(derived: ClassInfo, base: ClassInfo, b: nat)
    requires SpawnflagsAreFlags(derived) && SpawnflagsAreFlags(base)
    requires UniqueKeys(base.propertyDefinitions)
    ensures SpawnflagsAreFlags(MergeClass(derived, base))
    ensures OptionAt(SpawnflagsOf(MergeClass(derived, base)), b)
            == OptionAt(SpawnflagsOf(derived), b).OrElse(OptionAt(SpawnflagsOf(base), b))
  {
    var own := Lookup(derived.propertyDefinitions, Spawnflags);
    var inherited := Lookup(base.propertyDefinitions, Spawnflags);
    AddPropertyDefinitionsLookup(derived.propertyDefinitions, base.propertyDefinitions, Spawnflags);
    if own.Some? && inherited.Some? {
      MergeFlagsOptionAt(own.value.options, inherited.value.options, b);
    }
  }
}
