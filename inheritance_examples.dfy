/** Hierarchies of the inheritance tests worked through the model: the diamond, a base
    name declared for both kinds, and the spawnflags of a point class and its base. */
module InheritanceExamples {
  import opened Wrappers
  import opened EntityClassInfo
  import opened EntityInheritance

  function Str(key: string): PropertyDefinition {
    ValueProperty(key, "", "", false)
  }

  function Decl(classType: ClassType, name: string, description: Option<string>, color: Option<Color>,
                size: Option<BBox>, props: seq<PropertyDefinition>, supers: seq<string>): ClassInfo {
    ClassInfo(classType, 0, 0, name, description, color, size, None, None, props, supers)
  }

  const Box2 := BBox(Vec3(-2.0, -2.0, -2.0), Vec3(2.0, 2.0, 2.0))
  const Box1 := BBox(Vec3(-1.0, -1.0, -1.0), Vec3(1.0, 1.0, 1.0))
  const Rgb := Color(1.0, 2.0, 3.0, 1.0)

  function Diamond(): seq<ClassInfo> {
    [ Decl(BaseClass, "base1", Some("base1"), None, Some(Box2), [Str("a1")], []),
      Decl(BaseClass, "base2_1", Some("base2_1"), Some(Rgb), None, [Str("a2_1")], ["base1"]),
      Decl(BaseClass, "base2_2", Some("base2_2"), None, Some(Box1), [Str("a2_2")], ["base1"]),
      Decl(PointClass, "point1", None, None, None, [Str("a3")], ["base2_1", "base2_2"]),
      Decl(PointClass, "point2", None, None, None, [Str("a3")], ["base2_2", "base2_1"]) ]
  }

  lemma DiamondLookups()
    ensures FindClassInfo(Diamond(), "base1", PointClass) == Some(0)
    ensures FindClassInfo(Diamond(), "base2_1", PointClass) == Some(1)
    ensures FindClassInfo(Diamond(), "base2_2", PointClass) == Some(2)
  {
    var d := Diamond();
    assert d[0].name == "base1" && d[1].name == "base2_1" && d[2].name == "base2_2";
    assert FindClassInfoFrom(d, "base2_2", PointClass, 2) == Some(2);
    assert FindClassInfoFrom(d, "base2_2", PointClass, 1) == Some(2);
    assert FindClassInfoFrom(d, "base2_1", PointClass, 1) == Some(1);
  }

  lemma DiamondSupers()
    ensures Supers(Diamond(), PointClass, 3) == [1, 2] && Missing(Diamond(), PointClass, 3) == 0
    ensures Supers(Diamond(), PointClass, 2) == [0] && Missing(Diamond(), PointClass, 2) == 0
    ensures Supers(Diamond(), PointClass, 1) == [0] && Missing(Diamond(), PointClass, 1) == 0
    ensures Supers(Diamond(), PointClass, 0) == [] && Missing(Diamond(), PointClass, 0) == 0
  {
    DiamondLookups();
    var d := Diamond();
    var names := d[3].superClasses;
    assert names[1..] == ["base2_2"] && names[1..][1..] == [];
    assert ["base2_2"][1..] == [] && [2] + [] == [2];
    assert ResolveSuperClasses(d, PointClass, ["base2_2"]) == ([2], 0);
    assert d[1].superClasses == ["base1"] && d[2].superClasses == ["base1"];
    assert ["base1"][1..] == [] && [0] + [] == [0];
    assert ResolveSuperClasses(d, PointClass, ["base1"]) == ([0], 0);
  }

  lemma DiamondWalkTail()
    ensures Walk(Diamond(), PointClass, [0], [3, 1, 0, 2]) == ([3, 1, 0, 2], 0)
  {
    assert 0 in [3, 1, 0, 2] && [0][1..] == [];
    assert Walk(Diamond(), PointClass, [], [3, 1, 0, 2]) == ([3, 1, 0, 2], 0);
  }

  lemma DiamondWalk2()
    ensures Walk(Diamond(), PointClass, [2], [3, 1, 0]) == ([3, 1, 0, 2], 0)
  {
    DiamondSupers();
    DiamondWalkTail();
    assert 2 !in [3, 1, 0] && [3, 1, 0] + [2] == [3, 1, 0, 2];
    assert Supers(Diamond(), PointClass, 2) + [2][1..] == [0];
  }

  lemma DiamondWalk02()
    ensures Walk(Diamond(), PointClass, [0, 2], [3, 1]) == ([3, 1, 0, 2], 0)
  {
    DiamondSupers();
    DiamondWalk2();
    assert 0 !in [3, 1] && [3, 1] + [0] == [3, 1, 0];
    assert Supers(Diamond(), PointClass, 0) + [0, 2][1..] == [2];
  }

  lemma DiamondWalk12()
    ensures Walk(Diamond(), PointClass, [1, 2], [3]) == ([3, 1, 0, 2], 0)
  {
    DiamondSupers();
    DiamondWalk02();
    assert 1 !in [3] && [3] + [1] == [3, 1];
    assert Supers(Diamond(), PointClass, 1) + [1, 2][1..] == [0, 2];
  }

  /** The first point class of the diamond visits its bases depth first, left to right,
      and the shared base once, without warnings. */
  lemma DiamondVisitOrder()
    ensures VisitOrder(Diamond(), 3) == ([3, 1, 0, 2], 0)
  {
    DiamondSupers();
    DiamondWalk12();
    assert [] + [3] == [3];
    assert Supers(Diamond(), PointClass, 3) + [3][1..] == [1, 2];
  }

  function Point1After(props: seq<PropertyDefinition>, size: Option<BBox>): ClassInfo {
    Decl(PointClass, "point1", Some("base2_1"), Some(Rgb), size, props, ["base2_1", "base2_2"])
  }

  lemma DiamondMerge1()
    ensures MergeClass(Diamond()[3], Diamond()[1]) == Point1After([Str("a3"), Str("a2_1")], None)
  {
    AddNewKey([Str("a3")], Str("a2_1"));
  }

  lemma DiamondMerge2()
    ensures MergeClass(Point1After([Str("a3"), Str("a2_1")], None), Diamond()[0])
            == Point1After([Str("a3"), Str("a2_1"), Str("a1")], Some(Box2))
  {
    AddNewKey([Str("a3"), Str("a2_1")], Str("a1"));
  }

  lemma DiamondMerge3()
    ensures MergeClass(Point1After([Str("a3"), Str("a2_1"), Str("a1")], Some(Box2)), Diamond()[2])
            == Point1After([Str("a3"), Str("a2_1"), Str("a1"), Str("a2_2")], Some(Box2))
  {
    var base := Diamond()[2];
    assert base == Decl(BaseClass, "base2_2", Some("base2_2"), None, Some(Box1), [Str("a2_2")], ["base1"]);
    AddNewKey([Str("a3"), Str("a2_1"), Str("a1")], Str("a2_2"));
  }

  lemma DiamondMergeAll()
    ensures MergeAll(Diamond()[3], [Diamond()[1], Diamond()[0], Diamond()[2]])
            == Point1After([Str("a3"), Str("a2_1"), Str("a1"), Str("a2_2")], Some(Box2))
  {
    var d := Diamond();
    var chain := [d[1], d[0], d[2]];
    DiamondMerge1();
    DiamondMerge2();
    DiamondMerge3();
    var m1 := Point1After([Str("a3"), Str("a2_1")], None);
    var m2 := Point1After([Str("a3"), Str("a2_1"), Str("a1")], Some(Box2));
    var m3 := Point1After([Str("a3"), Str("a2_1"), Str("a1"), Str("a2_2")], Some(Box2));
    assert chain[1..] == [d[0], d[2]] && chain[1..][1..] == [d[2]] && chain[1..][1..][1..] == [];
    assert MergeAll(m3, []) == m3;
    assert MergeAll(m2, [d[2]]) == m3;
    assert MergeAll(m1, [d[0], d[2]]) == m3;
  }

  /** The first point class of the diamond resolves to the attributes the inheritance
      tests expect: description and colour from its first base, size from the shared base
      reached through it, and the properties in visiting order. */
  lemma DiamondResolvesPoint1()
    ensures ResolveClass(Diamond(), 3)
            == (Decl(PointClass, "point1", Some("base2_1"), Some(Rgb), Some(Box2),
                     [Str("a3"), Str("a2_1"), Str("a1"), Str("a2_2")], ["base2_1", "base2_2"]), 0)
  {
    var d := Diamond();
    DiamondVisitOrder();
    assert [3, 1, 0, 2][1..] == [1, 0, 2];
    assert Chain(d, [1, 0, 2]) == [d[1], d[0], d[2]];
    DiamondMergeAll();
  }

  lemma DiamondSupersPoint2()
    ensures Supers(Diamond(), PointClass, 4) == [2, 1] && Missing(Diamond(), PointClass, 4) == 0
  {
    DiamondLookups();
    var d := Diamond();
    var names := d[4].superClasses;
    assert names[1..] == ["base2_1"] && names[1..][1..] == [];
    assert [1] + [] == [1];
    assert ResolveSuperClasses(d, PointClass, ["base2_1"]) == ([1], 0);
  }

  lemma DiamondWalkPoint2Tail()
    ensures Walk(Diamond(), PointClass, [1], [4, 2, 0]) == ([4, 2, 0, 1], 0)
  {
    DiamondSupers();
    assert 1 !in [4, 2, 0] && [4, 2, 0] + [1] == [4, 2, 0, 1];
    assert Supers(Diamond(), PointClass, 1) + [1][1..] == [0];
    assert 0 in [4, 2, 0, 1] && [0][1..] == [];
    assert Walk(Diamond(), PointClass, [], [4, 2, 0, 1]) == ([4, 2, 0, 1], 0);
  }

  lemma DiamondWalkPoint2Shared()
    ensures Walk(Diamond(), PointClass, [0, 1], [4, 2]) == ([4, 2, 0, 1], 0)
  {
    DiamondSupers();
    DiamondWalkPoint2Tail();
    assert 0 !in [4, 2] && [4, 2] + [0] == [4, 2, 0];
    assert Supers(Diamond(), PointClass, 0) + [0, 1][1..] == [1];
  }

  lemma DiamondWalkPoint2()
    ensures Walk(Diamond(), PointClass, [2, 1], [4]) == ([4, 2, 0, 1], 0)
  {
    DiamondSupers();
    DiamondWalkPoint2Shared();
    assert 2 !in [4] && [4] + [2] == [4, 2];
    assert Supers(Diamond(), PointClass, 2) + [2, 1][1..] == [0, 1];
  }

  /** The second point class names the same bases in the opposite order, and its walk
      follows that order: the shared base is reached through the first of them. */
  lemma DiamondVisitOrderPoint2()
    ensures VisitOrder(Diamond(), 4) == ([4, 2, 0, 1], 0)
  {
    DiamondSupersPoint2();
    DiamondWalkPoint2();
    assert [] + [4] == [4];
    assert Supers(Diamond(), PointClass, 4) + [4][1..] == [2, 1];
  }

  function Point2After(props: seq<PropertyDefinition>, color: Option<Color>): ClassInfo {
    Decl(PointClass, "point2", Some("base2_2"), color, Some(Box1), props, ["base2_2", "base2_1"])
  }

  lemma DiamondMergePoint2First()
    ensures MergeClass(Diamond()[4], Diamond()[2]) == Point2After([Str("a3"), Str("a2_2")], None)
  {
    AddNewKey([Str("a3")], Str("a2_2"));
  }

  lemma DiamondMergePoint2Shared()
    ensures MergeClass(Point2After([Str("a3"), Str("a2_2")], None), Diamond()[0])
            == Point2After([Str("a3"), Str("a2_2"), Str("a1")], None)
  {
    AddNewKey([Str("a3"), Str("a2_2")], Str("a1"));
  }

  lemma DiamondMergePoint2Second()
    ensures MergeClass(Point2After([Str("a3"), Str("a2_2"), Str("a1")], None), Diamond()[1])
            == Point2After([Str("a3"), Str("a2_2"), Str("a1"), Str("a2_1")], Some(Rgb))
  {
    var base := Diamond()[1];
    assert base == Decl(BaseClass, "base2_1", Some("base2_1"), Some(Rgb), None, [Str("a2_1")], ["base1"]);
    AddNewKey([Str("a3"), Str("a2_2"), Str("a1")], Str("a2_1"));
  }

  lemma DiamondMergePoint2()
    ensures MergeAll(Diamond()[4], [Diamond()[2], Diamond()[0], Diamond()[1]])
            == Point2After([Str("a3"), Str("a2_2"), Str("a1"), Str("a2_1")], Some(Rgb))
  {
    var d := Diamond();
    var chain := [d[2], d[0], d[1]];
    DiamondMergePoint2First();
    DiamondMergePoint2Shared();
    DiamondMergePoint2Second();
    var m1 := Point2After([Str("a3"), Str("a2_2")], None);
    var m2 := Point2After([Str("a3"), Str("a2_2"), Str("a1")], None);
    var m3 := Point2After([Str("a3"), Str("a2_2"), Str("a1"), Str("a2_1")], Some(Rgb));
    assert chain[1..] == [d[0], d[1]] && chain[1..][1..] == [d[1]] && chain[1..][1..][1..] == [];
    assert MergeAll(m3, []) == m3;
    assert MergeAll(m2, [d[1]]) == m3;
    assert MergeAll(m1, [d[0], d[1]]) == m3;
  }

  /** The second point class of the diamond takes description and size from its first
      base, base2_2, the colour from base2_1, which alone declares one, and its properties
      in its own visiting order: the order of the base names decides the result. */
  lemma DiamondResolvesPoint2()
    ensures ResolveClass(Diamond(), 4)
            == (Decl(PointClass, "point2", Some("base2_2"), Some(Rgb), Some(Box1),
                     [Str("a3"), Str("a2_2"), Str("a1"), Str("a2_1")], ["base2_2", "base2_1"]), 0)
  {
    var d := Diamond();
    DiamondVisitOrderPoint2();
    assert [4, 2, 0, 1][1..] == [2, 0, 1];
    assert Chain(d, [2, 0, 1]) == [d[2], d[0], d[1]];
    DiamondMergePoint2();
  }

  /** A point class and a brush class both named "base", each with a derived class of its
      own kind that names "base" as its base class. */
  function Overloaded(): seq<ClassInfo> {
    [ Decl(PointClass, "base", Some("point"), None, None, [], []),
      Decl(BrushClass, "base", Some("brush"), None, None, [], []),
      Decl(PointClass, "point", None, None, None, [], ["base"]),
      Decl(BrushClass, "brush", None, None, None, [], ["base"]) ]
  }

  /** A base name is looked up for the kind of the class being resolved: the point class
      finds the point "base", the brush class the brush "base". */
  lemma OverloadedSupers()
    ensures Supers(Overloaded(), PointClass, 2) == [0] && Missing(Overloaded(), PointClass, 2) == 0
    ensures Supers(Overloaded(), BrushClass, 3) == [1] && Missing(Overloaded(), BrushClass, 3) == 0
  {
    var o := Overloaded();
    assert FindClassInfoFrom(o, "base", BrushClass, 1) == Some(1);
    assert FindClassInfo(o, "base", PointClass) == Some(0);
    assert FindClassInfo(o, "base", BrushClass) == Some(1);
    assert o[2].superClasses == ["base"] && o[3].superClasses == ["base"];
    assert ["base"][1..] == [];
  }

  /** The property definitions of the inheritance test: the base defines a1 and a2, the
      point class a1 and a3. The two a1 definitions differ only by their description. */
  const PropA1_1 := ValueProperty("a1", "a1_1", "", false)
  const PropA1_2 := ValueProperty("a1", "a1_2", "", false)

  /** The point class keeps its own a1 and a3 in its order and inherits a2 after them. */
  lemma InheritedPropertyOrder()
    ensures AddPropertyDefinitions([PropA1_2, Str("a3")], [PropA1_1, Str("a2")]) == [PropA1_2, Str("a3"), Str("a2")]
  {
    var own := [PropA1_2, Str("a3")];
    assert IndexOfKey(own, "a1") == Some(0);
    assert AddPropertyDefinition(own, PropA1_1) == own;
    assert [PropA1_1, Str("a2")][1..] == [Str("a2")];
    AddNewKey(own, Str("a2"));
  }

  /** The spawnflags of the test: the base labels bits 1 and 2, the point class bits 2
      and 4. */
  const A1_1 := FlagsOption(1, "a1_1", "", true)
  const A1_2 := FlagsOption(2, "a1_2", "", false)
  const A2_2 := FlagsOption(2, "a2_2", "", true)
  const A2_4 := FlagsOption(4, "a2_4", "", false)

  /** Merged spawnflags hold every labelled bit once, in ascending order, the point class's
      option winning on the shared bit 2. */
  lemma SpawnflagsMerge()
    ensures MergeFlags([A2_2, A2_4], [A1_1, A1_2]) == [A1_1, A2_2, A2_4]
  {
    var d := [A2_2, A2_4];
    var b := [A1_1, A1_2];
    var r := MergeFlags(d, b);
    MergedBits(d, b, r);
    SortedBits(r);
    PickedOptions(d, b, r);
  }

  /** The bits the merged options label: those of either side. */
  lemma MergedBits(d: seq<FlagsOption>, b: seq<FlagsOption>, r: seq<FlagsOption>)
    requires d == [A2_2, A2_4] && b == [A1_1, A1_2]
    requires forall x: nat :: HasBit(r, x) <==> HasBit(d, x) || HasBit(b, x)
    ensures HasBit(r, 1) && HasBit(r, 2) && HasBit(r, 4)
    ensures forall x: nat :: HasBit(r, x) ==> x == 1 || x == 2 || x == 4
  {
    assert b[0].bit == 1 && d[0].bit == 2 && d[1].bit == 4;
    assert HasBit(b, 1) && HasBit(d, 2) && HasBit(d, 4);
    forall x: nat | HasBit(r, x) ensures x == 1 || x == 2 || x == 4 {
      if HasBit(d, x) {
        var k :| 0 <= k < |d| && d[k].bit == x;
      } else {
        var k :| 0 <= k < |b| && b[k].bit == x;
      }
    }
  }

  /** The options picked for bits 1, 2 and 4. */
  lemma PickedOptions(d: seq<FlagsOption>, b: seq<FlagsOption>, r: seq<FlagsOption>)
    requires d == [A2_2, A2_4] && b == [A1_1, A1_2]
    requires |r| == 3 && r[0].bit == 1 && r[1].bit == 2 && r[2].bit == 4
    requires forall i :: 0 <= i < |r| ==> Some(r[i]) == OptionAt(d, r[i].bit).OrElse(OptionAt(b, r[i].bit))
    ensures r == [A1_1, A2_2, A2_4]
  {
    assert OptionAt(d, 1) == None && OptionAt(b, 1) == Some(A1_1);
    assert OptionAt(d, 2) == Some(A2_2) && OptionAt(d, 4) == Some(A2_4);
    assert Some(r[0]) == Some(A1_1) && Some(r[1]) == Some(A2_2) && Some(r[2]) == Some(A2_4);
  }

  /** Options in strictly ascending bit order that label exactly the bits 1, 2 and 4
      label them in that order, one each. */
  lemma SortedBits(r: seq<FlagsOption>)
    requires forall i, j :: 0 <= i < j < |r| ==> r[i].bit < r[j].bit
    requires HasBit(r, 1) && HasBit(r, 2) && HasBit(r, 4)
    requires forall x: nat :: HasBit(r, x) ==> x == 1 || x == 2 || x == 4
    ensures |r| == 3 && r[0].bit == 1 && r[1].bit == 2 && r[2].bit == 4
  {
    var i1 :| 0 <= i1 < |r| && r[i1].bit == 1;
    var i2 :| 0 <= i2 < |r| && r[i2].bit == 2;
    var i4 :| 0 <= i4 < |r| && r[i4].bit == 4;
    assert HasBit(r, r[0].bit);
    assert i1 == 0;
    assert HasBit(r, r[1].bit);
    assert i2 == 1;
    assert HasBit(r, r[2].bit);
    assert i4 == 2;
    if |r| > 3 {
      assert HasBit(r, r[3].bit);
    }
  }
}
