/** Resolution of entity-class inheritance: the declarations read from an entity
    definition file are filtered for redundant duplicates, and every point and brush class
    that survives takes over the attributes of its base classes, found depth first and
    left to right. Base classes themselves are not part of the result. */
module EntityInheritance {
  import opened Wrappers
  import opened EntityClassInfo
  import El

  // ---------------------------------------------------------------------------
  // Filtering redundant declarations

  /** Whether the later declaration `later` is redundant next to the kept declaration
      `kept`: both have the same name and either the same kind or one of them is a base
      class. A point class and a brush class of the same name coexist. */
  predicate Conflicts(kept: ClassInfo, later: ClassInfo) {
    kept.name == later.name
    && (kept.classType == later.classType || kept.classType == BaseClass || later.classType == BaseClass)
  }

  /** Whether some declaration of `kept` before index `k` conflicts with declaration `k`. */
  predicate ConflictsWithKept(classes: seq<ClassInfo>, kept: seq<nat>, k: nat)
    requires Below(kept, |classes|) && k < |classes|
  {
    exists i :: 0 <= i < |kept| && kept[i] < k && Conflicts(classes[kept[i]], classes[k])
  }

  /** The indices, among the first `n` declarations, of those that survive filtering: a
      declaration survives unless an earlier surviving declaration conflicts with it. */
  function KeptIndices(classes: seq<ClassInfo>, n: nat): (r: seq<nat>)
    requires n <= |classes|
    ensures |r| <= n && Below(r, n)
    ensures forall i, j :: 0 <= i < j < |r| ==> r[i] < r[j]
  {
    if n == 0 then []
    else
      var kept := KeptIndices(classes, n - 1);
      if ConflictsWithKept(classes, kept, n - 1) then kept else kept + [n - 1]
  }

  /** Exactly the declarations that no earlier surviving declaration conflicts with
      survive. */
  lemma {:induction false} KeptIndicesCharacterized(classes: seq<ClassInfo>, n: nat)
    requires n <= |classes|
    ensures forall k :: 0 <= k < n ==>
              (k in KeptIndices(classes, n) <==> !ConflictsWithKept(classes, KeptIndices(classes, n), k))
  {
    if n > 0 {
      var kept := KeptIndices(classes, n - 1);
      KeptIndicesCharacterized(classes, n - 1);
      var last := n - 1;
      assert last !in kept;
      if !ConflictsWithKept(classes, kept, last) {
        assert KeptIndices(classes, n) == kept + [last];
        forall k | 0 <= k <= last
          ensures k in kept + [last] <==> k in kept || k == last
          ensures ConflictsWithKept(classes, kept + [last], k) <==> ConflictsWithKept(classes, kept, k)
        {
          InAppend(kept, last, k);
          ConflictsWithKeptAppend(classes, kept, last, k);
        }
      }
    }
  }

  /** Adding a later index to the kept ones does not change which earlier declarations
      conflict with a kept one. */
  lemma ConflictsWithKeptAppend(classes: seq<ClassInfo>, kept: seq<nat>, last: nat, k: nat)
    requires Below(kept, last) && last < |classes| && k <= last
    ensures ConflictsWithKept(classes, kept + [last], k) <==> ConflictsWithKept(classes, kept, k)
  {
    var r := kept + [last];
    if ConflictsWithKept(classes, r, k) {
      var i :| 0 <= i < |r| && r[i] < k && Conflicts(classes[r[i]], classes[k]);
      assert kept[i] == r[i];
    }
    if ConflictsWithKept(classes, kept, k) {
      var i :| 0 <= i < |kept| && kept[i] < k && Conflicts(classes[kept[i]], classes[k]);
      assert r[i] == kept[i];
    }
  }

  lemma InAppend<T>(s: seq<T>, x: T, y: T)
    ensures y in s + [x] <==> y in s || y == x
  {
  }

  /** No two surviving declarations conflict. */
  lemma {:induction false} KeptIndicesNoConflicts(classes: seq<ClassInfo>, n: nat)
    requires n <= |classes|
    ensures forall i, j :: 0 <= i < j < |KeptIndices(classes, n)| ==>
              !Conflicts(classes[KeptIndices(classes, n)[i]], classes[KeptIndices(classes, n)[j]])
  {
    if n > 0 {
      var kept := KeptIndices(classes, n - 1);
      KeptIndicesNoConflicts(classes, n - 1);
      var last := n - 1;
      var r := KeptIndices(classes, n);
      if !ConflictsWithKept(classes, kept, last) {
        assert r == kept + [last];
        forall i, j | 0 <= i < j < |r|
          ensures !Conflicts(classes[r[i]], classes[r[j]])
        {
          assert r[i] == kept[i];
          if j < |kept| {
            assert r[j] == kept[j];
          }
        }
      }
    }
  }

  /** The surviving declarations in their original order, and the number of warnings
      reported: one per dropped declaration. */
  function FilterRedundantClasses(classes: seq<ClassInfo>): (r: (seq<ClassInfo>, nat))
    ensures |r.0| + r.1 == |classes|
    ensures |r.0| == |KeptIndices(classes, |classes|)|
            && forall i :: 0 <= i < |r.0| ==> r.0[i] == classes[KeptIndices(classes, |classes|)[i]]
    ensures forall i :: 0 <= i < |r.0| ==> r.0[i] in classes
    ensures forall i, j :: 0 <= i < j < |r.0| ==> !Conflicts(r.0[i], r.0[j])
  {
    KeptIndicesNoConflicts(classes, |classes|);
    var kept := KeptIndices(classes, |classes|);
    var survivors := seq(|kept|, i requires 0 <= i < |kept| => classes[kept[i]]);
    assert forall i :: 0 <= i < |kept| ==> survivors[i] == classes[kept[i]];
    (survivors, |classes| - |kept|)
  }

  /** A declaration is dropped only when a surviving declaration conflicts with it. */
  lemma FilterDropsOnlyRedundant(classes: seq<ClassInfo>)
    ensures forall k :: 0 <= k < |classes| && classes[k] !in FilterRedundantClasses(classes).0 ==>
              exists i :: 0 <= i < |FilterRedundantClasses(classes).0|
                && Conflicts(FilterRedundantClasses(classes).0[i], classes[k])
  {
    var survivors := FilterRedundantClasses(classes).0;
    var kept := KeptIndices(classes, |classes|);
    KeptIndicesCharacterized(classes, |classes|);
    forall k | 0 <= k < |classes| && classes[k] !in survivors
      ensures exists i :: 0 <= i < |survivors| && Conflicts(survivors[i], classes[k])
    {
      assert k !in kept by {
        forall i | 0 <= i < |kept| ensures kept[i] != k {
          assert survivors[i] == classes[kept[i]];
        }
      }
      var i :| 0 <= i < |kept| && kept[i] < k && Conflicts(classes[kept[i]], classes[k]);
      assert survivors[i] == classes[kept[i]];
    }
  }

  /** After filtering, a base-class name resolves to at most one declaration for a point
      or brush class. */
  lemma FilteredLookupUnique(classes: seq<ClassInfo>, name: string, kind: ClassType, i: nat, j: nat)
    requires kind != BaseClass
    requires i < j < |FilterRedundantClasses(classes).0|
    ensures !(Matches(FilterRedundantClasses(classes).0[i], name, kind)
              && Matches(FilterRedundantClasses(classes).0[j], name, kind))
  {
    var survivors := FilterRedundantClasses(classes).0;
    assert !Conflicts(survivors[i], survivors[j]);
  }

  // ---------------------------------------------------------------------------
  // Looking up base classes

  /** Whether declaration `c` can serve as the base class `name` of a class of kind `kind`:
      it has that name and is a base class or of the same kind. */
  predicate Matches(c: ClassInfo, name: string, kind: ClassType) {
    c.name == name && (c.classType == BaseClass || c.classType == kind)
  }

  /** The index of the first declaration from `from` on that matches. */
  function FindClassInfoFrom(classes: seq<ClassInfo>, name: string, kind: ClassType, from: nat): (r: Option<nat>)
    requires from <= |classes|
    decreases |classes| - from
    ensures r.Some? ==> from <= r.value < |classes|
  {
    if from == |classes| then None
    else if Matches(classes[from], name, kind) then Some(from)
    else FindClassInfoFrom(classes, name, kind, from + 1)
  }

  /** The index of the first declaration that matches base-class name `name` for a class
      of kind `kind`, if any. */
  function FindClassInfo(classes: seq<ClassInfo>, name: string, kind: ClassType): (r: Option<nat>)
    ensures r.Some? ==> r.value < |classes|
  {
    FindClassInfoFrom(classes, name, kind, 0)
  }

  /** The lookup from `from` on finds the first matching declaration, and finds nothing
      exactly when none matches. */
  lemma {:induction false} FindClassInfoFromIsFirst(classes: seq<ClassInfo>, name: string, kind: ClassType, from: nat)
    requires from <= |classes|
    decreases |classes| - from
    ensures var r := FindClassInfoFrom(classes, name, kind, from);
            r.Some? ==> Matches(classes[r.value], name, kind)
                        && forall j :: from <= j < r.value ==> !Matches(classes[j], name, kind)
    ensures FindClassInfoFrom(classes, name, kind, from).None? <==>
              forall j :: from <= j < |classes| ==> !Matches(classes[j], name, kind)
  {
    if from < |classes| && !Matches(classes[from], name, kind) {
      FindClassInfoFromIsFirst(classes, name, kind, from + 1);
    }
  }

  /** Looking up a base class finds the first matching declaration, and finds nothing
      exactly when none matches. */
  lemma FindClassInfoIsFirst(classes: seq<ClassInfo>, name: string, kind: ClassType)
    ensures var r := FindClassInfo(classes, name, kind);
            r.Some? ==> Matches(classes[r.value], name, kind)
                        && forall j :: 0 <= j < r.value ==> !Matches(classes[j], name, kind)
    ensures FindClassInfo(classes, name, kind).None? <==>
              forall j :: 0 <= j < |classes| ==> !Matches(classes[j], name, kind)
  {
    FindClassInfoFromIsFirst(classes, name, kind, 0);
  }

  /** The indices of the base classes `names` resolve to, in the order of `names`, and the
      number of names that resolve to nothing (each of which is reported as a warning). */
  function ResolveSuperClasses(classes: seq<ClassInfo>, kind: ClassType, names: seq<string>): (r: (seq<nat>, nat))
    ensures |r.0| + r.1 == |names|
    ensures Below(r.0, |classes|)
  {
    if names == [] then ([], 0)
    else
      var rest := ResolveSuperClasses(classes, kind, names[1..]);
      match FindClassInfo(classes, names[0], kind)
      case Some(i) => ([i] + rest.0, rest.1)
      case None => (rest.0, rest.1 + 1)
  }

  /** The resolved base classes are exactly the successful lookups of the names. */
  lemma {:induction false} ResolveSuperClassesFound(classes: seq<ClassInfo>, kind: ClassType, names: seq<string>)
    ensures forall i :: 0 <= i < |ResolveSuperClasses(classes, kind, names).0| ==>
              exists k :: 0 <= k < |names|
                && FindClassInfo(classes, names[k], kind) == Some(ResolveSuperClasses(classes, kind, names).0[i])
    ensures forall k :: 0 <= k < |names| && FindClassInfo(classes, names[k], kind).Some? ==>
              FindClassInfo(classes, names[k], kind).value in ResolveSuperClasses(classes, kind, names).0
  {
    if names != [] {
      var rest := ResolveSuperClasses(classes, kind, names[1..]).0;
      var found := ResolveSuperClasses(classes, kind, names).0;
      ResolveSuperClassesFound(classes, kind, names[1..]);
      assert forall k :: 1 <= k < |names| ==> names[k] == names[1..][k - 1];
      var offset := if FindClassInfo(classes, names[0], kind).Some? then 1 else 0;
      assert found[offset..] == rest;
      forall i | offset <= i < |found|
        ensures exists k :: 0 <= k < |names| && FindClassInfo(classes, names[k], kind) == Some(found[i])
      {
        assert found[i] == rest[i - offset];
        var k :| 0 <= k < |names[1..]| && FindClassInfo(classes, names[1..][k], kind) == Some(rest[i - offset]);
        assert names[k + 1] == names[1..][k];
      }
      forall i | 0 <= i < offset
        ensures exists k :: 0 <= k < |names| && FindClassInfo(classes, names[k], kind) == Some(found[i])
      {
        var x := FindClassInfo(classes, names[0], kind).value;
        assert found == [x] + rest;
        assert FindClassInfo(classes, names[0], kind) == Some(found[0]);
      }
      forall k | 1 <= k < |names| && FindClassInfo(classes, names[k], kind).Some?
        ensures FindClassInfo(classes, names[k], kind).value in found
      {
        assert FindClassInfo(classes, names[1..][k - 1], kind).value in rest;
      }
    } else {
      assert ResolveSuperClasses(classes, kind, names).0 == [];
    }
  }

  /** The base classes of declaration `v` as resolved for a class of kind `kind`. */
  function Supers(classes: seq<ClassInfo>, kind: ClassType, v: nat): (r: seq<nat>)
    requires v < |classes|
    ensures Below(r, |classes|)
  {
    ResolveSuperClasses(classes, kind, classes[v].superClasses).0
  }

  /** A resolved base class is a base class or of the kind it was looked up for. */
  lemma SupersMatch(classes: seq<ClassInfo>, kind: ClassType, v: nat, m: nat)
    requires v < |classes| && m < |Supers(classes, kind, v)|
    ensures classes[Supers(classes, kind, v)[m]].classType == BaseClass
            || classes[Supers(classes, kind, v)[m]].classType == kind
  {
    var names := classes[v].superClasses;
    ResolveSuperClassesFound(classes, kind, names);
    var k :| 0 <= k < |names| && FindClassInfo(classes, names[k], kind) == Some(Supers(classes, kind, v)[m]);
    FindClassInfoIsFirst(classes, names[k], kind);
  }

  /** The number of unresolvable base-class names of declaration `v`. */
  function Missing(classes: seq<ClassInfo>, kind: ClassType, v: nat): nat
    requires v < |classes|
  {
    ResolveSuperClasses(classes, kind, classes[v].superClasses).1
  }

  // ---------------------------------------------------------------------------
  // The depth-first walk over base classes

  predicate Distinct(s: seq<nat>) {
    forall i, j :: 0 <= i < j < |s| ==> s[i] != s[j]
  }

  predicate Below(s: seq<nat>, n: nat) {
    forall i :: 0 <= i < |s| ==> s[i] < n
  }

  function ToSet(s: seq<nat>): set<nat> {
    set i | 0 <= i < |s| :: s[i]
  }

  lemma {:induction false} DistinctCard(s: seq<nat>)
    requires Distinct(s)
    ensures |ToSet(s)| == |s|
  {
    if s != [] {
      DistinctCard(s[1..]);
      assert ToSet(s) == {s[0]} + ToSet(s[1..]);
      assert s[0] !in ToSet(s[1..]);
    }
  }

  lemma {:induction false} SubsetOfRangeCard(t: set<nat>, n: nat)
    requires forall x :: x in t ==> x < n
    ensures |t| <= n
  {
    if n > 0 {
      SubsetOfRangeCard(t - {n - 1}, n - 1);
    } else {
      assert t == {};
    }
  }

  /** A sequence of distinct indices below `n` has at most `n` elements. */
  lemma DistinctBound(s: seq<nat>, n: nat)
    requires Distinct(s) && Below(s, n)
    ensures |s| <= n
  {
    DistinctCard(s);
    SubsetOfRangeCard(ToSet(s), n);
  }

  /** Sums the unresolvable base-class names over the declarations `order`. */
  function MissingCount(classes: seq<ClassInfo>, kind: ClassType, order: seq<nat>): nat
    requires Below(order, |classes|)
  {
    if order == [] then 0 else Missing(classes, kind, order[0]) + MissingCount(classes, kind, order[1..])
  }

  /** The pre-order depth-first walk over base classes, with `stack` the classes still to
      visit (the next one first) and `visited` those visited so far, in visiting order. A
      class already visited is skipped, so every class is merged at most once; the base
      classes of a newly visited class are pushed in their listed order. Base names are
      looked up for the kind `kind` of the class being resolved at every depth. The result
      is the complete visiting order and the number of unresolvable base names met. */
  function Walk(classes: seq<ClassInfo>, kind: ClassType, stack: seq<nat>, visited: seq<nat>): (r: (seq<nat>, nat))
    requires Below(stack, |classes|) && Below(visited, |classes|) && Distinct(visited)
    decreases |classes| - |visited|, |stack|
    ensures |visited| <= |r.0| && r.0[..|visited|] == visited
    ensures Below(r.0, |classes|) && Distinct(r.0)
  {
    if stack == [] then
      assert visited[|visited|..] == [];
      (visited, 0)
    else if stack[0] in visited then
      Walk(classes, kind, stack[1..], visited)
    else
      var next := stack[0];
      var visited' := visited + [next];
      DistinctBound(visited', |classes|);
      var rest := Walk(classes, kind, Supers(classes, kind, next) + stack[1..], visited');
      (rest.0, rest.1 + Missing(classes, kind, next))
  }

  lemma PrefixMembers(r: seq<nat>, visited: seq<nat>)
    requires |visited| <= |r| && r[..|visited|] == visited
    ensures forall x :: x in visited ==> x in r
  {
    forall x | x in visited
      ensures x in r
    {
      var i :| 0 <= i < |visited| && visited[i] == x;
      assert r[i] == x;
    }
  }

  lemma InTail(s: seq<nat>, x: nat)
    requires x in s && x != s[0]
    ensures x in s[1..]
  {
    var i :| 0 <= i < |s| && s[i] == x;
    assert s[1..][i - 1] == x;
  }

  lemma BelowAppend(a: seq<nat>, b: seq<nat>, n: nat)
    requires Below(a, n) && Below(b, n)
    ensures Below(a + b, n)
  {
  }

  lemma BelowSlice(s: seq<nat>, from: nat, n: nat)
    requires Below(s, n) && from <= |s|
    ensures Below(s[from..], n)
  {
    assert forall i :: 0 <= i < |s[from..]| ==> s[from..][i] == s[from + i];
  }

  lemma PrefixSplit<T>(r: seq<T>, visited: seq<T>, next: T)
    requires |visited| + 1 <= |r| && r[..|visited| + 1] == visited + [next]
    ensures r[|visited|..] == [next] + r[|visited| + 1..]
  {
    assert r[|visited|] == r[..|visited| + 1][|visited|];
  }

  lemma MissingCountCons(classes: seq<ClassInfo>, kind: ClassType, x: nat, tail: seq<nat>)
    requires x < |classes| && Below(tail, |classes|)
    ensures MissingCount(classes, kind, [x] + tail) == Missing(classes, kind, x) + MissingCount(classes, kind, tail)
  {
    assert ([x] + tail)[1..] == tail;
  }

  /** The warnings of the walk are exactly the unresolvable base names of the classes it
      visits. */
  lemma {:induction false} WalkWarnings(classes: seq<ClassInfo>, kind: ClassType, stack: seq<nat>, visited: seq<nat>)
    requires Below(stack, |classes|) && Below(visited, |classes|) && Distinct(visited)
    decreases |classes| - |visited|, |stack|
    ensures Walk(classes, kind, stack, visited).1
            == MissingCount(classes, kind, Walk(classes, kind, stack, visited).0[|visited|..])
  {
    var r := Walk(classes, kind, stack, visited);
    if stack == [] {
      assert r.0[|visited|..] == [];
    } else if stack[0] in visited {
      WalkWarnings(classes, kind, stack[1..], visited);
    } else {
      var next := stack[0];
      var visited' := visited + [next];
      DistinctBound(visited', |classes|);
      var supers := Supers(classes, kind, next);
      var stack' := supers + stack[1..];
      assert Below(stack', |classes|);
      WalkWarnings(classes, kind, stack', visited');
      var rest := Walk(classes, kind, stack', visited');
      assert r.0 == rest.0 && r.1 == rest.1 + Missing(classes, kind, next);
      WarningsStep(classes, kind, visited, next, rest.0, r.1, rest.1);
    }
  }

  /** One visited class adds its own unresolvable names to the count of the rest. */
  lemma WarningsStep(classes: seq<ClassInfo>, kind: ClassType, visited: seq<nat>, next: nat,
                     order: seq<nat>, count: nat, restCount: nat)
    requires next < |classes| && Below(order, |classes|)
    requires |visited| + 1 <= |order| && order[..|visited| + 1] == visited + [next]
    requires restCount == MissingCount(classes, kind, order[|visited| + 1..])
    requires count == restCount + Missing(classes, kind, next)
    ensures count == MissingCount(classes, kind, order[|visited|..])
  {
    BelowSlice(order, |visited| + 1, |classes|);
    PrefixSplit(order, visited, next);
    MissingCountCons(classes, kind, next, order[|visited| + 1..]);
  }

  /** Every class on the stack is visited. */
  lemma {:induction false} WalkVisitsStack(classes: seq<ClassInfo>, kind: ClassType, stack: seq<nat>, visited: seq<nat>)
    requires Below(stack, |classes|) && Below(visited, |classes|) && Distinct(visited)
    decreases |classes| - |visited|, |stack|
    ensures forall s :: s in stack ==> s in Walk(classes, kind, stack, visited).0
  {
    var r := Walk(classes, kind, stack, visited);
    if stack == [] {
    } else if stack[0] in visited {
      assert r == Walk(classes, kind, stack[1..], visited);
      WalkVisitsStack(classes, kind, stack[1..], visited);
      PrefixMembers(r.0, visited);
      forall s | s in stack
        ensures s in r.0
      {
        if s != stack[0] {
          assert s in stack[1..];
        }
      }
    } else {
      var next := stack[0];
      var visited' := visited + [next];
      DistinctBound(visited', |classes|);
      var stack' := Supers(classes, kind, next) + stack[1..];
      assert Below(stack', |classes|);
      assert r.0 == Walk(classes, kind, stack', visited').0;
      WalkVisitsStack(classes, kind, stack', visited');
      PrefixMembers(r.0, visited');
      forall s | s in stack
        ensures s in r.0
      {
        if s != next {
          assert s in stack[1..];
          assert s in stack';
        }
      }
    }
  }

  /** Whether every resolved base class of a class of `visited` is visited or waits on
      `stack`. */
  predicate ClosedUpTo(classes: seq<ClassInfo>, kind: ClassType, visited: seq<nat>, stack: seq<nat>)
    requires Below(visited, |classes|)
  {
    forall v, s :: v in visited && s in Supers(classes, kind, v) ==> s in visited || s in stack
  }

  lemma ClosedUpToSkip(classes: seq<ClassInfo>, kind: ClassType, visited: seq<nat>, stack: seq<nat>)
    requires Below(visited, |classes|) && stack != [] && stack[0] in visited
    requires ClosedUpTo(classes, kind, visited, stack)
    ensures ClosedUpTo(classes, kind, visited, stack[1..])
  {
    forall v, s | v in visited && s in Supers(classes, kind, v)
      ensures s in visited || s in stack[1..]
    {
      if s !in visited {
        InTail(stack, s);
      }
    }
  }

  lemma ClosedUpToVisit(classes: seq<ClassInfo>, kind: ClassType, visited: seq<nat>, stack: seq<nat>)
    requires Below(visited, |classes|) && stack != [] && stack[0] < |classes|
    requires ClosedUpTo(classes, kind, visited, stack)
    ensures ClosedUpTo(classes, kind, visited + [stack[0]], Supers(classes, kind, stack[0]) + stack[1..])
  {
    var next := stack[0];
    var visited' := visited + [next];
    var stack' := Supers(classes, kind, next) + stack[1..];
    forall v, s | v in visited' && s in Supers(classes, kind, v)
      ensures s in visited' || s in stack'
    {
      InAppend(visited, next, v);
      InAppend(visited, next, s);
      if v != next && s != next && s !in visited {
        InTail(stack, s);
      }
    }
  }

  /** The visited classes are closed under resolved base classes, provided they were so up
      to the stack at the start. */
  lemma {:induction false} WalkCloses(classes: seq<ClassInfo>, kind: ClassType, stack: seq<nat>, visited: seq<nat>)
    requires Below(stack, |classes|) && Below(visited, |classes|) && Distinct(visited)
    requires ClosedUpTo(classes, kind, visited, stack)
    decreases |classes| - |visited|, |stack|
    ensures ClosedUpTo(classes, kind, Walk(classes, kind, stack, visited).0, [])
  {
    if stack == [] {
    } else if stack[0] in visited {
      ClosedUpToSkip(classes, kind, visited, stack);
      WalkCloses(classes, kind, stack[1..], visited);
    } else {
      var next := stack[0];
      var visited' := visited + [next];
      DistinctBound(visited', |classes|);
      var stack' := Supers(classes, kind, next) + stack[1..];
      assert Below(stack', |classes|);
      ClosedUpToVisit(classes, kind, visited, stack);
      WalkCloses(classes, kind, stack', visited');
    }
  }

  /** Every class the walk visits is one of `roots` or a resolved base class of a class
      visited before it, provided this held of the classes visited and stacked at the
      start. */
  predicate Reached(classes: seq<ClassInfo>, kind: ClassType, order: seq<nat>, roots: seq<nat>)
    requires Below(order, |classes|)
  {
    forall k :: 0 <= k < |order| ==>
      order[k] in roots || exists j :: 0 <= j < k && order[k] in Supers(classes, kind, order[j])
  }

  lemma {:induction false} WalkReaches(classes: seq<ClassInfo>, kind: ClassType, stack: seq<nat>, visited: seq<nat>, roots: seq<nat>)
    requires Below(stack, |classes|) && Below(visited, |classes|) && Distinct(visited)
    requires Reached(classes, kind, visited, roots)
    requires forall s :: s in stack ==>
               s in roots || exists j :: 0 <= j < |visited| && s in Supers(classes, kind, visited[j])
    decreases |classes| - |visited|, |stack|
    ensures Reached(classes, kind, Walk(classes, kind, stack, visited).0, roots)
  {
    if stack == [] {
    } else if stack[0] in visited {
      WalkReaches(classes, kind, stack[1..], visited, roots);
    } else {
      var next := stack[0];
      var visited' := visited + [next];
      DistinctBound(visited', |classes|);
      var supers := Supers(classes, kind, next);
      var stack' := supers + stack[1..];
      assert Below(stack', |classes|);
      ReachedVisit(classes, kind, visited, next, roots);
      StackedVisit(classes, kind, stack, visited, roots);
      WalkReaches(classes, kind, stack', visited', roots);
    }
  }

  /** Visiting a stacked class keeps every visited class reached. */
  lemma ReachedVisit(classes: seq<ClassInfo>, kind: ClassType, visited: seq<nat>, next: nat, roots: seq<nat>)
    requires Below(visited, |classes|) && next < |classes|
    requires Reached(classes, kind, visited, roots)
    requires next in roots || exists j :: 0 <= j < |visited| && next in Supers(classes, kind, visited[j])
    ensures Below(visited + [next], |classes|)
    ensures Reached(classes, kind, visited + [next], roots)
  {
    var visited' := visited + [next];
    forall k | 0 <= k < |visited'|
      ensures visited'[k] in roots || exists j :: 0 <= j < k && visited'[k] in Supers(classes, kind, visited'[j])
    {
      if k < |visited| {
        if visited[k] !in roots {
          var j :| 0 <= j < k && visited[k] in Supers(classes, kind, visited[j]);
          assert visited'[j] == visited[j];
        }
      } else if next !in roots {
        var j :| 0 <= j < |visited| && next in Supers(classes, kind, visited[j]);
        assert visited'[j] == visited[j];
      }
    }
  }

  /** After visiting the top of the stack, everything on the new stack is a root or a
      base class of a visited class. */
  lemma StackedVisit(classes: seq<ClassInfo>, kind: ClassType, stack: seq<nat>, visited: seq<nat>, roots: seq<nat>)
    requires stack != [] && Below(stack, |classes|) && Below(visited, |classes|)
    requires forall s :: s in stack ==>
               s in roots || exists j :: 0 <= j < |visited| && s in Supers(classes, kind, visited[j])
    ensures var visited' := visited + [stack[0]];
            forall s :: s in Supers(classes, kind, stack[0]) + stack[1..] ==>
              s in roots || exists j :: 0 <= j < |visited'| && s in Supers(classes, kind, visited'[j])
  {
    var next := stack[0];
    var visited' := visited + [next];
    var supers := Supers(classes, kind, next);
    forall s | s in supers + stack[1..]
      ensures s in roots || exists j :: 0 <= j < |visited'| && s in Supers(classes, kind, visited'[j])
    {
      if s in supers {
        assert visited'[|visited|] == next;
      } else {
        assert s in stack;
        if s !in roots {
          var j :| 0 <= j < |visited| && s in Supers(classes, kind, visited[j]);
          assert visited'[j] == visited[j];
        }
      }
    }
  }

  // ---------------------------------------------------------------------------
  // Resolving one class and the whole list

  /** The declarations at the indices `order`. */
  function Chain(classes: seq<ClassInfo>, order: seq<nat>): (r: seq<ClassInfo>)
    requires Below(order, |classes|)
    ensures |r| == |order| && forall k :: 0 <= k < |order| ==> r[k] == classes[order[k]]
  {
    seq(|order|, k requires 0 <= k < |order| => classes[order[k]])
  }

  /** Merges `bases` into `derived` one after the other; the accumulated class is always
      the derived side. */
  function MergeAll(derived: ClassInfo, bases: seq<ClassInfo>): (r: ClassInfo)
    decreases |bases|
    ensures r.classType == derived.classType && r.name == derived.name
    ensures r.line == derived.line && r.column == derived.column
    ensures r.superClasses == derived.superClasses
  {
    if bases == [] then derived else MergeAll(MergeClass(derived, bases[0]), bases[1..])
  }

  /** The first present value of `s`, if any. */
  function FirstPresent<T>(s: seq<Option<T>>): Option<T> {
    if s == [] then None else s[0].OrElse(FirstPresent(s[1..]))
  }

  /** FirstPresent finds a value exactly when one is present, and then the first one. */
  lemma {:induction false} FirstPresentIsFirst<T>(s: seq<Option<T>>)
    ensures FirstPresent(s).None? <==> forall k :: 0 <= k < |s| ==> s[k].None?
    ensures FirstPresent(s).Some? ==>
              exists k :: 0 <= k < |s| && s[k] == FirstPresent(s) && forall j :: 0 <= j < k ==> s[j].None?
  {
    if s != [] {
      var rest := FirstPresent(s[1..]);
      FirstPresentIsFirst(s[1..]);
      assert forall k :: 1 <= k < |s| ==> s[k] == s[1..][k - 1];
      if s[0].None? && rest.Some? {
        var k :| 0 <= k < |s[1..]| && s[1..][k] == rest && forall j :: 0 <= j < k ==> s[1..][j].None?;
        assert s[k + 1] == rest;
      }
    }
  }

  function Descriptions(chain: seq<ClassInfo>): seq<Option<string>> {
    if chain == [] then [] else [chain[0].description] + Descriptions(chain[1..])
  }

  function Colors(chain: seq<ClassInfo>): seq<Option<Color>> {
    if chain == [] then [] else [chain[0].color] + Colors(chain[1..])
  }

  function Sizes(chain: seq<ClassInfo>): seq<Option<BBox>> {
    if chain == [] then [] else [chain[0].size] + Sizes(chain[1..])
  }

  /** The definitions of property `key` along a chain of classes. */
  function Lookups(chain: seq<ClassInfo>, key: string): seq<Option<PropertyDefinition>> {
    if chain == [] then [] else [Lookup(chain[0].propertyDefinitions, key)] + Lookups(chain[1..], key)
  }

  /** The options labelling bit `b` in the spawnflags along a chain of classes. */
  function SpawnflagsAt(chain: seq<ClassInfo>, b: nat): seq<Option<FlagsOption>> {
    if chain == [] then [] else [OptionAt(SpawnflagsOf(chain[0]), b)] + SpawnflagsAt(chain[1..], b)
  }

  /** All model alternatives along a chain of classes, in chain order. */
  function AllModelAlternatives(chain: seq<ClassInfo>): seq<El.Expression> {
    if chain == [] then [] else ModelAlternatives(chain[0].modelDefinition) + AllModelAlternatives(chain[1..])
  }

  function AllDecalAlternatives(chain: seq<ClassInfo>): seq<El.Expression> {
    if chain == [] then [] else DecalAlternatives(chain[0].decalDefinition) + AllDecalAlternatives(chain[1..])
  }

  lemma OrElseAssoc<T>(a: Option<T>, b: Option<T>, c: Option<T>)
    ensures a.OrElse(b).OrElse(c) == a.OrElse(b.OrElse(c))
  {
  }

  lemma FirstPresentCons<T>(x: Option<T>, s: seq<Option<T>>)
    ensures FirstPresent([x] + s) == x.OrElse(FirstPresent(s))
  {
    assert ([x] + s)[1..] == s;
  }

  /** Merging a chain of base classes into `derived` leaves description, colour and size
      to the first class of the chain (`derived` first) that has them. */
  lemma {:induction false} MergeAllAttributes(derived: ClassInfo, bases: seq<ClassInfo>)
    decreases |bases|
    ensures MergeAll(derived, bases).description == FirstPresent(Descriptions([derived] + bases))
    ensures MergeAll(derived, bases).color == FirstPresent(Colors([derived] + bases))
    ensures MergeAll(derived, bases).size == FirstPresent(Sizes([derived] + bases))
  {
    var chain := [derived] + bases;
    assert chain[1..] == bases;
    FirstPresentCons(derived.description, Descriptions(bases));
    FirstPresentCons(derived.color, Colors(bases));
    FirstPresentCons(derived.size, Sizes(bases));
    if bases != [] {
      var d' := MergeClass(derived, bases[0]);
      var chain' := [d'] + bases[1..];
      assert chain'[1..] == bases[1..];
      MergeAllAttributes(d', bases[1..]);
      FirstPresentCons(bases[0].description, Descriptions(bases[1..]));
      FirstPresentCons(d'.description, Descriptions(bases[1..]));
      FirstPresentCons(bases[0].color, Colors(bases[1..]));
      FirstPresentCons(d'.color, Colors(bases[1..]));
      FirstPresentCons(bases[0].size, Sizes(bases[1..]));
      FirstPresentCons(d'.size, Sizes(bases[1..]));
    }
  }

  /** Merging a chain of base classes into `derived` gives it every model alternative
      along the chain, in chain order. */
  lemma {:induction false} MergeAllModels(derived: ClassInfo, bases: seq<ClassInfo>)
    decreases |bases|
    ensures ModelAlternatives(MergeAll(derived, bases).modelDefinition) == AllModelAlternatives([derived] + bases)
  {
    var chain := [derived] + bases;
    assert chain[1..] == bases;
    var own := ModelAlternatives(derived.modelDefinition);
    assert AllModelAlternatives(chain) == own + AllModelAlternatives(bases);
    if bases == [] {
      assert AllModelAlternatives(chain) == own;
    } else {
      var d' := MergeClass(derived, bases[0]);
      var chain' := [d'] + bases[1..];
      assert chain'[1..] == bases[1..];
      MergeAllModels(d', bases[1..]);
      var first := ModelAlternatives(bases[0].modelDefinition);
      var ms := AllModelAlternatives(bases[1..]);
      assert AllModelAlternatives(bases) == first + ms;
      assert AllModelAlternatives(chain') == (own + first) + ms;
      ConcatAssoc(own, first, ms);
    }
  }

  /** Merging a chain of base classes into `derived` gives it every decal alternative
      along the chain, in chain order. */
  lemma {:induction false} MergeAllDecals(derived: ClassInfo, bases: seq<ClassInfo>)
    decreases |bases|
    ensures DecalAlternatives(MergeAll(derived, bases).decalDefinition) == AllDecalAlternatives([derived] + bases)
  {
    var chain := [derived] + bases;
    assert chain[1..] == bases;
    var own := DecalAlternatives(derived.decalDefinition);
    assert AllDecalAlternatives(chain) == own + AllDecalAlternatives(bases);
    if bases == [] {
      assert AllDecalAlternatives(chain) == own;
    } else {
      var d' := MergeClass(derived, bases[0]);
      var chain' := [d'] + bases[1..];
      assert chain'[1..] == bases[1..];
      MergeAllDecals(d', bases[1..]);
      var first := DecalAlternatives(bases[0].decalDefinition);
      var ds := AllDecalAlternatives(bases[1..]);
      assert AllDecalAlternatives(bases) == first + ds;
      assert AllDecalAlternatives(chain') == (own + first) + ds;
      ConcatAssoc(own, first, ds);
    }
  }

  /** Merging a chain of base classes into `derived` gives every property other than
      spawnflags the definition of the first class of the chain that defines it. */
  lemma {:induction false} MergeAllLookup(derived: ClassInfo, bases: seq<ClassInfo>, key: string)
    requires key != Spawnflags
    decreases |bases|
    ensures Lookup(MergeAll(derived, bases).propertyDefinitions, key) == FirstPresent(Lookups([derived] + bases, key))
  {
    var chain := [derived] + bases;
    var own := Lookup(derived.propertyDefinitions, key);
    assert Lookups(chain, key) == [own] + Lookups(bases, key);
    FirstPresentCons(own, Lookups(bases, key));
    if bases == [] {
    } else {
      var d' := MergeClass(derived, bases[0]);
      AddPropertyDefinitionsLookup(derived.propertyDefinitions, bases[0].propertyDefinitions, key);
      MergeAllLookup(d', bases[1..], key);
      var own' := Lookup(d'.propertyDefinitions, key);
      assert Lookups([d'] + bases[1..], key) == [own'] + Lookups(bases[1..], key);
      FirstPresentCons(own', Lookups(bases[1..], key));
      assert Lookups(bases, key) == [Lookup(bases[0].propertyDefinitions, key)] + Lookups(bases[1..], key);
      var first := Lookup(bases[0].propertyDefinitions, key);
      FirstPresentCons(first, Lookups(bases[1..], key));
      OrElseAssoc(own, first, FirstPresent(Lookups(bases[1..], key)));
      assert MergeAll(derived, bases) == MergeAll(d', bases[1..]);
    }
  }

  /** The property keys along a chain of classes, class after class. */
  function AllKeys(chain: seq<ClassInfo>): seq<string> {
    if chain == [] then [] else Keys(chain[0].propertyDefinitions) + AllKeys(chain[1..])
  }

  /** Taking the new keys of a concatenation is taking those of the first part, then
      those of the second part that are new after the first. */
  lemma {:induction false} NewKeysAppend(present: seq<string>, a: seq<string>, b: seq<string>)
    decreases |a|
    ensures NewKeys(present, a + b) == NewKeys(present, a) + NewKeys(present + NewKeys(present, a), b)
  {
    if a == [] {
      assert a + b == b && present + [] == present;
    } else {
      var x := a[0];
      assert (a + b)[0] == x && (a + b)[1..] == a[1..] + b;
      if x in present {
        NewKeysAppend(present, a[1..], b);
      } else {
        var p' := present + [x];
        NewKeysAppend(p', a[1..], b);
        var na := NewKeys(p', a[1..]);
        ConcatAssoc(present, [x], na);
        ConcatAssoc([x], na, NewKeys(p' + na, b));
      }
    }
  }

  /** Merging a chain of base classes into `derived` gives it its own property keys
      followed, in chain order, by each base class's keys not defined before it, each
      once. */
  lemma {:induction false} MergeAllKeys(derived: ClassInfo, bases: seq<ClassInfo>)
    decreases |bases|
    ensures Keys(MergeAll(derived, bases).propertyDefinitions)
            == Keys(derived.propertyDefinitions) + NewKeys(Keys(derived.propertyDefinitions), AllKeys(bases))
  {
    var k := Keys(derived.propertyDefinitions);
    if bases == [] {
      assert k + [] == k;
    } else {
      var d' := MergeClass(derived, bases[0]);
      var first := Keys(bases[0].propertyDefinitions);
      AddPropertyDefinitionsKeys(derived.propertyDefinitions, bases[0].propertyDefinitions);
      assert Keys(d'.propertyDefinitions) == k + NewKeys(k, first);
      MergeAllKeys(d', bases[1..]);
      assert AllKeys(bases) == first + AllKeys(bases[1..]);
      NewKeysAppend(k, first, AllKeys(bases[1..]));
      ConcatAssoc(k, NewKeys(k, first), NewKeys(k + NewKeys(k, first), AllKeys(bases[1..])));
      assert MergeAll(derived, bases) == MergeAll(d', bases[1..]);
    }
  }

  /** Merging a chain of base classes keeps the derived class's own definitions first,
      in their order, each as it was or, for spawnflags, with inherited options merged. */
  lemma {:induction false} MergeAllKeepsOwn(derived: ClassInfo, bases: seq<ClassInfo>)
    decreases |bases|
    ensures var r := MergeAll(derived, bases).propertyDefinitions;
            |derived.propertyDefinitions| <= |r|
            && forall i :: 0 <= i < |derived.propertyDefinitions| ==> KeptAs(derived.propertyDefinitions[i], r[i])
  {
    if bases != [] {
      var own := derived.propertyDefinitions;
      var d' := MergeClass(derived, bases[0]);
      AddPropertyDefinitionsOrder(own, bases[0].propertyDefinitions);
      MergeAllKeepsOwn(d', bases[1..]);
      assert MergeAll(derived, bases) == MergeAll(d', bases[1..]);
      var mid := d'.propertyDefinitions;
      var r := MergeAll(derived, bases).propertyDefinitions;
      forall i | 0 <= i < |own| ensures KeptAs(own[i], r[i]) {
        assert (own + NewDefinitions(Keys(own), bases[0].propertyDefinitions))[i] == own[i];
        assert KeptAs(own[i], mid[i]) && KeptAs(mid[i], r[i]);
      }
    }
  }

  /** Merging a chain of base classes into `derived` merges their spawnflags bit by bit:
      each bit gets the option of the first class of the chain that labels it. */
  lemma {:induction false} MergeAllSpawnflags(derived: ClassInfo, bases: seq<ClassInfo>, b: nat)
    requires SpawnflagsAreFlags(derived)
    requires forall k :: 0 <= k < |bases| ==> SpawnflagsAreFlags(bases[k]) && UniqueKeys(bases[k].propertyDefinitions)
    decreases |bases|
    ensures OptionAt(SpawnflagsOf(MergeAll(derived, bases)), b) == FirstPresent(SpawnflagsAt([derived] + bases, b))
  {
    var chain := [derived] + bases;
    var own := OptionAt(SpawnflagsOf(derived), b);
    assert SpawnflagsAt(chain, b) == [own] + SpawnflagsAt(bases, b);
    FirstPresentCons(own, SpawnflagsAt(bases, b));
    if bases == [] {
    } else {
      var d' := MergeClass(derived, bases[0]);
      MergeClassSpawnflags(derived, bases[0], b);
      MergeAllSpawnflags(d', bases[1..], b);
      var own' := OptionAt(SpawnflagsOf(d'), b);
      assert SpawnflagsAt([d'] + bases[1..], b) == [own'] + SpawnflagsAt(bases[1..], b);
      FirstPresentCons(own', SpawnflagsAt(bases[1..], b));
      var first := OptionAt(SpawnflagsOf(bases[0]), b);
      assert SpawnflagsAt(bases, b) == [first] + SpawnflagsAt(bases[1..], b);
      FirstPresentCons(first, SpawnflagsAt(bases[1..], b));
      OrElseAssoc(own, first, FirstPresent(SpawnflagsAt(bases[1..], b)));
      assert MergeAll(derived, bases) == MergeAll(d', bases[1..]);
    }
  }

  /** The visiting order of the walk that resolves declaration `i`; `i` comes first. */
  function VisitOrder(classes: seq<ClassInfo>, i: nat): (r: (seq<nat>, nat))
    requires i < |classes|
    ensures |r.0| >= 1 && r.0[0] == i && Below(r.0, |classes|) && Distinct(r.0)
  {
    Walk(classes, classes[i].classType, [i], [])
  }

  /** The walk from `i` visits `i` and, with it, every base class any visited class
      resolves to. */
  lemma VisitOrderClosed(classes: seq<ClassInfo>, i: nat)
    requires i < |classes|
    ensures var order := VisitOrder(classes, i).0;
            forall v, s :: v in order && s in Supers(classes, classes[i].classType, v) ==> s in order
  {
    WalkCloses(classes, classes[i].classType, [i], []);
    var order := VisitOrder(classes, i).0;
    assert ClosedUpTo(classes, classes[i].classType, order, []);
  }

  /** Every class the walk from `i` visits after `i` is a resolved base class of a class
      visited before it, and so is a base class or of the same kind as `i`. */
  lemma VisitOrderReached(classes: seq<ClassInfo>, i: nat)
    requires i < |classes|
    ensures var order := VisitOrder(classes, i).0;
            forall k :: 1 <= k < |order| ==>
              exists j :: 0 <= j < k && order[k] in Supers(classes, classes[i].classType, order[j])
    ensures var order := VisitOrder(classes, i).0;
            forall k :: 0 <= k < |order| ==>
              classes[order[k]].classType == BaseClass || classes[order[k]].classType == classes[i].classType
  {
    var kind := classes[i].classType;
    var order := VisitOrder(classes, i).0;
    WalkReaches(classes, kind, [i], [], [i]);
    forall k | 1 <= k < |order|
      ensures exists j :: 0 <= j < k && order[k] in Supers(classes, kind, order[j])
    {
      assert order[k] != order[0];
    }
    forall k | 1 <= k < |order|
      ensures classes[order[k]].classType == BaseClass || classes[order[k]].classType == kind
    {
      var j :| 0 <= j < k && order[k] in Supers(classes, kind, order[j]);
      var m :| 0 <= m < |Supers(classes, kind, order[j])| && Supers(classes, kind, order[j])[m] == order[k];
      SupersMatch(classes, kind, order[j], m);
    }
  }

  /** The warnings of the walk from `i` are the unresolvable base names of the classes it
      visits. */
  lemma VisitOrderWarnings(classes: seq<ClassInfo>, i: nat)
    requires i < |classes|
    ensures VisitOrder(classes, i).1 == MissingCount(classes, classes[i].classType, VisitOrder(classes, i).0)
  {
    WalkWarnings(classes, classes[i].classType, [i], []);
  }

  /** The recursive pre-order depth-first visit of `bases`, left to right: a base not
      yet visited is visited, then everything reached through its own bases, before
      the next base is looked at. The result extends `visited`. */
  function DepthFirst(classes: seq<ClassInfo>, kind: ClassType, bases: seq<nat>, visited: seq<nat>): (r: seq<nat>)
    requires Below(bases, |classes|) && Below(visited, |classes|) && Distinct(visited)
    decreases |classes| - |visited|, |bases|
    ensures |visited| <= |r| && r[..|visited|] == visited
    ensures Below(r, |classes|) && Distinct(r)
  {
    if bases == [] then visited
    else if bases[0] in visited then DepthFirst(classes, kind, bases[1..], visited)
    else
      var visited' := visited + [bases[0]];
      DistinctBound(visited', |classes|);
      var reached := DepthFirst(classes, kind, Supers(classes, kind, bases[0]), visited');
      DistinctBound(reached, |classes|);
      var r := DepthFirst(classes, kind, bases[1..], reached);
      PrefixOfPrefix(r, reached, visited);
      r
  }

  lemma PrefixOfPrefix(r: seq<nat>, mid: seq<nat>, pre: seq<nat>)
    requires |mid| <= |r| && r[..|mid|] == mid
    requires |pre| <= |mid| && mid[..|pre|] == pre
    ensures r[..|pre|] == pre
  {
    assert r[..|pre|] == r[..|mid|][..|pre|];
  }

  /** Visiting two lists of bases one after the other: the first is visited to the
      end before anything of the second. */
  lemma {:induction false} DepthFirstAppend(classes: seq<ClassInfo>, kind: ClassType, first: seq<nat>, second: seq<nat>, visited: seq<nat>)
    requires Below(first, |classes|) && Below(second, |classes|)
    requires Below(visited, |classes|) && Distinct(visited)
    decreases |classes| - |visited|, |first|
    ensures DepthFirst(classes, kind, first + second, visited)
            == DepthFirst(classes, kind, second, DepthFirst(classes, kind, first, visited))
  {
    BelowAppend(first, second, |classes|);
    if first == [] {
      assert first + second == second;
    } else {
      TailOfAppend(first, second);
      BelowSlice(first, 1, |classes|);
      if first[0] in visited {
        DepthFirstAppend(classes, kind, first[1..], second, visited);
      } else {
        var visited' := visited + [first[0]];
        DistinctBound(visited', |classes|);
        var reached := DepthFirst(classes, kind, Supers(classes, kind, first[0]), visited');
        DistinctBound(reached, |classes|);
        DepthFirstAppend(classes, kind, first[1..], second, reached);
      }
    }
  }

  lemma TailOfAppend<T>(a: seq<T>, b: seq<T>)
    requires a != []
    ensures (a + b)[0] == a[0] && (a + b)[1..] == a[1..] + b
  {
  }

  /** One step of the walk on a class not yet visited. */
  lemma WalkVisit(classes: seq<ClassInfo>, kind: ClassType, stack: seq<nat>, visited: seq<nat>,
                  next: nat, pushed: seq<nat>)
    requires Below(stack, |classes|) && Below(visited, |classes|) && Distinct(visited)
    requires stack != [] && next == stack[0] && next !in visited
    requires pushed == Supers(classes, kind, next) + stack[1..]
    ensures var w := Walk(classes, kind, pushed, visited + [next]);
            Walk(classes, kind, stack, visited) == (w.0, w.1 + Missing(classes, kind, next))
  {
  }

  /** The stack-based walk visits exactly in the order of the recursive depth-first
      visit. */
  lemma {:induction false} WalkIsDepthFirst(classes: seq<ClassInfo>, kind: ClassType, bases: seq<nat>, visited: seq<nat>)
    requires Below(bases, |classes|) && Below(visited, |classes|) && Distinct(visited)
    decreases |classes| - |visited|, |bases|
    ensures Walk(classes, kind, bases, visited).0 == DepthFirst(classes, kind, bases, visited)
  {
    if bases == [] {
    } else if bases[0] in visited {
      WalkIsDepthFirst(classes, kind, bases[1..], visited);
    } else {
      var visited' := visited + [bases[0]];
      DistinctBound(visited', |classes|);
      var supers := Supers(classes, kind, bases[0]);
      BelowSlice(bases, 1, |classes|);
      BelowAppend(supers, bases[1..], |classes|);
      WalkVisit(classes, kind, bases, visited, bases[0], supers + bases[1..]);
      WalkIsDepthFirst(classes, kind, supers + bases[1..], visited');
      DepthFirstAppend(classes, kind, supers, bases[1..], visited');
    }
  }

  /** The walk from `i` is `i` followed by the depth-first visit of its base classes,
      left to right: everything the first base reaches, then what the second adds, and
      so on. */
  lemma VisitOrderDepthFirst(classes: seq<ClassInfo>, i: nat)
    requires i < |classes|
    ensures var kind := classes[i].classType;
            VisitOrder(classes, i).0 == DepthFirst(classes, kind, Supers(classes, kind, i), [i])
  {
    var kind := classes[i].classType;
    assert [] + [i] == [i];
    assert Supers(classes, kind, i) + [i][1..] == Supers(classes, kind, i);
    WalkIsDepthFirst(classes, kind, Supers(classes, kind, i), [i]);
  }

  /** The first base class is visited right after the class itself, unless the class
      names itself first. */
  lemma VisitOrderFirstBase(classes: seq<ClassInfo>, i: nat)
    requires i < |classes| && Supers(classes, classes[i].classType, i) != []
    ensures var order := VisitOrder(classes, i).0;
            var first := Supers(classes, classes[i].classType, i)[0];
            first != i ==> |order| >= 2 && order[1] == first
  {
    var kind := classes[i].classType;
    var bases := Supers(classes, kind, i);
    VisitOrderDepthFirst(classes, i);
    if bases[0] != i {
      var visited' := [i] + [bases[0]];
      var reached := DepthFirst(classes, kind, Supers(classes, kind, bases[0]), visited');
      var r := DepthFirst(classes, kind, bases[1..], reached);
      assert DepthFirst(classes, kind, bases, [i]) == r;
      assert r[..|visited'|] == visited' by {
        PrefixOfPrefix(r, reached, visited');
      }
      assert r[1] == r[..2][1];
    }
  }

  /** The warnings of resolving every non-base declaration from `from` on: the
      unresolvable base names met along each of their walks. */
  function WalkMissing(classes: seq<ClassInfo>, from: nat): nat
    requires from <= |classes|
    decreases |classes| - from
  {
    if from == |classes| then 0
    else if classes[from].classType == BaseClass then WalkMissing(classes, from + 1)
    else MissingCount(classes, classes[from].classType, VisitOrder(classes, from).0) + WalkMissing(classes, from + 1)
  }

  /** Resolves declaration `i`: its own attributes merged with those of every base class
      the walk visits, in visiting order, and the warnings the walk reports. */
  function ResolveClass(classes: seq<ClassInfo>, i: nat): (r: (ClassInfo, nat))
    requires i < |classes|
    ensures r.0.classType == classes[i].classType && r.0.name == classes[i].name
    ensures r.0.superClasses == classes[i].superClasses
    ensures r.1 == MissingCount(classes, classes[i].classType, VisitOrder(classes, i).0)
  {
    var (order, warnings) := VisitOrder(classes, i);
    VisitOrderWarnings(classes, i);
    (MergeAll(classes[i], Chain(classes, order[1..])), warnings)
  }

  /** The indices of the declarations from `from` on that are not base classes. */
  function NonBaseIndices(classes: seq<ClassInfo>, from: nat): (r: seq<nat>)
    requires from <= |classes|
    decreases |classes| - from
    ensures Below(r, |classes|)
    ensures forall k :: 0 <= k < |r| ==> from <= r[k] && classes[r[k]].classType != BaseClass
    ensures forall j :: from <= j < |classes| && classes[j].classType != BaseClass ==> j in r
    ensures forall k, l :: 0 <= k < l < |r| ==> r[k] < r[l]
  {
    if from == |classes| then []
    else if classes[from].classType == BaseClass then NonBaseIndices(classes, from + 1)
    else [from] + NonBaseIndices(classes, from + 1)
  }

  /** Resolves every non-base declaration from `from` on. */
  function ResolveFrom(classes: seq<ClassInfo>, from: nat): (r: seq<ClassInfo>)
    requires from <= |classes|
    decreases |classes| - from
    ensures var idx := NonBaseIndices(classes, from);
            |r| == |idx| && forall k :: 0 <= k < |idx| ==> r[k] == ResolveClass(classes, idx[k]).0
  {
    if from == |classes| then []
    else
      var rest := ResolveFrom(classes, from + 1);
      if classes[from].classType == BaseClass then rest
      else
        var resolved := ResolveClass(classes, from).0;
        ResolvedCons(classes, from, NonBaseIndices(classes, from + 1), resolved, rest);
        [resolved] + rest
  }

  /** Resolving one more declaration in front of the resolved ones. */
  lemma ResolvedCons(classes: seq<ClassInfo>, i: nat, later: seq<nat>, x: ClassInfo, rest: seq<ClassInfo>)
    requires i < |classes| && Below(later, |classes|) && x == ResolveClass(classes, i).0
    requires |rest| == |later| && forall k :: 0 <= k < |later| ==> rest[k] == ResolveClass(classes, later[k]).0
    ensures |[x] + rest| == |[i] + later|
    ensures forall k :: 0 <= k < |[i] + later| ==> ([x] + rest)[k] == ResolveClass(classes, ([i] + later)[k]).0
  {
    ConsIndex(x, rest);
    ConsIndex(i, later);
  }

  lemma ConsIndex<T>(x: T, s: seq<T>)
    ensures ([x] + s)[0] == x && |[x] + s| == |s| + 1
    ensures forall i :: 1 <= i <= |s| ==> ([x] + s)[i] == s[i - 1]
  {
  }

  datatype Resolution = Resolution(classes: seq<ClassInfo>, warnings: nat)

  /** The surviving declarations of `classes` that are not base classes, in order. */
  function NonBaseClasses(classes: seq<ClassInfo>): (r: seq<ClassInfo>)
    ensures forall k :: 0 <= k < |r| ==> r[k].classType != BaseClass && r[k] in classes
  {
    if classes == [] then []
    else if classes[0].classType == BaseClass then NonBaseClasses(classes[1..])
    else [classes[0]] + NonBaseClasses(classes[1..])
  }

  /** Resolves the inheritance of every declaration: redundant declarations are dropped
      (one warning each), then every surviving point and brush class is resolved in its
      original order; base classes are not part of the result. */
  function ResolveInheritance(classes: seq<ClassInfo>): (r: Resolution)
    ensures |r.classes| == |NonBaseClasses(FilterRedundantClasses(classes).0)|
    ensures var f := FilterRedundantClasses(classes).0;
            var idx := NonBaseIndices(f, 0);
            |r.classes| == |idx| && forall k :: 0 <= k < |idx| ==> r.classes[k] == ResolveClass(f, idx[k]).0
    ensures var f := FilterRedundantClasses(classes).0;
            r.warnings == FilterRedundantClasses(classes).1 + WalkMissing(f, 0)
    ensures forall k :: 0 <= k < |r.classes| ==>
              r.classes[k].classType == NonBaseClasses(FilterRedundantClasses(classes).0)[k].classType
              && r.classes[k].name == NonBaseClasses(FilterRedundantClasses(classes).0)[k].name
              && r.classes[k].superClasses == NonBaseClasses(FilterRedundantClasses(classes).0)[k].superClasses
  {
    var filtered := FilterRedundantClasses(classes);
    NonBaseClassesAt(filtered.0, 0);
    assert filtered.0[0..] == filtered.0;
    Resolution(ResolveFrom(filtered.0, 0), filtered.1 + WalkMissing(filtered.0, 0))
  }

  /** The non-base declarations from `from` on, as NonBaseIndices picks them. */
  lemma {:induction false} NonBaseClassesAt(classes: seq<ClassInfo>, from: nat)
    requires from <= |classes|
    decreases |classes| - from
    ensures var idx := NonBaseIndices(classes, from);
            |NonBaseClasses(classes[from..])| == |idx|
            && forall k :: 0 <= k < |idx| ==> NonBaseClasses(classes[from..])[k] == classes[idx[k]]
  {
    if from < |classes| {
      NonBaseClassesAt(classes, from + 1);
      var rest := NonBaseClasses(classes[from + 1..]);
      var later := NonBaseIndices(classes, from + 1);
      assert classes[from..][1..] == classes[from + 1..];
      if classes[from].classType != BaseClass {
        assert NonBaseClasses(classes[from..]) == [classes[from]] + rest;
        assert NonBaseIndices(classes, from) == [from] + later;
        ClassesCons(classes, from, later, classes[from], rest);
      }
    }
  }

  lemma ClassesCons(classes: seq<ClassInfo>, i: nat, later: seq<nat>, x: ClassInfo, rest: seq<ClassInfo>)
    requires i < |classes| && Below(later, |classes|) && x == classes[i]
    requires |rest| == |later| && forall k :: 0 <= k < |later| ==> rest[k] == classes[later[k]]
    ensures |[x] + rest| == |[i] + later|
    ensures forall k :: 0 <= k < |[i] + later| ==> ([x] + rest)[k] == classes[([i] + later)[k]]
  {
    ConsIndex(x, rest);
    ConsIndex(i, later);
  }

  /** Without any base-class references, resolution only drops the redundant
      declarations and the base classes: every other declaration comes out unchanged and
      the only warnings are the dropped declarations. */
  lemma NoInheritanceIdentity(classes: seq<ClassInfo>)
    requires forall k :: 0 <= k < |classes| ==> classes[k].superClasses == []
    ensures ResolveInheritance(classes).classes == NonBaseClasses(FilterRedundantClasses(classes).0)
    ensures ResolveInheritance(classes).warnings == FilterRedundantClasses(classes).1
  {
    var filtered := FilterRedundantClasses(classes).0;
    forall k | 0 <= k < |filtered|
      ensures filtered[k].superClasses == []
    {
      var m :| 0 <= m < |classes| && classes[m] == filtered[k];
    }
    ResolveFromIdentity(filtered, 0);
    WalkMissingNoSupers(filtered, 0);
    assert filtered[0..] == filtered;
  }

  /** Without base-class references, no walk meets an unresolvable name. */
  lemma {:induction false} WalkMissingNoSupers(classes: seq<ClassInfo>, from: nat)
    requires from <= |classes|
    requires forall k :: 0 <= k < |classes| ==> classes[k].superClasses == []
    decreases |classes| - from
    ensures WalkMissing(classes, from) == 0
  {
    if from < |classes| {
      WalkMissingNoSupers(classes, from + 1);
      if classes[from].classType != BaseClass {
        var kind := classes[from].classType;
        VisitOrderNoSupers(classes, from);
        assert Missing(classes, kind, from) == 0;
        MissingCountCons(classes, kind, from, []);
        assert [from] + [] == [from];
      }
    }
  }

  /** A declaration without base-class references resolves to itself, without warnings. */
  lemma ResolveClassNoSupers(classes: seq<ClassInfo>, i: nat)
    requires i < |classes| && classes[i].superClasses == []
    ensures ResolveClass(classes, i) == (classes[i], 0)
  {
    VisitOrderNoSupers(classes, i);
    assert Chain(classes, [i][1..]) == [];
  }

  /** The walk from a declaration without base-class references visits only it. */
  lemma VisitOrderNoSupers(classes: seq<ClassInfo>, i: nat)
    requires i < |classes| && classes[i].superClasses == []
    ensures VisitOrder(classes, i) == ([i], 0)
  {
    var kind := classes[i].classType;
    assert Supers(classes, kind, i) == [] && Missing(classes, kind, i) == 0;
    WalkOne(classes, kind, i);
  }

  /** The walk from a class whose base classes resolve to nothing visits only it. */
  lemma WalkOne(classes: seq<ClassInfo>, kind: ClassType, i: nat)
    requires i < |classes| && Supers(classes, kind, i) == []
    ensures Walk(classes, kind, [i], []) == ([i], Missing(classes, kind, i))
  {
    WalkDone(classes, kind, [i]);
    assert Supers(classes, kind, i) + [i][1..] == [];
    assert [] + [i] == [i];
  }

  lemma WalkDone(classes: seq<ClassInfo>, kind: ClassType, visited: seq<nat>)
    requires Below(visited, |classes|) && Distinct(visited)
    ensures Walk(classes, kind, [], visited) == (visited, 0)
  {
  }


  lemma {:induction false} ResolveFromIdentity(classes: seq<ClassInfo>, from: nat)
    requires from <= |classes|
    requires forall k :: 0 <= k < |classes| ==> classes[k].superClasses == []
    decreases |classes| - from
    ensures ResolveFrom(classes, from) == NonBaseClasses(classes[from..])
  {
    if from < |classes| {
      ResolveFromIdentity(classes, from + 1);
      assert classes[from..][1..] == classes[from + 1..];
      assert classes[from..][0] == classes[from];
      if classes[from].classType != BaseClass {
        ResolveClassNoSupers(classes, from);
      }
    }
  }
}
