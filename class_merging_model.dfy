/** The class-merging model's revised class hierarchy
    (service/class-merging/Model.h): the options of a model
    specification, the hierarchy maps and their mutators, and the
    pre-order walk over the merger types. */
module ClassMergingModel {
  import opened Wrappers

  /** A type, identified by its position in the name order used by
      `TypeSet`, so that iterating a set of children visits them in
      ascending order. */
  type DexType = nat

  datatype InterDexGroupingType = Disabled | NonHotSet | NonOrderedSet | Full

  datatype TypeTagConfig = NoTypeTags | Generate | InputPassTypeTagToCtor | InputHandled

  datatype TypeLikeStringConfig = Replace | Exclude

  /** The options of `ModelSpec` that its predicates read. */
  datatype ModelSpec = ModelSpec(
    typeTagConfig: TypeTagConfig,
    typeLikeStringConfig: TypeLikeStringConfig,
    interdexGrouping: InterDexGroupingType)
  {
    predicate GenerateTypeTag() { typeTagConfig == Generate }
    predicate NoTypeTag() { typeTagConfig == NoTypeTags }
    predicate HasTypeTag() { typeTagConfig != NoTypeTags }
    predicate InputHasTypeTag() { typeTagConfig == InputPassTypeTagToCtor || typeTagConfig == InputHandled }
    predicate PassTypeTagToCtor() { typeTagConfig == Generate || typeTagConfig == InputPassTypeTagToCtor }
    predicate ReplaceTypeLikeStrings() { typeLikeStringConfig == Replace }
    predicate ExcludeTypeLikeStrings() { typeLikeStringConfig == Exclude }
  }

  /** The member initialisers of `ModelSpec`. */
  function DefaultSpec(): (s: ModelSpec)
    ensures s.GenerateTypeTag() && s.HasTypeTag() && s.PassTypeTagToCtor() && !s.InputHasTypeTag()
    ensures s.ExcludeTypeLikeStrings() && !s.ReplaceTypeLikeStrings()
    ensures s.interdexGrouping == Disabled
  {
    ModelSpec(Generate, Exclude, Disabled)
  }

  /** Having a type tag is the negation of having none, and generating one
      is the GENERATE option alone. */
  lemma TypeTagPresence(s: ModelSpec)
    ensures s.HasTypeTag() <==> !s.NoTypeTag()
    ensures s.GenerateTypeTag() <==> s.typeTagConfig == Generate
    ensures s.GenerateTypeTag() ==> s.HasTypeTag() && s.PassTypeTagToCtor()
  {
  }

  /** The tag comes from the input and is passed to constructors by Redex
      in exactly one configuration. */
  lemma TypeTagInputAndCtor(s: ModelSpec)
    ensures s.InputHasTypeTag() && s.PassTypeTagToCtor() <==> s.typeTagConfig == InputPassTypeTagToCtor
    ensures s.HasTypeTag() <==> s.InputHasTypeTag() || s.GenerateTypeTag()
  {
  }

  /** Exactly one treatment of type-like strings applies. */
  lemma TypeLikeStringsExclusive(s: ModelSpec)
    ensures s.ReplaceTypeLikeStrings() != s.ExcludeTypeLikeStrings()
  {
  }

  /** `MergerType` as far as the model's hierarchy operations see it. */
  datatype MergerType = MergerType(dexType: DexType, dummy: bool, mergeables: set<DexType>)

  // ----- The hierarchy maps as values -----

  /** `m_hierarchy[parent].insert(child)`: `operator[]` first creates an
      empty set for an unknown parent. */
  function AddChild(h: map<DexType, set<DexType>>, parent: DexType, child: DexType): (r: map<DexType, set<DexType>>)
    ensures r.Keys == h.Keys + {parent}
    ensures child in r[parent]
    ensures forall t :: t in h ==> h[t] <= r[t]
    ensures forall t :: t in r && t != parent ==> r[t] == h[t]
    ensures parent in h ==> r[parent] == h[parent] + {child}
    ensures parent !in h ==> r[parent] == {child}
  {
    h[parent := (if parent in h then h[parent] else {}) + {child}]
  }

  /** What `remove_child` leaves of the hierarchy: the child leaves its
      parent's set, and a set that becomes empty is erased with its key. */
  function WithoutChild(h: map<DexType, set<DexType>>, parent: DexType, child: DexType): (r: map<DexType, set<DexType>>)
    requires parent in h && child in h[parent]
    ensures parent in r <==> h[parent] != {child}
    ensures parent in r ==> r[parent] == h[parent] - {child}
    ensures r.Keys <= h.Keys
    ensures forall t :: t in h && t != parent ==> t in r && r[t] == h[t]
  {
    var remaining := h[parent] - {child};
    if remaining == {} then h - {parent} else h[parent := remaining]
  }

  /** No key of the hierarchy maps to an empty set of children. */
  predicate NoEmptyChildSets(h: map<DexType, set<DexType>>) {
    forall t :: t in h ==> h[t] != {}
  }

  lemma AddChildKeepsNoEmptyChildSets(h: map<DexType, set<DexType>>, parent: DexType, child: DexType)
    requires NoEmptyChildSets(h)
    ensures NoEmptyChildSets(AddChild(h, parent, child))
  {
  }

  lemma {:induction false} WithoutChildKeepsNoEmptyChildSets(h: map<DexType, set<DexType>>, parent: DexType, child: DexType)
    requires NoEmptyChildSets(h) && parent in h && child in h[parent]
    ensures NoEmptyChildSets(WithoutChild(h, parent, child))
    ensures child !in (if parent in WithoutChild(h, parent, child) then WithoutChild(h, parent, child)[parent] else {})
  {
    var r := WithoutChild(h, parent, child);
    forall t | t in r ensures r[t] != {} {
      if t == parent {
        assert r[t] == h[parent] - {child} && h[parent] != {child};
        var x :| x in h[parent];
        if x == child {
          var y :| y in h[parent] && y != child;
          assert y in r[t];
        } else {
          assert x in r[t];
        }
      } else {
        assert r[t] == h[t];
      }
    }
  }

  /** Re-parenting does not detach: a child added under a new parent stays
      in every earlier parent's set. */
  lemma AddChildKeepsEarlierParent(h: map<DexType, set<DexType>>, earlier: DexType, parent: DexType, child: DexType)
    requires earlier in h && child in h[earlier]
    ensures var r := AddChild(h, parent, child); earlier in r && child in r[earlier] && child in r[parent]
  {
  }

  /** A merger's type is the key it is stored under. */
  predicate Keyed(mergers: map<DexType, MergerType>) {
    forall t :: t in mergers ==> mergers[t].dexType == t
  }

  class Model {
    var spec: ModelSpec
    var roots: seq<DexType>  // keys of `mergers`, in order
    var hierarchy: map<DexType, set<DexType>>
    var parents: map<DexType, DexType>
    var classToIntfs: map<DexType, set<DexType>>
    var mergers: map<DexType, MergerType>

    ghost predicate Valid()
      reads this
    {
      Keyed(mergers) && forall k :: 0 <= k < |roots| ==> roots[k] in mergers
    }

    constructor(spec: ModelSpec, roots: seq<DexType>, hierarchy: map<DexType, set<DexType>>,
                parents: map<DexType, DexType>, classToIntfs: map<DexType, set<DexType>>,
                mergers: map<DexType, MergerType>)
      requires Keyed(mergers) && forall k :: 0 <= k < |roots| ==> roots[k] in mergers
      ensures Valid()
      ensures this.spec == spec && this.roots == roots && this.hierarchy == hierarchy
      ensures this.parents == parents && this.classToIntfs == classToIntfs && this.mergers == mergers
    {
      this.spec := spec;
      this.roots := roots;
      this.hierarchy := hierarchy;
      this.parents := parents;
      this.classToIntfs := classToIntfs;
      this.mergers := mergers;
    }

    /** `get_parent`: no parent (null in the source) for an unknown type. */
    function GetParent(child: DexType): (r: Option<DexType>)
      reads this
      ensures r.None? <==> child !in parents
      ensures r.Some? ==> r.value == parents[child]
    {
      if child in parents then Some(parents[child]) else None
    }

    /** `get_interfaces`: the shared empty set for an unknown type. */
    function GetInterfaces(t: DexType): (r: set<DexType>)
      reads this
      ensures t !in classToIntfs ==> r == {}
      ensures t in classToIntfs ==> r == classToIntfs[t]
    {
      if t in classToIntfs then classToIntfs[t] else {}
    }

    /** `get_roots`: the types of the root mergers, in order. */
    function GetRoots(): (r: seq<DexType>)
      reads this
      requires Valid()
      ensures r == roots
    {
      seq(|roots|, k requires 0 <= k < |roots| && roots[k] in mergers reads this => mergers[roots[k]].dexType)
    }

    predicate IsInterdexGroupingEnabled()
      reads this
    {
      spec.interdexGrouping != Disabled
    }

    /** `set_parent_child`. */
    method SetParentChild(parent: DexType, child: DexType)
      modifies this
      ensures hierarchy == AddChild(old(hierarchy), parent, child)
      ensures parents == old(parents)[child := parent]
      ensures spec == old(spec) && roots == old(roots) && classToIntfs == old(classToIntfs) && mergers == old(mergers)
      ensures old(Valid()) ==> Valid()
      ensures NoEmptyChildSets(old(hierarchy)) ==> NoEmptyChildSets(hierarchy)
    {
      hierarchy := AddChild(hierarchy, parent, child);
      parents := parents[child := parent];
    }

    /** `remove_child`: the recorded parent must list the child (both
        `always_assert`s). The parent map is left as it was. */
    method RemoveChild(child: DexType)
      requires child in parents && parents[child] in hierarchy && child in hierarchy[parents[child]]
      modifies this
      ensures hierarchy == WithoutChild(old(hierarchy), old(parents)[child], child)
      ensures parents == old(parents)
      ensures spec == old(spec) && roots == old(roots) && classToIntfs == old(classToIntfs) && mergers == old(mergers)
      ensures old(Valid()) ==> Valid()
      ensures NoEmptyChildSets(old(hierarchy)) ==> NoEmptyChildSets(hierarchy)
    {
      // The erase and the removal of an emptied entry, step by step, as
      // the source does them in place; `WithoutChild` is the same update
      // as a value.
      var parent := parents[child];
      var remaining := hierarchy[parent] - {child};
      if remaining == {} {
        hierarchy := hierarchy - {parent};
      } else {
        hierarchy := hierarchy[parent := remaining];
      }
      if NoEmptyChildSets(old(hierarchy)) {
        WithoutChildKeepsNoEmptyChildSets(old(hierarchy), parent, child);
      }
    }

    /** `move_child_to_mergeables`: `remove_child`, then the child joins the
        mergeables of the merger stored under `merger`; no other merger
        changes. */
    method MoveChildToMergeables(merger: DexType, child: DexType)
      requires merger in mergers
      requires child in parents && parents[child] in hierarchy && child in hierarchy[parents[child]]
      modifies this
      ensures hierarchy == WithoutChild(old(hierarchy), old(parents)[child], child)
      ensures mergers == old(mergers)[merger := old(mergers)[merger].(mergeables := old(mergers)[merger].mergeables + {child})]
      ensures parents == old(parents)
      ensures spec == old(spec) && roots == old(roots) && classToIntfs == old(classToIntfs)
      ensures old(Valid()) ==> Valid()
      ensures NoEmptyChildSets(old(hierarchy)) ==> NoEmptyChildSets(hierarchy)
    {
      RemoveChild(child);
      var m := mergers[merger];
      mergers := mergers[merger := m.(mergeables := m.mergeables + {child})];
    }

    /** `walk_hierarchy_helper`: the mergers the walker is called with, in
        call order. `rank` witnesses that the hierarchy has no cycle. */
    method WalkHierarchyHelper(t: DexType, ghost rank: DexType -> nat) returns (visited: seq<MergerType>)
      requires Ranked(hierarchy, rank)
      ensures visited == WalkBelow(hierarchy, mergers, t, rank)
      decreases rank(t)
    {
      visited := [];
      if t !in hierarchy {
        return;
      }
      var children := hierarchy[t];
      var rest := children;
      while rest != {}
        invariant rest <= children
        invariant visited + WalkChildren(hierarchy, mergers, rest, rank, rank(t))
               == WalkChildren(hierarchy, mergers, children, rank, rank(t))
        decreases |rest|
      {
        LeastExists(rest);
        var c :| IsLeast(c, rest);
        WalkChildrenUnfold(hierarchy, mergers, rest, rank, rank(t), c);
        ghost var whole := WalkChildren(hierarchy, mergers, rest, rank, rank(t));
        ghost var tail := WalkChildren(hierarchy, mergers, rest - {c}, rank, rank(t));
        ghost var v := Visit(mergers, c);
        var before := visited;
        if c in mergers {
          var merger := mergers[c];
          if !merger.dummy {
            visited := visited + [merger];
          }
        }
        assert visited == before + v;
        var below := WalkHierarchyHelper(c, rank);
        visited := visited + below;
        assert whole == v + below + tail;
        ConcatAssoc(before, v, below, tail);
        rest := rest - {c};
      }
    }

    /** `walk_hierarchy`: each root merger (unless dummy) and then what
        lies below it, root after root. */
    method WalkHierarchy(ghost rank: DexType -> nat) returns (visited: seq<MergerType>)
      requires Ranked(hierarchy, rank)
      ensures visited == WalkRoots(roots, hierarchy, mergers, rank)
    {
      visited := [];
      for k := 0 to |roots|
        invariant visited == WalkRoots(roots[..k], hierarchy, mergers, rank)
      {
        assert roots[..k + 1][..k] == roots[..k];
        var root := roots[k];
        var before := visited;
        if root in mergers && !mergers[root].dummy {
          visited := visited + [mergers[root]];
        }
        assert visited == before + Visit(mergers, root);
        var below := WalkHierarchyHelper(root, rank);
        visited := visited + below;
      }
      assert roots[..|roots|] == roots;
    }
  }

  // ----- The walk as a specification -----

  /** Every child ranks strictly below its parent, so the hierarchy has no cycle. */
  ghost predicate Ranked(h: map<DexType, set<DexType>>, rank: DexType -> nat) {
    forall p, c :: p in h && c in h[p] ==> rank(c) < rank(p)
  }

  /** `m` is the least element of `s`. */
  predicate IsLeast(m: DexType, s: set<DexType>) {
    m in s && forall x :: x in s ==> m <= x
  }

  lemma {:induction false} LeastExists(s: set<DexType>)
    requires s != {}
    ensures exists m :: IsLeast(m, s)
  {
    var y :| y in s;
    var rest := s - {y};
    if rest == {} {
      assert s == {y};
      assert IsLeast(y, s);
    } else {
      LeastExists(rest);
      var m :| IsLeast(m, rest);
      assert s == rest + {y};
      if y < m {
        assert IsLeast(y, s);
      } else {
        assert IsLeast(m, s);
      }
    }
  }

  /** The first element of a `TypeSet` in iteration order. */
  ghost function Least(s: set<DexType>): (m: DexType)
    requires s != {}
    ensures IsLeast(m, s)
  {
    LeastExists(s);
    var m :| IsLeast(m, s); m
  }

  /** The walker call for one type: only for a non-dummy merger. */
  ghost function Visit(mergers: map<DexType, MergerType>, t: DexType): seq<MergerType> {
    if t in mergers && !mergers[t].dummy then [mergers[t]] else []
  }

  ghost function WalkBelow(h: map<DexType, set<DexType>>, mergers: map<DexType, MergerType>,
                           t: DexType, rank: DexType -> nat): seq<MergerType>
    requires Ranked(h, rank)
    decreases rank(t), 1, 0
  {
    if t in h then WalkChildren(h, mergers, h[t], rank, rank(t)) else []
  }

  /** The children in ascending order, each visited and then walked
      below, whether or not it has a merger and whether or not it is a
      dummy. */
  ghost function WalkChildren(h: map<DexType, set<DexType>>, mergers: map<DexType, MergerType>,
                              cs: set<DexType>, rank: DexType -> nat, bound: nat): seq<MergerType>
    requires Ranked(h, rank)
    requires forall c :: c in cs ==> rank(c) < bound
    decreases bound, 0, |cs|
  {
    if cs == {} then []
    else
      var c := Least(cs);
      Visit(mergers, c) + WalkBelow(h, mergers, c, rank) + WalkChildren(h, mergers, cs - {c}, rank, bound)
  }

  /** Splitting off the first child in iteration order. */
  lemma WalkChildrenUnfold(h: map<DexType, set<DexType>>, mergers: map<DexType, MergerType>,
                           cs: set<DexType>, rank: DexType -> nat, bound: nat, c: DexType)
    requires Ranked(h, rank)
    requires forall x :: x in cs ==> rank(x) < bound
    requires IsLeast(c, cs)
    ensures WalkChildren(h, mergers, cs, rank, bound)
         == Visit(mergers, c) + WalkBelow(h, mergers, c, rank) + WalkChildren(h, mergers, cs - {c}, rank, bound)
  {
    assert c == Least(cs);
  }

  ghost function WalkRoots(roots: seq<DexType>, h: map<DexType, set<DexType>>,
                           mergers: map<DexType, MergerType>, rank: DexType -> nat): seq<MergerType>
    requires Ranked(h, rank)
    decreases |roots|
  {
    if |roots| == 0 then []
    else
      var r := roots[|roots| - 1];
      WalkRoots(roots[..|roots| - 1], h, mergers, rank) + Visit(mergers, r) + WalkBelow(h, mergers, r, rank)
  }

  /** All types strictly below `t`. */
  ghost function Descendants(h: map<DexType, set<DexType>>, t: DexType, rank: DexType -> nat): set<DexType>
    requires Ranked(h, rank)
    decreases rank(t), 1
  {
    if t in h then ChildrenAndBelow(h, h[t], rank, rank(t)) else {}
  }

  /** The types of `cs` and all types below them. */
  ghost function ChildrenAndBelow(h: map<DexType, set<DexType>>, cs: set<DexType>, rank: DexType -> nat, bound: nat): set<DexType>
    requires Ranked(h, rank)
    requires forall c :: c in cs ==> rank(c) < bound
    decreases bound, 0
  {
    set c, d | c in cs && d in {c} + Descendants(h, c, rank) :: d
  }

  /** The types that are roots or lie below one. */
  ghost function Reachable(roots: seq<DexType>, h: map<DexType, set<DexType>>, rank: DexType -> nat): set<DexType>
    requires Ranked(h, rank)
  {
    set k, d | 0 <= k < |roots| && d in {roots[k]} + Descendants(h, roots[k], rank) :: d
  }

  /** `m` is what the walker is called with for its own type. */
  ghost predicate Walked(mergers: map<DexType, MergerType>, m: MergerType) {
    m.dexType in mergers && mergers[m.dexType] == m && !m.dummy
  }

  lemma VisitMembers(mergers: map<DexType, MergerType>, c: DexType)
    requires Keyed(mergers)
    ensures forall m :: m in Visit(mergers, c) <==> m.dexType == c && Walked(mergers, m)
  {
  }

  lemma {:induction false} WalkChildrenMembers(h: map<DexType, set<DexType>>, mergers: map<DexType, MergerType>,
                                               cs: set<DexType>, rank: DexType -> nat, bound: nat)
    requires Ranked(h, rank) && Keyed(mergers)
    requires forall c :: c in cs ==> rank(c) < bound
    ensures forall m :: m in WalkChildren(h, mergers, cs, rank, bound)
                        <==> m.dexType in ChildrenAndBelow(h, cs, rank, bound) && Walked(mergers, m)
    decreases bound, 0, |cs|
  {
    if cs != {} {
      var c := Least(cs);
      var rest := cs - {c};
      VisitMembers(mergers, c);
      WalkBelowMembers(h, mergers, c, rank);
      WalkChildrenMembers(h, mergers, rest, rank, bound);
      ChildrenAndBelowSplit(h, cs, rank, bound, c);
      var a, b, w := Visit(mergers, c), WalkBelow(h, mergers, c, rank), WalkChildren(h, mergers, rest, rank, bound);
      assert WalkChildren(h, mergers, cs, rank, bound) == a + b + w;
      forall m ensures m in a + b + w <==> m in a || m in b || m in w {
      }
    }
  }

  /** Splitting one child and what lies below it off a set of children. */
  lemma ChildrenAndBelowSplit(h: map<DexType, set<DexType>>, cs: set<DexType>, rank: DexType -> nat, bound: nat, c: DexType)
    requires Ranked(h, rank)
    requires forall c :: c in cs ==> rank(c) < bound
    requires c in cs
    ensures ChildrenAndBelow(h, cs, rank, bound) == {c} + Descendants(h, c, rank) + ChildrenAndBelow(h, cs - {c}, rank, bound)
  {
  }

  lemma {:induction false} WalkBelowMembers(h: map<DexType, set<DexType>>, mergers: map<DexType, MergerType>,
                                            t: DexType, rank: DexType -> nat)
    requires Ranked(h, rank) && Keyed(mergers)
    ensures forall m :: m in WalkBelow(h, mergers, t, rank) <==> m.dexType in Descendants(h, t, rank) && Walked(mergers, m)
    decreases rank(t), 1, 0
  {
    if t in h {
      WalkChildrenMembers(h, mergers, h[t], rank, rank(t));
    }
  }

  /** The walk is sound and complete: the walker is called exactly with the
      non-dummy mergers of the roots and of every type below a root, also
      below dummy mergers and below types that have no merger. */
  lemma {:induction false} WalkRootsMembers(roots: seq<DexType>, h: map<DexType, set<DexType>>,
                                            mergers: map<DexType, MergerType>, rank: DexType -> nat)
    requires Ranked(h, rank) && Keyed(mergers)
    ensures forall m :: m in WalkRoots(roots, h, mergers, rank) <==> m.dexType in Reachable(roots, h, rank) && Walked(mergers, m)
    decreases |roots|
  {
    if |roots| > 0 {
      var n := |roots| - 1;
      var r := roots[n];
      WalkRootsMembers(roots[..n], h, mergers, rank);
      VisitMembers(mergers, r);
      WalkBelowMembers(h, mergers, r, rank);
      assert Reachable(roots, h, rank) == Reachable(roots[..n], h, rank) + {r} + Descendants(h, r, rank) by {
        forall d | d in Reachable(roots, h, rank)
          ensures d in Reachable(roots[..n], h, rank) + {r} + Descendants(h, r, rank)
        {
          var k :| 0 <= k < |roots| && d in {roots[k]} + Descendants(h, roots[k], rank);
          if k < n {
            assert roots[..n][k] == roots[k];
          }
        }
        forall d | d in Reachable(roots[..n], h, rank)
          ensures d in Reachable(roots, h, rank)
        {
          var k :| 0 <= k < n && d in {roots[..n][k]} + Descendants(h, roots[..n][k], rank);
          assert roots[..n][k] == roots[k];
        }
        forall d | d in {r} + Descendants(h, r, rank)
          ensures d in Reachable(roots, h, rank)
        {
          assert 0 <= n < |roots| && d in {roots[n]} + Descendants(h, roots[n], rank);
        }
      }
    }
  }

  /** The walker never sees a dummy merger. */
  lemma WalkRootsSkipsDummies(roots: seq<DexType>, h: map<DexType, set<DexType>>,
                              mergers: map<DexType, MergerType>, rank: DexType -> nat)
    requires Ranked(h, rank) && Keyed(mergers)
    ensures forall m :: m in WalkRoots(roots, h, mergers, rank) ==> !m.dummy
  {
    WalkRootsMembers(roots, h, mergers, rank);
  }

  /** The roots are walked in the order of `roots`: the walk of a
      concatenation is the concatenation of the walks. */
  lemma WalkRootsLast(roots: seq<DexType>, h: map<DexType, set<DexType>>,
                      mergers: map<DexType, MergerType>, rank: DexType -> nat)
    requires Ranked(h, rank) && |roots| > 0
    ensures var r := roots[|roots| - 1];
            WalkRoots(roots, h, mergers, rank)
            == WalkRoots(roots[..|roots| - 1], h, mergers, rank) + (Visit(mergers, r) + WalkBelow(h, mergers, r, rank))
  {
  }

  lemma {:induction false} WalkRootsAppend(a: seq<DexType>, b: seq<DexType>, h: map<DexType, set<DexType>>,
                                           mergers: map<DexType, MergerType>, rank: DexType -> nat)
    requires Ranked(h, rank)
    ensures WalkRoots(a + b, h, mergers, rank) == WalkRoots(a, h, mergers, rank) + WalkRoots(b, h, mergers, rank)
    decreases |b|
  {
    if |b| == 0 {
      assert a + b == a;
    } else {
      var n := |b| - 1;
      var r := b[n];
      ghost var piece := Visit(mergers, r) + WalkBelow(h, mergers, r, rank);
      assert WalkRoots(a + b, h, mergers, rank) == WalkRoots(a + b[..n], h, mergers, rank) + piece by {
        assert (a + b)[..|a + b| - 1] == a + b[..n];
        assert (a + b)[|a + b| - 1] == r;
        WalkRootsLast(a + b, h, mergers, rank);
      }
      assert WalkRoots(b, h, mergers, rank) == WalkRoots(b[..n], h, mergers, rank) + piece by {
        WalkRootsLast(b, h, mergers, rank);
      }
      WalkRootsAppend(a, b[..n], h, mergers, rank);
      ConcatAssoc3(WalkRoots(a, h, mergers, rank), WalkRoots(b[..n], h, mergers, rank), piece);
    }
  }

  lemma ConcatAssoc3<T>(a: seq<T>, b: seq<T>, c: seq<T>)
    ensures a + b + c == a + (b + c)
  {
  }

  lemma ConcatAssoc<T>(a: seq<T>, b: seq<T>, c: seq<T>, d: seq<T>)
    ensures a + b + c + d == a + (b + c + d)
  {
  }

  // ----- Pre-order -----

  /** `x` occurs in `s` starting at index `j`. */
  predicate SegmentAt<T(==)>(s: seq<T>, j: nat, x: seq<T>) {
    j + |x| <= |s| && s[j..j + |x|] == x
  }

  lemma SegmentShift<T>(a: seq<T>, b: seq<T>, c: seq<T>, j: nat, x: seq<T>)
    requires SegmentAt(b, j, x)
    ensures SegmentAt(a + b + c, |a| + j, x)
  {
    var s := a + b + c;
    assert s[|a| + j..|a| + j + |x|] == b[j..j + |x|];
  }

  /** The merger at index `i` is directly followed by the walk below its type. */
  ghost predicate PreOrderAt(h: map<DexType, set<DexType>>, mergers: map<DexType, MergerType>,
                             trace: seq<MergerType>, i: nat, rank: DexType -> nat)
    requires Ranked(h, rank)
    requires i < |trace|
  {
    SegmentAt(trace, i + 1, WalkBelow(h, mergers, trace[i].dexType, rank))
  }

  /** A walk is in pre-order when every merger is directly followed by the
      walk below its own type. */
  ghost predicate PreOrder(h: map<DexType, set<DexType>>, mergers: map<DexType, MergerType>,
                           trace: seq<MergerType>, rank: DexType -> nat)
    requires Ranked(h, rank)
  {
    forall i :: 0 <= i < |trace| ==> PreOrderAt(h, mergers, trace, i, rank)
  }

  lemma PreOrderAtShift(h: map<DexType, set<DexType>>, mergers: map<DexType, MergerType>,
                        a: seq<MergerType>, b: seq<MergerType>, c: seq<MergerType>, j: nat, rank: DexType -> nat)
    requires Ranked(h, rank)
    requires j < |b| && PreOrderAt(h, mergers, b, j, rank)
    ensures PreOrderAt(h, mergers, a + b + c, |a| + j, rank)
  {
    assert (a + b + c)[|a| + j] == b[j];
    SegmentShift(a, b, c, j + 1, WalkBelow(h, mergers, b[j].dexType, rank));
  }

  /** Two pre-order walks one after the other. */
  lemma PreOrderConcat(h: map<DexType, set<DexType>>, mergers: map<DexType, MergerType>,
                       x: seq<MergerType>, y: seq<MergerType>, rank: DexType -> nat)
    requires Ranked(h, rank)
    requires PreOrder(h, mergers, x, rank) && PreOrder(h, mergers, y, rank)
    ensures PreOrder(h, mergers, x + y, rank)
  {
    forall i | 0 <= i < |x + y|
      ensures PreOrderAt(h, mergers, x + y, i, rank)
    {
      if i < |x| {
        PreOrderAtShift(h, mergers, [], x, y, i, rank);
        assert [] + x + y == x + y;
      } else {
        PreOrderAtShift(h, mergers, x, y, [], i - |x|, rank);
        assert x + y + [] == x + y;
      }
    }
  }

  /** The visit of `c` followed by the walk below `c`. */
  lemma PreOrderVisit(h: map<DexType, set<DexType>>, mergers: map<DexType, MergerType>,
                      c: DexType, rank: DexType -> nat)
    requires Ranked(h, rank) && Keyed(mergers)
    requires PreOrder(h, mergers, WalkBelow(h, mergers, c, rank), rank)
    ensures PreOrder(h, mergers, Visit(mergers, c) + WalkBelow(h, mergers, c, rank), rank)
  {
    var v := Visit(mergers, c);
    var below := WalkBelow(h, mergers, c, rank);
    if v != [] {
      var s := v + below;
      forall i | 0 <= i < |s|
        ensures PreOrderAt(h, mergers, s, i, rank)
      {
        if i == 0 {
          assert s[0].dexType == c;
          assert s[1..1 + |below|] == below;
        } else {
          PreOrderAtShift(h, mergers, v, below, [], i - 1, rank);
          assert v + below + [] == s;
        }
      }
    } else {
      assert v + below == below;
    }
  }

  /** Concatenating a visit, the walk below it and a pre-order walk. */
  lemma PreOrderStep(h: map<DexType, set<DexType>>, mergers: map<DexType, MergerType>,
                     front: seq<MergerType>, c: DexType, back: seq<MergerType>, rank: DexType -> nat)
    requires Ranked(h, rank) && Keyed(mergers)
    requires PreOrder(h, mergers, front, rank)
    requires PreOrder(h, mergers, WalkBelow(h, mergers, c, rank), rank)
    requires PreOrder(h, mergers, back, rank)
    ensures PreOrder(h, mergers, front + Visit(mergers, c) + WalkBelow(h, mergers, c, rank) + back, rank)
  {
    var v := Visit(mergers, c);
    var below := WalkBelow(h, mergers, c, rank);
    PreOrderVisit(h, mergers, c, rank);
    PreOrderConcat(h, mergers, v + below, back, rank);
    PreOrderConcat(h, mergers, front, v + below + back, rank);
    ConcatAssoc(front, v, below, back);
  }

  lemma {:induction false} WalkChildrenPreOrder(h: map<DexType, set<DexType>>, mergers: map<DexType, MergerType>,
                                                cs: set<DexType>, rank: DexType -> nat, bound: nat)
    requires Ranked(h, rank) && Keyed(mergers)
    requires forall c :: c in cs ==> rank(c) < bound
    ensures PreOrder(h, mergers, WalkChildren(h, mergers, cs, rank, bound), rank)
    decreases bound, 0, |cs|
  {
    if cs != {} {
      var c := Least(cs);
      WalkBelowPreOrder(h, mergers, c, rank);
      WalkChildrenPreOrder(h, mergers, cs - {c}, rank, bound);
      PreOrderStep(h, mergers, [], c, WalkChildren(h, mergers, cs - {c}, rank, bound), rank);
      assert [] + Visit(mergers, c) == Visit(mergers, c);
    }
  }

  lemma {:induction false} WalkBelowPreOrder(h: map<DexType, set<DexType>>, mergers: map<DexType, MergerType>,
                                             t: DexType, rank: DexType -> nat)
    requires Ranked(h, rank) && Keyed(mergers)
    ensures PreOrder(h, mergers, WalkBelow(h, mergers, t, rank), rank)
    decreases rank(t), 1, 0
  {
    if t in h {
      WalkChildrenPreOrder(h, mergers, h[t], rank, rank(t));
    }
  }

  /** Every merger the walker is called with is followed directly by the
      walk below its type: each merger comes before its descendants. */
  lemma {:induction false} WalkRootsPreOrder(roots: seq<DexType>, h: map<DexType, set<DexType>>,
                                             mergers: map<DexType, MergerType>, rank: DexType -> nat)
    requires Ranked(h, rank) && Keyed(mergers)
    ensures PreOrder(h, mergers, WalkRoots(roots, h, mergers, rank), rank)
    decreases |roots|
  {
    if |roots| > 0 {
      var n := |roots| - 1;
      WalkRootsPreOrder(roots[..n], h, mergers, rank);
      WalkBelowPreOrder(h, mergers, roots[n], rank);
      PreOrderStep(h, mergers, WalkRoots(roots[..n], h, mergers, rank), roots[n], [], rank);
      assert WalkRoots(roots[..n], h, mergers, rank) + Visit(mergers, roots[n]) + WalkBelow(h, mergers, roots[n], rank) + []
          == WalkRoots(roots, h, mergers, rank);
    }
  }
}
