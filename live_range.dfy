/** Symbolic register allocation over sets of definitions
    (service/dataflow/LiveRange.cpp): the register mapper, the merging of
    definitions that share a use, and use equality. */
module LiveRange {

  /** `live_range::Use`: an instruction and the index of one of its sources. */
  datatype Use<I> = Use(insn: I, srcIndex: nat)

  /** `Use::operator==`. */
  function UseEquals<I(==)>(a: Use<I>, b: Use<I>): (r: bool)
    ensures r <==> a == b
  {
    a.insn == b.insn && a.srcIndex == b.srcIndex
  }

  /** `SymRegMapper`: hands out one symbolic register per definition (in
      practice per representative of a set of definitions). In
      width-aware mode a wide definition takes two consecutive registers.
      `destIsWide` stands for `dest_is_wide()` of the defining instruction. */
  class SymRegMapper<D(==)> {
    const widthAware: bool
    const destIsWide: D -> bool
    var nextSymreg: nat
    var defToReg: map<D, nat>

    /** The number of registers a definition occupies. */
    function Width(d: D): (w: nat)
      ensures w == 1 || w == 2
      ensures w == 2 <==> widthAware && destIsWide(d)
    {
      if widthAware && destIsWide(d) then 2 else 1
    }

    /** The registers `[r, r + Width(d))` of `d` and `[s, s + Width(e))` of `e` do not overlap. */
    predicate Apart(d: D, e: D)
      reads this
      requires d in defToReg && e in defToReg
    {
      defToReg[d] + Width(d) <= defToReg[e] || defToReg[e] + Width(e) <= defToReg[d]
    }

    /** Every assigned register range lies below the next free register,
        and the ranges of distinct definitions are disjoint. */
    ghost predicate Valid()
      reads this
    {
      (forall d :: d in defToReg ==> defToReg[d] + Width(d) <= nextSymreg)
      && (forall d, e :: d in defToReg && e in defToReg && d != e ==> Apart(d, e))
    }

    constructor(widthAware: bool, destIsWide: D -> bool)
      ensures Valid()
      ensures this.widthAware == widthAware && this.destIsWide == destIsWide
      ensures nextSymreg == 0 && defToReg == map[]
    {
      this.widthAware := widthAware;
      this.destIsWide := destIsWide;
      nextSymreg := 0;
      defToReg := map[];
    }

    /** `make`: a known definition keeps its register and nothing changes;
        a fresh one receives the next free register, which then advances
        by the definition's width. */
    method Make(d: D) returns (r: nat)
      requires Valid()
      modifies this
      ensures Valid()
      ensures d in defToReg && r == defToReg[d]
      ensures d in old(defToReg) ==> r == old(defToReg)[d] && defToReg == old(defToReg) && nextSymreg == old(nextSymreg)
      ensures d !in old(defToReg) ==>
                r == old(nextSymreg) && defToReg == old(defToReg)[d := r] && nextSymreg == old(nextSymreg) + Width(d)
    {
      if d !in defToReg {
        if widthAware {
          defToReg := defToReg[d := nextSymreg];
          nextSymreg := nextSymreg + (if destIsWide(d) then 2 else 1);
        } else {
          defToReg := defToReg[d := nextSymreg];
          nextSymreg := nextSymreg + 1;
        }
      }
      r := defToReg[d];
    }

    /** `at`: the register `make` gave `d`; `d` must have been made
        (`unordered_map::at` throws otherwise). */
    function At(d: D): (r: nat)
      reads this
      requires Valid() && d in defToReg
      ensures r + Width(d) <= RegsSize()
      ensures forall e :: e in defToReg && e != d ==> defToReg[e] != r
    {
      defToReg[d]
    }

    /** `regs_size`: one past the highest register handed out, counting
        the upper half of a wide definition. */
    function RegsSize(): (n: nat)
      reads this
      requires Valid()
      ensures forall d :: d in defToReg ==> defToReg[d] + Width(d) <= n
    {
      nextSymreg
    }
  }

  /** Making the same definition twice: the second call returns the same
      register and changes nothing. */
  method MakeIsIdempotent<D(==)>(m: SymRegMapper<D>, d: D) returns (r1: nat, r2: nat)
    requires m.Valid()
    modifies m
    ensures r1 == r2
    ensures m.Valid() && d in m.defToReg && m.At(d) == r1
  {
    r1 := m.Make(d);
    ghost var next, regs := m.nextSymreg, m.defToReg;
    r2 := m.Make(d);
    assert m.nextSymreg == next && m.defToReg == regs;
  }

  /** Distinct definitions made by one mapper get distinct registers, and
      in width-aware mode no definition gets the upper half of a wide one. */
  lemma RegistersDistinct<D>(m: SymRegMapper<D>, d: D, e: D)
    requires m.Valid() && d in m.defToReg && e in m.defToReg && d != e
    ensures m.defToReg[d] != m.defToReg[e]
    ensures m.widthAware && m.destIsWide(d) ==> m.defToReg[e] != m.defToReg[d] + 1
  {
    assert m.Apart(d, e);
  }

  // ----- Sets of definitions -----

  /** Disjoint sets of definitions as an equivalence relation: `rep`
      names the set each definition belongs to, and two definitions share
      a set when their names agree. The names are abstract; the library's
      parent and rank maps are not modelled. */
  /** `a` and `b` are in the same set. */
  predicate SameIn<D(==)>(rep: map<D, D>, a: D, b: D)
    requires a in rep && b in rep
  {
    rep[a] == rep[b]
  }

  /** No set straddles the border of `s`. */
  ghost predicate ClosedIn<D>(rep: map<D, D>, s: set<D>) {
    forall a, b :: a in rep && b in rep && SameIn(rep, a, b) && a in s ==> b in s
  }

  /** The sets of `x` and `y` merged into one, which keeps the name of
      `x`'s set; the library picks the surviving root by rank, which the
      partition does not depend on. */
  function Join<D(==)>(rep: map<D, D>, x: D, y: D): (r: map<D, D>)
    requires x in rep && y in rep
    ensures r.Keys == rep.Keys
  {
    var rx, ry := rep[x], rep[y];
    map d | d in rep :: if rep[d] == ry then rx else rep[d]
  }

  /** After a join, two definitions share a set exactly when they did
      before or one was with `x` and the other with `y`. */
  lemma JoinSame<D>(rep: map<D, D>, x: D, y: D, a: D, b: D)
    requires x in rep && y in rep && a in rep && b in rep
    ensures SameIn(Join(rep, x, y), a, b) <==>
              SameIn(rep, a, b) || (SameIn(rep, a, x) && SameIn(rep, b, y)) || (SameIn(rep, a, y) && SameIn(rep, b, x))
  {
  }


  /** A family of definitions closed under the old sets and holding both
      or neither of `x` and `y` stays closed. */
  lemma JoinKeepsClosed<D>(rep: map<D, D>, x: D, y: D, s: set<D>)
    requires x in rep && y in rep
    requires ClosedIn(rep, s) && (x in s <==> y in s)
    ensures ClosedIn(Join(rep, x, y), s)
  {
    var r := Join(rep, x, y);
    forall a, b | a in r && b in r && SameIn(r, a, b) && a in s
      ensures b in s
    {
      JoinSame(rep, x, y, a, b);
    }
  }

  /** `boost::disjoint_sets` over the definitions of a method. */
  class DefSets<D(==)> {
    var rep: map<D, D>

    /** `make_set` for every definition of the method: each starts alone. */
    constructor(defs: set<D>)
      ensures rep.Keys == defs
      ensures forall a, b :: a in rep && b in rep ==> (SameIn(rep, a, b) <==> a == b)
    {
      rep := map d | d in defs :: d;
    }

    /** `union_set`. */
    method UnionSet(x: D, y: D)
      requires x in rep && y in rep
      modifies this
      ensures rep == Join(old(rep), x, y)
    {
      rep := Join(rep, x, y);
    }
  }

  /** The definitions of every chain lie in `s`, or none of them does. */
  ghost predicate Respects<I, D>(s: set<D>, chains: map<Use<I>, seq<D>>) {
    forall u, k :: u in chains && 0 <= k < |chains[u]| ==> (chains[u][k] in s <==> chains[u][0] in s)
  }

  /** Every chain's definition list is non-empty (its first element is
      dereferenced) and made into a set. */
  ghost predicate ChainsIn<I, D>(chains: map<Use<I>, seq<D>>, rep: map<D, D>) {
    forall u :: u in chains ==> |chains[u]| > 0 && forall k :: 0 <= k < |chains[u]| ==> chains[u][k] in rep
  }

  /** The sets after `unify_defs`: every chain's definitions share the set
      of the chain's first definition; sets are only merged, and only as
      far as the chains force: any family of definitions that no old set
      and no chain straddles is still not straddled. */
  ghost predicate Unified<I, D(!new)>(chains: map<Use<I>, seq<D>>, before: map<D, D>, after: map<D, D>)
    requires ChainsIn(chains, after)
  {
    && after.Keys == before.Keys
    && (forall u, k :: u in chains && 0 <= k < |chains[u]| ==> SameIn(after, chains[u][0], chains[u][k]))
    && (forall a, b :: a in before && b in before && SameIn(before, a, b) ==> SameIn(after, a, b))
    && (forall s: set<D> :: ClosedIn(before, s) && Respects(s, chains) ==> ClosedIn(after, s))
  }

  /** `before`'s sets are all contained in `after`'s. */
  ghost predicate Merges<D>(before: map<D, D>, after: map<D, D>) {
    after.Keys == before.Keys
    && forall a, b :: a in before && b in before && SameIn(before, a, b) ==> SameIn(after, a, b)
  }

  /** A join only merges: no set is split, and `x` and `y` end up together. */
  lemma JoinMerges<D>(rep: map<D, D>, x: D, y: D)
    requires x in rep && y in rep
    ensures Merges(rep, Join(rep, x, y))
    ensures SameIn(Join(rep, x, y), x, y)
  {
  }

  lemma MergesSame<D>(before: map<D, D>, after: map<D, D>, a: D, b: D)
    requires Merges(before, after) && a in before && b in before && SameIn(before, a, b)
    ensures a in after && b in after && SameIn(after, a, b)
  {
  }

  lemma MergesTransitive<D>(a: map<D, D>, b: map<D, D>, c: map<D, D>)
    requires Merges(a, b) && Merges(b, c)
    ensures Merges(a, c)
  {
  }

  /** The definitions of one chain lie in `s`, or none of them does. */
  ghost predicate RespectsChain<D>(s: set<D>, defs: seq<D>)
    requires |defs| > 0
  {
    forall k :: 0 <= k < |defs| ==> (defs[k] in s <==> defs[0] in s)
  }

  /** The inner loop of `unify_defs`: the definitions of one chain are
      joined with its first one. */
  method UnifyChain<D(==,!new)>(defs: seq<D>, defSets: DefSets<D>)
    requires |defs| > 0 && forall k :: 0 <= k < |defs| ==> defs[k] in defSets.rep
    modifies defSets
    ensures Merges(old(defSets.rep), defSets.rep)
    ensures forall k :: 0 <= k < |defs| ==> SameIn(defSets.rep, defs[0], defs[k])
    ensures forall s: set<D> :: ClosedIn(old(defSets.rep), s) && RespectsChain(s, defs) ==> ClosedIn(defSets.rep, s)
  {
    ghost var rep0 := defSets.rep;
    var first := defs[0];
    for k := 1 to |defs|
      invariant Merges(rep0, defSets.rep)
      invariant forall j :: 0 <= j < k ==> SameIn(defSets.rep, first, defs[j])
      invariant forall s: set<D> :: ClosedIn(rep0, s) && RespectsChain(s, defs) ==> ClosedIn(defSets.rep, s)
    {
      ghost var cur := defSets.rep;
      forall s: set<D> | ClosedIn(rep0, s) && RespectsChain(s, defs)
        ensures ClosedIn(Join(cur, first, defs[k]), s)
      {
        JoinKeepsClosed(cur, first, defs[k], s);
      }
      JoinMerges(cur, first, defs[k]);
      defSets.UnionSet(first, defs[k]);
      MergesTransitive(rep0, cur, defSets.rep);
      ghost var next := defSets.rep;
      forall j | 0 <= j < k + 1 ensures SameIn(next, first, defs[j]) {
        if j < k {
          MergesSame(cur, next, first, defs[j]);
        }
      }
    }
  }

  /** `unify_defs`. The chains are visited in the map's (unspecified) order. */
  method UnifyDefs<I(==), D(==,!new)>(chains: map<Use<I>, seq<D>>, defSets: DefSets<D>)
    requires ChainsIn(chains, defSets.rep)
    modifies defSets
    ensures ChainsIn(chains, defSets.rep)
    ensures Unified(chains, old(defSets.rep), defSets.rep)
  {
    ghost var rep0 := defSets.rep;
    var todo := chains.Keys;
    while todo != {}
      invariant todo <= chains.Keys
      invariant Merges(rep0, defSets.rep)
      invariant forall u, k :: u in chains && u !in todo && 0 <= k < |chains[u]| ==> SameIn(defSets.rep, chains[u][0], chains[u][k])
      invariant forall s: set<D> :: ClosedIn(rep0, s) && Respects(s, chains) ==> ClosedIn(defSets.rep, s)
      decreases |todo|
    {
      var use :| use in todo;
      ghost var cur := defSets.rep;
      UnifyChain(chains[use], defSets);
      MergesTransitive(rep0, cur, defSets.rep);
      ghost var next := defSets.rep;
      forall u, k | u in chains && u !in todo - {use} && 0 <= k < |chains[u]|
        ensures SameIn(next, chains[u][0], chains[u][k])
      {
        if u != use {
          MergesSame(cur, next, chains[u][0], chains[u][k]);
        }
      }
      forall s: set<D> | ClosedIn(rep0, s) && Respects(s, chains)
        ensures ClosedIn(defSets.rep, s)
      {
        assert ClosedIn(cur, s) && RespectsChain(s, chains[use]);
      }
      todo := todo - {use};
    }
  }
}
