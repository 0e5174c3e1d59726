/** The callee analysis of the ART profile writer pass
    (opt/art-profile-writer/ArtProfileWriterPass.cpp): which method bodies
    are "simple", which callees are worth following, how forwarding chains
    are followed, and which callees get a NeverInline annotation. */
module NeverInline {
  import opened Wrappers
  import opened Opcodes

  /** A method's control-flow graph: the opcodes of each block's
      instructions, block by block, the entry block first. */
  type Blocks = seq<seq<IROpcode>>

  // ----- is_simple -----

  /** How many load-param instructions a block starts with. */
  function LeadingLoadParams(b: seq<IROpcode>): (n: nat)
    ensures n <= |b|
    ensures forall k :: 0 <= k < n ==> IsALoadParam(b[k])
    ensures n < |b| ==> !IsALoadParam(b[n])
    decreases |b|
  {
    if |b| == 0 || !IsALoadParam(b[0]) then 0 else 1 + LeadingLoadParams(b[1..])
  }

  /** The one constant load, field read or invoke a simple body may hold. */
  predicate IsSimpleCore(op: IROpcode) {
    IsAConst(op) || IsAnIget(op) || IsAnSget(op) || IsAnInvoke(op)
  }

  /** What a simple body may hold between its load-params and its return:
      nothing, one core instruction, one move-result, or a core
      instruction followed by a move-result. */
  predicate SimpleMiddle(r: seq<IROpcode>) {
    || |r| == 0
    || (|r| == 1 && (IsSimpleCore(r[0]) || IsMoveResultAny(r[0])))
    || (|r| == 2 && IsSimpleCore(r[0]) && IsMoveResultAny(r[1]))
  }

  /** A single block whose last instruction is a return. */
  predicate SingleBlockReturn(blocks: Blocks) {
    |blocks| == 1 && |blocks[0]| > 0 && IsAReturn(blocks[0][|blocks[0]| - 1])
  }

  /** The shape `is_simple` accepts. */
  predicate SimpleShape(blocks: Blocks) {
    SingleBlockReturn(blocks) &&
    var b := blocks[0];
    var n := LeadingLoadParams(b);
    n < |b| && SimpleMiddle(b[n..|b| - 1])
  }

  /** Where `is_simple` records an invoke: at the first instruction after
      the load-params when that is an invoke, whether or not the body
      turns out simple, and only once the single-block and return tests
      have passed. */
  function RecordedInvoke(blocks: Blocks): Option<nat> {
    if SingleBlockReturn(blocks) && LeadingLoadParams(blocks[0]) < |blocks[0]|
       && IsAnInvoke(blocks[0][LeadingLoadParams(blocks[0])])
    then Some(LeadingLoadParams(blocks[0]))
    else None
  }

  /** `is_simple`, with the instruction it reports through `invoke_insn`
      given as an index into the single block. */
  method IsSimple(blocks: Blocks) returns (simple: bool, invoke: Option<nat>)
    ensures simple <==> SimpleShape(blocks)
    ensures invoke == RecordedInvoke(blocks)
    ensures invoke.Some? ==> invoke.value < |blocks[0]| && IsAnInvoke(blocks[0][invoke.value])
  {
    invoke := None;
    if |blocks| != 1 {
      return false, None;
    }
    var b := blocks[0];
    if |b| == 0 || !IsAReturn(b[|b| - 1]) {
      return false, None;
    }
    var last := |b| - 1;
    var it := 0;
    while IsALoadParam(b[it])
      invariant 0 <= it <= last
      invariant forall k :: 0 <= k < it ==> IsALoadParam(b[k])
      decreases last - it
    {
      it := it + 1;
    }
    LeadingLoadParamsIsFirstOther(b, it);
    var start := it;
    if IsAConst(b[it]) {
      it := it + 1;
    } else if IsAnIget(b[it]) || IsAnSget(b[it]) {
      it := it + 1;
    } else if IsAnInvoke(b[it]) {
      invoke := Some(it);
      it := it + 1;
    }
    var mid := it;
    if IsMoveResultAny(b[it]) {
      it := it + 1;
    }
    simple := it == last;
    ScanDecidesShape(b, start, mid, it);
  }

  /** The scan after the load-params: `mid` is past the optional core
      instruction, `end` past the optional move-result. The body is simple
      exactly when that lands on the return. */
  lemma ScanDecidesShape(b: seq<IROpcode>, start: nat, mid: nat, end: nat)
    requires start < |b| && IsAReturn(b[|b| - 1])
    requires mid == start + (if IsSimpleCore(b[start]) then 1 else 0)
    requires mid < |b|
    requires end == mid + (if IsMoveResultAny(b[mid]) then 1 else 0)
    ensures end <= |b| - 1
    ensures SimpleMiddle(b[start..|b| - 1]) <==> end == |b| - 1
  {
    var r := b[start..|b| - 1];
    if |r| >= 1 { assert r[0] == b[start]; }
    if |r| >= 2 { assert r[1] == b[start + 1]; }
  }

  /** The leading load-params end at the first instruction that is not one. */
  lemma LeadingLoadParamsIsFirstOther(b: seq<IROpcode>, n: nat)
    requires n < |b| && !IsALoadParam(b[n])
    requires forall k :: 0 <= k < n ==> IsALoadParam(b[k])
    ensures LeadingLoadParams(b) == n
  {
  }

  /** An independent reading of the shape: some split of the single block
      into load-params, at most one core instruction, at most one
      move-result and the final return. */
  lemma {:induction false} SimpleShapeAsSplit(blocks: Blocks)
    ensures SimpleShape(blocks) <==>
              SingleBlockReturn(blocks) &&
              exists n :: 0 <= n < |blocks[0]| && !IsALoadParam(blocks[0][n]) &&
                          (forall k :: 0 <= k < n ==> IsALoadParam(blocks[0][k])) &&
                          SimpleMiddle(blocks[0][n..|blocks[0]| - 1])
  {
    if SingleBlockReturn(blocks) {
      var b := blocks[0];
      var n := LeadingLoadParams(b);
      if n == |b| {
        assert IsALoadParam(b[|b| - 1]);
      }
      forall m | 0 <= m < |b| && !IsALoadParam(b[m]) && (forall k :: 0 <= k < m ==> IsALoadParam(b[k]))
        ensures m == n
      {
        LeadingLoadParamsIsFirstOther(b, m);
      }
    }
  }

  /** A simple body has at most three instructions after its load-params. */
  lemma SimpleBodyIsShort(blocks: Blocks)
    requires SimpleShape(blocks)
    ensures |blocks[0]| <= LeadingLoadParams(blocks[0]) + 3
  {
  }

  /** A forwarding method and a getter are simple; only the forwarder
      records an invoke. */
  lemma SimpleExamples()
    ensures SimpleShape([[LoadParam, InvokeStatic, MoveResult, Return]])
    ensures RecordedInvoke([[LoadParam, InvokeStatic, MoveResult, Return]]) == Some(1)
    ensures SimpleShape([[LoadParamObject, IgetObject, MoveResultPseudoObject, ReturnObject]])
    ensures RecordedInvoke([[LoadParamObject, IgetObject, MoveResultPseudoObject, ReturnObject]]) == None
  {
    var f := [LoadParam, InvokeStatic, MoveResult, Return];
    LeadingLoadParamsIsFirstOther(f, 1);
    assert f[1..3] == [InvokeStatic, MoveResult];
    var g := [LoadParamObject, IgetObject, MoveResultPseudoObject, ReturnObject];
    LeadingLoadParamsIsFirstOther(g, 1);
    assert g[1..3] == [IgetObject, MoveResultPseudoObject];
  }

  /** Two constants in a row are not simple, and neither are two blocks. */
  lemma NotSimpleExamples()
    ensures !SimpleShape([[Const, Const, Return]])
    ensures !SimpleShape([[ReturnVoid], [ReturnVoid]])
  {
    var b := [Const, Const, Return];
    LeadingLoadParamsIsFirstOther(b, 0);
    assert b[0..2] == [Const, Const];
  }

  // ----- consider_callee -----

  /** What `consider_callee` asks of a resolved method: whether it has
      code, whether its class is known (`type_class` is not null) and
      external, and whether method or class are final. */
  datatype MethodFacts = MethodFacts(
    hasCode: bool, classKnown: bool, classExternal: bool,
    isVirtual: bool, isFinal: bool, classFinal: bool,
    blocks: Blocks)

  /** `consider_callee`; `None` is a null callee. */
  function ConsiderCallee(callee: Option<MethodFacts>): (r: bool)
    ensures r ==> callee.Some? && callee.value.hasCode && callee.value.classKnown && !callee.value.classExternal
    ensures r ==> !callee.value.isVirtual || callee.value.isFinal || callee.value.classFinal
    ensures (callee.Some? && callee.value.hasCode && callee.value.classKnown && !callee.value.classExternal &&
             (!callee.value.isVirtual || callee.value.isFinal || callee.value.classFinal)) ==> r
  {
    if callee.None? || !callee.value.hasCode then false
    else if !callee.value.classKnown || callee.value.classExternal then false
    else if callee.value.isVirtual && (!callee.value.isFinal && !callee.value.classFinal) then false
    else true
  }

  // ----- get_callee -----

  /** The facts of a resolved method; unresolved is null. */
  function FactsOf<M>(prog: map<M, MethodFacts>, m: Option<M>): Option<MethodFacts> {
    if m.Some? && m.value in prog then Some(prog[m.value]) else None
  }

  /** Every method `resolve` can return is in `prog`. */
  ghost predicate Closed<M(!new)>(prog: map<M, MethodFacts>, resolve: (M, nat) -> Option<M>) {
    forall c, site :: resolve(c, site).Some? ==> resolve(c, site).value in prog
  }

  /** A resolved method that `get_callee` follows further: one it
      considers, whose body is simple and forwards through an invoke. */
  predicate Forwards<M>(prog: map<M, MethodFacts>, m: M) {
    m in prog && ConsiderCallee(Some(prog[m])) &&
    SimpleShape(prog[m].blocks) && RecordedInvoke(prog[m].blocks).Some?
  }

  /** The invoke a forwarding method passes control on through. */
  function ForwardSite<M>(prog: map<M, MethodFacts>, m: M): nat
    requires Forwards(prog, m)
  {
    RecordedInvoke(prog[m].blocks).value
  }

  /** The loop of `get_callee` as written, run for at most `fuel` rounds:
      `None` when it is still going. `resolve(caller, site)` stands for
      `resolve_invoke_method` on the invoke at `site` of `caller`. */
  function GetCalleeAsWritten<M>(prog: map<M, MethodFacts>, resolve: (M, nat) -> Option<M>,
                                 caller: M, site: nat, fuel: nat): Option<Option<M>>
    decreases fuel
  {
    if fuel == 0 then None
    else
      var callee := resolve(caller, site);
      if !ConsiderCallee(FactsOf(prog, callee)) then Some(None)
      else if Forwards(prog, callee.value) then
        GetCalleeAsWritten(prog, resolve, callee.value, ForwardSite(prog, callee.value), fuel - 1)
      else Some(callee)
  }

  /** Once the loop has ended, more rounds change nothing. */
  lemma {:induction false} AsWrittenSettles<M>(prog: map<M, MethodFacts>, resolve: (M, nat) -> Option<M>,
                                               caller: M, site: nat, fuel: nat, more: nat)
    requires GetCalleeAsWritten(prog, resolve, caller, site, fuel).Some?
    ensures GetCalleeAsWritten(prog, resolve, caller, site, fuel + more)
            == GetCalleeAsWritten(prog, resolve, caller, site, fuel)
    decreases fuel
  {
    var callee := resolve(caller, site);
    if ConsiderCallee(FactsOf(prog, callee)) && Forwards(prog, callee.value) {
      AsWrittenSettles(prog, resolve, callee.value, ForwardSite(prog, callee.value), fuel - 1, more);
    }
  }

  /** A loop that comes back to where it was after `p` rounds never ends. */
  lemma {:induction false} AsWrittenPeriodic<M>(prog: map<M, MethodFacts>, resolve: (M, nat) -> Option<M>,
                                                caller: M, site: nat, p: nat, n: nat)
    requires p > 0
    requires forall f: nat :: GetCalleeAsWritten(prog, resolve, caller, site, f + p)
                              == GetCalleeAsWritten(prog, resolve, caller, site, f)
    ensures GetCalleeAsWritten(prog, resolve, caller, site, n * p).None?
    decreases n
  {
    if n > 0 {
      AsWrittenPeriodic(prog, resolve, caller, site, p, n - 1);
      assert n * p == (n - 1) * p + p;
    }
  }

  /** A program with one static method whose body is `invoke-static`
      of itself and `return-void`. */
  function SelfForwarding(): map<nat, MethodFacts> {
    map[0 := MethodFacts(true, true, false, false, false, false, [[InvokeStatic, ReturnVoid]])]
  }

  /** On that program the loop of `get_callee` never ends. */
  lemma {:induction false} SelfForwardingNeverReturns(fuel: nat)
    ensures GetCalleeAsWritten(SelfForwarding(), (c: nat, s: nat) => Some(0), 0, 0, fuel).None?
    decreases fuel
  {
    if fuel > 0 {
      var blocks := [[InvokeStatic, ReturnVoid]];
      assert LeadingLoadParams(blocks[0]) == 0;
      assert blocks[0][0..1] == [InvokeStatic];
      assert Forwards(SelfForwarding(), 0) && ForwardSite(SelfForwarding(), 0) == 0;
      SelfForwardingNeverReturns(fuel - 1);
    }
  }

  /** `get_callee` with the cycle check it is missing: following stops at
      the first method met a second time, which is then the result. */
  function GetCallee<M(!new)>(prog: map<M, MethodFacts>, resolve: (M, nat) -> Option<M>,
                              caller: M, site: nat, visited: set<M>): (r: Option<M>)
    requires Closed(prog, resolve) && visited <= prog.Keys
    ensures r.Some? ==> r.value in prog && ConsiderCallee(FactsOf(prog, r))
    decreases |prog.Keys - visited|
  {
    var callee := resolve(caller, site);
    if !ConsiderCallee(FactsOf(prog, callee)) then None
    else if callee.value in visited then callee
    else if Forwards(prog, callee.value) then
      assert prog.Keys - (visited + {callee.value}) < prog.Keys - visited;
      GetCallee(prog, resolve, callee.value, ForwardSite(prog, callee.value), visited + {callee.value})
    else callee
  }

  /** `k` rounds of the loop, started at the forward of `m`, bring it to
      `(caller, site)`. */
  predicate Reaches<M>(prog: map<M, MethodFacts>, resolve: (M, nat) -> Option<M>,
                       m: M, k: nat, caller: M, site: nat)
    decreases k
  {
    Forwards(prog, m) &&
    if k == 0 then m == caller && site == ForwardSite(prog, m)
    else
      var next := resolve(m, ForwardSite(prog, m));
      next.Some? && Reaches(prog, resolve, next.value, k - 1, caller, site)
  }

  /** The loop from the forward of `m` runs `k` rounds longer than from
      the place it reaches. */
  lemma {:induction false} ReachesLags<M>(prog: map<M, MethodFacts>, resolve: (M, nat) -> Option<M>,
                                          m: M, k: nat, caller: M, site: nat, f: nat)
    requires Reaches(prog, resolve, m, k, caller, site)
    ensures GetCalleeAsWritten(prog, resolve, m, ForwardSite(prog, m), f + k)
            == GetCalleeAsWritten(prog, resolve, caller, site, f)
    decreases k
  {
    if k > 0 {
      var next := resolve(m, ForwardSite(prog, m)).value;
      ReachesLags(prog, resolve, next, k - 1, caller, site, f);
      assert f + k == (f + (k - 1)) + 1;
    }
  }

  /** One more round of the loop from `(caller, site)` is one more round
      from `m`. */
  lemma {:induction false} ReachesStep<M>(prog: map<M, MethodFacts>, resolve: (M, nat) -> Option<M>,
                                          m: M, k: nat, caller: M, site: nat)
    requires Reaches(prog, resolve, m, k, caller, site)
    requires resolve(caller, site).Some? && Forwards(prog, resolve(caller, site).value)
    ensures var c := resolve(caller, site).value;
            Reaches(prog, resolve, m, k + 1, c, ForwardSite(prog, c))
    decreases k
  {
    if k > 0 {
      var next := resolve(m, ForwardSite(prog, m)).value;
      ReachesStep(prog, resolve, next, k - 1, caller, site);
    }
  }

  /** Each visited method forwards and reaches `(caller, site)`. */
  ghost predicate LeadsHere<M(!new)>(prog: map<M, MethodFacts>, resolve: (M, nat) -> Option<M>,
                                     visited: set<M>, lag: map<M, nat>, caller: M, site: nat) {
    visited == lag.Keys &&
    forall v :: v in visited ==> Reaches(prog, resolve, v, lag[v], caller, site)
  }

  /** A loop that reaches a visited method again never ends. */
  lemma LoopingBack<M(!new)>(prog: map<M, MethodFacts>, resolve: (M, nat) -> Option<M>,
                             caller: M, site: nat, visited: set<M>, lag: map<M, nat>, fuel: nat)
    requires LeadsHere(prog, resolve, visited, lag, caller, site)
    requires ConsiderCallee(FactsOf(prog, resolve(caller, site))) && resolve(caller, site).value in visited
    ensures GetCalleeAsWritten(prog, resolve, caller, site, fuel).None?
  {
    var c := resolve(caller, site).value;
    var p := lag[c] + 1;
    forall f: nat
      ensures GetCalleeAsWritten(prog, resolve, caller, site, f + p)
              == GetCalleeAsWritten(prog, resolve, caller, site, f)
    {
      LoopPeriod(prog, resolve, caller, site, c, lag[c], f);
    }
    AsWrittenPeriodic(prog, resolve, caller, site, p, fuel);
    MultipleAtLeast(fuel, p);
    if GetCalleeAsWritten(prog, resolve, caller, site, fuel).Some? {
      AsWrittenSettles(prog, resolve, caller, site, fuel, fuel * p - fuel);
    }
  }

  /** When the callee of `(caller, site)` is a method whose forward comes
      back to `(caller, site)` after `k` rounds, the loop repeats every
      `k + 1` rounds. */
  lemma LoopPeriod<M>(prog: map<M, MethodFacts>, resolve: (M, nat) -> Option<M>,
                      caller: M, site: nat, c: M, k: nat, f: nat)
    requires resolve(caller, site) == Some(c) && ConsiderCallee(FactsOf(prog, Some(c)))
    requires Reaches(prog, resolve, c, k, caller, site)
    ensures GetCalleeAsWritten(prog, resolve, caller, site, f + (k + 1))
            == GetCalleeAsWritten(prog, resolve, caller, site, f)
  {
    ReachesLags(prog, resolve, c, k, caller, site, f);
    assert Forwards(prog, c);
    assert f + (k + 1) == (f + k) + 1;
  }

  lemma {:induction false} MultipleAtLeast(n: nat, p: nat)
    requires p > 0
    ensures n * p >= n
    decreases n
  {
    if n > 0 {
      MultipleAtLeast(n - 1, p);
      assert n * p == (n - 1) * p + p;
    }
  }

  /** Following one forwarding step keeps every visited method leading
      to the current place, one round further back. */
  lemma LeadsHereStep<M(!new)>(prog: map<M, MethodFacts>, resolve: (M, nat) -> Option<M>,
                               caller: M, site: nat, visited: set<M>, lag: map<M, nat>, lag': map<M, nat>)
    requires LeadsHere(prog, resolve, visited, lag, caller, site)
    requires resolve(caller, site).Some? && Forwards(prog, resolve(caller, site).value)
    requires lag'.Keys == lag.Keys + {resolve(caller, site).value} && lag'[resolve(caller, site).value] == 0
    requires forall v :: v in lag && v != resolve(caller, site).value ==> lag'[v] == lag[v] + 1
    ensures var c := resolve(caller, site).value;
            LeadsHere(prog, resolve, visited + {c}, lag', c, ForwardSite(prog, c))
  {
    var c := resolve(caller, site).value;
    forall v | v in visited + {c}
      ensures Reaches(prog, resolve, v, lag'[v], c, ForwardSite(prog, c))
    {
      if v != c {
        ReachesStep(prog, resolve, v, lag[v], caller, site);
      }
    }
  }

  /** The lags one round later: one more for every visited method, none
      for the method just reached. */
  lemma ShiftLag<M>(lag: map<M, nat>, c: M) returns (lag': map<M, nat>)
    ensures lag'.Keys == lag.Keys + {c} && lag'[c] == 0
    ensures forall v :: v in lag && v != c ==> lag'[v] == lag[v] + 1
  {
    lag' := (map v | v in lag :: lag[v] + 1)[c := 0];
  }

  /** One round of both loops. */
  lemma OneRound<M(!new)>(prog: map<M, MethodFacts>, resolve: (M, nat) -> Option<M>,
                          caller: M, site: nat, visited: set<M>, fuel: nat)
    requires Closed(prog, resolve) && visited <= prog.Keys && fuel > 0
    ensures var callee := resolve(caller, site);
            if !ConsiderCallee(FactsOf(prog, callee)) then
              GetCallee(prog, resolve, caller, site, visited) == None &&
              GetCalleeAsWritten(prog, resolve, caller, site, fuel) == Some(None)
            else if callee.value in visited then
              GetCallee(prog, resolve, caller, site, visited) == callee
            else if Forwards(prog, callee.value) then
              GetCallee(prog, resolve, caller, site, visited)
              == GetCallee(prog, resolve, callee.value, ForwardSite(prog, callee.value), visited + {callee.value}) &&
              GetCalleeAsWritten(prog, resolve, caller, site, fuel)
              == GetCalleeAsWritten(prog, resolve, callee.value, ForwardSite(prog, callee.value), fuel - 1)
            else
              GetCallee(prog, resolve, caller, site, visited) == callee &&
              GetCalleeAsWritten(prog, resolve, caller, site, fuel) == Some(callee)
  {
  }

  /** What holds at the start of each round of both loops: every visited
      method leads here and the loop as written still ends. */
  ghost predicate Agreeing<M(!new)>(prog: map<M, MethodFacts>, resolve: (M, nat) -> Option<M>,
                                    caller: M, site: nat, visited: set<M>, lag: map<M, nat>, fuel: nat) {
    Closed(prog, resolve) && visited <= prog.Keys &&
    LeadsHere(prog, resolve, visited, lag, caller, site) &&
    GetCalleeAsWritten(prog, resolve, caller, site, fuel).Some?
  }

  lemma {:induction false} AgreeFrom<M(!new)>(prog: map<M, MethodFacts>, resolve: (M, nat) -> Option<M>,
                                              caller: M, site: nat, visited: set<M>, lag: map<M, nat>, fuel: nat)
    requires Agreeing(prog, resolve, caller, site, visited, lag, fuel)
    ensures GetCallee(prog, resolve, caller, site, visited) == GetCalleeAsWritten(prog, resolve, caller, site, fuel).value
    decreases fuel
  {
    var next, lag' := Round(prog, resolve, caller, site, visited, lag, fuel);
    if next.Some? {
      AgreeFrom(prog, resolve, next.value.0, next.value.1, visited + {next.value.0}, lag', fuel - 1);
    }
  }

  /** One round of both loops: either both end with the same callee, or
      both move on to the same method and site. */
  lemma Round<M(!new)>(prog: map<M, MethodFacts>, resolve: (M, nat) -> Option<M>,
                       caller: M, site: nat, visited: set<M>, lag: map<M, nat>, fuel: nat)
    returns (next: Option<(M, nat)>, lag': map<M, nat>)
    requires Agreeing(prog, resolve, caller, site, visited, lag, fuel)
    ensures next.None? ==>
              GetCallee(prog, resolve, caller, site, visited) == GetCalleeAsWritten(prog, resolve, caller, site, fuel).value
    ensures next.Some? ==>
              var (c, s) := next.value;
              fuel > 0 &&
              Agreeing(prog, resolve, c, s, visited + {c}, lag', fuel - 1) &&
              GetCallee(prog, resolve, caller, site, visited) == GetCallee(prog, resolve, c, s, visited + {c}) &&
              GetCalleeAsWritten(prog, resolve, caller, site, fuel) == GetCalleeAsWritten(prog, resolve, c, s, fuel - 1)
  {
    assert fuel > 0;
    var callee := resolve(caller, site);
    if ConsiderCallee(FactsOf(prog, callee)) && callee.value !in visited && Forwards(prog, callee.value) {
      var c := callee.value;
      lag' := ForwardStep(prog, resolve, caller, site, visited, lag, fuel);
      next := Some((c, ForwardSite(prog, c)));
    } else {
      LastRound(prog, resolve, caller, site, visited, lag, fuel);
      next, lag' := None, lag;
    }
  }

  /** One round of both loops when the callee forwards and is new: both
      loops move on to the callee's forwarding site, and the lags one round
      later still lead there. */
  lemma ForwardStep<M(!new)>(prog: map<M, MethodFacts>, resolve: (M, nat) -> Option<M>,
                             caller: M, site: nat, visited: set<M>, lag: map<M, nat>, fuel: nat)
    returns (lag': map<M, nat>)
    requires Agreeing(prog, resolve, caller, site, visited, lag, fuel) && fuel > 0
    requires ConsiderCallee(FactsOf(prog, resolve(caller, site)))
    requires resolve(caller, site).value !in visited && Forwards(prog, resolve(caller, site).value)
    ensures var c := resolve(caller, site).value;
            Agreeing(prog, resolve, c, ForwardSite(prog, c), visited + {c}, lag', fuel - 1) &&
            GetCallee(prog, resolve, caller, site, visited)
            == GetCallee(prog, resolve, c, ForwardSite(prog, c), visited + {c}) &&
            GetCalleeAsWritten(prog, resolve, caller, site, fuel)
            == GetCalleeAsWritten(prog, resolve, c, ForwardSite(prog, c), fuel - 1)
  {
    lag' := ShiftLag(lag, resolve(caller, site).value);
    LeadsHereStep(prog, resolve, caller, site, visited, lag, lag');
  }

  /** A round in which the loop as written stops: both loops give the
      same callee. */
  lemma LastRound<M(!new)>(prog: map<M, MethodFacts>, resolve: (M, nat) -> Option<M>,
                           caller: M, site: nat, visited: set<M>, lag: map<M, nat>, fuel: nat)
    requires Agreeing(prog, resolve, caller, site, visited, lag, fuel)
    requires var callee := resolve(caller, site);
             !(ConsiderCallee(FactsOf(prog, callee)) && callee.value !in visited && Forwards(prog, callee.value))
    ensures GetCallee(prog, resolve, caller, site, visited) == GetCalleeAsWritten(prog, resolve, caller, site, fuel).value
  {
    var callee := resolve(caller, site);
    if ConsiderCallee(FactsOf(prog, callee)) && callee.value in visited {
      LoopingBack(prog, resolve, caller, site, visited, lag, fuel);
      assert false;
    }
    assert fuel > 0;
    OneRound(prog, resolve, caller, site, visited, fuel);
  }

  /** Where the loop as written ends, the corrected one ends with the same
      callee. */
  lemma GetCalleeAgrees<M(!new)>(prog: map<M, MethodFacts>, resolve: (M, nat) -> Option<M>,
                           caller: M, site: nat, fuel: nat)
    requires Closed(prog, resolve)
    requires GetCalleeAsWritten(prog, resolve, caller, site, fuel).Some?
    ensures GetCallee(prog, resolve, caller, site, {}) == GetCalleeAsWritten(prog, resolve, caller, site, fuel).value
  {
    AgreeFrom(prog, resolve, caller, site, {}, map[], fuel);
  }

  /** On the self-forwarding program the corrected loop returns the method. */
  lemma SelfForwardingCorrected()
    ensures GetCallee(SelfForwarding(), (c: nat, s: nat) => Some(0), 0, 0, {}) == Some(0)
  {
    var blocks := [[InvokeStatic, ReturnVoid]];
    assert LeadingLoadParams(blocks[0]) == 0;
    assert blocks[0][0..1] == [InvokeStatic];
  }

  /** The corrected `get_callee` as a loop. */
  method FollowForwarders<M(==,!new)>(prog: map<M, MethodFacts>, resolve: (M, nat) -> Option<M>,
                                  caller: M, site: nat) returns (callee: Option<M>)
    requires Closed(prog, resolve)
    ensures callee == GetCallee(prog, resolve, caller, site, {})
    ensures callee.Some? ==> callee.value in prog && ConsiderCallee(FactsOf(prog, callee))
  {
    var visited: set<M> := {};
    var from, at := caller, site;
    while true
      invariant visited <= prog.Keys
      invariant GetCallee(prog, resolve, from, at, visited) == GetCallee(prog, resolve, caller, site, {})
      decreases |prog.Keys - visited|
    {
      callee := resolve(from, at);
      if !ConsiderCallee(FactsOf(prog, callee)) {
        return None;
      }
      if callee.value in visited {
        return;
      }
      var simple, invoke := IsSimple(prog[callee.value].blocks);
      if !(simple && invoke.Some?) {
        return;
      }
      assert Forwards(prog, callee.value) && ForwardSite(prog, callee.value) == invoke.value;
      assert prog.Keys - (visited + {callee.value}) < prog.Keys - visited;
      visited := visited + {callee.value};
      from, at := callee.value, invoke.value;
    }
  }

  // ----- The NeverInline decision -----

  /** What the annotation walk knows of a method. `hotCold` and `hotHot`
      say whether some hot caller reaches it while it is cold or hot;
      `codeUnits` is `estimate_code_units`. */
  datatype Candidate = Candidate(
    hasNeverInline: bool, hotCold: bool, hotHot: bool, codeUnits: nat, blocks: Blocks)

  /** The metrics a method lands in; `NotCandidate` is not counted. */
  datatype Verdict = AlreadyNeverInline | NotCandidate | TooHot | TooLarge | TooSmall | Simple | Attach

  const TooLargeCodeUnits: nat := 32
  const TooSmallCodeUnits: nat := 3

  /** The tests of the annotation walk, in their order. */
  function Classify(c: Candidate): (v: Verdict)
    ensures v == AlreadyNeverInline <==> c.hasNeverInline
    ensures v == NotCandidate <==> !c.hasNeverInline && !c.hotCold
    ensures v == TooHot <==> !c.hasNeverInline && c.hotCold && c.hotHot
    ensures v == TooLarge <==> !c.hasNeverInline && c.hotCold && !c.hotHot && c.codeUnits > TooLargeCodeUnits
    ensures v == TooSmall <==> !c.hasNeverInline && c.hotCold && !c.hotHot && c.codeUnits <= TooSmallCodeUnits
    ensures v == Simple <==> !c.hasNeverInline && c.hotCold && !c.hotHot
                             && TooSmallCodeUnits < c.codeUnits <= TooLargeCodeUnits && SimpleShape(c.blocks)
    ensures v == Attach <==> !c.hasNeverInline && c.hotCold && !c.hotHot
                             && TooSmallCodeUnits < c.codeUnits <= TooLargeCodeUnits && !SimpleShape(c.blocks)
  {
    if c.hasNeverInline then AlreadyNeverInline
    else if !c.hotCold then NotCandidate
    else if c.hotHot then TooHot
    else if c.codeUnits > TooLargeCodeUnits then TooLarge
    else if c.codeUnits <= TooSmallCodeUnits then TooSmall
    else if SimpleShape(c.blocks) then Simple
    else Attach
  }

  /** How many of `cs` get verdict `v`. */
  function CountVerdict(cs: seq<Candidate>, v: Verdict): nat
    decreases |cs|
  {
    if |cs| == 0 then 0
    else CountVerdict(cs[..|cs| - 1], v) + (if Classify(cs[|cs| - 1]) == v then 1 else 0)
  }

  /** The indices of the methods that get the annotation when annotations
      are attached. */
  function Attached(cs: seq<Candidate>): set<nat> {
    set i | 0 <= i < |cs| && Classify(cs[i]) == Attach
  }

  datatype Counters = Counters(
    alreadyNeverInline: nat, tooHot: nat, simple: nat, tooSmall: nat, tooLarge: nat, annotationAttached: nat)

  /** The six metrics over a sequence of methods. */
  function CountersOf(cs: seq<Candidate>): Counters {
    Counters(CountVerdict(cs, AlreadyNeverInline), CountVerdict(cs, TooHot), CountVerdict(cs, Simple),
             CountVerdict(cs, TooSmall), CountVerdict(cs, TooLarge), CountVerdict(cs, Attach))
  }

  /** The metrics after one more method with verdict `v`. */
  function Tally(counts: Counters, v: Verdict): Counters {
    match v
    case AlreadyNeverInline => counts.(alreadyNeverInline := counts.alreadyNeverInline + 1)
    case NotCandidate => counts
    case TooHot => counts.(tooHot := counts.tooHot + 1)
    case TooLarge => counts.(tooLarge := counts.tooLarge + 1)
    case TooSmall => counts.(tooSmall := counts.tooSmall + 1)
    case Simple => counts.(simple := counts.simple + 1)
    case Attach => counts.(annotationAttached := counts.annotationAttached + 1)
  }

  lemma CountersOfStep(cs: seq<Candidate>, i: nat)
    requires i < |cs|
    ensures CountersOf(cs[..i + 1]) == Tally(CountersOf(cs[..i]), Classify(cs[i]))
  {
    assert cs[..i + 1][..i] == cs[..i];
  }

  /** The annotation walk of `never_inline`: the six metrics and the
      methods that receive the annotation. `annotation_attached` counts
      every method that passes all tests, also when `attach` is off. */
  method AnnotateCallees(cs: seq<Candidate>, attach: bool) returns (counts: Counters, annotated: set<nat>)
    ensures counts == CountersOf(cs)
    ensures annotated == (if attach then Attached(cs) else {})
  {
    counts := Counters(0, 0, 0, 0, 0, 0);
    annotated := {};
    for i := 0 to |cs|
      invariant counts == CountersOf(cs[..i])
      invariant annotated == (if attach then set j | 0 <= j < i && Classify(cs[j]) == Attach else {})
    {
      CountersOfStep(cs, i);
      var annotate;
      counts, annotate := AnnotateCallee(cs[i], attach, counts);
      if annotate {
        annotated := annotated + {i};
      }
    }
    assert cs[..|cs|] == cs;
  }

  /** One method of the annotation walk: its metric is bumped, and it is
      annotated when it passes every test and attaching is on. */
  method AnnotateCallee(c: Candidate, attach: bool, counts0: Counters) returns (counts: Counters, annotate: bool)
    ensures counts == Tally(counts0, Classify(c))
    ensures annotate <==> attach && Classify(c) == Attach
  {
    counts, annotate := counts0, false;
    if c.hasNeverInline {
      counts := counts.(alreadyNeverInline := counts.alreadyNeverInline + 1);
      return;
    }
    if !c.hotCold {
      return;
    }
    if c.hotHot {
      counts := counts.(tooHot := counts.tooHot + 1);
      return;
    }
    if c.codeUnits > 32 {
      counts := counts.(tooLarge := counts.tooLarge + 1);
      return;
    }
    if c.codeUnits <= 3 {
      counts := counts.(tooSmall := counts.tooSmall + 1);
      return;
    }
    var simple, _ := IsSimple(c.blocks);
    if simple {
      counts := counts.(simple := counts.simple + 1);
      return;
    }
    counts := counts.(annotationAttached := counts.annotationAttached + 1);
    if !attach {
      return;
    }
    annotate := true;
  }

  /** Every method lands in exactly one verdict, so the six metrics and
      the methods that are no candidate add up to all methods. */
  lemma {:induction false} VerdictsPartition(cs: seq<Candidate>)
    ensures CountVerdict(cs, AlreadyNeverInline) + CountVerdict(cs, NotCandidate) + CountVerdict(cs, TooHot)
          + CountVerdict(cs, TooLarge) + CountVerdict(cs, TooSmall) + CountVerdict(cs, Simple)
          + CountVerdict(cs, Attach) == |cs|
    decreases |cs|
  {
    if |cs| > 0 {
      VerdictsPartition(cs[..|cs| - 1]);
    }
  }

  /** Only cold callees of hot callers, of moderate size and not simple,
      are annotated. */
  lemma AnnotatedAreModerate(cs: seq<Candidate>, i: nat)
    requires i in Attached(cs)
    ensures i < |cs| && cs[i].hotCold && !cs[i].hotHot && !cs[i].hasNeverInline
    ensures TooSmallCodeUnits < cs[i].codeUnits <= TooLargeCodeUnits && !SimpleShape(cs[i].blocks)
  {
  }
}
