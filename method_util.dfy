/** Method predicates on references and definitions, and opcode counting over
    a method body (libredex/MethodUtil.h). */
module MethodUtil {
  import opened Wrappers
  import opened Opcodes

  /** A `DexProto`. Protos are interned, so two protos are the same object
      exactly when return type and argument list agree. */
  datatype Proto<T> = Proto(returnType: T, args: seq<T>)

  /** The access flag that marks a constructor, `ACC_CONSTRUCTOR`. */
  const ACC_CONSTRUCTOR: bv32 := 0x1_0000

  /** What a `DexMethod` adds to a `DexMethodRef`: its access flags and its
      code (absent for abstract and native methods). */
  datatype MethodDef<C> = MethodDef(access: bv32, code: Option<C>)

  /** A `DexMethodRef`. `def` is present exactly when the ref is a definition
      (`is_def()`), in which case the ref may be viewed as a `DexMethod`. */
  datatype MethodRef<T, C> = MethodRef(owner: T, name: string, proto: Proto<T>, def: Option<MethodDef<C>>)

  /** `is_init`: the method is named `<init>`. */
  predicate IsInit<T, C>(m: MethodRef<T, C>) {
    m.name == "<init>"
  }

  /** `is_clinit`: the method is named `<clinit>`. */
  predicate IsClinit<T, C>(m: MethodRef<T, C>) {
    m.name == "<clinit>"
  }

  /** `is_any_init`: a constructor or a static initializer. */
  predicate IsAnyInit<T, C>(m: MethodRef<T, C>)
    ensures IsAnyInit(m) <==> IsInit(m) || IsClinit(m)
    ensures IsAnyInit(m) <==> m.name in {"<init>", "<clinit>"}
  {
    IsInit(m) || IsClinit(m)
  }

  /** `is_constructor` on a definition: the access flags carry `ACC_CONSTRUCTOR`. */
  predicate IsConstructorDef<C>(d: MethodDef<C>) {
    d.access & ACC_CONSTRUCTOR != 0
  }

  /** `is_constructor` on a reference: only a definition can be one. */
  function IsConstructor<T, C>(m: MethodRef<T, C>): (r: bool)
    ensures m.def.None? ==> !r
    ensures m.def.Some? ==> (r <==> IsConstructorDef(m.def.value))
  {
    m.def.Some? && IsConstructorDef(m.def.value)
  }

  /** `has_n_args`: the proto takes exactly `n` arguments. */
  predicate HasNArgs<T, C>(m: MethodRef<T, C>, n: nat)
  {
    |m.proto.args| == n
  }

  /** `has_no_args`: the proto's argument list is empty. */
  function HasNoArgs<T, C>(m: MethodRef<T, C>): (r: bool)
    ensures r <==> HasNArgs(m, 0)
    ensures r <==> m.proto.args == []
  {
    |m.proto.args| == 0
  }

  /** Both argument predicates look at nothing but the number of arguments. */
  lemma ArgCountOnly<T, C>(a: MethodRef<T, C>, b: MethodRef<T, C>, n: nat)
    requires |a.proto.args| == |b.proto.args|
    ensures HasNArgs(a, n) == HasNArgs(b, n) && HasNoArgs(a) == HasNoArgs(b)
  {
  }

  /** `has_code`: a definition whose code is present. */
  predicate HasCode<T, C>(m: MethodRef<T, C>)
  {
    m.def.Some? && m.def.value.code.Some?
  }

  /** A reference that is not a definition has no code and is no constructor. */
  lemma PureRefHasNothing<T, C>(m: MethodRef<T, C>)
    requires m.def.None?
    ensures !HasCode(m) && !IsConstructor(m)
  {
  }

  /** `signatures_match`: same name and same proto; the owner is ignored. */
  predicate SignaturesMatch<T(==), C>(a: MethodRef<T, C>, b: MethodRef<T, C>)
  {
    a.name == b.name && a.proto == b.proto
  }

  /** Signature matching is an equivalence relation. */
  lemma SignaturesMatchIsEquivalence<T, C>(a: MethodRef<T, C>, b: MethodRef<T, C>, c: MethodRef<T, C>)
    ensures SignaturesMatch(a, a)
    ensures SignaturesMatch(a, b) ==> SignaturesMatch(b, a)
    ensures SignaturesMatch(a, b) && SignaturesMatch(b, c) ==> SignaturesMatch(a, c)
  {
  }

  // ----- Opcode counting -----

  /** An entry of an `IRCode` list: an instruction, or one of the entries
      that instruction iterables skip (positions, debug info, branch
      targets, try markers, fall-through markers). */
  datatype MethodItemEntry = MFlowOpcode(op: IROpcode) | MFlowOther

  /** The opcodes an `InstructionIterable` yields, in order. */
  function Instructions(es: seq<MethodItemEntry>): (ops: seq<IROpcode>)
    ensures |ops| <= |es|
    decreases |es|
  {
    if |es| == 0 then []
    else Instructions(es[..|es| - 1]) + (if es[|es| - 1].MFlowOpcode? then [es[|es| - 1].op] else [])
  }

  /** The opcodes a `ConstInstructionIterable` over a control-flow graph
      yields: the instructions of each block, block after block. */
  function CfgInstructions(blocks: seq<seq<MethodItemEntry>>): seq<IROpcode>
    decreases |blocks|
  {
    if |blocks| == 0 then [] else CfgInstructions(blocks[..|blocks| - 1]) + Instructions(blocks[|blocks| - 1])
  }

  /** The blocks laid out one after the other, as a linear code container. */
  function Flatten<E>(blocks: seq<seq<E>>): seq<E>
    decreases |blocks|
  {
    if |blocks| == 0 then [] else Flatten(blocks[..|blocks| - 1]) + blocks[|blocks| - 1]
  }

  /** The number of opcodes in `ops` that belong to `opcodes`. */
  function CountIn(ops: seq<IROpcode>, opcodes: set<IROpcode>): nat
    decreases |ops|
  {
    if |ops| == 0 then 0
    else CountIn(ops[..|ops| - 1], opcodes) + (if ops[|ops| - 1] in opcodes then 1 else 0)
  }

  /** The positions of `ops` whose opcode belongs to `opcodes`. */
  function MatchingPositions(ops: seq<IROpcode>, opcodes: set<IROpcode>): set<nat> {
    set i: nat | i < |ops| && ops[i] in opcodes
  }

  /** `count_opcode_of_types` over a code container. */
  method CountOpcodeOfTypes(code: seq<MethodItemEntry>, opcodes: set<IROpcode>) returns (ret: nat)
    ensures ret == CountIn(Instructions(code), opcodes)
  {
    ret := 0;
    var i := 0;
    while i < |code|
      invariant 0 <= i <= |code|
      invariant ret == CountIn(Instructions(code[..i]), opcodes)
    {
      EntryStep(code, i, opcodes);
      if code[i].MFlowOpcode? {
        var op := code[i].op;
        if op in opcodes {
          ret := ret + 1;
        }
      }
      i := i + 1;
    }
    assert code[..|code|] == code;
  }

  /** `count_opcode_of_types` over a control-flow graph. */
  method CountOpcodeOfTypesInCfg(blocks: seq<seq<MethodItemEntry>>, opcodes: set<IROpcode>) returns (ret: nat)
    ensures ret == CountIn(CfgInstructions(blocks), opcodes)
  {
    ret := 0;
    var b := 0;
    while b < |blocks|
      invariant 0 <= b <= |blocks|
      invariant ret == CountIn(CfgInstructions(blocks[..b]), opcodes)
    {
      var block := blocks[b];
      var i := 0;
      while i < |block|
        invariant 0 <= i <= |block|
        invariant ret == CountIn(CfgInstructions(blocks[..b]), opcodes) + CountIn(Instructions(block[..i]), opcodes)
      {
        EntryStep(block, i, opcodes);
        if block[i].MFlowOpcode? {
          var op := block[i].op;
          if op in opcodes {
            ret := ret + 1;
          }
        }
        i := i + 1;
      }
      assert block[..|block|] == block;
      assert blocks[..b + 1][..b] == blocks[..b];
      CountInAppend(CfgInstructions(blocks[..b]), Instructions(block), opcodes);
      b := b + 1;
    }
    assert blocks[..|blocks|] == blocks;
  }

  /** One more entry adds one to the count exactly when it is an
      instruction whose opcode belongs to the set. */
  lemma EntryStep(es: seq<MethodItemEntry>, i: nat, opcodes: set<IROpcode>)
    requires i < |es|
    ensures CountIn(Instructions(es[..i + 1]), opcodes)
         == CountIn(Instructions(es[..i]), opcodes) + (if es[i].MFlowOpcode? && es[i].op in opcodes then 1 else 0)
  {
    assert es[..i + 1][..i] == es[..i];
    assert es[..i + 1][i] == es[i];
    var ops := Instructions(es[..i + 1]);
    if es[i].MFlowOpcode? {
      assert ops == Instructions(es[..i]) + [es[i].op];
      assert ops[..|ops| - 1] == Instructions(es[..i]);
    } else {
      assert ops == Instructions(es[..i]);
    }
  }

  lemma {:induction false} CountInAppend(a: seq<IROpcode>, b: seq<IROpcode>, opcodes: set<IROpcode>)
    ensures CountIn(a + b, opcodes) == CountIn(a, opcodes) + CountIn(b, opcodes)
    decreases |b|
  {
    if |b| == 0 {
      assert a + b == a;
    } else {
      assert (a + b)[..|a + b| - 1] == a + b[..|b| - 1];
      CountInAppend(a, b[..|b| - 1], opcodes);
    }
  }

  /** The count never exceeds the number of instructions. */
  lemma {:induction false} CountAtMostLength(ops: seq<IROpcode>, opcodes: set<IROpcode>)
    ensures CountIn(ops, opcodes) <= |ops|
    decreases |ops|
  {
    if |ops| > 0 {
      CountAtMostLength(ops[..|ops| - 1], opcodes);
    }
  }

  /** Nothing is counted for an empty opcode set. */
  lemma {:induction false} CountEmptySet(ops: seq<IROpcode>)
    ensures CountIn(ops, {}) == 0
    decreases |ops|
  {
    if |ops| > 0 {
      CountEmptySet(ops[..|ops| - 1]);
    }
  }

  /** A larger opcode set counts at least as many instructions. */
  lemma {:induction false} CountMonotone(ops: seq<IROpcode>, small: set<IROpcode>, large: set<IROpcode>)
    requires small <= large
    ensures CountIn(ops, small) <= CountIn(ops, large)
    decreases |ops|
  {
    if |ops| > 0 {
      CountMonotone(ops[..|ops| - 1], small, large);
    }
  }

  /** The count is the number of positions holding an opcode of the set. */
  lemma {:induction false} CountIsMatchingPositions(ops: seq<IROpcode>, opcodes: set<IROpcode>)
    ensures CountIn(ops, opcodes) == |MatchingPositions(ops, opcodes)|
    decreases |ops|
  {
    if |ops| > 0 {
      var n := |ops| - 1;
      var init := ops[..n];
      CountIsMatchingPositions(init, opcodes);
      var before := MatchingPositions(init, opcodes);
      var last: set<nat> := if ops[n] in opcodes then {n} else {};
      assert MatchingPositions(ops, opcodes) == before + last by {
        forall i: nat | i in MatchingPositions(ops, opcodes) ensures i in before + last {
          if i < n { assert init[i] == ops[i]; }
        }
        forall i: nat | i in before ensures i in MatchingPositions(ops, opcodes) {
          assert init[i] == ops[i];
        }
      }
      assert n !in before;
    }
  }

  lemma {:induction false} InstructionsAppend(a: seq<MethodItemEntry>, b: seq<MethodItemEntry>)
    ensures Instructions(a + b) == Instructions(a) + Instructions(b)
    decreases |b|
  {
    if |b| == 0 {
      assert a + b == a;
    } else {
      assert (a + b)[..|a + b| - 1] == a + b[..|b| - 1];
      InstructionsAppend(a, b[..|b| - 1]);
    }
  }

  /** Iterating the graph block by block yields the instructions of the
      blocks laid out linearly, so both overloads of `count_opcode_of_types`
      count the same. */
  lemma {:induction false} CfgMatchesLinearCode(blocks: seq<seq<MethodItemEntry>>, opcodes: set<IROpcode>)
    ensures CfgInstructions(blocks) == Instructions(Flatten(blocks))
    ensures CountIn(CfgInstructions(blocks), opcodes) == CountIn(Instructions(Flatten(blocks)), opcodes)
    decreases |blocks|
  {
    if |blocks| > 0 {
      var n := |blocks| - 1;
      CfgMatchesLinearCode(blocks[..n], opcodes);
      InstructionsAppend(Flatten(blocks[..n]), blocks[n]);
    }
  }
}
