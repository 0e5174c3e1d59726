/** The instruction opcodes that the modelled code inspects, grouped in the
    families that the `opcode::is_*` classifiers of the IR recognise. Every
    other opcode is `Other`, distinguished only by a number. */
module Opcodes {

  datatype IROpcode =
    | LoadParam | LoadParamObject | LoadParamWide
    | Const | ConstWide
    | Iget | IgetWide | IgetObject | IgetBoolean | IgetByte | IgetChar | IgetShort
    | Sget | SgetWide | SgetObject | SgetBoolean | SgetByte | SgetChar | SgetShort
    | InvokeVirtual | InvokeSuper | InvokeDirect | InvokeStatic | InvokeInterface
    | MoveResult | MoveResultWide | MoveResultObject
    | MoveResultPseudo | MoveResultPseudoObject | MoveResultPseudoWide
    | ReturnVoid | Return | ReturnWide | ReturnObject
    | Other(code: nat)

  predicate IsALoadParam(op: IROpcode) {
    op.LoadParam? || op.LoadParamObject? || op.LoadParamWide?
  }

  predicate IsAConst(op: IROpcode) {
    op.Const? || op.ConstWide?
  }

  predicate IsAnIget(op: IROpcode) {
    op.Iget? || op.IgetWide? || op.IgetObject? || op.IgetBoolean? || op.IgetByte? || op.IgetChar? || op.IgetShort?
  }

  predicate IsAnSget(op: IROpcode) {
    op.Sget? || op.SgetWide? || op.SgetObject? || op.SgetBoolean? || op.SgetByte? || op.SgetChar? || op.SgetShort?
  }

  predicate IsAnInvoke(op: IROpcode) {
    op.InvokeVirtual? || op.InvokeSuper? || op.InvokeDirect? || op.InvokeStatic? || op.InvokeInterface?
  }

  /** `is_move_result_any`: a move-result of any width, including the
      pseudo move-results that follow a field or constant load. */
  predicate IsMoveResultAny(op: IROpcode) {
    op.MoveResult? || op.MoveResultWide? || op.MoveResultObject?
    || op.MoveResultPseudo? || op.MoveResultPseudoObject? || op.MoveResultPseudoWide?
  }

  predicate IsAReturn(op: IROpcode) {
    op.ReturnVoid? || op.Return? || op.ReturnWide? || op.ReturnObject?
  }
}
