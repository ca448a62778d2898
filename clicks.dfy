/** The early return of the category link handler: which clicks are left to
    the browser's own navigation instead of being turned into a fact. */
module Clicks {

  /** JavaScript's comma operator: every operand is evaluated in turn and the
      value of the whole expression is that of the last one. */
  function Comma(operands: seq<bool>): bool
    requires |operands| > 0
  {
    operands[|operands| - 1]
  }

  /** The condition as the handler writes it: `e.ctrlKey, e.metaKey,
      e.shiftKey, e.button === 1`, a comma expression. */
  function ExemptAsWritten(ctrl: bool, meta: bool, shift: bool, button: int): bool {
    Comma([ctrl, meta, shift, button == 1])
  }

  /** As written, the early return depends on the middle button alone:
      it is taken exactly for `button == 1` and the modifier keys play no part. */
  lemma AsWrittenOnlyMiddleButton(ctrl: bool, meta: bool, shift: bool, button: int)
    ensures ExemptAsWritten(ctrl, meta, shift, button) <==> button == 1
    ensures forall c: bool, m: bool, s: bool ::
      ExemptAsWritten(c, m, s, button) == ExemptAsWritten(ctrl, meta, shift, button)
  {
  }

  /** The condition the comment above it describes: any of Ctrl, Meta or
      Shift held, or the middle button. */
  function ExemptIntended(ctrl: bool, meta: bool, shift: bool, button: int): (b: bool)
    ensures !ctrl && !meta && !shift ==> (b <==> ExemptAsWritten(ctrl, meta, shift, button))
  {
    ctrl || meta || shift || button == 1
  }

  /** Every click the source exempts is also exempt under the intended condition. */
  lemma IntendedExemptsMore(ctrl: bool, meta: bool, shift: bool, button: int)
    ensures ExemptAsWritten(ctrl, meta, shift, button) ==> ExemptIntended(ctrl, meta, shift, button)
  {
  }

  /** The discrepancy: a Ctrl-click with the primary button is turned into a
      fact by the source although the comment promises normal navigation. */
  lemma CtrlClickNotExemptAsWritten()
    ensures !ExemptAsWritten(true, false, false, 0)
    ensures ExemptIntended(true, false, false, 0)
  {
  }
}
