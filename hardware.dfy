/**
 * The light-bulb hardware behind the `lightbulb_set_*` setters. Their bodies
 * are not part of this model: a setter is known only by the call it receives
 * and the integer it returns, 0 meaning success.
 */
module Hardware {
  import opened Hap

  /** One setter call with the value it was handed. */
  datatype SetterCall =
    | SetOn(on: bool)
    | SetBrightness(level: int32)
    | SetHue(hue: HapFloat)
    | SetSaturation(saturation: HapFloat)

  /** The union value a setter call carries. */
  function Payload(c: SetterCall): (v: HapVal)
    ensures v.BoolVal? <==> c.SetOn?
    ensures v.IntVal? <==> c.SetBrightness?
  {
    match c
    case SetOn(on) => BoolVal(on)
    case SetBrightness(level) => IntVal(level)
    case SetHue(hue) => FloatVal(hue)
    case SetSaturation(saturation) => FloatVal(saturation)
  }

  /**
   * The characteristic type whose write leads to this setter call. The value
   * a call carries is always in that type's format.
   */
  function Target(c: SetterCall): (k: CharType)
    ensures HasFormat(k, Payload(c))
    ensures k != RotationDirection && k != Other
  {
    match c
    case SetOn(_) => On
    case SetBrightness(_) => Brightness
    case SetHue(_) => Hue
    case SetSaturation(_) => Saturation
  }

  /**
   * The hardware: the calls it has received, in order, and the result the
   * k-th call returns (`answer(k)`), which is its only observable behaviour.
   */
  class Lightbulb {
    var log: seq<SetterCall>
    const answer: nat -> int

    constructor (answer: nat -> int)
      ensures log == [] && this.answer == answer
    {
      log := [];
      this.answer := answer;
    }

    /** Issue one setter call; the result is the oracle's answer for this call's position. */
    method Invoke(c: SetterCall) returns (r: int)
      modifies this`log
      ensures log == old(log) + [c]
      ensures r == answer(|old(log)|)
    {
      r := answer(|log|);
      log := log + [c];
    }
  }
}
