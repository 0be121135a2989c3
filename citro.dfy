/** The part of the Citro engine that the trace shim talks to: a text
    object with position, scale and content, and the engine's list of
    on-screen debug texts. */
module Citro {

  /** A `CitroText` after construction and `scale->set`: the doubles of the
      engine are taken as exact reals. */
  datatype CitroText = CitroText(x: real, y: real, text: string, scaleX: real, scaleY: real)

  /** Holder of the engine's global `debugTexts` deque. */
  class CitroInit {
    var debugTexts: seq<CitroText>

    constructor ()
      ensures debugTexts == []
    {
      debugTexts := [];
    }
  }
}
