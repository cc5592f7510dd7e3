/** The protocol selectors of lib/utils/static.py: between the names `'sw'`
    and `'sr'` of the command line and the protocol codes, and the engine
    the arguments ask for. */
module ProtocolSelection {
  import opened Constants

  /** The engine `get_protocol_from_args` builds. */
  datatype Engine = StopAndWait | SelectiveRepeat

  /** `get_protocol_name_from_protocol_code`: `'sw'` for the Stop-and-Wait
      code and `'sr'` for every other code. */
  function ProtocolName(code: int): (name: string)
    ensures name == "sw" <==> code == STOP_AND_WAIT
    ensures name == "sr" <==> code != STOP_AND_WAIT
  {
    if code == STOP_AND_WAIT then "sw" else "sr"
  }

  /** `get_protocol_code_from_protocol_str`: the Stop-and-Wait code for
      `'sw'` and the Selective-Repeat code for every other string. */
  function ProtocolCode(name: string): (code: int)
    ensures code == STOP_AND_WAIT <==> name == "sw"
    ensures code == SELECTIVE_REPEAT <==> name != "sw"
  {
    if name == "sw" then STOP_AND_WAIT else SELECTIVE_REPEAT
  }

  /** `get_protocol_from_args`: Stop-and-Wait exactly for `'sw'`. */
  function EngineFor(protocol: string): (e: Engine)
    ensures e == StopAndWait <==> protocol == "sw"
    ensures e == SelectiveRepeat <==> protocol != "sw"
  {
    if ProtocolCode(protocol) == STOP_AND_WAIT then StopAndWait else SelectiveRepeat
  }

  /** The two names survive a trip through their codes. */
  lemma NameOfCode(name: string)
    requires name == "sw" || name == "sr"
    ensures ProtocolName(ProtocolCode(name)) == name
  {
  }

  /** The two codes survive a trip through their names. */
  lemma CodeOfName(code: int)
    requires code == STOP_AND_WAIT || code == SELECTIVE_REPEAT
    ensures ProtocolCode(ProtocolName(code)) == code
  {
  }

  /** The engine agrees with the name of the code the arguments map to. */
  lemma EngineMatchesName(protocol: string)
    ensures EngineFor(protocol) == StopAndWait <==> ProtocolName(ProtocolCode(protocol)) == "sw"
  {
  }
}
