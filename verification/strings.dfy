/** Helpers on strings shared by the name check and the message splitter. */
module Strings {

  /** The strings of parts joined end to end (''.join(parts)). */
  function Concat(parts: seq<string>): (r: string)
    ensures |parts| == 1 ==> r == parts[0]
  {
    if |parts| == 0 then [] else parts[0] + Concat(parts[1..])
  }
}
