/** The last element of a run. */
module Sequences {
  function Last<A>(s: seq<A>): A
    requires |s| > 0
  {
    s[|s| - 1]
  }
}
