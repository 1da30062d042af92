/** What several modules share: optional values, and writing into the middle of a sequence. */
module Basics {
  datatype Option<+T> = None | Some(value: T)

  function Splice<T>(into: seq<T>, off: nat, src: seq<T>): (r: seq<T>)
    requires off + |src| <= |into|
    ensures |r| == |into|
    ensures forall i :: 0 <= i < |into| ==> r[i] == if off <= i < off + |src| then src[i - off] else into[i]
  {
    into[..off] + src + into[off + |src|..]
  }
}
