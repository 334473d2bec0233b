/**
 * The blank-check classifier (`is_spac`): a filing is kept only when its
 * fetched document contains the exact bytes of "blank check company".
 */
module Classifier {
  import Text
  import opened Records

  /** The ASCII bytes of `b'blank check company'`. */
  const BlankCheckMarker: seq<byte> :=
    [98, 108, 97, 110, 107, 32, 99, 104, 101, 99, 107, 32, 99, 111, 109, 112, 97, 110, 121]

  /**
   * `is_spac`: true exactly when the marker occurs as a contiguous run of
   * the content; case-sensitive, no normalisation, false on empty content.
   */
  function IsSpac(content: seq<byte>): (r: bool)
    ensures r <==> Text.IsInfix(BlankCheckMarker, content)
    ensures r ==> |content| >= |BlankCheckMarker|
  {
    Text.Contains(BlankCheckMarker, content)
  }
}
