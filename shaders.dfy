/**
 * opengl_go_tutorial/shaders.go: `texInvertY`, which flips the V coordinate
 * of interleaved (U, V) texture coordinates in place.  Coordinates are reals.
 */
module Shaders {

  /** Reference definition: every odd-index (V) entry becomes 1 minus itself, unless the slice is not a list of pairs. */
  function InvertedY(coords: seq<real>): (r: seq<real>)
    ensures |r| == |coords|
  {
    if |coords| % 2 != 0 || |coords| < 2 then coords
    else seq(|coords|, i requires 0 <= i < |coords| => if i % 2 == 1 then 1.0 - coords[i] else coords[i])
  }

  /** `texInvertY`, updating the slice in place. */
  method TexInvertY(texCoords: array<real>)
    modifies texCoords
    ensures texCoords[..] == InvertedY(old(texCoords[..]))
  {
    if texCoords.Length % 2 != 0 || texCoords.Length < 2 {
      return;
    }
    var i := 1;
    while i < texCoords.Length
      invariant 1 <= i <= texCoords.Length + 1 && i % 2 == 1
      invariant forall k :: 0 <= k < texCoords.Length ==>
        texCoords[k] == if k % 2 == 1 && k < i then 1.0 - old(texCoords[k]) else old(texCoords[k])
    {
      texCoords[i] := 1.0 - texCoords[i];
      i := i + 2;
    }
    assert forall k :: 0 <= k < texCoords.Length ==> texCoords[..][k] == InvertedY(old(texCoords[..]))[k];
  }

  /**
   * For a list of pairs, U entries are untouched and V entries are flipped;
   * any other slice comes back unchanged.
   */
  lemma InvertedYAt(coords: seq<real>, k: nat)
    requires k < |coords|
    ensures |coords| % 2 == 0 && k % 2 == 1 ==> InvertedY(coords)[k] == 1.0 - coords[k]
    ensures |coords| % 2 == 1 || k % 2 == 0 ==> InvertedY(coords)[k] == coords[k]
  {
  }

  /** Flipping twice restores the coordinates (exactly, over the reals). */
  lemma InvertedYInvolution(coords: seq<real>)
    ensures InvertedY(InvertedY(coords)) == coords
  {
    var once := InvertedY(coords);
    if |coords| % 2 == 0 && |coords| >= 2 {
      assert forall k :: 0 <= k < |coords| ==> InvertedY(once)[k] == coords[k];
    }
  }
}
