/**
 The `currentMesh` index that the two click callbacks of `makePanel` move
 through the three meshes `[sphere, box, cone]`.
 */
module Meshes {

  /** The number of meshes `showMesh` cycles through. */
  const MeshCount := 3

  /** JavaScript's `%` on a positive divisor: the remainder truncates toward
      zero, so it takes the sign of the dividend (Dafny's `%` never does). */
  function JsRem(a: int, n: int): (r: int)
    requires n > 0
    ensures a >= 0 ==> r == a % n && 0 <= r < n
    ensures a < 0 ==> -n < r <= 0
  {
    if a >= 0 then a % n else -((-a) % n)
  }

  /** Truncation makes the remainder odd in the dividend. */
  lemma JsRemIsOdd(a: int, n: int)
    requires n > 0
    ensures JsRem(-a, n) == -JsRem(a, n)
  {
  }

  /** The `buttonNext` callback: `currentMesh = (currentMesh + 1) % 3`. */
  function NextMesh(i: int): (r: int)
    ensures 0 <= i < MeshCount ==> 0 <= r < MeshCount
    ensures 0 <= i < MeshCount - 1 ==> r == i + 1
    ensures i == MeshCount - 1 ==> r == 0
  {
    JsRem(i + 1, MeshCount)
  }

  /** The `buttonPrevious` callback: decrement, and wrap -1 around to 2. */
  function PreviousMesh(i: int): (r: int)
    ensures 0 <= i < MeshCount ==> 0 <= r < MeshCount
    ensures 0 < i ==> r == i - 1
    ensures i <= 0 ==> r == MeshCount - 1
  {
    var j := i - 1;
    if j < 0 then MeshCount - 1 else j
  }

  lemma NextThenPrevious(i: int)
    requires 0 <= i < MeshCount
    ensures PreviousMesh(NextMesh(i)) == i
  {
  }

  lemma PreviousThenNext(i: int)
    requires 0 <= i < MeshCount
    ensures NextMesh(PreviousMesh(i)) == i
  {
  }

  lemma ThreeNextsAreIdentity(i: int)
    requires 0 <= i < MeshCount
    ensures NextMesh(NextMesh(NextMesh(i))) == i
  {
  }

  lemma ThreePreviousAreIdentity(i: int)
    requires 0 <= i < MeshCount
    ensures PreviousMesh(PreviousMesh(PreviousMesh(i))) == i
  {
  }
}
