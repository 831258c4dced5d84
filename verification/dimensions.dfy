/**
  Launch dimensions: the 32-bit unsigned components a configuration file
  supplies, and the fixed (x, y, z) triple a kernel is launched with.
 */
module Dimensions {

  /** A configuration value of C++ type `uint32_t`. */
  newtype U32 = x: int | 0 <= x < 0x1_0000_0000

  /** A fixed three-component launch dimension (the C++ `std::array<uint32_t, 3>`). */
  type Dim3 = s: seq<U32> | |s| == 3 witness [1, 1, 1]

  /** The value every component of a dimension starts from. */
  const Ones: Dim3 := [1, 1, 1]

  /** `d` is `input` truncated to three components, with missing ones filled by 1. */
  ghost predicate Fits(input: seq<U32>, d: Dim3) {
    && (forall i :: 0 <= i < 3 && i < |input| ==> d[i] == input[i])
    && (forall i :: |input| <= i < 3 ==> d[i] == 1)
  }

  /**
    The copying loop of the conversion, from index `i` on: components
    `i .. min(|input|, 3)` are taken from `input`, every other one is kept.
   */
  function CopyFrom(out: Dim3, input: seq<U32>, i: nat): (r: Dim3)
    requires i <= 3
    ensures forall j :: 0 <= j < i ==> r[j] == out[j]
    ensures forall j :: i <= j < 3 && j < |input| ==> r[j] == input[j]
    ensures forall j :: i <= j < 3 && |input| <= j ==> r[j] == out[j]
    decreases 3 - i
  {
    if i < |input| && i < 3 then CopyFrom(out[i := input[i]], input, i + 1) else out
  }

  /** Turns a configured dimension list of any length into an (x, y, z) triple. */
  function ConvertToDimensions(input: seq<U32>): (r: Dim3)
    ensures Fits(input, r)
  {
    CopyFrom(Ones, input, 0)
  }

  /** Conversion is "pad with ones, then keep the first three". */
  lemma ConvertIsPadThenTruncate(input: seq<U32>)
    ensures ConvertToDimensions(input) == (input + Ones)[..3]
  {
    var r := ConvertToDimensions(input);
    var p := (input + Ones)[..3];
    forall i | 0 <= i < 3
      ensures r[i] == p[i]
    {
      if i < |input| {
        assert p[i] == input[i];
      } else {
        assert p[i] == Ones[i - |input|];
      }
    }
  }

  /** A list that is already three long is kept as it is; so conversion is idempotent. */
  lemma ConvertKeepsTriples(d: Dim3)
    ensures ConvertToDimensions(d) == d
    ensures ConvertToDimensions(ConvertToDimensions(d)) == ConvertToDimensions(d)
  {
  }

  /** Only the first three components matter: anything after them is ignored. */
  lemma ConvertIgnoresTail(input: seq<U32>, tail: seq<U32>)
    requires |input| >= 3
    ensures ConvertToDimensions(input + tail) == ConvertToDimensions(input)
  {
    var a := ConvertToDimensions(input + tail);
    var b := ConvertToDimensions(input);
    forall i | 0 <= i < 3
      ensures a[i] == b[i]
    {
      assert (input + tail)[i] == input[i];
    }
  }
}
