/** core/vl_util.c: the comparison used wherever secret-independent timing is wanted. */
module Util {
  import opened Words
  import opened Bits

  /** Compares two buffers by accumulating the differing bits. A comparison of nothing is
      not a match. */
  method CtEq(a: seq<u8>, b: seq<u8>) returns (equal: int)
    requires |a| == |b|
    ensures equal == if a == b && |a| > 0 then 1 else 0
  {
    var diff: u8 := 0;
    if |a| == 0 {
      return 0;
    }
    Powers();
    for i := 0 to |a|
      invariant diff == 0 <==> a[..i] == b[..i]
    {
      ghost var before := diff;
      XorFits(a[i], b[i], BYTE);
      OrFits(diff, Xor(a[i], b[i], BYTE), BYTE);
      OrIsZero(diff, Xor(a[i], b[i], BYTE), BYTE);
      XorIsZero(a[i], b[i], BYTE);
      diff := Or(diff, Xor(a[i], b[i], BYTE), BYTE);
      assert a[..i + 1] == a[..i] + [a[i]] && b[..i + 1] == b[..i] + [b[i]];
    }
    assert a[..|a|] == a && b[..|b|] == b;
    equal := ((diff - 1) % TWO_32 / 256) % 2;
  }
}
