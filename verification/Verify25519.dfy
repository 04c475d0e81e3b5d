/** vl_ed25519_verify, and what its answer means in the curve group. */
module Verify25519 {
  import opened Words
  import opened Digits
  import opened LittleEndian
  import opened Modular
  import opened Field
  import opened Curve
  import opened Ladder
  import opened Decode
  import Scalar
  import Sha512
  import Util

  const SIG_LEN: nat := 64
  const KEY_LEN: nat := 32

  /** SHA-512 of R, A and M, modulo the group order. */
  ghost function Challenge(sig: seq<u8>, msg: seq<u8>, key: seq<u8>): (h: nat)
    requires |sig| == SIG_LEN
  {
    var m := sig[..32] + key + msg;
    var d := Sha512.HashWithLength(m, 8 * (|m| % TWO_64));
    Le(d) % Scalar.L
  }

  /** The extended coordinates that are compared with R. */
  ghost function CheckPoint(negated: Ext, h: nat, s: seq<u8>): Ext
    requires |s| == 32
  {
    EdAdd(Climb(negated, Bytes(h, 32), 0).0, Climb(BASE_POINT, s, 0).0)
  }

  /** The answer, in terms of the ladder's coordinates. */
  ghost predicate Accepts(sig: seq<u8>, msg: seq<u8>, key: seq<u8>)
    requires |sig| == SIG_LEN
  {
    && Le(sig[32..]) < Scalar.L
    && DecodeNegated(key).Some?
    && Le(sig[..32]) == Encode(Affine(CheckPoint(DecodeNegated(key).value, Challenge(sig, msg, key), sig[32..])))
  }

  /** The digest of the three parts, streamed without joining them. */
  method HashParts(r: seq<u8>, key: seq<u8>, msg: seq<u8>) returns (digest: seq<u8>)
    requires |r| == |key| == 32 && |msg| < TWO_64
    ensures var m := r + key + msg;
      digest == Sha512.HashWithLength(m, 8 * (|m| % TWO_64))
  {
    var sh := new Sha512.Context();
    sh.Update(r);
    sh.Update(key);
    sh.Update(msg);
    assert [] + r == r;
    digest := sh.Final();
  }

  /** The challenge, as the bytes that the ladder reads. */
  method ChallengeBytes(sig: seq<u8>, msg: seq<u8>, key: seq<u8>) returns (h: seq<u8>)
    requires |sig| == SIG_LEN && |key| == KEY_LEN && |msg| < TWO_64
    ensures h == Bytes(Challenge(sig, msg, key), 32)
  {
    var digest := HashParts(sig[..32], key, msg);
    var r := new u8[64](i requires 0 <= i < 64 => digest[i]);
    assert r[..] == digest;
    Scalar.Reduce(r);
    h := r[..32];
    EvalSame(h, r[..], 256, 32);
    BytesOfLe(h);
  }

  /** p = h (-A) + S B, packed. */
  method PackedCheckPoint(q: Point, h: seq<u8>, s: seq<u8>) returns (t: seq<u8>)
    requires q.Valid() && q.Limbs() && |h| == |s| == 32
    modifies q.x, q.y, q.z, q.t
    ensures |t| == 32
    ensures Le(t) == old(Encode(Affine(EdAdd(Climb(q.Abs(), h, 0).0, Climb(BASE_POINT, s, 0).0))))
  {
    var p := new Point();
    Scalarmult(p, q, h);
    Scalarbase(q, s);
    Add(p, q);
    var r := new u8[32](_ => 0);
    Pack(r, p);
    t := r[..];
  }

  method Verify(sig: seq<u8>, msg: seq<u8>, key: seq<u8>) returns (ok: int)
    requires |sig| == SIG_LEN && |key| == KEY_LEN && |msg| < TWO_64
    ensures ok == if Accepts(sig, msg, key) then 1 else 0
  {
    var reduced := Scalar.ScalarIsReduced(sig[32..]);
    if !reduced {
      return 0;
    }
    var q := new Point();
    var rc := Unpackneg(q, key);
    if rc != 0 {
      return 0;
    }
    var h := ChallengeBytes(sig, msg, key);
    var t := PackedCheckPoint(q, h, sig[32..]);
    SameBytes(sig[..32], t);
    ok := Util.CtEq(sig[..32], t);
  }

  /** An accepted R is the encoding of reduced coordinates, sign bit included, and an accepted key
      has a reduced y: each is compared with a frozen encoding. */
  lemma AcceptedIsReduced(sig: seq<u8>, msg: seq<u8>, key: seq<u8>) returns (a: (int, int))
    requires |sig| == SIG_LEN && |key| == KEY_LEN && Accepts(sig, msg, key)
    ensures a == Affine(CheckPoint(DecodeNegated(key).value, Challenge(sig, msg, key), sig[32..]))
    ensures 0 <= a.0 < P && 0 <= a.1 < P
    ensures Le(sig[..32]) == Encode(a)
    ensures KeyY(sig[..32]) == a.1 && KeySign(sig[..32]) == a.0 % 2
    ensures KeyY(key) < P
  {
    a := Affine(CheckPoint(DecodeNegated(key).value, Challenge(sig, msg, key), sig[32..]));
    Unsigned(a.1, a.0 % 2);
    DecodedIsOnCurve(key);
  }

  lemma Unsigned(y: int, sign: int)
    requires 0 <= y < P && 0 <= sign <= 1
    ensures (y + (P + 19) * sign) % (P + 19) == y && (y + (P + 19) * sign) / (P + 19) == sign
  {
    DivUnique(P + 19, y + (P + 19) * sign, sign, y);
  }
}
