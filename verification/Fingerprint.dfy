/** vl_compute_fingerprint: the hash that identifies a device. */
module Fingerprint {
  import opened Words
  import opened Wrappers
  import opened Core
  import Sha256

  /** "vectilicense:fingerprint:v1" */
  const DOMAIN: seq<u8> := [
    118, 101, 99, 116, 105, 108, 105, 99, 101, 110, 115, 101, 58,
    102, 105, 110, 103, 101, 114, 112, 114, 105, 110, 116, 58, 118, 49]

  // ----------------------------------------------------------------- preimage

  ghost predicate AllShort(segments: seq<seq<u8>>)
  {
    forall k :: 0 <= k < |segments| ==> |segments[k]| <= ID_SEGMENT_MAX
  }

  /** Every segment behind its length. */
  function Framed(segments: seq<seq<u8>>): seq<u8>
  {
    if segments == [] then []
    else [|segments[0]| % 256] + segments[0] + Framed(segments[1..])
  }

  function Preimage(segments: seq<seq<u8>>): seq<u8>
  {
    DOMAIN + Framed(segments)
  }

  lemma {:induction false} FramedSnoc(segments: seq<seq<u8>>, s: seq<u8>)
    ensures Framed(segments + [s]) == Framed(segments) + [|s| % 256] + s
    decreases |segments|
  {
    if segments == [] {
      assert segments + [s] == [s] && [s][1..] == [];
    } else {
      assert (segments + [s])[1..] == segments[1..] + [s];
      FramedSnoc(segments[1..], s);
    }
  }

  /** The framing loses nothing: neither boundaries, nor empty segments, nor how many there are. */
  lemma {:induction false} FramedInjective(a: seq<seq<u8>>, b: seq<seq<u8>>)
    requires AllShort(a) && AllShort(b) && Framed(a) == Framed(b)
    ensures a == b
    decreases |a|
  {
    if a != [] && b != [] {
      var m := Framed(a);
      assert m[0] == |a[0]| && m[0] == |b[0]|;
      assert a[0] == m[1..1 + |a[0]|] && b[0] == m[1..1 + |b[0]|];
      assert Framed(a[1..]) == m[1 + |a[0]|..] && Framed(b[1..]) == m[1 + |b[0]|..];
      FramedInjective(a[1..], b[1..]);
      assert a == [a[0]] + a[1..] && b == [b[0]] + b[1..];
    }
  }

  /** Devices with different segment lists hash different strings. */
  lemma PreimageInjective(a: seq<seq<u8>>, b: seq<seq<u8>>)
    requires AllShort(a) && AllShort(b) && Preimage(a) == Preimage(b)
    ensures a == b
  {
    assert Framed(a) == Preimage(a)[|DOMAIN|..] && Framed(b) == Preimage(b)[|DOMAIN|..];
    FramedInjective(a, b);
  }

  lemma DomainIs()
    ensures DOMAIN == Ascii("vectilicense:fingerprint:v1")
  {
  }

  lemma PreimageSnoc(segments: seq<seq<u8>>, s: seq<u8>)
    requires |s| <= 255
    ensures Preimage(segments + [s]) == Preimage(segments) + [|s|] + s
  {
    FramedSnoc(segments, s);
    var frame := Framed(segments);
    assert DOMAIN + (frame + [|s|] + s) == DOMAIN + frame + [|s|] + s;
  }

  /** What is hashed: a text, and for every segment its length in one byte and its bytes. */
  lemma PreimageBuilds(segments: seq<seq<u8>>, s: seq<u8>)
    requires |s| <= 255
    ensures Preimage([]) == Ascii("vectilicense:fingerprint:v1")
    ensures Preimage(segments + [s]) == Preimage(segments) + [|s|] + s
  {
    DomainIs();
    assert Preimage([]) == DOMAIN;
    PreimageSnoc(segments, s);
  }

  lemma {:induction false} FramedLength(segments: seq<seq<u8>>)
    requires AllShort(segments)
    ensures |Framed(segments)| <= 256 * |segments|
    decreases |segments|
  {
    if segments != [] {
      FramedLength(segments[1..]);
    }
  }

  // -------------------------------------------------------------- enumeration

  datatype Listing = Listed(segments: seq<seq<u8>>) | Refused(status: Status)

  function AnswerAt(answers: seq<Answer>, idx: nat): Answer
  {
    if idx < |answers| then answers[idx] else Answer(NO_MORE_SEGMENTS, [])
  }

  /** The segments accepted from a given index on, at most 64 in all. */
  function Enumerate(answers: seq<Answer>, idx: nat): Listing
    decreases ID_SEGMENT_COUNT_MAX - idx
  {
    if idx >= ID_SEGMENT_COUNT_MAX then Listed([])
    else
      var a := AnswerAt(answers, idx);
      if a.status == NO_MORE_SEGMENTS then Listed([])
      else if a.status != OK then Refused(a.status)
      else if |a.bytes| > ID_SEGMENT_MAX then Refused(PLATFORM)
      else Prefixed([a.bytes], Enumerate(answers, idx + 1))
  }

  function Prefixed(segments: seq<seq<u8>>, rest: Listing): Listing
  {
    match rest
    case Listed(more) => Listed(segments + more)
    case Refused(status) => rest
  }

  /** The outcome for a platform: the digest of at least one segment, or a failure. */
  ghost function Outcome(hal: Option<Hal>): (r: (Status, seq<u8>))
    ensures r.0 == OK ==> |r.1| == FINGERPRINT_LEN
  {
    if hal.None? || hal.value.segments.None? then (INVALID_ARG, [])
    else
      EnumeratesShort(hal.value.segments.value, 0);
      match Enumerate(hal.value.segments.value, 0)
      case Refused(status) => (status, [])
      case Listed(segments) =>
        if segments == [] then (PLATFORM, []) else (OK, Sha256.Sha256(Preimage(segments)))
  }

  /** A platform that answers with short segments is identified by the first 64 of them. */
  lemma {:induction false} EnumeratesAll(answers: seq<Answer>, idx: nat)
    requires forall k :: 0 <= k < |answers| ==> answers[k].status == OK && |answers[k].bytes| <= ID_SEGMENT_MAX
    requires idx <= |answers| && idx <= ID_SEGMENT_COUNT_MAX
    ensures var n := if |answers| < ID_SEGMENT_COUNT_MAX then |answers| else ID_SEGMENT_COUNT_MAX;
      Enumerate(answers, idx) == Listed(seq(n - idx, k requires 0 <= k < n - idx => answers[idx + k].bytes))
    decreases |answers| - idx
  {
    if idx < |answers| && idx < ID_SEGMENT_COUNT_MAX {
      EnumeratesAll(answers, idx + 1);
    }
  }

  /** The platform's answers from idx on, up to answer number n, are segments that can be taken. */
  predicate TakenUpTo(answers: seq<Answer>, idx: nat, n: nat)
    requires n <= |answers|
  {
    forall k :: idx <= k < n ==> answers[k].status == OK && |answers[k].bytes| <= 255
  }

  function BytesBetween(answers: seq<Answer>, idx: nat, n: nat): seq<seq<u8>>
    requires idx <= n <= |answers|
  {
    seq(n - idx, k requires 0 <= k < n - idx => answers[idx + k].bytes)
  }

  /** The first answer that is not a segment decides: a status is passed on, a segment of more than
      255 bytes is a platform error, and the end of the list, which is also reached after 64
      segments and after the last answer, accepts the segments before it. */
  lemma {:induction false} FirstBadAnswer(answers: seq<Answer>, idx: nat, n: nat)
    requires idx <= n <= |answers| && n <= 64 && TakenUpTo(answers, idx, n)
    ensures n == 64 || n == |answers| || answers[n].status == NO_MORE_SEGMENTS ==>
      Enumerate(answers, idx) == Listed(BytesBetween(answers, idx, n))
    ensures n < 64 && n < |answers| && answers[n].status == OK && |answers[n].bytes| > 255 ==>
      Enumerate(answers, idx) == Refused(PLATFORM)
    ensures n < 64 && n < |answers| && answers[n].status != OK && answers[n].status != NO_MORE_SEGMENTS ==>
      Enumerate(answers, idx) == Refused(answers[n].status)
    decreases n - idx
  {
    if idx < n {
      FirstBadAnswer(answers, idx + 1, n);
      assert BytesBetween(answers, idx, n) == [answers[idx].bytes] + BytesBetween(answers, idx + 1, n);
    }
  }

  lemma {:induction false} EnumeratesShort(answers: seq<Answer>, idx: nat)
    requires idx <= ID_SEGMENT_COUNT_MAX
    ensures var r := Enumerate(answers, idx);
      r.Listed? ==> AllShort(r.segments) && |r.segments| <= ID_SEGMENT_COUNT_MAX - idx
    ensures var r := Enumerate(answers, idx); r.Refused? ==> r.status != OK
    decreases ID_SEGMENT_COUNT_MAX - idx
  {
    if idx < ID_SEGMENT_COUNT_MAX {
      EnumeratesShort(answers, idx + 1);
    }
  }

  /** Everything hashed is far below the length at which the bit counter wraps. */
  lemma ShortEnough(segments: seq<seq<u8>>)
    requires AllShort(segments) && |segments| <= ID_SEGMENT_COUNT_MAX
    ensures 8 * |Preimage(segments)| < TWO_64
  {
    FramedLength(segments);
  }

  lemma PrefixedSnoc(segments: seq<seq<u8>>, s: seq<u8>, rest: Listing)
    ensures Prefixed(segments, Prefixed([s], rest)) == Prefixed(segments + [s], rest)
  {
    if rest.Listed? {
      assert segments + ([s] + rest.segments) == segments + [s] + rest.segments;
    }
  }

  /** Absorbs one segment behind its length. */
  method HashFramed(ctx: Sha256.Context, segment: seq<u8>)
    requires ctx.Valid() && |segment| <= ID_SEGMENT_MAX
    modifies ctx, ctx.state, ctx.buffer
    ensures ctx.Valid() && ctx.message == old(ctx.message) + [|segment|] + segment
  {
    var lengthByte: u8 := |segment| % 256;
    ctx.Update([lengthByte]);
    if |segment| > 0 {
      ctx.Update(segment);
    } else {
      NothingAdded(ctx.message, segment);
    }
  }

  method HashSegment(ctx: Sha256.Context, segment: seq<u8>, ghost segments: seq<seq<u8>>)
    requires ctx.Valid() && ctx.message == Preimage(segments) && |segment| <= ID_SEGMENT_MAX
    modifies ctx, ctx.state, ctx.buffer
    ensures ctx.Valid() && ctx.message == Preimage(segments + [segment])
  {
    PreimageSnoc(segments, segment);
    HashFramed(ctx, segment);
  }

  lemma NothingAdded(m: seq<u8>, none: seq<u8>)
    requires none == []
    ensures m + none == m
  {
  }

  /** Streams the segments into the hash until the platform has no more. */
  method HashSegments(ctx: Sha256.Context, answers: seq<Answer>)
      returns (status: Status, accepted: nat, ghost segments: seq<seq<u8>>)
    requires ctx.Valid() && ctx.message == []
    modifies ctx, ctx.state, ctx.buffer
    ensures Enumerate(answers, 0) == if status == OK then Listed(segments) else Refused(status)
    ensures status == OK ==> ctx.Valid() && ctx.message == Preimage(segments) && accepted == |segments|
  {
    ctx.Update(DOMAIN);
    accepted, segments, status := 0, [], OK;
    assert ctx.message == Preimage([]);
    for idx := 0 to ID_SEGMENT_COUNT_MAX
      invariant ctx.Valid() && ctx.message == Preimage(segments) && accepted == |segments|
      invariant Enumerate(answers, 0) == Prefixed(segments, Enumerate(answers, idx))
    {
      var a := AnswerAt(answers, idx);
      if a.status == NO_MORE_SEGMENTS {
        return;
      }
      if a.status != OK {
        status := a.status;
        return;
      }
      if |a.bytes| > ID_SEGMENT_MAX {
        status := PLATFORM;
        return;
      }
      PrefixedSnoc(segments, a.bytes, Enumerate(answers, idx + 1));
      HashSegment(ctx, a.bytes, segments);
      segments := segments + [a.bytes];
      accepted := accepted + 1;
    }
  }

  /** The digest is written only on success; a failure leaves zeros. */
  method ComputeFingerprint(hal: Option<Hal>, out: array<u8>) returns (status: Status)
    requires out.Length == FINGERPRINT_LEN
    modifies out
    ensures status == Outcome(hal).0
    ensures status == OK ==> out[..] == Outcome(hal).1
    ensures status != OK ==>
      if hal.None? || hal.value.segments.None? then out[..] == old(out[..])
      else forall k :: 0 <= k < FINGERPRINT_LEN ==> out[k] == 0
  {
    if hal.None? || hal.value.segments.None? {
      return INVALID_ARG;
    }
    var answers := hal.value.segments.value;
    EnumeratesShort(answers, 0);
    var ctx := new Sha256.Context();
    var accepted: nat;
    ghost var segments;
    status, accepted, segments := HashSegments(ctx, answers);
    if status == OK && accepted == 0 {
      status := PLATFORM;
    }
    if status == OK {
      ShortEnough(segments);
      var digest := FinalDigest(ctx, segments);
      forall k | 0 <= k < FINGERPRINT_LEN {
        out[k] := digest[k];
      }
      assert out[..] == digest;
    } else {
      forall k | 0 <= k < FINGERPRINT_LEN {
        out[k] := 0;
      }
    }
  }

  method FinalDigest(ctx: Sha256.Context, ghost segments: seq<seq<u8>>) returns (digest: seq<u8>)
    requires ctx.Valid() && ctx.message == Preimage(segments) && 8 * |Preimage(segments)| < TWO_64
    modifies ctx, ctx.state, ctx.buffer
    ensures |digest| == FINGERPRINT_LEN && digest == Sha256.Sha256(Preimage(segments))
  {
    Sha256.WholeLength(Preimage(segments));
    digest := ctx.Final();
  }
}
