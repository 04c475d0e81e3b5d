/** transport/vl_chunk.c: a message reassembled from numbered pieces in any order. */
module Chunk {
  import opened Words
  import opened Digits
  import opened Modular
  import opened Bits
  import opened Core

  const MAX_LEN: nat := 192
  const BITMAP_LEN: nat := 24

  // -------------------------------------------------------------- pieces of a message

  /** The number of pieces. */
  function Pieces(size: nat, total: nat): (n: nat)
    requires size > 0 && total > 0
  {
    (total - 1) / size + 1
  }

  /** Where piece k starts and how long it is: only the last may be shorter than the rest. */
  function Offset(size: nat, k: nat): nat
  {
    k * size
  }

  function Length(size: nat, total: nat, k: nat): nat
    requires size > 0 && Offset(size, k) <= total
  {
    if total - k * size > size then size else total - k * size
  }

  /** Piece k lies inside the message, is not empty, and ends where piece k + 1 starts; the last
      one ends the message. So the pieces tile it. */
  lemma PiecesTile(size: nat, total: nat, k: nat)
    requires size > 0 && total > 0 && k < Pieces(size, total)
    ensures Offset(size, k) < total && 0 < Length(size, total, k)
    ensures Offset(size, k) + Length(size, total, k)
         == if k + 1 < Pieces(size, total) then Offset(size, k + 1) else total
  {
    var q, r := (total - 1) / size, (total - 1) % size;
    assert total - 1 == q * size + r;
    MulMono(k, q, size);
    assert (k + 1) * size == k * size + size;
    if k < q {
      MulMono(k + 1, q, size);
    }
  }

  lemma PiecesAreDisjoint(size: nat, total: nat, j: nat, k: nat)
    requires size > 0 && total > 0 && j < k < Pieces(size, total)
    ensures Offset(size, j) < total
    ensures Offset(size, j) + Length(size, total, j) <= Offset(size, k) < total
  {
    PiecesTile(size, total, j);
    PiecesTile(size, total, k);
    MulMono(j + 1, k, size);
  }

  /** There are at most as many pieces as bytes. */
  lemma PiecesAreFew(size: nat, total: nat)
    requires size > 0 && total > 0
    ensures 0 < Pieces(size, total) <= total
  {
    var q := (total - 1) / size;
    assert total - 1 == q * size + (total - 1) % size;
    MulMono(1, size, q);
  }

  function Piece(message: seq<u8>, size: nat, k: nat): seq<u8>
    requires size > 0 && Offset(size, k) <= |message|
  {
    message[Offset(size, k)..Offset(size, k) + Length(size, |message|, k)]
  }

  /** The first n pieces held, one after the other. */
  function Joined(held: map<nat, seq<u8>>, n: nat): seq<u8>
    requires forall k :: 0 <= k < n ==> k in held
  {
    if n == 0 then [] else Joined(held, n - 1) + held[n - 1]
  }

  // ---------------------------------------------------------------- the bitmap

  /** Is bit k of the bitmap set? */
  ghost predicate Marked(seen: seq<u8>, k: nat)
    requires k < 8 * |seen|
  {
    BitOf(seen[k / 8], k % 8) == 1
  }

  lemma MaskFits(k: nat)
    requires k < 8
    ensures 0 < Pow2(k) < 256
  {
    assert Pow(2, 8) == 256;
    PowGrows(2, k, 7);
    assert Pow(2, 7) == 128;
  }

  /** Setting bit k sets that bit and no other. */
  lemma MarkOne(seen: seq<u8>, k: nat, after: seq<u8>)
    requires k < 8 * |seen|
    requires 0 <= Or(seen[k / 8], Pow2(k % 8), BYTE) < 256
    requires after == seen[k / 8 := Or(seen[k / 8], Pow2(k % 8), BYTE)]
    ensures forall j :: 0 <= j < 8 * |seen| ==> (Marked(after, j) <==> j == k || Marked(seen, j))
  {
    forall j | 0 <= j < 8 * |seen|
      ensures Marked(after, j) <==> j == k || Marked(seen, j)
    {
      if j / 8 == k / 8 {
        OrBit(seen[k / 8], k % 8, BYTE, j % 8);
      }
    }
  }

  // --------------------------------------------------- pieces by number, abstractly

  /** The buffer holds piece k of the map where it belongs. */
  ghost predicate Holding(b: seq<u8>, size: nat, total: nat, held: map<nat, seq<u8>>, k: nat)
    requires size > 0 && 0 < total <= |b|
  {
    k in held ==>
      && k < Pieces(size, total) && Offset(size, k) < total
      && |held[k]| == Length(size, total, k)
      && b[Offset(size, k)..Offset(size, k) + |held[k]|] == held[k]
  }

  /** A piece that may be taken: numbered in range, and exactly as long as its place. */
  ghost predicate WellFormed(size: nat, total: nat, k: nat, data: seq<u8>)
    requires size > 0 && total > 0
  {
    k < Pieces(size, total) && Offset(size, k) < total && |data| == Length(size, total, k)
  }

  /** What a piece offered does: the first copy is kept, later ones are compared with it. */
  ghost function Offer(size: nat, total: nat, held: map<nat, seq<u8>>, k: nat, data: seq<u8>)
      : (r: (Status, map<nat, seq<u8>>))
    requires size > 0 && total > 0
  {
    if !WellFormed(size, total, k, data) then (BAD_FORMAT, held)
    else if k in held then (if held[k] == data then OK else BAD_FORMAT, held)
    else (OK, held[k := data])
  }

  /** A piece is numbered in range exactly when it starts inside the message. */
  lemma StartsInside(size: nat, total: nat, k: nat)
    requires size > 0 && total > 0
    ensures k < Pieces(size, total) <==> k * size < total
  {
    if k < Pieces(size, total) {
      PiecesTile(size, total, k);
    } else {
      var q := (total - 1) / size;
      assert total - 1 == q * size + (total - 1) % size;
      MulMono(q + 1, k, size);
      assert (q + 1) * size == q * size + size;
    }
  }

  /** An offer is answered OK exactly when the piece starts inside the message, has the length left
      for it, and is afterwards held with just these bytes; otherwise it changes nothing. */
  lemma OfferIs(size: nat, total: nat, held: map<nat, seq<u8>>, k: nat, data: seq<u8>)
    requires size > 0 && total > 0
    ensures var r := Offer(size, total, held, k, data);
      && (r.0 == OK <==>
            && k * size < total && |data| == (if total - k * size < size then total - k * size else size)
            && k in r.1 && r.1[k] == data)
      && (r.0 != OK ==> r == (BAD_FORMAT, held))
      && (forall j :: j != k ==> (j in r.1 <==> j in held) && (j in held ==> r.1[j] == held[j]))
      && (k in held ==> k in r.1 && r.1[k] == held[k])
  {
    StartsInside(size, total, k);
  }

  /** A new piece disturbs no other. */
  lemma HoldingAfter(b: seq<u8>, size: nat, total: nat, held: map<nat, seq<u8>>, k: nat, data: seq<u8>, j: nat)
    requires size > 0 && 0 < total <= |b| && WellFormed(size, total, k, data) && k !in held
    requires Holding(b, size, total, held, j)
    ensures Offset(size, k) + |data| <= |b|
    ensures var off := Offset(size, k);
      Holding(b[..off] + data + b[off + |data|..], size, total, held[k := data], j)
  {
    PiecesTile(size, total, k);
    var off := Offset(size, k);
    var after := b[..off] + data + b[off + |data|..];
    if j == k {
      assert after[off..off + |data|] == data;
    } else if j in held {
      var at, n := Offset(size, j), |held[j]|;
      if j < k {
        PiecesAreDisjoint(size, total, j, k);
      } else {
        PiecesAreDisjoint(size, total, k, j);
      }
      assert after[at..at + n] == b[at..at + n];
    }
  }

  /** Where the first n pieces end. */
  function EndOf(size: nat, total: nat, n: nat): nat
    requires size > 0 && total > 0
  {
    if n < Pieces(size, total) then Offset(size, n) else total
  }

  /** The front of the buffer is the pieces in order. */
  lemma {:induction false} JoinedIs(b: seq<u8>, size: nat, total: nat, held: map<nat, seq<u8>>, n: nat)
    requires size > 0 && 0 < total <= |b| && n <= Pieces(size, total)
    requires forall k: nat :: Holding(b, size, total, held, k)
    requires forall k :: 0 <= k < n ==> k in held
    ensures EndOf(size, total, n) <= total && b[..EndOf(size, total, n)] == Joined(held, n)
    decreases n
  {
    if n == 0 {
      PiecesAreFew(size, total);
      assert b[..0] == [];
    } else {
      JoinedIs(b, size, total, held, n - 1);
      PiecesTile(size, total, n - 1);
      assert Holding(b, size, total, held, n - 1);
      var i, j := EndOf(size, total, n - 1), EndOf(size, total, n);
      assert b[..j] == b[..i] + b[i..j];
    }
  }

  ghost predicate Complete(size: nat, total: nat, held: map<nat, seq<u8>>)
    requires size > 0 && total > 0
  {
    forall k :: 0 <= k < Pieces(size, total) ==> k in held
  }

  /** A message's pieces, all there, make the message. */
  lemma PiecesMakeMessage(size: nat, message: seq<u8>, held: map<nat, seq<u8>>)
    requires size > 0 && message != []
    requires forall k :: 0 <= k < Pieces(size, |message|) ==>
      k in held && Offset(size, k) < |message| && held[k] == Piece(message, size, k)
    ensures Joined(held, Pieces(size, |message|)) == message
  {
    var total := |message|;
    var shown := map k | k in held && k < Pieces(size, total) :: held[k];
    forall k: nat
      ensures Holding(message, size, total, shown, k)
    {
      if k in shown {
        PiecesTile(size, total, k);
      }
    }
    JoinedIs(message, size, total, shown, Pieces(size, total));
    JoinedSame(held, shown, Pieces(size, total));
    assert message[..total] == message;
  }

  lemma {:induction false} JoinedSame(a: map<nat, seq<u8>>, b: map<nat, seq<u8>>, n: nat)
    requires forall k :: 0 <= k < n ==> k in a && k in b && a[k] == b[k]
    ensures Joined(a, n) == Joined(b, n)
  {
    if n != 0 {
      JoinedSame(a, b, n - 1);
    }
  }

  // --------------------------------------------------------------------- whole runs

  datatype Feeding = Feeding(k: u32, data: seq<u8>)

  /** The map after offering the pieces in order. */
  ghost function FeedAll(size: nat, total: nat, feeds: seq<Feeding>): map<nat, seq<u8>>
    requires size > 0 && total > 0
  {
    if feeds == [] then map[]
    else
      var f := feeds[|feeds| - 1];
      Offer(size, total, FeedAll(size, total, feeds[..|feeds| - 1]), f.k, f.data).1
  }

  /** The first well-formed copy of piece k among those offered. */
  ghost predicate IsFirstCopy(size: nat, total: nat, feeds: seq<Feeding>, k: nat, i: nat)
    requires size > 0 && total > 0
  {
    && i < |feeds| && feeds[i].k == k && WellFormed(size, total, k, feeds[i].data)
    && forall j :: 0 <= j < i && feeds[j].k == k ==> !WellFormed(size, total, k, feeds[j].data)
  }

  /** A run keeps exactly the first well-formed copy of every piece, whatever else was offered. */
  lemma {:induction false} FirstCopyWins(size: nat, total: nat, feeds: seq<Feeding>, k: nat)
    requires size > 0 && total > 0
    ensures k in FeedAll(size, total, feeds) <==> exists i: nat :: IsFirstCopy(size, total, feeds, k, i)
    ensures forall i: nat :: IsFirstCopy(size, total, feeds, k, i) ==>
      k in FeedAll(size, total, feeds) && FeedAll(size, total, feeds)[k] == feeds[i].data
    decreases |feeds|
  {
    if feeds != [] {
      var n := |feeds| - 1;
      var before := feeds[..n];
      FirstCopyWins(size, total, before, k);
      forall i: nat | i < n
        ensures IsFirstCopy(size, total, before, k, i) == IsFirstCopy(size, total, feeds, k, i)
      {
      }
      if feeds[n].k == k && WellFormed(size, total, k, feeds[n].data) {
        if k !in FeedAll(size, total, before) {
          NoEarlierCopy(size, total, feeds, k, n);
        }
      }
    }
  }

  /** When no copy is first, no copy is well-formed. */
  lemma {:induction false} NoEarlierCopy(size: nat, total: nat, feeds: seq<Feeding>, k: nat, n: nat)
    requires size > 0 && total > 0 && n < |feeds|
    requires feeds[n].k == k && WellFormed(size, total, k, feeds[n].data)
    ensures exists i: nat :: i <= n && IsFirstCopy(size, total, feeds, k, i)
    decreases n
  {
    if j: nat :| j < n && feeds[j].k == k && WellFormed(size, total, k, feeds[j].data) {
      NoEarlierCopy(size, total, feeds, k, j);
    } else {
      assert IsFirstCopy(size, total, feeds, k, n);
    }
  }

  /** The answer to the i-th piece offered in a run. */
  ghost function AnswerTo(size: nat, total: nat, feeds: seq<Feeding>, i: nat): Status
    requires size > 0 && total > 0 && i < |feeds|
  {
    Offer(size, total, FeedAll(size, total, feeds[..i]), feeds[i].k, feeds[i].data).0
  }

  /** Up to the i-th piece offered, the first well-formed copy of its number has its bytes. */
  ghost predicate RepeatsFirst(size: nat, total: nat, feeds: seq<Feeding>, i: nat)
    requires size > 0 && total > 0 && i < |feeds|
  {
    exists j: nat :: j <= i && IsFirstCopy(size, total, feeds, feeds[i].k, j) && feeds[j].data == feeds[i].data
  }

  /** In a run, a piece is answered OK exactly when its bytes are those of the first well-formed
      copy of it: a retransmission may not differ. */
  lemma AnswersAre(size: nat, total: nat, feeds: seq<Feeding>, i: nat)
    requires size > 0 && total > 0 && i < |feeds|
    ensures AnswerTo(size, total, feeds, i) == if RepeatsFirst(size, total, feeds, i) then OK else BAD_FORMAT
  {
    var k, before := feeds[i].k, feeds[..i];
    FirstCopyWins(size, total, before, k);
    forall j: nat | j < i
      ensures IsFirstCopy(size, total, before, k, j) == IsFirstCopy(size, total, feeds, k, j)
    {
    }
    if WellFormed(size, total, k, feeds[i].data) {
      NoEarlierCopy(size, total, feeds, k, i);
      var j: nat :| j <= i && IsFirstCopy(size, total, feeds, k, j);
      if j < i {
        assert IsFirstCopy(size, total, before, k, j);
      }
    }
  }

  /** Every well-formed piece offered is the message's own, and every piece is offered. */
  ghost predicate Delivers(size: nat, message: seq<u8>, feeds: seq<Feeding>)
    requires size > 0 && message != []
  {
    && (forall i :: 0 <= i < |feeds| ==> Honest(size, message, feeds[i]))
    && forall k :: 0 <= k < Pieces(size, |message|) ==> Contains(size, message, feeds, k)
  }

  ghost predicate Contains(size: nat, message: seq<u8>, feeds: seq<Feeding>, k: nat)
    requires size > 0
  {
    exists i :: 0 <= i < |feeds| && IsPiece(size, message, feeds[i], k)
  }

  ghost predicate Honest(size: nat, message: seq<u8>, f: Feeding)
    requires size > 0 && message != []
  {
    WellFormed(size, |message|, f.k, f.data) ==> f.data == Piece(message, size, f.k)
  }

  ghost predicate IsPiece(size: nat, message: seq<u8>, f: Feeding, k: nat)
    requires size > 0
  {
    f.k == k && Offset(size, k) < |message| && f.data == Piece(message, size, k)
  }

  /** Whatever the order and the repetitions, the pieces of one message give that message. */
  lemma AnyOrder(size: nat, message: seq<u8>, feeds: seq<Feeding>)
    requires size > 0 && message != [] && Delivers(size, message, feeds)
    ensures Complete(size, |message|, FeedAll(size, |message|, feeds))
    ensures Joined(FeedAll(size, |message|, feeds), Pieces(size, |message|)) == message
  {
    var held := FeedAll(size, |message|, feeds);
    forall k | 0 <= k < Pieces(size, |message|)
      ensures k in held && Offset(size, k) < |message| && held[k] == Piece(message, size, k)
    {
      DeliveredPiece(size, message, feeds, k);
    }
    PiecesMakeMessage(size, message, held);
  }

  lemma DeliveredPiece(size: nat, message: seq<u8>, feeds: seq<Feeding>, k: nat)
    requires size > 0 && message != [] && Delivers(size, message, feeds) && k < Pieces(size, |message|)
    ensures Offset(size, k) < |message|
    ensures k in FeedAll(size, |message|, feeds) && FeedAll(size, |message|, feeds)[k] == Piece(message, size, k)
  {
    assert Contains(size, message, feeds, k);
    var i :| 0 <= i < |feeds| && IsPiece(size, message, feeds[i], k);
    NoEarlierCopy(size, |message|, feeds, k, i);
    var j: nat :| j <= i && IsFirstCopy(size, |message|, feeds, k, j);
    FirstCopyWins(size, |message|, feeds, k);
    assert Honest(size, message, feeds[j]);
  }

  // ----------------------------------------------------------------- reassembly

  lemma NothingMarked(seen: seq<u8>)
    requires forall k :: 0 <= k < |seen| ==> seen[k] == 0
    ensures forall k :: 0 <= k < 8 * |seen| ==> !Marked(seen, k)
  {
    forall k | 0 <= k < 8 * |seen|
      ensures !Marked(seen, k)
    {
      ZeroHasNoBits(k % 8);
    }
  }

  lemma {:induction false} ZeroHasNoBits(k: nat)
    ensures BitOf(0, k) == 0
  {
    if k > 0 {
      ZeroHasNoBits(k - 1);
    }
  }

  lemma {:induction false} Below(keys: set<nat>, n: nat)
    requires forall k :: k in keys ==> k < n
    ensures |keys| <= n
    ensures |keys| == n <==> forall k :: 0 <= k < n ==> k in keys
    decreases n
  {
    if n == 0 {
      assert keys == {};
    } else if n - 1 in keys {
      var rest := keys - {n - 1};
      Below(rest, n - 1);
      assert forall k :: 0 <= k < n - 1 ==> (k in rest <==> k in keys);
    } else {
      Below(keys, n - 1);
    }
  }

  class Reassembly {
    const buf: array<u8>
    const seen: array<u8>
    var chunkSize: u32
    var totalLen: u32
    var expected: u32
    var have: u32
    var armed: bool
    ghost var held: map<nat, seq<u8>>  // the first accepted copy of each piece

    ghost predicate Shape()
    {
      buf.Length == MAX_LEN + 1 && seen.Length == BITMAP_LEN && buf != seen
    }

    /** The bitmap, the buffer and the count all describe the map. */
    ghost predicate Valid()
      reads this, buf, seen
    {
      && Shape()
      && (armed ==>
            && 0 < chunkSize && 0 < totalLen <= MAX_LEN && expected == Pieces(chunkSize, totalLen)
            && (forall k: nat :: Holding(buf[..], chunkSize, totalLen, held, k))
            && (forall k :: k in held ==> k < expected)
            && (forall k :: 0 <= k < 8 * BITMAP_LEN ==> (Marked(seen[..], k) <==> k in held))
            && have == |held.Keys|)
    }

    constructor ()
      ensures Valid() && !armed && fresh(buf) && fresh(seen)
    {
      buf := new u8[MAX_LEN + 1](_ => 0);
      seen := new u8[BITMAP_LEN](_ => 0);
      chunkSize, totalLen, expected, have, armed, held := 0, 0, 0, 0, false, map[];
    }

    method Clear()
      requires Shape()
      modifies this, buf, seen
      ensures (forall k :: 0 <= k < buf.Length ==> buf[k] == 0) && (forall k :: 0 <= k < seen.Length ==> seen[k] == 0)
      ensures chunkSize == totalLen == expected == have == 0 && !armed && held == map[]
    {
      forall k | 0 <= k < buf.Length {
        buf[k] := 0;
      }
      forall k | 0 <= k < seen.Length {
        seen[k] := 0;
      }
      chunkSize, totalLen, expected, have, armed, held := 0, 0, 0, 0, false, map[];
    }

    /** Sizes out of range leave the state disarmed. The chunk size is checked as the 32-bit value
        that is stored. */
    method Reset(size: nat, total: nat) returns (status: Status)
      requires Valid() && size < TWO_64 && total < TWO_64
      modifies this, buf, seen
      ensures Valid()
      ensures status == if 0 < size < TWO_32 && 0 < total <= 192 then OK else INVALID_ARG
      ensures armed == (status == OK)
      ensures armed ==> chunkSize == size && totalLen == total && held == map[]
    {
      Clear();
      SmallMod(size, TWO_32);
      var cs: u32 := size % TWO_32;
      if cs == 0 || cs != size {
        return INVALID_ARG;
      }
      if total == 0 || total > MAX_LEN {
        return INVALID_ARG;
      }
      PiecesAreFew(size, total);
      chunkSize := cs;
      totalLen := total;
      expected := (total - 1) / cs + 1;
      armed := true;
      NothingMarked(seen[..]);
      status := OK;
    }

    /** Is piece k there already? */
    method IsSeen(k: nat) returns (yes: bool)
      requires Valid() && armed && k < expected
      ensures yes <==> k in held
    {
      PiecesAreFew(chunkSize, totalLen);
      MaskFits(k % 8);
      var mask: u8 := Pow2(k % 8);
      AndBit(seen[k / 8], k % 8, BYTE);
      assert Marked(seen[..], k) <==> k in held;
      yes := And(seen[k / 8], mask, BYTE) != 0;
    }

    method SetSeen(k: nat)
      requires seen.Length == BITMAP_LEN && k < 8 * BITMAP_LEN
      modifies seen
      ensures forall j :: 0 <= j < 8 * BITMAP_LEN ==> (Marked(seen[..], j) <==> j == k || old(Marked(seen[..], j)))
    {
      MaskFits(k % 8);
      ghost var before := seen[..];
      OrByte(seen[k / 8], Pow2(k % 8));
      seen[k / 8] := Or(seen[k / 8], Pow2(k % 8), BYTE);
      MarkOne(before, k, seen[..]);
    }

    /** memcpy */
    method Write(off: nat, data: seq<u8>)
      requires off + |data| <= buf.Length
      modifies buf
      ensures buf[..] == old(buf[..off]) + data + old(buf[off + |data|..])
    {
      forall i | 0 <= i < |data| {
        buf[off + i] := data[i];
      }
    }

    /** Accepts a piece that is new. */
    method Take(k: nat, data: seq<u8>)
      requires Valid() && armed && WellFormed(chunkSize, totalLen, k, data) && k !in held
      modifies this`have, this`held, buf, seen
      ensures Valid() && held == old(held)[k := data]
    {
      PiecesAreFew(chunkSize, totalLen);
      PiecesTile(chunkSize, totalLen, k);
      ghost var b, before := buf[..], held;
      Write(k * chunkSize, data);
      SetSeen(k);
      held := held[k := data];
      forall j: nat
        ensures Holding(buf[..], chunkSize, totalLen, held, j)
      {
        HoldingAfter(b, chunkSize, totalLen, before, k, data, j);
      }
      assert held.Keys == before.Keys + {k};
      Below(held.Keys, expected);
      have := have + 1;
    }

    /** The state after one piece is the map after it. */
    method Feed(k: u32, data: seq<u8>) returns (status: Status)
      requires Valid()
      modifies this`have, this`held, buf, seen
      ensures Valid()
      ensures (status, held) == if !armed then (INVALID_ARG, old(held)) else Offer(chunkSize, totalLen, old(held), k, data)
      ensures !armed ==> status == INVALID_ARG && held == old(held)
      ensures armed ==>
        && (status == OK <==>
              && k * chunkSize < totalLen
              && |data| == (if totalLen - k * chunkSize < chunkSize then totalLen - k * chunkSize else chunkSize)
              && k in held && held[k] == data)
        && (status != OK ==> status == BAD_FORMAT && held == old(held))
      ensures forall j :: j in old(held) ==> j in held && held[j] == old(held)[j]
    {
      if !armed {
        return INVALID_ARG;
      }
      OfferIs(chunkSize, totalLen, held, k, data);
      if k >= expected {
        return BAD_FORMAT;
      }
      PiecesTile(chunkSize, totalLen, k);
      var off: u32 := k * chunkSize;
      var want: u32 := totalLen - off;
      if want > chunkSize {
        want := chunkSize;
      }
      if |data| != want {
        return BAD_FORMAT;
      }
      var yes := IsSeen(k);
      if yes {
        assert Holding(buf[..], chunkSize, totalLen, held, k);
        assert buf[..][off..off + want] == buf[off..off + want];
        status := if buf[off..off + want] == data then OK else BAD_FORMAT;
        return;
      }
      Take(k, data);
      status := OK;
    }

    /** Succeeds exactly when every piece is there, given room, and then yields them in order. */
    method Finish(out: array<u8>) returns (status: Status, outLen: nat)
      requires Valid() && out != buf && out != seen
      modifies out
      ensures status ==
        if !armed then INVALID_ARG
        else if !Complete(chunkSize, totalLen, held) then NOT_FOUND
        else if out.Length < totalLen + 1 then BUFFER_TOO_SMALL
        else OK
      ensures outLen == if status == OK then totalLen else 0
      ensures status == OK ==>
        && Complete(chunkSize, totalLen, held)
        && out[..totalLen] == Joined(held, expected) && out[totalLen] == 0
      ensures status != OK ==> out[..] == old(out[..])
    {
      outLen := 0;
      if !armed {
        return INVALID_ARG, 0;
      }
      Below(held.Keys, expected);
      if have != expected {
        return NOT_FOUND, 0;
      }
      if out.Length < totalLen + 1 {
        return BUFFER_TOO_SMALL, 0;
      }
      JoinedIs(buf[..], chunkSize, totalLen, held, expected);
      assert buf[..][..totalLen] == buf[..totalLen];
      forall i | 0 <= i < totalLen {
        out[i] := buf[i];
      }
      out[totalLen] := 0;
      assert out[..totalLen] == buf[..totalLen];
      return OK, totalLen;
    }
  }

  lemma OrByte(x: u8, y: int)
    requires 0 <= y < 256
    ensures 0 <= Or(x, y, BYTE) < 256
  {
    OrFits(x, y, BYTE);
    assert Pow(2, 8) == 256;
  }

  /** The answers to a run of pieces, one by one. */
  method Answers(size: u32, total: nat, feeds: seq<Feeding>) returns (answers: seq<Status>)
    requires size > 0 && 0 < total <= MAX_LEN
    ensures |answers| == |feeds|
    ensures forall i :: 0 <= i < |feeds| ==>
      answers[i] == if RepeatsFirst(size, total, feeds, i) then OK else BAD_FORMAT
  {
    var c := new Reassembly();
    var started := c.Reset(size, total);
    answers := [];
    for i := 0 to |feeds|
      invariant c.Valid() && c.armed && c.chunkSize == size && c.totalLen == total
      invariant fresh(c) && fresh(c.buf) && fresh(c.seen)
      invariant c.held == FeedAll(size, total, feeds[..i])
      invariant |answers| == i
      invariant forall j :: 0 <= j < i ==>
        answers[j] == if RepeatsFirst(size, total, feeds, j) then OK else BAD_FORMAT
    {
      assert feeds[..i + 1][..i] == feeds[..i];
      AnswersAre(size, total, feeds, i);
      var answer := c.Feed(feeds[i].k, feeds[i].data);
      answers := answers + [answer];
    }
  }

  /** One reassembly, from the first piece to the message. */
  method Reassemble(size: u32, total: nat, feeds: seq<Feeding>, out: array<u8>) returns (status: Status)
    requires size > 0 && 0 < total <= MAX_LEN && out.Length > total
    modifies out
    ensures status == if Complete(size, total, FeedAll(size, total, feeds)) then OK else NOT_FOUND
    ensures status == OK ==>
      && Complete(size, total, FeedAll(size, total, feeds))
      && out[..total] == Joined(FeedAll(size, total, feeds), Pieces(size, total))
  {
    var c := new Reassembly();
    var started := c.Reset(size, total);
    for i := 0 to |feeds|
      invariant c.Valid() && c.armed && c.chunkSize == size && c.totalLen == total
      invariant fresh(c) && fresh(c.buf) && fresh(c.seen)
      invariant c.held == FeedAll(size, total, feeds[..i])
    {
      assert feeds[..i + 1][..i] == feeds[..i];
      var fed := c.Feed(feeds[i].k, feeds[i].data);
    }
    assert feeds[..|feeds|] == feeds;
    var outLen;
    status, outLen := c.Finish(out);
  }
}
