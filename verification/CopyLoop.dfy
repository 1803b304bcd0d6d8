/**
 How a request (offset, size) is cut into chunk pieces. `AsWritten` is the loop
 of the source; `Intended` differs from it in one test, the one that decides
 where a piece ends.
 */
module CopyLoop {
  import opened Arithmetic

  datatype Form = AsWritten | Intended

  /** One round of the loop: `delta` bytes at bufferStart of the buffer and at chunkStart of chunk `index`. */
  datatype Piece = Piece(index: nat, chunkStart: nat, bufferStart: int, delta: int)

  function Min(a: int, b: int): int { if a < b then a else b }

  function PieceAt(form: Form, C: Positive, size: nat, count: nat, bufferStart: int, offset: nat): Piece {
    var remaining := size - bufferStart;
    var chunkStart := offset % C;
    var chunkEnd :=
      match form
      case AsWritten => if bufferStart + remaining > C then C else chunkStart + remaining
      case Intended => Min(C, chunkStart + remaining);
    Piece(count, chunkStart, bufferStart, chunkEnd - chunkStart)
  }

  /** The rounds from `count` to `last`. */
  function Pieces(form: Form, C: Positive, size: nat, count: nat, last: nat, bufferStart: int, offset: nat): seq<Piece>
    decreases last + 1 - count
  {
    if count > last then []
    else
      var p := PieceAt(form, C, size, count, bufferStart, offset);
      [p] + Pieces(form, C, size, count + 1, last, bufferStart + p.delta, 0)
  }

  function Split(form: Form, C: Positive, size: nat, offset: nat): seq<Piece> {
    Pieces(form, C, size, offset / C, (size + offset) / C, 0, offset)
  }

  /**
   The pieces carry buffer bytes [bufferStart, size) to file positions
   [base + bufferStart, base + size), in order, none leaving its chunk.
   */
  ghost predicate Tiles(C: Positive, ps: seq<Piece>, base: nat, bufferStart: nat, size: nat) {
    if ps == [] then bufferStart == size
    else
      && ps[0].bufferStart == bufferStart
      && ps[0].delta >= 0
      && ps[0].chunkStart < C && ps[0].chunkStart + ps[0].delta <= C
      && ps[0].index * C + ps[0].chunkStart == base + bufferStart
      && Tiles(C, ps[1..], base, bufferStart + ps[0].delta, size)
  }

  /** A partition also visits the chunk in which the request ends, even for no byte. */
  ghost predicate Partition(C: Positive, ps: seq<Piece>, offset: nat, size: nat) {
    && Tiles(C, ps, offset, 0, size)
    && ps != [] && ps[|ps| - 1].index == (size + offset) / C
  }

  // ---------- chunks and places ----------

  /** x lies in chunk q exactly when its quotient is q. */
  lemma InChunk(C: Positive, x: nat, q: int)
    ensures x / C == q <==> q * C <= x < q * C + C
  {
    DivMod(C, x);
    if x / C < q {
      MulMono(C, x / C + 1, q);
    } else if x / C > q {
      MulMono(C, q + 1, x / C);
    }
  }

  /** Where byte i of a file lives. */
  function ChunkOf(C: Positive, i: nat): nat { i / C }
  function PlaceIn(C: Positive, i: nat): nat { i % C }

  lemma Located(C: Positive, i: nat)
    ensures i == ChunkOf(C, i) * C + PlaceIn(C, i) && PlaceIn(C, i) < C
  {
    DivMod(C, i);
  }

  lemma Locate(C: Positive, index: nat, place: nat)
    requires place < C
    ensures index * C + place >= 0
    ensures ChunkOf(C, index * C + place) == index && PlaceIn(C, index * C + place) == place
  {
    MulMono(C, 0, index);
    InChunk(C, index * C + place, index);
    DivMod(C, index * C + place);
  }

  // ---------- the intended loop ----------

  /** Round `count` is the last one exactly when the request ends before chunk count + 1. */
  lemma LastRound(C: Positive, end: nat, count: nat)
    requires count <= end / C
    ensures count == end / C <==> end < count * C + C
    ensures (count + 1) * C == count * C + C
  {
    InChunk(C, end, count);
    InChunk(C, end, end / C);
    MulMono(C, count, end / C);
  }

  lemma {:induction false} IntendedTiles(C: Positive, size: nat, base: nat, count: nat, bufferStart: nat, offset: nat)
    requires bufferStart <= size && count <= (size + base) / C
    requires count * C + offset % C == base + bufferStart
    ensures Tiles(C, Pieces(Intended, C, size, count, (size + base) / C, bufferStart, offset), base, bufferStart, size)
    decreases (size + base) / C - count
  {
    var last := (size + base) / C;
    var p := PieceAt(Intended, C, size, count, bufferStart, offset);
    var rest := Pieces(Intended, C, size, count + 1, last, bufferStart + p.delta, 0);
    var ps := Pieces(Intended, C, size, count, last, bufferStart, offset);
    assert ps[0] == p && ps[1..] == rest;
    DivMod(C, offset);
    LastRound(C, size + base, count);
    if count < last {
      IntendedTiles(C, size, base, count + 1, bufferStart + p.delta, 0);
    } else {
      assert rest == [];
    }
  }

  lemma {:induction false} PieceIndices(form: Form, C: Positive, size: nat, count: nat, last: nat, bufferStart: int, offset: nat)
    requires count <= last + 1
    ensures var ps := Pieces(form, C, size, count, last, bufferStart, offset);
      |ps| == last + 1 - count && forall i :: 0 <= i < |ps| ==> ps[i].index == count + i
    decreases last + 1 - count
  {
    if count <= last {
      var p := PieceAt(form, C, size, count, bufferStart, offset);
      PieceIndices(form, C, size, count + 1, last, bufferStart + p.delta, 0);
    }
  }

  lemma SplitIndices(form: Form, C: Positive, size: nat, offset: nat)
    ensures offset / C <= (size + offset) / C
    ensures var ps := Split(form, C, size, offset);
      |ps| == (size + offset) / C + 1 - offset / C && forall i :: 0 <= i < |ps| ==> ps[i].index == offset / C + i
  {
    DivMono(C, offset, size + offset);
    PieceIndices(form, C, size, offset / C, (size + offset) / C, 0, offset);
  }

  /** The intended loop partitions every request. */
  lemma IntendedPartitions(C: Positive, size: nat, offset: nat)
    ensures Partition(C, Split(Intended, C, size, offset), offset, size)
  {
    SplitIndices(Intended, C, size, offset);
    DivMod(C, offset);
    IntendedTiles(C, size, offset, offset / C, 0, offset);
  }

  // ---------- the loop as written ----------

  /** Within one chunk, its end included, both forms cut alike. */
  lemma FormsAgree(C: Positive, size: nat, offset: nat)
    requires offset % C + size <= C
    ensures Split(AsWritten, C, size, offset) == Split(Intended, C, size, offset)
  {
    var a, last := offset / C, (size + offset) / C;
    DivMod(C, offset);
    SplitIndices(AsWritten, C, size, offset);
    LastRound(C, size + offset, a);
    if a < last {
      LastRound(C, size + offset, a + 1);
      SecondRound(AsWritten, C, size, last);
      SecondRound(Intended, C, size, last);
    }
    var p := PieceAt(AsWritten, C, size, a, 0, offset);
    assert p == PieceAt(Intended, C, size, a, 0, offset) && (a < last ==> p.delta == size);
    FirstRound(AsWritten, C, size, offset);
    FirstRound(Intended, C, size, offset);
  }

  lemma FirstRound(form: Form, C: Positive, size: nat, offset: nat)
    ensures var p := PieceAt(form, C, size, offset / C, 0, offset);
      Split(form, C, size, offset) == [p] + Pieces(form, C, size, offset / C + 1, (size + offset) / C, p.delta, 0)
    ensures offset / C == (size + offset) / C ==>
      Split(form, C, size, offset) == [PieceAt(form, C, size, offset / C, 0, offset)]
  {
    SplitIndices(form, C, size, offset);
  }

  /** When the request ends at a chunk boundary, the loop still visits the next chunk, for no byte. */
  lemma SecondRound(form: Form, C: Positive, size: nat, last: nat)
    requires size <= C
    ensures Pieces(form, C, size, last, last, size, 0) == [Piece(last, 0, size, 0)]
  {
    assert Pieces(form, C, size, last + 1, last, size, 0) == [];
  }

  /** With size > C the last piece of the loop as written runs to the end of its chunk, past the request. */
  lemma {:induction false} LongPiecesFill(C: Positive, size: nat, base: nat, count: nat, bufferStart: int, offset: nat)
    requires size > C && count <= (size + base) / C && count * C + offset % C == base + bufferStart
    ensures var ps := Pieces(AsWritten, C, size, count, (size + base) / C, bufferStart, offset);
      ps != [] && ps[|ps| - 1].bufferStart + ps[|ps| - 1].delta > size
    decreases (size + base) / C - count
  {
    var last := (size + base) / C;
    var p := PieceAt(AsWritten, C, size, count, bufferStart, offset);
    var ps := Pieces(AsWritten, C, size, count, last, bufferStart, offset);
    var rest := Pieces(AsWritten, C, size, count + 1, last, bufferStart + p.delta, 0);
    assert ps == [p] + rest;
    LastRound(C, size + base, count);
    if count < last {
      LongPiecesFill(C, size, base, count + 1, bufferStart + p.delta, 0);
      assert ps[|ps| - 1] == rest[|rest| - 1];
    }
  }

  /** In a tiling the last piece ends where the request ends. */
  lemma {:induction false} TilesEnd(C: Positive, ps: seq<Piece>, base: nat, bufferStart: nat, size: nat)
    requires Tiles(C, ps, base, bufferStart, size) && ps != []
    ensures var p := ps[|ps| - 1];
      p.chunkStart + p.delta <= C && p.index * C + p.chunkStart + p.delta == base + size && p.bufferStart + p.delta == size
  {
    if |ps| > 1 {
      TilesEnd(C, ps[1..], base, bufferStart + ps[0].delta, size);
    }
  }

  /** The loop as written, out of one chunk: a piece past its chunk or a piece past the buffer. */
  lemma AsWrittenStrays(C: Positive, size: nat, offset: nat)
    requires offset % C + size > C
    ensures var ps := Split(AsWritten, C, size, offset);
      ps != [] && ps[0].index == offset / C
      && if size <= C then ps[0].delta == size && ps[0].chunkStart + ps[0].delta > C
         else ps[|ps| - 1].bufferStart + ps[|ps| - 1].delta > size
  {
    SplitIndices(AsWritten, C, size, offset);
    DivMod(C, offset);
    if size > C {
      LongPiecesFill(C, size, offset, offset / C, 0, offset);
    }
  }

  lemma AsWrittenOverruns(C: Positive, size: nat, offset: nat)
    requires offset % C + size > C
    ensures !Partition(C, Split(AsWritten, C, size, offset), offset, size)
  {
    var ps := Split(AsWritten, C, size, offset);
    AsWrittenStrays(C, size, offset);
    if Tiles(C, ps, offset, 0, size) {
      TilesEnd(C, ps, offset, 0, size);
    }
  }

  /** The loop as written partitions a request exactly when the request stays within one chunk. */
  lemma AsWrittenPartitions(C: Positive, size: nat, offset: nat)
    ensures Partition(C, Split(AsWritten, C, size, offset), offset, size) <==> offset % C + size <= C
    ensures Split(AsWritten, C, size, offset) == Split(Intended, C, size, offset) <==> offset % C + size <= C
  {
    IntendedPartitions(C, size, offset);
    if offset % C + size <= C {
      FormsAgree(C, size, offset);
    } else {
      AsWrittenOverruns(C, size, offset);
    }
  }

  // ---------- no size_t subtraction of either loop wraps around ----------

  ghost predicate InRange(ps: seq<Piece>, size: nat) {
    forall i :: 0 <= i < |ps| ==> 0 <= ps[i].bufferStart <= size && ps[i].delta >= 0
  }

  lemma {:induction false} TilesInRange(C: Positive, ps: seq<Piece>, base: nat, bufferStart: nat, size: nat)
    requires Tiles(C, ps, base, bufferStart, size)
    ensures bufferStart <= size && InRange(ps, size)
  {
    if ps != [] {
      TilesInRange(C, ps[1..], base, bufferStart + ps[0].delta, size);
      assert forall i :: 1 <= i < |ps| ==> ps[i] == ps[1..][i - 1];
    }
  }

  lemma {:induction false} AsWrittenInRange(C: Positive, size: nat, base: nat, count: nat, bufferStart: nat, offset: nat)
    requires bufferStart <= size && count <= (size + base) / C
    requires size > C ==> count * C + offset % C == base + bufferStart
    ensures InRange(Pieces(AsWritten, C, size, count, (size + base) / C, bufferStart, offset), size)
    decreases (size + base) / C - count
  {
    var last := (size + base) / C;
    var p := PieceAt(AsWritten, C, size, count, bufferStart, offset);
    var rest := Pieces(AsWritten, C, size, count + 1, last, bufferStart + p.delta, 0);
    DivMod(C, offset);
    LastRound(C, size + base, count);
    if count < last {
      AsWrittenInRange(C, size, base, count + 1, bufferStart + p.delta, 0);
      assert Pieces(AsWritten, C, size, count, last, bufferStart, offset) == [p] + rest;
    } else {
      assert rest == [];
    }
  }

  lemma SubtractionsNeverWrap(form: Form, C: Positive, size: nat, offset: nat)
    ensures InRange(Split(form, C, size, offset), size)
  {
    SplitIndices(form, C, size, offset);
    DivMod(C, offset);
    if form.AsWritten? {
      AsWrittenInRange(C, size, offset, offset / C, 0, offset);
    } else {
      IntendedPartitions(C, size, offset);
      TilesInRange(C, Split(form, C, size, offset), offset, 0, size);
    }
  }
}
