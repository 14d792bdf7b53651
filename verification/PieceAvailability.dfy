/** Which pieces are complete, and how far the completed bytes run from a point. */
module PieceAvailability {
  import opened Arithmetic
  import opened TorrentLayout
  import opened ByteRangeMapping

  /** The lengths the index was reset with. */
  datatype Geometry = Geometry(pieceLength: int, lastPieceLength: int) {
    function LengthOf(p: int, numPieces: nat): int {
      if p == numPieces - 1 then lastPieceLength else pieceLength
    }
  }

  predicate Complete(done: seq<bool>, p: int) {
    0 <= p < |done| && done[p]
  }

  function Marked(done: seq<bool>, p: int): seq<bool> {
    if 0 <= p < |done| then done[p := true] else done
  }

  function CountTrue(done: seq<bool>): nat {
    if done == [] then 0 else CountTrue(done[..|done| - 1]) + if done[|done| - 1] then 1 else 0
  }

  ghost predicate CompleteThroughout(done: seq<bool>, first: int, end: int) {
    forall p :: first <= p < end ==> Complete(done, p)
  }

  ghost predicate SpanComplete(done: seq<bool>, span: PieceSpan) {
    CompleteThroughout(done, span.first, span.last + 1)
  }

  /** Number of complete pieces in a row from p on. */
  function RunOfPieces(done: seq<bool>, p: int): nat
    decreases |done| - p
  {
    if Complete(done, p) then 1 + RunOfPieces(done, p + 1) else 0
  }

  /** Their bytes. */
  function RunOfBytes(done: seq<bool>, g: Geometry, p: int): int
    decreases |done| - p
  {
    if Complete(done, p) then g.LengthOf(p, |done|) + RunOfBytes(done, g, p + 1) else 0
  }

  function ContiguousBytes(done: seq<bool>, g: Geometry, p: int, offset: int): int {
    if Complete(done, p) then RunOfBytes(done, g, p) - offset else 0
  }

  /** Complete pieces among first..end-1. */
  ghost function CompleteIn(done: seq<bool>, first: int, end: int): set<int> {
    set p | first <= p < end && Complete(done, p)
  }

  /** A share of a whole as the code reports it, before rounding. */
  function Share(part: nat, whole: nat): real {
    if whole == 0 then 0.0 else part as real / whole as real
  }

  // ----- The count

  lemma {:induction false} NothingCounted(done: seq<bool>)
    requires forall p :: 0 <= p < |done| ==> !done[p]
    ensures CountTrue(done) == 0
  {
    if done != [] {
      NothingCounted(done[..|done| - 1]);
    }
  }

  lemma {:induction false} CountBounded(done: seq<bool>)
    ensures CountTrue(done) <= |done|
    ensures CountTrue(done) == |done| <==> forall p :: 0 <= p < |done| ==> done[p]
  {
    if done != [] {
      CountBounded(done[..|done| - 1]);
      assert forall p :: 0 <= p < |done| - 1 ==> done[p] == done[..|done| - 1][p];
    }
  }

  /** Marking raises the count by one the first time and never again. */
  lemma {:induction false} MarkCountsOnce(done: seq<bool>, p: int)
    ensures CountTrue(Marked(done, p)) == CountTrue(done) + if 0 <= p < |done| && !done[p] then 1 else 0
    ensures Marked(Marked(done, p), p) == Marked(done, p)
  {
    if 0 <= p < |done| {
      var n := |done| - 1;
      if p < n {
        MarkCountsOnce(done[..n], p);
        assert Marked(done, p)[..n] == Marked(done[..n], p);
      } else {
        assert Marked(done, p)[..n] == done[..n];
      }
    }
  }

  lemma {:induction false} CountIsCardinality(done: seq<bool>)
    ensures CountTrue(done) == |CompleteIn(done, 0, |done|)|
  {
    var all := CompleteIn(done, 0, |done|);
    if done == [] {
      assert all == {};
    } else {
      var n := |done| - 1;
      CountIsCardinality(done[..n]);
      var init := CompleteIn(done[..n], 0, n);
      assert all == if done[n] then init + {n} else init;
    }
  }

  lemma SignOfProduct(x: real, w: real)
    requires w > 0.0
    ensures x * w > 0.0 <==> x > 0.0
    ensures x * w == 0.0 <==> x == 0.0
  {
  }

  /** The share of a whole, in figures. */
  lemma ShareBounds(part: nat, whole: nat)
    requires part <= whole
    ensures whole > 0 ==> Share(part, whole) * whole as real == part as real
    ensures whole == 0 ==> Share(part, whole) == 0.0
    ensures 0.0 <= Share(part, whole) <= 1.0
    ensures Share(part, whole) == 1.0 <==> 0 < part == whole
  {
    if whole > 0 {
      var share, w := Share(part, whole), whole as real;
      assert share * w == part as real;
      assert (share - 1.0) * w == part as real - w;
      SignOfProduct(share, w);
      SignOfProduct(share - 1.0, w);
    }
  }

  // ----- The index

  class PieceAvailabilityIndex {
    var numPieces: nat
    var geometry: Geometry
    var completed: array<bool>
    var completedCount: nat

    ghost predicate Valid()
      reads this, completed
    {
      completed.Length == numPieces && completedCount == CountTrue(completed[..])
    }

    ghost function Done(): seq<bool>
      reads this, completed
    {
      completed[..]
    }

    constructor (n: nat, g: Geometry)
      ensures Valid() && fresh(completed) && geometry == g
      ensures Done() == seq(n, _ => false)
    {
      numPieces := n;
      geometry := g;
      completed := new bool[n](_ => false);
      completedCount := 0;
      new;
      NothingCounted(completed[..]);
    }

    method Reset(n: nat, g: Geometry)
      modifies this
      ensures Valid() && fresh(completed) && geometry == g
      ensures Done() == seq(n, _ => false)
    {
      numPieces := n;
      geometry := g;
      completed := new bool[n](_ => false);
      completedCount := 0;
      NothingCounted(completed[..]);
    }

    method MarkComplete(piece: int)
      requires Valid()
      modifies this`completedCount, completed
      ensures Valid() && Done() == Marked(old(Done()), piece)
    {
      if piece < 0 || piece >= numPieces {
        return;
      }
      if !completed[piece] {
        MarkCountsOnce(completed[..], piece);
        completed[piece] := true;
        assert completed[..] == Marked(old(completed[..]), piece);
        completedCount := completedCount + 1;
      } else {
        assert Marked(completed[..], piece) == completed[..];
      }
    }

    method IsComplete(piece: int) returns (r: bool)
      requires Valid()
      ensures r <==> Complete(Done(), piece)
    {
      if piece < 0 || piece >= numPieces {
        return false;
      }
      return completed[piece];
    }

    method IsSpanComplete(span: PieceSpan) returns (r: bool)
      requires Valid()
      ensures r <==> SpanComplete(Done(), span)
    {
      var p := span.first;
      while p <= span.last
        invariant span.first <= p
        invariant forall q :: span.first <= q < p && q <= span.last ==> Complete(Done(), q)
        decreases span.last - p
      {
        var complete := IsComplete(p);
        if !complete {
          return false;
        }
        p := p + 1;
      }
      return true;
    }

    method ContiguousFrom(start: int) returns (count: nat)
      requires Valid()
      ensures count == RunOfPieces(Done(), start)
    {
      count := 0;
      var p := start;
      while p < numPieces
        invariant p == start + count
        invariant RunOfPieces(Done(), start) == count + RunOfPieces(Done(), p)
        decreases numPieces - p
      {
        var complete := IsComplete(p);
        if !complete {
          break;
        }
        count := count + 1;
        p := p + 1;
      }
    }

    method ContiguousBytesFrom(startPiece: int, offsetInPiece: int) returns (total: int)
      requires Valid()
      ensures total == ContiguousBytes(Done(), geometry, startPiece, offsetInPiece)
    {
      var complete := IsComplete(startPiece);
      if !complete {
        return 0;
      }
      var firstPieceBytes := if startPiece == numPieces - 1
        then geometry.lastPieceLength - offsetInPiece
        else geometry.pieceLength - offsetInPiece;
      total := firstPieceBytes;
      var p := startPiece + 1;
      while p < numPieces
        invariant startPiece < p
        invariant RunOfBytes(Done(), geometry, startPiece) - offsetInPiece == total + RunOfBytes(Done(), geometry, p)
        decreases numPieces - p
      {
        complete := IsComplete(p);
        if !complete {
          break;
        }
        total := total + (if p == numPieces - 1 then geometry.lastPieceLength else geometry.pieceLength);
        p := p + 1;
      }
    }

    /** The complete share of the pieces; zero for an index without pieces. */
    method Progress() returns (share: real)
      requires Valid()
      ensures share == Share(|CompleteIn(Done(), 0, |Done()|)|, |Done()|)
      ensures Done() != [] ==> share * |Done()| as real == |CompleteIn(Done(), 0, |Done()|)| as real
      ensures 0.0 <= share <= 1.0
      ensures share == 1.0 <==> Done() != [] && forall p :: 0 <= p < |Done()| ==> Done()[p]
    {
      CountIsCardinality(Done());
      CountBounded(Done());
      ShareBounds(completedCount, numPieces);
      if numPieces == 0 {
        return 0.0;
      }
      return completedCount as real / numPieces as real;
    }
  }

  // ----- Runs of complete pieces and bytes

  ghost predicate Grows(done: seq<bool>, done': seq<bool>) {
    |done| == |done'| && forall p :: 0 <= p < |done| && done[p] ==> done'[p]
  }

  /** What engine.select_file hands to Reset for a torrent with at least one byte. */
  ghost predicate FitsLayout(done: seq<bool>, g: Geometry, l: Layout)
    requires l.Valid()
  {
    |done| == l.NumPieces() && g == Geometry(l.pieceLength, l.LastPieceSize())
  }

  /** Torrent byte b exists and lies in a complete piece. */
  ghost predicate ByteComplete(done: seq<bool>, l: Layout, b: nat)
    requires l.Valid()
  {
    b < l.Total() && Complete(done, l.PieceOf(b))
  }

  lemma {:induction false} RunEndsAtGap(done: seq<bool>, p: int)
    ensures forall q :: p <= q < p + RunOfPieces(done, p) ==> Complete(done, q)
    ensures !Complete(done, p + RunOfPieces(done, p))
    decreases |done| - p
  {
    if Complete(done, p) {
      RunEndsAtGap(done, p + 1);
    }
  }

  /** Torrent byte at which piece p starts; past the end, the total. */
  ghost function PieceStart(l: Layout, p: nat): int
    requires l.Valid()
  {
    if p < l.NumPieces() then p * l.pieceLength else l.Total()
  }

  lemma {:induction false} BytesOfRun(done: seq<bool>, g: Geometry, l: Layout, p: nat)
    requires l.Valid() && FitsLayout(done, g, l) && 0 < l.Total() && p <= |done|
    ensures p + RunOfPieces(done, p) <= |done|
    ensures RunOfBytes(done, g, p) == PieceStart(l, p + RunOfPieces(done, p)) - PieceStart(l, p)
    decreases |done| - p
  {
    EngineGeometry(l);
    if Complete(done, p) {
      BytesOfRun(done, g, l, p + 1);
      MulSucc(p, l.pieceLength);
    }
  }

  /** The figure is the bytes up to the end of the run of complete pieces. */
  lemma ContiguousBytesMeaning(done: seq<bool>, g: Geometry, l: Layout, p: nat, offset: nat)
    requires l.Valid() && FitsLayout(done, g, l) && p < |done|
    requires Complete(done, p)
    ensures ContiguousBytes(done, g, p, offset)
         == PieceStart(l, p + RunOfPieces(done, p)) - (p * l.pieceLength + offset)
    ensures p + RunOfPieces(done, p) <= |done|
  {
    BytesOfRun(done, g, l, p);
  }

  lemma ByteInsidePiece(l: Layout, p: nat, offset: nat)
    requires l.Valid() && p < l.NumPieces() && offset < l.PieceSize(p)
    ensures 0 <= p * l.pieceLength + offset < l.Total()
    ensures l.PieceOf(p * l.pieceLength + offset) == p
  {
    var n, last := l.pieceLength, l.NumPieces() - 1;
    EngineGeometry(l);
    MulMono(0, p, n);
    MulSucc(p, n);
    if p < last {
      MulMono(p + 1, last, n);
    }
    DivUnique(p * n + offset, n, p);
  }

  lemma ByteAtPieceStart(l: Layout, e: nat)
    requires l.Valid() && e < l.NumPieces()
    ensures 0 <= e * l.pieceLength < l.Total() && l.PieceOf(e * l.pieceLength) == e
  {
    EngineGeometry(l);
    ByteInsidePiece(l, e, 0);
  }

  lemma ByteBeforePiece(l: Layout, c: nat, e: nat)
    requires l.Valid() && e <= l.NumPieces() && c < PieceStart(l, e)
    ensures c < l.Total() && l.PieceOf(c) < e
  {
    var n, q := l.pieceLength, c / l.pieceLength;
    DivBounds(c, n);
    if e < l.NumPieces() {
      ByteAtPieceStart(l, e);
      if e <= q {
        MulMono(e, q, n);
      }
    } else {
      EngineGeometry(l);
    }
  }

  /** Bytes from b up to the start of piece e are complete, and no further, when the pieces are. */
  lemma RunStopsThere(done: seq<bool>, l: Layout, p: nat, e: nat, b: nat)
    requires l.Valid() && |done| == l.NumPieces() && p < e <= |done| && b < l.Total() && l.PieceOf(b) == p
    requires forall q :: p <= q < e ==> Complete(done, q)
    requires !Complete(done, e)
    ensures b < PieceStart(l, e)
    ensures forall c: nat :: b <= c < PieceStart(l, e) ==> ByteComplete(done, l, c)
    ensures !ByteComplete(done, l, PieceStart(l, e))
  {
    var n := l.pieceLength;
    DivBounds(b, n);
    MulSucc(p, n);
    MulMono(p + 1, e, n);
    if e < l.NumPieces() {
      ByteAtPieceStart(l, e);
    }
    forall c: nat | b <= c < PieceStart(l, e)
      ensures ByteComplete(done, l, c)
    {
      DivMono(b, c, n);
      ByteBeforePiece(l, c, e);
    }
  }

  /** From an offset inside its piece, the figure is the length of the longest run of complete bytes. */
  lemma LongestCompleteRun(done: seq<bool>, g: Geometry, l: Layout, p: nat, offset: nat)
    requires l.Valid() && FitsLayout(done, g, l) && p < |done| && offset < l.PieceSize(p)
    ensures var b, r := p * l.pieceLength + offset, ContiguousBytes(done, g, p, offset);
      && 0 <= r
      && 0 <= b < l.Total()
      && (forall c: nat :: b <= c < b + r ==> ByteComplete(done, l, c))
      && !ByteComplete(done, l, b + r)
      && (r == 0 <==> RunOfPieces(done, p) == 0)
  {
    var b := p * l.pieceLength + offset;
    ByteInsidePiece(l, p, offset);
    if Complete(done, p) {
      var e := p + RunOfPieces(done, p);
      RunEndsAtGap(done, p);
      ContiguousBytesMeaning(done, g, l, p, offset);
      RunStopsThere(done, l, p, e, b);
    }
  }

  lemma {:induction false} RunsGrow(done: seq<bool>, done': seq<bool>, g: Geometry, p: int)
    requires Grows(done, done') && 0 <= g.pieceLength && 0 <= g.lastPieceLength
    ensures RunOfPieces(done, p) <= RunOfPieces(done', p)
    ensures 0 <= RunOfBytes(done, g, p) <= RunOfBytes(done', g, p)
    decreases |done| - p
  {
    if Complete(done', p) {
      RunsGrow(done, done', g, p + 1);
    }
  }

  /** Once positive the figure never falls, wherever the offset lies. */
  lemma PositiveFigureNeverFalls(done: seq<bool>, done': seq<bool>, g: Geometry, p: int, offset: int)
    requires Grows(done, done') && 0 <= g.pieceLength && 0 <= g.lastPieceLength
    requires 0 < ContiguousBytes(done, g, p, offset)
    ensures ContiguousBytes(done, g, p, offset) <= ContiguousBytes(done', g, p, offset)
  {
    RunsGrow(done, done', g, p);
  }

  /** Marking pieces can lower the figure in exactly one case: the last piece becomes complete while the offset
      lies beyond its shorter length. */
  lemma FigureNeverFallsIff(done: seq<bool>, g: Geometry, l: Layout, p: nat, offset: nat)
    requires l.Valid() && FitsLayout(done, g, l) && 0 < l.Total() && p < |done| && offset < l.pieceLength
    ensures (forall done' :: Grows(done, done') ==>
              ContiguousBytes(done, g, p, offset) <= ContiguousBytes(done', g, p, offset))
       <==> !(p == |done| - 1 && !done[p] && l.PieceSize(p) < offset)
  {
    EngineGeometry(l);
    var lastBeyond := p == |done| - 1 && !done[p] && l.PieceSize(p) < offset;
    forall done' | Grows(done, done') && !lastBeyond
      ensures ContiguousBytes(done, g, p, offset) <= ContiguousBytes(done', g, p, offset)
    {
      RunsGrow(done, done', g, p);
      RunsGrow(done, done', g, p + 1);
    }
    if lastBeyond {
      var done' := Marked(done, p);
      assert RunOfBytes(done', g, p + 1) == 0;
      assert Grows(done, done') && ContiguousBytes(done', g, p, offset) < ContiguousBytes(done, g, p, offset);
    }
  }

  /** A range's span is complete exactly when every byte of the range lies in a complete piece. */
  lemma SpanCompleteIffBytesComplete(done: seq<bool>, m: ByteRangeMapper, r: ByteRange)
    requires m.Valid() && InFile(m, r)
    ensures SpanComplete(done, m.Map(r))
       <==> forall c: nat :: m.FileOffset() + r.start <= c <= m.FileOffset() + r.end ==> ByteComplete(done, m.layout, c)
  {
    var base := m.FileOffset();
    FileInsideTorrent(m);
    if SpanComplete(done, m.Map(r)) {
      forall c: nat | base + r.start <= c <= base + r.end
        ensures ByteComplete(done, m.layout, c)
      {
        assert m.PieceOfByte(c - base) == m.layout.PieceOf(c);
        PieceMeetsRange(m, r, m.layout.PieceOf(c));
      }
    }
    if forall c: nat :: base + r.start <= c <= base + r.end ==> ByteComplete(done, m.layout, c) {
      forall p | m.Map(r).first <= p <= m.Map(r).last
        ensures Complete(done, p)
      {
        PieceMeetsRange(m, r, p);
        var k: nat :| r.start <= k <= r.end && m.PieceOfByte(k) == p;
        assert ByteComplete(done, m.layout, base + k);
      }
    }
  }
}
