/** The span a byte range of one file occupies in the torrent's pieces. */
module ByteRangeMapping {
  import opened Arithmetic
  import opened TorrentLayout

  datatype ByteRangeMapper = ByteRangeMapper(layout: Layout, file: nat) {

    ghost predicate Valid() { layout.Valid() && file < |layout.sizes| }

    function FileOffset(): nat
      requires Valid()
    {
      layout.Offset(file)
    }

    function FileSize(): nat
      requires Valid()
    {
      layout.sizes[file]
    }

    function Map(range: ByteRange): PieceSpan
      requires Valid()
    {
      var firstReq := layout.MapFile(file, range.start);
      var lastReq := layout.MapFile(file, range.end);
      var lastPieceLen := layout.PieceSize(lastReq.piece);
      var wanted := lastReq.start + lastReq.length;
      PieceSpan(firstReq.piece, lastReq.piece, firstReq.start,
                if wanted > lastPieceLen then lastPieceLen else wanted)
    }

    function FirstPiece(): int
      requires Valid()
    {
      layout.MapFile(file, 0).piece
    }

    function EndPiece(): int
      requires Valid()
    {
      if FileSize() == 0 then FirstPiece() else layout.MapFile(file, FileSize() - 1).piece + 1
    }

    /** The piece that holds byte k of the file. */
    function PieceOfByte(k: nat): nat
      requires Valid()
    {
      layout.PieceOf(FileOffset() + k)
    }
  }

  ghost predicate InFile(m: ByteRangeMapper, r: ByteRange)
    requires m.Valid()
  {
    0 <= r.start <= r.end < m.FileSize()
  }

  lemma FileInsideTorrent(m: ByteRangeMapper)
    requires m.Valid()
    ensures m.FileOffset() + m.FileSize() <= m.layout.Total()
  {
    OffsetMono(m.layout, m.file, |m.layout.sizes|);
  }

  lemma ByteInPiece(a: int, b: int, n: int, p: int) returns (x: int)
    requires 0 < n && a <= b && a / n <= p <= b / n
    ensures a <= x <= b && x / n == p
  {
    DivBounds(a, n);
    DivBounds(b, n);
    MulMono(p, b / n, n);
    x := Max(a, p * n);
    if a / n < p {
      MulSucc(a / n, n);
      MulMono(a / n + 1, p, n);
    }
    DivUnique(x, n, p);
  }

  lemma MapIsDivision(m: ByteRangeMapper, r: ByteRange)
    requires m.Valid() && InFile(m, r)
    ensures m.Map(r).first == (m.FileOffset() + r.start) / m.layout.pieceLength
    ensures m.Map(r).last == (m.FileOffset() + r.end) / m.layout.pieceLength
  {
  }

  /** map_file divides as C++ does: quotient and remainder make up the torrent byte, and the remainder is shorter than a
      piece and has the sign of the byte. */
  lemma MapFileTruncates(l: Layout, file: nat, offset: int)
    requires l.Valid() && file < |l.sizes|
    ensures var b, q, n := l.Offset(file) + offset, l.MapFile(file, offset), l.pieceLength;
      && q.piece * n + q.start == b && q.length == 1
      && (b >= 0 ==> 0 <= q.start < n) && (b < 0 ==> 0 < q.start + n <= n)
  {
    var b, n := l.Offset(file) + offset, l.pieceLength;
    DivBounds(if b >= 0 then b else -b, n);
  }

  /** A piece meets a byte range exactly when it holds one of its bytes. */
  lemma PieceMeetsRange(m: ByteRangeMapper, r: ByteRange, p: int)
    requires m.Valid() && InFile(m, r)
    ensures m.Map(r).first <= p <= m.Map(r).last
       <==> exists k: nat :: r.start <= k <= r.end && m.PieceOfByte(k) == p
  {
    var n, base := m.layout.pieceLength, m.FileOffset();
    MapIsDivision(m, r);
    if m.Map(r).first <= p <= m.Map(r).last {
      var x := ByteInPiece(base + r.start, base + r.end, n, p);
      assert m.PieceOfByte(x - base) == p;
    }
    if k: nat :| r.start <= k <= r.end && m.PieceOfByte(k) == p {
      DivMono(base + r.start, base + k, n);
      DivMono(base + k, base + r.end, n);
    }
  }

  /** The pieces of a file are exactly those that hold one of its bytes; an empty file has none, and stands at the piece
      of its offset. */
  lemma FilePieces(m: ByteRangeMapper, p: int)
    requires m.Valid()
    ensures m.FirstPiece() <= p < m.EndPiece() <==> exists k: nat :: k < m.FileSize() && m.PieceOfByte(k) == p
    ensures m.FirstPiece() == m.FileOffset() / m.layout.pieceLength
    ensures m.FileSize() == 0 ==> m.EndPiece() == m.FirstPiece()
  {
    if m.FileSize() > 0 {
      var whole := ByteRange(0, m.FileSize() - 1);
      PieceMeetsRange(m, whole, p);
      assert m.Map(whole).first == m.FirstPiece() && m.Map(whole).last + 1 == m.EndPiece();
    }
  }

  /** A byte's offset within its piece is below that piece's size, also in the shorter last piece. */
  lemma OffsetInsidePiece(l: Layout, b: nat)
    requires l.Valid() && b < l.Total()
    ensures b % l.pieceLength < l.PieceSize(b / l.pieceLength)
  {
    EngineGeometry(l);
    DivBounds(b, l.pieceLength);
  }

  /** A range's span stays within the pieces of its file, and its file's within the torrent's. */
  lemma SpanStaysInFile(m: ByteRangeMapper, r: ByteRange)
    requires m.Valid() && InFile(m, r)
    ensures m.FirstPiece() <= m.Map(r).first <= m.Map(r).last < m.EndPiece() <= m.layout.NumPieces()
  {
    var n, base := m.layout.pieceLength, m.FileOffset();
    FileInsideTorrent(m);
    EngineGeometry(m.layout);
    DivMono(base, base + r.start, n);
    DivMono(base + r.start, base + r.end, n);
    DivMono(base + r.end, base + m.FileSize() - 1, n);
    assert m.layout.PieceOf(base + m.FileSize() - 1) < m.layout.NumPieces();
  }

  /** The clamp never bites, and the span starts, ends and counts bytes exactly as the range does. */
  lemma SpanIsExact(m: ByteRangeMapper, r: ByteRange)
    requires m.Valid() && InFile(m, r)
    ensures var s, n := m.Map(r), m.layout.pieceLength;
      && 0 <= s.firstOffset < m.layout.PieceSize(s.first)
      && s.first * n + s.firstOffset == m.FileOffset() + r.start
      && s.last * n + s.lastLength == m.FileOffset() + r.end + 1
      && 0 < s.lastLength <= m.layout.PieceSize(s.last)
      && (s.last - s.first) * n + s.lastLength - s.firstOffset == r.end - r.start + 1
  {
    var n, base, s := m.layout.pieceLength, m.FileOffset(), m.Map(r);
    FileInsideTorrent(m);
    DivBounds(base + r.start, n);
    DivBounds(base + r.end, n);
    OffsetInsidePiece(m.layout, base + r.start);
    OffsetInsidePiece(m.layout, base + r.end);
    MulSub(s.last, s.first, n);
  }
}
