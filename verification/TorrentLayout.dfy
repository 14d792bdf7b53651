/** Byte geometry of a torrent: files laid end to end, the whole cut into pieces of one length. */
module TorrentLayout {
  import opened Arithmetic

  datatype ByteRange = ByteRange(start: int, end: int)  // inclusive, as in RFC 7233

  datatype PieceSpan = PieceSpan(first: int, last: int, firstOffset: int, lastLength: int)

  datatype PeerRequest = PeerRequest(piece: int, start: int, length: int)

  /** The part of libtorrent's file_storage the repository relies on. */
  datatype Layout = Layout(sizes: seq<nat>, pieceLength: nat) {

    predicate Valid() { 0 < pieceLength }

    function Offset(i: nat): nat
      requires i <= |sizes|
    {
      if i == 0 then 0 else Offset(i - 1) + sizes[i - 1]
    }

    function Total(): nat { Offset(|sizes|) }

    function NumPieces(): nat
      requires Valid()
    {
      DivMono(0, Max(0, Total() - 1), pieceLength);
      if Total() == 0 then 0 else (Total() - 1) / pieceLength + 1
    }

    /** select_file's geometry: what is left for the last piece. */
    function LastPieceSize(): int
      requires Valid()
    {
      Total() - (NumPieces() - 1) * pieceLength
    }

    function PieceSize(p: int): int
      requires Valid()
    {
      if p == NumPieces() - 1 then LastPieceSize() else pieceLength
    }

    function PieceOf(b: nat): nat
      requires Valid()
    {
      DivBounds(b, pieceLength);
      b / pieceLength
    }

    /** The division truncates, as in C++; an offset before the file's first byte comes from an empty file's range. */
    function MapFile(file: nat, offset: int): PeerRequest
      requires Valid() && file < |sizes|
    {
      var b := Offset(file) + offset;
      if 0 <= b then PeerRequest(b / pieceLength, b % pieceLength, 1)
      else PeerRequest(-(-b / pieceLength), -(-b % pieceLength), 1)
    }
  }

  lemma {:induction false} OffsetMono(l: Layout, i: nat, j: nat)
    requires i < j <= |l.sizes|
    ensures l.Offset(i) + l.sizes[i] <= l.Offset(j)
  {
    if i + 1 < j {
      OffsetMono(l, i, j - 1);
    }
  }

  /** The last piece is never empty and never longer than the others. */
  lemma EngineGeometry(l: Layout)
    requires l.Valid() && 0 < l.Total()
    ensures 0 < l.NumPieces()
    ensures 0 < l.LastPieceSize() <= l.pieceLength
    ensures l.Total() == (l.NumPieces() - 1) * l.pieceLength + l.LastPieceSize()
    ensures forall b: nat :: b < l.Total() ==> l.PieceOf(b) < l.NumPieces()
  {
    DivBounds(l.Total() - 1, l.pieceLength);
    DivMono(0, l.Total() - 1, l.pieceLength);
    forall b: nat | b < l.Total()
      ensures l.PieceOf(b) < l.NumPieces()
    {
      DivMono(b, l.Total() - 1, l.pieceLength);
    }
  }
}
