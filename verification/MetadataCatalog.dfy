/** The catalogue of torrents whose metadata has arrived: the piece range of every file of the layout. */
module MetadataCatalogue {
  import opened Results
  import opened Arithmetic
  import opened TorrentLayout
  import opened ByteRangeMapping

  type TorrentId = string

  datatype FileInfo = FileInfo(index: int, size: nat, offsetInTorrent: nat, firstPiece: int, endPiece: int)

  datatype TorrentEntry = TorrentEntry(info: Layout, files: seq<FileInfo>, selected: Option<int>)

  const DONT_DOWNLOAD := 0
  const DEFAULT_PRIORITY := 4

  /** What the catalogue should say of one file: the very range its mapper works in. */
  ghost predicate Describes(f: FileInfo, l: Layout, i: nat)
    requires l.Valid() && i < |l.sizes|
  {
    var m := ByteRangeMapper(l, i);
    f == FileInfo(i, m.FileSize(), m.FileOffset(), m.FirstPiece(), m.EndPiece())
  }

  ghost predicate DescribesAll(files: seq<FileInfo>, l: Layout)
    requires l.Valid()
  {
    |files| == |l.sizes| && forall i: nat :: i < |files| ==> Describes(files[i], l, i)
  }

  class MetadataCatalog {
    var catalog: map<TorrentId, TorrentEntry>

    ghost predicate Valid()
      reads this
    {
      forall id :: id in catalog ==>
        && catalog[id].info.Valid()
        && DescribesAll(catalog[id].files, catalog[id].info)
        && (catalog[id].selected.Some? ==> 0 <= catalog[id].selected.value < |catalog[id].files|)
    }

    constructor ()
      ensures Valid() && catalog == map[]
    {
      catalog := map[];
    }

    /** The first metadata of a torrent is kept; later ones change nothing. */
    method OnMetadataReceived(id: TorrentId, info: Layout)
      requires Valid() && info.Valid()
      modifies this
      ensures Valid()
      ensures id in old(catalog) ==> catalog == old(catalog)
      ensures id !in old(catalog) ==>
        && id in catalog
        && catalog == old(catalog)[id := catalog[id]]
        && catalog[id].info == info && catalog[id].selected == None && DescribesAll(catalog[id].files, info)
    {
      if id in catalog {
        return;
      }
      var files: seq<FileInfo> := [];
      var i := 0;
      while i < |info.sizes|
        invariant 0 <= i == |files| <= |info.sizes|
        invariant forall k: nat :: k < i ==> Describes(files[k], info, k)
      {
        var firstPiece := info.MapFile(i, 0).piece;
        var endPiece := firstPiece;
        if info.sizes[i] > 0 {
          endPiece := info.MapFile(i, info.sizes[i] - 1).piece + 1;
        }
        files := files + [FileInfo(i, info.sizes[i], info.Offset(i), firstPiece, endPiece)];
        i := i + 1;
      }
      catalog := catalog[id := TorrentEntry(info, files, None)];
    }

    method Remove(id: TorrentId)
      requires Valid()
      modifies this
      ensures Valid() && catalog == old(catalog) - {id}
    {
      catalog := catalog - {id};
    }

    method GetFile(id: TorrentId, file: int) returns (r: Result<FileInfo>)
      requires Valid()
      ensures r == Err(MetadataNotReady) <==> id !in catalog
      ensures r == Err(FileNotFound) <==> id in catalog && !(0 <= file < |catalog[id].info.sizes|)
      ensures r.Ok? ==>
        && id in catalog && 0 <= file < |catalog[id].info.sizes| && Describes(r.value, catalog[id].info, file)
        && r.value.index == file && r.value.size == catalog[id].info.sizes[file]
      ensures r.Err? ==> r.error in {MetadataNotReady, FileNotFound}
    {
      if id !in catalog {
        return Err(MetadataNotReady);
      }
      if file < 0 || file >= |catalog[id].files| {
        return Err(FileNotFound);
      }
      return Ok(catalog[id].files[file]);
    }

    /** Selects one file: the handle is given its priority and no other file's. */
    method SelectFile(id: TorrentId, file: int) returns (r: Result<seq<int>>)
      requires Valid()
      modifies this
      ensures Valid()
      ensures r.Err? ==> catalog == old(catalog)
      ensures r == Err(MetadataNotReady) <==> id !in old(catalog)
      ensures r == Err(FileNotFound) <==> id in old(catalog) && !(0 <= file < |old(catalog)[id].files|)
      ensures r.Ok? ==>
        && id in old(catalog) && 0 <= file < |old(catalog)[id].files| == |r.value|
        && catalog == old(catalog)[id := old(catalog)[id].(selected := Some(file))]
        && forall i :: 0 <= i < |r.value| ==> r.value[i] == if i == file then 4 else 0
    {
      if id !in catalog {
        return Err(MetadataNotReady);
      }
      var entry := catalog[id];
      if file < 0 || file >= |entry.files| {
        return Err(FileNotFound);
      }
      var priorities := seq(|entry.files|, _ => DONT_DOWNLOAD);
      priorities := priorities[file := DEFAULT_PRIORITY];
      catalog := catalog[id := entry.(selected := Some(file))];
      return Ok(priorities);
    }
  }

  /** The files described carry their own index, and lie end to end from byte zero. */
  lemma FilesLieEndToEnd(files: seq<FileInfo>, l: Layout, i: nat)
    requires l.Valid() && DescribesAll(files, l) && i < |files|
    ensures files[i].index == i && files[i].size == l.sizes[i]
    ensures files[0].offsetInTorrent == 0
    ensures i + 1 < |files| ==> files[i + 1].offsetInTorrent == files[i].offsetInTorrent + files[i].size
    ensures i + 1 == |files| ==> files[i].offsetInTorrent + files[i].size == l.Total()
  {
    assert Describes(files[0], l, 0) && Describes(files[i], l, i);
    assert i + 1 < |files| ==> Describes(files[i + 1], l, i + 1);
  }

  /** Earlier files come first, and two non-empty files share at most one piece. */
  lemma RangesAreOrdered(files: seq<FileInfo>, l: Layout, i: nat, j: nat)
    requires l.Valid() && DescribesAll(files, l) && i < j < |files|
    requires files[i].size > 0 && files[j].size > 0
    ensures files[i].firstPiece <= files[j].firstPiece
    ensures files[i].endPiece <= files[j].endPiece
    ensures files[i].endPiece - 1 <= files[j].firstPiece
  {
    var n := l.pieceLength;
    assert Describes(files[i], l, i) && Describes(files[j], l, j);
    OffsetMono(l, i, j);
    DivMono(l.Offset(i), l.Offset(j), n);
    DivMono(l.Offset(i) + l.sizes[i] - 1, l.Offset(j), n);
    DivMono(l.Offset(i) + l.sizes[i] - 1, l.Offset(j) + l.sizes[j] - 1, n);
  }

  lemma {:induction false} EmptyFilesAddNothing(l: Layout, i: nat, j: nat)
    requires i <= j <= |l.sizes| && forall k: nat :: i <= k < j ==> l.sizes[k] == 0
    ensures l.Offset(i) == l.Offset(j)
  {
    if i < j {
      EmptyFilesAddNothing(l, i, j - 1);
    }
  }

  lemma NextPieceStarts(b: nat, n: nat)
    requires 0 < b && 0 < n
    ensures b / n <= (b - 1) / n + 1
  {
    DivBounds(b - 1, n);
    var q := (b - 1) / n;
    MulSucc(q, n);
    MulSucc(q + 1, n);
    DivUnique(q * n + n, n, q + 1);
    DivMono(b, q * n + n, n);
  }

  /** With only empty files between them, the next non-empty file leaves no piece out. */
  lemma NeighboursLeaveNoGap(files: seq<FileInfo>, l: Layout, i: nat, j: nat)
    requires l.Valid() && DescribesAll(files, l) && i < j < |files|
    requires files[i].size > 0 && files[j].size > 0
    requires forall k: nat :: i < k < j ==> files[k].size == 0
    ensures files[j].firstPiece <= files[i].endPiece
  {
    assert Describes(files[i], l, i) && Describes(files[j], l, j);
    forall k: nat | i < k < j ensures l.sizes[k] == 0 {
      assert Describes(files[k], l, k);
    }
    EmptyFilesAddNothing(l, i + 1, j);
    NextPieceStarts(l.Offset(j), l.pieceLength);
  }

  lemma {:induction false} FileHoldingByte(l: Layout, b: nat, n: nat) returns (i: nat)
    requires n <= |l.sizes| && b < l.Offset(n)
    ensures i < n && l.Offset(i) <= b < l.Offset(i) + l.sizes[i]
  {
    if l.Offset(n - 1) <= b {
      i := n - 1;
    } else {
      i := FileHoldingByte(l, b, n - 1);
    }
  }

  /** The ranges of the non-empty files cover exactly the torrent's pieces. */
  lemma RangesCoverTorrent(files: seq<FileInfo>, l: Layout, p: int)
    requires l.Valid() && DescribesAll(files, l)
    ensures 0 <= p < l.NumPieces()
       <==> exists i: nat :: i < |files| && files[i].size > 0 && files[i].firstPiece <= p < files[i].endPiece
  {
    var n := l.pieceLength;
    if 0 <= p < l.NumPieces() {
      EngineGeometry(l);
      DivBounds(l.Total() - 1, n);
      MulMono(p, l.NumPieces() - 1, n);
      MulMono(0, p, n);
      var i := FileHoldingByte(l, p * n, |l.sizes|);
      assert Describes(files[i], l, i);
      DivUnique(p * n, n, p);
      DivMono(l.Offset(i), p * n, n);
      DivMono(p * n, l.Offset(i) + l.sizes[i] - 1, n);
      assert i < |files| && files[i].size > 0 && files[i].firstPiece <= p < files[i].endPiece;
    }
    if i: nat :| i < |files| && files[i].size > 0 && files[i].firstPiece <= p < files[i].endPiece {
      assert Describes(files[i], l, i);
      var m := ByteRangeMapper(l, i);
      SpanStaysInFile(m, ByteRange(0, m.FileSize() - 1));
      DivMono(0, l.Offset(i), n);
    }
  }
}
