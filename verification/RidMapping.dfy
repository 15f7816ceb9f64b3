/**
 * The translation of a global row id into the column file that holds the row: partition, segment
 * file, dbroot, and the row's position inside the segment file. Rows fill one extent after the
 * other, and consecutive extents of a partition go to consecutive segment files.
 */
module RidMapping {
  import opened MachineInts

  // The sizes the mapping is given: segment files per partition, extents per segment file, rows
  // per extent.
  datatype Layout = Layout(files: nat, extents: nat, rows: nat) {
    predicate Valid() {
      0 < files < TWO32 && 0 < extents < TWO32 && 0 < rows < TWO32
    }

    // rows in a partition, and what the 32-bit product of the code makes of it
    function RowsPerPartition(): (n: nat)
      ensures Valid() ==> n > 0
    {
      ProductPositive(files, extents, rows);
      files * extents * rows
    }

    function Stride(): (n: nat)
      ensures n < TWO32
    {
      Wrap32(Wrap32(files * extents) * rows)
    }
  }

  datatype Position = Position(partition: nat, segment: nat, localRid: nat)

  predicate ValidPosition(l: Layout, p: Position) {
    p.segment < l.files && p.localRid < l.extents * l.rows
  }

  // ---------- where a row is ----------

  function Quo(a: nat, d: nat): (q: nat)
    requires 0 < d
  {
    a / d
  }

  function Rem(a: nat, d: nat): (r: nat)
    requires 0 < d
    ensures r < d
  {
    a % d
  }

  function Wrap32(a: nat): (r: nat)
    ensures r < TWO32
    ensures a < TWO32 ==> r == a
  {
    a % TWO32
  }

  function Wrap64(a: int): (r: nat)
    ensures r < TWO64
    ensures 0 <= a < TWO64 ==> r == a
  {
    a % TWO64
  }

  // A two-digit number whose low digit has radix n.
  function Mix(hi: nat, lo: nat, n: nat): (r: nat) {
    ProductPositive(hi, n, 1);
    hi * n + lo
  }

  // The position of a row when a partition has n rows.
  function At(rid: nat, n: nat, files: nat, rows: nat): (p: Position)
    requires 0 < n && 0 < files && 0 < rows
  {
    var relative := Rem(rid, n);
    var extent := Quo(relative, rows);
    Position(Quo(rid, n), Rem(extent, files), Mix(Quo(extent, files), Rem(relative, rows), rows))
  }

  function Locate(l: Layout, rid: nat): (p: Position)
    requires l.Valid()
  {
    At(rid, l.RowsPerPartition(), l.files, l.rows)
  }

  // The row id of the row at a position.
  function RowId(l: Layout, p: Position): (rid: nat)
    requires l.Valid()
  {
    var extent := Mix(p.localRid / l.rows, p.segment, l.files);
    Mix(p.partition, Mix(extent, p.localRid % l.rows, l.rows), l.RowsPerPartition())
  }

  lemma ProductPositive(a: nat, b: nat, c: nat)
    ensures 0 <= a * b && 0 <= a * b * c
    ensures 0 < a && 0 < b && 0 < c ==> 0 < a * b && 0 < a * b * c
  {
  }

  // A mixed-radix number is below the product of its radices.
  lemma MixedRadix(hi: int, lo: int, m: int, n: int)
    requires 0 <= hi < m && 0 <= lo < n
    ensures 0 <= hi * n + lo < m * n
  {
    MulMono(hi, m - 1, n);
    Distribute(m, 1, n);
    MulMono(0, hi, n);
  }

  lemma QuotientBelow(a: nat, m: nat, n: nat)
    requires 0 < n && a < m * n
    ensures Quo(a, n) < m
  {
    if a / n >= m {
      MulMono(m, a / n, n);
      EuclideanBounds(a, n);
    }
  }

  lemma PartitionIsExtents(l: Layout)
    ensures l.RowsPerPartition() == l.extents * l.files * l.rows
  {
  }

  // The row offset inside a partition, and the extent it falls in.
  lemma LocateIsValid(l: Layout, rid: nat)
    requires l.Valid()
    ensures ValidPosition(l, Locate(l, rid))
  {
    PositionIsValid(Rem(rid, l.RowsPerPartition()), l.files, l.extents, l.rows);
  }

  lemma PositionIsValid(relative: nat, files: nat, extents: nat, rows: nat)
    requires 0 < files && 0 < extents && 0 < rows && relative < files * extents * rows
    ensures var extent := Quo(relative, rows);
            Rem(extent, files) < files && Mix(Quo(extent, files), Rem(relative, rows), rows) < extents * rows
  {
    var extent := Quo(relative, rows);
    QuotientBelow(relative, files * extents, rows);
    assert files * extents == extents * files;
    QuotientBelow(extent, extents, files);
    MixedRadix(Quo(extent, files), Rem(relative, rows), extents, rows);
  }

  lemma RowIdOfLocate(l: Layout, rid: nat)
    requires l.Valid()
    ensures RowId(l, Locate(l, rid)) == rid
  {
    var relative := rid % l.RowsPerPartition();
    var extent := relative / l.rows;
    EuclideanBounds(rid, l.RowsPerPartition());
    EuclideanBounds(relative, l.rows);
    EuclideanBounds(extent, l.files);
    DivModUnique(Locate(l, rid).localRid, l.rows, extent / l.files, relative % l.rows);
  }

  lemma LocateOfRowId(l: Layout, p: Position)
    requires l.Valid() && ValidPosition(l, p)
    ensures Locate(l, RowId(l, p)) == p
  {
    var hi, lo := p.localRid / l.rows, p.localRid % l.rows;
    EuclideanBounds(p.localRid, l.rows);
    QuotientBelow(p.localRid, l.extents, l.rows);
    var extent := hi * l.files + p.segment;
    MixedRadix(hi, p.segment, l.extents, l.files);
    var relative := extent * l.rows + lo;
    MixedRadix(extent, lo, l.extents * l.files, l.rows);
    PartitionIsExtents(l);
    DivModUnique(RowId(l, p), l.RowsPerPartition(), p.partition, relative);
    DivModUnique(relative, l.rows, extent, lo);
    DivModUnique(extent, l.files, hi, p.segment);
  }

  // Partitions follow each other; in a partition the extents go round the segment files, and the rows of an
  // extent follow each other in it.
  lemma RowIsAt(l: Layout, partition: nat, round: nat, segment: nat, row: nat)
    requires l.Valid() && round < l.extents && segment < l.files && row < l.rows
    ensures 0 <= round * l.rows
    ensures var rid := partition * (l.files * l.extents * l.rows) + (round * l.files + segment) * l.rows + row;
            rid >= 0 && Locate(l, rid) == Position(partition, segment, round * l.rows + row)
  {
    var local := round * l.rows + row;
    MulMono(0, round, l.rows);
    MixedRadix(round, row, l.extents, l.rows);
    DivModUnique(local, l.rows, round, row);
    LocateOfRowId(l, Position(partition, segment, local));
  }

  // Row ids and positions correspond one to one.
  lemma Bijection(l: Layout, rid: nat, p: Position)
    requires l.Valid() && ValidPosition(l, p)
    ensures ValidPosition(l, Locate(l, rid))
    ensures Locate(l, rid) == p <==> RowId(l, p) == rid
  {
    LocateIsValid(l, rid);
    RowIdOfLocate(l, rid);
    LocateOfRowId(l, p);
  }

  // ---------- the code ----------

  datatype Outcome =
    | DivideByZero
    | AssertionFailed
    | Converted(position: Position, dbRoot: nat)

  function DbRoot(segment: nat, startDbRoot: nat, dbRootCount: nat): (root: nat)
    requires 0 < dbRootCount
    ensures 1 <= root <= dbRootCount
  {
    Rem(Wrap32((startDbRoot - 1) % TWO32 + segment), dbRootCount) + 1
  }

  // convertRidToColumn, with the width of every intermediate result.
  method ConvertRidToColumn(l: Layout, rid: nat, startDbRoot: nat, dbRootCount: nat) returns (o: Outcome)
    requires l.files < TWO32 && l.extents < TWO32 && l.rows < TWO32 && rid < TWO64
    ensures o.DivideByZero? <==> l.Stride() == 0 || dbRootCount == 0
    ensures o.Converted? ==> o.position.partition == Wrap32(Quo(rid, l.Stride()))
    ensures o.Converted? ==> o.dbRoot == DbRoot(o.position.segment, startDbRoot, dbRootCount)
    ensures (l.Valid() && l.RowsPerPartition() < TWO32 && dbRootCount > 0) ==>
              if Quo(rid, l.RowsPerPartition()) < TWO32 then o.Converted? && o.position == Locate(l, rid)
              else o.AssertionFailed?
  {
    var stride := l.Stride();
    if stride == 0 || dbRootCount == 0 {
      return DivideByZero;
    }
    StrideOfEmpty(l);
    if l.Valid() && l.RowsPerPartition() < TWO32 {
      StrideExact(l);
    }
    o := InPartition(rid, stride, l.RowsPerPartition(), l.files, l.rows);
    if o.Converted? {
      o := o.(dbRoot := DbRoot(o.position.segment, startDbRoot, dbRootCount));
    }
  }

  // The conversion, given the 32-bit product and the true one. The dbroot is not set yet.
  method InPartition(rid: nat, stride: nat, n: nat, files: nat, rows: nat) returns (o: Outcome)
    requires 0 < stride && 0 < files && 0 < rows && rid < TWO64
    ensures !o.DivideByZero?
    ensures o.Converted? ==> o.position.partition == Wrap32(Quo(rid, stride))
    ensures n == stride < TWO32 ==>
              if Quo(rid, n) < TWO32 then o.Converted? && o.position == At(rid, n, files, rows)
              else o.AssertionFailed?
  {
    var partition := Wrap32(Quo(rid, stride));
    var segment := Rem(Quo(Rem(rid, stride), rows), files);
    var relRidInPartition := Wrap64(rid - partition * n);
    if n == stride && n < TWO32 {
      Relative(rid, n);
    }
    if relRidInPartition > Wrap64(n) {
      return AssertionFailed;
    }
    var localRid := RidInSegmentFile(relRidInPartition, files, rows);
    return Converted(Position(partition, segment, localRid), 0);
  }

  method RidInSegmentFile(relRidInPartition: nat, files: nat, rows: nat) returns (localRid: nat)
    requires 0 < files && 0 < rows
    ensures relRidInPartition < TWO32 ==>
              localRid == Mix(Quo(Quo(relRidInPartition, rows), files), Rem(relRidInPartition, rows), rows)
  {
    var numExtentsInThisPart := Wrap32(Quo(relRidInPartition, rows));
    var numExtentsInThisSegPart := Quo(numExtentsInThisPart, files);
    var relRidInThisExtent := Wrap64(relRidInPartition - Wrap32(Mix(numExtentsInThisPart, 0, rows)));
    if relRidInPartition < TWO32 {
      Small(relRidInPartition, files, rows);
    }
    localRid := Wrap64(relRidInThisExtent + Wrap32(Mix(numExtentsInThisSegPart, 0, rows)));
  }

  lemma StrideOfEmpty(l: Layout)
    ensures l.files == 0 || l.rows == 0 ==> l.Stride() == 0
  {
  }

  lemma StrideExact(l: Layout)
    requires l.Valid() && l.RowsPerPartition() < TWO32
    ensures l.Stride() == l.RowsPerPartition()
  {
    MulMono(1, l.rows, l.files * l.extents);
    ProductPositive(l.files, l.extents, l.rows);
  }

  // The offset is the remainder when the partition number fits in 32 bits, and too large for the
  // assertion when it does not.
  lemma Relative(rid: nat, n: nat)
    requires 0 < n < TWO32 && rid < TWO64
    ensures var relative := Wrap64(rid - Wrap32(Quo(rid, n)) * n);
            if Quo(rid, n) < TWO32 then relative == Rem(rid, n) else relative > n
  {
    var q := rid / n;
    EuclideanBounds(rid, n);
    EuclideanBounds(q, TWO32);
    var high := q / TWO32 * TWO32;
    Distribute(high, q % TWO32, n);
    assert rid - q % TWO32 * n == high * n + rid % n;
    MulMono(0, high, n);
    MulMono(0, q % TWO32, n);
    if q >= TWO32 {
      MulMono(TWO32, high, n);
    }
  }

  // Below 2^32 no intermediate product wraps.
  lemma Small(relative: nat, files: nat, rows: nat)
    requires 0 < files && 0 < rows && relative < TWO32
    ensures var extent := Quo(relative, rows);
            && extent < TWO32
            && Mix(extent, 0, rows) == relative - Rem(relative, rows)
            && Mix(Quo(extent, files), 0, rows) <= Mix(extent, 0, rows)
  {
    var extent := relative / rows;
    EuclideanBounds(relative, rows);
    EuclideanBounds(extent, files);
    MulMono(extent / files, extent, rows);
  }

  // ---------- exactly when the conversion is right ----------

  // What the code makes of a row id's partition, and what it should be.
  predicate PartitionRight(l: Layout, rid: nat)
    requires l.Valid()
  {
    l.Stride() != 0 && Wrap32(Quo(rid, l.Stride())) == Quo(rid, l.RowsPerPartition())
  }

  // Every row id whose partition number fits in 32 bits is put into its partition, if and only if
  // the rows of a partition can be counted in 32 bits.
  lemma RightExactly(l: Layout)
    requires l.Valid()
    ensures (forall rid: nat | rid < TWO64 && Quo(rid, l.RowsPerPartition()) < TWO32 :: PartitionRight(l, rid))
            <==> l.RowsPerPartition() < TWO32
  {
    if l.RowsPerPartition() < TWO32 {
      StrideExact(l);
    } else {
      DivModUnique(l.Stride(), l.RowsPerPartition(), 0, l.Stride());
      if l.Stride() != 0 {
        DivModUnique(l.Stride(), l.Stride(), 1, 0);
      }
      assert !PartitionRight(l, l.Stride());
    }
  }

  // 2^16 files of 2^15 extents of 6 rows: 2^33 + 2^32 rows are taken for none.
  lemma StrideWraps()
    ensures var l := Layout(0x1_0000, 0x8000, 6);
            l.Valid() && l.Stride() == 0
  {
  }

  // How often the sum of first dbroot and segment wraps in 32 bits.
  function Wraps(segment: nat, startDbRoot: nat): (w: nat) {
    Quo(Wrap32(startDbRoot + (TWO32 - 1)) + segment, TWO32)
  }

  // The dbroots take the segment files in turn: two of them share a dbroot exactly when their
  // distance, less what wrapping takes away, is a multiple of the dbroot count.
  lemma DbRootRotates(s: nat, t: nat, startDbRoot: nat, dbRootCount: nat)
    requires 0 < dbRootCount
    ensures DbRoot(s, startDbRoot, dbRootCount) == DbRoot(t, startDbRoot, dbRootCount)
            <==> (s - t - TWO32 * (Wraps(s, startDbRoot) - Wraps(t, startDbRoot))) % dbRootCount == 0
  {
    var b := Wrap32(startDbRoot + (TWO32 - 1));
    PreviousRoot(startDbRoot);
    WrappedDistance(b, s, t);
    SameResidue(Wrap32(b + s), Wrap32(b + t), dbRootCount);
  }

  lemma WrappedDistance(b: nat, s: nat, t: nat)
    ensures Wrap32(b + s) - Wrap32(b + t) == s - t - TWO32 * (Quo(b + s, TWO32) - Quo(b + t, TWO32))
  {
    EuclideanBounds(b + s, TWO32);
    EuclideanBounds(b + t, TWO32);
  }

  lemma PreviousRoot(startDbRoot: nat)
    ensures (startDbRoot - 1) % TWO32 == Wrap32(startDbRoot + (TWO32 - 1))
  {
  }

  // The first segment file is on the first dbroot, and the next one on the next dbroot, after the last of
  // which comes 1 again.
  lemma RootsFollow(segment: nat, startDbRoot: nat, dbRootCount: nat)
    requires 1 <= startDbRoot <= dbRootCount && startDbRoot + segment < TWO32
    ensures DbRoot(0, startDbRoot, dbRootCount) == startDbRoot
    ensures var root := DbRoot(segment, startDbRoot, dbRootCount);
            DbRoot(segment + 1, startDbRoot, dbRootCount) == if root == dbRootCount then 1 else root + 1
  {
    DbRootPlain(0, startDbRoot, dbRootCount);
    DbRootPlain(segment, startDbRoot, dbRootCount);
    DbRootPlain(segment + 1, startDbRoot, dbRootCount);
    NextRem(startDbRoot - 1 + segment, dbRootCount);
    DivModUnique(startDbRoot - 1, dbRootCount, 0, startDbRoot - 1);
  }

  lemma NextRem(a: nat, d: nat)
    requires 0 < d
    ensures Rem(a + 1, d) == if Rem(a, d) == d - 1 then 0 else Rem(a, d) + 1
  {
    var q, r := Quo(a, d), Rem(a, d);
    EuclideanBounds(a, d);
    if r == d - 1 {
      Distribute(q, 1, d);
      DivModUnique(a + 1, d, q + 1, 0);
    } else {
      DivModUnique(a + 1, d, q, r + 1);
    }
  }

  // Where nothing wraps, they share it exactly when they are congruent modulo the count.
  lemma DbRootsInTurn(s: nat, t: nat, startDbRoot: nat, dbRootCount: nat)
    requires 0 < dbRootCount && 1 <= startDbRoot
    requires startDbRoot - 1 + s < TWO32 && startDbRoot - 1 + t < TWO32
    ensures DbRoot(s, startDbRoot, dbRootCount) == DbRoot(t, startDbRoot, dbRootCount)
            <==> Rem(s, dbRootCount) == Rem(t, dbRootCount)
  {
    DbRootPlain(s, startDbRoot, dbRootCount);
    DbRootPlain(t, startDbRoot, dbRootCount);
    Rotation(startDbRoot - 1, s, t, dbRootCount);
  }

  lemma Rotation(b: nat, s: nat, t: nat, d: nat)
    requires 0 < d
    ensures Rem(b + s, d) == Rem(b + t, d) <==> Rem(s, d) == Rem(t, d)
  {
    SameResidue(b + s, b + t, d);
    SameResidue(s, t, d);
    assert (b + s) - (b + t) == s - t;
  }

  lemma DbRootPlain(segment: nat, startDbRoot: nat, dbRootCount: nat)
    requires 0 < dbRootCount && 1 <= startDbRoot && startDbRoot - 1 + segment < TWO32
    ensures DbRoot(segment, startDbRoot, dbRootCount) == Rem(startDbRoot - 1 + segment, dbRootCount) + 1
  {
    assert (startDbRoot - 1) % TWO32 == startDbRoot - 1;
  }

  lemma SameResidue(a: nat, b: nat, d: nat)
    requires 0 < d
    ensures a % d == b % d <==> (a - b) % d == 0
  {
    EuclideanBounds(a, d);
    EuclideanBounds(b, d);
    Distribute(a / d, b / d, d);
    if a % d == b % d {
      ModOfMultiple(a / d - b / d, d);
    }
    if (a - b) % d == 0 {
      var k := (a - b) / d;
      Distribute(b / d, k, d);
      DivModUnique(a, d, b / d + k, b % d);
    }
  }
}
