/** Where inode records lie on disk, for any block size, record size and first block. */
module Layout {

  /** The counters `currBlock` and `currBlockFillNum` of the flush and load loops. */
  datatype Cursor = Cursor(block: int, fill: int)

  /** One round of each loop. */
  function Advance(perBlock: int, c: Cursor): Cursor {
    if c.fill + 1 >= perBlock then Cursor(c.block + 1, 0) else Cursor(c.block, c.fill + 1)
  }

  function AdvanceBy(perBlock: int, c: Cursor, rounds: nat): (r: Cursor)
    ensures r.block >= c.block && (c.fill >= 0 ==> r.fill >= 0)
  {
    if rounds == 0 then c else Advance(perBlock, AdvanceBy(perBlock, c, rounds - 1))
  }

  /** The place of record i: block i / P after the first, slot i mod P. */
  function Place(start: int, perBlock: int, i: nat): Cursor
    requires perBlock > 0
  {
    Cursor(start + i / perBlock, i % perBlock)
  }

  function OffsetAt(blockSize: int, recordSize: int, c: Cursor): int {
    c.block * blockSize + c.fill * recordSize
  }

  lemma NextQuotient(i: nat, p: int)
    requires p > 0
    ensures i % p + 1 >= p ==> (i + 1) / p == i / p + 1 && (i + 1) % p == 0
    ensures i % p + 1 < p ==> (i + 1) / p == i / p && (i + 1) % p == i % p + 1
  {
    var q, r := i / p, i % p;
    assert i == q * p + r;
    if r + 1 >= p {
      assert i + 1 == (q + 1) * p;
      QuotientOf(i + 1, p, q + 1, 0);
    } else {
      QuotientOf(i + 1, p, q, r + 1);
    }
  }

  lemma QuotientOf(n: int, p: int, q: int, r: int)
    requires p > 0 && n == q * p + r && 0 <= r < p
    ensures n / p == q && n % p == r
  {
    var d := q - n / p;
    assert d * p == n % p - r;
    MultipleBounds(d, p);
  }

  lemma MultipleBounds(d: int, p: int)
    requires p >= 0
    ensures d >= 1 ==> d * p >= p
    ensures d <= -1 ==> d * p <= -p
  {}

  lemma AdvancePlace(start: int, perBlock: int, i: nat)
    requires perBlock > 0
    ensures Advance(perBlock, Place(start, perBlock, i)) == Place(start, perBlock, i + 1)
  {
    NextQuotient(i, perBlock);
  }

  /** The loops that start with the root's record (the later flush and the load) put record i
      in its place. */
  lemma {:induction false} WalkFromRoot(start: int, perBlock: int, i: nat)
    requires perBlock > 0
    ensures AdvanceBy(perBlock, Cursor(start, 0), i) == Place(start, perBlock, i)
  {
    if i == 0 {
      QuotientOf(0, perBlock, 0, 0);
    } else {
      WalkFromRoot(start, perBlock, i - 1);
      AdvancePlace(start, perBlock, i - 1);
    }
  }

  /** The first-time flush starts with record 1 in slot 1. It agrees with the other two loops
      exactly when a block holds at least two records. */
  lemma {:induction false} WalkFromFirstChild(start: int, perBlock: int, i: nat)
    requires perBlock > 0 && i >= 1
    ensures AdvanceBy(perBlock, Cursor(start, 1), i - 1) == Place(start, perBlock, i) <==> perBlock >= 2
  {
    if i == 1 {
      if perBlock >= 2 {
        QuotientOf(1, perBlock, 0, 1);
      }
    } else {
      WalkFromFirstChild(start, perBlock, i - 1);
      if perBlock >= 2 {
        AdvancePlace(start, perBlock, i - 1);
      } else {
        OnePerBlock(start, i - 1);
      }
    }
  }

  /** With one record per block the first-time flush lags a block behind. */
  lemma {:induction false} OnePerBlock(start: int, rounds: nat)
    requires rounds >= 1
    ensures AdvanceBy(1, Cursor(start, 1), rounds) == Cursor(start + rounds, 0)
  {
    if rounds > 1 {
      OnePerBlock(start, rounds - 1);
    }
  }

  // ---- No two records share a byte ----

  /** Records fit their block and start after the superblock's blocks. */
  lemma InsideBlock(start: int, perBlock: int, blockSize: int, recordSize: int, i: nat)
    requires perBlock > 0 && recordSize > 0 && perBlock * recordSize <= blockSize && start >= 0
    ensures var c := Place(start, perBlock, i); var at := OffsetAt(blockSize, recordSize, c);
            start * blockSize <= c.block * blockSize <= at && at + recordSize <= (c.block + 1) * blockSize
  {
    var c := Place(start, perBlock, i);
    assert c.fill + 1 <= perBlock;
    assert (c.fill + 1) * recordSize <= perBlock * recordSize;
    assert c.fill * recordSize >= 0;
    assert i / perBlock >= 0;
    assert (i / perBlock) * blockSize >= 0;
    assert c.block * blockSize == start * blockSize + (i / perBlock) * blockSize;
  }

  /** Distinct records never overlap. */
  lemma Disjoint(start: int, perBlock: int, blockSize: int, recordSize: int, i: nat, j: nat)
    requires perBlock > 0 && recordSize > 0 && perBlock * recordSize <= blockSize && start >= 0
    requires i < j
    ensures OffsetAt(blockSize, recordSize, Place(start, perBlock, i)) + recordSize
            <= OffsetAt(blockSize, recordSize, Place(start, perBlock, j))
  {
    var c, d := Place(start, perBlock, i), Place(start, perBlock, j);
    InsideBlock(start, perBlock, blockSize, recordSize, i);
    InsideBlock(start, perBlock, blockSize, recordSize, j);
    QuotientMonotone(i, j, perBlock);
    if c.block == d.block {
      MultipleBounds(d.fill - c.fill, recordSize);
      assert (d.fill - c.fill) * recordSize == d.fill * recordSize - c.fill * recordSize;
    } else {
      MultipleBounds(d.block - c.block, blockSize);
      assert d.block * blockSize - c.block * blockSize == (d.block - c.block) * blockSize;
      assert (c.block + 1) * blockSize == c.block * blockSize + blockSize;
    }
  }

  lemma QuotientMonotone(i: nat, j: nat, p: int)
    requires p > 0 && i < j
    ensures i / p <= j / p
    ensures i / p == j / p ==> i % p < j % p
  {
    var a, b := i / p, j / p;
    assert i == a * p + i % p && j == b * p + j % p;
    assert (b - a) * p == b * p - a * p;
    MultipleBounds(b - a, p);
  }
}
