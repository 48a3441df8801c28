/** The space computation of `formatDisk`: each round reserves one allocation more than the
    round before, so the space used grows with the triangular numbers. */
module Format {
  import opened Types

  /** Disk space one inode stands for: 15 data blocks and its share of the inode region. */
  const ALLOCATION: int := 15 * BLOCK_SIZE + BLOCK_SIZE / FCB_SIZE

  /** The largest disk whose inodes all fit the static table. */
  const MAX_DISK: int := 310303944

  /** Rounds the loop still makes from a given state of its counters. */
  function Rounds(space: int, allocation: int, used: int, current: int): nat
    requires allocation > 0
    decreases space - current
  {
    if used < space && current + allocation < space
    then 1 + Rounds(space, allocation, used + current + allocation, current + allocation)
    else 0
  }

  /** A disk with this much space affords n inodes: n allocations fit, and the first n - 1
      rounds, which used A + 2A + ... + (n-1)A, left something. (Both sides of the second
      inequality are doubled.) */
  predicate Affords(space: int, allocation: int, n: nat) {
    n == 0 || (n * allocation < space && allocation * (n * (n - 1)) < 2 * space)
  }

  lemma {:induction false} RoundsFromState(space: int, allocation: int, used: int, current: int, k: nat)
    requires allocation > 0
    requires current == k * allocation && 2 * used == allocation * (k * (k + 1))
    ensures var n := k + Rounds(space, allocation, used, current);
            (n > k ==> Affords(space, allocation, n)) && !Affords(space, allocation, n + 1)
    decreases space - current
  {
    assert (k + 1) * allocation == current + allocation;
    if used < space && current + allocation < space {
      var k1 := k + 1;
      assert allocation * (k1 * (k1 + 1)) == allocation * (k * (k + 1)) + 2 * (k1 * allocation) by {
        assert k1 * (k1 + 1) == k * (k + 1) + 2 * k1;
        assert allocation * (k * (k + 1) + 2 * k1) == allocation * (k * (k + 1)) + allocation * (2 * k1);
      }
      RoundsFromState(space, allocation, used + current + allocation, current + allocation, k1);
    }
  }

  lemma AffordsFewer(space: int, allocation: int, n: nat)
    requires allocation > 0 && Affords(space, allocation, n + 1)
    ensures Affords(space, allocation, n)
  {
    if n > 0 {
      assert (n + 1) * allocation == n * allocation + allocation;
      assert (n + 1) * n == n * (n - 1) + 2 * n;
      assert allocation * (n * (n - 1) + 2 * n) == allocation * (n * (n - 1)) + allocation * (2 * n);
      assert allocation * (2 * n) > 0;
    }
  }

  lemma {:induction false} AffordsDownTo(space: int, allocation: int, n: nat, j: nat)
    requires allocation > 0 && Affords(space, allocation, n) && j <= n
    ensures Affords(space, allocation, j)
    decreases n - j
  {
    if j < n {
      AffordsDownTo(space, allocation, n, j + 1);
      AffordsFewer(space, allocation, j);
    }
  }

  /** Closed form, for any space and allocation: from zeroed counters the loop makes exactly as
      many rounds as the disk affords inodes, and it affords every smaller number too. */
  lemma RoundsIsGreatestAffordable(space: int, allocation: int, j: nat)
    requires allocation > 0
    ensures Affords(space, allocation, j) <==> j <= Rounds(space, allocation, 0, 0)
  {
    var n := Rounds(space, allocation, 0, 0);
    RoundsFromState(space, allocation, 0, 0, 0);
    if j <= n {
      AffordsDownTo(space, allocation, n, j);
    } else if Affords(space, allocation, j) {
      AffordsDownTo(space, allocation, j, n + 1);
    }
  }

  /** Inodes of a disk of the given size. */
  function InodesFor(diskSize: int): nat {
    Rounds(diskSize - SUPERBLOCK_SIZE, ALLOCATION, 0, 0)
  }

  /** The inodes fit the static table exactly up to this disk size; one byte more makes 101. */
  lemma TableSufficesIff(diskSize: int)
    ensures InodesFor(diskSize) <= TABLE_SIZE <==> diskSize <= MAX_DISK
    ensures InodesFor(MAX_DISK + 1) == TABLE_SIZE + 1
  {
    RoundsIsGreatestAffordable(diskSize - SUPERBLOCK_SIZE, ALLOCATION, TABLE_SIZE + 1);
    RoundsIsGreatestAffordable(MAX_DISK + 1 - SUPERBLOCK_SIZE, ALLOCATION, TABLE_SIZE + 1);
    RoundsIsGreatestAffordable(MAX_DISK + 1 - SUPERBLOCK_SIZE, ALLOCATION, TABLE_SIZE + 2);
  }

  /** The largest disk whose space computation stays within a C int. */
  const MAX_COUNTED: int := 2133101648

  /** The space used by all rounds, A + 2A + ... + nA (doubled here), is the largest counter of
      the loop. It fits a 32-bit int exactly up to this disk size. */
  lemma CountersFitIff(diskSize: int)
    ensures var n := InodesFor(diskSize);
            && (ALLOCATION * (n * (n + 1)) <= 2 * 0x7fff_ffff <==> diskSize <= MAX_COUNTED)
            && (diskSize <= MAX_COUNTED ==> n <= 263)
  {
    var n := InodesFor(diskSize);
    RoundsIsGreatestAffordable(diskSize - SUPERBLOCK_SIZE, ALLOCATION, 264);
    if n <= 263 {
      Product(n, 263);
    } else {
      Product(264, n);
    }
  }

  lemma Product(k: nat, n: nat)
    requires k <= n
    ensures k * (k + 1) <= n * (n + 1)
  {
    assert n * (n + 1) - k * (k + 1) == (n - k) * (n + k + 1);
    assert (n - k) * (n + k + 1) >= 0;
  }

  /** Whatever the disk size, the data blocks of all inodes fit the space, and the inode region
      ends inside the disk. */
  lemma RegionsFit(diskSize: int)
    requires InodesFor(diskSize) >= 1
    ensures var n := InodesFor(diskSize);
            && 15 * n * BLOCK_SIZE < diskSize - SUPERBLOCK_SIZE
            && (3 + (n - 1) / 4) * BLOCK_SIZE + (n - 1) % 4 * FCB_SIZE + FCB_SIZE <= diskSize
  {
    var n := InodesFor(diskSize);
    RoundsIsGreatestAffordable(diskSize - SUPERBLOCK_SIZE, ALLOCATION, n);
    assert n * 61444 < diskSize - SUPERBLOCK_SIZE;
    hide InodesFor, Affords;
  }

  /** `sfs_init` only formats an image that reads as empty, and an empty disk gets no inodes. */
  lemma EmptyDiskGetsNoInodes(diskSize: int)
    ensures InodesFor(diskSize) == 0 <==> diskSize <= SUPERBLOCK_SIZE + ALLOCATION
  {
    RoundsIsGreatestAffordable(diskSize - SUPERBLOCK_SIZE, ALLOCATION, 1);
  }
}
