/** The block-group disk layout of fs.h, and the statistics pass of fs.c over it. */
module BlockGroups {
  import opened Blocks

  /** The size parameters of the superblock; ndata is BPB. */
  datatype Super = Super(groups: nat, bgstart: nat, ipbg: nat, ipb: nat, nib: nat, ndata: nat, bpbg: nat)

  /** The relations between them that fs.h fixes, for blocks of bits bitmap bits and files of maxfile blocks. */
  ghost predicate Sized(sb: Super, bits: nat, maxfile: nat) {
    && 1 <= maxfile <= bits && 1 <= sb.ipb
    && sb.ndata == bits - bits % maxfile && sb.ipbg == sb.ndata / maxfile
    && sb.nib == sb.ipbg / sb.ipb + 1 && sb.bpbg == sb.nib + sb.ndata + 1
  }

  /** What the address macros need of them. */
  ghost predicate Laid(sb: Super) {
    1 <= sb.ipb && 1 <= sb.ipbg && 1 <= sb.ndata && sb.nib == sb.ipbg / sb.ipb + 1 && sb.bpbg == sb.nib + sb.ndata + 1
  }

  /** g runs of n blocks: a product, kept as repeated addition so that addresses stay linear. */
  function Times(g: nat, n: nat): nat {
    if g == 0 then 0 else Times(g - 1, n) + n
  }

  lemma {:induction false} TimesIsProduct(g: nat, n: nat)
    ensures Times(g, n) == g * n
  {
    if g > 0 {
      TimesIsProduct(g - 1, n);
      assert g * n == (g - 1) * n + n;
    }
  }

  lemma {:induction false} TimesMono(a: nat, b: nat, n: nat)
    requires a <= b
    ensures Times(a, n) <= Times(b, n)
  {
    if a < b {
      TimesMono(a, b - 1, n);
    }
  }

  lemma MulMono(a: nat, b: nat, n: nat)
    requires a <= b
    ensures a * n <= b * n
  {
  }

  lemma MulDiv(q: nat, m: nat)
    requires 1 <= m
    ensures q * m / m == q
  {
    var r := q * m / m;
    assert r * m <= q * m < r * m + m;
    if r < q {
      MulMono(r + 1, q, m);
    } else if q < r {
      MulMono(q + 1, r, m);
    }
  }

  lemma SizedIsLaid(sb: Super, bits: nat, maxfile: nat)
    requires Sized(sb, bits, maxfile)
    ensures Laid(sb) && sb.ndata == sb.ipbg * maxfile
  {
    var q := bits / maxfile;
    assert sb.ndata == q * maxfile;
    MulDiv(q, maxfile);
    MulMono(1, q, maxfile);
  }

  /** Block o of group g. */
  function At(sb: Super, g: nat, o: nat): nat {
    Times(g, sb.bpbg) + o + sb.bgstart
  }

  function FsSize(sb: Super): nat {
    Times(sb.groups, sb.bpbg) + sb.bgstart
  }

  lemma AtInjective(sb: Super, g: nat, o: nat, h: nat, p: nat)
    requires o < sb.bpbg && p < sb.bpbg && At(sb, g, o) == At(sb, h, p)
    ensures g == h && o == p
  {
    if g < h {
      TimesMono(g + 1, h, sb.bpbg);
    } else if h < g {
      TimesMono(h + 1, g, sb.bpbg);
    }
  }

  lemma AtInRange(sb: Super, g: nat, o: nat)
    requires g < sb.groups && o < sb.bpbg
    ensures sb.bgstart <= At(sb, g, o) < FsSize(sb)
  {
    TimesMono(g + 1, sb.groups, sb.bpbg);
  }

  // The macros

  function Bgroup(sb: Super, i: nat): nat
    requires Laid(sb)
  {
    i / sb.ipbg
  }

  function Iblock(sb: Super, i: nat): nat
    requires Laid(sb)
  {
    At(sb, i / sb.ipbg, i % sb.ipbg / sb.ipb + 1)
  }

  function DinodeOffset(sb: Super, i: nat): nat
    requires Laid(sb)
  {
    i % sb.ipbg % sb.ipb
  }

  function Dblock(sb: Super, b: nat): nat
    requires Laid(sb)
  {
    At(sb, b / sb.ndata, b % sb.ndata + sb.nib)
  }

  function StatBlock(sb: Super, m: nat): nat {
    At(sb, m, sb.nib)
  }

  lemma DivMono(a: nat, b: nat, d: nat)
    requires 1 <= d && a <= b
    ensures a / d <= b / d
  {
    if b / d < a / d {
      MulMono(b / d + 1, a / d, d);
    }
  }

  /** Inode i sits in inode block o of its group, counting the bitmap as block 0. */
  lemma InodePlace(sb: Super, i: nat)
    requires Laid(sb)
    ensures Iblock(sb, i) == At(sb, Bgroup(sb, i), i % sb.ipbg / sb.ipb + 1) && 1 <= i % sb.ipbg / sb.ipb + 1 <= sb.nib
  {
    RestIsBelow(i, sb.ipbg, sb.ipb);
  }

  lemma RestIsBelow(i: nat, n: nat, d: nat)
    requires 1 <= n && 1 <= d
    ensures 0 <= i % n / d <= n / d
  {
    var r: nat := i % n;
    DivMono(r, n, d);
  }

  lemma SameQuotientAndRemainder(a: nat, b: nat, d: nat)
    requires 1 <= d && a / d == b / d && a % d == b % d
    ensures a == b
  {
    assert a == a / d * d + a % d && b == b / d * d + b % d;
  }

  /** No two inodes share a block and a slot. */
  lemma InodesInjective(sb: Super, i: nat, j: nat)
    requires Laid(sb) && Iblock(sb, i) == Iblock(sb, j) && DinodeOffset(sb, i) == DinodeOffset(sb, j)
    ensures i == j
  {
    InodePlace(sb, i);
    InodePlace(sb, j);
    AtInjective(sb, Bgroup(sb, i), i % sb.ipbg / sb.ipb + 1, Bgroup(sb, j), j % sb.ipbg / sb.ipb + 1);
    SameQuotientAndRemainder(i % sb.ipbg, j % sb.ipbg, sb.ipb);
    SameQuotientAndRemainder(i, j, sb.ipbg);
  }

  lemma QuotientBelow(a: nat, d: nat, n: nat)
    requires 1 <= d && a < Times(n, d)
    ensures a / d < n
  {
    TimesIsProduct(n, d);
    if n <= a / d {
      MulMono(n, a / d, d);
    }
  }

  /** Every inode's block is on the disk. */
  lemma InodesOnDisk(sb: Super, i: nat)
    requires Laid(sb) && i < Times(sb.groups, sb.ipbg)
    ensures sb.bgstart <= Iblock(sb, i) < FsSize(sb)
  {
    QuotientBelow(i, sb.ipbg, sb.groups);
    InodePlace(sb, i);
    AtInRange(sb, Bgroup(sb, i), i % sb.ipbg / sb.ipb + 1);
  }

  /** No two data blocks share a place. */
  lemma DataInjective(sb: Super, a: nat, b: nat)
    requires Laid(sb) && Dblock(sb, a) == Dblock(sb, b)
    ensures a == b
  {
    AtInjective(sb, a / sb.ndata, a % sb.ndata + sb.nib, b / sb.ndata, b % sb.ndata + sb.nib);
    SameQuotientAndRemainder(a, b, sb.ndata);
  }

  lemma DataOnDisk(sb: Super, b: nat)
    requires Laid(sb) && b < Times(sb.groups, sb.ndata)
    ensures sb.bgstart <= Dblock(sb, b) < FsSize(sb)
  {
    QuotientBelow(b, sb.ndata, sb.groups);
    AtInRange(sb, b / sb.ndata, b % sb.ndata + sb.nib);
  }

  /** x is the bitmap or an inode block of some group. */
  ghost predicate IsMeta(sb: Super, x: nat) {
    exists g: nat, o: nat :: o <= sb.nib && x == At(sb, g, o)
  }

  /** A data block number misses the bitmaps and inode blocks unless it is the first of its group, which is the stats block. */
  lemma DataMissesMeta(sb: Super, b: nat)
    requires Laid(sb)
    ensures IsMeta(sb, Dblock(sb, b)) <==> b % sb.ndata == 0
    ensures b % sb.ndata == 0 ==> Dblock(sb, b) == StatBlock(sb, b / sb.ndata)
  {
    var g, o := b / sb.ndata, b % sb.ndata + sb.nib;
    assert Dblock(sb, b) == At(sb, g, o);
    forall h: nat, p: nat | p <= sb.nib && Dblock(sb, b) == At(sb, h, p)
      ensures b % sb.ndata == 0
    {
      AtInjective(sb, g, o, h, p);
    }
  }

  /** An inode in the stats block is not in its last slot. */
  lemma StatsSpareInodes(sb: Super, i: nat, g: nat)
    requires Laid(sb) && Iblock(sb, i) == StatBlock(sb, g)
    ensures Bgroup(sb, i) == g && DinodeOffset(sb, i) + 1 < sb.ipb
  {
    InodePlace(sb, i);
    AtInjective(sb, Bgroup(sb, i), i % sb.ipbg / sb.ipb + 1, g, sb.nib);
    var q, r := sb.ipbg / sb.ipb, i % sb.ipbg;
    assert r / sb.ipb == q && r == q * sb.ipb + r % sb.ipb && sb.ipbg == q * sb.ipb + sb.ipbg % sb.ipb;
  }

  /** The constants of fs.h: 29 inodes, 4 inode blocks and 4060 data blocks to a group of 4065. */
  lemma HeaderConstants(sb: Super)
    requires Sized(sb, 8 * BSIZE, 12 + WORDS) && sb.ipb == 8
    ensures sb.ipbg == 29 && sb.nib == 4 && sb.ndata == 4060 && sb.bpbg == 4065
  {
  }

  // Statistics

  const DINODE := 64               // sizeof(struct dinode)
  const STATS := 504               // offset of the stats record, two words at the end of its block
  const USED_WORD := 126
  const PERCENT_WORD := 127

  /** The type of the inode in a slot, a signed 16-bit number, is positive. */
  predicate TypePositive(b: Block, slot: nat)
    requires slot < 8
  {
    b[DINODE * slot + 1] < 128 && (b[DINODE * slot] != 0 || b[DINODE * slot + 1] != 0)
  }

  ghost predicate DiskOk(sb: Super, disk: Image) {
    Laid(sb) && sb.ipb == 8 && |disk| == FsSize(sb) && sb.ipbg <= 8 * BSIZE
  }

  predicate Allocated(sb: Super, disk: Image, i: nat)
    requires Laid(sb) && sb.ipb == 8 && |disk| == FsSize(sb) && i < Times(sb.groups, sb.ipbg)
  {
    InodesOnDisk(sb, i);
    TypePositive(disk[Iblock(sb, i)], DinodeOffset(sb, i))
  }

  /** How many inodes from lo up to hi are allocated. */
  function Count(sb: Super, disk: Image, lo: nat, hi: nat): (n: nat)
    requires Laid(sb) && sb.ipb == 8 && |disk| == FsSize(sb) && lo <= hi <= Times(sb.groups, sb.ipbg)
    ensures n <= hi - lo
  {
    if lo == hi then 0 else Count(sb, disk, lo, hi - 1) + if Allocated(sb, disk, hi - 1) then 1 else 0
  }

  /** The first inode number of a group; number 0 is never used. */
  function FirstInode(sb: Super, g: nat): nat {
    if g == 0 then 1 else Times(g, sb.ipbg)
  }

  ghost function Members(sb: Super, disk: Image, g: nat, hi: nat): set<nat>
    requires DiskOk(sb, disk) && hi <= Times(sb.groups, sb.ipbg)
  {
    set i: nat | 1 <= i < hi && Bgroup(sb, i) == g && Allocated(sb, disk, i)
  }

  lemma {:induction false} CountIsMembers(sb: Super, disk: Image, g: nat, hi: nat)
    requires DiskOk(sb, disk) && g < sb.groups && FirstInode(sb, g) <= hi <= Times(g + 1, sb.ipbg) <= Times(sb.groups, sb.ipbg)
    ensures |Members(sb, disk, g, hi)| == Count(sb, disk, FirstInode(sb, g), hi)
  {
    if hi == FirstInode(sb, g) {
      NoMembersBefore(sb, disk, g);
    } else {
      CountIsMembers(sb, disk, g, hi - 1);
      GroupOf(sb, hi - 1, g);
      OneMoreMember(sb, disk, g, hi);
    }
  }

  lemma NoMembersBefore(sb: Super, disk: Image, g: nat)
    requires DiskOk(sb, disk) && g < sb.groups && FirstInode(sb, g) <= Times(sb.groups, sb.ipbg)
    ensures Members(sb, disk, g, FirstInode(sb, g)) == {}
  {
    forall i: nat | 1 <= i < FirstInode(sb, g)
      ensures Bgroup(sb, i) != g
    {
      QuotientBelow(i, sb.ipbg, g);
    }
  }

  lemma OneMoreMember(sb: Super, disk: Image, g: nat, hi: nat)
    requires DiskOk(sb, disk) && 2 <= hi <= Times(sb.groups, sb.ipbg) && Bgroup(sb, hi - 1) == g
    ensures |Members(sb, disk, g, hi)| == |Members(sb, disk, g, hi - 1)| + if Allocated(sb, disk, hi - 1) then 1 else 0
  {
    var s, t := Members(sb, disk, g, hi - 1), Members(sb, disk, g, hi);
    assert t == if Allocated(sb, disk, hi - 1) then s + {hi - 1} else s;
  }

  lemma GroupOf(sb: Super, i: nat, g: nat)
    requires Laid(sb) && Times(g, sb.ipbg) <= i < Times(g + 1, sb.ipbg)
    ensures Bgroup(sb, i) == g
  {
    QuotientBelow(i, sb.ipbg, g + 1);
    TimesIsProduct(g, sb.ipbg);
    MulDiv(g, sb.ipbg);
    DivMono(Times(g, sb.ipbg), i, sb.ipbg);
  }

  /** A byte of the stats record of one of the first n groups. */
  ghost predicate InStats(sb: Super, n: nat, b: nat, k: nat) {
    STATS <= k && exists g: nat :: g < n && b == StatBlock(sb, g)
  }

  ghost predicate OnlyStats(sb: Super, n: nat, before: Image, after: Image) {
    && |after| == |before|
    && forall b, k :: 0 <= b < |before| && 0 <= k < BSIZE && !InStats(sb, n, b, k) ==> after[b][k] == before[b][k]
  }

  /** Writing statistics leaves every inode as it was. */
  lemma AllocatedKept(sb: Super, n: nat, before: Image, after: Image, i: nat)
    requires DiskOk(sb, before) && OnlyStats(sb, n, before, after) && i < Times(sb.groups, sb.ipbg)
    ensures Allocated(sb, after, i) == Allocated(sb, before, i)
  {
    InodesOnDisk(sb, i);
    var b, k := Iblock(sb, i), DINODE * DinodeOffset(sb, i);
    if g: nat :| g < n && b == StatBlock(sb, g) {
      StatsSpareInodes(sb, i, g);
    }
    assert !InStats(sb, n, b, k) && !InStats(sb, n, b, k + 1);
  }

  lemma {:induction false} CountKept(sb: Super, n: nat, before: Image, after: Image, lo: nat, hi: nat)
    requires DiskOk(sb, before) && OnlyStats(sb, n, before, after) && lo <= hi <= Times(sb.groups, sb.ipbg)
    ensures Count(sb, after, lo, hi) == Count(sb, before, lo, hi)
  {
    if lo < hi {
      CountKept(sb, n, before, after, lo, hi - 1);
      AllocatedKept(sb, n, before, after, hi - 1);
    }
  }

  /** The allocated inodes of a group. */
  ghost function GroupCount(sb: Super, disk: Image, g: nat): nat
    requires DiskOk(sb, disk) && g < sb.groups
  {
    TimesMono(g + 1, sb.groups, sb.ipbg);
    Count(sb, disk, FirstInode(sb, g), Times(g + 1, sb.ipbg))
  }

  /** It is the number of all allocated inodes, from 1 up, whose group is g. */
  lemma GroupCountIsAll(sb: Super, disk: Image, g: nat)
    requires DiskOk(sb, disk) && g < sb.groups
    ensures GroupCount(sb, disk, g) == |Members(sb, disk, g, Times(sb.groups, sb.ipbg))|
  {
    var hi := Times(g + 1, sb.ipbg);
    TimesMono(g + 1, sb.groups, sb.ipbg);
    CountIsMembers(sb, disk, g, hi);
    forall i: nat | hi <= i
      ensures Bgroup(sb, i) != g
    {
      TimesIsProduct(g + 1, sb.ipbg);
      MulDiv(g + 1, sb.ipbg);
      DivMono(hi, i, sb.ipbg);
    }
    assert Members(sb, disk, g, hi) == Members(sb, disk, g, Times(sb.groups, sb.ipbg));
  }

  ghost predicate HasStats(b: Block, used: nat, percent: nat) {
    GetWord(b, USED_WORD) == used && GetWord(b, PERCENT_WORD) == percent
  }

  /** STAT_PERCENTAGE_ABS */
  function Percent(used: nat, ipbg: nat): nat
    requires 1 <= ipbg
  {
    used * 100 / ipbg
  }

  /** Group g's record holds its count and percentage. */
  ghost predicate StatsAre(sb: Super, before: Image, after: Image, g: nat)
    requires DiskOk(sb, before) && |after| == |before| && g < sb.groups
  {
    AtInRange(sb, g, sb.nib);
    var used := GroupCount(sb, before, g);
    HasStats(after[StatBlock(sb, g)], used, Percent(used, sb.ipbg))
  }

  /** A block with the two words of a stats record at its end. */
  function WithStats(b: Block, used: nat, percent: nat): (r: Block)
    requires used < WORD_LIMIT && percent < WORD_LIMIT
    ensures HasStats(r, used, percent)
  {
    PutWord(PutWord(b, USED_WORD, used), PERCENT_WORD, percent)
  }

  lemma WithStatsKeeps(b: Block, used: nat, percent: nat, k: nat)
    requires used < WORD_LIMIT && percent < WORD_LIMIT && k < STATS
    ensures WithStats(b, used, percent)[k] == b[k]
  {
  }

  lemma PercentFits(used: nat, ipbg: nat)
    requires used <= ipbg && 1 <= ipbg
    ensures Percent(used, ipbg) <= 100
  {
    MulMono(used, ipbg, 100);
    DivMono(used * 100, 100 * ipbg, ipbg);
    MulDiv(100, ipbg);
  }

  /** Writing group n's record after those before it. */
  lemma OneMoreIsOnlyStats(sb: Super, n: nat, before: Image, mid: Image, x: nat, r: Block)
    requires OnlyStats(sb, n, before, mid) && x == StatBlock(sb, n) && x < |mid|
    requires forall k :: 0 <= k < STATS ==> r[k] == mid[x][k]
    ensures OnlyStats(sb, n + 1, before, mid[x := r])
  {
    var after: Image := mid[x := r];
    forall b, k | 0 <= b < |before| && 0 <= k < BSIZE && !InStats(sb, n + 1, b, k)
      ensures after[b][k] == before[b][k]
    {
      assert !InStats(sb, n, b, k);
    }
  }

  lemma OneMoreRecord(sb: Super, n: nat, before: Image, mid: Image, x: nat, r: Block, g: nat)
    requires DiskOk(sb, before) && n < sb.groups && |mid| == |before| && x == StatBlock(sb, n) && x < |mid|
    requires g < n && StatsAre(sb, before, mid, g)
    ensures StatsAre(sb, before, mid[x := r], g)
  {
    AtInRange(sb, g, sb.nib);
    assert StatBlock(sb, g) != x by {
      if StatBlock(sb, g) == x {
        AtInjective(sb, g, sb.nib, n, sb.nib);
      }
    }
  }

  class GroupDisk {
    const sb: Super
    var disk: Image

    /** One group's loop of fillFSStats: total inodes from iNode on. */
    method CountGroup(iNode: nat, total: nat) returns (used: nat)
      requires DiskOk(sb, disk) && iNode + total <= Times(sb.groups, sb.ipbg)
      ensures used == Count(sb, disk, iNode, iNode + total)
    {
      used := 0;
      var j := 0;
      while j < total
        invariant j <= total && used == Count(sb, disk, iNode, iNode + j)
      {
        InodesOnDisk(sb, iNode + j);
        if TypePositive(disk[Iblock(sb, iNode + j)], DinodeOffset(sb, iNode + j)) {
          used := used + 1;
        }
        j := j + 1;
      }
    }

    method WriteStats(i: nat, used: nat, percent: nat, ghost before: Image)
      requires DiskOk(sb, disk) && DiskOk(sb, before) && i < sb.groups && StatBlock(sb, i) < |disk|
      requires OnlyStats(sb, i, before, disk) && forall g :: 0 <= g < i ==> StatsAre(sb, before, disk, g)
      requires used < WORD_LIMIT && percent < WORD_LIMIT
      requires used == GroupCount(sb, before, i) && percent == Percent(used, sb.ipbg)
      modifies `disk
      ensures DiskOk(sb, disk)
      ensures OnlyStats(sb, i + 1, before, disk) && forall g :: 0 <= g <= i ==> StatsAre(sb, before, disk, g)
    {
      var b := StatBlock(sb, i);
      var r := WithStats(disk[b], used, percent);
      forall k: nat | k < STATS
        ensures r[k] == disk[b][k]
      {
        WithStatsKeeps(disk[b], used, percent, k);
      }
      OneMoreIsOnlyStats(sb, i, before, disk, b, r);
      var after: Image := disk[b := r];
      forall g: nat | g < i
        ensures StatsAre(sb, before, after, g)
      {
        OneMoreRecord(sb, i, before, disk, b, r, g);
      }
      disk := after;
    }

    /** One turn of fillFSStats' loop. */
    method FillGroup(i: nat, iNode: nat, ghost before: Image) returns (next: nat)
      requires DiskOk(sb, disk) && DiskOk(sb, before) && i < sb.groups && iNode == FirstInode(sb, i)
      requires OnlyStats(sb, i, before, disk) && forall g :: 0 <= g < i ==> StatsAre(sb, before, disk, g)
      modifies `disk
      ensures next == FirstInode(sb, i + 1) && DiskOk(sb, disk)
      ensures OnlyStats(sb, i + 1, before, disk) && forall g :: 0 <= g <= i ==> StatsAre(sb, before, disk, g)
    {
      var total := if i == 0 then sb.ipbg - 1 else sb.ipbg;
      next := iNode + total;
      TimesMono(i + 1, sb.groups, sb.ipbg);
      var used := CountGroup(iNode, total);
      CountKept(sb, i, before, disk, iNode, next);
      PercentFits(used, sb.ipbg);
      var percent := Percent(used, sb.ipbg);
      AtInRange(sb, i, sb.nib);
      WriteStats(i, used, percent, before);
    }

    /** fillFSStats: every group's record counts the allocated inodes of that group, and nothing else changes. */
    method FillStats()
      requires DiskOk(sb, disk)
      modifies `disk
      ensures DiskOk(sb, disk) && OnlyStats(sb, sb.groups, old(disk), disk)
      ensures forall g :: 0 <= g < sb.groups ==> StatsAre(sb, old(disk), disk, g)
    {
      var i, iNode := 0, 1;
      while i < sb.groups
        invariant i <= sb.groups && iNode == FirstInode(sb, i)
        invariant DiskOk(sb, disk) && OnlyStats(sb, i, old(disk), disk)
        invariant forall g :: 0 <= g < i ==> StatsAre(sb, old(disk), disk, g)
      {
        iNode := FillGroup(i, iNode, old(disk));
        i := i + 1;
      }
    }
  }
}
