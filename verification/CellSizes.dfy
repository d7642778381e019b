/** How many bytes of a payload stay on the page, and how long the encoded cell
    is in each of the formats that carry one. */
module CellSizes {
  import opened Basics

  const USABLE_SIZE: nat := 4096
  /** Payload bytes per overflow page, beside its four-byte link. */
  const CONTENT_PER_PAGE: nat := USABLE_SIZE - 4
  const MIN_LOCAL: nat := (USABLE_SIZE - 12) * 32 / 255 - 23
  const INDEX_MAX_LOCAL: nat := (USABLE_SIZE - 12) * 64 / 255 - 23
  const TABLE_MAX_LOCAL: nat := USABLE_SIZE - 35

  /** Length of a big-endian base-128 varint whose ninth byte holds eight bits. */
  function VarintLen(v: nat): (n: nat)
    ensures 1 <= n <= 9
    ensures v < 0x4000 ==> n <= 2
  {
    if v < 0x80 then 1
    else if v < 0x4000 then 2
    else if v < 0x20_0000 then 3
    else if v < 0x1000_0000 then 4
    else if v < 0x8_0000_0000 then 5
    else if v < 0x400_0000_0000 then 6
    else if v < 0x2_0000_0000_0000 then 7
    else if v < 0x100_0000_0000_0000 then 8
    else 9
  }

  /** The thresholds as numbers: the least that stays on a page, and the most that an
      index page and a table leaf take. */
  lemma Thresholds()
    ensures MIN_LOCAL == 489 && INDEX_MAX_LOCAL == 1002 && TABLE_MAX_LOCAL == 4061 && CONTENT_PER_PAGE == 4092
  {
  }

  lemma WholePages(len: nat)
    requires len >= MIN_LOCAL
    ensures (len - (MIN_LOCAL + (len - MIN_LOCAL) % CONTENT_PER_PAGE)) % CONTENT_PER_PAGE == 0
  {
    var q, r := (len - MIN_LOCAL) / CONTENT_PER_PAGE, (len - MIN_LOCAL) % CONTENT_PER_PAGE;
    assert len - MIN_LOCAL == q * CONTENT_PER_PAGE + r;
    assert (q * CONTENT_PER_PAGE) % CONTENT_PER_PAGE == 0;
  }

  function LocalSize(maxLocal: nat, len: nat): (k: nat)
    requires MIN_LOCAL <= maxLocal
    ensures k <= len && k <= maxLocal
    ensures k < len <==> len > maxLocal
    ensures len > maxLocal ==> MIN_LOCAL <= k && (k == MIN_LOCAL || (len - k) % CONTENT_PER_PAGE == 0)
  {
    if len <= maxLocal then len
    else
      var k := MIN_LOCAL + (len - MIN_LOCAL) % CONTENT_PER_PAGE;
      WholePages(len);
      if k <= maxLocal then k else MIN_LOCAL
  }

  /** A spilled payload wastes nothing on its last overflow page unless the exact
      remainder would not fit locally. */
  lemma SpillIsWholePages(maxLocal: nat, len: nat)
    requires MIN_LOCAL <= maxLocal < len
    ensures
      var k := MIN_LOCAL + (len - MIN_LOCAL) % CONTENT_PER_PAGE;
      k <= maxLocal ==> (len - LocalSize(maxLocal, len)) % CONTENT_PER_PAGE == 0
  {
    WholePages(len);
  }

  /** Pages of overflow: as many as the bytes kept off the page need, and no more. */
  function ChainPages(maxLocal: nat, len: nat): (n: nat)
    requires MIN_LOCAL <= maxLocal
    ensures n == 0 <==> len <= maxLocal
    ensures n > 0 ==> (n - 1) * CONTENT_PER_PAGE < len - LocalSize(maxLocal, len) <= n * CONTENT_PER_PAGE
  {
    (len - LocalSize(maxLocal, len) + CONTENT_PER_PAGE - 1) / CONTENT_PER_PAGE
  }

  /** Length of an index leaf cell; an interior one is four bytes longer. */
  function IndexCellLen(len: nat): (n: nat)
    ensures n <= 1015
  {
    VarintLen(len) + LocalSize(INDEX_MAX_LOCAL, len) + if len > INDEX_MAX_LOCAL then 4 else 0
  }

  /** Length of a table leaf cell, whose rowid is a varint of its 64-bit pattern. */
  function TableCellLen(rowid: int, len: nat): (n: nat)
    requires InRowidRange(rowid)
    ensures n <= 4083
  {
    VarintLen(len) + VarintLen(TwosComplement(rowid)) + LocalSize(TABLE_MAX_LOCAL, len)
    + if len > TABLE_MAX_LOCAL then 4 else 0
  }

  predicate InRowidRange(rowid: int) {
    -0x8000_0000_0000_0000 <= rowid < 0x8000_0000_0000_0000
  }

  function TwosComplement(v: int): (u: nat)
    requires InRowidRange(v)
    ensures u < TWO_64
  {
    if v < 0 then v + TWO_64 else v
  }

  function FromTwosComplement(u: nat): (v: int)
    requires u < TWO_64
    ensures InRowidRange(v)
  {
    if u >= 0x8000_0000_0000_0000 then u - TWO_64 else u
  }
}
