/** Pages, blocks, and the checksum that ties them together. */
module PageCodec {
  import opened Common
  import opened Checksum
  import opened LittleEndian

  const PAGE_SIZE: nat := 4096
  const BLOCK_SIZE: nat := PAGE_SIZE + PAGE_CRC

  function Zeros(n: nat): (s: seq<byte>)
    ensures |s| == n && AllZero(s)
  {
    if n == 0 then [] else [0] + Zeros(n - 1)
  }

  type Page = p: seq<byte> | |p| == PAGE_SIZE witness Zeros(PAGE_SIZE)

  const ZERO_PAGE: Page := Zeros(PAGE_SIZE)

  datatype StorageError =
    | OutOfBounds(blockId: nat, blockCount: nat)
    | ShortRead(got: nat, expected: nat)
    | ShortWrite(got: nat, expected: nat)
    | SyncFailed
    | AllFramesPinned
    | UncommittedPagesPinned
    | Corrupt

  predicate AllZero(s: seq<byte>) {
    forall i :: 0 <= i < |s| ==> s[i] == 0
  }

  /** The on-disk form of a page: its bytes, then their checksum. */
  function EncodePage(page: Page): (block: seq<byte>)
    ensures |block| == BLOCK_SIZE
  {
    page + LE(Crc32(page), PAGE_CRC)
  }

  /** The page a block holds; an all-zero block is a page never written. */
  function DecodeBlock(block: seq<byte>): Result<Page, StorageError> {
    if |block| != BLOCK_SIZE then Err(ShortRead(|block|, BLOCK_SIZE))
    else if AllZero(block) then Ok(ZERO_PAGE)
    else if Crc32(block[..PAGE_SIZE]) != FromLE(block[PAGE_SIZE..]) then Err(Corrupt)
    else Ok(block[..PAGE_SIZE])
  }

  lemma StoredChecksum(page: Page)
    ensures EncodePage(page)[..PAGE_SIZE] == page && FromLE(EncodePage(page)[PAGE_SIZE..]) == Crc32(page)
  {
    CrcBound(page);
    Widths();
    RoundTrip(Crc32(page), 4);
    assert EncodePage(page)[PAGE_SIZE..] == LE(Crc32(page), 4);
  }

  /** A block byte by byte: the page, then its CRC, least significant byte first. */
  lemma BlockLayout(page: Page, i: nat)
    requires i < BLOCK_SIZE
    ensures EncodePage(page)[i] as nat == if i < PAGE_SIZE then page[i] as nat else Crc32(page) / Pow256(i - PAGE_SIZE) % 256
  {
    if i >= PAGE_SIZE {
      LEByte(Crc32(page), PAGE_CRC, i - PAGE_SIZE);
    }
  }

  /** Every page survives being written and read back, the all-zero page included. */
  lemma DecodeEncodedPage(page: Page)
    ensures DecodeBlock(EncodePage(page)) == Ok(page)
  {
    StoredChecksum(page);
    if AllZero(EncodePage(page)) {
      assert forall i :: 0 <= i < PAGE_SIZE ==> page[i] == EncodePage(page)[i];
      assert page == ZERO_PAGE;
    }
  }

  /** One changed byte in a stored page is noticed, unless it makes the whole block zero. */
  lemma DamagedBlock(page: Page, i: nat, b: byte)
    requires i < BLOCK_SIZE && EncodePage(page)[i] != b
    ensures DecodeBlock(EncodePage(page)[i := b])
         == if AllZero(EncodePage(page)[i := b]) then Ok(ZERO_PAGE) else Err(Corrupt)
  {
    var block := EncodePage(page);
    StoredChecksum(page);
    if i < PAGE_SIZE {
      assert block[i := b][..PAGE_SIZE] == page[i := b] && block[i := b][PAGE_SIZE..] == block[PAGE_SIZE..];
      OneByteChangesCrc(page, i, b);
    } else {
      var stored := block[PAGE_SIZE..];
      assert block[i := b][..PAGE_SIZE] == page && block[i := b][PAGE_SIZE..] == stored[i - PAGE_SIZE := b];
      assert stored[i - PAGE_SIZE := b][i - PAGE_SIZE] == b;
      if FromLE(stored[i - PAGE_SIZE := b]) == FromLE(stored) {
        FromLEInjective(stored[i - PAGE_SIZE := b], stored);
      }
    }
  }

  lemma {:induction false} ZeroBytes(s: seq<byte>)
    ensures AllZero(s) <==> FromLE(s) == 0
  {
    if s != [] {
      ZeroBytes(s[1..]);
      assert s == [s[0]] + s[1..];
    }
  }

  /** Every byte but the one at `k` is zero. */
  predicate ZeroBut(s: seq<byte>, k: int) {
    forall j :: 0 <= j < |s| && j != k ==> s[j] == 0
  }

  /** A block with one byte set is all zero when that byte and all others are. */
  lemma ClearedBlock(page: seq<byte>, sum: seq<byte>, i: nat, b: byte)
    requires i < |page| + |sum|
    ensures AllZero((page + sum)[i := b]) <==> b == 0 && ZeroBut(page, i) && ZeroBut(sum, i - |page|)
  {
    var block := (page + sum)[i := b];
    assert forall j :: 0 <= j < |page| && j != i ==> block[j] == page[j];
    assert forall j :: 0 <= j < |sum| && j != i - |page| ==> block[|page| + j] == sum[j];
    assert block[i] == b;
    assert forall j :: |page| <= j < |page| + |sum| && j != i ==> block[j] == sum[j - |page|];
  }

  /**
    When damage goes unnoticed: only if it clears the one byte of the block that is not zero, either
    the one such byte of a page whose checksum is zero, or the one such byte of the zero page's checksum.
  */
  lemma UnnoticedExactly(page: Page, i: nat, b: byte)
    requires i < BLOCK_SIZE && EncodePage(page)[i] != b
    ensures DecodeBlock(EncodePage(page)[i := b]).Ok? <==>
      b == 0 && ZeroBut(page, i) && if i < PAGE_SIZE then Crc32(page) == 0 else ZeroBut(LE(Crc32(page), PAGE_CRC), i - PAGE_SIZE)
  {
    var sum := LE(Crc32(page), PAGE_CRC);
    DamagedBlock(page, i, b);
    StoredChecksum(page);
    ZeroBytes(sum);
    assert EncodePage(page)[PAGE_SIZE..] == sum;
    ClearedBlock(page, sum, i, b);
    assert DecodeBlock(EncodePage(page)[i := b]).Ok? <==> AllZero((page + sum)[i := b]);
    assert i < PAGE_SIZE ==> (AllZero(sum) <==> ZeroBut(sum, i - |page|));
  }

  /**
    When damage yields another page than the one stored: only if it clears the one byte that is not
    zero of a page whose checksum is zero. Damage to the checksum never does.
  */
  lemma MisreadExactly(page: Page, i: nat, b: byte)
    requires i < BLOCK_SIZE && EncodePage(page)[i] != b
    ensures var r := DecodeBlock(EncodePage(page)[i := b]);
      (r.Ok? && r.value != page) <==> (i < PAGE_SIZE && b == 0 && ZeroBut(page, i) && Crc32(page) == 0)
  {
    UnnoticedExactly(page, i, b);
    DamagedBlock(page, i, b);
    if i >= PAGE_SIZE && ZeroBut(page, i) {
      assert page == ZERO_PAGE;
    }
    assert i < PAGE_SIZE ==> EncodePage(page)[i] == page[i];
  }
}
