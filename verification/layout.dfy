/**
 * Sizes and offsets of the version 2 `.z80` snapshot that bin2z80 writes:
 * a 55-byte header (30 bytes of the original header plus the 2-byte length
 * field and the 23-byte additional header), then three page frames, each a
 * 3-byte marker followed by 16 KiB of RAM.
 */
module Layout {

  /** An octet, as the unsigned char the tool writes. */
  newtype byte = x: int | 0 <= x < 256

  /** Size of the header: 30 + 2 + 23 bytes. */
  const HeaderSize: nat := 55

  /** Size of one memory page. */
  const PageSize: nat := 16384

  /** Number of pages written, one per third of the 48 KiB window. */
  const PageCount: nat := 3

  /** The RAM window 16384..65535 that is dumped. */
  const WindowSize: nat := 49152

  /** The machine address of the first byte of the window. */
  const WindowBase: nat := 16384

  /** Each page is preceded by {0xFF, 0xFF, id}. */
  const MarkerSize: nat := 3
  const Sentinel: byte := 0xFF

  /** Marker plus page. */
  const FrameSize: nat := MarkerSize + PageSize

  /** Length of every snapshot the tool writes. */
  const SnapshotSize: nat := HeaderSize + PageCount * FrameSize

  /** Page identifiers in the order they are written: 8, 5 and 3 are the
      `.z80` page numbers of RAM banks 5, 2 and 0, the banks seen at
      0x4000, 0x8000 and 0xC000 in 128K mode. */
  const PageIds: seq<byte> := [8, 5, 3]

  /** The screen attribute area 0x5800..0x5AFF, as window offsets, and the
      attribute it is painted with (white paper, black ink). */
  const AttrStart: nat := 6144
  const AttrLength: nat := 768
  const AttrFill: byte := 0x38

  /** Offset of the marker of frame `k` in the snapshot. */
  function FrameStart(k: nat): (r: nat)
    requires k < PageCount
    ensures r + FrameSize <= SnapshotSize
  {
    HeaderSize + k * FrameSize
  }

  /** Offset in the snapshot of the first byte of page `k`. */
  function PayloadStart(k: nat): nat
    requires k < PageCount
  {
    FrameStart(k) + MarkerSize
  }

  /** Where window byte `j` lands in the snapshot: after the header, plus
      three marker bytes for each frame boundary reached so far. */
  function OutputOffset(j: nat): (r: nat)
    requires j < WindowSize
    ensures r < SnapshotSize
    ensures r == PayloadStart(j / PageSize) + j % PageSize
  {
    if j < PageSize then HeaderSize + MarkerSize + j
    else if j < 2 * PageSize then HeaderSize + 2 * MarkerSize + j
    else HeaderSize + 3 * MarkerSize + j
  }

  /** A sequence of `n` zero bytes, what `memset(buffer, 0, n)` leaves. */
  function Zeros(n: nat): (r: seq<byte>)
    ensures |r| == n
    ensures forall i :: 0 <= i < n ==> r[i] == 0
  {
    seq(n, _ => 0)
  }
}
