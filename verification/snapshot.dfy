/**
 * The snapshot container: the header followed by three framed pages, the
 * encoder bin2z80 implements and a decoder that undoes it.
 */
module Snapshot {
  import opened Wrappers
  import opened Layout
  import opened Header
  import opened Window

  /** One memory page and the identifier its frame carries. */
  datatype Page = Page(id: byte, content: seq<byte>)

  /** A decoded snapshot. */
  datatype Snapshot = Snapshot(header: Header, pages: seq<Page>)

  /** Why a byte sequence is not a snapshot of the shape bin2z80 writes. */
  datatype DecodeError = BadLength | BadHeader | BadMarker

  /** Three pages of 16 KiB each. */
  predicate Shaped(s: Snapshot) {
    |s.pages| == PageCount &&
    forall k :: 0 <= k < |s.pages| ==> |s.pages[k].content| == PageSize
  }

  /** A frame: the two sentinels, the page identifier, the page. */
  function Frame(p: Page): (r: seq<byte>)
    ensures |r| == MarkerSize + |p.content|
    ensures r[0] == Sentinel && r[1] == Sentinel && r[2] == p.id
    ensures r[MarkerSize..] == p.content
  {
    [Sentinel, Sentinel, p.id] + p.content
  }

  /** Reads a frame back; fails when the two sentinels are missing. */
  function Unframe(b: seq<byte>): (r: Option<Page>)
    ensures r.Some? ==> |r.value.content| + MarkerSize == |b|
  {
    if |b| < MarkerSize || b[0] != Sentinel || b[1] != Sentinel then None
    else Some(Page(b[2], b[MarkerSize..]))
  }

  lemma UnframeFrame(p: Page)
    ensures Unframe(Frame(p)) == Some(p)
  {
  }

  lemma FrameUnframe(b: seq<byte>, p: Page)
    requires Unframe(b) == Some(p)
    ensures Frame(p) == b
  {
    assert b == b[..MarkerSize] + b[MarkerSize..];
    assert b[..MarkerSize] == [Sentinel, Sentinel, p.id];
  }

  /** The bytes of a snapshot: header, then the frames in page order. */
  function EncodeSnapshot(s: Snapshot): (r: seq<byte>)
    requires Shaped(s)
    ensures |r| == SnapshotSize
  {
    HeaderBytes(s.header) + Frame(s.pages[0]) + Frame(s.pages[1]) + Frame(s.pages[2])
  }

  /** The `k`-th frame of a snapshot-sized byte sequence. */
  function FrameBytes(out: seq<byte>, k: nat): (r: seq<byte>)
    requires |out| == SnapshotSize && k < PageCount
    ensures |r| == FrameSize
  {
    out[FrameStart(k)..FrameStart(k) + FrameSize]
  }

  /** Splits a snapshot into its header and frames. */
  function Decode(out: seq<byte>): (r: Result<Snapshot, DecodeError>)
    ensures r.Success? ==> Shaped(r.value) && |out| == SnapshotSize
  {
    if |out| != SnapshotSize then Failure(BadLength)
    else match ParseHeader(out[..HeaderSize])
      case None => Failure(BadHeader)
      case Some(h) =>
        match (Unframe(FrameBytes(out, 0)), Unframe(FrameBytes(out, 1)), Unframe(FrameBytes(out, 2)))
        case (Some(p0), Some(p1), Some(p2)) => Success(Snapshot(h, [p0, p1, p2]))
        case _ => Failure(BadMarker)
  }

  /** The pieces of an encoded snapshot sit at their fixed offsets. */
  lemma EncodeSnapshotPieces(s: Snapshot)
    requires Shaped(s)
    ensures EncodeSnapshot(s)[..HeaderSize] == HeaderBytes(s.header)
    ensures forall k :: 0 <= k < PageCount ==> FrameBytes(EncodeSnapshot(s), k) == Frame(s.pages[k])
  {
    var h := HeaderBytes(s.header);
    var f0, f1, f2 := Frame(s.pages[0]), Frame(s.pages[1]), Frame(s.pages[2]);
    var out := EncodeSnapshot(s);
    assert out == h + f0 + f1 + f2;
    assert out[..HeaderSize] == h;
    assert FrameBytes(out, 0) == f0;
    assert FrameBytes(out, 1) == f1;
    assert FrameBytes(out, 2) == f2;
  }

  /** Decoding undoes encoding. */
  lemma DecodeEncodeSnapshot(s: Snapshot)
    requires Shaped(s)
    ensures Decode(EncodeSnapshot(s)) == Success(s)
  {
    EncodeSnapshotPieces(s);
    var out := EncodeSnapshot(s);
    ParseHeaderBytes(s.header);
    UnframeFrame(s.pages[0]);
    UnframeFrame(s.pages[1]);
    UnframeFrame(s.pages[2]);
    assert s.pages == [s.pages[0], s.pages[1], s.pages[2]];
  }

  /** Encoding undoes decoding: whatever decodes is exactly its snapshot's bytes. */
  lemma EncodeDecodeSnapshot(out: seq<byte>, s: Snapshot)
    requires Decode(out) == Success(s)
    ensures EncodeSnapshot(s) == out
  {
    var h := out[..HeaderSize];
    var f0, f1, f2 := FrameBytes(out, 0), FrameBytes(out, 1), FrameBytes(out, 2);
    assert ParseHeader(h) == Some(s.header);
    assert Unframe(f0) == Some(s.pages[0]);
    assert Unframe(f1) == Some(s.pages[1]);
    assert Unframe(f2) == Some(s.pages[2]);
    HeaderBytesOfParse(h, s.header);
    FrameUnframe(f0, s.pages[0]);
    FrameUnframe(f1, s.pages[1]);
    FrameUnframe(f2, s.pages[2]);
    assert out == h + f0 + f1 + f2;
  }

  /** Byte `i` of page `k` of an encoded snapshot. */
  lemma EncodeSnapshotPayload(s: Snapshot, k: nat, i: nat)
    requires Shaped(s) && k < PageCount && i < PageSize
    ensures EncodeSnapshot(s)[PayloadStart(k) + i] == s.pages[k].content[i]
  {
    EncodeSnapshotPieces(s);
    var out := EncodeSnapshot(s);
    assert out[PayloadStart(k) + i] == FrameBytes(out, k)[MarkerSize + i];
    assert Frame(s.pages[k])[MarkerSize..][i] == s.pages[k].content[i];
  }

  /** Slice `k` of the window, `[16384 k, 16384 (k + 1))`. */
  function Slice(w: seq<byte>, k: nat): (r: seq<byte>)
    requires |w| == WindowSize && k < PageCount
    ensures |r| == PageSize
    ensures forall i :: 0 <= i < PageSize ==> r[i] == w[k * PageSize + i]
  {
    w[k * PageSize..(k + 1) * PageSize]
  }

  /** The window cut into three pages with identifiers 8, 5 and 3. */
  function Paginate(w: seq<byte>): (pages: seq<Page>)
    requires |w| == WindowSize
    ensures |pages| == PageCount
    ensures forall k :: 0 <= k < PageCount ==> pages[k] == Page(PageIds[k], Slice(w, k))
  {
    [Page(PageIds[0], Slice(w, 0)), Page(PageIds[1], Slice(w, 1)), Page(PageIds[2], Slice(w, 2))]
  }

  /** The window reassembled from three pages. */
  function Unpaginate(pages: seq<Page>): seq<byte>
    requires |pages| == PageCount
  {
    pages[0].content + pages[1].content + pages[2].content
  }

  /** The three payloads together are the whole window. */
  lemma UnpaginatePaginate(w: seq<byte>)
    requires |w| == WindowSize
    ensures Unpaginate(Paginate(w)) == w
  {
    assert w == w[..PageSize] + w[PageSize..2 * PageSize] + w[2 * PageSize..];
  }

  /** The snapshot bin2z80 writes for dump `input` loaded at `address` and
      run address `run`. */
  function Encode(input: seq<byte>, address: int, run: int): (r: seq<byte>)
    requires Fits(input, address)
    ensures |r| == 49216
  {
    EncodeSnapshot(Snapshot(SourceHeader(run), Paginate(MakeWindow(input, address))))
  }

  /** Fixed layout of every snapshot the tool writes: the header at the
      front and the three markers at 55, 16442 and 32829 carrying 8, 5, 3. */
  lemma EncodeLayout(input: seq<byte>, address: int, run: int)
    requires Fits(input, address)
    ensures Encode(input, address, run)[..55] == HeaderBytes(SourceHeader(run))
    ensures Encode(input, address, run)[55..58] == [0xFF, 0xFF, 8]
    ensures Encode(input, address, run)[16442..16445] == [0xFF, 0xFF, 5]
    ensures Encode(input, address, run)[32829..32832] == [0xFF, 0xFF, 3]
  {
    var s := Snapshot(SourceHeader(run), Paginate(MakeWindow(input, address)));
    EncodeSnapshotPieces(s);
    var out := EncodeSnapshot(s);
    assert out[55..58] == FrameBytes(out, 0)[..3];
    assert out[16442..16445] == FrameBytes(out, 1)[..3];
    assert out[32829..32832] == FrameBytes(out, 2)[..3];
  }

  /** Window byte `j` is written at `OutputOffset(j)`, right after the
      marker of its page. */
  lemma EncodeWindowByte(input: seq<byte>, address: int, run: int, j: nat)
    requires Fits(input, address) && j < WindowSize
    ensures Encode(input, address, run)[OutputOffset(j)] == MakeWindow(input, address)[j]
  {
    PaginatedByte(SourceHeader(run), MakeWindow(input, address), j);
  }

  /** Any window, paginated and encoded, has its byte `j` at `OutputOffset(j)`. */
  lemma PaginatedByte(h: Header, w: seq<byte>, j: nat)
    requires |w| == WindowSize && j < WindowSize
    ensures EncodeSnapshot(Snapshot(h, Paginate(w)))[OutputOffset(j)] == w[j]
  {
    var k, i := j / PageSize, j % PageSize;
    EncodeSnapshotPayload(Snapshot(h, Paginate(w)), k, i);
    assert Slice(w, k)[i] == w[k * PageSize + i];
  }

  /** Byte `i` of the dump that is read is written at the image of its
      load offset. */
  lemma EncodePlacesByte(input: seq<byte>, address: int, run: int, i: nat)
    requires Fits(input, address) && i < ReadLength(input)
    ensures Encode(input, address, run)[OutputOffset(address - WindowBase + i)] == input[i]
  {
    LoadedByte(input, address, i);
    EncodeWindowByte(input, address, run, address - WindowBase + i);
  }

  /** Placement round trip: every byte of the dump that is read appears in
      the snapshot at the image of its load offset. */
  lemma EncodePlacesInput(input: seq<byte>, address: int, run: int)
    requires Fits(input, address)
    ensures forall i :: 0 <= i < ReadLength(input) ==>
      Encode(input, address, run)[OutputOffset(address - WindowBase + i)] == input[i]
  {
    forall i | 0 <= i < ReadLength(input)
      ensures Encode(input, address, run)[OutputOffset(address - WindowBase + i)] == input[i]
    {
      EncodePlacesByte(input, address, run, i);
    }
  }

  /** Nothing else changes: window bytes not covered by the dump are the
      attribute fill at [6144, 6912), which is output [6202, 6970) in the
      page with identifier 8, and zero everywhere else. */
  lemma EncodeUncovered(input: seq<byte>, address: int, run: int, j: nat)
    requires Fits(input, address) && j < WindowSize && !Covered(j, address, ReadLength(input))
    ensures InAttributes(j) ==>
      6202 <= OutputOffset(j) < 6970 && Encode(input, address, run)[OutputOffset(j)] == AttrFill
    ensures !InAttributes(j) ==> Encode(input, address, run)[OutputOffset(j)] == 0
  {
    EncodeWindowByte(input, address, run, j);
  }

  /** The dump read back from a snapshot, given where it was loaded and its length. */
  function RecoverInput(out: seq<byte>, address: int, n: nat): Option<seq<byte>>
  {
    match Decode(out)
    case Failure(_) => None
    case Success(s) =>
      if WindowBase <= address && address - WindowBase + n <= WindowSize then
        Some(Unpaginate(s.pages)[address - WindowBase..address - WindowBase + n])
      else None
  }

  /** Decoding the tool's output gives back its header and the window. */
  lemma DecodeEncode(input: seq<byte>, address: int, run: int)
    requires Fits(input, address)
    ensures Decode(Encode(input, address, run)).Success?
    ensures Decode(Encode(input, address, run)).value.header == SourceHeader(run)
    ensures Unpaginate(Decode(Encode(input, address, run)).value.pages) == MakeWindow(input, address)
  {
    var w := MakeWindow(input, address);
    DecodeEncodeSnapshot(Snapshot(SourceHeader(run), Paginate(w)));
    UnpaginatePaginate(w);
  }

  /** The dump (its first 49152 bytes, when longer) and the run address
      both survive encoding. */
  lemma RecoverEncoded(input: seq<byte>, address: int, run: int)
    requires Fits(input, address)
    ensures RecoverInput(Encode(input, address, run), address, ReadLength(input)) ==
      Some(input[..ReadLength(input)])
    ensures |input| <= WindowSize ==>
      RecoverInput(Encode(input, address, run), address, |input|) == Some(input)
    ensures 0 < run < 65536 ==> Pc(Decode(Encode(input, address, run)).value.header) == run
  {
    DecodeEncode(input, address, run);
    var w := MakeWindow(input, address);
    var off := address - WindowBase;
    var n := ReadLength(input);
    assert w[off..off + n] == input[..n];
    if |input| <= WindowSize {
      assert input[..n] == input;
    }
    if 0 < run < 65536 {
      SourceHeaderPc(run);
    }
  }

  /** A 16 KiB dump of zeros at 16384 run from 32768: the program counter
      bytes are 0 and 128, and the markers are in place. */
  lemma ZeroPageExample()
    ensures var out := Encode(Zeros(16384), 16384, 32768);
      out[32] == 0 && out[33] == 128 && |out| == 49216 &&
      out[55..58] == [0xFF, 0xFF, 8] && out[16442..16445] == [0xFF, 0xFF, 5] &&
      out[32829..32832] == [0xFF, 0xFF, 3]
  {
    var out := Encode(Zeros(16384), 16384, 32768);
    EncodeLayout(Zeros(16384), 16384, 32768);
    assert out[32] == out[..55][32];
    assert out[33] == out[..55][33];
  }

  /** A dump longer than the window, loaded at 16384, is read only as far
      as its first 49152 bytes: the snapshot is the one of that prefix, and
      what lies beyond it leaves no trace. */
  lemma OversizedDumpIsCut(input: seq<byte>, run: int)
    requires |input| > WindowSize
    ensures Fits(input, WindowBase)
    ensures Encode(input, WindowBase, run) == Encode(input[..WindowSize], WindowBase, run)
  {
    assert Loaded(input[..WindowSize]) == Loaded(input);
  }
}
