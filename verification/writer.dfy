/**
 * bin2z80's own order of work on a 48 KiB buffer: build the header in it,
 * emit 55 bytes, clear it, paint the attributes, read the dump in, and emit
 * the three frames. The tool reuses one buffer for both stages; since it is
 * cleared in between, each stage here has a buffer of its own.
 */
module Writer {
  import opened Layout
  import opened Header
  import opened Window
  import opened Snapshot

  /** The 55 header bytes as the tool sets them in its zeroed buffer. */
  method BuildHeader(run: int) returns (out: seq<byte>)
    ensures out == HeaderBytes(SourceHeader(run))
  {
    var buffer := new byte[WindowSize];
    var i := 0;
    while i < WindowSize
      invariant 0 <= i <= WindowSize
      invariant forall k :: 0 <= k < i ==> buffer[k] == 0
    {
      buffer[i] := 0;
      i := i + 1;
    }
    buffer[10] := 0x3F;
    buffer[12] := 0x0E;
    buffer[29] := 0x01;
    buffer[30] := 23;
    buffer[31] := 0;
    buffer[32] := RunLow(run);
    buffer[33] := RunHigh(run);
    buffer[34] := 3;
    buffer[35] := 0x10;
    buffer[37] := 4;
    out := buffer[..HeaderSize];
  }

  /** The window after clearing, painting the attributes and reading at
      most 49152 bytes of the dump. */
  method BuildWindow(input: seq<byte>, address: int) returns (w: seq<byte>)
    requires Fits(input, address)
    ensures w == MakeWindow(input, address)
  {
    var buffer := new byte[WindowSize];
    var i := 0;
    while i < WindowSize
      invariant 0 <= i <= WindowSize
      invariant forall k :: 0 <= k < i ==> buffer[k] == 0
    {
      buffer[i] := 0;
      i := i + 1;
    }
    i := 0;
    while i < AttrLength
      invariant 0 <= i <= AttrLength
      invariant forall k :: 0 <= k < WindowSize ==>
        buffer[k] == (if AttrStart <= k < AttrStart + i then AttrFill else 0)
    {
      buffer[AttrStart + i] := AttrFill;
      i := i + 1;
    }
    var off := address - WindowBase;
    var data := Loaded(input);
    i := 0;
    while i < |data|
      invariant 0 <= i <= |data|
      invariant forall k :: 0 <= k < WindowSize ==>
        buffer[k] == (if off <= k < off + i then data[k - off]
                      else if InAttributes(k) then AttrFill else 0)
    {
      buffer[off + i] := data[i];
      i := i + 1;
    }
    w := buffer[..];
    forall k | 0 <= k < WindowSize
      ensures w[k] == MakeWindow(input, address)[k]
    {
      WindowByte(input, address, k);
    }
  }

  /** The bytes written to the output file, in order. */
  method WriteSnapshot(input: seq<byte>, address: int, run: int) returns (out: seq<byte>)
    requires Fits(input, address)
    ensures out == Encode(input, address, run)
  {
    out := BuildHeader(run);
    var w := BuildWindow(input, address);
    out := out + [Sentinel, Sentinel, PageIds[0]] + w[0..PageSize];
    out := out + [Sentinel, Sentinel, PageIds[1]] + w[PageSize..2 * PageSize];
    out := out + [Sentinel, Sentinel, PageIds[2]] + w[2 * PageSize..3 * PageSize];
  }
}
