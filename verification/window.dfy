/**
 * The 48 KiB window buffer: zeroed, the screen attributes painted, and the
 * memory dump copied in at its load address.
 */
module Window {
  import opened Layout

  /** How many bytes the single `read` of at most 49152 bytes takes from
      the dump. */
  function ReadLength(input: seq<byte>): (n: nat)
    ensures n <= |input| && n <= WindowSize
    ensures n == |input| || n == WindowSize
  {
    if |input| <= WindowSize then |input| else WindowSize
  }

  /** What that `read` takes: all of the dump, or its first 49152 bytes
      when it is longer. */
  function Loaded(input: seq<byte>): (d: seq<byte>)
    ensures |d| == ReadLength(input)
    ensures forall i :: 0 <= i < |d| ==> d[i] == input[i]
  {
    input[..ReadLength(input)]
  }

  /** The part of the dump that is read fits the window when loaded at
      `address`: the whole dump fits after its load offset, or it is loaded
      at the window's base, where the read stops at the window's end.
      Outside this the read overruns the buffer. */
  predicate Fits(input: seq<byte>, address: int) {
    WindowBase <= address &&
    (address - WindowBase + |input| <= WindowSize || address == WindowBase)
  }

  /** `memset(w + start, v, len)`. */
  function Fill(w: seq<byte>, start: nat, len: nat, v: byte): (r: seq<byte>)
    requires start + len <= |w|
    ensures |r| == |w|
    ensures forall i :: 0 <= i < |w| ==>
      r[i] == (if start <= i < start + len then v else w[i])
  {
    w[..start] + seq(len, _ => v) + w[start + len..]
  }

  /** A read of `data` into `w` at offset `off`. */
  function Place(w: seq<byte>, off: nat, data: seq<byte>): (r: seq<byte>)
    requires off + |data| <= |w|
    ensures |r| == |w|
    ensures r[off..off + |data|] == data
    ensures forall i :: 0 <= i < |w| && !(off <= i < off + |data|) ==> r[i] == w[i]
  {
    w[..off] + data + w[off + |data|..]
  }

  /** Whether window byte `j` is covered by a dump of length `n` loaded at `address`. */
  predicate Covered(j: int, address: int, n: nat) {
    address - WindowBase <= j < address - WindowBase + n
  }

  /** Whether window byte `j` is in the attribute area. */
  predicate InAttributes(j: int) {
    AttrStart <= j < AttrStart + AttrLength
  }

  /** The window the tool emits: the part of the dump that is read wins
      over the attribute fill, which wins over zero. */
  function MakeWindow(input: seq<byte>, address: int): (w: seq<byte>)
    requires Fits(input, address)
    ensures |w| == WindowSize
    ensures forall i :: 0 <= i < ReadLength(input) ==> w[address - WindowBase + i] == input[i]
    ensures forall j :: 0 <= j < WindowSize && !Covered(j, address, ReadLength(input)) ==>
      w[j] == (if InAttributes(j) then AttrFill else 0)
  {
    var off := address - WindowBase;
    var data := Loaded(input);
    var painted := Fill(Zeros(WindowSize), AttrStart, AttrLength, AttrFill);
    var w := Place(painted, off, data);
    assert forall i :: 0 <= i < |data| ==> input[i] == data[i] == w[off..off + |data|][i];
    w
  }

  /** Window byte `j` in one piece: the dump byte loaded there, or else the
      attribute fill or zero. */
  lemma WindowByte(input: seq<byte>, address: int, j: int)
    requires Fits(input, address) && 0 <= j < WindowSize
    ensures Covered(j, address, ReadLength(input)) ==>
      MakeWindow(input, address)[j] == input[j - (address - WindowBase)]
    ensures !Covered(j, address, ReadLength(input)) ==>
      MakeWindow(input, address)[j] == (if InAttributes(j) then AttrFill else 0)
  {
    var off := address - WindowBase;
    if Covered(j, address, ReadLength(input)) {
      assert MakeWindow(input, address)[off + (j - off)] == input[j - off];
    }
  }

  /** Byte `i` of the dump that is read lands at window offset `address - 16384 + i`. */
  lemma LoadedByte(input: seq<byte>, address: int, i: nat)
    requires Fits(input, address) && i < ReadLength(input)
    ensures MakeWindow(input, address)[address - WindowBase + i] == input[i]
  {
  }
}
