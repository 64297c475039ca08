/**
 * The 55-byte header of a version 2 `.z80` snapshot, restricted to the
 * fields bin2z80 sets; every other header byte is zero.
 */
module Header {
  import opened Wrappers
  import opened Layout

  /** The header fields written by bin2z80, by byte offset:
      10 the I register, 12 the flags byte whose bits 1-3 hold the border
      colour, 29 the flags byte whose bits 0-1 hold the interrupt mode,
      30-31 the length of the additional header, 32-33 the program counter,
      34 the hardware mode, 35 the last byte sent to port 0x7FFD, and 37 the
      flags byte whose bit 2 marks the AY sound chip as in use. */
  datatype Header = Header(
    interruptRegister: byte,
    borderFlags: byte,
    modeFlags: byte,
    extraLengthLow: byte,
    extraLengthHigh: byte,
    pcLow: byte,
    pcHigh: byte,
    hardwareMode: byte,
    port7ffd: byte,
    soundFlags: byte)

  /** The offsets that carry a field of `Header`. */
  predicate IsFieldOffset(i: int) {
    i == 10 || i == 12 || i == 29 || i == 30 || i == 31 ||
    i == 32 || i == 33 || i == 34 || i == 35 || i == 37
  }

  /** Lays the header out in a zeroed 55-byte buffer. */
  function HeaderBytes(h: Header): (b: seq<byte>)
    ensures |b| == HeaderSize
    ensures b[10] == h.interruptRegister && b[12] == h.borderFlags
    ensures b[29] == h.modeFlags
    ensures b[30] == h.extraLengthLow && b[31] == h.extraLengthHigh
    ensures b[32] == h.pcLow && b[33] == h.pcHigh
    ensures b[34] == h.hardwareMode && b[35] == h.port7ffd
    ensures b[37] == h.soundFlags
    ensures forall i :: 0 <= i < HeaderSize && !IsFieldOffset(i) ==> b[i] == 0
  {
    Zeros(HeaderSize)
      [10 := h.interruptRegister]
      [12 := h.borderFlags]
      [29 := h.modeFlags]
      [30 := h.extraLengthLow]
      [31 := h.extraLengthHigh]
      [32 := h.pcLow]
      [33 := h.pcHigh]
      [34 := h.hardwareMode]
      [35 := h.port7ffd]
      [37 := h.soundFlags]
  }

  /** Reads a header back; fails unless the input is 55 bytes long and every
      byte outside the fields is zero. */
  function ParseHeader(b: seq<byte>): (r: Option<Header>)
  {
    if |b| != HeaderSize then None
    else if exists i :: 0 <= i < HeaderSize && !IsFieldOffset(i) && b[i] != 0 then None
    else Some(Header(b[10], b[12], b[29], b[30], b[31], b[32], b[33], b[34], b[35], b[37]))
  }

  /** Parsing undoes laying out. */
  lemma ParseHeaderBytes(h: Header)
    ensures ParseHeader(HeaderBytes(h)) == Some(h)
  {
  }

  /** Laying out undoes parsing: a parsed header is exactly its bytes. */
  lemma HeaderBytesOfParse(b: seq<byte>, h: Header)
    requires ParseHeader(b) == Some(h)
    ensures HeaderBytes(h) == b
  {
    var e := HeaderBytes(h);
    forall i | 0 <= i < HeaderSize
      ensures e[i] == b[i]
    {
      if !IsFieldOffset(i) {
        assert b[i] == 0;
      }
    }
  }

  /** The program counter a header records. */
  function Pc(h: Header): (pc: int)
    ensures 0 <= pc < 65536
  {
    h.pcLow as int + 256 * h.pcHigh as int
  }

  /** C's `/` on int: the quotient truncated toward zero. */
  function CDiv(a: int, d: int): (q: int)
    requires d > 0
    ensures a >= 0 ==> 0 <= a - q * d < d
    ensures a < 0 ==> -d < a - q * d <= 0
  {
    if a >= 0 then a / d else -((-a) / d)
  }

  /** C's `%` on int: the remainder takes the sign of the dividend. */
  function CRem(a: int, d: int): (r: int)
    requires d > 0
    ensures a == CDiv(a, d) * d + r
    ensures -d < r < d
    ensures r != 0 ==> (r < 0 <==> a < 0)
  {
    if a >= 0 then a % d else -((-a) % d)
  }

  /** Storing an int into an `unsigned char` gives the byte congruent to it
      modulo 256 (section 6.3.1.3 of the C99 standard). */
  function ToByte(x: int): (b: byte)
    ensures (x - b as int) % 256 == 0
  {
    (x % 256) as byte
  }

  /** Byte 32: `run % 256` stored as an unsigned char. */
  function RunLow(run: int): byte {
    ToByte(CRem(run, 256))
  }

  /** Byte 33: `run / 256` stored as an unsigned char. */
  function RunHigh(run: int): byte {
    ToByte(CDiv(run, 256))
  }

  /** Whatever the sign of `run`, the low byte is `run` modulo 256:
      truncating remainder and byte conversion agree with the
      mathematical remainder. */
  lemma RunLowIsMod(run: int)
    ensures RunLow(run) as int == run % 256
  {
    var q, r := CDiv(run, 256), CRem(run, 256);
    assert run == q * 256 + r;
    assert RunLow(run) as int == r % 256;
    assert r % 256 == run % 256;
  }

  /** For every run address the tool can meaningfully be given, the two
      header bytes give it back. */
  lemma RunBytesRoundTrip(run: int)
    requires 0 < run < 65536
    ensures RunLow(run) as int + 256 * RunHigh(run) as int == run
    ensures RunHigh(run) as int == run / 256
  {
  }

  /** The header bin2z80 writes for run address `run`. */
  function SourceHeader(run: int): (h: Header)
    ensures h.interruptRegister == 0x3F
    ensures h.borderFlags == 0x0E
    ensures h.modeFlags == 1
    ensures h.extraLengthLow == 23 && h.extraLengthHigh == 0
    ensures h.hardwareMode == 3 && h.port7ffd == 0x10 && h.soundFlags == 4
    ensures h.pcLow as int == run % 256
  {
    RunLowIsMod(run);
    Header(0x3F, 0x0E, 0x01, 23, 0, RunLow(run), RunHigh(run), 3, 0x10, 4)
  }

  /** The program counter of the written header is the run address. */
  lemma SourceHeaderPc(run: int)
    requires 0 < run < 65536
    ensures Pc(SourceHeader(run)) == run
  {
    RunBytesRoundTrip(run);
  }
}
