# bin2z80 in Dafny

`bin2z80 bin_file output_file dump_address run_address` turns a raw memory
dump of a ZX Spectrum into a version 2 `.z80` snapshot for the 128K machine.
The snapshot is a 55-byte header followed by three page frames. Each frame is
`{0xFF, 0xFF, id}` and then 16384 bytes of RAM. The ids are 8, 5 and 3, for
the thirds of the 48 KiB window at 0x4000, 0x8000 and 0xC000. The window
starts out zeroed. Its screen-attribute area (window bytes 6144..6911) is
painted with 0x38. The dump is then copied in at `dump_address - 16384`.

This project models that transformation as pure functions over byte
sequences (`byte` is a newtype over 0..255).
It adds a decoder that undoes the encoding, and it proves round trips and the
fixed byte layout.

Modules, one per file:

- `Layout` (`layout.dfy`): sizes and offsets, and `OutputOffset`, which maps
  a window byte to its position in the snapshot.
- `Header` (`header.dfy`): the header record and its 55-byte layout. It also
  holds C's truncating `/` and `%` on `int`, and the byte conversion used for
  the run address.
- `Window` (`window.dfy`): the window buffer. It is cleared, the attributes
  are painted, and the dump is placed.
- `Snapshot` (`snapshot.dfy`): frames, pages, the encoder `Encode`, the
  decoder `Decode`, and the round-trip and layout lemmas.
- `Writer` (`writer.dfy`): the tool's own buffer loops, written as methods
  over arrays and proved equal to `Encode`.
- `Cli` (`cli.dfy`): argument validation and the whole run. I/O outcomes are
  parameters.
- `Wrappers` (`wrappers.dfy`): `Option` and `Result`.

Three facts about the layout:

- Every snapshot is 55 + 3·(3 + 16384) = **49216** bytes long.
- The 0x38 attribute fill lies in window bytes 6144..6911. That is in the
  first page, the one with id 8, at output bytes 6202..6969.
- Bytes 30 and 31 are 23 and 0. In the `.z80` version 2 format they hold the
  length of the additional header, so the model names them
  `extraLengthLow`/`extraLengthHigh`.

The dump is read with a single `read` of at most 49152 bytes (bin2z80.c:62).
A longer dump loaded at 16384 is therefore cut to its first 49152 bytes.
`Window.ReadLength` and `Window.Loaded` model this cut.

## Model

| member | source | states |
|---|---|---|
| Layout.FrameStart | bin2z80.c:63-77 | Every frame, marker plus page, ends inside the snapshot. |
| Layout.OutputOffset | bin2z80.c:63-77 | Window byte j lands after the header and after one 3-byte marker for each frame reached. This is the payload start of page j/16384 plus j%16384, and it is inside the snapshot. |
| Layout.Zeros | bin2z80.c:46 | `memset` to zero gives n bytes, all of them 0. |
| Header.HeaderBytes | bin2z80.c:45-59 | The header is 55 bytes. Each field sits at its offset (10, 12, 29-35, 37), and every other byte is 0 because the buffer was zeroed first. |
| Header.ParseHeaderBytes | bin2z80.c:45-59 | Parsing the header bytes gives back the header record. |
| Header.HeaderBytesOfParse | bin2z80.c:45-59 | Any 55-byte sequence that parses is exactly the layout of the header it parses to. The layout therefore loses nothing and admits nothing else. |
| Header.CDiv | bin2z80.c:55 | C's `/` truncates toward zero. For a non-negative dividend, a - q·d lies in [0, d). For a negative one, it lies in (-d, 0]. |
| Header.CRem | bin2z80.c:54 | C's `%` pairs with the truncating quotient (a == q·d + r). Its remainder lies strictly between -d and d, and a non-zero remainder has the sign of the dividend. |
| Header.ToByte | bin2z80.c:54-55 | Storing an int into an unsigned char gives the byte congruent to it modulo 256 (section 6.3.1.3 of the C99 standard). |
| Header.RunLowIsMod | bin2z80.c:54 | For every int run address, including negative ones, byte 32 equals run mod 256. |
| Header.RunBytesRoundTrip | bin2z80.c:54-55 | For 0 < run < 65536, byte 32 + 256·byte 33 == run, and byte 33 == run / 256. |
| Header.SourceHeader | bin2z80.c:49-58 | The written header has I = 0x3F, border flags 0x0E, interrupt mode 1, additional length 23/0, hardware mode 3, port 0x7FFD value 0x10 and sound flags 4. Its PC low byte is run mod 256. |
| Header.SourceHeaderPc | bin2z80.c:54-55 | For 0 < run < 65536, the program counter recorded in the header is the run address. |
| Window.Fill | bin2z80.c:61 | A fill changes exactly the bytes in [start, start+len) to v and keeps the length. |
| Window.Place | bin2z80.c:62 | Reading data in at off puts it in [off, off+\|data\|) and leaves every other byte unchanged. |
| Window.ReadLength | bin2z80.c:62 | The read takes the whole dump or exactly 49152 bytes, whichever is less. |
| Window.Loaded | bin2z80.c:62 | The bytes read are the first ReadLength bytes of the dump. |
| Window.MakeWindow | bin2z80.c:60-62 | The window is 49152 bytes. `window[address-16384+i] == input[i]` for every i below the read length. Any byte the read does not cover is 0x38 inside [6144, 6912) and 0 elsewhere. |
| Window.WindowByte | bin2z80.c:60-62 | Each window byte is the dump byte read into it, or else 0x38 in the attribute area and 0 outside it. |
| Window.LoadedByte | bin2z80.c:62 | Byte i of the dump, for i below the read length, is window byte address-16384+i. |
| Snapshot.Frame | bin2z80.c:63-66 | A frame is 0xFF, 0xFF, the page id, then the page. |
| Snapshot.UnframeFrame | bin2z80.c:63-77 | Reading a frame back gives its page. |
| Snapshot.FrameUnframe | bin2z80.c:63-77 | Any bytes that read back as a page are exactly that page's frame. |
| Snapshot.EncodeSnapshot | bin2z80.c:59-77 | A header with three 16 KiB pages encodes to exactly 49216 bytes. |
| Snapshot.Decode | bin2z80.c:59-77 | A successful decode has three 16 KiB pages and came from 49216 bytes. |
| Snapshot.EncodeSnapshotPieces | bin2z80.c:59-77 | In an encoded snapshot, the first 55 bytes are the header and frame k sits at 55 + 16387·k. |
| Snapshot.DecodeEncodeSnapshot | bin2z80.c:59-77 | Decoding an encoded snapshot gives back the snapshot. |
| Snapshot.EncodeDecodeSnapshot | bin2z80.c:59-77 | Any byte sequence that decodes is exactly the encoding of what it decodes to. |
| Snapshot.EncodeSnapshotPayload | bin2z80.c:66-77 | Byte i of page k is output byte 55 + 16387·k + 3 + i. |
| Snapshot.Slice | bin2z80.c:67 | Slice k has 16384 bytes, and its byte i is window byte 16384·k + i. |
| Snapshot.Paginate | bin2z80.c:63-77 | The pages are window slices 0, 1 and 2, with ids 8, 5 and 3 in that order. |
| Snapshot.UnpaginatePaginate | bin2z80.c:67-77 | Concatenating the three payloads gives back the full 49152-byte window. |
| Snapshot.Encode | bin2z80.c:45-77 | The output is 49216 bytes for every dump that fits, whatever its length and load address. |
| Snapshot.EncodeLayout | bin2z80.c:59-76 | The first 55 output bytes are the header. The markers {0xFF,0xFF,8}, {0xFF,0xFF,5} and {0xFF,0xFF,3} sit at 55, 16442 and 32829. |
| Snapshot.EncodeWindowByte | bin2z80.c:62-77 | Every window byte j is output byte OutputOffset(j). |
| Snapshot.PaginatedByte | bin2z80.c:63-77 | For any window, byte j of the paginated and encoded snapshot is at OutputOffset(j). |
| Snapshot.EncodePlacesByte | bin2z80.c:62-77 | Dump byte i, below the read length, is output byte OutputOffset(address-16384+i). |
| Snapshot.EncodePlacesInput | bin2z80.c:62-77 | Placement round trip: for every i below the read length, the output byte at OutputOffset(address-16384+i) is input[i]. |
| Snapshot.EncodeUncovered | bin2z80.c:60-67 | Window bytes the read does not cover come out as 0x38 at output [6202, 6970), inside page 8, and as 0 everywhere else. |
| Snapshot.DecodeEncode | bin2z80.c:45-77 | The tool's output decodes. The result has the written header, and its pages reassemble into the window. |
| Snapshot.RecoverEncoded | bin2z80.c:54-77 | From the output, the load address and the read length give back exactly the bytes that were read, and a dump of at most 49152 bytes comes back whole. For 0 < run < 65536 the decoded PC is the run address. |
| Snapshot.ZeroPageExample | bin2z80.c:54-77 | 16384 zero bytes at 16384 with run 32768 give bytes 32/33 = 0/128, length 49216 and the three markers. |
| Snapshot.OversizedDumpIsCut | bin2z80.c:62 | A dump longer than 49152 bytes loaded at 16384 is accepted, and its snapshot equals that of its first 49152 bytes. |
| Writer.BuildHeader | bin2z80.c:45-59 | Zeroing the buffer and setting the ten bytes gives exactly the header layout of the written header. |
| Writer.BuildWindow | bin2z80.c:60-62 | Zeroing, the 768-byte fill at 6144 and the copy of the at most 49152 bytes read give exactly the window `MakeWindow` describes. |
| Writer.WriteSnapshot | bin2z80.c:45-77 | The bytes written, in write order, are exactly `Encode(input, address, run)`. |
| Cli.Validate | bin2z80.c:16-31 | A run proceeds iff argc == 5, address != 0 and run != 0. A wrong count is reported first, then a zero address, then a zero run address. |
| Cli.Run | bin2z80.c:16-80 | Exit status is 0 or -1, and 0 exactly when validation passes and both files open. A validation failure opens no file and writes nothing. The output file is opened only after the input opened. A successful run writes exactly `Encode`, 49216 bytes. |

## Left out

- File I/O (`open`, `read`, `write`, `close`, `O_TRUNC`, the 0600 mode, bin2z80.c:33-43, 59, 62, 66-79). The input's contents and whether the output can be created are parameters of `Cli.Run`. The output is the returned byte sequence.
- `atoi` (bin2z80.c:21, 27). The parsed integers are inputs; only the rule that zero is invalid is kept.
- Snapshot.Encode: requires `Window.Fits`. The tool reads up to 49152 bytes at `address - 16384` without a bounds check. A load address below 16384, or a dump that is loaded above 16384 and runs past the window's end, makes the read write outside the buffer. That behaviour is undefined, so the model does not describe it. A dump longer than 49152 bytes loaded exactly at 16384 is in the model; it is cut to 49152 bytes.
- Cli.Run: when `bin_file` and `output_file` name the same file, the `O_TRUNC` open at bin2z80.c:39 empties the dump before the read at bin2z80.c:62. The tool then writes the snapshot of an empty dump. `Cli.Run` takes the dump's contents as read before the run and does not model this aliasing.
- Short reads. The single `read` is assumed to deliver all `ReadLength` bytes at once.
- The return values of `write` are ignored by the tool, and every write is assumed to succeed.
- The diagnostic texts printed by `printf` (bin2z80.c:17-41). Only which failure was reported is kept. Handles left open on the error paths are not modelled either.

