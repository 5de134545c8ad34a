# PortMidi event words and filter bits

A model of the byte-level logic in `protomidi/portmidi.py`, the PortMidi port
of protomidi. PortMidi moves MIDI data in events whose 32-bit `message` word
holds up to four bytes, first byte in the least-significant position. The
model covers:

- the input side, which takes the word of every event read, masks it to 32
  bits and pushes its four bytes into the MIDI parser, lowest-order byte first
  and zero padding included (`EventWord.UnpackEvent`, `Ports.Input.Parse`);
- the output side, which packs a short byte sequence into one word by walking
  it backwards with shift-left-by-8 and OR (`EventWord.PackEvent`,
  `Ports.Output.SendEvent`), frames a system exclusive message as
  `0xF0`, data, `0xF7`, and sends that four bytes per event
  (`Ports.Output.Send`);
- the `FILT_*` input filter masks (`Filters`), with PortMidi's layout of the
  bit each status byte selects: `status - 0xF0` for system bytes,
  `0x10 + (status >> 4)` for channel bytes. The status bytes themselves follow
  Table I ("Summary of Status Bytes") of the MIDI 1.0 Detailed Specification.

Python's shift-and-OR on a non-negative value with a byte below 256 is
written as `value * 256 + byte`, `& 0xff` as
`% 256` and `>>= 8` as `/ 256`; the `& 0xffffffff` of the input side is
`% 2^32` (Python's `&` with a positive mask and Dafny's `%` with a positive
divisor agree for negative values too). The filter masks are `bv32` constants
built with the same shifts as the source.

The MIDI parser and serializer that the port hands bytes to are not part of
this model. An `Input` records the bytes it pushes into the parser; an
`Output` records the words it writes; a non-sysex message is given to `Send`
as the bytes the serializer returned for it.

`Output.send` itself cuts sysex data into events of at most four bytes; the
model follows the code. The comment at `protomidi/portmidi.py:204` speaks of
the lower 16 bits of the word; the code pushes all four bytes, and the model
follows the code.

## Model

| member | source | states |
|---|---|---|
| `EventWord.UnpackEvent` | protomidi/portmidi.py:207-213 | the unpack loop yields exactly four bytes, the digits of the word masked to 32 bits, and they pack back to that masked word |
| `EventWord.EventBytesAt` | protomidi/portmidi.py:207-213 | for every i below 4, byte i handed to the parser is the masked word divided by 256^i, modulo 256 (lowest-order byte first) |
| `EventWord.PackOfEventBytes` | protomidi/portmidi.py:207-213 | the four bytes of a word determine it: packing them gives the word masked to 32 bits, and the word itself when it is already in 0..2^32-1 |
| `EventWord.EventBytesOfPack` | protomidi/portmidi.py:207-213 | a byte sequence of length at most 4, packed and unpacked, reaches the parser as itself followed by 4 - n zero bytes |
| `EventWord.PackEvent` | protomidi/portmidi.py:289-293 | the shift-and-OR loop over the reversed bytes computes the sum of bytes[i] * 256^i, below 256^n; for at most four bytes it fits in 32 bits and unpacks to the bytes plus zero padding |
| `EventWord.PackIsWeightedSum` | protomidi/portmidi.py:289-293 | packing agrees with the reference sum of bytes[i] * 256^i, so bytes[0] lands in the low byte |
| `EventWord.PackBound` | protomidi/portmidi.py:289-293 | a value packed from n bytes is below 256^n |
| `EventWord.PackFitsWord` | protomidi/portmidi.py:289-293 | a value packed from at most four bytes is below 2^32 |
| `EventWord.DigitsOfPack` | protomidi/portmidi.py:207-213 | taking n low-order bytes of a value packed from at most n bytes restores those bytes followed by zero bytes |
| `EventWord.PackOfDigits` | protomidi/portmidi.py:207-213 | packing the n low-order bytes of a value below 256^n gives the value back |
| `Ports.Frame` | protomidi/portmidi.py:305-307 | the sysex wire bytes are 0xF0, then the data in order, then 0xF7, two bytes longer than the data |
| `Ports.FrameMarkersUnique` | protomidi/portmidi.py:305-307 | with data bytes below 0x80, 0xF0 occurs only first and 0xF7 only last in the framed bytes |
| `Ports.FlattenChunks` | protomidi/portmidi.py:309-312 | joining the chunks sent one per event reproduces the framed bytes exactly |
| `Ports.ChunkSizes` | protomidi/portmidi.py:309-312 | every chunk holds one to four bytes and all but the last hold exactly four |
| `Ports.ChunkCount` | protomidi/portmidi.py:309-312 | the number of events is ceil(n / 4) for n framed bytes |
| `Ports.SysexWords` | protomidi/portmidi.py:305-312 | a sysex message of n data bytes is sent in ceil((n + 2) / 4) events, each word below 2^32 |
| `Ports.SysexLoopback` | protomidi/portmidi.py:305-312 | the words sent for a sysex message, unpacked as the input side does, give 0xF0, the data, 0xF7 and zero bytes up to a multiple of four |
| `Ports.ShortLoopback` | protomidi/portmidi.py:313-314 | a non-sysex message of at most four serialized bytes, sent and unpacked, gives its bytes and zero bytes up to four |
| `Ports.Input.Parse` | protomidi/portmidi.py:201-213 | the parser receives, in order, the four bytes of every event read, appended to what it had received before |
| `Ports.Output.SendEvent` | protomidi/portmidi.py:289-303 | exactly one word, the packed bytes, is appended to what the device has been written |
| `Ports.Output.Send` | protomidi/portmidi.py:305-314 | sysex: one word per four-byte chunk of the framed bytes, in order; otherwise one word of the serialized bytes; nothing else is written |
| `Filters.BitIndex` | protomidi/portmidi.py:323-342 | system status bytes select bits 0..15, channel status bytes bits 0x18..0x1E, all below bit 31 |
| `Filters.RealtimeFilterBits` | protomidi/portmidi.py:323-330 | each real-time and sysex constant is the bit of the status byte its comment names (FILT_PLAY the bits of 0xFA, 0xFB, 0xFC) |
| `Filters.SystemCommonFilterBits` | protomidi/portmidi.py:344-347 | MTC, song position, song select and tune request are the bits of 0xF1, 0xF2, 0xF3, 0xF6 |
| `Filters.ChannelFilterBits` | protomidi/portmidi.py:334-342 | each channel constant is the bit of its message type on every channel 0..15 (FILT_NOTE both note-off and note-on) |
| `Filters.FilterBitSameIff` | protomidi/portmidi.py:323-342 | two status bytes share a filter bit exactly when they are the same system byte or channel bytes of one message type |
| `Filters.RealtimeBlocks` | protomidi/portmidi.py:332 | FILT_REALTIME suppresses exactly 0xF8..0xFF and 0xF0 among all status bytes |
| `Filters.SystemCommonBlocks` | protomidi/portmidi.py:348 | FILT_SYSTEMCOMMON suppresses exactly 0xF1, 0xF2, 0xF3 and 0xF6 |
| `Filters.NoteBlocks` | protomidi/portmidi.py:334 | FILT_NOTE suppresses exactly 0x80..0x9F |
| `Filters.AftertouchBlocks` | protomidi/portmidi.py:336-338 | FILT_AFTERTOUCH suppresses exactly 0xA0..0xAF and 0xD0..0xDF |
| `Filters.MasksDisjointAndBounded` | protomidi/portmidi.py:323-348 | FILT_REALTIME and FILT_SYSTEMCOMMON share no bit, and every one of the 21 FILT_* constants is below 2^31 |

## Left out

- Device discovery, default devices and device info (`get_definput`, `get_defoutput`, `count_devices`, `get_devinfo`): foreign calls into the PortMidi C library.
- The process-wide `initialized` flag, `initialize`, `terminate` and the `atexit` hook: lifecycle of the C library.
- Opening and closing streams (`Input.__init__`, `Output.__init__`, `__dealloc__`), `set_filter`, `set_channel_mask` and `_check_err`: calls into the C library and its error codes. The filter masks are modelled; handing them to the library is not.
- `Pm_Read`, `Pm_Write`, the `MAX_EVENTS` buffer and event timestamps (`Pt_Time`): transport I/O. `Input.Parse` takes the words read as a parameter and `Output` records the words written.
- The debug `print` of each word on the input side and `dbg`: output only.
- The MIDI parser and serializer (`Parser.put_byte`, `get_msg`, `serialize`, `opcode2msg`): `protomidi/parser.py`, `protomidi/serializer.py` and `protomidi/msg.py` are not part of this model, so `_parse` does not return the number of parsed messages and `poll`, `recv` and `__iter__` are not modelled.
- Ports.Output.SendEvent: the word is an unbounded integer as in Python; storing it into PortMidi's 32-bit `message` field would truncate a value built from more than four bytes, which the model does not do (every sysex word is proved to fit; a serialized message longer than four bytes is not ruled out).
- EventWord.PackEvent: bytes are modelled as integers in 0..255 (the `byte` type). The source never checks the bytes of `msg.data` or the serializer's output; for a value outside 0..255, `value <<= 8; value |= byte` is not `value * 256 + byte`, and the model does not cover that input.
- Ports.Output.Send: sysex data and serialized bytes are `byte` values in 0..255, for the same reason; a message carrying a value outside that range is not modelled.
