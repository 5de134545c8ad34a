/** PortMidi input filter bits.

    A filter mask is a 32-bit word; a set bit suppresses every incoming message
    whose status byte selects that bit. A system status byte 0xF0..0xFF selects
    bit `status - 0xF0`; a channel status byte 0x80..0xEF selects bit
    `0x10 + (status >> 4)`, so all sixteen channels of one message type share a
    bit. The status bytes follow Table I ("Summary of Status Bytes") of the
    MIDI 1.0 Detailed Specification. */
module Filters {

  /** A MIDI status byte: the high bit is set. */
  type StatusByte = s: int | 0x80 <= s < 0x100 witness 0x80

  const FILT_ACTIVE: bv32 := 1 << 0x0E
  const FILT_SYSEX: bv32 := 1 << 0x00
  const FILT_CLOCK: bv32 := 1 << 0x08
  const FILT_PLAY: bv32 := (1 << 0x0A) | (1 << 0x0C) | (1 << 0x0B)
  const FILT_TICK: bv32 := 1 << 0x09
  const FILT_FD: bv32 := 1 << 0x0D
  const FILT_UNDEFINED: bv32 := FILT_FD
  const FILT_RESET: bv32 := 1 << 0x0F

  const FILT_REALTIME: bv32 :=
    FILT_ACTIVE | FILT_SYSEX | FILT_CLOCK | FILT_PLAY | FILT_UNDEFINED | FILT_RESET | FILT_TICK

  const FILT_NOTE: bv32 := (1 << 0x19) | (1 << 0x18)

  const FILT_CHANNEL_AFTERTOUCH: bv32 := 1 << 0x1D
  const FILT_POLY_AFTERTOUCH: bv32 := 1 << 0x1A
  const FILT_AFTERTOUCH: bv32 := FILT_CHANNEL_AFTERTOUCH | FILT_POLY_AFTERTOUCH

  const FILT_PROGRAM: bv32 := 1 << 0x1C
  const FILT_CONTROL: bv32 := 1 << 0x1B
  const FILT_PITCHBEND: bv32 := 1 << 0x1E

  const FILT_MTC: bv32 := 1 << 0x01
  const FILT_SONG_POSITION: bv32 := 1 << 0x02
  const FILT_SONG_SELECT: bv32 := 1 << 0x03
  const FILT_TUNE: bv32 := 1 << 0x06
  const FILT_SYSTEMCOMMON: bv32 := FILT_MTC | FILT_SONG_POSITION | FILT_SONG_SELECT | FILT_TUNE

  /** The position of the filter bit a status byte selects. */
  function BitIndex(status: StatusByte): (k: nat)
    ensures k < 31
    ensures status >= 0xF0 ==> k < 0x10
    ensures status < 0xF0 ==> 0x18 <= k <= 0x1E
  {
    if status >= 0xF0 then status - 0xF0 else 0x10 + status / 16
  }

  /** The single filter bit a status byte selects. */
  function FilterBit(status: StatusByte): (r: bv32)
  {
    1 << BitIndex(status)
  }

  /** Does `mask` suppress messages whose status byte is `status`? */
  predicate Blocks(mask: bv32, status: StatusByte)
  {
    mask & FilterBit(status) != 0
  }

  /** Each single-type real-time or sysex constant is the bit of the status
      byte its comment names. */
  lemma RealtimeFilterBits()
    ensures FILT_SYSEX == FilterBit(0xF0)
    ensures FILT_CLOCK == FilterBit(0xF8)
    ensures FILT_TICK == FilterBit(0xF9)
    ensures FILT_PLAY == FilterBit(0xFA) | FilterBit(0xFB) | FilterBit(0xFC)
    ensures FILT_FD == FilterBit(0xFD) && FILT_UNDEFINED == FILT_FD
    ensures FILT_ACTIVE == FilterBit(0xFE)
    ensures FILT_RESET == FilterBit(0xFF)
  {
  }

  /** Each system-common constant is the bit of the status byte its comment
      names. */
  lemma SystemCommonFilterBits()
    ensures FILT_MTC == FilterBit(0xF1)
    ensures FILT_SONG_POSITION == FilterBit(0xF2)
    ensures FILT_SONG_SELECT == FilterBit(0xF3)
    ensures FILT_TUNE == FilterBit(0xF6)
  {
  }

  /** Each channel constant is the bit of its message type, for every channel. */
  lemma ChannelFilterBits(channel: int)
    requires 0 <= channel < 16
    ensures FILT_NOTE == FilterBit(0x80 + channel) | FilterBit(0x90 + channel)
    ensures FILT_POLY_AFTERTOUCH == FilterBit(0xA0 + channel)
    ensures FILT_CONTROL == FilterBit(0xB0 + channel)
    ensures FILT_PROGRAM == FilterBit(0xC0 + channel)
    ensures FILT_CHANNEL_AFTERTOUCH == FilterBit(0xD0 + channel)
    ensures FILT_PITCHBEND == FilterBit(0xE0 + channel)
  {
  }

  /** Two status bytes select the same bit exactly when both are the same
      system byte, or both are channel bytes of the same message type. */
  lemma FilterBitSameIff(s: StatusByte, t: StatusByte)
    ensures FilterBit(s) == FilterBit(t) <==>
      (if s >= 0xF0 || t >= 0xF0 then s == t else s / 16 == t / 16)
  {
  }

  /** FILT_REALTIME suppresses exactly the system real-time bytes 0xF8..0xFF,
      and, beyond them, system exclusive 0xF0. */
  lemma RealtimeBlocks(status: StatusByte)
    ensures Blocks(FILT_REALTIME, status) <==> status == 0xF0 || status >= 0xF8
  {
  }

  /** FILT_SYSTEMCOMMON suppresses exactly MTC, song position, song select and
      tune request. */
  lemma SystemCommonBlocks(status: StatusByte)
    ensures Blocks(FILT_SYSTEMCOMMON, status) <==>
      status == 0xF1 || status == 0xF2 || status == 0xF3 || status == 0xF6
  {
  }

  /** FILT_NOTE suppresses note-off and note-on on every channel, nothing else. */
  lemma NoteBlocks(status: StatusByte)
    ensures Blocks(FILT_NOTE, status) <==> 0x80 <= status < 0xA0
  {
  }

  /** FILT_AFTERTOUCH suppresses polyphonic and channel aftertouch on every
      channel, nothing else. */
  lemma AftertouchBlocks(status: StatusByte)
    ensures Blocks(FILT_AFTERTOUCH, status) <==>
      (0xA0 <= status < 0xB0 || 0xD0 <= status < 0xE0)
  {
  }

  /** The real-time and system-common masks share no bit, and every mask
      fits in a non-negative 32-bit signed integer. */
  lemma MasksDisjointAndBounded()
    ensures FILT_REALTIME & FILT_SYSTEMCOMMON == 0
    ensures FILT_REALTIME < 1 << 31 && FILT_SYSTEMCOMMON < 1 << 31
    ensures FILT_NOTE < 1 << 31 && FILT_AFTERTOUCH < 1 << 31
    ensures FILT_PROGRAM < 1 << 31 && FILT_CONTROL < 1 << 31 && FILT_PITCHBEND < 1 << 31
    ensures FILT_CHANNEL_AFTERTOUCH < 1 << 31 && FILT_POLY_AFTERTOUCH < 1 << 31
    ensures FILT_ACTIVE < 1 << 31 && FILT_SYSEX < 1 << 31 && FILT_CLOCK < 1 << 31
    ensures FILT_PLAY < 1 << 31 && FILT_TICK < 1 << 31 && FILT_RESET < 1 << 31
    ensures FILT_FD < 1 << 31 && FILT_UNDEFINED < 1 << 31
    ensures FILT_MTC < 1 << 31 && FILT_SONG_POSITION < 1 << 31
    ensures FILT_SONG_SELECT < 1 << 31 && FILT_TUNE < 1 << 31
  {
  }
}
