/** Key chords and the ids that stand for them across configuration reloads. */
module Chords {
  import opened Prelude

  /** F13 to F24 held as modifiers are bits 0 to 11 of `fnMods`. */
  datatype Modifiers = Modifiers(ctrl: bool, alt: bool, shift: bool, win: bool, fnMods: bv16)

  datatype Chord = Chord(modifiers: Modifiers, vk: bv32)

  datatype HotkeyId = HotkeyId(code: bv32)

  /** Standard modifiers in bits 0 to 3 and F13 to F24 from bit 4, above the low byte of the key. */
  function Packed(ctrl: bool, alt: bool, shift: bool, win: bool, fnMods: bv16, vk: bv32): bv32 {
    (((if ctrl then 1 else 0) | (if alt then 2 else 0) | (if shift then 4 else 0) | (if win then 8 else 0)
      | ((fnMods as bv32) << 4)) << 8) | (vk & 0xFF)
  }

  function StableId(c: Chord): HotkeyId {
    var m := c.modifiers;
    HotkeyId(Packed(m.ctrl, m.alt, m.shift, m.win, m.fnMods, c.vk))
  }

  /** The modifier bit of a key that can also be held as a modifier. */
  function FnModBit(vk: bv32): Option<bv16> {
    if 0x7C <= vk <= 0x87 then Some((1 as bv16) << ((vk - 0x7C) as nat)) else None
  }

  /** Exactly the keys F13 to F24 have a bit; it is the one of the key's number, so different keys have
      different bits and every bit of the twelve is one key's. */
  lemma FnModBitExact(vk: bv32, other: bv32)
    ensures FnModBit(vk).Some? <==> 0x7C <= vk <= 0x87
    ensures FnModBit(vk).Some? ==> FnModBit(vk).value & 0xF000 == 0 && FnModBit(vk).value != 0
    ensures FnModBit(vk).Some? && FnModBit(other).Some? ==>
              (FnModBit(vk).value & FnModBit(other).value != 0 <==> vk == other)
    ensures FnModBit(0x7C) == Some(1)
    ensures 0x7C < vk <= 0x87 ==> FnModBit(vk) == Some(FnModBit(vk - 1).value << 1)
  {}

  lemma PackedInjective(a: bool, b: bool, c: bool, d: bool, f: bv16, v: bv32, a': bool, b': bool, c': bool, d': bool,
      f': bv16, v': bv32)
    requires Packed(a, b, c, d, f, v) == Packed(a', b', c', d', f', v')
    ensures a == a' && b == b' && c == c' && d == d' && f == f' && v & 0xFF == v' & 0xFF
  {}

  /** An id is the low byte of the key, the four standard modifiers, and the function-key modifiers. */
  lemma PackedLayout(ctrl: bool, alt: bool, shift: bool, win: bool, fnMods: bv16, vk: bv32)
    ensures
      var code := Packed(ctrl, alt, shift, win, fnMods, vk);
      && code & 0xFF == vk & 0xFF
      && (code & 0x100 != 0 <==> ctrl) && (code & 0x200 != 0 <==> alt)
      && (code & 0x400 != 0 <==> shift) && (code & 0x800 != 0 <==> win)
      && (code >> 12) & 0xFFFF == fnMods as bv32
  {}

  lemma PackedLow(a: bool, b: bool, c: bool, d: bool, f: bv16, v: bv32, v': bv32)
    requires v & 0xFF == v' & 0xFF
    ensures Packed(a, b, c, d, f, v) == Packed(a, b, c, d, f, v')
  {}

  /** Two chords share an id exactly when they agree on the modifiers and the low byte of the key. */
  lemma StableIdInjective(a: Chord, b: Chord)
    ensures StableId(a) == StableId(b) <==> a.modifiers == b.modifiers && a.vk & 0xFF == b.vk & 0xFF
  {
    hide Packed;
    var m, n := a.modifiers, b.modifiers;
    if StableId(a) == StableId(b) {
      PackedInjective(m.ctrl, m.alt, m.shift, m.win, m.fnMods, a.vk, n.ctrl, n.alt, n.shift, n.win, n.fnMods, b.vk);
    }
    if m == n && a.vk & 0xFF == b.vk & 0xFF {
      PackedLow(m.ctrl, m.alt, m.shift, m.win, m.fnMods, a.vk, b.vk);
    }
  }

  /** Whether a key's bit is among held modifiers. */
  predicate InMask(bit: bv16, mask: bv16) { bit & mask != 0 }

  function Joined(a: bv16, b: bv16): bv16 { a | b }

  lemma AnyBit(bit: bv16, a: bv16, b: bv16)
    ensures bit & (a | b) == (bit & a) | (bit & b)
    ensures bit & 0 == 0
  {}

  lemma EitherBit(x: bv16, y: bv16)
    ensures x | y == 0 <==> x == 0 && y == 0
  {}

  lemma InJoined(bit: bv16, a: bv16, b: bv16)
    ensures InMask(bit, Joined(a, b)) <==> InMask(bit, a) || InMask(bit, b)
    ensures !InMask(bit, 0)
  {
    AnyBit(bit, a, b);
    EitherBit(bit & a, bit & b);
  }
}
