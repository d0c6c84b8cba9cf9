# Key input for the Gio GUI toolkit, in Dafny

This project models package `key` of the Gio immediate-mode GUI toolkit
(`io/key/key.go`):

- the `Modifiers` bit set with its two named modifiers, `ModCommand` (bit 0)
  and `ModShift` (bit 1), the subset test `Contain` and the text form
  `Modifiers.String`;
- the text form of a key `Event`, `{name modifiers}`;
- the two operations that a widget records in the operation buffer:
  `InputOp.Add` declares a key-input handler and can ask for the focus;
  `HideInputOp.Add` asks for the on-screen keyboard to be hidden.

Files:

- `key.dfy`, module `Key`: the package itself. `Modifiers` is a `bv32`, as
  Go's `uint32`. `Modifiers.String` is the method `ModifiersString`, which
  collects names and then joins them, as the source does. It is proved equal
  to `ModifiersText`, a table with one entry per combination of the two bits.
  The lemmas about the text and `Event.String` use that table.
  `ParseModifiers` and `ParseEvent` read the text back. They are the inverses
  used to state that the text loses nothing except the unnamed bits and
  invalid runes. A Go rune is the `Rune` newtype (an int32). Go's
  `string(r)` gives U+FFFD for a rune that is not a Unicode scalar value,
  and `RuneChar` models that rule.
- `op.dfy`, module `Op`: the operation buffer, reduced to what `key` uses.
  The class `Ops` is an append-only list of records. Each record is a byte
  array plus the values attached to it. `Write(n, refs)` appends a fresh
  zero-filled array of `n` bytes and returns that same array. The caller
  therefore fills the record in place, as with the slice Go's `Write`
  returns. `Records()` is what a replay of the buffer reads. The operation
  tags and record lengths of package `opconst` are the parameter `OpConst`.
  `KeyInputConst` asks that a key-input record is at least 2 bytes long,
  `HideInputConst` that a hide-input record is at least 1 byte long, and
  `DistinctTags` that the two tags differ. Each operation requires only its
  own constraint.
- `text.dfy`, module `Text`: `Join` (Go's `strings.Join`) with its
  append and length lemmas, and a substring predicate used to state the
  properties of the modifier text.

`DecodeKeyInput` and `IsHideInput` describe how a replay reads the two
records. The round-trip lemmas use them to show that the handler key and
the focus flag can be recovered. The event router that performs this
reading in Gio is not part of this model.

## Model

| member | source | states |
|---|---|---|
| `Key.Contain` | io/key/key.go:85-89 | `m.Contain(m2)` holds exactly when every bit set in m2 is also set in m; the `m&m2 == m2` test is proved to be this bitwise subset relation |
| `Key.MaskIsBitSubset` | io/key/key.go:87-89 | both directions: `m & m2 == m2` iff no bit of m2 is missing from m |
| `Key.ContainReflexive` | io/key/key.go:87-89 | every modifier set contains itself |
| `Key.ContainsNoModifiers` | io/key/key.go:87-89 | every modifier set contains the empty set |
| `Key.ContainTransitive` | io/key/key.go:85-89 | containment is transitive |
| `Key.ModifierBits` | io/key/key.go:56-66 | ModCommand is 1 (only bit 0) and ModShift is 2 (only bit 1); their union contains each; neither contains the other |
| `Key.ModifiersString` | io/key/key.go:112-121 | appending "ModCommand" and then "ModShift" for the bits that are set, then joining with a vertical bar, yields the table: both names joined by the bar, "ModCommand", "ModShift" or "" |
| `Key.ModifiersTextNames` | io/key/key.go:112-121 | the text contains "ModCommand" iff the command bit is set, and "ModShift" iff the shift bit is set |
| `Key.ModifiersTextLayout` | io/key/key.go:112-121 | "ModCommand" starts the text whenever it is present; the vertical bar occurs iff both bits are set; the text is empty iff neither bit is set |
| `Key.ModifiersTextKnownBits` | io/key/key.go:112-121 | two values give the same text iff they agree on the command and shift bits, so other bits never affect the output |
| `Key.ModifiersRoundTrip` | io/key/key.go:112-121 | parsing the text gives back m with every bit other than the command and shift bits cleared |
| `Key.ParseModifiersSound` | io/key/key.go:112-121 | every string that parses is the text of the value it parses to, and that value has no other bits |
| `Key.Normalize` | io/key/key.go:109 | the rune that `string(e.Name)` keeps is always a Unicode scalar value, and a rune that already is one is kept unchanged |
| `Key.RuneChar` | io/key/key.go:109 | `string(e.Name)` is one character: the rune itself when it is a Unicode scalar value, U+FFFD otherwise |
| `Key.Event.String` | io/key/key.go:108-110 | the text is "{", the name character, a space, the modifiers' text, "}", and has length 4 plus that text's length |
| `Key.EventRoundTrip` | io/key/key.go:108-110 | parsing an event's text gives back its name (U+FFFD for an invalid rune) and its command and shift bits |
| `Key.ParseEventSound` | io/key/key.go:108-110 | every string that parses as an event is that event's text |
| `Key.KeyInputRecord` | io/key/key.go:91-97 | a key-input record is TypeKeyInputLen bytes long; byte 0 is the TypeKeyInput tag; byte 1 is 1 with focus and 0 without; all later bytes are 0; the handler key is its only ref |
| `Key.HideInputRecord` | io/key/key.go:99-102 | a hide-input record is TypeHideInputLen bytes long; byte 0 is the TypeHideInput tag; all later bytes are 0; it has no refs |
| `Key.KeyInputRoundTrip` | io/key/key.go:91-97 | a replay reads the handler key and the focus flag back from a key-input record |
| `Key.HideInputRecognised` | io/key/key.go:99-102 | a replay recognises a hide-input record as a hide request |
| `Key.RecordsDistinguished` | io/key/key.go:91-102 | when the two tags differ, a key-input record is not taken for a hide request, and a hide-input record is not decoded as key input |
| `Key.InputOp.Add` | io/key/key.go:91-97 | appends exactly one record, the key-input record for the op, leaving every earlier record unchanged; a replay of that last record recovers the op's key and focus flag |
| `Key.HideInputOp.Add` | io/key/key.go:99-102 | appends exactly one record, the hide-input record, leaving every earlier record unchanged |
| `Text.JoinAppend` | io/key/key.go:120 | joining a non-empty list with one more element adds the separator and then that element, so the separator stands exactly between elements |
| `Text.JoinLength` | io/key/key.go:120 | the joined string is as long as all elements together plus one separator for each pair of neighbours |
| `Op.Ops.Write` | io/key/key.go:92 | appends a zero-filled record of the requested length with the given refs and returns its bytes, a fresh array, for filling |

## Left out

- `op/ops.go` and `internal/opconst` are not part of this model. `Ops` keeps
  records as separate arrays. Go keeps one flat byte slice and one flat refs
  slice. The model assumes that `Write` zero-fills, and that the values
  attached to a record belong to it.
- `Op.Ops.Write`: the buffer's reset, its version counter, and the Go slice
  reallocation are not modelled.
- The numeric values of `TypeKeyInput`, `TypeHideInput`, `TypeKeyInputLen`
  and `TypeHideInputLen` are not modelled. They are the parameter `OpConst`.
- `Key.InputOp.Add` requires `KeyInputConst`, and `Key.HideInputOp.Add`
  requires `HideInputConst`. With shorter records, Go's `data[0]` or
  `data[1]` would panic, and that out-of-range path is not modelled.
- `DecodeKeyInput` and `IsHideInput` model how a replay reads records, not
  code in `io/key/key.go`. Gio's router is not part of this model.
- The `ImplementsEvent` marker methods have no behaviour and are not modelled.
  `FocusEvent` and `EditEvent` are plain data and are not modelled either.
- The special-key runes (`NameLeftArrow` … `NamePageDown`) are only constants.
  Nothing is claimed about them.
- Strings are sequences of Unicode code points. Go strings are UTF-8 bytes,
  and that encoding is not modelled.
- `event.Key`, the handler identity, is a natural number (`Op.Ref`). Go
  compares such interface values by identity or value equality.
