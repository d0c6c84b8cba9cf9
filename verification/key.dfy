/**
 * Package key (io/key/key.go): the modifier-key set, the text form of key
 * events, and the operations that declare key-input handlers and ask for the
 * on-screen keyboard to be hidden.
 */
module Key {
  import opened Text
  import opened Op

  datatype Option<T> = None | Some(value: T)

  // ---------------------------------------------------------------------------
  // Modifiers

  /** The set of active modifier keys (a uint32), one bit per modifier. */
  type Modifiers = bv32

  /** The command modifier: Cmd on macOS, Ctrl elsewhere (1 << iota, iota = 0). */
  const ModCommand: Modifiers := 1 << 0
  /** The shift modifier (1 << iota, iota = 1). */
  const ModShift: Modifiers := 1 << 1
  /** Every modifier the package names. */
  const KnownModifiers: Modifiers := ModCommand | ModShift

  /** A bit position of a Modifiers value. */
  type BitIndex = i: bv8 | i < 32

  predicate HasBit(m: Modifiers, i: BitIndex) {
    (m >> i) & 1 == 1
  }

  /** A value with a set bit at or above position k has such a bit at some position. */
  lemma {:induction false} SomeBitSet(d: Modifiers, k: BitIndex)
    requires d >> k != 0
    ensures exists i: BitIndex :: k <= i && HasBit(d, i)
    decreases 32 - k as int
  {
    if !HasBit(d, k) {
      assert k < 31;
      SomeBitSet(d, k + 1);
    }
  }

  lemma BitOfAnd(a: Modifiers, b: Modifiers, i: BitIndex)
    ensures HasBit(a & b, i) <==> HasBit(a, i) && HasBit(b, i)
  {
  }

  lemma BitOfNot(a: Modifiers, i: BitIndex)
    ensures HasBit(!a, i) <==> !HasBit(a, i)
  {
  }

  /** A nonzero value has a set bit. */
  lemma NonzeroHasBit(d: Modifiers)
    requires d != 0
    ensures exists i: BitIndex :: HasBit(d, i)
  {
    assert d >> (0 as BitIndex) == d;
    SomeBitSet(d, 0);
  }

  lemma MaskMismatch(m: Modifiers, m2: Modifiers)
    requires m & m2 != m2
    ensures m2 & !m != 0
  {
  }

  /** A bit of m2 missing from m makes `m & m2` differ from m2. */
  lemma MissingBit(m: Modifiers, m2: Modifiers)
    requires m & m2 != m2
    ensures exists i: BitIndex :: HasBit(m2, i) && !HasBit(m, i)
  {
    var d := m2 & !m;
    MaskMismatch(m, m2);
    NonzeroHasBit(d);
    var i: BitIndex :| HasBit(d, i);
    BitOfAnd(m2, !m, i);
    BitOfNot(m, i);
    assert HasBit(m2, i) && !HasBit(m, i);
  }

  /** `m & m2 == m2` holds exactly when every bit of m2 is a bit of m. */
  lemma MaskIsBitSubset(m: Modifiers, m2: Modifiers)
    ensures m & m2 == m2 <==> forall i: BitIndex :: HasBit(m2, i) ==> HasBit(m, i)
  {
    if m & m2 == m2 {
      forall i: BitIndex | HasBit(m2, i) ensures HasBit(m, i) {
        BitOfAnd(m, m2, i);
      }
    } else {
      MissingBit(m, m2);
    }
  }

  /** Contain reports whether m holds every modifier of m2. */
  function Contain(m: Modifiers, m2: Modifiers): (r: bool)
    ensures r <==> forall i: BitIndex :: HasBit(m2, i) ==> HasBit(m, i)
  {
    MaskIsBitSubset(m, m2);
    m & m2 == m2
  }

  lemma ContainReflexive(m: Modifiers)
    ensures Contain(m, m)
  {
  }

  lemma ContainsNoModifiers(m: Modifiers)
    ensures Contain(m, 0)
  {
  }

  lemma ContainTransitive(a: Modifiers, b: Modifiers, c: Modifiers)
    ensures Contain(a, b) && Contain(b, c) ==> Contain(a, c)
  {
  }

  /** ModCommand and ModShift are the single bits 0 and 1; their union holds each. */
  lemma ModifierBits()
    ensures ModCommand == 1 && ModShift == 2
    ensures forall i: BitIndex :: HasBit(ModCommand, i) <==> i == 0
    ensures forall i: BitIndex :: HasBit(ModShift, i) <==> i == 1
    ensures Contain(KnownModifiers, ModCommand) && Contain(KnownModifiers, ModShift)
    ensures !Contain(ModCommand, ModShift) && !Contain(ModShift, ModCommand)
  {
  }

  /**
   * The text of a Modifiers value, by cases: the names of the set modifiers,
   * command first, separated by "|".
   */
  function ModifiersText(m: Modifiers): string {
    match (Contain(m, ModCommand), Contain(m, ModShift))
    case (true, true) => "ModCommand|ModShift"
    case (true, false) => "ModCommand"
    case (false, true) => "ModShift"
    case (false, false) => ""
  }

  /** Modifiers.String: collect the names of the set modifiers, then join them with "|". */
  method ModifiersString(m: Modifiers) returns (s: string)
    ensures s == ModifiersText(m)
  {
    var strs: seq<string> := [];
    if Contain(m, ModCommand) {
      strs := strs + ["ModCommand"];
    }
    if Contain(m, ModShift) {
      if strs != [] {
        JoinAppend(strs, "|", "ModShift");
      }
      strs := strs + ["ModShift"];
    }
    s := Join(strs, "|");
  }

  /** The text names ModCommand exactly when the command bit is set, and ModShift exactly when the shift bit is. */
  lemma ModifiersTextNames(m: Modifiers)
    ensures Contains(ModifiersText(m), "ModCommand") <==> Contain(m, ModCommand)
    ensures Contains(ModifiersText(m), "ModShift") <==> Contain(m, ModShift)
  {
    var s := ModifiersText(m);
    if Contain(m, ModCommand) {
      assert OccursAt(s, "ModCommand", 0);
    } else {
      assert |s| < |"ModCommand"|;
    }
    if Contain(m, ModShift) {
      assert OccursAt(s, "ModShift", |s| - 8);
    } else if Contain(m, ModCommand) {
      forall i | 0 <= i <= |s| - 8 ensures !OccursAt(s, "ModShift", i) {
        if i == 0 {
          assert s[i..i + 8][3] != "ModShift"[3];
        } else {
          assert s[i..i + 8][0] != "ModShift"[0];
        }
      }
    }
  }

  /** ModCommand comes first, the separator appears only between two names, and no name gives "". */
  lemma ModifiersTextLayout(m: Modifiers)
    ensures Contain(m, ModCommand) ==> OccursAt(ModifiersText(m), "ModCommand", 0)
    ensures Contains(ModifiersText(m), "|") <==> Contain(m, ModCommand) && Contain(m, ModShift)
    ensures ModifiersText(m) == "" <==> m & KnownModifiers == 0
  {
    var s := ModifiersText(m);
    if Contain(m, ModCommand) && Contain(m, ModShift) {
      assert OccursAt(s, "|", 10);
    } else {
      forall i | 0 <= i < |s| ensures !OccursAt(s, "|", i) {
        assert s[i..i + 1][0] == s[i];
      }
    }
  }

  /** Only the command and shift bits decide the text: two values render alike iff they agree on those bits. */
  lemma ModifiersTextKnownBits(a: Modifiers, b: Modifiers)
    ensures ModifiersText(a) == ModifiersText(b) <==> a & KnownModifiers == b & KnownModifiers
  {
  }

  /** Reads back the text of a Modifiers value. */
  function ParseModifiers(t: string): Option<Modifiers> {
    if t == "" then Some(0)
    else if t == "ModCommand" then Some(ModCommand)
    else if t == "ModShift" then Some(ModShift)
    else if t == "ModCommand|ModShift" then Some(ModCommand | ModShift)
    else None
  }

  /** The text determines the command and shift bits of the value it was made from. */
  lemma ModifiersRoundTrip(m: Modifiers)
    ensures ParseModifiers(ModifiersText(m)) == Some(m & KnownModifiers)
  {
  }

  /** Every text ParseModifiers accepts is the text of the value it yields. */
  lemma ParseModifiersSound(t: string, m: Modifiers)
    requires ParseModifiers(t) == Some(m)
    ensures ModifiersText(m) == t && m & KnownModifiers == m
  {
  }

  // ---------------------------------------------------------------------------
  // Events

  /** A rune: a Go int32 holding a Unicode code point, or any other value. */
  newtype Rune = x: int | -0x8000_0000 <= x < 0x8000_0000

  /** Runes for special keys. */
  const NameLeftArrow: Rune := 0x2190
  const NameRightArrow: Rune := 0x2192
  const NameUpArrow: Rune := 0x2191
  const NameDownArrow: Rune := 0x2193
  const NameReturn: Rune := 0x23CE
  const NameEnter: Rune := 0x2324
  const NameEscape: Rune := 0x238B
  const NameHome: Rune := 0x21F1
  const NameEnd: Rune := 0x21F2
  const NameDeleteBackward: Rune := 0x232B
  const NameDeleteForward: Rune := 0x2326
  const NamePageUp: Rune := 0x21DE
  const NamePageDown: Rune := 0x21DF

  /** U+FFFD, which Go's string(r) produces for a rune that is not a Unicode scalar value. */
  const ReplacementRune: Rune := 0xFFFD

  predicate ValidRune(r: Rune) {
    (0 <= r < 0xD800) || (0xE000 <= r < 0x11_0000)
  }

  /** The rune a conversion to string keeps: r itself, or U+FFFD. */
  function Normalize(r: Rune): (n: Rune)
    ensures ValidRune(n)
    ensures ValidRune(r) ==> n == r
  {
    if ValidRune(r) then r else ReplacementRune
  }

  /** The single character string(r) consists of. */
  function RuneChar(r: Rune): (c: char)
    ensures ValidRune(r) ==> c as int == r as int
    ensures !ValidRune(r) ==> c == 0xFFFD as char
  {
    Normalize(r) as int as char
  }

  /** A key press: the key's name rune and the modifiers held down. */
  datatype Event = Event(name: Rune, modifiers: Modifiers) {

    /** Event.String: "{", the name, a space, the modifiers' text, "}". */
    function String(): (s: string)
      ensures |s| == 4 + |ModifiersText(modifiers)|
      ensures s[0] == '{' && s[1] as int == Normalize(name) as int && s[2] == ' ' && s[|s| - 1] == '}'
      ensures s[3..|s| - 1] == ModifiersText(modifiers)
    {
      "{" + [RuneChar(name)] + " " + ModifiersText(modifiers) + "}"
    }
  }

  /** Reads back the text of an event. */
  function ParseEvent(s: string): Option<Event> {
    if |s| >= 4 && s[0] == '{' && s[2] == ' ' && s[|s| - 1] == '}' then
      match ParseModifiers(s[3..|s| - 1])
      case Some(m) => Some(Event(s[1] as int as Rune, m))
      case None => None
    else None
  }

  /**
   * The text of an event gives back its name (U+FFFD for an invalid rune)
   * and its command and shift bits.
   */
  lemma EventRoundTrip(e: Event)
    ensures ParseEvent(e.String()) == Some(Event(Normalize(e.name), e.modifiers & KnownModifiers))
  {
  }

  /** Every text ParseEvent accepts is the text of the event it yields. */
  lemma ParseEventSound(s: string, e: Event)
    requires ParseEvent(s) == Some(e)
    ensures e.String() == s
  {
  }

  // ---------------------------------------------------------------------------
  // Operations

  /** The record an InputOp writes: tag, focus flag, then zero bytes; the handler key is its one ref. */
  function KeyInputRecord(c: OpConst, h: InputOp): (r: Record)
    requires KeyInputConst(c)
    ensures |r.data| == c.keyInputLen && r.data[0] == c.keyInput
    ensures r.data[1] == (if h.focus then 1 else 0)
    ensures forall i :: 2 <= i < |r.data| ==> r.data[i] == 0
    ensures r.refs == [h.key]
  {
    Record([c.keyInput, if h.focus then 1 else 0] + Zeros(c.keyInputLen - 2), [h.key])
  }

  /** The record a HideInputOp writes: the tag, then zero bytes, and no refs. */
  function HideInputRecord(c: OpConst): (r: Record)
    requires HideInputConst(c)
    ensures |r.data| == c.hideInputLen && r.data[0] == c.hideInput
    ensures forall i :: 1 <= i < |r.data| ==> r.data[i] == 0
    ensures r.refs == []
  {
    Record([c.hideInput] + Zeros(c.hideInputLen - 1), [])
  }

  /** How a replay reads a key-input record: its handler ref, and focus when byte 1 is not zero. */
  function DecodeKeyInput(c: OpConst, r: Record): Option<InputOp>
    requires KeyInputConst(c)
  {
    if |r.data| == c.keyInputLen && r.data[0] == c.keyInput && |r.refs| == 1
    then Some(InputOp(r.refs[0], r.data[1] != 0))
    else None
  }

  /** How a replay recognises a hide-input record. */
  predicate IsHideInput(c: OpConst, r: Record) {
    |r.data| == c.hideInputLen && |r.data| >= 1 && r.data[0] == c.hideInput
  }

  /** A replay recovers the handler key and the focus flag from the record InputOp.Add writes. */
  lemma KeyInputRoundTrip(c: OpConst, h: InputOp)
    requires KeyInputConst(c)
    ensures DecodeKeyInput(c, KeyInputRecord(c, h)) == Some(h)
  {
  }

  /** A replay recognises the record HideInputOp.Add writes as a hide request. */
  lemma HideInputRecognised(c: OpConst)
    requires HideInputConst(c)
    ensures IsHideInput(c, HideInputRecord(c))
  {
  }

  /** With distinct tags, neither record is mistaken for the other. */
  lemma RecordsDistinguished(c: OpConst, h: InputOp)
    requires KeyInputConst(c) && HideInputConst(c) && DistinctTags(c)
    ensures !IsHideInput(c, KeyInputRecord(c, h))
    ensures DecodeKeyInput(c, HideInputRecord(c)) == None
  {
  }

  /** Declares a handler ready for key events; Focus asks for the keyboard focus. */
  datatype InputOp = InputOp(key: Ref, focus: bool) {

    /** InputOp.Add: reserve a key-input record carrying the key, then fill in tag and focus flag. */
    method Add(o: Ops, c: OpConst)
      requires KeyInputConst(c)
      modifies o
      ensures o.Records() == old(o.Records()) + [KeyInputRecord(c, this)]
      ensures DecodeKeyInput(c, o.Records()[|o.Records()| - 1]) == Some(this)
    {
      var data := o.Write(c.keyInputLen, [key]);
      data[0] := c.keyInput;
      if focus {
        data[1] := 1;
      }
      assert data[..] == KeyInputRecord(c, this).data;
      KeyInputRoundTrip(c, this);
    }
  }

  /** Asks that any on-screen text input be hidden. */
  datatype HideInputOp = HideInputOp {

    /** HideInputOp.Add: reserve a hide-input record, then fill in its tag. */
    method Add(o: Ops, c: OpConst)
      requires HideInputConst(c)
      modifies o
      ensures o.Records() == old(o.Records()) + [HideInputRecord(c)]
    {
      var data := o.Write(c.hideInputLen, []);
      data[0] := c.hideInput;
      assert data[..] == HideInputRecord(c).data;
    }
  }
}
