/** Keyboard state of src/key.c: the lock masks derived from the
    modifier mapping, and the choice of a KeySym from a key's columns by
    the rules of the X Window System Protocol, section 5 (Keyboards).
    The keysym table itself and the keypad classification belong to
    xcb-util: a key's columns and the keypad test are inputs. */
module Keys {
  import opened Wrappers
  import opened XTypes

  type Keycode = U8
  type Keysym = U32

  /** `XCB_NO_SYMBOL` */
  const NoSymbol: Keysym := 0

  /** `XCB_MOD_MASK_SHIFT` and `XCB_MOD_MASK_LOCK` */
  const ShiftMask: bv16 := 1
  const LockMask: bv16 := 2

  /** `globalconf.key_masks`: the modifier bit each lock key is attached
      to, 0 when none */
  datatype LockMasks = LockMasks(numlock: bv16, shiftlock: bv16, capslock: bv16, modeswitch: bv16)

  /** The GetModifierMapping reply: `keycodesPerModifier` keycodes for
      each of the eight modifiers, row after row */
  datatype ModifierMapping = ModifierMapping(keycodesPerModifier: U8, keycodes: seq<Keycode>)

  /** The keycodes bound to Num_Lock, Shift_Lock, Caps_Lock and
      Mode_switch, as `xcb_key_symbols_get_keycode` lists them before the
      terminating 0; `None` stands for a NULL list */
  datatype LockKeycodes = LockKeycodes(numlock: Option<seq<Keycode>>, shiftlock: Option<seq<Keycode>>,
                                       capslock: Option<seq<Keycode>>, modeswitch: Option<seq<Keycode>>)

  /** Each list stops at its terminating 0, so none holds a 0: an empty
      modifier slot (keycode 0) is never matched */
  predicate ZeroTerminated(codes: LockKeycodes) {
    && (codes.numlock.Some? ==> 0 !in codes.numlock.value)
    && (codes.shiftlock.Some? ==> 0 !in codes.shiftlock.value)
    && (codes.capslock.Some? ==> 0 !in codes.capslock.value)
    && (codes.modeswitch.Some? ==> 0 !in codes.modeswitch.value)
  }

  /** The reply holds a full row for every modifier */
  predicate WellShaped(m: ModifierMapping) {
    |m.keycodes| == 8 * m.keycodesPerModifier
  }

  /** `(uint16_t) (1 << i)` */
  function Bit(i: nat): (r: bv16)
    requires i < 8
    ensures r != 0
  {
    (1 as bv16) << i
  }

  lemma SlotInRange(m: ModifierMapping, i: nat, j: nat)
    requires WellShaped(m) && i < 8 && j < m.keycodesPerModifier
    ensures i * m.keycodesPerModifier + j < |m.keycodes|
  {
    var n: int := m.keycodesPerModifier;
    assert i * n + j < i * n + n == (i + 1) * n;
    assert (i + 1) * n <= 8 * n;
  }

  /** The keycode at column `j` of modifier `i`'s row */
  function Slot(m: ModifierMapping, i: nat, j: nat): Keycode
    requires WellShaped(m) && i < 8 && j < m.keycodesPerModifier
  {
    SlotInRange(m, i, j);
    m.keycodes[i * m.keycodesPerModifier + j]
  }

  /** One of `codes` is among the first `j` keycodes of modifier `i` */
  ghost predicate InRow(m: ModifierMapping, codes: seq<Keycode>, i: nat, j: nat)
    requires WellShaped(m) && i < 8 && j <= m.keycodesPerModifier
  {
    exists k :: 0 <= k < j && Slot(m, i, k) in codes
  }

  /** The lowest of the first `n` modifiers whose row holds one of
      `codes` */
  ghost function LowestRow(m: ModifierMapping, codes: seq<Keycode>, n: nat): (r: Option<nat>)
    requires WellShaped(m) && n <= 8
    ensures r.Some? ==> r.value < n && InRow(m, codes, r.value, m.keycodesPerModifier)
    ensures r.Some? ==> forall i :: 0 <= i < r.value ==> !InRow(m, codes, i, m.keycodesPerModifier)
    ensures r.None? ==> forall i :: 0 <= i < n ==> !InRow(m, codes, i, m.keycodesPerModifier)
  {
    if n == 0 then None
    else match LowestRow(m, codes, n - 1)
      case Some(i) => Some(i)
      case None => if InRow(m, codes, n - 1, m.keycodesPerModifier) then Some(n - 1) else None
  }

  /** The mask a lock key ends with: the bit of the lowest modifier one of
      its keycodes is attached to, or 0 */
  ghost function MaskOf(m: ModifierMapping, codes: Option<seq<Keycode>>): bv16
    requires WellShaped(m)
  {
    match codes
    case None => 0
    case Some(c) => match LowestRow(m, c, 8)
      case None => 0
      case Some(i) => Bit(i)
  }

  /** The mask after the scan has seen all rows before `i` and the first
      `j` keycodes of row `i` */
  ghost function Partial(m: ModifierMapping, codes: Option<seq<Keycode>>, i: nat, j: nat): bv16
    requires WellShaped(m) && i <= 8 && (i < 8 ==> j <= m.keycodesPerModifier) && (i == 8 ==> j == 0)
  {
    match codes
    case None => 0
    case Some(c) => match LowestRow(m, c, i)
      case Some(k) => Bit(k)
      case None => if i < 8 && InRow(m, c, i, j) then Bit(i) else 0
  }

  /** Whether the terminated keycode list holds `kc` (the inner loop of
      `LOOK_FOR`) */
  method Contains(codes: seq<Keycode>, kc: Keycode) returns (found: bool)
    ensures found <==> kc in codes
  {
    var t := 0;
    while t < |codes|
      invariant t <= |codes|
      invariant kc !in codes[..t]
    {
      if codes[t] == kc {
        return true;
      }
      t := t + 1;
    }
    assert codes[..t] == codes;
    return false;
  }

  /** `LOOK_FOR(mask, codes)` for keycode `kc` in modifier row `i`: an
      unset mask whose lock key has `kc` gets bit `i`; a set mask is never
      overwritten */
  method LookFor(mask: bv16, codes: Option<seq<Keycode>>, kc: Keycode, i: nat) returns (r: bv16)
    requires i < 8
    ensures mask != 0 || codes.None? ==> r == mask
    ensures mask == 0 && codes.Some? ==> r == if kc in codes.value then Bit(i) else 0
  {
    r := mask;
    if mask == 0 && codes.Some? {
      var found := Contains(codes.value, kc);
      if found {
        r := Bit(i);
      }
    }
  }

  /** The scan invariant for all four masks */
  ghost predicate Scanned(r: LockMasks, m: ModifierMapping, codes: LockKeycodes, i: nat, j: nat)
    requires WellShaped(m) && i <= 8 && (i < 8 ==> j <= m.keycodesPerModifier) && (i == 8 ==> j == 0)
  {
    && r.numlock == Partial(m, codes.numlock, i, j)
    && r.shiftlock == Partial(m, codes.shiftlock, i, j)
    && r.capslock == Partial(m, codes.capslock, i, j)
    && r.modeswitch == Partial(m, codes.modeswitch, i, j)
  }

  /** `key_lock_mask_get_reply`: the four masks are reset, then every
      keycode of the mapping is visited, modifier by modifier; each mask
      ends as the bit of the lowest modifier holding one of its lock key's
      keycodes, or 0 */
  method LockMaskReply(m: ModifierMapping, codes: LockKeycodes) returns (r: LockMasks)
    requires WellShaped(m) && ZeroTerminated(codes)
    ensures r.numlock == MaskOf(m, codes.numlock)
    ensures r.shiftlock == MaskOf(m, codes.shiftlock)
    ensures r.capslock == MaskOf(m, codes.capslock)
    ensures r.modeswitch == MaskOf(m, codes.modeswitch)
  {
    r := LockMasks(0, 0, 0, 0);
    var i := 0;
    while i < 8
      invariant i <= 8 && Scanned(r, m, codes, i, 0)
    {
      var j := 0;
      while j < m.keycodesPerModifier
        invariant j <= m.keycodesPerModifier && Scanned(r, m, codes, i, j)
      {
        r := ScanSlot(r, m, codes, i, j);
        j := j + 1;
      }
      RowDone(r, m, codes, i);
      i := i + 1;
    }
    ScanDone(r, m, codes);
  }

  /** The body of the inner loop: all four `LOOK_FOR`s on one keycode */
  method ScanSlot(r: LockMasks, m: ModifierMapping, codes: LockKeycodes, i: nat, j: nat) returns (r': LockMasks)
    requires WellShaped(m) && i < 8 && j < m.keycodesPerModifier && Scanned(r, m, codes, i, j)
    ensures Scanned(r', m, codes, i, j + 1)
  {
    SlotInRange(m, i, j);
    var kc := m.keycodes[i * m.keycodesPerModifier + j];
    var numlock := LookFor(r.numlock, codes.numlock, kc, i);
    var shiftlock := LookFor(r.shiftlock, codes.shiftlock, kc, i);
    var capslock := LookFor(r.capslock, codes.capslock, kc, i);
    var modeswitch := LookFor(r.modeswitch, codes.modeswitch, kc, i);
    PartialStep(m, codes.numlock, i, j);
    PartialStep(m, codes.shiftlock, i, j);
    PartialStep(m, codes.capslock, i, j);
    PartialStep(m, codes.modeswitch, i, j);
    r' := LockMasks(numlock, shiftlock, capslock, modeswitch);
  }

  /** One more keycode seen: the mask follows `LOOK_FOR` */
  lemma PartialStep(m: ModifierMapping, codes: Option<seq<Keycode>>, i: nat, j: nat)
    requires WellShaped(m) && i < 8 && j < m.keycodesPerModifier
    ensures var mask := Partial(m, codes, i, j);
      Partial(m, codes, i, j + 1) ==
        if mask == 0 && codes.Some? && Slot(m, i, j) in codes.value then Bit(i) else mask
  {
    if codes.Some? && LowestRow(m, codes.value, i).None? {
      var c := codes.value;
      if InRow(m, c, i, j + 1) && !InRow(m, c, i, j) {
        var k :| 0 <= k < j + 1 && Slot(m, i, k) in c;
        assert k == j;
      }
      if Slot(m, i, j) in c {
        assert InRow(m, c, i, j + 1);
      }
      if InRow(m, c, i, j) {
        var k :| 0 <= k < j && Slot(m, i, k) in c;
        assert InRow(m, c, i, j + 1);
      }
    }
  }

  /** A finished row hands over to the next one */
  lemma RowDone(r: LockMasks, m: ModifierMapping, codes: LockKeycodes, i: nat)
    requires WellShaped(m) && i < 8 && Scanned(r, m, codes, i, m.keycodesPerModifier)
    ensures Scanned(r, m, codes, i + 1, 0)
  {
    RowDoneOne(m, codes.numlock, i);
    RowDoneOne(m, codes.shiftlock, i);
    RowDoneOne(m, codes.capslock, i);
    RowDoneOne(m, codes.modeswitch, i);
  }

  lemma RowDoneOne(m: ModifierMapping, codes: Option<seq<Keycode>>, i: nat)
    requires WellShaped(m) && i < 8
    ensures Partial(m, codes, i, m.keycodesPerModifier) == Partial(m, codes, i + 1, 0)
  {
    if codes.Some? && i + 1 < 8 {
      assert !InRow(m, codes.value, i + 1, 0);
    }
  }

  lemma ScanDone(r: LockMasks, m: ModifierMapping, codes: LockKeycodes)
    requires WellShaped(m) && Scanned(r, m, codes, 8, 0)
    ensures r.numlock == MaskOf(m, codes.numlock)
    ensures r.shiftlock == MaskOf(m, codes.shiftlock)
    ensures r.capslock == MaskOf(m, codes.capslock)
    ensures r.modeswitch == MaskOf(m, codes.modeswitch)
  {
  }

  /** A lock mask is 0 or a single modifier bit, that of the lowest
      modifier holding one of the lock key's keycodes; it is 0 exactly
      when no modifier holds one */
  lemma MaskOfLowest(m: ModifierMapping, codes: Option<seq<Keycode>>)
    requires WellShaped(m)
    ensures MaskOf(m, codes) == 0 <==>
      codes.None? || forall i :: 0 <= i < 8 ==> !InRow(m, codes.value, i, m.keycodesPerModifier)
    ensures MaskOf(m, codes) != 0 ==>
      exists i :: 0 <= i < 8 && MaskOf(m, codes) == Bit(i) && InRow(m, codes.value, i, m.keycodesPerModifier) &&
        forall k :: 0 <= k < i ==> !InRow(m, codes.value, k, m.keycodesPerModifier)
  {
  }

  // ---------------------------------------------------------------------
  // KeySym selection
  // ---------------------------------------------------------------------

  /** What `xcb_key_symbols_get_keysym` returns for the key in columns 0
      to 3 */
  datatype KeyColumns = KeyColumns(col0: Keysym, col1: Keysym, col2: Keysym, col3: Keysym)

  predicate Held(state: bv16, mask: bv16) {
    state & mask != 0
  }

  /** The group in use: columns 2 and 3 while Mode_switch is held,
      otherwise 0 and 1; a missing second KeySym repeats the first */
  function Group(masks: LockMasks, state: bv16, cols: KeyColumns): (r: (Keysym, Keysym))
    ensures r.0 == if Held(state, masks.modeswitch) then cols.col2 else cols.col0
    ensures r.1 == if Held(state, masks.modeswitch)
                   then (if cols.col3 == NoSymbol then cols.col2 else cols.col3)
                   else (if cols.col1 == NoSymbol then cols.col0 else cols.col1)
  {
    var (k0, k1) := if Held(state, masks.modeswitch) then (cols.col2, cols.col3) else (cols.col0, cols.col1);
    (k0, if k1 == NoSymbol then k0 else k1)
  }

  /** Lock is held and its modifier acts as ShiftLock */
  predicate ShiftLocked(masks: LockMasks, state: bv16) {
    Held(state, LockMask) && Held(state, masks.shiftlock)
  }

  /** Lock is held and its modifier acts as CapsLock */
  predicate CapsLocked(masks: LockMasks, state: bv16) {
    Held(state, LockMask) && Held(state, masks.capslock)
  }

  /** Numlock is held and the second KeySym is a keypad KeySym */
  predicate KeypadApplies(masks: LockMasks, state: bv16, cols: KeyColumns, isKeypad: Keysym -> bool) {
    Held(state, masks.numlock) && isKeypad(Group(masks, state, cols).1)
  }

  /** `key_getkeysym`: the KeySym for a key in the given keyboard state;
      always one of the group's two KeySyms or NoSymbol */
  function GetKeysym(masks: LockMasks, state: bv16, cols: KeyColumns, isKeypad: Keysym -> bool): (r: Keysym)
    ensures var (k0, k1) := Group(masks, state, cols); r == k0 || r == k1 || r == NoSymbol
  {
    var (k0, k1) := Group(masks, state, cols);
    if Held(state, masks.numlock) && isKeypad(k1) then
      if Held(state, ShiftMask) || ShiftLocked(masks, state) then k0 else k1
    else if !Held(state, ShiftMask) && !Held(state, LockMask) then k0
    else if !Held(state, ShiftMask) && CapsLocked(masks, state) then k1
    else if Held(state, ShiftMask) && CapsLocked(masks, state) then k1
    else if Held(state, ShiftMask) || ShiftLocked(masks, state) then k1
    else NoSymbol
  }

  /** Keypad keys under Numlock: Shift, or Lock acting as ShiftLock, gives
      the first KeySym, anything else the second */
  lemma KeypadRule(masks: LockMasks, state: bv16, cols: KeyColumns, isKeypad: Keysym -> bool)
    requires KeypadApplies(masks, state, cols, isKeypad)
    ensures GetKeysym(masks, state, cols, isKeypad) ==
      if Held(state, ShiftMask) || ShiftLocked(masks, state) then Group(masks, state, cols).0
      else Group(masks, state, cols).1
  {
  }

  /** Neither Shift nor Lock: the first KeySym */
  lemma UnshiftedRule(masks: LockMasks, state: bv16, cols: KeyColumns, isKeypad: Keysym -> bool)
    requires !KeypadApplies(masks, state, cols, isKeypad)
    requires !Held(state, ShiftMask) && !Held(state, LockMask)
    ensures GetKeysym(masks, state, cols, isKeypad) == Group(masks, state, cols).0
  {
  }

  /** Shift held, outside the keypad rule: the second KeySym, whatever
      Lock does */
  lemma ShiftRule(masks: LockMasks, state: bv16, cols: KeyColumns, isKeypad: Keysym -> bool)
    requires !KeypadApplies(masks, state, cols, isKeypad) && Held(state, ShiftMask)
    ensures GetKeysym(masks, state, cols, isKeypad) == Group(masks, state, cols).1
  {
  }

  /** Lock acting as CapsLock gives the second KeySym, with or without
      Shift: adding or removing Shift does not change the answer */
  lemma CapsLockRule(masks: LockMasks, state: bv16, cols: KeyColumns, isKeypad: Keysym -> bool)
    requires !KeypadApplies(masks, state, cols, isKeypad) && CapsLocked(masks, state)
    ensures GetKeysym(masks, state, cols, isKeypad) == Group(masks, state, cols).1
  {
  }

  /** Lock acting as ShiftLock, without Shift: the second KeySym */
  lemma ShiftLockRule(masks: LockMasks, state: bv16, cols: KeyColumns, isKeypad: Keysym -> bool)
    requires !KeypadApplies(masks, state, cols, isKeypad) && ShiftLocked(masks, state)
    ensures GetKeysym(masks, state, cols, isKeypad) == Group(masks, state, cols).1
  {
  }

  /** For a key with a first KeySym, NoSymbol comes out exactly when Lock
      is held without Shift and its modifier acts as neither CapsLock nor
      ShiftLock (outside the keypad rule) */
  lemma NoSymbolIffLockUninterpreted(masks: LockMasks, state: bv16, cols: KeyColumns, isKeypad: Keysym -> bool)
    requires Group(masks, state, cols).0 != NoSymbol
    ensures GetKeysym(masks, state, cols, isKeypad) == NoSymbol <==>
      && !KeypadApplies(masks, state, cols, isKeypad)
      && !Held(state, ShiftMask) && Held(state, LockMask)
      && !CapsLocked(masks, state) && !ShiftLocked(masks, state)
  {
  }
}
