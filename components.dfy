/** Machine components of the CHIP-8 emulator: byte and word types, the font
    table, the logical keypad, hexadecimal helpers, and the stateful Memory,
    Display, Registers and Timer classes. */
module Components {
  import Bits

  /** An unsigned 8-bit value (`uint8_t`). */
  type Byte = x: int | 0 <= x < 0x100
  /** An unsigned 16-bit value (`uint16_t`). */
  type Word = x: int | 0 <= x < 0x1_0000
  /** A signed 8-bit `char`, as read from a program file. */
  type SignedChar = x: int | -0x80 <= x < 0x80

  const MemorySize: nat := 4096
  const ProgramStart: Word := 512
  const Rows: nat := 32
  const Cols: nat := 64
  const RegisterCount: nat := 16

  /** Failures that end the emulator: a thrown `std::out_of_range`, or the
      `exit(1)` of a return with an empty call stack. */
  datatype Fault = OutOfRange | EmptyStack

  datatype Result<T> = Ok(value: T) | Err(fault: Fault)

  datatype Outcome = Pass | Fail(fault: Fault)

  // ---------------------------------------------------------------------
  // Font table

  /** The glyph table of the header, sixteen glyphs of five two-digit
      hexadecimal strings, digits 0..F in order; written here one glyph per
      row, in the order the header's flat vector lists them. */
  const FontGlyphs: seq<Glyph> := [
    ["F0", "90", "90", "90", "F0"],  // 0
    ["20", "60", "20", "20", "70"],  // 1
    ["F0", "10", "F0", "80", "F0"],  // 2
    ["F0", "10", "F0", "10", "F0"],  // 3
    ["90", "90", "F0", "10", "10"],  // 4
    ["F0", "80", "F0", "10", "F0"],  // 5
    ["F0", "80", "F0", "90", "F0"],  // 6
    ["F0", "10", "20", "40", "40"],  // 7
    ["F0", "90", "F0", "90", "F0"],  // 8
    ["F0", "90", "F0", "10", "F0"],  // 9
    ["F0", "90", "F0", "90", "90"],  // A
    ["E0", "90", "E0", "90", "E0"],  // B
    ["F0", "80", "80", "80", "F0"],  // C
    ["E0", "90", "90", "90", "E0"],  // D
    ["F0", "80", "F0", "80", "F0"],  // E
    ["F0", "80", "F0", "80", "80"]   // F
  ]

  /** Bytes per glyph. */
  const GlyphHeight: nat := 5

  /** One glyph: five rows, each a two-digit hexadecimal string. */
  type Glyph = g: seq<HexPair> | |g| == GlyphHeight witness ["00", "00", "00", "00", "00"]

  /** Entries in the font vector. */
  const FontCount: nat := 80

  /** Entry k of the header's flat font vector: the table above read row by
      row. */
  function FontEntry(k: nat): HexPair
    requires k < FontCount
  {
    FontGlyphs[k / GlyphHeight][k % GlyphHeight]
  }

  // ---------------------------------------------------------------------
  // Hexadecimal strings

  predicate IsHexDigit(c: char) {
    '0' <= c <= '9' || 'A' <= c <= 'F' || 'a' <= c <= 'f'
  }

  /** A two-digit hexadecimal string, the form of every font entry. */
  type HexPair = s: string | |s| == 2 && IsHexDigit(s[0]) && IsHexDigit(s[1]) witness "00"

  /** A well-formed argument for `std::stoi(s, nullptr, 16)`: digits only. */
  predicate IsHexString(s: string) {
    |s| > 0 && forall k | 0 <= k < |s| :: IsHexDigit(s[k])
  }

  function HexDigitValue(c: char): (d: nat)
    requires IsHexDigit(c)
    ensures d < 16
  {
    if '0' <= c <= '9' then c as int - '0' as int
    else if 'A' <= c <= 'F' then c as int - 'A' as int + 10
    else c as int - 'a' as int + 10
  }

  /** `Memory::hexToIndex`: the base-16 value of a string of hex digits,
      which n digits keep below 16^n. */
  function HexToIndex(s: string): (v: nat)
    requires IsHexString(s)
    ensures v < Bits.Pow2(4 * |s|)
    decreases |s|
  {
    if |s| == 1 then
      Bits.ShiftInDigit(0, HexDigitValue(s[0]), 0);
      HexDigitValue(s[0])
    else
      var high := HexToIndex(s[..|s| - 1]);
      Bits.ShiftInDigit(high, HexDigitValue(s[|s| - 1]), |s| - 1);
      high * 16 + HexDigitValue(s[|s| - 1])
  }

  const HexDigits: string := "0123456789ABCDEF"

  /** `uint8ToHex`: two upper-case hexadecimal digits, high digit first. The
      source looks the pair up in a 256-entry table whose entry v is exactly
      this pair. */
  function Uint8ToHex(v: Byte): (s: string)
    ensures |s| == 2 && IsHexString(s)
    ensures s[0] in HexDigits && s[1] in HexDigits
  {
    [HexDigits[v / 16], HexDigits[v % 16]]
  }

  lemma UpperDigitValue(d: nat)
    requires d < 16
    ensures IsHexDigit(HexDigits[d]) && HexDigitValue(HexDigits[d]) == d
  {
    if d < 10 {
      assert HexDigits[d] as int == '0' as int + d;
    } else {
      assert HexDigits[d] as int == 'A' as int + (d - 10);
    }
  }

  /** Parsing the two digits `uint8ToHex` produces gives the byte back. */
  lemma {:induction false} HexRoundTrip(v: Byte)
    ensures HexToIndex(Uint8ToHex(v)) == v
  {
    var s := Uint8ToHex(v);
    UpperDigitValue(v / 16);
    UpperDigitValue(v % 16);
    assert s[..1] == [HexDigits[v / 16]];
    assert HexToIndex(s[..1]) == v / 16;
  }

  /** Any two-digit hexadecimal string denotes a byte. */
  lemma {:induction false} TwoDigitsAreByte(s: string)
    requires IsHexString(s) && |s| == 2
    ensures HexToIndex(s) == 16 * HexDigitValue(s[0]) + HexDigitValue(s[1]) < 0x100
  {
    assert HexToIndex(s[..1]) == HexDigitValue(s[0]);
  }

  /** The font vector has 80 entries, five per glyph for the digits 0..F in
      order, so glyph d starts at entry 5d. */
  lemma FontTableLayout()
    ensures FontCount == 16 * GlyphHeight && |FontGlyphs| == 16
    ensures forall d, r | 0 <= d < 16 && 0 <= r < GlyphHeight ::
              FontEntry(GlyphHeight * d + r) == FontGlyphs[d][r]
  {
    forall d, r | 0 <= d < 16 && 0 <= r < GlyphHeight
      ensures FontEntry(GlyphHeight * d + r) == FontGlyphs[d][r]
    {
      Bits.ModUnique(GlyphHeight * d + r, GlyphHeight, d, r);
    }
  }

  /** The byte a two-digit hexadecimal string denotes, high digit first. */
  function HexPairValue(s: HexPair): (b: Byte)
    ensures b == 16 * HexDigitValue(s[0]) + HexDigitValue(s[1])
  {
    TwoDigitsAreByte(s);
    HexToIndex(s)
  }

  /** The font vector's byte values, read through `hexToIndex`. */
  function FontImage(): (image: seq<Byte>)
    ensures |image| == FontCount
    ensures forall k | 0 <= k < FontCount :: image[k] == HexToIndex(FontEntry(k))
  {
    seq(FontCount, k requires 0 <= k < FontCount => HexPairValue(FontEntry(k)))
  }

  /** Truncating entry k to `uint8_t` keeps its value. */
  lemma FontByte(k: nat)
    requires k < FontCount
    ensures HexToIndex(FontEntry(k)) % 0x100 == FontImage()[k]
  {
  }

  // ---------------------------------------------------------------------
  // Keypad

  /** The sixteen logical keys and the `Invalid` sentinel, in declaration
      order (ordinals 0..16). */
  datatype Key = Zero | One | Two | Three | Four | Five | Six | Seven
               | Eight | Nine | A | B | C | D | E | F | Invalid

  /** The enumerator's underlying value. */
  function Ordinal(k: Key): (n: nat)
    ensures n <= 16 && (n == 16 <==> k == Invalid)
  {
    match k
    case Zero => 0 case One => 1 case Two => 2 case Three => 3
    case Four => 4 case Five => 5 case Six => 6 case Seven => 7
    case Eight => 8 case Nine => 9 case A => 10 case B => 11
    case C => 12 case D => 13 case E => 14 case F => 15
    case Invalid => 16
  }

  /** `static_cast<Key>(v)` for a value that names an enumerator. */
  function KeyFromOrdinal(v: nat): (k: Key)
    requires v <= 16
    ensures Ordinal(k) == v
  {
    [Zero, One, Two, Three, Four, Five, Six, Seven, Eight, Nine,
     A, B, C, D, E, F, Invalid][v]
  }

  /** `translateKeyToChar`: the key's hexadecimal value, 0xFF for `Invalid`. */
  function TranslateKeyToChar(k: Key): (v: Byte)
    ensures k != Invalid ==> v == Ordinal(k) && v < 16
    ensures k == Invalid ==> v == 0xFF
  {
    match k
    case Zero => 0x0 case One => 0x1 case Two => 0x2 case Three => 0x3
    case Four => 0x4 case Five => 0x5 case Six => 0x6 case Seven => 0x7
    case Eight => 0x8 case Nine => 0x9 case A => 0xA case B => 0xB
    case C => 0xC case D => 0xD case E => 0xE case F => 0xF
    case Invalid => 0xFF
  }

  /** On 0..15 the cast and `translateKeyToChar` are inverse, and 16 casts
      to `Invalid`. */
  lemma KeyTranslationRoundTrip()
    ensures forall v: nat | v < 16 :: TranslateKeyToChar(KeyFromOrdinal(v)) == v
    ensures forall k: Key | k != Invalid :: KeyFromOrdinal(TranslateKeyToChar(k)) == k
    ensures KeyFromOrdinal(16) == Invalid
  {
    forall k: Key | k != Invalid ensures KeyFromOrdinal(TranslateKeyToChar(k)) == k {
      match k
      case Zero => case One => case Two => case Three =>
      case Four => case Five => case Six => case Seven =>
      case Eight => case Nine => case A => case B =>
      case C => case D => case E => case F =>
    }
  }

  // ---------------------------------------------------------------------
  // Block writes shared by program loading and the memory instructions

  /** `dst` with `src` written from position `at` on; cells of `src` that fall
      at or beyond the end of `dst` are dropped. */
  function Overwrite(dst: seq<Byte>, at: nat, src: seq<Byte>): seq<Byte>
  {
    seq(|dst|, p requires 0 <= p < |dst| => if at <= p < at + |src| then src[p - at] else dst[p])
  }

  /** The cells of `mem` from `at` on, at most `n` of them: what a loop that
      reads `n` bytes and stops at the first out-of-range index obtains. */
  function Readable(mem: seq<Byte>, at: nat, n: nat): (r: seq<Byte>)
    ensures |r| <= n
    ensures at + n <= |mem| ==> |r| == n
    ensures forall k | 0 <= k < |r| :: at + k < |mem| && r[k] == mem[at + k]
    ensures |r| < n ==> at + |r| >= |mem|
  {
    if at >= |mem| then [] else if at + n <= |mem| then mem[at .. at + n] else mem[at..]
  }

  /** Writing one more cell: a prefix of `src` grows by the cell at `at + k`. */
  lemma OverwriteStep(dst: seq<Byte>, at: nat, src: seq<Byte>, k: nat)
    requires k < |src| && at + k < |dst|
    ensures Overwrite(dst, at, src[..k + 1]) == Overwrite(dst, at, src[..k])[at + k := src[k]]
  {
  }

  /** Once the write position reaches the end of `dst`, the rest of `src` is
      dropped. */
  lemma OverwriteTruncated(dst: seq<Byte>, at: nat, src: seq<Byte>, k: nat)
    requires k <= |src| && at + k >= |dst|
    ensures Overwrite(dst, at, src[..k]) == Overwrite(dst, at, src)
  {
  }

  // ---------------------------------------------------------------------
  // Memory

  /** The 4096-byte address space and the program counter it owns. */
  class Memory {
    var bytes: seq<Byte>
    var pc: Word

    ghost predicate Valid()
      reads this
    {
      |bytes| == MemorySize
    }

    /** All cells zero, the font glyphs copied to 0..79, PC at 512 (PC is 0
        while the fonts load). */
    constructor ()
      ensures Valid() && pc == ProgramStart
      ensures bytes[..FontCount] == FontImage()
      ensures forall k | FontCount <= k < MemorySize :: bytes[k] == 0
    {
      bytes := seq(MemorySize, _ => 0);
      pc := 0;
      new;
      LoadFonts();
      pc := ProgramStart;
    }

    /** `getByte`: the cell, or `out_of_range` past the end. */
    function GetByte(index: nat): (r: Result<Byte>)
      reads this
      ensures r.Ok? <==> index < |bytes|
      ensures r.Ok? ==> r.value == bytes[index]
      ensures r.Err? ==> r.fault == OutOfRange
    {
      if index < |bytes| then Ok(bytes[index]) else Err(OutOfRange)
    }

    /** `getByte` with a hexadecimal address string. */
    function GetByteAtHex(index: string): Result<Byte>
      requires IsHexString(index)
      reads this
    {
      GetByte(HexToIndex(index))
    }

    /** `setByte`: writes one cell, or throws `out_of_range` past the end and
        changes nothing. */
    method SetByte(index: nat, value: Byte) returns (o: Outcome)
      modifies this
      ensures o.Pass? <==> index < |old(bytes)|
      ensures o.Fail? ==> o.fault == OutOfRange
      ensures bytes == if o.Pass? then old(bytes)[index := value] else old(bytes)
      ensures o.Pass? ==> GetByte(index) == Ok(value)
      ensures pc == old(pc)
    {
      if index < |bytes| {
        bytes := bytes[index := value];
        o := Pass;
      } else {
        o := Fail(OutOfRange);
      }
    }

    /** `setByte` with a hexadecimal value string, truncated to `uint8_t`. */
    method SetByteFromHex(index: nat, value: string) returns (o: Outcome)
      requires IsHexString(value)
      modifies this
      ensures o.Pass? <==> index < |old(bytes)|
      ensures bytes == if o.Pass? then old(bytes)[index := HexToIndex(value) % 0x100] else old(bytes)
      ensures pc == old(pc)
    {
      o := SetByte(index, HexToIndex(value) % 0x100);
    }

    method SetPC(newPC: Word)
      modifies this
      ensures pc == newPC && bytes == old(bytes)
    {
      pc := newPC;
    }

    function GetPC(): Word
      reads this
    {
      pc
    }

    /** `loadFonts`: copies the font table to cells 0..79, one at a time. */
    method LoadFonts()
      requires Valid()
      modifies this
      ensures Valid() && pc == old(pc)
      ensures bytes == FontImage() + old(bytes)[FontCount..]
    {
      ghost var image := FontImage();
      for pos := 0 to FontCount
        invariant Valid() && pc == old(pc)
        invariant forall j | 0 <= j < pos :: bytes[j] == image[j]
        invariant forall j | pos <= j < MemorySize :: bytes[j] == old(bytes)[j]
      {
        FontByte(pos);
        var _ := SetByteFromHex(pos, FontEntry(pos));
      }
    }

    /** `loadIntoMemory`: copies the program from the current PC on, each
        `char` stored as `uint8_t`; PC does not move. Running past the end
        throws after the in-range prefix has been written. */
    method LoadIntoMemory(binary: seq<SignedChar>) returns (o: Outcome)
      requires Valid()
      modifies this
      ensures Valid() && pc == old(pc)
      ensures o.Pass? <==> |binary| == 0 || old(pc) + |binary| <= MemorySize
      ensures o.Fail? ==> o.fault == OutOfRange
      ensures bytes == Overwrite(old(bytes), old(pc), AsBytes(binary))
    {
      var p: Word := pc;
      o := Pass;
      for k := 0 to |binary|
        invariant Valid() && pc == old(pc) && p == pc + k && o == Pass
        invariant k > 0 ==> pc + k <= MemorySize
        invariant bytes == Overwrite(old(bytes), pc, AsBytes(binary)[..k])
      {
        o := SetByte(p, (binary[k] as int) % 0x100);
        if o.Fail? {
          OverwriteTruncated(old(bytes), pc, AsBytes(binary), k);
          return;
        }
        OverwriteStep(old(bytes), pc, AsBytes(binary), k);
        p := p + 1;
      }
      assert AsBytes(binary)[..|binary|] == AsBytes(binary);
    }
  }

  /** The `char` to `uint8_t` conversion of a whole program. */
  function AsBytes(binary: seq<SignedChar>): (r: seq<Byte>)
    ensures |r| == |binary|
    ensures forall k | 0 <= k < |binary| :: r[k] % 0x100 == (binary[k] as int) % 0x100
  {
    seq(|binary|, k requires 0 <= k < |binary| => (binary[k] as int) % 0x100)
  }

  // ---------------------------------------------------------------------
  // Display

  /** A screen as rows of pixels. */
  predicate IsScreen(s: seq<seq<bool>>) {
    |s| == Rows && forall r | 0 <= r < Rows :: |s[r]| == Cols
  }

  /** The screen with every pixel equal to `val`. */
  function Filled(val: bool): (s: seq<seq<bool>>)
    ensures IsScreen(s)
    ensures forall r, c | 0 <= r < Rows && 0 <= c < Cols :: s[r][c] == val
  {
    seq(Rows, _ => seq(Cols, _ => val))
  }

  /** The all-off screen. */
  function Blank(): seq<seq<bool>>
  {
    Filled(false)
  }

  /** Two screens with the same pixels are the same screen. */
  lemma ScreenEquality(a: seq<seq<bool>>, b: seq<seq<bool>>)
    requires IsScreen(a) && IsScreen(b)
    requires forall r, c | 0 <= r < Rows && 0 <= c < Cols :: a[r][c] == b[r][c]
    ensures a == b
  {
    assert forall r | 0 <= r < Rows :: a[r] == b[r];
  }

  /** The 32 x 64 framebuffer and the flag that asks the renderer to redraw. */
  class Display {
    const matrix: array2<bool>
    var reprint: bool

    ghost predicate Valid()
      reads this
    {
      matrix.Length0 == Rows && matrix.Length1 == Cols
    }

    /** The framebuffer as a value. */
    ghost function Pixels(): (s: seq<seq<bool>>)
      requires Valid()
      reads this, matrix
      ensures IsScreen(s)
      ensures forall r, c | 0 <= r < Rows && 0 <= c < Cols :: s[r][c] == matrix[r, c]
    {
      seq(Rows, r requires 0 <= r < Rows reads matrix =>
        seq(Cols, c requires 0 <= c < Cols reads matrix => matrix[r, c]))
    }

    /** Every pixel off and no redraw requested. */
    constructor ()
      ensures Valid() && fresh(matrix)
      ensures Pixels() == Blank() && !reprint
    {
      matrix := new bool[Rows, Cols]((r, c) => false);
      reprint := false;
      new;
      ScreenEquality(Pixels(), Blank());
    }

    /** `setPixel`: the source does not check the bounds. */
    method SetPixel(row: nat, col: nat, val: bool)
      requires Valid() && row < Rows && col < Cols
      modifies matrix
      ensures matrix[row, col] == val
      ensures forall r, c | 0 <= r < Rows && 0 <= c < Cols && (r != row || c != col) ::
                matrix[r, c] == old(matrix[r, c])
    {
      matrix[row, col] := val;
    }

    function GetPixel(row: nat, col: nat): bool
      requires Valid() && row < Rows && col < Cols
      reads this, matrix
    {
      matrix[row, col]
    }

    /** `setAllPixels`: every pixel becomes `val`; `reprint` is untouched. */
    method SetAllPixels(val: bool)
      requires Valid()
      modifies matrix
      ensures Pixels() == Filled(val)
    {
      for row := 0 to Rows
        invariant forall r, c | 0 <= r < row && 0 <= c < Cols :: matrix[r, c] == val
      {
        for col := 0 to Cols
          invariant forall r, c | 0 <= r < row && 0 <= c < Cols :: matrix[r, c] == val
          invariant forall c | 0 <= c < col :: matrix[row, c] == val
        {
          matrix[row, col] := val;
        }
      }
      ScreenEquality(Pixels(), Filled(val));
    }

    method SetReprint(val: bool)
      modifies this
      ensures reprint == val
    {
      reprint := val;
    }

    function GetReprint(): bool
      reads this
    {
      reprint
    }

    /** `Display::clear`: its loop assigns to a copy of each pixel, so the
        framebuffer keeps its contents; only the redraw flag is set. */
    method Clear()
      requires Valid()
      modifies this
      ensures reprint
      ensures Pixels() == old(Pixels())
    {
      for row := 0 to Rows {
        for col := 0 to Cols {
          var pixel := matrix[row, col];
          pixel := false;
        }
      }
      SetReprint(true);
    }
  }

  // ---------------------------------------------------------------------
  // Registers

  /** The general-purpose register file. */
  class Registers {
    var slots: seq<Byte>

    /** The emulator's register file: V0..VF. */
    ghost predicate Valid()
      reads this
    {
      |slots| == RegisterCount
    }

    /** Sixteen zero registers. */
    constructor ()
      ensures Valid() && slots == seq(RegisterCount, _ => 0)
    {
      slots := seq(RegisterCount, _ => 0);
    }

    /** A file of `size` zero registers. */
    constructor Sized(size: nat)
      ensures slots == seq(size, _ => 0)
    {
      slots := seq(size, _ => 0);
    }

    /** `setReg`: writes one register, or throws `out_of_range` and changes
        nothing. */
    method SetReg(reg: nat, val: Byte) returns (o: Outcome)
      modifies this
      ensures o.Pass? <==> reg < |old(slots)|
      ensures o.Fail? ==> o.fault == OutOfRange
      ensures slots == if o.Pass? then old(slots)[reg := val] else old(slots)
      ensures o.Pass? ==> GetReg(reg) == Ok(val)
    {
      if reg >= |slots| {
        return Fail(OutOfRange);
      }
      slots := slots[reg := val];
      o := Pass;
    }

    /** `getReg`: the register, or `out_of_range`. */
    function GetReg(reg: nat): (r: Result<Byte>)
      reads this
      ensures r.Ok? <==> reg < |slots|
      ensures r.Ok? ==> r.value == slots[reg]
      ensures r.Err? ==> r.fault == OutOfRange
    {
      if reg >= |slots| then Err(OutOfRange) else Ok(slots[reg])
    }
  }

  // ---------------------------------------------------------------------
  // Timers

  /** One step of the 60 Hz countdown: a positive value drops by one, zero
      stays zero. */
  function TickValue(v: Byte): Byte
  {
    if v > 0 then v - 1 else v
  }

  /** The value after `n` ticks. */
  function AfterTicks(v: Byte, n: nat): Byte
  {
    if n == 0 then v else AfterTicks(TickValue(v), n - 1)
  }

  /** Ticking never wraps: after n ticks the value is v - n, or 0 once n
      reaches v, and it stays 0. */
  lemma {:induction false} AfterTicksSaturates(v: Byte, n: nat)
    ensures AfterTicks(v, n) == if n >= v then 0 else v - n
  {
    if n > 0 {
      AfterTicksSaturates(TickValue(v), n - 1);
    }
  }

  /** A delay or sound timer. */
  class Timer {
    var value: Byte

    constructor ()
      ensures value == 0
    {
      value := 0;
    }

    function GetValue(): Byte
      reads this
    {
      value
    }

    method SetValue(newValue: Byte)
      modifies this
      ensures value == newValue
    {
      value := newValue;
    }

    /** One iteration of the background countdown loop. */
    method Tick()
      modifies this
      ensures value == TickValue(old(value))
      ensures old(value) > 0 ==> value == old(value) - 1
      ensures old(value) == 0 ==> value == 0
    {
      if value > 0 {
        value := value - 1;
      }
    }
  }
}
