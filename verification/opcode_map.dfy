/** The opcode map: how many words follow an opcode, by its first digit and its fields.  It is
    proved to be what the decoder's patterns say when they are tried one after the other. */
module OpcodeMap {
  import opened Words
  import opened Decode

  /** An opcode as its first two digits, two bits, and two fields of three bits. */
  predicate Composed(w: Word, line: nat, b: nat, s: nat, m: nat, x: nat) {
    line < 16 && b < 16 && s < 4 && m < 8 && x < 8 && w == 0x1000 * line + 0x100 * b + 0x40 * s + 8 * m + x
  }

  lemma Compose(w: Word) returns (line: nat, b: nat, s: nat, m: nat, x: nat)
    ensures Composed(w, line, b, s, m, x)
  {
    var (rest, low) := (w / 0x40, w % 0x40);
    m, x := low / 8, low % 8;
    var digits := rest / 4;
    s := rest % 4;
    line, b := digits / 0x10, digits % 0x10;
  }

  lemma Digits(w: Word, line: nat, b: nat, s: nat, m: nat, x: nat)
    requires Composed(w, line, b, s, m, x)
    ensures w / 0x1000 == line && w / 0x100 % 0x10 == b
    ensures w / 0x10 % 0x10 == 4 * s + m / 2 && w % 0x10 == m % 2 * 8 + x
  {
    DivUnique(w, 0x1000, line, 0x100 * b + 0x40 * s + 8 * m + x);
    DivUnique(w, 0x100, 0x10 * line + b, 0x40 * s + 8 * m + x);
    DivUnique(w, 0x10, 0x100 * line + 0x10 * b + 4 * s + m / 2, m % 2 * 8 + x);
  }

  lemma Fields(w: Word, line: nat, b: nat, s: nat, m: nat, x: nat)
    requires Composed(w, line, b, s, m, x)
    ensures Bits(w, 0, 3) == x && Bits(w, 3, 3) == m && Bits(w, 6, 2) == s && Bits(w, 6, 1) == s % 2
    ensures Bits(w, 6, 3) == b % 2 * 4 + s && Bits(w, 8, 1) == b % 2 && Bits(w, 9, 3) == b / 2
    ensures Bits(w, 12, 2) == line % 4 && Bits(w, 12, 3) == line % 8 && Bits(w, 13, 2) == line / 2 % 4
    ensures Bits(w, 0, 8) == 0x40 * s + 8 * m + x && Bits(w, 8, 4) == b
  {
    ModeFields(w, line, b, s, m, x);
    LowFields(w, line, b, s, m, x);
    HighFields(w, line, b, s, m, x);
    hide Bits;
  }

  lemma ModeFields(w: Word, line: nat, b: nat, s: nat, m: nat, x: nat)
    requires Composed(w, line, b, s, m, x)
    ensures Bits(w, 0, 3) == x && Bits(w, 3, 3) == m && Bits(w, 0, 8) == 0x40 * s + 8 * m + x
  {
    Powers();
    hide Pow2;
    DivUnique(w, 8, 0x200 * line + 0x20 * b + 8 * s + m, x);
    DivUnique(0x200 * line + 0x20 * b + 8 * s + m, 8, 0x40 * line + 4 * b + s, m);
    DivUnique(w, 0x100, 0x10 * line + b, 0x40 * s + 8 * m + x);
  }

  lemma LowFields(w: Word, line: nat, b: nat, s: nat, m: nat, x: nat)
    requires Composed(w, line, b, s, m, x)
    ensures Bits(w, 6, 2) == s && Bits(w, 6, 1) == s % 2 && Bits(w, 6, 3) == b % 2 * 4 + s
  {
    Powers();
    hide Pow2;
    DivUnique(w, 0x40, 0x40 * line + 4 * b + s, 8 * m + x);
    DivUnique(0x40 * line + 4 * b + s, 4, 0x10 * line + b, s);
    DivUnique(0x40 * line + 4 * b + s, 8, 8 * line + b / 2, b % 2 * 4 + s);
  }

  lemma HighFields(w: Word, line: nat, b: nat, s: nat, m: nat, x: nat)
    requires Composed(w, line, b, s, m, x)
    ensures Bits(w, 8, 1) == b % 2 && Bits(w, 9, 3) == b / 2 && Bits(w, 8, 4) == b
    ensures Bits(w, 12, 2) == line % 4 && Bits(w, 12, 3) == line % 8 && Bits(w, 13, 2) == line / 2 % 4
  {
    Powers();
    hide Pow2;
    DivUnique(w, 0x100, 0x10 * line + b, 0x40 * s + 8 * m + x);
    DivUnique(w, 0x200, 8 * line + b / 2, b % 2 * 0x100 + 0x40 * s + 8 * m + x);
    DivUnique(w, 0x1000, line, 0x100 * b + 0x40 * s + 8 * m + x);
    DivUnique(w, 0x2000, line / 2, line % 2 * 0x1000 + 0x100 * b + 0x40 * s + 8 * m + x);
  }

  lemma Powers()
    ensures Pow2(0) == 1 && Pow2(1) == 2 && Pow2(2) == 4 && Pow2(3) == 8 && Pow2(4) == 0x10
    ensures Pow2(6) == 0x40 && Pow2(8) == 0x100 && Pow2(9) == 0x200 && Pow2(12) == 0x1000 && Pow2(13) == 0x2000
  {
    assert Pow2(3) == 8;
    assert Pow2(6) == 8 * Pow2(3);
    assert Pow2(9) == 8 * Pow2(6);
    assert Pow2(12) == 8 * Pow2(9);
  }

  // ---------------------------------------------------------------- the groups of the patterns

  lemma FirstGroups(n: int)
    requires 0 <= n < 16
    ensures (Fits(n, "00..") <==> n < 4) && (Fits(n, "0000") <==> n == 0) && (Fits(n, "0100") <==> n == 4)
    ensures (Fits(n, "0101") <==> n == 5) && (Fits(n, "0110") <==> n == 6) && (Fits(n, "0111") <==> n == 7)
    ensures (Fits(n, "1...") <==> n >= 8) && (Fits(n, "1..1") <==> n >= 8 && n % 2 == 1)
    ensures (Fits(n, "1.00") <==> n == 8 || n == 12) && (Fits(n, "1.01") <==> n == 9 || n == 13)
    ensures (Fits(n, "1000") <==> n == 8) && (Fits(n, "1011") <==> n == 11)
    ensures (Fits(n, "1100") <==> n == 12) && (Fits(n, "1110") <==> n == 14)
  {
  }

  lemma SecondGroups(n: int)
    requires 0 <= n < 16
    ensures Fits(n, "....") && (Fits(n, "...0") <==> n % 2 == 0) && (Fits(n, "...1") <==> n % 2 == 1)
    ensures (Fits(n, "0...") <==> n < 8) && (Fits(n, "0000") <==> n == 0) && (Fits(n, "0010") <==> n == 2)
    ensures (Fits(n, "01.0") <==> n == 4 || n == 6) && (Fits(n, "0100") <==> n == 4) && (Fits(n, "0110") <==> n == 6)
    ensures (Fits(n, "1.00") <==> n == 8 || n == 12) && (Fits(n, "1000") <==> n == 8)
    ensures (Fits(n, "1010") <==> n == 10) && (Fits(n, "1110") <==> n == 14)
  {
  }

  lemma ThirdGroups(s: nat, m: nat)
    requires s < 4 && m < 8
    ensures var n := 4 * s + m / 2;
            && Fits(n, "....") && (Fits(n, "..00") <==> m < 2) && (Fits(n, "0.11") <==> s < 2 && m >= 6)
            && (Fits(n, "00..") <==> s == 0) && (Fits(n, "0000") <==> s == 0 && m < 2) && (Fits(n, "01..") <==> s == 1)
            && (Fits(n, "0100") <==> s == 1 && m < 2) && (Fits(n, "0101") <==> s == 1 && 2 <= m < 4)
            && (Fits(n, "0110") <==> s == 1 && 4 <= m < 6) && (Fits(n, "0111") <==> s == 1 && m >= 6)
            && (Fits(n, "1...") <==> s >= 2) && (Fits(n, "1.00") <==> s >= 2 && m < 2) && (Fits(n, "10..") <==> s == 2)
            && (Fits(n, "11..") <==> s == 3) && (Fits(n, "1100") <==> s == 3 && m < 2)
  {
  }

  lemma FourthGroups(m: nat, x: nat)
    requires m < 8 && x < 8
    ensures var n := m % 2 * 8 + x;
            && Fits(n, "....") && (Fits(n, "0...") <==> m % 2 == 0) && (Fits(n, "1...") <==> m % 2 == 1)
            && (Fits(n, "0000") <==> m % 2 == 0 && x == 0) && (Fits(n, "0001") <==> m % 2 == 0 && x == 1)
            && (Fits(n, "0011") <==> m % 2 == 0 && x == 3) && (Fits(n, "0101") <==> m % 2 == 0 && x == 5)
            && (Fits(n, "0110") <==> m % 2 == 0 && x == 6) && (Fits(n, "0111") <==> m % 2 == 0 && x == 7)
            && (Fits(n, "1100") <==> m % 2 == 1 && x == 4)
  {
  }

  lemma FourTailPatterns(w: Word, line: nat, b: nat, s: nat, m: nat, x: nat)
    requires Composed(w, line, b, s, m, x)
    ensures Matches(w, "0100", "1110", "0111", "0000") <==> line == 4 && b == 14 && s == 1 && m == 6 && x == 0
    ensures Matches(w, "0100", "1110", "0111", "0001") <==> line == 4 && b == 14 && s == 1 && m == 6 && x == 1
    ensures Matches(w, "0100", "1110", "1...", "....") <==> line == 4 && b == 14 && s >= 2
    ensures Matches(w, "0100", "1110", "0101", "0...") <==> line == 4 && b == 14 && s == 1 && m == 2
    ensures Matches(w, "0100", "1110", "0101", "1...") <==> line == 4 && b == 14 && s == 1 && m == 3
    ensures Matches(w, "0100", "1110", "0100", "....") <==> line == 4 && b == 14 && s == 1 && m < 2
    ensures Matches(w, "0100", "1110", "0111", "0110") <==> line == 4 && b == 14 && s == 1 && m == 6 && x == 6
    ensures Matches(w, "0100", "1110", "0111", "0011") <==> line == 4 && b == 14 && s == 1 && m == 6 && x == 3
    ensures Matches(w, "0100", "1110", "0111", "0101") <==> line == 4 && b == 14 && s == 1 && m == 6 && x == 5
    ensures Matches(w, "0100", "1110", "0111", "0111") <==> line == 4 && b == 14 && s == 1 && m == 6 && x == 7
    ensures Matches(w, "0100", "1110", "0110", "0...") <==> line == 4 && b == 14 && s == 1 && m == 4
    ensures Matches(w, "0100", "1110", "0110", "1...") <==> line == 4 && b == 14 && s == 1 && m == 5
  {
    Digits(w, line, b, s, m, x);
    FirstGroups(line);
    SecondGroups(b);
    ThirdGroups(s, m);
    FourthGroups(m, x);
    hide Fits, Composed;
  }

  lemma MiddlePatterns(w: Word, line: nat, b: nat, s: nat, m: nat, x: nat)
    requires Composed(w, line, b, s, m, x)
    ensures Matches(w, "0101", "....", "1100", "1...") <==> line == 5 && s == 3 && m == 1
    ensures Matches(w, "0101", "....", "11..", "....") <==> line == 5 && s == 3
    ensures Matches(w, "0101", "....", "....", "....") <==> line == 5
    ensures Matches(w, "0110", "....", "....", "....") <==> line == 6
    ensures Matches(w, "1110", "0...", "11..", "....") <==> line == 14 && b < 8 && s == 3
    ensures Matches(w, "1110", "....", "....", "....") <==> line == 14
    ensures Matches(w, "0111", "...0", "....", "....") <==> line == 7 && b % 2 == 0
  {
    Digits(w, line, b, s, m, x);
    FirstGroups(line);
    SecondGroups(b);
    ThirdGroups(s, m);
    FourthGroups(m, x);
    hide Fits, Composed;
  }

  lemma HighPatterns(w: Word, line: nat, b: nat, s: nat, m: nat, x: nat)
    requires Composed(w, line, b, s, m, x)
    ensures Matches(w, "1.00", "...1", "0000", "....") <==> (line == 8 || line == 12) && b % 2 == 1 && s == 0 && m < 2
    ensures Matches(w, "1.01", "...1", "..00", "....") <==> (line == 9 || line == 13) && b % 2 == 1 && m < 2
    ensures Matches(w, "1011", "...1", "..00", "1...") <==> line == 11 && b % 2 == 1 && m == 1
    ensures Matches(w, "1100", "...1", "..00", "....") <==> line == 12 && b % 2 == 1 && m < 2
    ensures Matches(w, "1100", "....", "11..", "....") <==> line == 12 && s == 3
    ensures Matches(w, "1000", "....", "11..", "....") <==> line == 8 && s == 3
    ensures Matches(w, "1..1", "....", "11..", "....") <==> line >= 8 && line % 2 == 1 && s == 3
    ensures Matches(w, "1...", "....", "....", "....") <==> line >= 8
  {
    Digits(w, line, b, s, m, x);
    FirstGroups(line);
    SecondGroups(b);
    ThirdGroups(s, m);
    FourthGroups(m, x);
    hide Fits, Composed;
  }

  lemma FourPatterns(w: Word, line: nat, b: nat, s: nat, m: nat, x: nat)
    requires Composed(w, line, b, s, m, x)
    ensures Matches(w, "0100", "...1", "11..", "....") <==> line == 4 && b % 2 == 1 && s == 3
    ensures Matches(w, "0100", "1000", "0100", "0...") <==> line == 4 && b == 8 && s == 1 && m == 0
    ensures Matches(w, "0100", "1000", "01..", "....") <==> line == 4 && b == 8 && s == 1
    ensures Matches(w, "0100", "1010", "11..", "....") <==> line == 4 && b == 10 && s == 3
    ensures Matches(w, "0100", "1000", "1.00", "0...") <==> line == 4 && b == 8 && s >= 2 && m == 0
    ensures Matches(w, "0100", "1010", "....", "....") <==> line == 4 && b == 10
    ensures Matches(w, "0100", "...1", "10..", "....") <==> line == 4 && b % 2 == 1 && s == 2
    ensures Matches(w, "0100", "1000", "00..", "....") <==> line == 4 && b == 8 && s == 0
    ensures Matches(w, "0100", "0000", "....", "....") <==> line == 4 && b == 0
    ensures Matches(w, "0100", "0010", "....", "....") <==> line == 4 && b == 2
    ensures Matches(w, "0100", "0100", "....", "....") <==> line == 4 && b == 4
    ensures Matches(w, "0100", "0110", "....", "....") <==> line == 4 && b == 6
    ensures Matches(w, "0100", "1.00", "1...", "....") <==> line == 4 && (b == 8 || b == 12) && s >= 2
    ensures Matches(w, "0100", "01.0", "11..", "....") <==> line == 4 && (b == 4 || b == 6) && s == 3
    ensures Matches(w, "0100", "0000", "11..", "....") <==> line == 4 && b == 0 && s == 3
  {
    Digits(w, line, b, s, m, x);
    FirstGroups(line);
    SecondGroups(b);
    ThirdGroups(s, m);
    FourthGroups(m, x);
    hide Fits, Composed;
  }

  lemma ZeroPatterns(w: Word, line: nat, b: nat, s: nat, m: nat, x: nat)
    requires Composed(w, line, b, s, m, x)
    ensures Matches(w, "0000", "...0", "0.11", "1100") <==> line == 0 && b % 2 == 0 && s < 2 && m == 7 && x == 4
    ensures Matches(w, "0000", "...1", "....", "....") <==> line == 0 && b % 2 == 1
    ensures Matches(w, "0000", "1000", "....", "....") <==> line == 0 && b == 8
    ensures Matches(w, "0000", "...0", "....", "....") <==> line == 0 && b % 2 == 0
    ensures Matches(w, "00..", "....", "....", "....") <==> line < 4
    ensures Matches(w, "0000", "...1", "..00", "1...") <==> line == 0 && b % 2 == 1 && m == 1
  {
    Digits(w, line, b, s, m, x);
    FirstGroups(line);
    SecondGroups(b);
    ThirdGroups(s, m);
    FourthGroups(m, x);
    hide Fits, Composed;
  }

  // ---------------------------------------------------------------- the map

  function SizedWords(s: nat, m: nat, x: nat): Option<nat> {
    if s == 0 then TargetWords(ByteSize, m, x)
    else if s == 1 then TargetWords(WordSize, m, x)
    else if s == 2 then TargetWords(LongSize, m, x)
    else None
  }

  /** Words behind an opcode. */
  function Extensions(line: nat, b: nat, s: nat, m: nat, x: nat): Option<nat> {
    match line
    case 0 => ImmediateLine(b, s, m, x)
    case 1 => MoveLine(ByteSize, b, s, m, x)
    case 2 => MoveLine(LongSize, b, s, m, x)
    case 3 => MoveLine(WordSize, b, s, m, x)
    case 4 => MiscellaneousLine(b, s, m, x)
    case 5 => if s == 3 then (if m == 1 then Some(1) else TargetWords(ByteSize, m, x)) else SizedWords(s, m, x)
    case 6 => Some(if 0x40 * s + 8 * m + x == 0 then 1 else 0)
    case 7 => if b % 2 == 0 then Some(0) else None
    case 10 => None
    case 14 => if s < 3 then Some(0) else if b < 8 then TargetWords(WordSize, m, x) else None
    case 15 => None
    case _ =>
      if s < 3 then SizedWords(s, m, x)
      else TargetWords(if line % 2 == 1 && b % 2 == 1 then LongSize else WordSize, m, x)
  }

  function ImmediateLine(b: nat, s: nat, m: nat, x: nat): Option<nat> {
    if b % 2 == 1 then (if m == 1 then Some(1) else TargetWords(ByteSize, m, x))
    else if b == 8 then Added(1, TargetWords(ByteSize, m, x))
    else if b == 14 then None
    else if b in {0, 2, 10} && s < 2 && m == 7 && x == 4 then Some(1)
    else Added(if s == 2 then 2 else 1, SizedWords(s, m, x))
  }

  /** The destination has its two fields in the other order. */
  function MoveLine(size: Size, b: nat, s: nat, m: nat, x: nat): Option<nat> {
    match TargetWords(size, m, x)
    case Some(n) => Added(n, TargetWords(size, b % 2 * 4 + s, b / 2))
    case None => None
  }

  function MiscellaneousLine(b: nat, s: nat, m: nat, x: nat): Option<nat> {
    if b % 2 == 1 then
      if s == 3 then TargetWords(LongSize, m, x) else if s == 2 then TargetWords(WordSize, m, x) else None
    else match b
      case 0 => if s == 3 then TargetWords(WordSize, m, x) else SizedWords(s, m, x)
      case 2 => SizedWords(s, m, x)
      case 4 => if s == 3 then TargetWords(WordSize, m, x) else SizedWords(s, m, x)
      case 6 => if s == 3 then TargetWords(WordSize, m, x) else SizedWords(s, m, x)
      case 8 =>
        if s == 0 then TargetWords(ByteSize, m, x)
        else if s == 1 then TargetWords(LongSize, m, x)
        else if m == 0 then Some(0)
        else Added(1, TargetWords(if s == 3 then LongSize else WordSize, m, x))
      case 10 => if s == 3 then TargetWords(ByteSize, m, x) else SizedWords(s, m, x)
      case 12 => if s >= 2 then Added(1, TargetWords(if s == 3 then LongSize else WordSize, m, x)) else None
      case _ =>
        if s >= 2 then TargetWords(LongSize, m, x)
        else if s == 0 || m == 7 || (m == 6 && x in {2, 4}) then None
        else Some(if m == 2 then 1 else 0)
  }

  // ---------------------------------------------------------------- it is the decoder's

  /** What the decoder's patterns and fields are for an opcode. */
  lemma Groups(w: Word, line: nat, b: nat, s: nat, m: nat, x: nat)
    requires Composed(w, line, b, s, m, x)
    ensures w / 0x1000 == line && w / 0x100 % 0x10 == b
    ensures w / 0x10 % 0x10 == 4 * s + m / 2 && w % 0x10 == m % 2 * 8 + x
    ensures line < 16 && b < 16 && s < 4 && m < 8 && x < 8
    ensures SizeField(w)
            == if s == 0 then Some(ByteSize) else if s == 1 then Some(WordSize) else if s == 2 then Some(LongSize)
               else None
    ensures forall size :: Operand(w, size) == TargetWords(size, m, x)
    ensures SizedOperand(w) == SizedWords(s, m, x)
  {
    Digits(w, line, b, s, m, x);
    Fields(w, line, b, s, m, x);
    hide Bits;
  }

  lemma ZeroLine(w: Word, line: nat, b: nat, s: nat, m: nat, x: nat)
    requires Composed(w, line, b, s, m, x) && line == 0
    ensures ExtensionWords(w) == Extensions(line, b, s, m, x)
  {
    Groups(w, line, b, s, m, x);
    Fields(w, line, b, s, m, x);
    ZeroPatterns(w, line, b, s, m, x);
    FourPatterns(w, line, b, s, m, x);
    FourTailPatterns(w, line, b, s, m, x);
    MiddlePatterns(w, line, b, s, m, x);
    HighPatterns(w, line, b, s, m, x);
    hide Composed, Matches, Bits, Operand, SizedOperand, TargetWords, MoveLine, MiscellaneousLine, MoveWords;
  }

  lemma MoveFields(w: Word, line: nat, b: nat, s: nat, m: nat, x: nat)
    requires Composed(w, line, b, s, m, x)
    ensures forall size :: MoveWords(w, size) == MoveLine(size, b, s, m, x)
  {
    Fields(w, line, b, s, m, x);
    hide Composed, Bits, TargetWords, Added;
  }

  lemma NotSecond(w: Word, line: nat, b: nat, s: nat, m: nat, x: nat)
    requires Composed(w, line, b, s, m, x) && 1 <= line <= 3
    ensures SecondChain(w) == MoveGroup(w)
  {
    ZeroPatterns(w, line, b, s, m, x);
    FourPatterns(w, line, b, s, m, x);
    FourTailPatterns(w, line, b, s, m, x);
    MiddlePatterns(w, line, b, s, m, x);
    HighPatterns(w, line, b, s, m, x);
    hide Composed, Matches, Bits, Operand, SizedOperand, SizeField, Added, MoveGroup;
  }

  lemma MoveLines(w: Word, line: nat, b: nat, s: nat, m: nat, x: nat)
    requires Composed(w, line, b, s, m, x) && 1 <= line <= 3
    ensures ExtensionWords(w) == Extensions(line, b, s, m, x)
  {
    NotFirst(w, line, b, s, m, x);
    NotSecond(w, line, b, s, m, x);
    MoveIsMove(w, line, b, s, m, x);
    MoveFields(w, line, b, s, m, x);
    hide FirstChain, SecondChain, MoveGroup, MoveWords, MoveLine, ImmediateLine, MiscellaneousLine, SizedWords;
  }

  lemma MoveIsMove(w: Word, line: nat, b: nat, s: nat, m: nat, x: nat)
    requires Composed(w, line, b, s, m, x) && 1 <= line <= 3
    ensures MoveGroup(w)
            == MoveWords(w, if line == 1 then ByteSize else if line == 3 then WordSize else LongSize)
  {
    HighFields(w, line, b, s, m, x);
    assert Bits(w, 12, 2) == line;
    ZeroPatterns(w, line, b, s, m, x);
    hide Composed, Matches, Bits, MoveWords, Operand, Added;
  }

  lemma NotFirst(w: Word, line: nat, b: nat, s: nat, m: nat, x: nat)
    requires Composed(w, line, b, s, m, x) && line < 4
    ensures FirstChain(w) == None
  {
    FourPatterns(w, line, b, s, m, x);
    FourTailPatterns(w, line, b, s, m, x);
    MiddlePatterns(w, line, b, s, m, x);
    HighPatterns(w, line, b, s, m, x);
    hide Composed, Matches, Bits, Operand, SizedOperand;
  }

  lemma OddFour(w: Word, line: nat, b: nat, s: nat, m: nat, x: nat)
    requires Composed(w, line, b, s, m, x) && line == 4 && b % 2 == 1
    ensures ExtensionWords(w) == Extensions(line, b, s, m, x)
  {
    Groups(w, line, b, s, m, x);
    Fields(w, line, b, s, m, x);
    ZeroPatterns(w, line, b, s, m, x);
    FourPatterns(w, line, b, s, m, x);
    FourTailPatterns(w, line, b, s, m, x);
    MiddlePatterns(w, line, b, s, m, x);
    HighPatterns(w, line, b, s, m, x);
    hide Composed, Matches, Bits, Operand, SizedOperand, TargetWords, ImmediateLine, MoveLine, MoveWords;
  }

  lemma UnaryFour(w: Word, line: nat, b: nat, s: nat, m: nat, x: nat)
    requires Composed(w, line, b, s, m, x) && line == 4 && b % 2 == 0 && b < 8
    ensures ExtensionWords(w) == Extensions(line, b, s, m, x)
  {
    Groups(w, line, b, s, m, x);
    Fields(w, line, b, s, m, x);
    ZeroPatterns(w, line, b, s, m, x);
    FourPatterns(w, line, b, s, m, x);
    FourTailPatterns(w, line, b, s, m, x);
    MiddlePatterns(w, line, b, s, m, x);
    HighPatterns(w, line, b, s, m, x);
    hide Composed, Matches, Bits, Operand, SizedOperand, TargetWords, ImmediateLine, MoveLine, MoveWords;
    hide SizedWords, Added, SizeField;
  }

  lemma TargetWordsOfRegister(x: nat)
    ensures forall size, m :: m < 2 ==> TargetWords(size, m, x) == Some(0)
    ensures forall s, m :: s < 3 && m < 2 ==> SizedWords(s, m, x) == Some(0)
  {
  }

  lemma EightFour(w: Word, line: nat, b: nat, s: nat, m: nat, x: nat)
    requires Composed(w, line, b, s, m, x) && line == 4 && b == 8
    ensures ExtensionWords(w) == Extensions(line, b, s, m, x)
  {
    TargetWordsOfRegister(x);
    Groups(w, line, b, s, m, x);
    Fields(w, line, b, s, m, x);
    ZeroPatterns(w, line, b, s, m, x);
    FourPatterns(w, line, b, s, m, x);
    FourTailPatterns(w, line, b, s, m, x);
    MiddlePatterns(w, line, b, s, m, x);
    HighPatterns(w, line, b, s, m, x);
    hide Composed, Matches, Bits, Operand, SizedOperand, TargetWords, ImmediateLine, MoveLine, MoveWords;
    hide SizedWords, SizeField;
  }

  lemma HighFour(w: Word, line: nat, b: nat, s: nat, m: nat, x: nat)
    requires Composed(w, line, b, s, m, x) && line == 4 && (b == 10 || b == 12)
    ensures ExtensionWords(w) == Extensions(line, b, s, m, x)
  {
    Groups(w, line, b, s, m, x);
    Fields(w, line, b, s, m, x);
    ZeroPatterns(w, line, b, s, m, x);
    FourPatterns(w, line, b, s, m, x);
    FourTailPatterns(w, line, b, s, m, x);
    MiddlePatterns(w, line, b, s, m, x);
    HighPatterns(w, line, b, s, m, x);
    hide Composed, Matches, Bits, Operand, SizedOperand, TargetWords, ImmediateLine, MoveLine, MoveWords;
    hide SizedWords, SizeField;
  }

  lemma FourTail(w: Word, line: nat, b: nat, s: nat, m: nat, x: nat)
    requires Composed(w, line, b, s, m, x) && line == 4 && b == 14
    ensures ExtensionWords(w) == Extensions(line, b, s, m, x)
  {
    Groups(w, line, b, s, m, x);
    Fields(w, line, b, s, m, x);
    ZeroPatterns(w, line, b, s, m, x);
    FourPatterns(w, line, b, s, m, x);
    FourTailPatterns(w, line, b, s, m, x);
    MiddlePatterns(w, line, b, s, m, x);
    HighPatterns(w, line, b, s, m, x);
    hide Composed, Matches, Bits, Operand, SizedOperand, TargetWords, ImmediateLine, MoveLine, MoveWords;
  }

  lemma BranchLine(w: Word, line: nat, b: nat, s: nat, m: nat, x: nat)
    requires Composed(w, line, b, s, m, x) && line == 6
    ensures ExtensionWords(w) == Some(if s == 0 && m == 0 && x == 0 then 1 else 0) == Extensions(line, b, s, m, x)
  {
    Fields(w, line, b, s, m, x);
    FourPatterns(w, line, b, s, m, x);
    FourTailPatterns(w, line, b, s, m, x);
    MiddlePatterns(w, line, b, s, m, x);
    HighPatterns(w, line, b, s, m, x);
    hide Composed, Matches, Bits, Operand, SizedOperand, TargetWords, SecondChain, ImmediateLine, MoveLine;
    hide MiscellaneousLine, SizedWords;
  }

  lemma MiddleLines(w: Word, line: nat, b: nat, s: nat, m: nat, x: nat)
    requires Composed(w, line, b, s, m, x) && line in {5, 7, 10, 14, 15}
    ensures ExtensionWords(w) == Extensions(line, b, s, m, x)
  {
    Groups(w, line, b, s, m, x);
    Fields(w, line, b, s, m, x);
    ZeroPatterns(w, line, b, s, m, x);
    FourPatterns(w, line, b, s, m, x);
    FourTailPatterns(w, line, b, s, m, x);
    MiddlePatterns(w, line, b, s, m, x);
    HighPatterns(w, line, b, s, m, x);
    hide Composed, Matches, Bits, Operand, SizedOperand, TargetWords, ImmediateLine, MoveLine;
    hide MiscellaneousLine, MoveWords, SizedWords, SizeField, Added;
  }

  lemma ShortLines(w: Word, line: nat, b: nat, s: nat, m: nat, x: nat)
    requires Composed(w, line, b, s, m, x) && line in {8, 9, 11, 12, 13} && s < 3 && b % 2 == 1 && m < 2
    ensures ExtensionWords(w) == Extensions(line, b, s, m, x)
  {
    TargetWordsOfRegister(x);
    Groups(w, line, b, s, m, x);
    Fields(w, line, b, s, m, x);
    ZeroPatterns(w, line, b, s, m, x);
    FourPatterns(w, line, b, s, m, x);
    FourTailPatterns(w, line, b, s, m, x);
    MiddlePatterns(w, line, b, s, m, x);
    HighPatterns(w, line, b, s, m, x);
    hide Composed, Matches, Bits, Operand, SizedOperand, TargetWords, ImmediateLine, MoveLine;
    hide MiscellaneousLine, MoveGroup, SizedWords, Added, SizeField;
  }

  lemma LogicLines(w: Word, line: nat, b: nat, s: nat, m: nat, x: nat)
    requires Composed(w, line, b, s, m, x) && (line == 8 || line == 12) && s < 3 && !(b % 2 == 1 && m < 2)
    ensures ExtensionWords(w) == Extensions(line, b, s, m, x)
  {
    Groups(w, line, b, s, m, x);
    Fields(w, line, b, s, m, x);
    ZeroPatterns(w, line, b, s, m, x);
    FourPatterns(w, line, b, s, m, x);
    FourTailPatterns(w, line, b, s, m, x);
    MiddlePatterns(w, line, b, s, m, x);
    HighPatterns(w, line, b, s, m, x);
    hide Composed, Matches, Bits, Operand, SizedOperand, TargetWords, ImmediateLine, MoveLine;
    hide MiscellaneousLine, MoveGroup, SizedWords, Added, SizeField;
  }

  lemma SizedLines(w: Word, line: nat, b: nat, s: nat, m: nat, x: nat)
    requires Composed(w, line, b, s, m, x) && line in {9, 11, 13} && s < 3 && !(b % 2 == 1 && m < 2)
    ensures ExtensionWords(w) == Extensions(line, b, s, m, x)
  {
    Groups(w, line, b, s, m, x);
    Fields(w, line, b, s, m, x);
    ZeroPatterns(w, line, b, s, m, x);
    FourPatterns(w, line, b, s, m, x);
    FourTailPatterns(w, line, b, s, m, x);
    MiddlePatterns(w, line, b, s, m, x);
    HighPatterns(w, line, b, s, m, x);
    hide Composed, Matches, Bits, Operand, SizedOperand, TargetWords, ImmediateLine, MoveLine;
    hide MiscellaneousLine, MoveGroup, SizedWords, Added, SizeField;
  }

  lemma AddressLines(w: Word, line: nat, b: nat, s: nat, m: nat, x: nat)
    requires Composed(w, line, b, s, m, x) && line in {8, 9, 11, 12, 13} && s == 3
    ensures ExtensionWords(w) == Extensions(line, b, s, m, x)
  {
    Groups(w, line, b, s, m, x);
    Fields(w, line, b, s, m, x);
    ZeroPatterns(w, line, b, s, m, x);
    FourPatterns(w, line, b, s, m, x);
    FourTailPatterns(w, line, b, s, m, x);
    MiddlePatterns(w, line, b, s, m, x);
    HighPatterns(w, line, b, s, m, x);
    hide Composed, Matches, Bits, Operand, SizedOperand, TargetWords, ImmediateLine, MoveLine;
    hide MiscellaneousLine, MoveGroup, SizedWords, Added, SizeField;
  }

  /** Trying the patterns in their order gives the opcode map. */
  lemma PatternsAreTheMap(w: Word, line: nat, b: nat, s: nat, m: nat, x: nat)
    requires Composed(w, line, b, s, m, x)
    ensures ExtensionWords(w) == Extensions(line, b, s, m, x)
  {
    hide ExtensionWords, Extensions;
    if line == 0 {
      ZeroLine(w, line, b, s, m, x);
    } else if line <= 3 {
      MoveLines(w, line, b, s, m, x);
    } else if line == 4 {
      if b % 2 == 1 {
        OddFour(w, line, b, s, m, x);
      } else if b == 14 {
        FourTail(w, line, b, s, m, x);
      } else if b < 8 {
        UnaryFour(w, line, b, s, m, x);
      } else if b == 8 {
        EightFour(w, line, b, s, m, x);
      } else {
        HighFour(w, line, b, s, m, x);
      }
    } else if line in {8, 9, 11, 12, 13} {
      if s < 3 && b % 2 == 1 && m < 2 {
        ShortLines(w, line, b, s, m, x);
      } else if s < 3 && (line == 8 || line == 12) {
        LogicLines(w, line, b, s, m, x);
      } else if s < 3 {
        SizedLines(w, line, b, s, m, x);
      } else {
        AddressLines(w, line, b, s, m, x);
      }
    } else if line == 6 {
      BranchLine(w, line, b, s, m, x);
    } else {
      MiddleLines(w, line, b, s, m, x);
    }
  }
}
