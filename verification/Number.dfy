/** The integer printer `number` of lib/vsprintf.c and its reader skip_atoi.

    `num` is an unsigned 32-bit word, so the test for a negative number in the code never succeeds and
    no minus sign is ever printed. */
module Numbers {
  import opened Basics
  import opened Sequences

  const WORD := 0x1_0000_0000
  const HALF := 0x8000_0000

  /** The flag bits ZEROPAD, SIGN, PLUS, SPACE, LEFT, SPECIAL and SMALL. */
  datatype Flags = Flags(zeroPad: bool, sign: bool, plus: bool, space: bool, left: bool, special: bool, small: bool)

  // ---------------------------------------------------------------- digits

  /** An entry of the digit table. */
  function DigitChar(d: nat, small: bool): char
    requires d < 36
  {
    if d < 10 then '0' + d as char else if small then 'a' + (d - 10) as char else 'A' + (d - 10) as char
  }

  /** The value of a digit of either table; other characters have none. */
  function DigitValue(c: char): Option<nat> {
    if '0' <= c <= '9' then Some(c as nat - '0' as nat)
    else if 'a' <= c <= 'z' then Some(c as nat - 'a' as nat + 10)
    else if 'A' <= c <= 'Z' then Some(c as nat - 'A' as nat + 10)
    else None
  }

  lemma DigitCharValue(d: nat, small: bool)
    requires d < 36
    ensures DigitValue(DigitChar(d, small)) == Some(d)
    ensures DigitChar(d, small) != ' ' && DigitChar(d, small) != '+' && DigitChar(d, small) != '-'
  {}

  /** The digits of a positive number, most significant first; none for zero. */
  function DigitsOf(num: nat, base: nat, small: bool): string
    requires 2 <= base <= 36
  {
    if num == 0 then "" else DigitsOf(num / base, base, small) + [DigitChar(num % base, small)]
  }

  function DigitString(num: nat, base: nat, small: bool): (r: string)
    requires 2 <= base <= 36
    ensures |r| > 0
  {
    if num == 0 then "0" else DigitsOf(num, base, small)
  }

  /** The value of a string of digits. */
  function Value(s: string, base: nat): int {
    if s == "" then 0
    else
      var d := DigitValue(s[|s| - 1]);
      Value(s[..|s| - 1], base) * base + (if d.Some? then d.value else 0)
  }

  predicate AllDigits(s: string) {
    forall i :: 0 <= i < |s| ==> DigitValue(s[i]).Some?
  }

  lemma DivMod(num: nat, base: nat)
    requires base >= 2
    ensures num == num / base * base + num % base && num / base >= 0 && (num > 0 ==> num / base < num)
  {}

  lemma ValueSnoc(s: string, c: char, base: nat)
    requires DigitValue(c).Some?
    ensures Value(s + [c], base) == Value(s, base) * base + DigitValue(c).value
    ensures AllDigits(s) ==> AllDigits(s + [c])
  {
    assert (s + [c])[..|s|] == s;
  }

  /** The digits evaluate to the number. */
  lemma {:induction false} DigitsEvaluate(num: nat, base: nat, small: bool)
    requires 2 <= base <= 36
    ensures Value(DigitsOf(num, base, small), base) == num && AllDigits(DigitsOf(num, base, small))
  {
    if num > 0 {
      DivMod(num, base);
      DigitsEvaluate(num / base, base, small);
      DigitCharValue(num % base, small);
      ValueSnoc(DigitsOf(num / base, base, small), DigitChar(num % base, small), base);
      hide Value, DigitValue, DigitChar, AllDigits;
    }
  }

  lemma DigitStringEvaluates(num: nat, base: nat, small: bool)
    requires 2 <= base <= 36
    ensures Value(DigitString(num, base, small), base) == num && AllDigits(DigitString(num, base, small))
  {
    if num == 0 {
      assert "0"[..0] == "";
    } else {
      DigitsEvaluate(num, base, small);
    }
  }

  // ---------------------------------------------------------------- the layout

  function Fill(c: char, n: int): (r: string)
    ensures |r| == if n < 0 then 0 else n
    ensures forall i :: 0 <= i < |r| ==> r[i] == c
  {
    if n <= 0 then "" else Fill(c, n - 1) + [c]
  }

  function SignPart(f: Flags): string {
    if f.plus then "+" else if f.space then " " else ""
  }

  function Prefix(base: nat, f: Flags): string {
    if !f.special then ""
    else if base == 8 then "0"
    else if base == 16 then ['0', DigitChar(33, f.small)]
    else ""
  }

  function Max(a: int, b: int): int {
    if a > b then a else b
  }

  /** The digits with the zeros the precision asks for. */
  function Padded(num: nat, base: nat, precision: int, small: bool): string
    requires 2 <= base <= 36
  {
    var digits := DigitString(num, base, small);
    Fill('0', precision - |digits|) + digits
  }

  /** The field: blanks in front, or zeros behind sign and prefix, or blanks at the end when LEFT is set. */
  function Layout(num: nat, base: nat, size: int, precision: int, f: Flags): string
    requires 2 <= base <= 36
  {
    var front := SignPart(f) + Prefix(base, f);
    var body := Padded(num, base, precision, f.small);
    var room := size - |front| - |body|;
    if f.left then front + body + Fill(' ', room)
    else if f.zeroPad then front + Fill('0', room) + body
    else Fill(' ', room) + front + body
  }

  /** The text is exactly as wide as the wider of the field and what has to go into it. */
  lemma LayoutLength(num: nat, base: nat, size: int, precision: int, f: Flags)
    requires 2 <= base <= 36
    ensures |Layout(num, base, size, precision, f)| ==
      Max(size, |SignPart(f)| + |Prefix(base, f)| + Max(precision, |DigitString(num, base, f.small)|))
  {}

  // ---------------------------------------------------------------- reading the text back

  function SkipBlanks(s: string): string {
    if s != "" && s[0] == ' ' then SkipBlanks(s[1..]) else s
  }

  /** The leading characters that are digits. */
  function LeadingDigits(s: string): string {
    if s == "" || DigitValue(s[0]).None? then "" else [s[0]] + LeadingDigits(s[1..])
  }

  /** Strip blanks, a plus sign and the 0x prefix, then evaluate the digits. */
  function Decode(s: string, base: nat, f: Flags): int {
    var t := SkipBlanks(s);
    var u := if t != "" && t[0] == '+' then t[1..] else t;
    var v := if f.special && base == 16 && |u| >= 2 then u[2..] else u;
    Value(LeadingDigits(v), base)
  }

  lemma {:induction false} SkipsFill(n: int, s: string)
    ensures SkipBlanks(Fill(' ', n) + s) == SkipBlanks(s)
  {
    if n > 0 {
      var f := Fill(' ', n);
      assert (f + s)[0] == ' ';
      FillTail(' ', n);
      assert (f + s)[1..] == f[1..] + s;
      SkipsFill(n - 1, s);
    } else {
      assert Fill(' ', n) + s == s;
    }
  }

  lemma FillTail(c: char, n: int)
    requires n > 0
    ensures Fill(c, n)[1..] == Fill(c, n - 1)
  {}

  lemma {:induction false} LeadingDigitsOf(d: string, rest: string)
    requires AllDigits(d) && (rest == "" || DigitValue(rest[0]).None?)
    ensures LeadingDigits(d + rest) == d
  {
    if d == "" {
      assert d + rest == rest;
    } else {
      assert (d + rest)[1..] == d[1..] + rest;
      LeadingDigitsOf(d[1..], rest);
    }
  }

  lemma {:induction false} LeadingZeros(n: int, d: string, base: nat)
    ensures Value(Fill('0', n) + d, base) == Value(d, base)
    decreases |d|, if n > 0 then n else 0
  {
    var s := Fill('0', n) + d;
    if d != "" {
      LeadingZeros(n, d[..|d| - 1], base);
      assert s[..|s| - 1] == Fill('0', n) + d[..|d| - 1];
    } else if n > 0 {
      LeadingZeros(n - 1, "", base);
      assert s[..|s| - 1] == Fill('0', n - 1) + "";
      assert DigitValue('0') == Some(0);
    }
  }

  lemma FillZerosAreDigits(n: int, d: string)
    requires AllDigits(d)
    ensures AllDigits(Fill('0', n) + d)
  {
    assert DigitValue('0') == Some(0);
  }

  /** The digits with their leading zeros still evaluate to the number. */
  lemma PaddedEvaluates(num: nat, base: nat, precision: int, small: bool, more: int)
    requires 2 <= base <= 36
    ensures var body := Padded(num, base, precision, small);
      && body != "" && AllDigits(body) && Value(body, base) == num
      && AllDigits(Fill('0', more) + body) && Value(Fill('0', more) + body, base) == num
  {
    var digits := DigitString(num, base, small);
    DigitStringEvaluates(num, base, small);
    FillZerosAreDigits(precision - |digits|, digits);
    LeadingZeros(precision - |digits|, digits, base);
    var body := Padded(num, base, precision, small);
    FillZerosAreDigits(more, body);
    LeadingZeros(more, body, base);
    hide Value, AllDigits, Fill;
  }

  /** Printing inverts: stripping padding, sign and prefix and evaluating what follows gives the number. */
  lemma PrintingInverts(num: nat, base: nat, size: int, precision: int, f: Flags)
    requires 2 <= base <= 36
    ensures Decode(Layout(num, base, size, precision, f), base, f) == num
  {
    hide Value, AllDigits, Fill, SignPart, Prefix, Padded, LeadingDigits, SkipBlanks, DigitValue;
    var front := SignPart(f) + Prefix(base, f);
    var body := Padded(num, base, precision, f.small);
    var room := size - |front| - |body|;
    PaddedEvaluates(num, base, precision, f.small, room);
    if f.left {
      DecodeFront(base, f, body, Fill(' ', room));
      assert front + body + Fill(' ', room) == front + (body + Fill(' ', room));
    } else if f.zeroPad {
      DecodeFront(base, f, Fill('0', room) + body, "");
      assert front + Fill('0', room) + body == front + (Fill('0', room) + body + "");
    } else {
      DecodeFront(base, f, body, "");
      SkipsFill(room, front + body);
      assert Fill(' ', room) + front + body == Fill(' ', room) + (front + body);
      assert front + body == front + (body + "");
    }
  }

  /** Decoding sign, prefix and a string of digits followed by blanks or nothing. */
  lemma DecodeFront(base: nat, f: Flags, digits: string, rest: string)
    requires AllDigits(digits) && digits != "" && (rest == "" || rest[0] == ' ')
    ensures Decode(SignPart(f) + Prefix(base, f) + (digits + rest), base, f) == Value(digits, base)
  {
    hide Value, AllDigits, LeadingDigits, DigitValue, Prefix, SignPart, Decode;
    var marked := Prefix(base, f) + (digits + rest);
    DecodePrefix(base, f, digits, rest);
    DecodeSign(f, marked, base);
    assert SignPart(f) + Prefix(base, f) + (digits + rest) == SignPart(f) + marked;
  }

  /** Blanks and sign are stripped from what follows them, which starts with neither. */
  lemma DecodeSign(f: Flags, marked: string, base: nat)
    requires marked != "" && DigitValue(marked[0]).Some?
    ensures Decode(SignPart(f) + marked, base, f) ==
      Value(LeadingDigits(if f.special && base == 16 && |marked| >= 2 then marked[2..] else marked), base)
  {
    assert DigitValue(' ').None? && DigitValue('+').None?;
    var s := SignPart(f) + marked;
    hide Value, LeadingDigits, DigitValue;
    assert SkipBlanks(marked) == marked;
    if f.plus {
      assert s[0] == '+' && s[1..] == marked;
    } else if f.space {
      assert s[1..] == marked;
    } else {
      assert s == marked;
    }
  }

  lemma DecodePrefix(base: nat, f: Flags, digits: string, rest: string)
    requires AllDigits(digits) && digits != "" && (rest == "" || rest[0] == ' ')
    ensures var marked := Prefix(base, f) + (digits + rest);
      && marked != "" && DigitValue(marked[0]).Some?
      && Value(LeadingDigits(if f.special && base == 16 && |marked| >= 2 then marked[2..] else marked), base)
         == Value(digits, base)
  {
    var tail := digits + rest;
    var marked := Prefix(base, f) + tail;
    assert DigitValue(' ').None? && DigitValue('0') == Some(0);
    assert tail[0] == digits[0];
    LeadingDigitsOf(digits, rest);
    if f.special && base == 16 {
      assert marked[2..] == tail;
    } else if f.special && base == 8 {
      LeadingDigitsOf("0" + digits, rest);
      assert marked == "0" + digits + rest;
      LeadingZeros(1, digits, base);
      assert Fill('0', 1) == "0";
    } else {
      assert marked == tail;
    }
    hide Value, LeadingDigits, DigitValue;
  }

  // ---------------------------------------------------------------- skip_atoi

  predicate IsDigit(c: char) {
    '0' <= c <= '9'
  }

  function ToInt32(x: int): int {
    var m := x % WORD;
    if m < HALF then m else m - WORD
  }

  function DecimalPrefix(s: string): string {
    if s == "" || !IsDigit(s[0]) then "" else [s[0]] + DecimalPrefix(s[1..])
  }

  /** skip_atoi from an accumulator, in 32-bit arithmetic. */
  function Atoi(s: string, acc: int): (int, string) {
    if s == "" || !IsDigit(s[0]) then (acc, s)
    else Atoi(s[1..], ToInt32(acc * 10 + (s[0] as int - '0' as int)))
  }

  lemma ToInt32Absorbs(a: int, b: int)
    ensures ToInt32(ToInt32(a) * 10 + b) == ToInt32(a * 10 + b)
    ensures ToInt32(ToInt32(a)) == ToInt32(a)
  {}

  predicate Decimal(s: string) {
    forall i :: 0 <= i < |s| ==> IsDigit(s[i])
  }

  /** skip_atoi reads a run of decimal digits modulo 2^32 and stops behind it. */
  lemma {:induction false} AtoiReads(d: string, rest: string, acc: string)
    requires Decimal(d) && Decimal(acc) && (rest == "" || !IsDigit(rest[0]))
    ensures Atoi(d + rest, ToInt32(Value(acc, 10))) == (ToInt32(Value(acc + d, 10)), rest)
    decreases |d|
  {
    if d == "" {
      assert d + rest == rest && acc + d == acc;
    } else {
      var next := acc + [d[0]];
      assert next[..|next| - 1] == acc;
      assert (d + rest)[1..] == d[1..] + rest;
      assert acc + d == next + d[1..];
      ToInt32Absorbs(Value(acc, 10), d[0] as int - '0' as int);
      AtoiReads(d[1..], rest, next);
    }
  }

  lemma {:induction false} DecimalDigits(num: nat, small: bool)
    ensures Decimal(DigitsOf(num, 10, small))
  {
    if num > 0 {
      DecimalDigits(num / 10, small);
    }
  }

  lemma Signed(num: nat)
    requires num < WORD
    ensures ToInt32(num) == (if num < HALF then num else num - WORD) && ToInt32(0) == 0
  {}

  /** skip_atoi of a decimal number reads it back exactly if it is below 2^31; for every 32-bit word it
      gives the signed integer of the same bits. */
  lemma AtoiOfDecimal(num: nat, small: bool, rest: string)
    requires num < WORD && (rest == "" || !('0' <= rest[0] <= '9'))
    ensures Atoi(DigitString(num, 10, small) + rest, 0) == (if num < HALF then num else num - WORD, rest)
  {
    var d := DigitString(num, 10, small);
    DecimalDigits(num, small);
    DigitStringEvaluates(num, 10, small);
    assert Decimal(d);
    Signed(num);
    assert Value("", 10) == 0;
    hide DigitString, Atoi, Decimal, AllDigits, Value, ToInt32;
    AtoiReads(d, rest, "");
    assert "" + d == d;
  }

  // ---------------------------------------------------------------- the text, character by character

  /** The digit tables are these. */
  lemma DigitTables(d: nat)
    requires d < 36
    ensures DigitChar(d, false) == "0123456789ABCDEFGHIJKLMNOPQRSTUVWXYZ"[d]
    ensures DigitChar(d, true) == "0123456789abcdefghijklmnopqrstuvwxyz"[d]
  {}

  /** A character of the table for small or capital letters that stands for less than `base`. */
  predicate Figure(c: char, base: nat, small: bool) {
    || ('0' <= c <= '9' && c as int - '0' as int < base)
    || (small && 'a' <= c <= 'z' && c as int - 'a' as int + 10 < base)
    || (!small && 'A' <= c <= 'Z' && c as int - 'A' as int + 10 < base)
  }

  /** s is the number in this base, without leading zeros, in these figures. */
  predicate Numeral(s: string, num: nat, base: nat, small: bool) {
    && s != "" && (|s| > 1 ==> s[0] != '0') && Value(s, base) == num
    && forall k :: 0 <= k < |s| ==> Figure(s[k], base, small)
  }

  lemma {:induction false} DigitsAreFigures(num: nat, base: nat, small: bool)
    requires 2 <= base <= 36
    ensures num > 0 ==> |DigitsOf(num, base, small)| > 0 && DigitsOf(num, base, small)[0] != '0'
    ensures forall k :: 0 <= k < |DigitsOf(num, base, small)| ==> Figure(DigitsOf(num, base, small)[k], base, small)
  {
    if num > 0 {
      DivMod(num, base);
      DigitsAreFigures(num / base, base, small);
      assert num % base > 0 || num / base > 0;
    }
  }

  lemma DigitStringIsNumeral(num: nat, base: nat, small: bool)
    requires 2 <= base <= 36
    ensures Numeral(DigitString(num, base, small), num, base, small)
  {
    DigitStringEvaluates(num, base, small);
    DigitsAreFigures(num, base, small);
    hide Value, DigitsOf;
  }

  lemma FigureValue(c: char, base: nat, small: bool)
    requires Figure(c, base, small)
    ensures DigitValue(c).Some? && DigitValue(c).value < base
    ensures forall d: char :: Figure(d, base, small) && DigitValue(d) == DigitValue(c) ==> d == c
    ensures DigitValue(c).value == 0 ==> c == '0'
  {}

  /** Without leading zeros only the empty string and "0" are worth nothing. */
  lemma {:induction false} WorthNothing(s: string, base: nat, small: bool)
    requires base >= 2 && s != "" && s[0] != '0' && forall k :: 0 <= k < |s| ==> Figure(s[k], base, small)
    ensures Value(s, base) > 0
  {
    var rest := s[..|s| - 1];
    FigureValue(s[|s| - 1], base, small);
    FigureValue(s[0], base, small);
    hide Figure, DigitValue;
    if rest != "" {
      WorthNothing(rest, base, small);
      AtLeastOnce(Value(rest, base), base);
    }
  }

  lemma LastFigure(s: string, t: string, base: nat, small: bool)
    requires base >= 2 && s != "" && t != "" && Value(s, base) == Value(t, base)
    requires forall k :: 0 <= k < |s| ==> Figure(s[k], base, small)
    requires forall k :: 0 <= k < |t| ==> Figure(t[k], base, small)
    ensures s[|s| - 1] == t[|t| - 1] && Value(s[..|s| - 1], base) == Value(t[..|t| - 1], base)
  {
    FigureValue(s[|s| - 1], base, small);
    FigureValue(t[|t| - 1], base, small);
    SameQuotient(Value(s[..|s| - 1], base), DigitValue(s[|s| - 1]).value, Value(t[..|t| - 1], base),
                 DigitValue(t[|t| - 1]).value, base);
  }

  lemma SameQuotient(a: int, b: int, c: int, d: int, base: nat)
    requires base > 0 && a * base + b == c * base + d && 0 <= b < base && 0 <= d < base
    ensures a == c && b == d
  {
    if a < c {
      AtLeastOnce(c - a, base);
      Difference(c, a, base);
    } else if a > c {
      AtLeastOnce(a - c, base);
      Difference(a, c, base);
    }
  }

  lemma AtLeastOnce(k: int, base: int)
    requires k >= 1 && base > 0
    ensures k * base >= base
  {}

  lemma Difference(a: int, b: int, base: int)
    ensures (a - b) * base == a * base - b * base
  {}

  /** A number has one numeral in each base and table. */
  lemma {:induction false} NumeralUnique(s: string, t: string, base: nat, small: bool)
    requires base >= 2 && Value(s, base) == Value(t, base)
    requires (s != "" ==> s[0] != '0') && (t != "" ==> t[0] != '0')
    requires forall k :: 0 <= k < |s| ==> Figure(s[k], base, small)
    requires forall k :: 0 <= k < |t| ==> Figure(t[k], base, small)
    ensures s == t
    decreases |s|
  {
    if s == "" || t == "" {
      if s != "" {
        WorthNothing(s, base, small);
      } else if t != "" {
        WorthNothing(t, base, small);
      }
    } else {
      LastFigure(s, t, base, small);
      NumeralUnique(s[..|s| - 1], t[..|t| - 1], base, small);
      assert s == s[..|s| - 1] + [s[|s| - 1]] && t == t[..|t| - 1] + [t[|t| - 1]];
    }
  }

  /** The text is blanks, sign, mark, zeros, numeral, blanks: the sign is a plus sign or a blank, the plus sign first;
      the mark tells octal from hexadecimal, in the letters of the figures; the precision asks for zeros; what the field
      has left over is blanks behind, or zeros, or blanks in front. */
  lemma TextIs(num: nat, base: nat, size: int, precision: int, f: Flags)
    returns (front: nat, zeros: nat, digits: string, behind: nat)
    requires 2 <= base <= 36
    ensures Numeral(digits, num, base, f.small)
    ensures var sign := if f.plus then "+" else if f.space then " " else "";
      var mark := if f.special && base == 8 then "0" else if f.special && base == 16 then (if f.small then "0x" else "0X") else "";
      var wanted := if precision > |digits| then precision - |digits| else 0;
      var used := |sign| + |mark| + wanted + |digits|;
      var over := if size > used then size - used else 0;
      && front == (if f.left || f.zeroPad then 0 else over)
      && behind == (if f.left then over else 0)
      && zeros == wanted + (if f.zeroPad && !f.left then over else 0)
      && Layout(num, base, size, precision, f)
           == Fill(' ', front) + sign + mark + Fill('0', zeros) + digits + Fill(' ', behind)
  {
    hide Numeral, DigitString, Layout, Pieces, Fill;
    digits := DigitString(num, base, f.small);
    DigitStringIsNumeral(num, base, f.small);
    Marks(base, f);
    hide SignPart, Prefix, DigitChar;
    var sign, mark := SignPart(f), Prefix(base, f);
    var wanted := if precision > |digits| then precision - |digits| else 0;
    var width := size - |sign| - |mark| - wanted - |digits|;
    var over := if width > 0 then width else 0;
    front := if f.left || f.zeroPad then 0 else over;
    behind := if f.left then over else 0;
    zeros := wanted + (if f.zeroPad && !f.left then over else 0);
    PiecesMakeLayout(num, base, size, precision, f, width, wanted);
    PiecesAre(f, width, sign, mark, wanted, digits);
  }

  lemma Marks(base: nat, f: Flags)
    ensures SignPart(f) == if f.plus then "+" else if f.space then " " else ""
    ensures Prefix(base, f) == if f.special && base == 8 then "0"
      else if f.special && base == 16 then (if f.small then "0x" else "0X") else ""
  {}

  /** The pieces in one order, some of them empty. */
  lemma PiecesAre(f: Flags, width: int, sign: string, mark: string, wanted: nat, digits: string)
    ensures var over := if width > 0 then width else 0;
      Pieces(f, width, sign, mark, Fill('0', wanted), digits)
        == Fill(' ', if f.left || f.zeroPad then 0 else over) + sign + mark
           + Fill('0', wanted + if f.zeroPad && !f.left then over else 0) + digits + Fill(' ', if f.left then over else 0)
  {
    var over := if width > 0 then width else 0;
    FillClamp(' ', over, width);
    FillClamp('0', over, width);
    FillTogether('0', over, wanted);
    assert Fill(' ', 0) == "";
    hide Fill;
    SomeEmpty(sign, mark, Fill('0', over), Fill('0', wanted), digits, Fill(' ', over));
  }

  lemma SomeEmpty(s: string, m: string, o: string, z: string, d: string, b: string)
    ensures "" + s + m + z + d + b == s + m + z + d + b
    ensures "" + s + m + (o + z) + d + "" == s + m + o + z + d
    ensures b + s + m + z + d + "" == b + s + m + z + d
  {
    assert "" + s == s;
    assert s + m + (o + z) == s + m + o + z;
  }

  lemma {:induction false} FillTogether(c: char, n: nat, m: nat)
    ensures Fill(c, n) + Fill(c, m) == Fill(c, n + m)
  {
    if m > 0 {
      FillTogether(c, n, m - 1);
      assert Fill(c, n) + Fill(c, m) == (Fill(c, n) + Fill(c, m - 1)) + [c];
    } else {
      assert Fill(c, n) + "" == Fill(c, n);
    }
  }

  // ---------------------------------------------------------------- negative numbers

  /** Reading a text with a sign of either kind. */
  function DecodeSigned(s: string, base: nat, f: Flags): int {
    var t := SkipBlanks(s);
    if t != "" && t[0] == '-' then -Decode(t[1..], base, f) else Decode(s, base, f)
  }

  predicate NoMinus(s: string) {
    forall i :: 0 <= i < |s| ==> s[i] != '-'
  }

  lemma {:induction false} SkipBlanksNoMinus(s: string)
    requires NoMinus(s)
    ensures NoMinus(SkipBlanks(s))
  {
    if s != "" && s[0] == ' ' {
      SkipBlanksNoMinus(s[1..]);
    }
  }

  /** No text that is printed holds a minus sign. */
  lemma NeverMinus(num: nat, base: nat, size: int, precision: int, f: Flags)
    requires 2 <= base <= 36
    ensures NoMinus(Layout(num, base, size, precision, f))
  {
    DigitStringEvaluates(num, base, f.small);
    assert DigitValue('-').None?;
    hide DigitString, Value, DigitValue;
    var front, body := SignPart(f) + Prefix(base, f), Padded(num, base, precision, f.small);
    var room := size - |front| - |body|;
    NoMinusJoined(Fill('0', precision - |DigitString(num, base, f.small)|), DigitString(num, base, f.small));
    NoMinusJoined(SignPart(f), Prefix(base, f));
    NoMinusJoined(front, body);
    NoMinusJoined(front, Fill('0', room));
    hide NoMinus;
    if f.left {
      NoMinusJoined(front + body, Fill(' ', room));
    } else if f.zeroPad {
      NoMinusJoined(front + Fill('0', room), body);
    } else {
      NoMinusJoined(Fill(' ', room), front);
      NoMinusJoined(Fill(' ', room) + front, body);
    }
  }

  lemma NoMinusJoined(a: string, b: string)
    ensures NoMinus(a) && NoMinus(b) ==> NoMinus(a + b)
  {}

  /** The text of a word that stands for a signed number reads as that number if and only if it is not negative,
      whatever the flags: SIGN has no effect. */
  lemma NegativesPrintUnsigned(num: nat, base: nat, size: int, precision: int, f: Flags)
    requires 2 <= base <= 36 && num < WORD
    ensures DecodeSigned(Layout(num, base, size, precision, f), base, f) == ToInt32(num) <==> num < HALF
  {
    PrintingInverts(num, base, size, precision, f);
    NeverMinus(num, base, size, precision, f);
    SkipBlanksNoMinus(Layout(num, base, size, precision, f));
    Signed(num);
    hide Layout, Decode, SkipBlanks, ToInt32;
  }

  /** The word of -1, as %d passes it on. */
  lemma MinusOne()
    ensures ToInt32(0xFFFF_FFFF) == -1
    ensures Layout(0xFFFF_FFFF, 10, -1, -1, Flags(false, true, false, false, false, false, false)) == "4294967295"
  {
    hide Layout, DigitsOf, ToInt32;
    Signed(0xFFFF_FFFF);
    OneDigit();
    OneMoreDigit(4, "4", 2, "42");
    OneMoreDigit(42, "42", 9, "429");
    OneMoreDigit(429, "429", 4, "4294");
    OneMoreDigit(4294, "4294", 9, "42949");
    OneMoreDigit(42949, "42949", 6, "429496");
    OneMoreDigit(429496, "429496", 7, "4294967");
    OneMoreDigit(4294967, "4294967", 2, "42949672");
    OneMoreDigit(42949672, "42949672", 9, "429496729");
    OneMoreDigit(429496729, "429496729", 5, "4294967295");
    PlainLayout(0xFFFF_FFFF, Flags(false, true, false, false, false, false, false));
  }

  lemma OneDigit()
    ensures DigitsOf(4, 10, false) == "4"
  {
    assert DigitsOf(0, 10, false) == "";
  }

  lemma OneMoreDigit(num: nat, s: string, d: nat, s': string)
    requires num > 0 && d < 10 && DigitsOf(num, 10, false) == s && s' == s + ['0' + d as char]
    ensures DigitsOf(10 * num + d, 10, false) == s'
  {
    assert (10 * num + d) / 10 == num && (10 * num + d) % 10 == d;
  }

  /** Without width, precision and marks the text is the digits. */
  lemma PlainLayout(num: nat, f: Flags)
    requires num > 0 && !f.plus && !f.space && !f.special && !f.left && !f.zeroPad && !f.small
    ensures Layout(num, 10, -1, -1, f) == DigitsOf(num, 10, false)
  {
    hide DigitsOf;
    assert Fill('0', -1 - |DigitsOf(num, 10, false)|) == "" && Fill(' ', -1 - |DigitsOf(num, 10, false)|) == "";
  }

  // ---------------------------------------------------------------- the two routines

  method SkipAtoi(s: string) returns (value: int, rest: string)
    ensures (value, rest) == Atoi(s, 0)
  {
    value, rest := 0, s;
    while rest != "" && IsDigit(rest[0])
      invariant Atoi(s, 0) == Atoi(rest, value)
      decreases |rest|
    {
      value, rest := ToInt32(value * 10 + (rest[0] as int - '0' as int)), rest[1..];
    }
  }

  /** The digit loop: least significant digit first. */
  method CollectDigits(num: nat, base: nat, small: bool) returns (tmp: string)
    requires 2 <= base <= 36
    ensures Reversed(tmp) == DigitString(num, base, small)
  {
    tmp := "";
    if num == 0 {
      tmp := "0";
      return;
    }
    var n: nat := num;
    hide DigitChar;
    while n != 0
      invariant DigitsOf(num, base, small) == DigitsOf(n, base, small) + Reversed(tmp)
      decreases n
    {
      DivMod(n, base);
      ReversedSnoc(tmp, DigitChar(n % base, small));
      DigitsStep(n, base, small, Reversed(tmp));
      tmp := tmp + [DigitChar(n % base, small)];
      n := n / base;
    }
    assert DigitsOf(0, base, small) + Reversed(tmp) == Reversed(tmp);
  }

  lemma DigitsStep(n: nat, base: nat, small: bool, s: string)
    requires 2 <= base <= 36 && n > 0
    ensures DigitsOf(n, base, small) + s == DigitsOf(n / base, base, small) + ([DigitChar(n % base, small)] + s)
  {
    hide DigitChar;
  }

  /** A padding loop of number: it writes the character while the count is positive, and leaves the count one
      below zero, or one below where it started if that was not positive. */
  method Emit(str: string, size: int, c: char) returns (out: string, left: int)
    ensures out == str + Fill(c, size)
    ensures left == if size > 0 then -1 else size - 1
  {
    out, left := str, size;
    while left > 0
      invariant left <= size && (size > 0 ==> left >= 0) && (size <= 0 ==> left == size)
      invariant out == str + Fill(c, size - left)
      decreases left
    {
      left := left - 1;
      out := out + [c];
      assert Fill(c, size - left) == Fill(c, size - left - 1) + [c];
    }
    left := left - 1;
  }

  /** The last digits loop: the collected digits from the most significant on. */
  method EmitReversed(str: string, tmp: string) returns (out: string)
    ensures out == str + Reversed(tmp)
  {
    out := str;
    var i := |tmp|;
    assert tmp[..i] == tmp;
    while i > 0
      invariant 0 <= i <= |tmp|
      invariant out + Reversed(tmp[..i]) == str + Reversed(tmp)
    {
      i := i - 1;
      assert tmp[..i + 1] == tmp[..i] + [tmp[i]];
      ReversedSnoc(tmp[..i], tmp[i]);
      out := out + [tmp[i]];
      assert out + Reversed(tmp[..i]) == out[..|out| - 1] + ([tmp[i]] + Reversed(tmp[..i]));
    }
  }

  lemma Joined(a: string, b: string, c: string, d: string, e: string)
    ensures a + b + c + d + e == a + (b + c) + (d + e)
    ensures a + b + c + d + e == (a + b) + c + (d + e)
    ensures a + b + c + d + e == (a + b) + (c + d) + e
  {}

  /** The characters in front of the digits: sign, then 0 or 0x. */
  method EmitFront(str: string, base: nat, flags: Flags) returns (out: string)
    ensures out == str + SignPart(flags) + Prefix(base, flags)
  {
    out := str + if flags.plus then "+" else if flags.space then " " else "";
    if flags.special {
      if base == 8 {
        out := out + "0";
      } else if base == 16 {
        out := out + ['0', DigitChar(33, flags.small)];
      }
    }
  }

  /** The field width less sign and prefix. */
  method RoomLeft(base: nat, size: int, flags: Flags) returns (width: int)
    ensures width == size - |SignPart(flags)| - |Prefix(base, flags)|
  {
    width := size;
    if flags.plus || flags.space {
      width := width - 1;
    }
    if flags.special {
      if base == 16 {
        width := width - 2;
      } else if base == 8 {
        width := width - 1;
      }
    }
  }

  /** The pieces in the order in which number writes them. */
  function Pieces(f: Flags, width: int, sign: string, prefix: string, zeros: string, digits: string): string {
    if f.left then sign + prefix + zeros + digits + Fill(' ', width)
    else if f.zeroPad then sign + prefix + Fill('0', width) + zeros + digits
    else Fill(' ', width) + sign + prefix + zeros + digits
  }

  lemma PiecesMakeLayout(num: nat, base: nat, size: int, precision: int, f: Flags, width: int, zeros: int)
    requires 2 <= base <= 36
    requires var digits := |DigitString(num, base, f.small)|;
      && zeros == Max(precision, digits) - digits
      && width == size - |SignPart(f)| - |Prefix(base, f)| - Max(precision, digits)
    ensures Pieces(f, width, SignPart(f), Prefix(base, f), Fill('0', zeros), DigitString(num, base, f.small))
            == Layout(num, base, size, precision, f)
  {
    var digits, sign, prefix := DigitString(num, base, f.small), SignPart(f), Prefix(base, f);
    PaddedIs(num, base, precision, f.small, zeros);
    hide Fill, SignPart, Prefix, DigitString, Max, Padded;
    if f.left {
      Joined(sign, prefix, Fill('0', zeros), digits, Fill(' ', width));
    } else if f.zeroPad {
      Joined(sign, prefix, Fill('0', width), Fill('0', zeros), digits);
    } else {
      Joined(Fill(' ', width), sign, prefix, Fill('0', zeros), digits);
    }
  }

  lemma PaddedIs(num: nat, base: nat, precision: int, small: bool, zeros: int)
    requires 2 <= base <= 36
    requires zeros == Max(precision, |DigitString(num, base, small)|) - |DigitString(num, base, small)|
    ensures Padded(num, base, precision, small) == Fill('0', zeros) + DigitString(num, base, small)
    ensures |Padded(num, base, precision, small)| == Max(precision, |DigitString(num, base, small)|)
  {
    FillClamp('0', zeros, precision - |DigitString(num, base, small)|);
    hide DigitString;
  }

  lemma FillClamp(c: char, n: int, m: int)
    requires n == Max(m, 0)
    ensures Fill(c, n) == Fill(c, m)
  {}

  /** Everything number writes from the padding in front to the end of the field. */
  method EmitField(str: string, base: nat, flags: Flags, width: int, tmp: string, digits: int) returns (out: string)
    ensures out == str + Pieces(flags, width, SignPart(flags), Prefix(base, flags), Fill('0', digits - |tmp|), Reversed(tmp))
  {
    hide SignPart, Prefix, Reversed, Fill;
    var zeroPad := flags.zeroPad && !flags.left;
    var c := if zeroPad then '0' else ' ';
    var room := width;
    out := str;
    if !zeroPad && !flags.left {
      out, room := Emit(out, room, ' ');
    }
    ghost var before := if zeroPad || flags.left then "" else Fill(' ', width);
    assert out == str + before;
    out := EmitFront(out, base, flags);
    if !flags.left {
      out, room := Emit(out, room, c);
    }
    ghost var between := if zeroPad then Fill('0', width) else "";
    assert out == str + before + SignPart(flags) + Prefix(base, flags) + between;
    var zeros: int;
    out, zeros := Emit(out, digits - |tmp|, '0');
    out := EmitReversed(out, tmp);
    out, room := Emit(out, room, ' ');
    ghost var behind := if flags.left then Fill(' ', width) else "";
    ghost var z, d := Fill('0', digits - |tmp|), Reversed(tmp);
    assert out == str + before + SignPart(flags) + Prefix(base, flags) + between + z + d + behind;
    InOrder(str, before, SignPart(flags), Prefix(base, flags), between, z, d, behind);
  }

  lemma InOrder(str: string, a: string, b: string, c: string, d: string, e: string, f: string, g: string)
    ensures str + a + b + c + d + e + f + g == str + (a + b + c + d + e + f + g)
    ensures a == "" && d == "" ==> a + b + c + d + e + f + g == b + c + e + f + g
    ensures a == "" && g == "" ==> a + b + c + d + e + f + g == b + c + d + e + f
    ensures d == "" && g == "" ==> a + b + c + d + e + f + g == a + b + c + e + f
  {}

  /** number: the text appended at `str`, or None where the code returns 0 for a base out of range. */
  method Number(str: string, num: nat, base: int, size: int, precision: int, flags: Flags) returns (r: Option<string>)
    requires num < WORD
    ensures r.None? <==> base < 2 || base > 36
    ensures r.Some? ==> r.value == str + Layout(num, base, size, precision, flags)
  {
    if base < 2 || base > 36 {
      return None;
    }
    hide DigitString, SignPart, Prefix, Fill, Layout, Pieces;
    var room := RoomLeft(base, size, flags);
    var tmp := CollectDigits(num, base, flags.small);
    var digits := if |tmp| > precision then |tmp| else precision;
    var out := EmitField(str, base, flags, room - digits, tmp, digits);
    PiecesMakeLayout(num, base, size, precision, flags, room - digits, digits - |tmp|);
    r := Some(out);
  }
}
