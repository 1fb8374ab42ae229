/**
 The system calls PrintNum and ReadNum (userprog/exception.cc): a number printed and read back, and what the reader does
 with every other line.
 */
module DecimalNumbers {
  import opened Options

  // the limits that exception.cc defines for itself
  const INT_MAX := 2147483647
  const INT_MIN := -2147483647

  /** The most negative 32-bit int, which is below INT_MIN. */
  const MOST_NEGATIVE := -0x8000_0000

  /** The values of a 32-bit int. */
  predicate IsInt(x: int)
  {
    MOST_NEGATIVE <= x <= INT_MAX
  }

  /** The numbers that the reader lets through. */
  predicate InRange(x: int)
  {
    INT_MIN <= x <= INT_MAX
  }

  /** A value kept in a 64-bit two's-complement variable. */
  function Wrap64(x: int): (r: int)
    ensures -0x8000_0000_0000_0000 <= r < 0x8000_0000_0000_0000
    ensures -0x8000_0000_0000_0000 <= x < 0x8000_0000_0000_0000 ==> r == x
  {
    (x + 0x8000_0000_0000_0000) % 0x1_0000_0000_0000_0000 - 0x8000_0000_0000_0000
  }

  /** Multiples of 2 to the power 64 are lost. */
  lemma WrapShift(x: int, k: int)
    ensures Wrap64(x + k * 0x1_0000_0000_0000_0000) == Wrap64(x)
  {
  }

  /** Wrapping at every step comes to wrapping once at the end. */
  lemma WrapStep(x: int, d: int)
    ensures Wrap64(Wrap64(x) * 10 + d) == Wrap64(x * 10 + d)
    ensures Wrap64(-Wrap64(x)) == Wrap64(-x)
  {
    var q := (x + 0x8000_0000_0000_0000) / 0x1_0000_0000_0000_0000;
    assert Wrap64(x) == x - q * 0x1_0000_0000_0000_0000;
    WrapShift(x * 10 + d, -10 * q);
    WrapShift(-x, q);
    hide Wrap64;
  }

  // ---------- decimal digits ----------

  predicate IsDigit(c: char)
  {
    '0' <= c <= '9'
  }

  function DigitOf(n: nat): (c: char)
    requires n < 10
    ensures IsDigit(c) && c as int - '0' as int == n
  {
    '0' + n as char
  }

  /** The digits of n without leading zeros; none for 0. */
  function Digits(n: nat): (s: string)
    ensures n > 0 <==> s != []
  {
    if n == 0 then [] else Digits(n / 10) + [DigitOf(n % 10)]
  }

  function Pow10(k: nat): nat
  {
    if k == 0 then 1 else 10 * Pow10(k - 1)
  }

  lemma {:induction false} DigitsShort(n: nat, k: nat)
    requires n < Pow10(k)
    ensures |Digits(n)| <= k
  {
    if n > 0 {
      DigitsShort(n / 10, k - 1);
    }
  }

  predicate AllDigits(s: string)
  {
    forall c <- s :: IsDigit(c)
  }

  /** The number that a row of digits stands for. */
  function Value(s: string): nat
    requires AllDigits(s)
  {
    if s == [] then 0
    else
      assert IsDigit(s[|s| - 1]);
      10 * Value(s[..|s| - 1]) + (s[|s| - 1] as int - '0' as int)
  }

  lemma {:induction false} ValueOfDigits(n: nat)
    ensures AllDigits(Digits(n)) && Value(Digits(n)) == n
  {
    if n > 0 {
      ValueOfDigits(n / 10);
      assert Digits(n)[..|Digits(n)| - 1] == Digits(n / 10);
    }
  }

  /** The usual way to write n. */
  function Numeral(n: int): (s: string)
    ensures s != []
  {
    if n == 0 then "0" else if n < 0 then "-" + Digits(-n) else Digits(n)
  }

  // ---------- what a line says ----------

  predicate Blank(s: string)
  {
    forall c <- s :: c == ' '
  }

  function SkipBlanks(s: string): string
  {
    if s != [] && s[0] == ' ' then SkipBlanks(s[1..]) else s
  }

  /** How many digits s starts with. */
  function DigitRun(s: string): (k: nat)
    ensures k <= |s| && (forall i :: 0 <= i < k ==> IsDigit(s[i])) && (k < |s| ==> !IsDigit(s[k]))
  {
    if s != [] && IsDigit(s[0]) then 1 + DigitRun(s[1..]) else 0
  }

  lemma {:induction false} DigitRunIs(s: string, k: nat)
    requires k <= |s| && (forall i :: 0 <= i < k ==> IsDigit(s[i])) && (k < |s| ==> !IsDigit(s[k]))
    ensures DigitRun(s) == k
  {
    if k > 0 {
      DigitRunIs(s[1..], k - 1);
    }
  }

  function ParseDigits(s: string): Option<int>
  {
    var k := DigitRun(s);
    assert AllDigits(s[..k]);
    if k > 0 && Blank(s[k..]) then Some(Value(s[..k])) else None
  }

  /** Blanks, an optional minus directly before the digits, digits, blanks; anything else is no number. */
  function Parse(line: string): Option<int>
  {
    var s := SkipBlanks(line);
    if s != [] && s[0] == '-'
    then match ParseDigits(s[1..]) case Some(v) => Some(-v) case None => None
    else ParseDigits(s)
  }

  /** The reader's range check on a 64-bit variable. */
  function Checked(res: int): int
  {
    if res > INT_MAX then 0 else if res < INT_MIN then 0 else res
  }

  /** The answer to a line. */
  function Answer(line: string): (r: int)
    ensures InRange(r)
  {
    match Parse(line)
    case Some(v) => Checked(Wrap64(v))
    case None => 0
  }

  /** Digits, then blanks, then what is left: this decides what ParseDigits says. */
  lemma ParsedAs(s: string, ds: string, blanks: string, left: string)
    requires s == ds + blanks + left && AllDigits(ds) && Blank(blanks)
    requires left == [] || (left[0] != ' ' && (blanks != [] || !IsDigit(left[0])))
    ensures ParseDigits(s) == if left == [] && ds != [] then Some(Value(ds)) else None
  {
    if |ds| < |s| {
      assert s[|ds|] == (blanks + left)[0] && !IsDigit(s[|ds|]) by {
        if blanks != [] { assert blanks[0] in blanks; }
      }
    }
    DigitRunIs(s, |ds|);
    assert s[..|ds|] == ds && s[|ds|..] == blanks + left;
    if left != [] {
      assert left[0] in s[|ds|..];
    }
  }

  // ---------- how much of a line is read ----------

  /** A char of value 255 is -1, which is EOF. */
  const EOF_CHAR: char := 255 as char

  function SkipDigits(s: string): string
  {
    s[DigitRun(s)..]
  }

  /** The line from the character on which the reader gives up; nothing if it accepts them all. */
  function Offence(line: string): string
  {
    var s := SkipBlanks(line);
    if s == [] then [] else if s[0] == '-' || IsDigit(s[0]) then SkipBlanks(SkipDigits(s[1..])) else s
  }

  /** What clearInputBuffer leaves of a line and the input behind it. */
  function Cleared(line: string, rest: string): string
  {
    if line == [] then rest else if line[0] == EOF_CHAR then line[1..] + "\n" + rest else Cleared(line[1..], rest)
  }

  function AfterOffence(offence: string, rest: string): string
  {
    if offence == [] then rest else Cleared(offence[1..], rest)
  }

  /** What is left to read after a line. */
  function Unread(line: string, rest: string): string
  {
    AfterOffence(Offence(line), rest)
  }

  /** No character behind the offending one compares equal to EOF. */
  predicate TakesLine(line: string)
  {
    Offence(line) == [] || EOF_CHAR !in Offence(line)[1..]
  }

  lemma {:induction false} ClearedExact(line: string, rest: string)
    ensures |Cleared(line, rest)| >= |rest| && (Cleared(line, rest) == rest <==> EOF_CHAR !in line)
  {
    if line != [] && line[0] != EOF_CHAR {
      ClearedExact(line[1..], rest);
      assert line == [line[0]] + line[1..];
    }
  }

  /** Exactly when a whole line is taken. */
  lemma UnreadExact(line: string, rest: string)
    ensures Unread(line, rest) == rest <==> TakesLine(line)
  {
    if Offence(line) != [] { ClearedExact(Offence(line)[1..], rest); }
  }

  /** A line that is not taken as a whole: a letter, character 255, a letter. */
  lemma LineLeftBehind(rest: string)
    ensures !TakesLine("a" + [EOF_CHAR] + "b") && Unread("a" + [EOF_CHAR] + "b", rest) == "b\n" + rest
  {
    var line := "a" + [EOF_CHAR] + "b";
    assert Offence(line) == line && line[1..] == [EOF_CHAR] + "b";
    assert ([EOF_CHAR] + "b")[1..] == "b";
    UnreadExact(line, rest);
  }

  lemma {:induction false} SkipBlanksAll(s: string)
    requires Blank(s)
    ensures SkipBlanks(s) == []
  {
    if s != [] {
      assert s[0] in s && forall c <- s[1..] :: c in s;
      SkipBlanksAll(s[1..]);
    }
  }

  /** A line with a number in it is taken as a whole. */
  lemma NumbersTakeTheirLine(line: string)
    requires Parse(line).Some?
    ensures TakesLine(line)
  {
    var s := SkipBlanks(line);
    if s[0] == '-' {
      SkipBlanksAll(SkipDigits(s[1..]));
    } else {
      assert s[1..][DigitRun(s[1..])..] == s[DigitRun(s)..];
      SkipBlanksAll(SkipDigits(s[1..]));
    }
  }

  lemma SkipStep(s: string)
    ensures s != [] && IsDigit(s[0]) ==> SkipDigits(s) == SkipDigits(s[1..])
    ensures s == [] || !IsDigit(s[0]) ==> SkipDigits(s) == s
    ensures s != [] && s[0] == ' ' ==> SkipBlanks(s) == SkipBlanks(s[1..])
    ensures s == [] || s[0] != ' ' ==> SkipBlanks(s) == s
  {
  }

  lemma TailOfLine(s: string, rest: string)
    ensures s != [] ==> (s + "\n" + rest)[1..] == s[1..] + "\n" + rest && forall c <- s[1..] :: c in s
    ensures s == [] ==> (s + "\n" + rest)[1..] == rest && ParseDigits(s) == None
  {
  }

  lemma NoNumber(s: string)
    requires s != [] && s[0] != ' ' && !IsDigit(s[0])
    ensures ParseDigits(s) == None
  {
    ParsedAs(s, [], [], s);
  }

  lemma NoDigitsYet()
    ensures AllDigits([]) && Wrap64(Value([])) == 0
  {
  }

  lemma OneDigit(c: char)
    requires IsDigit(c)
    ensures AllDigits([c]) && Wrap64(Value([c])) == c as int - '0' as int
  {
    ValueOfLonger([], c);
    assert [] + [c] == [c];
  }

  lemma ValueOfNone()
    ensures Value([]) == 0
  {
  }

  lemma ValueOfLonger(s: string, c: char)
    requires AllDigits(s) && IsDigit(c)
    ensures AllDigits(s + [c]) && Value(s + [c]) == 10 * Value(s) + (c as int - '0' as int)
  {
    assert (s + [c])[..|s|] == s;
  }

  // ---------- the two system calls ----------

  class Console {
    var input: string
    var output: string

    constructor (typed: string)
      ensures input == typed && output == []
    {
      input, output := typed, [];
    }

    method GetChar() returns (c: char)
      requires input != []
      modifies this`input
      ensures c == old(input)[0] && input == old(input)[1..]
    {
      c := input[0];
      input := input[1..];
    }

    method PutChar(c: char)
      modifies this`output
      ensures output == old(output) + [c]
    {
      output := output + [c];
    }

    /** Reads up to and including the end of the line, or a character that compares equal to EOF. */
    method ClearInputBuffer(ghost line: string, ghost rest: string)
      requires input == line + "\n" + rest && '\n' !in line
      modifies this`input
      ensures input == Cleared(line, rest)
    {
      ghost var left := line;
      var c := GetChar();
      while c != '\n' && c != EOF_CHAR
        invariant c == (left + "\n")[0] && input == (left + "\n" + rest)[1..] && '\n' !in left
        invariant Cleared(left, rest) == Cleared(line, rest)
        decreases |left|
      {
        left := left[1..];
        c := GetChar();
      }
    }

    /** Reads to the first character that is no blank, which may be the end of the line. */
    method FirstNonBlank(ghost line: string, ghost rest: string) returns (c: char, ghost left: string)
      requires input == line + "\n" + rest && '\n' !in line
      modifies this`input
      ensures left == SkipBlanks(line) && '\n' !in left
      ensures c == (left + "\n")[0] != ' ' && input == (left + "\n" + rest)[1..]
    {
      left := line;
      c := GetChar();
      while c == ' '
        invariant c == (left + "\n")[0] && input == (left + "\n" + rest)[1..] && '\n' !in left
        invariant SkipBlanks(left) == SkipBlanks(line)
        decreases |left|
      {
        left := left[1..];
        c := GetChar();
      }
    }

    /**
     Gives the answer to a line. The whole line is taken, unless the reader gives up on a character and another one, behind
     it, compares equal to EOF.
     */
    method ReadNum(ghost line: string, ghost rest: string) returns (r: int)
      requires input == line + "\n" + rest && '\n' !in line
      modifies this`input
      ensures r == Answer(line) && input == Unread(line, rest)
      ensures input == rest <==> TakesLine(line)
    {
      hide SkipBlanks, SkipDigits, TakesLine, Cleared, ParseDigits, Value, AllDigits, Wrap64;
      UnreadExact(line, rest);
      var c, left := FirstNonBlank(line, rest);
      TailOfLine(left, rest);
      var isNegative, res := false, 0;
      ghost var done := "";
      NoDigitsYet();
      if c == '-' {
        isNegative := true;
        assert done + left[1..] == left[1..];
      } else if '0' <= c <= '9' {
        res := c as int - '0' as int;
        OneDigit(c);
        done := [c];
        assert left == [c] + left[1..];
      } else if c == '\n' {
        return 0;
      } else {
        NoNumber(left);
        ClearInputBuffer(left[1..], rest);
        return 0;
      }
      r := ReadDigits(isNegative, res, done, left[1..], rest);
    }

    /** The second half of ReadNum, behind the sign or the first digit. */
    method ReadDigits(isNegative: bool, first: int, ghost done: string, ghost line: string, ghost rest: string)
      returns (r: int)
      requires input == line + "\n" + rest && '\n' !in line
      requires AllDigits(done) && first == Wrap64(Value(done)) && |done| == (if isNegative then 0 else 1)
      modifies this`input
      ensures input == AfterOffence(SkipBlanks(SkipDigits(line)), rest)
      ensures r == match ParseDigits(done + line)
                   case Some(v) => Checked(Wrap64(if isNegative then -v else v))
                   case None => 0
    {
      hide ParseDigits, Value, AllDigits, Wrap64, SkipDigits, Cleared, SkipBlanks;
      var res, isEnd, flagZero := first, false, false;
      ghost var ds, blanks, left := done, "", line;
      var c := GetChar();
      while c != '\n'
        invariant c == (left + "\n")[0] && input == (left + "\n" + rest)[1..] && '\n' !in left
        invariant done + line == ds + blanks + left && AllDigits(ds) && Blank(blanks)
        invariant isEnd <==> blanks != []
        invariant res == Wrap64(Value(ds)) && (isNegative && !flagZero ==> ds == [])
        invariant !isNegative ==> ds != []
        invariant flagZero ==> ds != []
        invariant SkipBlanks(SkipDigits(line)) == if isEnd then SkipBlanks(left) else SkipBlanks(SkipDigits(left))
        decreases |left|
      {
        SkipStep(left);
        if '0' <= c <= '9' && !isEnd {
          WrapStep(Value(ds), c as int - '0' as int);
          ValueOfLonger(ds, c);
          res := Wrap64(res * 10 + (c as int - '0' as int));
          flagZero := true;
          ds := ds + [c];
        } else if c == ' ' {
          isEnd := true;
          blanks := blanks + [c];
        } else {
          ParsedAs(done + line, ds, blanks, left);
          ClearInputBuffer(left[1..], rest);
          return 0;
        }
        left := left[1..];
        c := GetChar();
      }
      SkipStep(left);
      ParsedAs(done + line, ds, blanks, left);
      r := CheckRange(isNegative, res, flagZero, ds);
    }

    /** Prints the numeral, except that the most negative number loses its digits. The buffer holds 12 characters. */
    method PrintNum(n: int)
      requires IsInt(n)
      modifies this`output
      ensures output == old(output) + Printed(n)
    {
      var number := n;
      if number == 0 {
        PutChar('0');
        return;
      }
      var indexStart := 0;
      if number < 0 {
        number := Negated(number);
        indexStart := 1;
      }
      var buffer := new char[12];
      var countDigits := CountDigits(number);
      DigitsShortEnough(number);
      FillDigits(buffer, number, countDigits, indexStart);
      if indexStart == 1 {
        buffer[0] := '-';
        buffer[countDigits + 1] := '\0';
        PutAll(buffer, countDigits + 1);
      } else {
        buffer[countDigits] := '\0';
        PutAll(buffer, countDigits);
      }
    }

    /** The printing loops. */
    method PutAll(buffer: array<char>, n: nat)
      requires n <= buffer.Length
      modifies this`output
      ensures output == old(output) + buffer[..n]
    {
      for i := 0 to n
        invariant output == old(output) + buffer[..i]
      {
        assert buffer[..i + 1] == buffer[..i] + [buffer[i]];
        PutChar(buffer[i]);
      }
      assert buffer[..0] == [];
    }
  }

  /** The end of ReadNum: the sign, and the checks for the range and for a sign without digits. */
  method CheckRange(isNegative: bool, res: int, flagZero: bool, ghost ds: string) returns (r: int)
    requires AllDigits(ds) && res == Wrap64(Value(ds)) && (ds == [] <==> isNegative && !flagZero)
    ensures r == if ds == [] then 0 else Checked(Wrap64(if isNegative then 0 - Value(ds) else Value(ds)))
  {
    hide Value, AllDigits;
    var res' := res;
    if isNegative {
      WrapStep(Value(ds), 0);
      ValueOfNone();
      res' := Wrap64(-res);
    }
    if res' > INT_MAX {
      return 0;
    } else if res' < INT_MIN {
      return 0;
    }
    if isNegative && res' == 0 && !flagZero {
      return 0;
    }
    return res';
  }

  /** Negation in a 32-bit int: the most negative number stays. */
  function Negated(n: int): int
  {
    if n == MOST_NEGATIVE then MOST_NEGATIVE else -n
  }

  /** The digits of a positive number; none for the others. */
  function PositiveDigits(n: int): string
  {
    if n > 0 then Digits(n) else []
  }

  /** What PrintNum puts out. */
  function Printed(n: int): string
  {
    if n == MOST_NEGATIVE then "-" else Numeral(n)
  }

  method CountDigits(number: int) returns (count: nat)
    ensures count == |PositiveDigits(number)|
  {
    var temp := number;
    count := 0;
    while temp > 0
      invariant count + |PositiveDigits(temp)| == |PositiveDigits(number)|
    {
      count := count + 1;
      temp := temp / 10;
    }
  }

  lemma DigitsShortEnough(number: int)
    requires number <= INT_MAX
    ensures |PositiveDigits(number)| <= 10
  {
    if number > 0 {
      assert Pow10(5) == 100000 && Pow10(10) == 100000 * Pow10(5);
      DigitsShort(number, 10);
    }
  }

  /** Fills the buffer with digits from the right. */
  method FillDigits(buffer: array<char>, number: int, countDigits: nat, indexStart: nat)
    requires countDigits == |PositiveDigits(number)| && indexStart + countDigits <= buffer.Length
    modifies buffer
    ensures buffer[indexStart..indexStart + countDigits] == PositiveDigits(number)
    ensures forall k :: 0 <= k < indexStart ==> buffer[k] == old(buffer[k])
  {
    hide PositiveDigits, DigitOf;
    ghost var all := PositiveDigits(number);
    var left := number;
    var i := countDigits - 1 + indexStart;
    assert all[..countDigits] == all;
    while i >= indexStart
      invariant indexStart - 1 <= i < indexStart + countDigits
      invariant PositiveDigits(left) == all[..i + 1 - indexStart]
      invariant forall k :: i < k < indexStart + countDigits ==> buffer[k] == all[k - indexStart]
      invariant forall k :: 0 <= k < indexStart ==> buffer[k] == old(buffer[k])
    {
      DigitMoves(left, all, i + 1 - indexStart);
      buffer[i] := DigitOf(left % 10);
      left := left / 10;
      i := i - 1;
    }
  }

  /** Dividing by ten takes off the last digit. */
  lemma DigitMoves(n: int, all: string, m: nat)
    requires 0 < m <= |all| && PositiveDigits(n) == all[..m]
    ensures n > 0 && all[m - 1] == DigitOf(n % 10) && PositiveDigits(n / 10) == all[..m - 1]
  {
    LastDigit(n);
    hide PositiveDigits;
    assert all[..m][..m - 1] == all[..m - 1];
  }

  lemma LastDigit(n: int)
    requires PositiveDigits(n) != []
    ensures n > 0 && PositiveDigits(n) == PositiveDigits(n / 10) + [DigitOf(n % 10)]
  {
  }

  // ---------- printing and reading undo each other ----------

  lemma {:induction false} SkipsBlanks(a: nat, s: string)
    requires s != [] ==> s[0] != ' '
    ensures SkipBlanks(Blanks(a) + s) == s
  {
    if a > 0 {
      assert (Blanks(a) + s)[1..] == Blanks(a - 1) + s;
      SkipsBlanks(a - 1, s);
    }
  }

  function Blanks(a: nat): (s: string)
    ensures |s| == a && Blank(s)
  {
    seq(a, _ => ' ')
  }

  lemma NumeralDigits(n: int) returns (ds: string)
    ensures AllDigits(ds) && ds != [] && Value(ds) == (if n < 0 then -n else n)
    ensures Numeral(n) == if n < 0 then "-" + ds else ds
  {
    if n == 0 {
      ds := "0";
      ValueOfLonger([], '0');
      assert [] + ['0'] == "0";
    } else {
      ds := Digits(if n < 0 then -n else n);
      ValueOfDigits(if n < 0 then -n else n);
    }
  }

  /** The number in the usual way: digits that stand for it, a minus exactly before a negative one, no needless zero. */
  lemma {:induction false} DigitsUsual(n: nat)
    requires n > 0
    ensures AllDigits(Digits(n)) && Value(Digits(n)) == n && Digits(n)[0] != '0'
  {
    ValueOfDigits(n);
    if n / 10 > 0 {
      DigitsUsual(n / 10);
      assert Digits(n)[0] == Digits(n / 10)[0];
    }
  }

  lemma PrintedUsual(n: int)
    requires IsInt(n) && n != MOST_NEGATIVE
    ensures
      var s := Printed(n);
      var ds := if n < 0 then s[1..] else s;
      && (n < 0 ==> s[0] == '-') && AllDigits(ds) && ds != [] && Value(ds) == Abs(n) && (ds[0] == '0' ==> ds == "0" && n == 0)
  {
    if n == 0 {
      OneDigit('0');
      ValueOfLonger([], '0');
      assert [] + ['0'] == "0";
    } else {
      DigitsUsual(Abs(n));
      assert n < 0 ==> Printed(n)[1..] == Digits(-n);
    }
  }

  function Abs(n: int): nat
  {
    if n < 0 then -n else n
  }

  /** A numeral is parsed as its number, whatever blanks stand around it. */
  lemma ParseNumeral(n: int, a: nat, b: nat)
    ensures Parse(Blanks(a) + Numeral(n) + Blanks(b)) == Some(n)
  {
    hide Numeral, ParseDigits, Value, AllDigits;
    var ds := NumeralDigits(n);
    var s := Numeral(n) + Blanks(b);
    assert Blanks(a) + Numeral(n) + Blanks(b) == Blanks(a) + s;
    FirstIsDigit(ds);
    SkipsBlanks(a, s);
    if n < 0 {
      assert s[1..] == ds + Blanks(b) + [];
      ParsedAs(s[1..], ds, Blanks(b), []);
    } else {
      assert s == ds + Blanks(b) + [];
      ParsedAs(s, ds, Blanks(b), []);
    }
  }

  /** Blanks, an optional minus, at least one digit, blanks, and nothing else. */
  predicate Spells(line: string, negative: bool, ds: string, a: nat, b: nat)
  {
    line == Blanks(a) + (if negative then "-" else "") + ds + Blanks(b) && AllDigits(ds) && ds != []
  }

  /** A line so spelled is read as the number of its digits. */
  lemma SpelledIsParsed(line: string, negative: bool, ds: string, a: nat, b: nat)
    requires Spells(line, negative, ds, a, b)
    ensures Parse(line) == Some(if negative then -(Value(ds) as int) else Value(ds))
  {
    hide ParseDigits, Value, AllDigits;
    var s := (if negative then "-" else "") + ds + Blanks(b);
    assert line == Blanks(a) + s;
    FirstIsDigit(ds);
    SkipsBlanks(a, s);
    var digits := if negative then s[1..] else s;
    assert digits == ds + Blanks(b) + [];
    ParsedAs(digits, ds, Blanks(b), []);
  }

  lemma {:induction false} BlanksBefore(s: string) returns (a: nat)
    ensures s == Blanks(a) + SkipBlanks(s)
  {
    if s != [] && s[0] == ' ' {
      a := BlanksBefore(s[1..]);
      a := a + 1;
      assert s == [' '] + s[1..];
    } else {
      a := 0;
    }
  }

  lemma BlankIsBlanks(s: string)
    requires Blank(s)
    ensures s == Blanks(|s|)
  {
    assert forall i :: 0 <= i < |s| ==> s[i] in s;
  }

  lemma DigitsSplit(s: string) returns (ds: string, b: nat)
    requires ParseDigits(s).Some?
    ensures s == ds + Blanks(b) && AllDigits(ds) && ds != []
  {
    var k := DigitRun(s);
    ds, b := s[..k], |s| - k;
    BlankIsBlanks(s[k..]);
  }

  /** And only a line so spelled is read as a number. */
  lemma ParsedIsSpelled(line: string) returns (negative: bool, ds: string, a: nat, b: nat)
    requires Parse(line).Some?
    ensures Spells(line, negative, ds, a, b)
  {
    hide SkipBlanks, ParseDigits, AllDigits;
    var s := SkipBlanks(line);
    a := BlanksBefore(line);
    negative := s != [] && s[0] == '-';
    var digits := if negative then s[1..] else s;
    ds, b := DigitsSplit(digits);
    assert s == (if negative then "-" else "") + digits;
  }

  /** Leading zeros do not count. */
  lemma {:induction false} LeadingZero(ds: string)
    requires AllDigits(ds)
    ensures AllDigits("0" + ds) && Value("0" + ds) == Value(ds)
  {
    if ds == [] {
      ValueOfLonger([], '0');
      assert [] + ['0'] == "0" && "0" + ds == "0";
    } else {
      var front, c := ds[..|ds| - 1], ds[|ds| - 1];
      assert ds == front + [c] && IsDigit(c);
      LeadingZero(front);
      ValueOfLonger(front, c);
      ValueOfLonger("0" + front, c);
      assert "0" + ds == "0" + front + [c];
    }
  }

  /** Every other line is answered 0. */
  lemma AnswerNoNumber(line: string)
    requires forall negative, ds, a, b :: !Spells(line, negative, ds, a, b)
    ensures Answer(line) == 0
  {
    if Parse(line).Some? {
      var negative, ds, a, b := ParsedIsSpelled(line);
    }
  }

  /** For instance letters, nothing at all, and a minus alone. */
  lemma NoNumbers()
    ensures Answer("abc") == 0 && Answer("") == 0 && Answer("-") == 0
  {
    NoNumber("abc");
    TailOfLine("", "");
    assert SkipBlanks("abc") == "abc" && SkipBlanks("") == "" && SkipBlanks("-") == "-" && "-"[1..] == "";
  }

  lemma FirstIsDigit(ds: string)
    requires AllDigits(ds) && ds != []
    ensures IsDigit(ds[0])
  {
  }

  /** A 32-bit number typed as a numeral is answered as itself if and only if it is not the most negative one. */
  lemma AnswerNumeral(n: int, a: nat, b: nat)
    requires IsInt(n)
    ensures Answer(Blanks(a) + Numeral(n) + Blanks(b)) == n <==> n != MOST_NEGATIVE
  {
    ParseNumeral(n, a, b);
  }

  /** The most negative number, typed in full, is answered 0: the reader's own lower limit is one higher. */
  lemma MostNegativeRejected()
    ensures Answer("-2147483648") == 0
  {
    hide Answer, Numeral, Digits;
    AnswerAny(MOST_NEGATIVE);
    MostNegativeNumeral();
    WrapSmall(MOST_NEGATIVE);
  }

  lemma WrapSmall(x: int)
    requires IsInt(x)
    ensures Wrap64(x) == x
  {
  }

  lemma MostNegativeNumeral()
    ensures Numeral(MOST_NEGATIVE) == "-2147483648"
  {
    hide Digits;
    NoDigitsOfZero();
    NextDigit(2, "", '2');
    NextDigit(21, "2", '1');
    NextDigit(214, "21", '4');
    NextDigit(2147, "214", '7');
    NextDigit(21474, "2147", '4');
    NextDigit(214748, "21474", '8');
    NextDigit(2147483, "214748", '3');
    NextDigit(21474836, "2147483", '6');
    NextDigit(214748364, "21474836", '4');
    NextDigit(2147483648, "214748364", '8');
    assert "-" + "2147483648" == "-2147483648";
  }

  lemma NoDigitsOfZero()
    ensures Digits(0) == ""
  {
  }

  lemma NextDigit(n: nat, before: string, c: char)
    requires n > 0 && Digits(n / 10) == before && DigitOf(n % 10) == c
    ensures Digits(n) == before + [c]
  {
  }

  /** What PrintNum prints is read back as the same number, except for exactly the most negative one. */
  lemma PrintThenRead(n: int)
    requires IsInt(n)
    ensures Answer(Printed(n)) == n <==> n != MOST_NEGATIVE
  {
    if n == MOST_NEGATIVE {
      assert Parse("-") == None;
    } else {
      AnswerNumeral(n, 0, 0);
      assert Blanks(0) + Numeral(n) + Blanks(0) == Numeral(n);
    }
  }

  /** The same, through the console: one number printed, a newline, and read again. */
  method PrintNewlineRead(n: int) returns (r: int)
    requires IsInt(n)
    ensures r == n <==> n != MOST_NEGATIVE
  {
    var out := new Console([]);
    out.PrintNum(n);
    NoNewline(n);
    out.PutChar('\n');
    var back := new Console(out.output);
    assert back.input == Printed(n) + "\n" + [];
    r := back.ReadNum(Printed(n), []);
    PrintThenRead(n);
  }

  lemma NoNewline(n: int)
    ensures '\n' !in Printed(n)
  {
    ValueOfDigits(if n < 0 then -n else n);
  }

  /** The answer to any numeral: its 64-bit remainder, if that is in range. */
  lemma AnswerAny(v: int)
    ensures Answer(Numeral(v)) == Checked(Wrap64(v))
  {
    ParseNumeral(v, 0, 0);
    assert Blanks(0) + Numeral(v) + Blanks(0) == Numeral(v);
  }

  /** A numeral out of the reader's range is answered 0 if and only if its 64-bit remainder is out of it too, or 0. */
  lemma AnswerOutOfRange(v: int)
    requires !InRange(v)
    ensures Answer(Numeral(v)) == 0 <==> !InRange(Wrap64(v)) || Wrap64(v) == 0
  {
    AnswerAny(v);
  }

  /** A numeral far out of range that is not rejected: 2 to the power 64, plus 1, is answered 1. */
  lemma OutOfRangeAccepted()
    ensures !InRange(0x1_0000_0000_0000_0001) && Answer(Numeral(0x1_0000_0000_0000_0001)) == 1
  {
    hide Numeral, Answer;
    AnswerAny(0x1_0000_0000_0000_0001);
  }
}
