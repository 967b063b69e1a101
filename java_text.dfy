/**
 * The pieces of the Java class library that Command.java relies on, with their
 * exact Java behaviour: 32-bit `int` arithmetic, `Integer.parseInt`,
 * `String.valueOf(int)`, `String.split("\\.")`, `String.contains` and
 * `BufferedReader.readLine`.
 */
module JavaText {
  import opened Results

  // ---------------------------------------------------------------------------
  // 32-bit int arithmetic

  const TwoTo32: int := 0x1_0000_0000
  const MaxInt: int := 0x7fff_ffff
  const MinInt: int := -0x8000_0000

  predicate InIntRange(x: int) { MinInt <= x <= MaxInt }

  /** Two's-complement truncation of a mathematical integer to a Java `int`. */
  function Wrap32(x: int): (r: int)
    ensures InIntRange(r)
    ensures (x - r) % TwoTo32 == 0
    ensures InIntRange(x) ==> r == x
  {
    var m := x % TwoTo32;
    if m > MaxInt then m - TwoTo32 else m
  }

  /** Java `a + b` on two `int`s. */
  function Add32(a: int, b: int): int { Wrap32(a + b) }

  /** Java `a * b` on two `int`s. */
  function Mul32(a: int, b: int): int { Wrap32(a * b) }

  lemma ModUnique(a: int, q: int, r: int)
    requires 0 <= r < TwoTo32
    requires a == q * TwoTo32 + r
    ensures a % TwoTo32 == r
  {
  }

  /** Adding a multiple of 2^32 does not change the wrapped value. */
  lemma WrapShift(x: int, k: int)
    ensures Wrap32(x + k * TwoTo32) == Wrap32(x)
  {
    var q, r := x / TwoTo32, x % TwoTo32;
    assert x + k * TwoTo32 == (q + k) * TwoTo32 + r;
    ModUnique(x + k * TwoTo32, q + k, r);
  }

  /** Wrapping moves a value by a multiple of 2^32. */
  lemma WrapIsShift(x: int) returns (k: int)
    ensures Wrap32(x) == x + k * TwoTo32
  {
    k := if x % TwoTo32 > MaxInt then -(x / TwoTo32) - 1 else -(x / TwoTo32);
  }

  /** Wrapping an operand of a sum first does not change the wrapped sum. */
  lemma WrapInner(x: int, y: int)
    ensures Wrap32(Wrap32(x) + y) == Wrap32(x + y)
  {
    var k := WrapIsShift(x);
    assert Wrap32(x) + y == (x + y) + k * TwoTo32;
    WrapShift(x + y, k);
  }

  // ---------------------------------------------------------------------------
  // Decimal digits

  predicate IsAsciiDigit(c: char) { '0' <= c <= '9' }

  predicate AllDigits(s: string) { forall i :: 0 <= i < |s| ==> IsAsciiDigit(s[i]) }

  function DigitChar(d: nat): (c: char)
    requires d < 10
    ensures IsAsciiDigit(c) && c as int - '0' as int == d
  {
    (('0' as int) + d) as char
  }

  /** The value of a string of ASCII digits, most significant first. */
  function DecimalValue(s: string): nat
    requires AllDigits(s)
  {
    if |s| == 0 then 0 else DecimalValue(s[..|s| - 1]) * 10 + (s[|s| - 1] as int - '0' as int)
  }

  /** The shortest decimal representation of `n`, as `Integer.toString` writes it. */
  function NatToDecimal(n: nat): (s: string)
    ensures |s| >= 1 && AllDigits(s)
    ensures s[0] == '0' ==> s == "0"
  {
    if n < 10 then [DigitChar(n)] else NatToDecimal(n / 10) + [DigitChar(n % 10)]
  }

  /** `String.valueOf(int)`: a minus sign for negative values, then the digits. */
  function IntToDecimal(v: int): (s: string)
    ensures |s| >= 1
    ensures v >= 0 ==> AllDigits(s)
    ensures v < 0 ==> s[0] == '-' && AllDigits(s[1..]) && s[1..] != "0"
  {
    if v >= 0 then NatToDecimal(v) else "-" + NatToDecimal(-v)
  }

  lemma {:induction false} DecimalRoundTrip(n: nat)
    ensures DecimalValue(NatToDecimal(n)) == n
  {
    if n >= 10 {
      var s := NatToDecimal(n);
      assert s[..|s| - 1] == NatToDecimal(n / 10);
      DecimalRoundTrip(n / 10);
    }
  }

  /** Distinct numbers have distinct decimal representations. */
  lemma NatToDecimalInjective(m: nat, n: nat)
    requires NatToDecimal(m) == NatToDecimal(n)
    ensures m == n
  {
    DecimalRoundTrip(m);
    DecimalRoundTrip(n);
  }

  /**
   * `Integer.parseInt` applied to a string that holds no sign (the only kind
   * Command.java passes to it): it fails on the empty string and on a value
   * above `Integer.MAX_VALUE`.
   */
  function ParseInt(s: string): Option<int>
  {
    if |s| == 0 || !AllDigits(s) then None
    else if DecimalValue(s) > MaxInt then None
    else Some(DecimalValue(s))
  }

  /** `parseInt` reads back what `toString` wrote. */
  lemma ParseIntOfDecimal(n: nat)
    requires n <= MaxInt
    ensures ParseInt(NatToDecimal(n)) == Some(n)
  {
    DecimalRoundTrip(n);
  }

  // ---------------------------------------------------------------------------
  // Substrings and splitting

  /** `t` occurs in `s` starting at index `i`. */
  predicate OccursAt(s: string, t: string, i: int)
  {
    0 <= i <= |s| - |t| && s[i..i + |t|] == t
  }

  /** `s.contains(t)`. */
  predicate Contains(s: string, t: string)
  {
    exists i | 0 <= i <= |s| - |t| :: OccursAt(s, t, i)
  }

  function CountChar(s: string, c: char): nat
  {
    if |s| == 0 then 0 else (if s[0] == c then 1 else 0) + CountChar(s[1..], c)
  }

  /** The pieces between every occurrence of `sep`, empty ones included. */
  function SplitAll(s: string, sep: char): (parts: seq<string>)
    ensures |parts| == CountChar(s, sep) + 1
    ensures forall k :: 0 <= k < |parts| ==> sep !in parts[k]
  {
    if |s| == 0 then [""]
    else if s[0] == sep then [""] + SplitAll(s[1..], sep)
    else
      var rest := SplitAll(s[1..], sep);
      [[s[0]] + rest[0]] + rest[1..]
  }

  function DropTrailingEmpty(parts: seq<string>): (r: seq<string>)
    ensures |r| <= |parts| && r == parts[..|r|]
    ensures |r| > 0 ==> r[|r| - 1] != ""
    ensures forall k :: |r| <= k < |parts| ==> parts[k] == ""
  {
    if |parts| > 0 && parts[|parts| - 1] == "" then DropTrailingEmpty(parts[..|parts| - 1]) else parts
  }

  /**
   * `s.split(regex)` for a regex matching the single character `sep`, with
   * Java's default limit 0: a string without `sep` comes back whole, otherwise
   * the pieces between separators are returned with trailing empty pieces
   * removed.
   */
  function Split(s: string, sep: char): seq<string>
  {
    if sep !in s then [s] else DropTrailingEmpty(SplitAll(s, sep))
  }

  lemma {:induction false} SplitAllPrefix(a: string, sep: char, rest: string)
    requires sep !in a
    ensures SplitAll(a + [sep] + rest, sep) == [a] + SplitAll(rest, sep)
  {
    var s := a + [sep] + rest;
    if |a| > 0 {
      assert s[0] == a[0] && a[0] != sep;
      assert s[1..] == a[1..] + [sep] + rest;
      SplitAllPrefix(a[1..], sep, rest);
      assert SplitAll(s, sep) == [[s[0]] + SplitAll(s[1..], sep)[0]] + SplitAll(s[1..], sep)[1..];
      assert [a[0]] + a[1..] == a;
    } else {
      assert a + [sep] + rest == [sep] + rest;
    }
  }

  lemma SplitAllNoSep(a: string, sep: char)
    requires sep !in a
    ensures SplitAll(a, sep) == [a]
  {
    if |a| > 0 {
      assert a[0] != sep;
      SplitAllNoSep(a[1..], sep);
      assert [a[0]] + a[1..] == a;
    }
  }

  /** Appending one separator adds one empty piece at the end. */
  lemma {:induction false} SplitAllAppendSep(s: string, sep: char)
    ensures SplitAll(s + [sep], sep) == SplitAll(s, sep) + [""]
  {
    if |s| == 0 {
      assert [] + [sep] == [sep];
      assert SplitAll([sep], sep) == [""] + SplitAll([], sep);
    } else {
      assert (s + [sep])[1..] == s[1..] + [sep];
      SplitAllAppendSep(s[1..], sep);
    }
  }

  lemma CountCharZero(s: string, c: char)
    ensures CountChar(s, c) == 0 <==> c !in s
  {
    if |s| > 0 {
      CountCharZero(s[1..], c);
      assert s == [s[0]] + s[1..];
    }
  }

  // ---------------------------------------------------------------------------
  // Lines, as BufferedReader.readLine delimits them

  const CR: char := '\r'
  const LF: char := '\n'

  predicate NoLineBreak(s: string) { forall i :: 0 <= i < |s| ==> s[i] != CR && s[i] != LF }

  /** The index of the first CR or LF of `s`, or `|s|` when there is none. */
  function LineEnd(s: string): (k: nat)
    ensures k <= |s| && NoLineBreak(s[..k])
    ensures k < |s| ==> s[k] == CR || s[k] == LF
  {
    if |s| == 0 || s[0] == CR || s[0] == LF then 0
    else
      assert s[..1 + LineEnd(s[1..])] == [s[0]] + s[1..][..LineEnd(s[1..])];
      1 + LineEnd(s[1..])
  }

  /**
   * The lines `readLine` returns one by one until it returns null: a line ends
   * at LF, at CR, or at CR LF; a final line without a terminator is still
   * returned; an empty text has no lines.
   */
  function ReadLines(s: string): (lines: seq<string>)
    ensures forall i :: 0 <= i < |lines| ==> NoLineBreak(lines[i])
    decreases |s|
  {
    if |s| == 0 then []
    else
      var k := LineEnd(s);
      var next := if k == |s| then k
                  else if s[k] == CR && k + 1 < |s| && s[k + 1] == LF then k + 2
                  else k + 1;
      [s[..k]] + ReadLines(s[next..])
  }

  /** Each line followed by CR LF, as `sb.append(line).append("\r\n")` builds it. */
  function JoinLines(lines: seq<string>): string
  {
    if |lines| == 0 then "" else lines[0] + "\r\n" + JoinLines(lines[1..])
  }

  lemma {:induction false} LineEndOfLine(line: string, rest: string)
    requires NoLineBreak(line)
    requires |rest| == 0 || rest[0] == CR || rest[0] == LF
    ensures LineEnd(line + rest) == |line|
  {
    if |line| == 0 {
      assert line + rest == rest;
    } else {
      assert (line + rest)[0] == line[0];
      assert line[0] != CR && line[0] != LF;
      assert (line + rest)[1..] == line[1..] + rest;
      assert NoLineBreak(line[1..]) by {
        forall i | 0 <= i < |line[1..]| ensures line[1..][i] != CR && line[1..][i] != LF {
          assert line[1..][i] == line[i + 1];
        }
      }
      LineEndOfLine(line[1..], rest);
      assert LineEnd(line + rest) == 1 + LineEnd((line + rest)[1..]);
    }
  }

  /** Reading back text written as CR LF terminated lines gives those lines. */
  lemma {:induction false} ReadJoinedLines(lines: seq<string>)
    requires forall i :: 0 <= i < |lines| ==> NoLineBreak(lines[i])
    ensures ReadLines(JoinLines(lines)) == lines
  {
    if |lines| > 0 {
      var s := JoinLines(lines);
      var l := lines[0];
      var tail := JoinLines(lines[1..]);
      assert s == l + ("\r\n" + tail);
      LineEndOfLine(l, "\r\n" + tail);
      assert s[|l|] == CR && s[|l| + 1] == LF;
      assert s[..|l|] == l;
      assert s[|l| + 2..] == tail;
      ReadJoinedLines(lines[1..]);
    }
  }

  /** Appending to a StringBuilder line by line builds the joined text. */
  lemma JoinLinesSnoc(lines: seq<string>, line: string)
    ensures JoinLines(lines + [line]) == JoinLines(lines) + line + "\r\n"
  {
    if |lines| > 0 {
      assert (lines + [line])[1..] == lines[1..] + [line];
      JoinLinesSnoc(lines[1..], line);
    } else {
      assert [] + [line] == [line];
    }
  }
}
