/**
 * The pieces of the Java runtime that the toolchain's string handling depends on, stated
 * explicitly: Integer.parseInt and Integer.parseUnsignedInt (sign, radix digits, 32-bit
 * overflow), Integer.toHexString and Integer.toBinaryString (unsigned 32-bit rendering of
 * negative values, lower case, no leading zeros), the "prepend 0 until long enough" padding
 * loops, String.toUpperCase on ASCII, String.trim, String.isBlank and String.split.
 *
 * Fixed-width digit strings are described by Digits(n, b, w): the w lowest base-b digits of
 * n, most significant first. Every rendering is related to it, and DigitsValue reads it back.
 */
module JavaText {
  import opened Wrappers

  const INT_MIN: int := -0x8000_0000
  const INT_MAX: int := 0x7FFF_FFFF
  const TWO_32: int := 0x1_0000_0000

  predicate IsInt32(v: int) { INT_MIN <= v <= INT_MAX }

  /** Java's int. */
  type Int32 = v: int | INT_MIN <= v <= INT_MAX

  /** Java's `/` on ints with a positive divisor: the quotient truncated toward zero. */
  function JavaDiv(a: int, b: int): int
    requires b > 0
  {
    if a >= 0 then a / b else -((-a) / b)
  }

  /** Java's `%` on ints with a positive divisor: the remainder takes the sign of a. */
  function JavaRem(a: int, b: int): int
    requires b > 0
  {
    if a >= 0 then a % b else -((-a) % b)
  }

  function Pow(b: nat, e: nat): (r: nat)
    ensures b > 0 ==> r > 0
  {
    if e == 0 then 1 else b * Pow(b, e - 1)
  }

  // ---------------------------------------------------------------- digits

  /** Character.digit over ASCII: the value of c as a digit of a base up to 36, or -1. */
  function DigitValue(c: char): int
  {
    if '0' <= c <= '9' then c as int - '0' as int
    else if 'a' <= c <= 'z' then c as int - 'a' as int + 10
    else if 'A' <= c <= 'Z' then c as int - 'A' as int + 10
    else -1
  }

  predicate IsDigit(c: char, radix: nat) { 0 <= DigitValue(c) < radix }

  predicate AllDigits(s: string, radix: nat)
  {
    forall i | 0 <= i < |s| :: IsDigit(s[i], radix)
  }

  /** The value of a digit string, most significant digit first. */
  function DigitsValue(s: string, radix: nat): nat
    requires AllDigits(s, radix)
  {
    if |s| == 0 then 0 else DigitsValue(s[..|s| - 1], radix) * radix + DigitValue(s[|s| - 1])
  }

  /** The lower-case digit character Java prints for d. */
  function DigitChar(d: nat): (c: char)
    requires d < 16
    ensures DigitValue(c) == d
  {
    if d < 10 then ('0' as int + d) as char else ('a' as int + d - 10) as char
  }

  /** Natural-number quotient and remainder, named so that proofs about digits stay linear. */
  function Quot(n: nat, d: nat): nat
    requires d > 0
  {
    n / d
  }

  function Rem(n: nat, d: nat): (r: nat)
    requires d > 0
    ensures r < d
  {
    n % d
  }

  /** The w lowest base-b digits of n, most significant first. */
  function Digits(n: nat, b: nat, w: nat): (r: string)
    requires 2 <= b <= 16
    ensures |r| == w && AllDigits(r, b)
  {
    if w == 0 then [] else Digits(Quot(n, b), b, w - 1) + [DigitChar(Rem(n, b))]
  }

  function Zeros(k: nat): (r: string)
    ensures |r| == k && forall i | 0 <= i < k :: r[i] == '0'
  {
    if k == 0 then [] else "0" + Zeros(k - 1)
  }

  /** The number of digits Java prints for n (at least one). */
  function NumDigits(n: nat, b: nat): (k: nat)
    requires b >= 2
    ensures k >= 1
  {
    if n < b then 1 else 1 + NumDigits(Quot(n, b), b)
  }

  /** n in base b without leading zeros ("0" for zero). */
  function NatToDigits(n: nat, b: nat): (r: string)
    requires 2 <= b <= 16
  {
    Digits(n, b, NumDigits(n, b))
  }

  /** The unsigned reading of a 32-bit int, as toHexString and toBinaryString use it. */
  function Unsigned32(v: int): (u: nat)
    requires IsInt32(v)
    ensures u < TWO_32 && u % TWO_32 == v % TWO_32
  {
    if v < 0 then v + TWO_32 else v
  }

  function ToHexString(v: int): string
    requires IsInt32(v)
  {
    NatToDigits(Unsigned32(v), 16)
  }

  function ToBinaryString(v: int): string
    requires IsInt32(v)
  {
    NatToDigits(Unsigned32(v), 2)
  }

  /** The source's `while (s.length() < w) s = "0" + s;` loop. */
  function PadZeros(s: string, w: nat): (r: string)
    decreases w - |s|
    ensures r == if |s| < w then Zeros(w - |s|) + s else s
  {
    if |s| < w then
      var r := PadZeros("0" + s, w);
      assert Zeros(w - |s|) == "0" + Zeros(w - |s| - 1);
      r
    else s
  }

  /** Pad to w with zeros, or keep only the last w characters (the literal and .FILL renderings). */
  function PadOrLast(s: string, w: nat): (r: string)
    ensures |r| == if |s| <= w then w else w
    ensures |s| > w ==> r == s[|s| - w..]
  {
    if |s| <= w then PadZeros(s, w) else s[|s| - w..]
  }

  function UpperChar(c: char): char
  {
    if 'a' <= c <= 'z' then (c as int - 32) as char else c
  }

  /** String.toUpperCase over ASCII. */
  function Upper(s: string): (r: string)
    ensures |r| == |s| && forall i | 0 <= i < |s| :: r[i] == UpperChar(s[i])
  {
    seq(|s|, i requires 0 <= i < |s| => UpperChar(s[i]))
  }

  predicate IsUpperHex(s: string)
  {
    forall i | 0 <= i < |s| :: ('0' <= s[i] <= '9' || 'A' <= s[i] <= 'F')
  }

  /** The four upper-case hex digits of the low 16 bits of v (the object file's word format). */
  function HexWord(v: nat): string
  {
    Upper(Digits(v, 16, 4))
  }

  /** Java int arithmetic: the value with the same low 32 bits, read as two's complement. */
  function WrapInt(v: int): (r: int)
    ensures IsInt32(r) && (r - v) % TWO_32 == 0
    ensures IsInt32(v) ==> r == v
  {
    (v - INT_MIN) % TWO_32 + INT_MIN
  }

  /** Upper case hex digits of u, zero-padded to at least k digits. */
  function HexPad(u: nat, k: nat): (r: string)
    decreases u, k
  {
    if u < 16 && k <= 1 then [UpperChar(DigitChar(u))]
    else HexPad(u / 16, if k > 0 then k - 1 else 0) + [UpperChar(DigitChar(u % 16))]
  }

  /** String.format("%04X", v) for an int v: upper case hex of its 32-bit pattern, at least four digits. */
  function FormatHex(v: int): string
  {
    HexPad(Unsigned32(WrapInt(v)), 4)
  }

  /** A decimal rendering of v (Integer.toString). */
  function DecString(v: int): string
  {
    if v < 0 then "-" + NatToDigits(-v, 10) else NatToDigits(v, 10)
  }

  // ---------------------------------------------------------------- parsing

  /**
   * Integer.parseInt(s, radix): an optional sign, then at least one digit of the radix; the
   * value must fit in 32 bits. None stands for NumberFormatException.
   */
  function ParseInt(s: string, radix: nat): (r: Option<int>)
    ensures r.Some? ==> IsInt32(r.value)
  {
    if |s| == 0 then None
    else
      var body := if s[0] == '-' || s[0] == '+' then s[1..] else s;
      if |body| == 0 then None
      else
        match ReadDigits(body, radix)
        case None => None
        case Some(d) =>
          var v: int := if s[0] == '-' then -(d as int) else d as int;
          if IsInt32(v) then Some(v) else None
  }

  /** The value of s read as digits of the radix, or None when some character is not one. */
  function ReadDigits(s: string, radix: nat): Option<nat>
  {
    if |s| == 0 then Some(0)
    else
      match ReadDigits(s[..|s| - 1], radix)
      case None => None
      case Some(d) => if IsDigit(s[|s| - 1], radix) then Some(d * radix + DigitValue(s[|s| - 1])) else None
  }

  /** Reading the digits succeeds exactly on digit strings, with their value. */
  lemma {:induction false} ReadDigitsSpec(s: string, radix: nat)
    ensures ReadDigits(s, radix) == if AllDigits(s, radix) then Some(DigitsValue(s, radix)) else None
  {
    if |s| > 0 {
      var init := s[..|s| - 1];
      ReadDigitsSpec(init, radix);
      assert AllDigits(s, radix) <==> AllDigits(init, radix) && IsDigit(s[|s| - 1], radix) by {
        forall i | 0 <= i < |init| ensures init[i] == s[i] { }
      }
    }
  }

  /** parseInt as a condition on the digits: optional sign, then a non-empty digit string. */
  lemma ParseIntSpec(s: string, radix: nat)
    ensures ParseInt(s, radix) ==
      if |s| == 0 then None
      else
        var body := if s[0] == '-' || s[0] == '+' then s[1..] else s;
        if |body| == 0 || !AllDigits(body, radix) then None
        else
          var d: int := DigitsValue(body, radix);
          var v := if s[0] == '-' then -d else d;
          if IsInt32(v) then Some(v) else None
  {
    if |s| > 0 {
      ReadDigitsSpec(if s[0] == '-' || s[0] == '+' then s[1..] else s, radix);
    }
  }

  /** Integer.parseUnsignedInt(s, radix): digits only (or a leading '+'), value below 2^32. */
  function ParseUnsignedInt(s: string, radix: nat): (r: Option<nat>)
    ensures r.Some? ==> r.value < TWO_32
  {
    if |s| == 0 || s[0] == '-' then None
    else
      var body := if s[0] == '+' then s[1..] else s;
      if |body| == 0 || !AllDigits(body, radix) then None
      else if DigitsValue(body, radix) < TWO_32 then Some(DigitsValue(body, radix))
      else None
  }

  // ---------------------------------------------------------------- text

  /** The characters String.trim removes (code point at most U+0020). */
  predicate IsTrimmable(c: char) { c <= ' ' }

  /** Character.isWhitespace over ASCII. */
  predicate IsWhitespace(c: char)
  {
    c == ' ' || c == '\t' || c == '\n' || c == '\r' || c == 11 as char || c == 12 as char
    || (28 as char <= c <= 31 as char)
  }

  predicate IsBlank(s: string)
  {
    forall i | 0 <= i < |s| :: IsWhitespace(s[i])
  }

  /** s.charAt(0) == c, false (rather than an exception) for the empty string. */
  predicate StartsWith(s: string, c: char)
  {
    |s| > 0 && s[0] == c
  }

  /** The leading characters String.trim removes, removed. */
  function TrimStart(s: string): (r: string)
    ensures |r| <= |s|
  {
    if |s| > 0 && IsTrimmable(s[0]) then TrimStart(s[1..]) else s
  }

  /** The trailing characters String.trim removes, removed. */
  function TrimEnd(s: string): (r: string)
    ensures |r| <= |s|
  {
    if |s| > 0 && IsTrimmable(s[|s| - 1]) then TrimEnd(s[..|s| - 1]) else s
  }

  /** String.trim: drop leading and trailing characters at most U+0020. */
  function Trim(s: string): (r: string)
    ensures |r| <= |s|
  {
    TrimEnd(TrimStart(s))
  }

  /** TrimStart drops exactly the leading run of trimmable characters. */
  lemma {:induction false} TrimStartSpec(s: string)
    ensures TrimStart(s) == s[|s| - |TrimStart(s)|..]
    ensures |TrimStart(s)| > 0 ==> !IsTrimmable(TrimStart(s)[0])
    ensures forall i | 0 <= i < |s| - |TrimStart(s)| :: IsTrimmable(s[i])
  {
    if |s| > 0 && IsTrimmable(s[0]) {
      TrimStartSpec(s[1..]);
      assert forall i | 1 <= i < |s| :: s[i] == s[1..][i - 1];
    }
  }

  /** TrimEnd drops exactly the trailing run of trimmable characters. */
  lemma {:induction false} TrimEndSpec(s: string)
    ensures TrimEnd(s) == s[..|TrimEnd(s)|]
    ensures |TrimEnd(s)| > 0 ==> !IsTrimmable(TrimEnd(s)[|TrimEnd(s)| - 1])
    ensures forall i | |TrimEnd(s)| <= i < |s| :: IsTrimmable(s[i])
  {
    if |s| > 0 && IsTrimmable(s[|s| - 1]) {
      TrimEndSpec(s[..|s| - 1]);
      assert s[..|s| - 1][..|TrimEnd(s)|] == s[..|TrimEnd(s)|];
    }
  }

  /** trim leaves neither end trimmable. */
  lemma TrimEnds(s: string)
    ensures |Trim(s)| > 0 ==> !IsTrimmable(Trim(s)[0]) && !IsTrimmable(Trim(s)[|Trim(s)| - 1])
  {
    TrimStartSpec(s);
    TrimEndSpec(TrimStart(s));
  }

  /** String.contains. */
  predicate Contains(s: string, t: string)
    decreases |s|
  {
    |t| <= |s| && (s[..|t|] == t || Contains(s[1..], t))
  }

  /** String.indexOf(c): the first position of c, or -1. */
  function IndexOf(s: string, c: char): (k: int)
    ensures -1 <= k < |s|
    ensures k >= 0 ==> s[k] == c
  {
    if |s| == 0 then -1
    else if s[0] == c then 0
    else
      var k := IndexOf(s[1..], c);
      if k == -1 then -1 else k + 1
  }

  /** indexOf gives -1 exactly when c does not occur, and otherwise its first occurrence. */
  lemma {:induction false} IndexOfSpec(s: string, c: char)
    ensures IndexOf(s, c) == -1 <==> c !in s
    ensures IndexOf(s, c) >= 0 ==> c !in s[..IndexOf(s, c)]
  {
    if |s| > 0 && s[0] != c {
      var t := s[1..];
      IndexOfSpec(t, c);
      assert s == [s[0]] + t;
      var k := IndexOf(t, c);
      if k >= 0 {
        assert s[..k + 1] == [s[0]] + t[..k];
      }
    }
  }

  /** The first occurrence of c is where indexOf finds it. */
  lemma IndexOfFirst(s: string, c: char, k: int)
    requires 0 <= k < |s| && s[k] == c && c !in s[..k]
    ensures IndexOf(s, c) == k
  {
    var j := IndexOf(s, c);
    IndexOfSpec(s, c);
    assert s[k] in s;
    forall i | 0 <= i < k
      ensures s[i] != c
    {
      assert s[..k][i] == s[i];
    }
    forall i | 0 <= i < j
      ensures s[i] != c
    {
      assert s[..j][i] == s[i];
    }
  }

  /** The pieces of s between every occurrence of sep, in order (one more piece than separators). */
  function Pieces(s: string, sep: char): (r: seq<string>)
    ensures |r| >= 1
    ensures forall i | 0 <= i < |r| :: sep !in r[i]
  {
    if |s| == 0 then [""]
    else
      var rest := Pieces(s[1..], sep);
      if s[0] == sep then [""] + rest
      else [[s[0]] + rest[0]] + rest[1..]
  }

  /** The pieces joined back with sep. */
  function Join(ps: seq<string>, sep: char): string
    requires |ps| >= 1
  {
    if |ps| == 1 then ps[0] else ps[0] + [sep] + Join(ps[1..], sep)
  }

  function DropTrailingEmpty(ps: seq<string>): (r: seq<string>)
    ensures |r| <= |ps| && r == ps[..|r|]
    ensures |r| > 0 ==> r[|r| - 1] != ""
    ensures forall i | |r| <= i < |ps| :: ps[i] == ""
  {
    if |ps| == 0 then []
    else if ps[|ps| - 1] == "" then DropTrailingEmpty(ps[..|ps| - 1])
    else ps
  }

  /**
   * String.split with a one-character literal pattern and no limit: the whole string when
   * sep does not occur, otherwise the pieces with trailing empty ones removed.
   */
  function Split(s: string, sep: char): (r: seq<string>)
    ensures sep !in s ==> r == [s]
    ensures forall i | 0 <= i < |r| :: sep !in r[i]
  {
    if sep !in s then [s] else DropTrailingEmpty(Pieces(s, sep))
  }

  /** The pieces of s between maximal runs of spaces. */
  function SpaceRunPieces(s: string): (r: seq<string>)
    ensures |r| >= 1
    ensures forall i | 0 <= i < |r| :: ' ' !in r[i]
  {
    if |s| == 0 then [""]
    else
      var rest := SpaceRunPieces(s[1..]);
      if s[0] == ' ' then (if |s| > 1 && s[1] == ' ' then rest else [""] + rest)
      else [[s[0]] + rest[0]] + rest[1..]
  }

  /**
   * String.split with the pattern " +" (a string literal "\s+" with one backslash, which Java 15
   * and later read as a space followed by +): the whole string when it holds no space, else the
   * pieces between runs of spaces without trailing empty ones. Tabs and other white space stay
   * inside the pieces.
   */
  function SplitSpaces(s: string): (r: seq<string>)
    ensures ' ' !in s ==> r == [s]
  {
    if ' ' !in s then [s] else DropTrailingEmpty(SpaceRunPieces(s))
  }

  // ---------------------------------------------------------------- lemmas

  /** The powers the fixed-width fields of the machine use. */
  lemma PowFacts()
    ensures Pow(2, 3) == 8 && Pow(2, 4) == 16 && Pow(2, 5) == 32 && Pow(2, 6) == 64
    ensures Pow(2, 8) == 256 && Pow(2, 9) == 512 && Pow(2, 16) == 0x10000
    ensures Pow(16, 4) == 0x10000
  {
    assert Pow(2, 1) == 2;
    assert Pow(2, 2) == 4;
    assert Pow(2, 3) == 8;
    assert Pow(2, 4) == 16;
    assert Pow(2, 5) == 32;
    assert Pow(2, 6) == 64;
    assert Pow(2, 7) == 128;
    assert Pow(2, 8) == 256;
    assert Pow(2, 9) == 512;
    assert Pow(2, 10) == 1024;
    assert Pow(2, 11) == 2048;
    assert Pow(2, 12) == 4096;
    assert Pow(2, 13) == 8192;
    assert Pow(2, 14) == 16384;
    assert Pow(2, 15) == 32768;
    assert Pow(2, 16) == 65536;
    assert Pow(16, 1) == 16;
    assert Pow(16, 2) == 256;
    assert Pow(16, 3) == 4096;
    assert Pow(16, 4) == 65536;
  }

  lemma MulAtLeast(d: int, k: int)
    requires d > 0 && k >= 1
    ensures d * k >= d
    decreases k
  {
    if k > 1 {
      MulAtLeast(d, k - 1);
      assert d * k == d * (k - 1) + d;
    }
  }

  lemma MulMonotone(b: nat, x: nat, y: nat)
    requires x <= y
    ensures b * x <= b * y
  {
    assert b * y - b * x == b * (y - x);
  }

  /** Quotient and remainder are unique. */
  lemma DivModUnique(n: nat, d: nat, q: nat, r: nat)
    requires d > 0 && n == d * q + r && r < d
    ensures q == Quot(n, d) && r == Rem(n, d)
  {
    var q', r' := n / d, n % d;
    assert n == d * q' + r';
    if q > q' {
      assert d * (q - q') == d * q - d * q';
      MulAtLeast(d, q - q');
    } else if q < q' {
      assert d * (q' - q) == d * q' - d * q;
      MulAtLeast(d, q' - q);
    }
  }

  lemma QuotRem(n: nat, d: nat)
    requires d > 0
    ensures n == d * Quot(n, d) + Rem(n, d)
  {
  }

  /** Dividing by b then by m is dividing by b*m, and the remainder splits the same way. */
  lemma DivModMul(n: nat, b: nat, m: nat)
    requires b > 0 && m > 0
    ensures Quot(n, b * m) == Quot(Quot(n, b), m)
    ensures Rem(n, b * m) == b * Rem(Quot(n, b), m) + Rem(n, b)
  {
    var q1, r1 := Quot(n, b), Rem(n, b);
    var q2, r2 := Quot(q1, m), Rem(q1, m);
    var bm := b * m;
    QuotRem(n, b);
    QuotRem(q1, m);
    assert n == bm * q2 + (b * r2 + r1) by {
      assert b * q1 == b * (m * q2 + r2);
      assert b * (m * q2 + r2) == b * (m * q2) + b * r2;
      assert b * (m * q2) == bm * q2;
    }
    assert b * r2 + r1 < bm by {
      MulMonotone(b, r2, m - 1);
      assert b * (m - 1) == bm - b;
    }
    DivModUnique(n, bm, q2, b * r2 + r1);
  }

  lemma DigitsValueSnoc(s: string, c: char, radix: nat)
    requires AllDigits(s, radix) && IsDigit(c, radix)
    ensures AllDigits(s + [c], radix)
    ensures DigitsValue(s + [c], radix) == DigitsValue(s, radix) * radix + DigitValue(c)
  {
    assert (s + [c])[..|s + [c]| - 1] == s;
  }

  /** Reading back the w lowest digits of n gives n modulo b^w. */
  lemma {:induction false} DigitsValueOf(n: nat, b: nat, w: nat)
    requires 2 <= b <= 16
    ensures DigitsValue(Digits(n, b, w), b) == Rem(n, Pow(b, w))
    decreases w
  {
    if w == 0 {
      assert Rem(n, 1) == 0;
    } else {
      var p := Pow(b, w - 1);
      var q := Quot(n, b);
      var r := Rem(n, b);
      var x := Rem(q, p);
      assert DigitsValue(Digits(n, b, w), b) == x * b + r by {
        var s := Digits(q, b, w - 1);
        var c := DigitChar(r);
        assert Digits(n, b, w) == s + [c];
        DigitsValueOf(q, b, w - 1);
        DigitsValueSnoc(s, c, b);
      }
      assert Rem(n, Pow(b, w)) == b * x + r by {
        assert Pow(b, w) == b * p;
        DivModMul(n, b, p);
      }
      assert x * b == b * x;
    }
  }

  /** The w lowest digits of n split into its high k digits and its low j digits. */
  lemma {:induction false} DigitsSplit(n: nat, b: nat, k: nat, j: nat)
    requires 2 <= b <= 16
    ensures Digits(n, b, k + j) == Digits(Quot(n, Pow(b, j)), b, k) + Digits(n, b, j)
    decreases j
  {
    if j == 0 {
      assert Quot(n, 1) == n;
    } else {
      var p := Pow(b, j - 1);
      DigitsSplit(Quot(n, b), b, k, j - 1);
      assert Pow(b, j) == b * p;
      DivModMul(n, b, p);
    }
  }

  /** The w lowest digits of n depend only on n modulo b^w. */
  lemma {:induction false} DigitsMod(n: nat, b: nat, w: nat)
    requires 2 <= b <= 16
    ensures Digits(n, b, w) == Digits(Rem(n, Pow(b, w)), b, w)
    decreases w
  {
    if w > 0 {
      var p := Pow(b, w - 1);
      var t := Rem(n, b * p);
      var q := Quot(n, b);
      assert Pow(b, w) == b * p;
      DivModMul(n, b, p);
      assert t == b * Rem(q, p) + Rem(n, b);
      DivModUnique(t, b, Rem(q, p), Rem(n, b));
      DigitsMod(q, b, w - 1);
      DigitsMod(Quot(t, b), b, w - 1);
      DivModUnique(Rem(q, p), p, 0, Rem(q, p));
    }
  }

  lemma {:induction false} ZerosSnoc(w: nat)
    requires w > 0
    ensures Zeros(w) == Zeros(w - 1) + "0"
    decreases w
  {
    if w > 1 {
      ZerosSnoc(w - 1);
    }
  }

  lemma {:induction false} DigitsOfZero(b: nat, w: nat)
    requires 2 <= b <= 16
    ensures Digits(0, b, w) == Zeros(w)
    decreases w
  {
    if w > 0 {
      DigitsOfZero(b, w - 1);
      ZerosSnoc(w);
      assert Quot(0, b) == 0 && Rem(0, b) == 0;
    }
  }

  lemma QuotOfSmaller(n: nat, d: nat)
    requires n < d
    ensures Quot(n, d) == 0
  {
    assert n == d * 0 + n;
    DivModUnique(n, d, 0, n);
  }

  /** A value below b^k written in w >= k digits is its k digits behind w - k zeros. */
  lemma LeadingZeros(n: nat, b: nat, k: nat, w: nat)
    requires 2 <= b <= 16 && k <= w && n < Pow(b, k)
    ensures Digits(n, b, w) == Zeros(w - k) + Digits(n, b, k)
  {
    HighDigitsZero(n, b, k, w - k);
    DigitsSplitAt(n, b, w, k);
  }

  /** DigitsSplit with the total width given. */
  lemma DigitsSplitAt(n: nat, b: nat, w: nat, j: nat)
    requires 2 <= b <= 16 && j <= w
    ensures Digits(n, b, w) == Digits(Quot(n, Pow(b, j)), b, w - j) + Digits(n, b, j)
  {
    DigitsSplit(n, b, w - j, j);
  }

  /** Above the k digits of a value below b^k there are only zeros. */
  lemma HighDigitsZero(n: nat, b: nat, k: nat, m: nat)
    requires 2 <= b <= 16 && n < Pow(b, k)
    ensures Digits(Quot(n, Pow(b, k)), b, m) == Zeros(m)
  {
    QuotOfSmaller(n, Pow(b, k));
    DigitsOfZero(b, m);
  }

  lemma PowMonotone(b: nat, i: nat, j: nat)
    requires b >= 1 && i <= j
    ensures Pow(b, i) <= Pow(b, j)
    decreases j
  {
    if i < j {
      PowMonotone(b, i, j - 1);
      MulAtLeast(Pow(b, j - 1), b);
      assert Pow(b, j) == Pow(b, j - 1) * b;
    }
  }

  /** The quotient by b is below p exactly when the value is below b * p. */
  lemma QuotBelow(n: nat, b: nat, p: nat)
    requires b >= 2 && p >= 1
    ensures Quot(n, b) < p <==> n < b * p
  {
    var q := Quot(n, b);
    QuotRem(n, b);
    if q < p {
      MulMonotone(b, q, p - 1);
      assert b * (p - 1) == b * p - b;
    } else {
      MulMonotone(b, p, q);
    }
  }

  /** Java prints at most k digits exactly for the values below b^k. */
  lemma {:induction false} NumDigitsBound(n: nat, b: nat, k: nat)
    requires 2 <= b && k >= 1
    ensures NumDigits(n, b) <= k <==> n < Pow(b, k)
    decreases k
  {
    if n < b {
      PowMonotone(b, 1, k);
    } else if k > 1 {
      NumDigitsBound(Quot(n, b), b, k - 1);
      QuotBelow(n, b, Pow(b, k - 1));
    }
  }

  /** The rendering of n without leading zeros reads back as n. */
  lemma NatToDigitsValue(n: nat, b: nat)
    requires 2 <= b <= 16
    ensures DigitsValue(NatToDigits(n, b), b) == n
  {
    var k := NumDigits(n, b);
    NumDigitsBound(n, b, k);
    DigitsValueOf(n, b, k);
    DivModUnique(n, Pow(b, k), 0, n);
  }

  /** Zero-padding the Java rendering of n < b^w to w digits gives Digits(n, b, w). */
  lemma PadNatToDigits(n: nat, b: nat, w: nat)
    requires 2 <= b <= 16 && w >= 1 && n < Pow(b, w)
    ensures PadZeros(NatToDigits(n, b), w) == Digits(n, b, w)
  {
    var k := NumDigits(n, b);
    NumDigitsBound(n, b, w);
    NumDigitsBound(n, b, k);
    LeadingZeros(n, b, k, w);
  }

  /** Keeping the last w characters of a longer digit string keeps the w lowest digits. */
  lemma LastDigits(n: nat, b: nat, k: nat, w: nat)
    requires 2 <= b <= 16 && w <= k
    ensures Digits(n, b, k)[k - w..] == Digits(n, b, w)
  {
    DigitsSplit(n, b, k - w, w);
  }

  /**
   * The w-character rendering the source builds from toHexString/toBinaryString (pad with
   * zeros, or keep the last w characters) is the w lowest digits of the unsigned value.
   */
  lemma PadOrLastDigits(n: nat, b: nat, w: nat)
    requires 2 <= b <= 16 && w >= 1
    ensures PadOrLast(NatToDigits(n, b), w) == Digits(n, b, w)
  {
    var k := NumDigits(n, b);
    if k <= w {
      NumDigitsBound(n, b, w);
      PadNatToDigits(n, b, w);
    } else {
      LastDigits(n, b, k, w);
    }
  }

  lemma PadZerosUpper(s: string, w: nat)
    ensures PadZeros(Upper(s), w) == Upper(PadZeros(s, w))
  {
    if |s| < w {
      assert Upper(Zeros(w - |s|) + s) == Zeros(w - |s|) + Upper(s);
    }
  }

  lemma UpperDigits(s: string, radix: nat)
    requires AllDigits(s, radix)
    ensures AllDigits(Upper(s), radix)
    ensures DigitsValue(Upper(s), radix) == DigitsValue(s, radix)
    decreases |s|
  {
    if |s| > 0 {
      UpperDigits(s[..|s| - 1], radix);
      assert Upper(s)[..|s| - 1] == Upper(s[..|s| - 1]);
    }
  }

  lemma UpperHexDigits(n: nat, w: nat)
    ensures IsUpperHex(Upper(Digits(n, 16, w)))
  {
    var s := Digits(n, 16, w);
    forall i | 0 <= i < w ensures '0' <= Upper(s)[i] <= '9' || 'A' <= Upper(s)[i] <= 'F' {
      assert 0 <= DigitValue(s[i]) < 16;
    }
  }

  /** Integer.parseInt reads an unsigned digit string of an int-sized value back exactly. */
  lemma ParseIntDigits(s: string, radix: nat)
    requires |s| >= 1 && AllDigits(s, radix) && DigitsValue(s, radix) <= INT_MAX
    ensures ParseInt(s, radix) == Some(DigitsValue(s, radix))
  {
    assert IsDigit(s[0], radix);
    ParseIntSpec(s, radix);
  }

  lemma {:induction false} JoinPieces(s: string, sep: char)
    ensures Join(Pieces(s, sep), sep) == s
  {
    if |s| > 0 {
      JoinPieces(s[1..], sep);
      var rest := Pieces(s[1..], sep);
      if s[0] == sep {
        assert s == [sep] + s[1..];
      } else {
        var r := Pieces(s, sep);
        assert r[1..] == rest[1..];
        if |rest| == 1 {
          assert s == [s[0]] + rest[0];
        } else {
          assert Join(rest, sep) == rest[0] + [sep] + Join(rest[1..], sep);
          assert Join(r, sep) == ([s[0]] + rest[0]) + [sep] + Join(rest[1..], sep);
        }
      }
    }
  }

  /** The first piece is the text before the first separator, or all of s when there is none. */
  lemma {:induction false} PiecesHead(s: string, sep: char)
    ensures sep in s ==> 0 <= IndexOf(s, sep) && Pieces(s, sep)[0] == s[..IndexOf(s, sep)]
    ensures sep !in s ==> Pieces(s, sep)[0] == s
  {
    IndexOfSpec(s, sep);
    if |s| > 0 && s[0] != sep {
      var t := s[1..];
      PiecesHead(t, sep);
      assert s == [s[0]] + t;
      if sep in s {
        IndexOfSpec(t, sep);
        assert sep in t;
        assert s[..IndexOf(s, sep)] == [s[0]] + t[..IndexOf(t, sep)];
      }
    }
  }

  /** Every piece is empty exactly when s is made of separators only. */
  lemma {:induction false} PiecesAllEmpty(s: string, sep: char)
    ensures (forall i | 0 <= i < |Pieces(s, sep)| :: Pieces(s, sep)[i] == "")
      <==> (forall j | 0 <= j < |s| :: s[j] == sep)
  {
    if |s| > 0 {
      var t := s[1..];
      var rest := Pieces(t, sep);
      PiecesAllEmpty(t, sep);
      if s[0] == sep {
        assert Pieces(s, sep) == [""] + rest;
        assert forall i | 0 <= i < |rest| :: rest[i] == Pieces(s, sep)[i + 1];
        assert forall j | 0 <= j < |t| :: t[j] == s[j + 1];
      } else {
        assert Pieces(s, sep)[0] != "";
      }
    }
  }

  /**
   * String.split(sep)[0]: the array is empty exactly when s is a non-empty run of separators;
   * otherwise its first element is the text before the first separator.
   */
  lemma SplitHead(s: string, sep: char)
    ensures |Split(s, sep)| == 0 <==> |s| > 0 && forall j | 0 <= j < |s| :: s[j] == sep
    ensures sep in s ==> 0 <= IndexOf(s, sep)
    ensures |Split(s, sep)| > 0 && sep in s ==> Split(s, sep)[0] == s[..IndexOf(s, sep)]
    ensures sep !in s ==> Split(s, sep) == [s]
  {
    IndexOfSpec(s, sep);
    PiecesHead(s, sep);
    PiecesAllEmpty(s, sep);
    if |s| > 0 && forall j | 0 <= j < |s| :: s[j] == sep {
      assert s[0] in s;
    }
  }

  /** HexWord is always four characters. */
  lemma HexWordLength(v: nat)
    ensures |HexWord(v)| == 4
  {
    HexWordValue(v);
  }

  /** HexWord reads back as the value modulo 2^16. */
  lemma HexWordValue(v: nat)
    ensures |HexWord(v)| == 4 && IsUpperHex(HexWord(v)) && AllDigits(HexWord(v), 16)
    ensures DigitsValue(HexWord(v), 16) == v % 0x10000
  {
    UpperHexDigits(v, 4);
    UpperDigits(Digits(v, 16, 4), 16);
    DigitsValueOf(v, 16, 4);
    PowFacts();
  }

  /** Below 16^k the padded digits are exactly the k lowest digits, in upper case. */
  lemma {:induction false} HexPadDigits(u: nat, k: nat)
    requires 1 <= k && u < Pow(16, k)
    ensures HexPad(u, k) == Upper(Digits(u, 16, k))
    decreases k
  {
    var low := [DigitChar(Rem(u, 16))];
    assert Digits(u, 16, k) == Digits(Quot(u, 16), 16, k - 1) + low;
    if k == 1 {
      assert Pow(16, 1) == 16;
      assert Digits(Quot(u, 16), 16, 0) == [];
      assert HexPad(u, k) == [UpperChar(DigitChar(u))];
    } else {
      assert Quot(u, 16) < Pow(16, k - 1);
      HexPadDigits(Quot(u, 16), k - 1);
      var high := Digits(Quot(u, 16), 16, k - 1);
      assert Upper(high + low) == Upper(high) + Upper(low);
    }
  }

  /** For a 16-bit value `%04X` prints exactly the four-digit word. */
  lemma FormatHexWord(v: int)
    requires 0 <= v < 0x10000
    ensures FormatHex(v) == HexWord(v)
  {
    assert WrapInt(v) == v && Unsigned32(v) == v;
    assert Pow(16, 4) == 0x10000 by {
      PowFacts();
    }
    HexPadDigits(v, 4);
  }

  /** Integer.parseInt(HexWord(v), 16) gives v back for every 16-bit v. */
  lemma ParseHexWord(v: nat)
    requires v < 0x10000
    ensures ParseInt(HexWord(v), 16) == Some(v)
  {
    var h := HexWord(v);
    HexWordValue(v);
    assert |h| >= 1 && AllDigits(h, 16) && DigitsValue(h, 16) == v;
    ParseIntDigits(h, 16);
  }

  lemma ParseIntNegative(s: string, radix: nat)
    requires |s| >= 2 && s[0] == '-' && AllDigits(s[1..], radix)
    requires DigitsValue(s[1..], radix) <= -INT_MIN
    ensures ParseInt(s, radix) == Some(-(DigitsValue(s[1..], radix) as int))
  {
    ParseIntSpec(s, radix);
  }

  /** Integer.parseInt(toHexString(v), 16) gives v back for every non-negative int. */
  lemma ParseHexString(v: nat)
    requires v <= INT_MAX
    ensures ParseInt(ToHexString(v), 16) == Some(v)
  {
    var s := NatToDigits(v, 16);
    assert ToHexString(v) == s;
    NatToDigitsValue(v, 16);
    ParseIntDigits(s, 16);
  }

  /** Integer.parseInt(Integer.toString(v)) gives v back for every int. */
  lemma ParseDecString(v: int)
    requires IsInt32(v)
    ensures ParseInt(DecString(v), 10) == Some(v)
  {
    if v < 0 {
      var n: nat := -v;
      var body := NatToDigits(n, 10);
      var s := "-" + body;
      assert DecString(v) == s;
      NatToDigitsValue(n, 10);
      assert s[0] == '-' && s[1..] == body;
      ParseIntNegative(s, 10);
    } else {
      var s := NatToDigits(v, 10);
      assert DecString(v) == s;
      NatToDigitsValue(v, 10);
      ParseIntDigits(s, 10);
    }
  }

  /** A digit string is below radix^length. */
  lemma {:induction false} DigitsValueBound(s: string, radix: nat)
    requires 2 <= radix && AllDigits(s, radix)
    ensures DigitsValue(s, radix) < Pow(radix, |s|)
    decreases |s|
  {
    if |s| > 0 {
      var t := s[..|s| - 1];
      var p := Pow(radix, |t|);
      var x := DigitsValue(t, radix);
      var d := DigitValue(s[|s| - 1]);
      assert x < p by {
        DigitsValueBound(t, radix);
      }
      assert DigitsValue(s, radix) == x * radix + d;
      assert Pow(radix, |s|) == radix * p;
      assert x * radix + d < radix * p by {
        MulMonotone(radix, x, p - 1);
        assert radix * (p - 1) == radix * p - radix;
        assert x * radix == radix * x;
      }
    }
  }

  /** A digit string of length w is Digits of its own value. */
  lemma {:induction false} DigitsOfValue(s: string, radix: nat)
    requires 2 <= radix <= 16 && AllDigits(s, radix)
    requires forall i | 0 <= i < |s| :: s[i] == DigitChar(DigitValue(s[i]))
    ensures Digits(DigitsValue(s, radix), radix, |s|) == s
    decreases |s|
  {
    if |s| > 0 {
      var t := s[..|s| - 1];
      var v := DigitsValue(s, radix);
      var d := DigitValue(s[|s| - 1]);
      DigitsOfValue(t, radix);
      assert v == radix * DigitsValue(t, radix) + d;
      DivModUnique(v, radix, DigitsValue(t, radix), d);
      assert s == t + [s[|s| - 1]];
    }
  }

  /** Digits(n, b, w) reads back as n when n fits in w digits. */
  lemma DigitsFit(n: nat, b: nat, w: nat)
    requires 2 <= b <= 16 && n < Pow(b, w)
    ensures DigitsValue(Digits(n, b, w), b) == n
  {
    DigitsValueOf(n, b, w);
    DivModUnique(n, Pow(b, w), 0, n);
  }

  /** The last four characters of toHexString (zero-padded) are the low 16 bits, two's complement. */
  lemma HexStringLow16(v: int)
    requires IsInt32(v)
    ensures PadOrLast(ToHexString(v), 4) == Digits(v % 0x10000, 16, 4)
  {
    var u := Unsigned32(v);
    assert ToHexString(v) == NatToDigits(u, 16);
    PadOrLastDigits(u, 16, 4);
    DigitsMod(u, 16, 4);
    PowFacts();
    UnsignedLow(v);
    assert Rem(u, Pow(16, 4)) == v % 0x10000;
  }

  /** The unsigned reading keeps the low bits. */
  lemma UnsignedLow(v: int)
    requires IsInt32(v)
    ensures Unsigned32(v) % 32 == v % 32
    ensures Unsigned32(v) % 0x10000 == v % 0x10000
  {
  }

  /** The last five characters of toBinaryString (zero-padded) are the low five bits. */
  lemma BinaryStringLow5(v: int)
    requires IsInt32(v)
    ensures PadOrLast(ToBinaryString(v), 5) == Digits(v % 32, 2, 5)
  {
    var u := Unsigned32(v);
    assert ToBinaryString(v) == NatToDigits(u, 2);
    PadOrLastDigits(u, 2, 5);
    DigitsMod(u, 2, 5);
    PowFacts();
    UnsignedLow(v);
    assert Rem(u, Pow(2, 5)) == v % 32;
  }

  /** Zero-padding toBinaryString of a value that fits in w bits gives its w-bit field. */
  lemma PaddedBinary(v: nat, w: nat)
    requires 1 <= w && v <= INT_MAX && v < Pow(2, w)
    ensures PadZeros(ToBinaryString(v), w) == Digits(v, 2, w)
  {
    PadNatToDigits(v, 2, w);
  }

  /** Bits 8..0 of a 16-bit binary rendering are the offset of the value within its 512-word page. */
  lemma PageOffsetBits(a: nat)
    requires a < 0x10000
    ensures PadZeros(ToBinaryString(a), 16)[7..] == Digits(a % 512, 2, 9)
  {
    PowFacts();
    PaddedBinary(a, 16);
    LastDigits(a, 2, 16, 9);
    DigitsMod(a, 2, 9);
  }

  /** A binary string of at most 16 digits converts to hex as HexWord of its value. */
  lemma BinaryToHexWord(s: string)
    ensures 1 <= |s| <= 16 && AllDigits(s, 2) ==>
      ParseUnsignedInt(s, 2) == Some(DigitsValue(s, 2)) &&
      PadZeros(Upper(NatToDigits(DigitsValue(s, 2), 16)), 4) == HexWord(DigitsValue(s, 2))
  {
    if 1 <= |s| <= 16 && AllDigits(s, 2) {
      var v := DigitsValue(s, 2);
      assert v < 0x10000 by {
        PowFacts();
        DigitsValueBound(s, 2);
        PowMonotone(2, |s|, 16);
      }
      assert ParseUnsignedInt(s, 2) == Some(v) by {
        assert s[0] != '+' && s[0] != '-';
      }
      assert PadZeros(Upper(NatToDigits(v, 16)), 4) == Upper(Digits(v, 16, 4)) by {
        PowFacts();
        PadZerosUpper(NatToDigits(v, 16), 4);
        PadNatToDigits(v, 16, 4);
      }
    }
  }
}
