/** Bytes, their hex text, and hex numbers, as packages/adapters/src/tron-tx.ts reads and prints them. */
module Hex {
  import opened Results

  type Byte = b: int | 0 <= b < 256
  type Bytes = seq<Byte>

  predicate IsDigit(c: char) {
    '0' <= c <= '9' || 'a' <= c <= 'f'
  }

  predicate AllDigits(s: string) {
    forall i :: 0 <= i < |s| ==> IsDigit(s[i])
  }

  function Digit(n: int): (c: char)
    requires 0 <= n < 16
    ensures IsDigit(c) && DigitValue(c) == n
  {
    if n < 10 then '0' + n as char else 'a' + (n - 10) as char
  }

  function DigitValue(c: char): (n: int)
    requires IsDigit(c)
    ensures 0 <= n < 16
  {
    if c <= '9' then (c - '0') as int else (c - 'a') as int + 10
  }

  lemma DigitOfValue(c: char)
    requires IsDigit(c)
    ensures Digit(DigitValue(c)) == c
  {
  }

  /** Two lower-case digits a byte. */
  function ToHex(b: Bytes): (s: string)
    ensures |s| == 2 * |b| && AllDigits(s)
  {
    if b == [] then ""
    else [Digit(b[0] / 16), Digit(b[0] % 16)] + ToHex(b[1..])
  }

  function Pairs(s: string): (b: Bytes)
    requires AllDigits(s) && |s| % 2 == 0
    ensures 2 * |b| == |s|
  {
    if s == "" then []
    else [16 * DigitValue(s[0]) + DigitValue(s[1])] + Pairs(s[2..])
  }

  function Lower(s: string): (r: string)
    ensures |r| == |s|
  {
    seq(|s|, i requires 0 <= i < |s| => if 'A' <= s[i] <= 'Z' then 'a' + (s[i] - 'A') else s[i])
  }

  function WithoutPrefix(s: string): string {
    if "0x" <= s then s[2..] else s
  }

  /** Reads hex in either case, with or without `0x`; an odd length or another character is refused. */
  function FromHex(h: string): Result<Bytes> {
    var s := WithoutPrefix(Lower(h));
    if |s| % 2 != 0 || !AllDigits(s) then Err(InvalidArgument) else Ok(Pairs(s))
  }

  lemma {:induction false} PairsToHex(b: Bytes)
    ensures Pairs(ToHex(b)) == b
  {
    if b != [] {
      assert ToHex(b)[2..] == ToHex(b[1..]);
      PairsToHex(b[1..]);
      assert b == [b[0]] + b[1..];
    }
  }

  lemma {:induction false} ToHexPairs(s: string)
    requires AllDigits(s) && |s| % 2 == 0
    ensures ToHex(Pairs(s)) == s
  {
    if s != "" {
      ToHexPairs(s[2..]);
      OneByte(s[0], s[1]);
      var b: Byte := 16 * DigitValue(s[0]) + DigitValue(s[1]);
      ToHexCons(b, Pairs(s[2..]));
      assert s == [s[0], s[1]] + s[2..];
    }
  }

  lemma OneByte(a: char, b: char)
    requires IsDigit(a) && IsDigit(b)
    ensures var n := 16 * DigitValue(a) + DigitValue(b);
            0 <= n < 256 && Digit(n / 16) == a && Digit(n % 16) == b
  {
    DigitOfValue(a);
    DigitOfValue(b);
  }

  lemma ToHexCons(x: Byte, rest: Bytes)
    ensures ToHex([x] + rest) == [Digit(x / 16), Digit(x % 16)] + ToHex(rest)
  {
    assert ([x] + rest)[1..] == rest;
  }

  lemma FromHexDigits(s: string)
    requires AllDigits(s) && |s| % 2 == 0
    ensures FromHex(s) == Ok(Pairs(s))
  {
    assert Lower(s) == s;
    assert |s| >= 2 ==> s[1] != 'x';
  }

  /** Reading what was printed gives back the bytes. */
  lemma FromHexToHex(b: Bytes)
    ensures FromHex(ToHex(b)) == Ok(b)
  {
    FromHexDigits(ToHex(b));
    PairsToHex(b);
  }

  // ---- numbers ------------------------------------------------------------------------------------------------

  /** `n.toString(16)`. */
  function NumberHex(n: nat): (s: string)
    ensures s != "" && AllDigits(s)
  {
    if n < 16 then [Digit(n)] else NumberHex(n / 16) + [Digit(n % 16)]
  }

  function Zeros(n: nat): (s: string)
    ensures |s| == n && forall i :: 0 <= i < n ==> s[i] == '0'
  {
    seq(n, _ => '0')
  }

  /** `s.padStart(width, '0')`. */
  function PadStart(s: string, width: nat): (r: string)
    ensures |r| == if |s| < width then width else |s|
  {
    if |s| < width then Zeros(width - |s|) + s else s
  }

  /** The number a run of hex digits names. */
  function HexNumber(s: string): nat
    requires AllDigits(s)
  {
    if s == "" then 0 else 16 * HexNumber(s[..|s| - 1]) + DigitValue(s[|s| - 1])
  }

  lemma {:induction false} HexNumberOfNumberHex(n: nat)
    ensures HexNumber(NumberHex(n)) == n
  {
    var s := NumberHex(n);
    if n < 16 {
      assert s[..0] == "";
    } else {
      HexNumberOfNumberHex(n / 16);
      assert s[..|s| - 1] == NumberHex(n / 16);
    }
  }

  lemma {:induction false} HexNumberIgnoresZeros(k: nat, s: string)
    requires AllDigits(s)
    ensures AllDigits(Zeros(k) + s) && HexNumber(Zeros(k) + s) == HexNumber(s)
  {
    var t := Zeros(k) + s;
    if s == "" {
      assert t == Zeros(k);
      if k > 0 {
        assert t[..k - 1] == Zeros(k - 1) + "";
        HexNumberIgnoresZeros(k - 1, "");
      }
    } else {
      assert t[..|t| - 1] == Zeros(k) + s[..|s| - 1];
      HexNumberIgnoresZeros(k, s[..|s| - 1]);
    }
  }

  lemma {:induction false} NumberHexLength(n: nat, digits: nat, bound: nat)
    requires digits > 0 && n < bound && bound == Pow16(digits)
    ensures |NumberHex(n)| <= digits
  {
    if n >= 16 {
      assert digits > 1;
      NumberHexLength(n / 16, digits - 1, Pow16(digits - 1));
    }
  }

  function Pow16(k: nat): (p: nat)
    ensures p > 0
  {
    if k == 0 then 1 else 16 * Pow16(k - 1)
  }

  /** A padded number of at most `width` digits reads back as itself. */
  lemma {:induction false} PaddedNumber(n: nat, width: nat)
    requires width > 0 && n < Pow16(width)
    ensures var s := PadStart(NumberHex(n), width);
            |s| == width && AllDigits(s) && HexNumber(s) == n
  {
    hide HexNumber, NumberHex, Pow16;
    NumberHexLength(n, width, Pow16(width));
    HexNumberOfNumberHex(n);
    HexNumberIgnoresZeros(width - |NumberHex(n)|, NumberHex(n));
    assert Zeros(0) + NumberHex(n) == NumberHex(n);
  }

  /** Padding what a run of digits names to its own length gives the run back. */
  lemma {:induction false} PaddedBack(s: string)
    requires s != "" && AllDigits(s)
    ensures PadStart(NumberHex(HexNumber(s)), |s|) == s
  {
    var p, c := s[..|s| - 1], s[|s| - 1];
    DigitOfValue(c);
    assert s == p + [c];
    assert HexNumber(s) == 16 * HexNumber(p) + DigitValue(c);
    if p == "" {
      assert HexNumber(p) == 0;
    } else {
      PaddedBack(p);
      PaddedOneMore(p, c, HexNumber(p));
    }
  }

  lemma PaddedOneMore(p: string, c: char, n: nat)
    requires p != "" && IsDigit(c) && PadStart(NumberHex(n), |p|) == p
    ensures PadStart(NumberHex(16 * n + DigitValue(c)), |p| + 1) == p + [c]
  {
    DigitOfValue(c);
    var x := NumberHex(n);
    if n == 0 {
      assert p == Zeros(|p| - 1) + "0" == Zeros(|p|);
    } else {
      assert NumberHex(16 * n + DigitValue(c)) == x + [c];
      assert p == if |x| < |p| then Zeros(|p| - |x|) + x else x;
    }
  }
}
