/**
 * The parts of Python's built-in sequence and string behaviour that the
 * modelled code relies on: slicing with clamped and negative bounds,
 * `str.replace` for a one-character pattern, `str.strip`/`lstrip`/`rstrip`,
 * `str.join`, and the integer formats `x`, `02x`, `08x`, `02d` and `d`.
 */
module PyBuiltins {
  import opened Arith

  // ---------------------------------------------------------------- slices

  /** A slice bound normalised as Python does for step 1: negative counts from the end, then clamp. */
  function SliceBound(n: nat, i: int): (k: nat)
    ensures k <= n
    ensures 0 <= i <= n ==> k == i
    ensures i > n ==> k == n
  {
    if i < 0 then (if n + i < 0 then 0 else n + i) else if i > n then n else i
  }

  /** `s[i:j]` */
  function Slice<T>(s: seq<T>, i: int, j: int): (r: seq<T>)
    ensures |r| <= |s|
    ensures 0 <= i <= j <= |s| ==> r == s[i..j]
  {
    var a := SliceBound(|s|, i);
    var b := SliceBound(|s|, j);
    if a < b then s[a..b] else []
  }

  /**
   * A slice whose end does not pass its start is empty when both bounds have the same sign;
   * a negative end after a non-negative start counts from the end and can still give elements.
   */
  lemma SliceEmpty<T>(s: seq<T>, i: int, j: int)
    requires j <= i && (j >= 0 || i < 0)
    ensures Slice(s, i, j) == []
  {
    assert SliceBound(|s|, j) <= SliceBound(|s|, i);
  }

  /** `s[:j]` for `j >= 0`: the first `min(j, len(s))` elements. */
  function Prefix<T>(s: seq<T>, j: nat): (r: seq<T>)
    ensures |r| == if j < |s| then j else |s|
    ensures r <= s
  {
    if j < |s| then s[..j] else s
  }

  // ---------------------------------------------------------------- strings

  function CountChar(s: string, c: char): (n: nat)
    ensures n <= |s|
    ensures n == 0 <==> c !in s
  {
    if s == [] then 0 else (if s[0] == c then 1 else 0) + CountChar(s[1..], c)
  }

  /** `s.replace(c, with)` for a one-character pattern `c`. */
  function Replace(s: string, c: char, with: string): (r: string)
    ensures forall x :: x in r ==> x in with || x in s
    ensures c !in with ==> c !in r
    ensures |with| == 1 ==> |r| == |s| && forall i :: 0 <= i < |s| ==> r[i] == if s[i] == c then with[0] else s[i]
  {
    if s == [] then []
    else (if s[0] == c then with else [s[0]]) + Replace(s[1..], c, with)
  }

  /** Each occurrence of `c` grows the text by `|with| - 1`. */
  lemma {:induction false} ReplaceLength(s: string, c: char, with: string)
    ensures |Replace(s, c, with)| == |s| + CountChar(s, c) * (|with| - 1)
  {
    if s != [] {
      ReplaceLength(s[1..], c, with);
      var k := CountChar(s[1..], c);
      var rest := Replace(s[1..], c, with);
      if s[0] == c {
        assert Replace(s, c, with) == with + rest;
        assert CountChar(s, c) == 1 + k;
        MulSucc(k, |with| - 1);
      } else {
        assert Replace(s, c, with) == [s[0]] + rest;
        assert CountChar(s, c) == k;
      }
    }
  }

  /**
   * The whitespace characters that `str.strip()` removes: those for which
   * `str.isspace()` holds.
   */
  function Whitespace(): set<char> {
    {'\t', '\n', '\U{0B}', '\U{0C}', '\r', '\U{1C}', '\U{1D}', '\U{1E}', '\U{1F}', ' ',
    '\U{85}', '\U{A0}', '\U{1680}', '\U{2000}', '\U{2001}', '\U{2002}', '\U{2003}',
    '\U{2004}', '\U{2005}', '\U{2006}', '\U{2007}', '\U{2008}', '\U{2009}', '\U{200A}',
    '\U{2028}', '\U{2029}', '\U{202F}', '\U{205F}', '\U{3000}'}
  }

  /** `s.lstrip(chars)`: drops the longest prefix made of characters in `cs`. */
  function LStrip(s: string, cs: set<char>): (r: string)
    ensures |r| <= |s| && r == s[|s| - |r|..]
    ensures r == [] || r[0] !in cs
    ensures forall i :: 0 <= i < |s| - |r| ==> s[i] in cs
  {
    if s == [] || s[0] !in cs then s else LStrip(s[1..], cs)
  }

  /** `s.rstrip(chars)`: drops the longest suffix made of characters in `cs`. */
  function RStrip(s: string, cs: set<char>): (r: string)
    ensures |r| <= |s| && r == s[..|r|]
    ensures r == [] || r[|r| - 1] !in cs
    ensures forall i :: |r| <= i < |s| ==> s[i] in cs
  {
    if s == [] || s[|s| - 1] !in cs then s else RStrip(s[..|s| - 1], cs)
  }

  /** `s.strip(chars)` */
  function Strip(s: string, cs: set<char>): (r: string)
    ensures r == [] || (r[0] !in cs && r[|r| - 1] !in cs)
    ensures r <= LStrip(s, cs)
  {
    RStrip(LStrip(s, cs), cs)
  }

  /** Stripping only removes characters. */
  lemma StripKeeps(s: string, cs: set<char>)
    ensures forall x :: x in Strip(s, cs) ==> x in s
  {
    var l := LStrip(s, cs);
    var r := Strip(s, cs);
    forall x | x in r
      ensures x in s
    {
      var i :| 0 <= i < |r| && r[i] == x;
      assert l[i] == x;
      assert s[|s| - |l| + i] == x;
    }
  }

  /** `sep.join(parts)` */
  function Join(sep: string, parts: seq<string>): string
  {
    if parts == [] then ""
    else if |parts| == 1 then parts[0]
    else parts[0] + sep + Join(sep, parts[1..])
  }

  /** Joining one more part appends the separator and that part. */
  lemma {:induction false} JoinSnoc(sep: string, parts: seq<string>, last: string)
    requires parts != []
    ensures Join(sep, parts + [last]) == Join(sep, parts) + sep + last
  {
    if |parts| > 1 {
      JoinSnoc(sep, parts[1..], last);
      assert (parts + [last])[1..] == parts[1..] + [last];
    }
  }

  // ---------------------------------------------------------------- integer formats

  /** The character for digit `d` (lower-case letters above 9). */
  function DigitChar(d: nat): (c: char)
    requires d < 16
    ensures IsDigitChar(c, 16)
  {
    if d < 10 then ('0' as int + d) as char else ('a' as int + d - 10) as char
  }

  predicate IsDigitChar(c: char, base: nat)
    requires 2 <= base <= 16
  {
    ('0' <= c <= '9' && (c as int) - ('0' as int) < base) || ('a' <= c <= 'f' && (c as int) - ('a' as int) + 10 < base)
  }

  /** The digit a character stands for (0 for a non-digit). */
  function DigitValue(c: char): (d: nat)
    ensures d < 16
  {
    if '0' <= c <= '9' then (c as int) - ('0' as int)
    else if 'a' <= c <= 'f' then (c as int) - ('a' as int) + 10
    else 0
  }

  /** `format(n, 'x')` (base 16) and `str(n)` (base 10) for `n >= 0`: no leading zeros, "0" for zero. */
  function Digits(n: nat, base: nat): (s: string)
    requires 2 <= base <= 16
    ensures 1 <= |s|
    ensures forall i :: 0 <= i < |s| ==> IsDigitChar(s[i], base)
    ensures |s| > 1 ==> s[0] != '0'
  {
    if n < base then [DigitChar(n)]
    else
      DivStep(n, base);
      Digits(n / base, base) + [DigitChar(n % base)]
  }

  function Hex(n: nat): string { Digits(n, 16) }

  function Decimal(n: nat): string { Digits(n, 10) }

  function Repeat(c: char, k: nat): (s: string)
    ensures |s| == k && forall i :: 0 <= i < k ==> s[i] == c
  {
    if k == 0 then [] else [c] + Repeat(c, k - 1)
  }

  /** The `0w` format flag: left-pads with '0' up to width `w`. */
  function ZeroPad(s: string, w: nat): (r: string)
    ensures |r| == if |s| < w then w else |s|
    ensures s <= r[|r| - |s|..] && r[..|r| - |s|] == Repeat('0', |r| - |s|)
  {
    if |s| < w then Repeat('0', w - |s|) + s else s
  }

  /** The `<w` format flag: pads on the right with ' ' up to width `w`. */
  function LJust(s: string, w: int): (r: string)
    ensures |r| == if |s| < w then w else |s|
    ensures r[..|s|] == s && forall i :: |s| <= i < |r| ==> r[i] == ' '
  {
    if |s| < w then s + Repeat(' ', w - |s|) else s
  }

  /** The value of a digit string in the given base; the inverse of `Digits`. */
  function ParseDigits(s: string, base: nat): nat
    requires 2 <= base <= 16
  {
    if s == [] then 0 else ParseDigits(s[..|s| - 1], base) * base + DigitValue(s[|s| - 1])
  }

  /** Reading back what `Digits` writes gives the number. */
  lemma {:induction false} ParseDigitsOfDigits(n: nat, base: nat)
    requires 2 <= base <= 16
    ensures ParseDigits(Digits(n, base), base) == n
  {
    var s := Digits(n, base);
    if n >= base {
      DivStep(n, base);
      assert s[..|s| - 1] == Digits(n / base, base);
      ParseDigitsOfDigits(n / base, base);
    } else {
      assert s[..|s| - 1] == [];
    }
  }

  /** Leading zeros do not change the value read back. */
  lemma {:induction false} ParseDigitsZeroPad(k: nat, s: string, base: nat)
    requires 2 <= base <= 16
    ensures ParseDigits(Repeat('0', k) + s, base) == ParseDigits(s, base)
    decreases |s|, k
  {
    var t := Repeat('0', k) + s;
    if s == [] {
      if k > 0 {
        assert t[..|t| - 1] == Repeat('0', k - 1) + [];
        ParseDigitsZeroPad(k - 1, s, base);
      }
    } else {
      assert t[..|t| - 1] == Repeat('0', k) + s[..|s| - 1];
      ParseDigitsZeroPad(k, s[..|s| - 1], base);
    }
  }

  /** A zero-padded number reads back as the number. */
  lemma PaddedReadsBack(n: nat, w: nat, base: nat)
    requires 2 <= base <= 16
    ensures ParseDigits(ZeroPad(Digits(n, base), w), base) == n
  {
    var d := Digits(n, base);
    ParseDigitsOfDigits(n, base);
    if |d| < w {
      assert ZeroPad(d, w) == Repeat('0', w - |d|) + d;
      ParseDigitsZeroPad(w - |d|, d, base);
    } else {
      assert ZeroPad(d, w) == d;
    }
  }

  function Power(b: nat, e: nat): (p: nat)
    ensures b >= 1 ==> p >= 1
  {
    if e == 0 then 1 else b * Power(b, e - 1)
  }

  /** Numbers below `base^w` are written in at most `w` digits. */
  lemma {:induction false} DigitsWidth(n: nat, base: nat, w: nat)
    requires 2 <= base <= 16 && 1 <= w && n < Power(base, w)
    ensures |Digits(n, base)| <= w
  {
    if n >= base {
      DivStep(n, base);
      var q := n / base;
      var p := Power(base, w - 1);
      assert Power(base, 1) == base;
      assert w >= 2;
      assert Power(base, w) == p * base;
      MulMonotone(q, p, base);
      assert q * base <= n < p * base;
      assert q < p;
      DigitsWidth(q, base, w - 1);
      assert Digits(n, base) == Digits(q, base) + [DigitChar(n % base)];
    }
  }
}
