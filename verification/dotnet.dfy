/**
  The pieces of the .NET base library that the version helpers call:
  the `byte` type, nullable results, `char.IsWhiteSpace` / `string.IsNullOrWhiteSpace`,
  `Path.GetFileNameWithoutExtension`, `ToLowerInvariant` (ASCII only), and the
  decimal and `X2` number formats used in string interpolation.
 */
module DotNet {

  /** A .NET `byte`: an unsigned 8-bit value. */
  newtype byte = b: int | 0 <= b < 256

  /** A C# nullable value: `None` stands for `null` or `default`. */
  datatype Option<T> = None | Some(value: T)

  /** .NET exceptions that can escape the helpers. */
  datatype Exception = IOException

  /** The way a C# method ends: it returns a value or an exception escapes it. */
  datatype Outcome<T> = Returned(value: T) | Threw(exception: Exception)

  /** The files that can be opened and read to the end, with their contents; a failure to open or read one is an `IOException`. */
  type FileSystem = map<string, seq<byte>>

  /** One text file written with a `StreamWriter`: its name and the line written to it. */
  datatype FileWrite = FileWrite(path: string, line: string)

  // ---------------------------------------------------------------------------
  // Whitespace

  /** `char.IsWhiteSpace`: the Unicode categories Zs, Zl and Zp, plus U+0009..U+000D, U+0085 and U+00A0. */
  predicate IsWhiteSpace(c: char) {
    ('\t' <= c <= '\r') || c == ' ' || c == '\U{85}' || c == '\U{A0}' || c == '\U{1680}'
    || ('\U{2000}' <= c <= '\U{200A}') || c == '\U{2028}' || c == '\U{2029}'
    || c == '\U{202F}' || c == '\U{205F}' || c == '\U{3000}'
  }

  /** `string.IsNullOrWhiteSpace`: null, empty, or nothing but whitespace. */
  predicate IsNullOrWhiteSpace(s: Option<string>) {
    s.None? || forall i :: 0 <= i < |s.value| ==> IsWhiteSpace(s.value[i])
  }

  /** `string.TrimStart()`: `s` without its leading whitespace. */
  function TrimStart(s: string): (r: string)
    ensures |r| <= |s| && r == s[|s| - |r|..]
    ensures forall i :: 0 <= i < |s| - |r| ==> IsWhiteSpace(s[i])
    ensures r != [] ==> !IsWhiteSpace(r[0])
  {
    if s == [] || !IsWhiteSpace(s[0]) then s else TrimStart(s[1..])
  }

  // ---------------------------------------------------------------------------
  // Paths (Windows separators)

  predicate IsDirectorySeparator(c: char) {
    c == '\\' || c == '/'
  }

  /** `Path.GetFileName`: the part of `path` after its last directory separator. */
  function FileName(path: string): (name: string)
    ensures |name| <= |path| && name == path[|path| - |name|..]
    ensures forall i :: 0 <= i < |name| ==> !IsDirectorySeparator(name[i])
    ensures |name| < |path| ==> IsDirectorySeparator(path[|path| - |name| - 1])
  {
    if path == [] then []
    else if IsDirectorySeparator(path[|path| - 1]) then []
    else FileName(path[..|path| - 1]) + [path[|path| - 1]]
  }

  /** `ReadOnlySpan<char>.LastIndexOf`: the last position of `c` in `s`, or -1. */
  function LastIndexOf(s: string, c: char): (k: int)
    ensures -1 <= k < |s|
    ensures k >= 0 ==> s[k] == c
    ensures forall j :: k < j < |s| ==> s[j] != c
  {
    if s == [] then -1
    else if s[|s| - 1] == c then |s| - 1
    else LastIndexOf(s[..|s| - 1], c)
  }

  /** `Path.GetFileNameWithoutExtension`: the file name, cut before its last '.'. */
  function FileNameWithoutExtension(path: string): string {
    var name := FileName(path);
    var dot := LastIndexOf(name, '.');
    if dot < 0 then name else name[..dot]
  }

  // ---------------------------------------------------------------------------
  // Case

  function LowerChar(c: char): char {
    if 'A' <= c <= 'Z' then (c as int + 32) as char else c
  }

  /** `string.ToLowerInvariant`, restricted to ASCII letters. */
  function ToLowerInvariant(s: string): (r: string)
    ensures |r| == |s|
    ensures forall i :: 0 <= i < |s| ==> !('A' <= r[i] <= 'Z')
    ensures forall i :: 0 <= i < |s| ==>
              if 'A' <= s[i] <= 'Z' then r[i] as int == s[i] as int + 32 else r[i] == s[i]
  {
    if s == [] then [] else [LowerChar(s[0])] + ToLowerInvariant(s[1..])
  }

  // ---------------------------------------------------------------------------
  // Number formats

  predicate IsDigit(c: char) {
    '0' <= c <= '9'
  }

  predicate IsDigits(s: string) {
    forall i :: 0 <= i < |s| ==> IsDigit(s[i])
  }

  function DigitChar(d: int): char
    requires 0 <= d < 10
  {
    "0123456789"[d]
  }

  function DigitValue(c: char): (d: int)
    requires IsDigit(c)
    ensures 0 <= d < 10 && DigitChar(d) == c
  {
    c as int - '0' as int
  }

  /** An `int` formatted in decimal, as string interpolation writes a non-negative length. */
  function DecimalString(n: nat): (s: string)
    ensures |s| > 0 && IsDigits(s)
    ensures s[0] == '0' <==> n == 0
  {
    if n < 10 then [DigitChar(n)] else DecimalString(n / 10) + [DigitChar(n % 10)]
  }

  /** The value of a string of decimal digits. */
  function DigitsValue(s: string): nat
    requires IsDigits(s)
  {
    if s == [] then 0 else DigitsValue(s[..|s| - 1]) * 10 + DigitValue(s[|s| - 1])
  }

  predicate IsUpperHexDigit(c: char) {
    IsDigit(c) || 'A' <= c <= 'F'
  }

  function HexDigitChar(d: int): char
    requires 0 <= d < 16
  {
    "0123456789ABCDEF"[d]
  }

  function HexDigitValue(c: char): (d: int)
    requires IsUpperHexDigit(c)
    ensures 0 <= d < 16 && HexDigitChar(d) == c
  {
    if IsDigit(c) then c as int - '0' as int else c as int - 'A' as int + 10
  }

  /** The `X2` format of a byte: two upper-case hexadecimal digits, the high one first. */
  function X2(b: byte): (s: string)
    ensures |s| == 2
  {
    [HexDigitChar(b as int / 16), HexDigitChar(b as int % 16)]
  }

  // ---------------------------------------------------------------------------
  // Lemmas

  /**
    The blank-path guard: a path is null, empty or whitespace-only exactly when it
    is null or trimming its leading whitespace leaves nothing.
   */
  lemma {:induction false} BlankPathGuard(path: Option<string>)
    ensures IsNullOrWhiteSpace(path) <==> path.None? || TrimStart(path.value) == []
  {
    if path.Some? {
      AllWhiteSpaceTrimmed(path.value);
    }
  }

  lemma {:induction false} AllWhiteSpaceTrimmed(s: string)
    ensures (forall i :: 0 <= i < |s| ==> IsWhiteSpace(s[i])) <==> TrimStart(s) == []
  {
    if s != [] && IsWhiteSpace(s[0]) {
      AllWhiteSpaceTrimmed(s[1..]);
      assert forall i :: 1 <= i < |s| ==> s[i] == s[1..][i - 1];
    }
  }

  /**
    The name without extension is the file name when it has no '.', and otherwise
    the file name up to its last '.'.
   */
  lemma {:induction false} FileNameWithoutExtensionShape(path: string)
    ensures var stem, name := FileNameWithoutExtension(path), FileName(path);
            stem <= name &&
            (stem == name ==> '.' !in stem) &&
            (stem != name ==> name[|stem|] == '.' && '.' !in name[|stem| + 1..])
  {
  }

  /** Every hexadecimal digit value is written as an upper-case digit that reads back as itself. */
  lemma {:induction false} HexDigitRoundTrip(d: int)
    requires 0 <= d < 16
    ensures IsUpperHexDigit(HexDigitChar(d)) && HexDigitValue(HexDigitChar(d)) == d
  {
    var digits := "0123456789ABCDEF";
    assert digits[d] == HexDigitChar(d);
    if d < 10 {
      assert digits[d] as int == '0' as int + d;
    } else {
      assert digits[d] as int == 'A' as int + d - 10;
    }
  }

  /** `X2` writes two upper-case hexadecimal digits whose value is the byte. */
  lemma {:induction false} X2Digits(b: byte)
    ensures IsUpperHexDigit(X2(b)[0]) && IsUpperHexDigit(X2(b)[1])
    ensures HexDigitValue(X2(b)[0]) * 16 + HexDigitValue(X2(b)[1]) == b as int
  {
    HexDigitRoundTrip(b as int / 16);
    HexDigitRoundTrip(b as int % 16);
  }

  /** Two hexadecimal digit values make the byte whose `X2` format they are. */
  lemma {:induction false} X2Of(hi: int, lo: int)
    requires 0 <= hi < 16 && 0 <= lo < 16
    ensures X2((hi * 16 + lo) as byte) == [HexDigitChar(hi), HexDigitChar(lo)]
  {
    assert (hi * 16 + lo) / 16 == hi && (hi * 16 + lo) % 16 == lo;
  }

  /** Reading back a decimal rendering gives the number. */
  lemma {:induction false} DecimalRoundTrip(n: nat)
    ensures DigitsValue(DecimalString(n)) == n
  {
    var s := DecimalString(n);
    if n >= 10 {
      DecimalRoundTrip(n / 10);
      assert s[..|s| - 1] == DecimalString(n / 10);
    }
  }

  /** A digit string without a leading zero is the decimal rendering of its value. */
  lemma {:induction false} DecimalCanonical(s: string)
    requires |s| > 0 && IsDigits(s) && (|s| > 1 ==> s[0] != '0')
    ensures DecimalString(DigitsValue(s)) == s
  {
    if |s| > 1 {
      var init := s[..|s| - 1];
      DecimalCanonical(init);
      var v := DigitsValue(init);
      assert v != 0 by { assert DecimalString(v)[0] == s[0]; }
      var n := DigitsValue(s);
      assert n == v * 10 + DigitValue(s[|s| - 1]);
      assert n / 10 == v && n % 10 == DigitValue(s[|s| - 1]);
      assert s == init + [s[|s| - 1]];
    }
  }
}
