/**
  The C#-style byte-array literal that both version helpers write when a checksum
  is not in the catalog, e.g. `new byte[2] { 0x0A, 0xFF };`, and a parser for it.
  The literal is what `Version.GetByteArrayDeclarationString` returns; the
  declaration written by `Versions.OutputVersionString` ends with the same text.
 */
module ByteArrayLiteral {
  import opened DotNet

  /** One element as `AppendFormat("0x{0:X2}, ", b)` writes it, without the ", " that follows. */
  function HexEntry(b: byte): (s: string)
    ensures |s| == 4
  {
    "0x" + X2(b)
  }

  /** The elements of a non-empty array, each as a `HexEntry`, separated by ", ". */
  function Entries(cs: seq<byte>): (s: string)
    requires |cs| > 0
    ensures |s| == 6 * |cs| - 2
  {
    if |cs| == 1 then HexEntry(cs[0])
    else Entries(cs[..|cs| - 1]) + ", " + HexEntry(cs[|cs| - 1])
  }

  /** The opening `new byte[N] { ` the string builder starts from. */
  function Opening(n: nat): string {
    "new byte[" + DecimalString(n) + "] { "
  }

  /**
    The literal for `cs`. For an empty array the trim of the two characters after
    the last element removes the "{ " of the opening instead, which leaves two
    spaces before the closing brace and no opening brace.
   */
  function Declaration(cs: seq<byte>): string {
    if cs == [] then "new byte[0]  };"
    else Opening(|cs|) + Entries(cs) + " };"
  }

  /** What the string builder holds after the elements of `cs` were appended, each with its ", ". */
  function Appended(cs: seq<byte>): string {
    if cs == [] then "" else Entries(cs) + ", "
  }

  // ---------------------------------------------------------------------------
  // Parser

  /** Reads one `0xHH` element (upper-case digits only, as `X2` writes them). */
  function ParseHexEntry(s: string): Option<byte> {
    if |s| == 4 && s[0] == '0' && s[1] == 'x' && IsUpperHexDigit(s[2]) && IsUpperHexDigit(s[3])
    then Some((HexDigitValue(s[2]) * 16 + HexDigitValue(s[3])) as byte)
    else None
  }

  /** Reads a non-empty list of elements separated by ", ". */
  function ParseEntries(s: string): Option<seq<byte>>
    decreases |s|
  {
    if |s| == 4 then
      match ParseHexEntry(s)
      case Some(b) => Some([b])
      case None => None
    else if |s| >= 10 && s[|s| - 6..|s| - 4] == ", " then
      Snoc(ParseEntries(s[..|s| - 6]), ParseHexEntry(s[|s| - 4..]))
    else None
  }

  /** The elements read before the last ", " followed by the last one, when both were read. */
  function Snoc(init: Option<seq<byte>>, last: Option<byte>): Option<seq<byte>> {
    if init.Some? && last.Some? then Some(init.value + [last.value]) else None
  }

  /** The number of decimal digits at the start of `s`. */
  function DigitSpan(s: string): (k: nat)
    ensures k <= |s| && IsDigits(s[..k])
    ensures k < |s| ==> !IsDigit(s[k])
  {
    if s == [] || !IsDigit(s[0]) then 0
    else
      var k := 1 + DigitSpan(s[1..]);
      assert s[..k] == [s[0]] + s[1..][..k - 1];
      k
  }

  /** Reads a decimal count written without leading zeros. */
  function ParseCount(s: string): Option<nat> {
    if |s| > 0 && IsDigits(s) && (|s| > 1 ==> s[0] != '0') then Some(DigitsValue(s)) else None
  }

  /**
    Reads a byte-array literal back: the declared count must be the number of
    elements, and an empty array is accepted only in the form the renderer writes.
   */
  function ParseDeclaration(s: string): Option<seq<byte>> {
    if |s| < 9 || s[..9] != "new byte[" then None
    else
      var rest := s[9..];
      var k := DigitSpan(rest);
      ParseBody(ParseCount(rest[..k]), rest[k..])
  }

  /** Reads what follows the declared count: `]  };` for an empty array, else `] { ` elements ` };`. */
  function ParseBody(count: Option<nat>, tail: string): Option<seq<byte>> {
    match count
    case None => None
    case Some(n) =>
      if tail == "]  };" then
        (if n == 0 then Some([]) else None)
      else if |tail| >= 7 && tail[..4] == "] { " && tail[|tail| - 3..] == " };" then
        match ParseEntries(tail[4..|tail| - 3])
        case Some(cs) => if |cs| == n then Some(cs) else None
        case None => None
      else None
  }

  // ---------------------------------------------------------------------------
  // Lemmas

  /** An element reads back as its byte, and only the rendering of a byte reads back as it. */
  lemma {:induction false} HexEntryRoundTrip(b: byte, s: string)
    ensures ParseHexEntry(s) == Some(b) <==> s == HexEntry(b)
  {
    HexEntryParses(b);
    if ParseHexEntry(s) == Some(b) {
      HexEntryParsed(s, b);
    }
  }

  lemma {:induction false} HexEntryParses(b: byte)
    ensures ParseHexEntry(HexEntry(b)) == Some(b)
  {
    var s := HexEntry(b);
    assert HexDigitValue(s[2]) * 16 + HexDigitValue(s[3]) == b as int by {
      HexEntryFormat(b);
    }
  }

  /** Every byte is written as exactly four characters: "0x" and two upper-case hexadecimal digits whose value is the byte. */
  lemma {:induction false} HexEntryFormat(b: byte)
    ensures var s := HexEntry(b);
            |s| == 4 && s[0] == '0' && s[1] == 'x' && IsUpperHexDigit(s[2]) && IsUpperHexDigit(s[3]) &&
            HexDigitValue(s[2]) * 16 + HexDigitValue(s[3]) == b as int
  {
    X2Digits(b);
  }

  lemma {:induction false} HexEntryParsed(s: string, b: byte)
    requires ParseHexEntry(s) == Some(b)
    ensures s == HexEntry(b)
  {
    var hi, lo := HexDigitValue(s[2]), HexDigitValue(s[3]);
    assert b == (hi * 16 + lo) as byte;
    assert X2(b) == [s[2], s[3]] by {
      X2Of(hi, lo);
    }
    assert s == ['0', 'x'] + [s[2], s[3]] by {
      assert |s| == 4 && s[0] == '0' && s[1] == 'x';
    }
  }

  /** The element list reads back as the array it was rendered from. */
  lemma {:induction false} EntriesRoundTrip(cs: seq<byte>)
    requires |cs| > 0
    ensures ParseEntries(Entries(cs)) == Some(cs)
  {
    if |cs| == 1 {
      assert cs == [cs[0]];
      EntriesSingleRoundTrip(cs[0]);
    } else {
      var init, last := cs[..|cs| - 1], cs[|cs| - 1];
      assert init + [last] == cs;
      EntriesRoundTrip(init);
      EntriesSnocRoundTrip(init, last);
    }
  }

  /** A single element reads back as itself. */
  lemma {:induction false} EntriesSingleRoundTrip(b: byte)
    ensures ParseEntries(Entries([b])) == Some([b])
  {
    HexEntryParses(b);
  }

  /** One more element keeps the round trip. */
  lemma {:induction false} EntriesSnocRoundTrip(init: seq<byte>, last: byte)
    requires |init| > 0 && ParseEntries(Entries(init)) == Some(init)
    ensures ParseEntries(Entries(init + [last])) == Some(init + [last])
  {
    var cs := init + [last];
    assert cs[..|cs| - 1] == init && cs[|cs| - 1] == last;
    assert Entries(cs) == Entries(init) + ", " + HexEntry(last);
    HexEntryParses(last);
    ParseEntriesSnoc(Entries(init), HexEntry(last));
  }

  /** How the element parser reads a list followed by ", " and one more element. */
  lemma {:induction false} ParseEntriesSnoc(front: string, e: string)
    requires |front| >= 4 && |e| == 4
    ensures ParseEntries(front + ", " + e) == Snoc(ParseEntries(front), ParseHexEntry(e))
  {
    var t := front + ", " + e;
    assert t[..|t| - 6] == front && t[|t| - 6..|t| - 4] == ", " && t[|t| - 4..] == e by {
      Pieces(front, ", ", e);
    }
    ParseEntriesStep(t);
  }

  /** One step of the element parser on a list that ends in ", " and one more element. */
  lemma {:induction false} ParseEntriesStep(t: string)
    requires |t| >= 10 && t[|t| - 6..|t| - 4] == ", "
    ensures ParseEntries(t) == Snoc(ParseEntries(t[..|t| - 6]), ParseHexEntry(t[|t| - 4..]))
  {
  }

  /** Whatever the element parser accepts is the rendering of what it returns. */
  lemma {:induction false} EntriesParsed(s: string, cs: seq<byte>)
    requires ParseEntries(s) == Some(cs)
    ensures |cs| > 0 && Entries(cs) == s
    decreases |s|
  {
    if |s| == 4 {
      HexEntryParsed(s, cs[0]);
      assert cs == [cs[0]];
    } else {
      var front, back := s[..|s| - 6], s[|s| - 4..];
      var init, b := ParseEntries(front).value, ParseHexEntry(back).value;
      assert cs == init + [b];
      EntriesParsed(front, init);
      HexEntryParsed(back, b);
      assert cs[..|cs| - 1] == init;
      Unpieced(s, |s| - 6, |s| - 4);
    }
  }

  /** The digit span of a digit string followed by a non-digit is the digit string. */
  lemma {:induction false} DigitSpanOf(a: string, b: string)
    requires IsDigits(a) && (b == [] || !IsDigit(b[0]))
    ensures DigitSpan(a + b) == |a|
  {
    assert forall i :: 0 <= i < |a| ==> (a + b)[i] == a[i];
    assert |a| < |a + b| ==> (a + b)[|a|] == b[0];
  }

  /** Element `i` sits at position 6 * i, and a ", " follows every element but the last. */
  lemma {:induction false} EntriesLayout(cs: seq<byte>, i: nat)
    requires i < |cs|
    ensures Entries(cs)[6 * i..6 * i + 4] == HexEntry(cs[i])
    ensures i < |cs| - 1 ==> Entries(cs)[6 * i + 4..6 * i + 6] == ", "
  {
    if |cs| > 1 {
      var n := |cs|;
      var init, last := cs[..n - 1], cs[n - 1];
      var front := Entries(init);
      Pieces(front, ", ", HexEntry(last));
      if i < n - 1 {
        EntriesLayout(init, i);
        SliceOfLeft(front + ", ", HexEntry(last), 6 * i, 6 * i + 4);
        SliceOfLeft(front, ", ", 6 * i, 6 * i + 4);
        if i < n - 2 {
          SliceOfLeft(front + ", ", HexEntry(last), 6 * i + 4, 6 * i + 6);
          SliceOfLeft(front, ", ", 6 * i + 4, 6 * i + 6);
        }
      }
    }
  }

  /**
    The literal of a non-empty array: `new byte[N] { `, then element `i` as `0xHH` at
    offset 6 * i after the opening, a ", " after every element but the last, and ` };`.
   */
  lemma {:induction false} DeclarationLayout(cs: seq<byte>, i: nat)
    requires i < |cs|
    ensures var d, o := Declaration(cs), |Opening(|cs|)|;
            |d| == o + 6 * |cs| + 1 && d[..o] == Opening(|cs|) && d[|d| - 3..] == " };" &&
            d[o + 6 * i..o + 6 * i + 4] == HexEntry(cs[i]) &&
            (i < |cs| - 1 ==> d[o + 6 * i + 4..o + 6 * i + 6] == ", ")
  {
    var opening, entries := Opening(|cs|), Entries(cs);
    assert Declaration(cs) == opening + entries + " };";
    EntriesLayout(cs, i);
    ThreeParts(opening, entries, " };", 6 * i, 6 * i + 4);
    if i < |cs| - 1 {
      ThreeParts(opening, entries, " };", 6 * i + 4, 6 * i + 6);
    }
  }

  /** Round trip: the literal reads back as the array it was rendered from, and nothing else does. */
  lemma {:induction false} DeclarationRoundTrip(cs: seq<byte>, s: string)
    ensures ParseDeclaration(s) == Some(cs) <==> s == Declaration(cs)
  {
    if s == Declaration(cs) {
      DeclarationParses(cs);
    }
    if ParseDeclaration(s) == Some(cs) {
      ParsedDeclaration(s, cs);
    }
  }

  /** How the parser splits `new byte[` + digits + a tail that starts with ']'. */
  lemma {:induction false} ParseHead(digits: string, tail: string)
    requires IsDigits(digits) && |tail| > 0 && tail[0] == ']'
    ensures var s := "new byte[" + digits + tail;
            |s| >= 9 && s[..9] == "new byte[" && DigitSpan(s[9..]) == |digits| &&
            s[9..][..|digits|] == digits && s[9..][|digits|..] == tail
  {
    var s := "new byte[" + digits + tail;
    assert s[9..] == digits + tail;
    DigitSpanOf(digits, tail);
  }

  lemma {:induction false} DeclarationParses(cs: seq<byte>)
    ensures ParseDeclaration(Declaration(cs)) == Some(cs)
  {
    if cs == [] {
      EmptyDeclarationParses();
    } else {
      ElementsDeclarationParses(cs);
    }
  }

  lemma {:induction false} EmptyDeclarationParses()
    ensures ParseDeclaration("new byte[0]  };") == Some([])
  {
    assert "new byte[0]  };" == "new byte[" + "0" + "]  };";
    ParseHead("0", "]  };");
  }

  lemma {:induction false} ElementsDeclarationParses(cs: seq<byte>)
    requires cs != []
    ensures ParseDeclaration(Declaration(cs)) == Some(cs)
  {
    var digits := DecimalString(|cs|);
    var tail := "] { " + Entries(cs) + " };";
    assert ParseCount(digits) == Some(|cs|) by {
      DecimalRoundTrip(|cs|);
    }
    assert Declaration(cs) == "new byte[" + digits + tail by {
      Regrouped("new byte[", digits, "] { ", Entries(cs), " };");
    }
    assert ParseDeclaration(Declaration(cs)) == ParseBody(Some(|cs|), tail) by {
      ParseHead(digits, tail);
    }
    BodyParses(cs);
  }

  lemma {:induction false} BodyParses(cs: seq<byte>)
    requires cs != []
    ensures ParseBody(Some(|cs|), "] { " + Entries(cs) + " };") == Some(cs)
  {
    Pieces("] { ", Entries(cs), " };");
    EntriesRoundTrip(cs);
  }

  lemma {:induction false} ParsedDeclaration(s: string, cs: seq<byte>)
    requires ParseDeclaration(s) == Some(cs)
    ensures s == Declaration(cs)
  {
    var rest := s[9..];
    var k := DigitSpan(rest);
    var digits, tail := rest[..k], rest[k..];
    assert ParseBody(ParseCount(digits), tail) == Some(cs);
    var n := ParseCount(digits).value;
    assert s == "new byte[" + DecimalString(n) + tail by {
      Unpieced(s, 9, 9 + k);
      DecimalCanonical(digits);
    }
    ParsedBody(n, tail, cs);
  }

  lemma {:induction false} ParsedBody(n: nat, tail: string, cs: seq<byte>)
    requires ParseBody(Some(n), tail) == Some(cs)
    ensures Declaration(cs) == "new byte[" + DecimalString(n) + tail
  {
    if tail == "]  };" {
      assert n == 0 && cs == [];
      assert DecimalString(0) == "0";
    } else {
      ParsedElements(n, tail, cs);
    }
  }

  lemma {:induction false} ParsedElements(n: nat, tail: string, cs: seq<byte>)
    requires ParseBody(Some(n), tail) == Some(cs) && tail != "]  };"
    ensures Declaration(cs) == "new byte[" + DecimalString(n) + tail
  {
    var mid := tail[4..|tail| - 3];
    assert ParseEntries(mid) == Some(cs) && n == |cs|;
    EntriesParsed(mid, cs);
    Reassembled(tail);
    Regrouped("new byte[", DecimalString(n), "] { ", mid, " };");
  }

  /** A tail the body parser accepts is its opening brace, its elements and its closing. */
  lemma {:induction false} Reassembled(tail: string)
    requires |tail| >= 7 && tail[..4] == "] { " && tail[|tail| - 3..] == " };"
    ensures tail == "] { " + tail[4..|tail| - 3] + " };"
  {
    assert tail == tail[..4] + tail[4..|tail| - 3] + tail[|tail| - 3..];
  }

  lemma {:induction false} Regrouped(a: string, b: string, c: string, d: string, e: string)
    ensures (a + b + c) + d + e == a + b + (c + d + e)
  {
  }

  /** Appending the next element and its separator extends what the builder holds. */
  lemma {:induction false} AppendedStep(cs: seq<byte>, i: nat)
    requires i < |cs|
    ensures Appended(cs[..i + 1]) == Appended(cs[..i]) + HexEntry(cs[i]) + ", "
  {
    assert cs[..i + 1][..i] == cs[..i];
  }

  /** Dropping the two characters just appended gives back what was there. */
  lemma {:induction false} DropAppended(kept: string, two: string)
    requires |two| == 2
    ensures (kept + two)[..|kept + two| - 2] == kept
  {
    assert (kept + two)[..|kept|] == kept;
  }

  /**
    Removing the last two characters of the builder and appending " };" yields
    the literal, including the empty-array case where the two characters are "{ ".
   */
  lemma {:induction false} TrimmedBuilder(prefix: string, cs: seq<byte>, sb: string)
    requires sb == prefix + Opening(|cs|) + Appended(cs)
    ensures |sb| >= 2 && sb[..|sb| - 2] + " };" == prefix + Declaration(cs)
  {
    if cs == [] {
      TrimmedEmpty(prefix, sb);
    } else {
      TrimmedSeparator(prefix, Opening(|cs|), Entries(cs), sb);
    }
  }

  /** Trimming the ", " after the last element and closing the literal. */
  lemma {:induction false} TrimmedSeparator(prefix: string, opening: string, entries: string, sb: string)
    requires sb == prefix + opening + (entries + ", ")
    ensures |sb| >= 2 && sb[..|sb| - 2] + " };" == prefix + (opening + entries + " };")
  {
    var kept := prefix + opening + entries;
    assert sb == kept + ", ";
    DropAppended(kept, ", ");
  }

  lemma {:induction false} TrimmedEmpty(prefix: string, sb: string)
    requires sb == prefix + Opening(0) + ""
    ensures |sb| >= 2 && sb[..|sb| - 2] + " };" == prefix + "new byte[0]  };"
  {
    assert DecimalString(0) == "0";
    assert Opening(0) == "new byte[0] " + "{ ";
    var kept := prefix + "new byte[0] ";
    assert sb == kept + "{ ";
    DropAppended(kept, "{ ");
    assert "new byte[0] " + " };" == "new byte[0]  };";
  }

  // ---------------------------------------------------------------------------
  // Sequence facts

  lemma {:induction false} Pieces(a: string, b: string, c: string)
    ensures var s := a + b + c;
            s[..|a|] == a && s[|a|..|a| + |b|] == b && s[|a| + |b|..] == c
  {
  }

  lemma {:induction false} Unpieced(s: string, i: nat, j: nat)
    requires i <= j <= |s|
    ensures s == s[..i] + s[i..j] + s[j..]
  {
  }

  lemma {:induction false} Reassociated(a: string, b: string, c: string, d: string)
    ensures a + b + c + d == a + (b + c + d)
  {
  }

  lemma {:induction false} ThreeParts(a: string, b: string, c: string, lo: nat, hi: nat)
    requires lo <= hi <= |b|
    ensures var d := a + b + c;
            |d| == |a| + |b| + |c| && d[..|a|] == a && d[|d| - |c|..] == c && d[|a| + lo..|a| + hi] == b[lo..hi]
  {
    SliceOfMiddle(a, b, c, lo, hi);
  }

  lemma {:induction false} SliceOfMiddle(a: string, b: string, c: string, lo: nat, hi: nat)
    requires lo <= hi <= |b|
    ensures (a + b + c)[|a| + lo..|a| + hi] == b[lo..hi]
  {
    assert (a + b + c)[|a|..|a| + |b|] == b;
  }

  lemma {:induction false} SliceOfLeft(a: string, b: string, lo: nat, hi: nat)
    requires lo <= hi <= |a|
    ensures (a + b)[lo..hi] == a[lo..hi]
  {
  }
}
