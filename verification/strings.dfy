/** The parts of Rust's `str` API that the memory layer leans on:
    `split`, `split_whitespace`, `contains`, `u*::from_str_radix` and
    `i32::from_str`, stated over `seq<char>`. */
module Strings {
  import opened MemoryBase

  // ---------------------------------------------------------------------
  // split(sep)
  // ---------------------------------------------------------------------

  /** `s.split(sep)`: the pieces between separators, in order; always at
      least one piece (the empty string splits into one empty piece). */
  function Split(s: string, sep: char): (pieces: seq<string>)
    ensures |pieces| >= 1
    ensures forall i :: 0 <= i < |pieces| ==> sep !in pieces[i]
    decreases |s|
  {
    if s == [] then [[]]
    else
      var rest := Split(s[1..], sep);
      if s[0] == sep then [[]] + rest
      else [[s[0]] + rest[0]] + rest[1..]
  }

  /** The pieces glued back together with `sep` between neighbours. */
  function Join(pieces: seq<string>, sep: char): string
    decreases |pieces|
  {
    if pieces == [] then []
    else if |pieces| == 1 then pieces[0]
    else pieces[0] + [sep] + Join(pieces[1..], sep)
  }

  /** Splitting loses nothing: joining the pieces gives the text back. */
  lemma {:induction false} SplitJoin(s: string, sep: char)
    ensures Join(Split(s, sep), sep) == s
    decreases |s|
  {
    if s != [] {
      var rest := Split(s[1..], sep);
      SplitJoin(s[1..], sep);
      if s[0] == sep {
        assert ([[]] + rest)[1..] == rest;
      } else if |rest| > 1 {
        assert ([[s[0]] + rest[0]] + rest[1..])[1..] == rest[1..];
      }
    }
  }

  /** A prefix free of separators becomes the head of the first piece. */
  lemma {:induction false} SplitSeparatorFree(p: string, tail: string, sep: char)
    requires sep !in p
    ensures Split(p + tail, sep) == [p + Split(tail, sep)[0]] + Split(tail, sep)[1..]
    decreases |p|
  {
    if p != [] {
      assert (p + tail)[1..] == p[1..] + tail;
      SplitSeparatorFree(p[1..], tail, sep);
      assert [p[0]] + (p[1..] + Split(tail, sep)[0]) == p + Split(tail, sep)[0];
    } else {
      var t := Split(tail, sep);
      assert p + tail == tail;
      assert p + t[0] == t[0];
      assert [t[0]] + t[1..] == t;
    }
  }

  /** Joining separator-free pieces and splitting again gives the pieces back. */
  lemma {:induction false} JoinSplit(pieces: seq<string>, sep: char)
    requires |pieces| >= 1
    requires forall i :: 0 <= i < |pieces| ==> sep !in pieces[i]
    ensures Split(Join(pieces, sep), sep) == pieces
    decreases |pieces|
  {
    var p := pieces[0];
    if |pieces| == 1 {
      SplitSeparatorFree(p, [], sep);
      assert p + [] == p;
    } else {
      var rest := pieces[1..];
      JoinSplit(rest, sep);
      var tail := [sep] + Join(rest, sep);
      assert Join(pieces, sep) == p + tail;
      assert tail[1..] == Join(rest, sep);
      assert Split(tail, sep) == [[]] + rest;
      SplitSeparatorFree(p, tail, sep);
      assert p + [] == p;
      assert [p] + rest == pieces;
    }
  }

  // ---------------------------------------------------------------------
  // contains(sub)
  // ---------------------------------------------------------------------

  /** `s.contains(sub)`: `sub` occurs somewhere in `s` (the empty string
      occurs everywhere). */
  predicate Contains(s: string, sub: string)
    decreases |s|
  {
    sub <= s || (s != [] && Contains(s[1..], sub))
  }

  predicate OccursAt(s: string, sub: string, i: int)
  {
    0 <= i && i + |sub| <= |s| && s[i..i + |sub|] == sub
  }

  /** `Contains` is substring search: true exactly when some position holds `sub`. */
  lemma {:induction false} ContainsIff(s: string, sub: string)
    ensures Contains(s, sub) <==> exists i :: OccursAt(s, sub, i)
    decreases |s|
  {
    if s != [] {
      ContainsIff(s[1..], sub);
      if sub <= s {
        assert s[0..|sub|] == sub;
        assert OccursAt(s, sub, 0);
      }
      if Contains(s[1..], sub) {
        var i :| OccursAt(s[1..], sub, i);
        OccursShift(s, sub, i);
      }
      if i :| OccursAt(s, sub, i) {
        if i == 0 {
          assert s[..|sub|] == sub;
        } else {
          OccursShift(s, sub, i - 1);
        }
      }
    } else if sub == [] {
      assert OccursAt(s, sub, 0);
    }
  }

  /** An occurrence in the tail is an occurrence one position further on. */
  lemma OccursShift(s: string, sub: string, i: nat)
    requires s != []
    ensures OccursAt(s[1..], sub, i) <==> OccursAt(s, sub, i + 1)
  {
    if i + 1 + |sub| <= |s| {
      assert s[1..][i..i + |sub|] == s[i + 1..i + 1 + |sub|];
    }
  }

  // ---------------------------------------------------------------------
  // split_whitespace().next()
  // ---------------------------------------------------------------------

  /** `char::is_whitespace`: the Unicode White_Space property. */
  predicate IsWhitespace(c: char)
  {
    var u := c as int;
    (0x09 <= u <= 0x0D) || u == 0x20 || u == 0x85 || u == 0xA0 || u == 0x1680
    || (0x2000 <= u <= 0x200A) || u == 0x2028 || u == 0x2029 || u == 0x202F
    || u == 0x205F || u == 0x3000
  }

  predicate NoWhitespace(s: string)
  {
    forall i :: 0 <= i < |s| ==> !IsWhitespace(s[i])
  }

  /** The longest whitespace-free prefix of `s`. */
  function Word(s: string): (w: string)
    ensures w <= s && NoWhitespace(w)
    ensures |w| < |s| ==> IsWhitespace(s[|w|])
    decreases |s|
  {
    if s == [] || IsWhitespace(s[0]) then [] else [s[0]] + Word(s[1..])
  }

  /** `s.split_whitespace().next()`: the first maximal run of
      non-whitespace characters, or `None` when `s` is all whitespace. */
  function FirstWord(s: string): Option<string>
    decreases |s|
  {
    if s == [] then None
    else if IsWhitespace(s[0]) then FirstWord(s[1..])
    else Some(Word(s))
  }

  /** There is no first word exactly when `s` is all whitespace; a first
      word is non-empty and free of whitespace. */
  lemma {:induction false} FirstWordSpec(s: string)
    ensures FirstWord(s).None? <==> forall i :: 0 <= i < |s| ==> IsWhitespace(s[i])
    ensures FirstWord(s).Some? ==> FirstWord(s).value != [] && NoWhitespace(FirstWord(s).value)
    decreases |s|
  {
    if s != [] && IsWhitespace(s[0]) {
      FirstWordSpec(s[1..]);
      assert forall i :: 1 <= i < |s| ==> s[i] == s[1..][i - 1];
    }
  }

  /** A whitespace-free word followed by whitespace (or nothing) is the first word. */
  lemma {:induction false} FirstWordOf(w: string, rest: string)
    requires w != [] && NoWhitespace(w)
    requires rest == [] || IsWhitespace(rest[0])
    ensures FirstWord(w + rest) == Some(w)
  {
    WordOf(w, rest);
  }

  /** Leading whitespace is skipped: after any run of whitespace, a
      whitespace-free word followed by whitespace (or nothing) is the first word. */
  lemma {:induction false} FirstWordAfterWhitespace(ws: string, w: string, rest: string)
    requires forall i :: 0 <= i < |ws| ==> IsWhitespace(ws[i])
    requires w != [] && NoWhitespace(w)
    requires rest == [] || IsWhitespace(rest[0])
    ensures FirstWord(ws + w + rest) == Some(w)
    decreases |ws|
  {
    if ws == [] {
      assert ws + w + rest == w + rest;
      FirstWordOf(w, rest);
    } else {
      var t := ws + w + rest;
      assert t[0] == ws[0];
      assert t[1..] == ws[1..] + w + rest;
      FirstWordAfterWhitespace(ws[1..], w, rest);
    }
  }

  lemma {:induction false} WordOf(w: string, rest: string)
    requires NoWhitespace(w)
    requires rest == [] || IsWhitespace(rest[0])
    ensures Word(w + rest) == w
    decreases |w|
  {
    if w == [] {
      assert w + rest == rest;
    } else {
      assert (w + rest)[1..] == w[1..] + rest;
      WordOf(w[1..], rest);
      assert [w[0]] + w[1..] == w;
    }
  }

  // ---------------------------------------------------------------------
  // from_str_radix / from_str
  // ---------------------------------------------------------------------

  /** The value of `c` as a digit in base 36; 36 for a non-alphanumeric
      character, so `Digit(c) < radix` is `c.to_digit(radix).is_some()`
      for radix 10 and 16. */
  function Digit(c: char): (d: nat)
    ensures d <= 36
  {
    if '0' <= c <= '9' then c as int - '0' as int
    else if 'a' <= c <= 'z' then c as int - 'a' as int + 10
    else if 'A' <= c <= 'Z' then c as int - 'A' as int + 10
    else 36
  }

  /** The digit loop of the standard library's integer parser: reads the
      digits left to right, failing on the first invalid digit or as soon as
      the magnitude passes `limit`. */
  function Accumulate(digits: string, radix: nat, limit: nat, acc: nat, overflow: IntErrorKind): (r: Result<nat>)
    requires 2 <= radix <= 36 && acc <= limit
    ensures r.Ok? ==> r.value <= limit
    ensures r.Ok? ==> forall i :: 0 <= i < |digits| ==> Digit(digits[i]) < radix
    ensures r.Err? ==> r.error == ParseInt(InvalidDigit) || r.error == ParseInt(overflow)
    decreases |digits|
  {
    if digits == [] then Ok(acc)
    else if Digit(digits[0]) >= radix then Err(ParseInt(InvalidDigit))
    else
      var next := acc * radix + Digit(digits[0]);
      if next > limit then Err(ParseInt(overflow))
      else
        var r := Accumulate(digits[1..], radix, limit, next, overflow);
        assert r.Ok? ==> forall i :: 1 <= i < |digits| ==> digits[i] == digits[1..][i - 1];
        r
  }

  /** `usize::from_str_radix(s, 16)` on a 64-bit host: an optional `+`,
      then one or more hex digits whose value fits in 64 bits. */
  function ParseHexUsize(s: string): (r: Result<nat>)
    ensures r.Ok? ==> r.value < U64_LIMIT
    ensures r.Ok? ==> s != [] && s != "+"
    ensures r.Err? ==> r.error.ParseInt?
  {
    if s == [] then Err(ParseInt(Empty))
    else if s == "+" || s == "-" then Err(ParseInt(InvalidDigit))
    else Accumulate(if s[0] == '+' then s[1..] else s, 16, U64_LIMIT - 1, 0, PosOverflow)
  }

  /** A character that is not a hex digit, anywhere after an optional
      leading `+`, makes the parse fail (with `InvalidDigit`, or with
      `PosOverflow` when the digits before it already pass 64 bits). */
  lemma HexRejectsNonDigit(s: string, i: nat)
    requires i < |s| && Digit(s[i]) >= 16 && (i > 0 || s[0] != '+')
    ensures ParseHexUsize(s).Err?
  {
    if s != "+" && s != "-" && s[0] == '+' {
      assert s[1..][i - 1] == s[i];
    }
  }

  /** `s.parse::<i32>()`: an optional sign, then one or more decimal digits
      whose value fits in 32-bit two's complement. */
  function ParseI32(s: string): (r: Result<int>)
    ensures r.Ok? ==> -0x8000_0000 <= r.value < 0x8000_0000
    ensures r.Err? ==> r.error.ParseInt?
  {
    if s == [] then Err(ParseInt(Empty))
    else if s == "+" || s == "-" then Err(ParseInt(InvalidDigit))
    else if s[0] == '-' then
      match Accumulate(s[1..], 10, 0x8000_0000, 0, NegOverflow)
      case Ok(m) => Ok(0 - m as int)
      case Err(e) => Err(e)
    else
      match Accumulate(if s[0] == '+' then s[1..] else s, 10, 0x7FFF_FFFF, 0, PosOverflow)
      case Ok(m) => Ok(m)
      case Err(e) => Err(e)
  }

  /** The lower-case digit character for `d`. */
  function DigitChar(d: nat): (c: char)
    requires d < 16
    ensures Digit(c) == d
  {
    if d < 10 then ('0' as int + d) as char else ('a' as int + d - 10) as char
  }

  /** `n` written in base `radix` with no leading zeros (as `{:x}` or `{}` print it). */
  function Numeral(n: nat, radix: nat): (s: string)
    requires 2 <= radix <= 16
    ensures s != [] && forall i :: 0 <= i < |s| ==> Digit(s[i]) < radix
    decreases n
  {
    if n < radix then [DigitChar(n)]
    else
      DivideDigit(n, radix);
      Numeral(n / radix, radix) + [DigitChar(n % radix)]
  }

  /** Splitting off the last digit of `n` in base `radix`. */
  lemma DivideDigit(n: nat, radix: nat)
    requires 2 <= radix && radix <= n
    ensures n / radix < n && n % radix < radix
    ensures n == (n / radix) * radix + n % radix
  {
    var q, r := n / radix, n % radix;
    assert q * radix + r == n;
    assert q != 0;
    assert q * radix >= q * 2 by { MulMono(q, radix, 2); }
  }

  lemma MulMono(q: nat, a: nat, b: nat)
    requires a >= b
    ensures q * a >= q * b
  {
  }

  /** The digit loop over a concatenation is the loop over the first part
      followed by the loop over the second. */
  lemma {:induction false} AccumulateAppend(s1: string, s2: string, radix: nat, limit: nat, acc: nat, overflow: IntErrorKind)
    requires 2 <= radix <= 36 && acc <= limit
    ensures Accumulate(s1 + s2, radix, limit, acc, overflow)
         == match Accumulate(s1, radix, limit, acc, overflow)
            case Ok(m) => Accumulate(s2, radix, limit, m, overflow)
            case Err(e) => Err(e)
    decreases |s1|
  {
    if s1 == [] {
      assert s1 + s2 == s2;
    } else {
      assert (s1 + s2)[0] == s1[0];
      assert (s1 + s2)[1..] == s1[1..] + s2;
      if Digit(s1[0]) < radix && acc * radix + Digit(s1[0]) <= limit {
        AccumulateAppend(s1[1..], s2, radix, limit, acc * radix + Digit(s1[0]), overflow);
      }
    }
  }

  /** The parser's digit loop reads a numeral back as the number it denotes. */
  lemma {:induction false} AccumulateNumeral(n: nat, radix: nat, limit: nat, overflow: IntErrorKind)
    requires 2 <= radix <= 16 && n <= limit
    ensures Accumulate(Numeral(n, radix), radix, limit, 0, overflow) == Ok(n)
    decreases n
  {
    if n >= radix {
      DivideDigit(n, radix);
      AccumulateNumeral(n / radix, radix, limit, overflow);
      AccumulateLastDigit(Numeral(n / radix, radix), DigitChar(n % radix), n / radix, radix, limit, overflow);
    }
  }

  /** One more digit after a prefix the loop reads as `q` gives `q * radix + digit`. */
  lemma AccumulateLastDigit(p: string, c: char, q: nat, radix: nat, limit: nat, overflow: IntErrorKind)
    requires 2 <= radix <= 16 && Digit(c) < radix && q * radix + Digit(c) <= limit
    requires Accumulate(p, radix, limit, 0, overflow) == Ok(q)
    ensures Accumulate(p + [c], radix, limit, 0, overflow) == Ok(q * radix + Digit(c))
  {
    AccumulateAppend(p, [c], radix, limit, 0, overflow);
    assert [c][1..] == [];
  }

  /** Round trip: `usize::from_str_radix` reads back any 64-bit value written in hex. */
  lemma ParseHexUsizeNumeral(n: nat)
    requires n < U64_LIMIT
    ensures ParseHexUsize(Numeral(n, 16)) == Ok(n)
  {
    var s := Numeral(n, 16);
    assert Digit(s[0]) < 16;
    assert s[0] != '+' && s[0] != '-';
    AccumulateNumeral(n, 16, U64_LIMIT - 1, PosOverflow);
  }

  /** `k` zero digits. */
  function ZeroChars(k: nat): (z: string)
    decreases k
  {
    if k == 0 then [] else ['0'] + ZeroChars(k - 1)
  }

  /** `s` padded on the left with zeros to at least `width` characters (as
      `{:0width}` prints a number). */
  function PadLeft(s: string, width: nat): (p: string)
  {
    if |s| < width then ZeroChars(width - |s|) + s else s
  }

  /** `k` zero digits are `k` characters, each a `0`. */
  lemma {:induction false} ZeroCharsAreZeros(k: nat)
    ensures |ZeroChars(k)| == k && forall i :: 0 <= i < k ==> ZeroChars(k)[i] == '0'
    decreases k
  {
    if k > 0 {
      ZeroCharsAreZeros(k - 1);
      assert forall i :: 1 <= i < k ==> ZeroChars(k)[i] == ZeroChars(k - 1)[i - 1];
    }
  }

  /** Padding keeps the text at the end, reaches the width, and adds only
      digits of any radix. */
  lemma PadLeftDigits(s: string, width: nat, radix: nat)
    requires 2 <= radix && forall i :: 0 <= i < |s| ==> Digit(s[i]) < radix
    ensures |PadLeft(s, width)| >= width && |PadLeft(s, width)| >= |s|
    ensures PadLeft(s, width)[|PadLeft(s, width)| - |s|..] == s
    ensures forall i :: 0 <= i < |PadLeft(s, width)| ==> Digit(PadLeft(s, width)[i]) < radix
  {
    if |s| < width {
      var k := width - |s|;
      ZeroCharsAreZeros(k);
      var p := ZeroChars(k) + s;
      forall i | 0 <= i < |p| ensures Digit(p[i]) < radix {
        if i < k { assert p[i] == '0'; } else { assert p[i] == s[i - k]; }
      }
      assert p[k..] == s;
    }
  }

  /** Leading zero digits leave the digit loop where it started from zero. */
  lemma {:induction false} AccumulateZeros(k: nat, s: string, radix: nat, limit: nat, overflow: IntErrorKind)
    requires 2 <= radix <= 36
    ensures Accumulate(ZeroChars(k) + s, radix, limit, 0, overflow) == Accumulate(s, radix, limit, 0, overflow)
    decreases k
  {
    var t := ZeroChars(k) + s;
    if k == 0 {
      assert t == s;
    } else {
      assert t == ['0'] + (ZeroChars(k - 1) + s);
      assert t[0] == '0' && Digit('0') == 0 && 0 * radix + 0 == 0;
      assert t[1..] == ZeroChars(k - 1) + s;
      AccumulateZeros(k - 1, s, radix, limit, overflow);
    }
  }

  /** `usize::from_str_radix(s, 16)` ignores leading zeros: a text that
      does not start with a sign parses the same with any number of zeros
      in front. */
  lemma ParseHexUsizeLeadingZeros(k: nat, s: string)
    requires s != [] && s[0] != '+'
    ensures ParseHexUsize(ZeroChars(k) + s) == ParseHexUsize(s)
  {
    if k == 0 {
      assert ZeroChars(k) + s == s;
    } else {
      var t := ZeroChars(k) + s;
      assert t[0] == '0';
      AccumulateZeros(k, s, 16, U64_LIMIT - 1, PosOverflow);
    }
  }

  /** Round trip: any 64-bit value written in hex and zero-padded to any
      width parses back to itself. */
  lemma ParseHexUsizePadded(n: nat, width: nat)
    requires n < U64_LIMIT
    ensures ParseHexUsize(PadLeft(Numeral(n, 16), width)) == Ok(n)
  {
    var s := Numeral(n, 16);
    ParseHexUsizeNumeral(n);
    assert Digit(s[0]) < 16;
    if |s| < width {
      ParseHexUsizeLeadingZeros(width - |s|, s);
    }
  }

  /** `n` as `{}` prints an `i32`. */
  function Decimal(n: int): string
  {
    if n < 0 then "-" + Numeral(-n, 10) else Numeral(n, 10)
  }

  /** Round trip: `i32::from_str` reads back every 32-bit value printed in decimal. */
  lemma ParseI32Decimal(n: int)
    requires -0x8000_0000 <= n < 0x8000_0000
    ensures ParseI32(Decimal(n)) == Ok(n)
  {
    var s := Decimal(n);
    if n < 0 {
      assert s[1..] == Numeral(-n, 10);
      AccumulateNumeral(-n, 10, 0x8000_0000, NegOverflow);
    } else {
      assert Digit(s[0]) < 10;
      AccumulateNumeral(n, 10, 0x7FFF_FFFF, PosOverflow);
    }
  }
}
