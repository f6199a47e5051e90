/**
 * String helpers the codec relies on: splitting and joining on a separator
 * (Java's String.split and the hand-written joins of the decoder), the
 * numerals Integer.toString and Integer.toHexString print for non-negative
 * values, and Java's (char) cast of a signed byte.
 */
module Text {
  import opened Octets

  /** Every field of s between occurrences of sep, empty fields included. */
  function Split(s: string, sep: char): (parts: seq<string>)
    ensures |parts| >= 1
    ensures forall i :: 0 <= i < |parts| ==> sep !in parts[i]
    decreases |s|
  {
    if |s| == 0 then [""]
    else
      var rest := Split(s[1..], sep);
      if s[0] == sep then [""] + rest
      else [[s[0]] + rest[0]] + rest[1..]
  }

  /** The parts with one sep between neighbours. */
  function Join(parts: seq<string>, sep: char): string
  {
    if |parts| == 0 then ""
    else if |parts| == 1 then parts[0]
    else parts[0] + [sep] + Join(parts[1..], sep)
  }

  /** substring(0, length() - 1) when the text is non-empty. */
  function DropLast(s: string): string
  {
    if |s| > 0 then s[..|s| - 1] else s
  }

  /** Each part followed by sep: the text Java loops build with `value += part; value += sep`. */
  function Terminated(parts: seq<string>, sep: char): string
  {
    if |parts| == 0 then "" else parts[0] + [sep] + Terminated(parts[1..], sep)
  }

  /** Dropping the final separator of the terminated parts leaves their join. */
  lemma {:induction false} TerminatedIsJoin(parts: seq<string>, sep: char)
    requires |parts| >= 1
    ensures DropLast(Terminated(parts, sep)) == Join(parts, sep)
    decreases |parts|
  {
    if |parts| > 1 {
      TerminatedIsJoin(parts[1..], sep);
      var rest := Terminated(parts[1..], sep);
      assert |rest| > 0;
      assert Terminated(parts, sep) == parts[0] + [sep] + rest;
      assert DropLast(parts[0] + [sep] + rest) == parts[0] + [sep] + DropLast(rest);
    } else {
      assert Terminated(parts, sep) == parts[0] + [sep];
    }
  }

  /** Terminating a concatenation terminates each half. */
  lemma {:induction false} TerminatedConcat(a: seq<string>, b: seq<string>, sep: char)
    ensures Terminated(a + b, sep) == Terminated(a, sep) + Terminated(b, sep)
    decreases |a|
  {
    if |a| > 0 {
      TerminatedConcat(a[1..], b, sep);
      assert (a + b)[1..] == a[1..] + b;
    } else {
      assert a + b == b;
    }
  }

  /** Java's trailing-empty-string removal of String.split with limit 0. */
  function DropTrailingEmpty(parts: seq<string>): (r: seq<string>)
    ensures |r| <= |parts| && r == parts[..|r|]
    ensures |r| > 0 ==> r[|r| - 1] != ""
    ensures forall i :: |r| <= i < |parts| ==> parts[i] == ""
  {
    if |parts| > 0 && parts[|parts| - 1] == "" then DropTrailingEmpty(parts[..|parts| - 1])
    else parts
  }

  /**
   * Java's s.split(regex-for-sep): the empty string yields one empty field,
   * otherwise the fields with trailing empty ones removed.
   */
  function JavaSplit(s: string, sep: char): (parts: seq<string>)
    ensures |s| == 0 ==> parts == [""]
    ensures |s| > 0 ==> |parts| <= |Split(s, sep)| && parts == Split(s, sep)[..|parts|]
    ensures |s| > 0 ==> forall i :: |parts| <= i < |Split(s, sep)| ==> Split(s, sep)[i] == ""
    ensures |s| > 0 && |parts| > 0 ==> parts[|parts| - 1] != ""
  {
    if |s| == 0 then [""] else DropTrailingEmpty(Split(s, sep))
  }

  /** Joining the fields of a split gives back the original text. */
  lemma {:induction false} JoinSplit(s: string, sep: char)
    ensures Join(Split(s, sep), sep) == s
    decreases |s|
  {
    if |s| > 0 {
      var rest := Split(s[1..], sep);
      JoinSplit(s[1..], sep);
      if s[0] == sep {
        assert Split(s, sep) == [""] + rest;
        assert s == [sep] + s[1..];
      } else if |rest| == 1 {
        assert Split(s, sep) == [[s[0]] + rest[0]];
        assert s == [s[0]] + s[1..];
      } else {
        var parts := Split(s, sep);
        assert parts == [[s[0]] + rest[0]] + rest[1..];
        assert parts[1..] == rest[1..];
        assert Join(rest, sep) == rest[0] + [sep] + Join(rest[1..], sep);
        assert s == [s[0]] + s[1..];
      }
    }
  }

  /** Splitting text that starts with a separator-free run p extends p onto the first field. */
  lemma {:induction false} SplitAfterField(p: string, tail: string, sep: char)
    requires sep !in p
    ensures Split(p + tail, sep) == [p + Split(tail, sep)[0]] + Split(tail, sep)[1..]
    decreases |p|
  {
    if |p| > 0 {
      var t := Split(tail, sep);
      SplitAfterField(p[1..], tail, sep);
      assert (p + tail)[1..] == p[1..] + tail;
      var rest := Split(p[1..] + tail, sep);
      assert rest == [p[1..] + t[0]] + t[1..];
      assert (p + tail)[0] == p[0] && p[0] != sep;
      assert Split(p + tail, sep) == [[p[0]] + rest[0]] + rest[1..];
      assert [p[0]] + (p[1..] + t[0]) == p + t[0];
    } else {
      var parts := Split(tail, sep);
      assert p + tail == tail;
      assert p + parts[0] == parts[0];
      assert parts == [parts[0]] + parts[1..];
    }
  }

  /** Splitting a join of separator-free fields gives the fields back. */
  lemma {:induction false} SplitJoin(parts: seq<string>, sep: char)
    requires |parts| >= 1
    requires forall i :: 0 <= i < |parts| ==> sep !in parts[i]
    ensures Split(Join(parts, sep), sep) == parts
    decreases |parts|
  {
    if |parts| == 1 {
      SplitAfterField(parts[0], "", sep);
      assert parts[0] + "" == parts[0];
    } else {
      var rest := Join(parts[1..], sep);
      SplitJoin(parts[1..], sep);
      assert Join(parts, sep) == parts[0] + ([sep] + rest);
      SplitAfterField(parts[0], [sep] + rest, sep);
      assert ([sep] + rest)[1..] == rest;
      assert Split([sep] + rest, sep) == [""] + parts[1..];
      assert parts[0] + "" == parts[0];
    }
  }

  /** Java's split agrees with the plain field split when no field is empty. */
  lemma JavaSplitOfNonEmptyFields(s: string, sep: char)
    requires |s| > 0
    requires forall i :: 0 <= i < |Split(s, sep)| ==> Split(s, sep)[i] != ""
    ensures JavaSplit(s, sep) == Split(s, sep)
  {
  }

  /** The fields of an ASCII text are ASCII. */
  lemma {:induction false} SplitAscii(s: string, sep: char)
    requires IsAscii(s)
    ensures forall i :: 0 <= i < |Split(s, sep)| ==> IsAscii(Split(s, sep)[i])
    decreases |s|
  {
    if |s| > 0 {
      var rest := Split(s[1..], sep);
      SplitAscii(s[1..], sep);
      var parts := Split(s, sep);
      if s[0] == sep {
        assert parts == [""] + rest;
      } else {
        assert parts == [[s[0]] + rest[0]] + rest[1..];
        forall i | 0 <= i < |parts|
          ensures IsAscii(parts[i])
        {
          if i == 0 {
            assert IsAscii(rest[0]);
          } else {
            assert parts[i] == rest[i];
          }
        }
      }
    }
  }

  /** Java's split of an ASCII text yields ASCII fields. */
  lemma JavaSplitAscii(s: string, sep: char)
    requires IsAscii(s)
    ensures forall i :: 0 <= i < |JavaSplit(s, sep)| ==> IsAscii(JavaSplit(s, sep)[i])
  {
    if |s| > 0 {
      SplitAscii(s, sep);
      var parts := JavaSplit(s, sep);
      assert forall i :: 0 <= i < |parts| ==> parts[i] == Split(s, sep)[i];
    }
  }

  // ----- numerals -----

  predicate IsDigit(c: char, base: nat)
  {
    ('0' <= c <= '9') || (base == 16 && 'a' <= c <= 'f')
  }

  function DigitChar(d: nat): (c: char)
    requires d < 16
  {
    if d < 10 then ('0' as int + d) as char else ('a' as int + d - 10) as char
  }

  function DigitValue(c: char): nat
  {
    if '0' <= c <= '9' then c as int - '0' as int
    else if 'a' <= c <= 'f' then c as int - 'a' as int + 10
    else 0
  }

  /**
   * The digits Integer.toString (base 10) or Integer.toHexString (base 16)
   * prints for a non-negative value: no sign, no leading zero, lower case.
   */
  function Numeral(n: nat, base: nat): (s: string)
    requires base == 10 || base == 16
    ensures |s| >= 1
    ensures forall i :: 0 <= i < |s| ==> IsDigit(s[i], base)
    ensures |s| > 1 ==> s[0] != '0'
    decreases n
  {
    if n < base then [DigitChar(n)]
    else Numeral(n / base, base) + [DigitChar(n % base)]
  }

  lemma DigitRoundTrip(d: nat)
    requires d < 16
    ensures DigitValue(DigitChar(d)) == d
  {
  }

  /** Reads a numeral back: the independent parser Numeral is checked against. */
  function NumeralValue(s: string, base: nat): nat
  {
    if |s| == 0 then 0 else NumeralValue(s[..|s| - 1], base) * base + DigitValue(s[|s| - 1])
  }

  lemma {:induction false} NumeralRoundTrip(n: nat, base: nat)
    requires base == 10 || base == 16
    ensures NumeralValue(Numeral(n, base), base) == n
    decreases n
  {
    var s := Numeral(n, base);
    if n >= base {
      NumeralRoundTrip(n / base, base);
      assert s[..|s| - 1] == Numeral(n / base, base);
      DigitRoundTrip(n % base);
      assert n == (n / base) * base + n % base;
    } else {
      DigitRoundTrip(n);
    }
  }

  function Decimal(n: nat): string
  {
    Numeral(n, 10)
  }

  function Hex(n: nat): string
  {
    Numeral(n, 16)
  }

  /** Parses each field of a split as a numeral. */
  function NumeralValues(parts: seq<string>, base: nat): (r: seq<nat>)
    ensures |r| == |parts|
    ensures forall i :: 0 <= i < |parts| ==> r[i] == NumeralValue(parts[i], base)
  {
    if |parts| == 0 then [] else [NumeralValue(parts[0], base)] + NumeralValues(parts[1..], base)
  }

  // ----- characters -----

  predicate IsAscii(s: string)
  {
    forall i :: 0 <= i < |s| ==> s[i] < 128 as char
  }

  /** Java's (char) cast of a byte: sign extension sends 128..255 to U+FF80..U+FFFF. */
  function ByteToChar(b: byte): (c: char)
    ensures c as int % 256 == b as int
    ensures b < 128 ==> c as int == b as int
    ensures b >= 128 ==> 0xFF80 <= c as int <= 0xFFFF
  {
    if b < 128 then (b as int) as char else (0xFF00 + b as int) as char
  }

  /** The decoder's char-by-char copy of raw octets into a String. */
  function Chars(bs: seq<byte>): (s: string)
    ensures |s| == |bs|
  {
    if |bs| == 0 then "" else [ByteToChar(bs[0])] + Chars(bs[1..])
  }

  /** getBytes of an ASCII string: one octet per character. */
  function AsciiBytes(s: string): (bs: seq<byte>)
    requires IsAscii(s)
    ensures |bs| == |s|
    ensures forall i :: 0 <= i < |bs| ==> bs[i] < 128
  {
    if |s| == 0 then [] else [(s[0] as int) as byte] + AsciiBytes(s[1..])
  }

  /** Copying the octets of an ASCII string back into chars reproduces it. */
  lemma {:induction false} CharsOfAsciiBytes(s: string)
    requires IsAscii(s)
    ensures Chars(AsciiBytes(s)) == s
    decreases |s|
  {
    if |s| > 0 {
      CharsOfAsciiBytes(s[1..]);
      assert AsciiBytes(s)[1..] == AsciiBytes(s[1..]);
      assert s == [s[0]] + s[1..];
    }
  }
}
