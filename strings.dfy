/** The JavaScript string built-ins the journal relies on: turning a counter
    into its decimal text (a template literal `${n}`) and `Array.prototype.join`.
    `Split` (the model's own inverse of join) and `FirstIndex` (used to read an
    entry back) are not called by the program. */
module Strings {
  import opened Wrappers

  predicate IsDigit(c: char) {
    '0' <= c <= '9'
  }

  predicate AllDigits(s: string) {
    forall i | 0 <= i < |s| :: IsDigit(s[i])
  }

  /** A decimal numeral as JavaScript prints a non-negative integer:
      at least one digit, and no leading zero unless the numeral is "0". */
  predicate Canonical(s: string) {
    |s| > 0 && AllDigits(s) && (s[0] == '0' ==> s == "0")
  }

  function DigitChar(d: nat): (c: char)
    requires d < 10
    ensures IsDigit(c)
    ensures c as int - '0' as int == d
  {
    ('0' as int + d) as char
  }

  function DigitValue(c: char): (d: nat)
    requires IsDigit(c)
    ensures d < 10
    ensures DigitChar(d) == c
  {
    c as int - '0' as int
  }

  /** The value of a string of decimal digits, most significant first. */
  function ParseDecimal(s: string): nat
    requires AllDigits(s)
  {
    if s == [] then 0
    else ParseDecimal(s[..|s| - 1]) * 10 + DigitValue(s[|s| - 1])
  }

  /** The text of `${n}` for a non-negative integer `n`. */
  function DecimalString(n: nat): (s: string)
    ensures Canonical(s)
    ensures s[0] == '0' <==> n == 0
    ensures ParseDecimal(s) == n
  {
    if n < 10 then [DigitChar(n)]
    else
      var s := DecimalString(n / 10) + [DigitChar(n % 10)];
      assert s[..|s| - 1] == DecimalString(n / 10);
      s
  }

  /** A numeral that does not start with 0 has a positive value. */
  lemma {:induction false} ParseLeadingNonZero(s: string)
    requires AllDigits(s) && |s| > 0 && s[0] != '0'
    ensures ParseDecimal(s) > 0
  {
    if |s| > 1 {
      ParseLeadingNonZero(s[..|s| - 1]);
    }
  }

  /** Parsing a canonical numeral and printing the value gives the numeral
      back, so `DecimalString` and `ParseDecimal` are mutually inverse on
      canonical numerals. */
  lemma {:induction false} DecimalOfParse(s: string)
    requires Canonical(s)
    ensures DecimalString(ParseDecimal(s)) == s
  {
    var p, x := s[..|s| - 1], s[|s| - 1];
    if |s| > 1 {
      assert p[0] == s[0] != '0';
      ParseLeadingNonZero(p);
      DecimalOfParse(p);
      var n := ParseDecimal(s);
      assert n / 10 == ParseDecimal(p) && n % 10 == DigitValue(x);
      assert s == p + [x];
    }
  }

  /** The position of the first occurrence of `c` in `s`, as `indexOf`. */
  function FirstIndex(s: string, c: char): (r: Option<nat>)
    ensures r.Some? ==> r.value < |s| && s[r.value] == c && c !in s[..r.value]
    ensures r.None? <==> c !in s
  {
    if s == [] then None
    else if s[0] == c then Some(0)
    else match FirstIndex(s[1..], c)
      case None => None
      case Some(k) =>
        assert s[1..][..k] == s[1..k + 1];
        Some(k + 1)
  }

  /** `parts.join(sep)`: the parts in order with `sep` between neighbours;
      no parts give the empty string, one part gives that part. */
  function Join(parts: seq<string>, sep: string): (r: string)
    ensures |parts| == 0 ==> r == ""
    ensures |parts| == 1 ==> r == parts[0]
    ensures |parts| > 0 ==> parts[0] <= r
    ensures |parts| > 0 ==> |parts[|parts| - 1]| <= |r| && r[|r| - |parts[|parts| - 1]|..] == parts[|parts| - 1]
  {
    if |parts| == 0 then ""
    else if |parts| == 1 then parts[0]
    else parts[0] + sep + Join(parts[1..], sep)
  }

  /** `s.split(c)`: the maximal pieces of `s` between occurrences of `c`;
      the empty string splits into one empty piece. */
  function Split(s: string, c: char): (r: seq<string>)
    ensures |r| > 0
    ensures forall i | 0 <= i < |r| :: c !in r[i]
  {
    if s == [] then [""]
    else
      var rest := Split(s[1..], c);
      if s[0] == c then [""] + rest
      else [[s[0]] + rest[0]] + rest[1..]
  }

  /** Joining the pieces of a non-empty list and appending one more piece
      adds the separator and that piece at the end. */
  lemma {:induction false} JoinSnoc(parts: seq<string>, sep: string, last: string)
    requires |parts| > 0
    ensures Join(parts + [last], sep) == Join(parts, sep) + sep + last
  {
    if |parts| > 1 {
      assert (parts + [last])[1..] == parts[1..] + [last];
      JoinSnoc(parts[1..], sep, last);
    }
  }

  lemma {:induction false} SplitPiece(piece: string, c: char, rest: string)
    requires c !in piece
    ensures Split(piece + rest, c) == [piece + Split(rest, c)[0]] + Split(rest, c)[1..]
  {
    if piece != [] {
      assert (piece + rest)[1..] == piece[1..] + rest;
      SplitPiece(piece[1..], c, rest);
      assert [piece[0]] + (piece[1..] + Split(rest, c)[0]) == piece + Split(rest, c)[0];
    } else {
      var r := Split(rest, c);
      assert piece + rest == rest;
      assert piece + r[0] == r[0];
      assert r == [r[0]] + r[1..];
    }
  }

  /** Splitting at the separator undoes joining with it, provided that no
      part contains the separator and there is at least one part. */
  lemma {:induction false} SplitJoin(parts: seq<string>, c: char)
    requires |parts| > 0
    requires forall i | 0 <= i < |parts| :: c !in parts[i]
    ensures Split(Join(parts, [c]), c) == parts
  {
    if |parts| == 1 {
      SplitPiece(parts[0], c, "");
      assert parts[0] + "" == parts[0];
    } else {
      var tail := Join(parts[1..], [c]);
      SplitJoin(parts[1..], c);
      SplitPiece(parts[0], c, [c] + tail);
      assert ([c] + tail)[1..] == tail;
      assert Split([c] + tail, c) == [""] + parts[1..];
      assert parts[0] + "" == parts[0];
      assert parts[0] + [c] + tail == parts[0] + ([c] + tail);
      assert parts == [parts[0]] + parts[1..];
    }
  }
}
