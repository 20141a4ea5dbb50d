/** String helpers standing for the Ruby String methods the library calls:
    `gsub(/-/, '_')`, `split`, `strip`, `join`, `Integer#to_s` and `Integer()`. */
module Text {
  import opened Wrappers

  /** `s.gsub(/-/, '_')`: every hyphen becomes an underscore. */
  function Underscore(s: string): (r: string)
    ensures |r| == |s|
    ensures forall i :: 0 <= i < |s| ==> r[i] == (if s[i] == '-' then '_' else s[i])
    ensures '-' !in r
  {
    if s == [] then []
    else [if s[0] == '-' then '_' else s[0]] + Underscore(s[1..])
  }

  /** Decimal rendering of a natural number, most significant digit first. */
  function NatToDecimal(n: nat): (r: string)
    ensures |r| >= 1
    ensures forall i :: 0 <= i < |r| ==> '0' <= r[i] <= '9'
    ensures |r| > 1 ==> r[0] != '0'
    decreases n
  {
    if n < 10 then [Digit(n)] else NatToDecimal(n / 10) + [Digit(n % 10)]
  }

  function Digit(d: nat): (c: char)
    requires d < 10
    ensures '0' <= c <= '9'
  {
    "0123456789"[d]
  }

  /** `Integer#to_s`. */
  function IntToS(i: int): (r: string)
    ensures |r| >= 1
    ensures (r[0] == '-') <==> i < 0
  {
    if i < 0 then "-" + NatToDecimal(-i) else NatToDecimal(i)
  }

  predicate IsDigit(c: char) { '0' <= c <= '9' }

  predicate AllDigits(s: string) { forall i :: 0 <= i < |s| ==> IsDigit(s[i]) }

  function DecimalValue(s: string): nat
    requires AllDigits(s)
  {
    if s == [] then 0 else 10 * DecimalValue(s[..|s| - 1]) + ((s[|s| - 1] as int) - ('0' as int))
  }

  /** `Kernel#Integer(s)` for a plain decimal numeral; any other text raises
      ArgumentError (signalled here by None). */
  function ParseDecimal(s: string): (r: Option<int>)
    ensures r.Some? ==> r.value >= 0
    ensures r.Some? <==> s != [] && AllDigits(s) && (|s| == 1 || s[0] != '0')
  {
    if s != [] && AllDigits(s) && (|s| == 1 || s[0] != '0') then Some(DecimalValue(s)) else None
  }

  lemma {:induction false} DecimalValueOfNatToDecimal(n: nat)
    ensures AllDigits(NatToDecimal(n)) && DecimalValue(NatToDecimal(n)) == n
    decreases n
  {
    var r := NatToDecimal(n);
    if n < 10 {
      assert r == [Digit(n)];
      assert "0123456789"[n] as int - '0' as int == n;
    } else {
      DecimalValueOfNatToDecimal(n / 10);
      assert r[..|r| - 1] == NatToDecimal(n / 10);
      assert "0123456789"[n % 10] as int - '0' as int == n % 10;
    }
  }

  /** Reading back a rendered natural number gives the number: `Integer(n.to_s) == n`. */
  lemma ParseDecimalRoundTrip(n: nat)
    ensures ParseDecimal(NatToDecimal(n)) == Some(n)
  {
    DecimalValueOfNatToDecimal(n);
  }

  /** `pieces.join(sep)`. */
  function Join(pieces: seq<string>, sep: string): (r: string)
    ensures pieces == [] ==> r == ""
    ensures |pieces| == 1 ==> r == pieces[0]
  {
    if pieces == [] then ""
    else if |pieces| == 1 then pieces[0]
    else pieces[0] + sep + Join(pieces[1..], sep)
  }

  /** All the fields of `s` between occurrences of `sep`, empty ones included. */
  function Fields(s: string, sep: char): (r: seq<string>)
    ensures |r| >= 1
    ensures forall i :: 0 <= i < |r| ==> sep !in r[i]
  {
    if s == [] then [""]
    else
      var rest := Fields(s[1..], sep);
      if s[0] == sep then [""] + rest else [[s[0]] + rest[0]] + rest[1..]
  }

  /** Drops trailing empty strings, as Ruby's `split` does. */
  function DropTrailingEmpty(xs: seq<string>): (r: seq<string>)
    ensures |r| <= |xs| && r == xs[..|r|]
    ensures r != [] ==> r[|r| - 1] != ""
    ensures forall i :: |r| <= i < |xs| ==> xs[i] == ""
  {
    if xs == [] then []
    else if xs[|xs| - 1] == "" then DropTrailingEmpty(xs[..|xs| - 1])
    else xs
  }

  /** `s.split(sep)` for a one-character separator: the fields with the
      trailing empty ones removed (so `"".split(',') == []`). */
  function Split(s: string, sep: char): (r: seq<string>)
    ensures forall i :: 0 <= i < |r| ==> sep !in r[i]
    ensures r != [] ==> r[|r| - 1] != ""
  {
    DropTrailingEmpty(Fields(s, sep))
  }

  lemma {:induction false} FieldsWithoutSeparator(s: string, sep: char)
    requires sep !in s
    ensures Fields(s, sep) == [s]
  {
    if s != [] {
      FieldsWithoutSeparator(s[1..], sep);
      assert [s[0]] + s[1..] == s;
    }
  }

  lemma {:induction false} FieldsAround(a: string, sep: char, b: string)
    requires sep !in a
    ensures Fields(a + [sep] + b, sep) == [a] + Fields(b, sep)
  {
    if a == [] {
      assert (a + [sep] + b)[1..] == b;
    } else {
      assert (a + [sep] + b)[1..] == a[1..] + [sep] + b;
      FieldsAround(a[1..], sep, b);
      assert [a[0]] + a[1..] == a;
    }
  }

  /** Ruby's whitespace for `strip`: space, \t, \n, \v, \f, \r and NUL. */
  predicate IsSpace(c: char) {
    c == ' ' || c == '\t' || c == '\n' || c == '\U{B}' || c == '\U{C}' || c == '\r' || c == '\0'
  }

  function StripLeft(s: string): (r: string)
    ensures r == [] || !IsSpace(r[0])
    ensures (s == [] || !IsSpace(s[0])) ==> r == s
  {
    if s != [] && IsSpace(s[0]) then StripLeft(s[1..]) else s
  }

  function StripRight(s: string): (r: string)
    ensures r == [] || !IsSpace(r[|r| - 1])
    ensures (s == [] || !IsSpace(s[|s| - 1])) ==> r == s
  {
    if s != [] && IsSpace(s[|s| - 1]) then StripRight(s[..|s| - 1]) else s
  }

  /** `lstrip` leaves a suffix. */
  lemma {:induction false} StripLeftSuffix(s: string)
    ensures |StripLeft(s)| <= |s| && StripLeft(s) == s[|s| - |StripLeft(s)|..]
  {
    if s != [] && IsSpace(s[0]) {
      StripLeftSuffix(s[1..]);
    }
  }

  /** `rstrip` leaves a prefix. */
  lemma {:induction false} StripRightPrefix(s: string)
    ensures |StripRight(s)| <= |s| && StripRight(s) == s[..|StripRight(s)|]
  {
    if s != [] && IsSpace(s[|s| - 1]) {
      StripRightPrefix(s[..|s| - 1]);
    }
  }

  /** `s.strip`: neither end of the result is whitespace, and a string with
      no whitespace at either end is left as it is. */
  function Strip(s: string): (r: string)
    ensures r == [] || (!IsSpace(r[0]) && !IsSpace(r[|r| - 1]))
    ensures (s == [] || (!IsSpace(s[0]) && !IsSpace(s[|s| - 1]))) ==> r == s
  {
    var left := StripLeft(s);
    StripRightPrefix(left);
    StripRight(left)
  }

  /** Stripping only removes characters. */
  lemma StripKeepsOut(s: string, c: char)
    requires c !in s
    ensures c !in Strip(s)
  {
    var left := StripLeft(s);
    StripLeftSuffix(s);
    StripRightPrefix(left);
    assert forall d :: d in left ==> d in s;
    assert forall d :: d in StripRight(left) ==> d in left;
  }

  /** `c.downcase` for one ASCII character: A-Z become a-z, all else stays. */
  function LowerChar(c: char): char {
    if 'A' <= c <= 'Z' then (c as int + 32) as char else c
  }

  /** `s.downcase` for ASCII text. */
  function Lower(s: string): (r: string)
    ensures |r| == |s|
    ensures forall i :: 0 <= i < |s| ==> r[i] == LowerChar(s[i])
  {
    if s == [] then [] else [LowerChar(s[0])] + Lower(s[1..])
  }

  predicate StartsWith(s: string, prefix: string) {
    |prefix| <= |s| && s[..|prefix|] == prefix
  }
}
