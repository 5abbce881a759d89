/** A small option type, used wherever the source signals "no value" or throws. */
module Options {
  datatype Option<+T> = None | Some(value: T)
}

/**
  Character and string helpers with the meaning of the C++ library calls the
  source relies on: decimal printing through a string stream, `std::string::find`,
  and the number parsers `std::stoi` (bases 10 and 16) and `std::stoull`.
  Strings are sequences of byte-valued characters.
 */
module Text {
  import opened Options

  const ULLONG_LIMIT: nat := 0x1_0000_0000_0000_0000  // 2^64
  const INT_MIN: int := -0x8000_0000
  const INT_MAX: int := 0x7fff_ffff

  predicate IsDigit(c: char) { '0' <= c <= '9' }

  function DigitValue(c: char): nat
    requires IsDigit(c)
  {
    c as int - '0' as int
  }

  function DigitChar(d: nat): (c: char)
    requires d < 10
    ensures IsDigit(c) && DigitValue(c) == d
  {
    (d + '0' as int) as char
  }

  predicate AllDigits(s: string) { forall i :: 0 <= i < |s| ==> IsDigit(s[i]) }

  /** The characters `isspace` accepts in the C locale. */
  predicate IsSpace(c: char) {
    c == ' ' || c == '\t' || c == '\n' || c == '\U{B}' || c == '\U{C}' || c == '\r'
  }

  predicate IsHexDigit(c: char) { IsDigit(c) || 'a' <= c <= 'f' || 'A' <= c <= 'F' }

  function HexValue(c: char): (v: nat)
    requires IsHexDigit(c)
    ensures v < 16
  {
    if IsDigit(c) then DigitValue(c)
    else if 'a' <= c <= 'f' then c as int - 'a' as int + 10
    else c as int - 'A' as int + 10
  }

  /** The upper-case hexadecimal digit of a value below 16. */
  function HexChar(n: nat): (c: char)
    requires n < 16
    ensures IsHexDigit(c) && HexValue(c) == n
  {
    if n < 10 then DigitChar(n) else (n - 10 + 'A' as int) as char
  }

  /** How `operator<<` prints a non-negative integer: its decimal digits, no leading zeros. */
  function Decimal(n: nat): (s: string)
    ensures |s| > 0 && AllDigits(s)
    decreases n
  {
    if n < 10 then [DigitChar(n)] else Decimal(n / 10) + [DigitChar(n % 10)]
  }

  /** The value of a string of decimal digits, most significant first. */
  function DigitsValue(s: string): nat
    requires AllDigits(s)
    decreases |s|
  {
    if s == [] then 0 else 10 * DigitsValue(s[..|s| - 1]) + DigitValue(s[|s| - 1])
  }

  /** Reading the decimal digits printed for `n` gives `n`. */
  lemma {:induction false} DecimalValue(n: nat)
    ensures DigitsValue(Decimal(n)) == n
  {
    if n >= 10 {
      var s := Decimal(n);
      assert s[..|s| - 1] == Decimal(n / 10);
      DecimalValue(n / 10);
    }
  }

  /** Printing is injective: distinct numbers print differently. */
  lemma DecimalInjective(a: nat, b: nat)
    requires Decimal(a) == Decimal(b)
    ensures a == b
  {
    DecimalValue(a);
    DecimalValue(b);
  }

  predicate StartsWith(s: string, p: string) { |p| <= |s| && s[..|p|] == p }

  predicate EndsWith(s: string, p: string) { |p| <= |s| && s[|s| - |p|..] == p }

  predicate OccursAt(s: string, p: string, j: nat) { j + |p| <= |s| && s[j..j + |p|] == p }

  /** `s.find(p, from)`: the first position at or after `from` where `p` occurs. */
  function Find(s: string, p: string, from: nat): (r: Option<nat>)
    ensures r.Some? ==> from <= r.value && OccursAt(s, p, r.value)
    ensures r.Some? ==> forall j :: from <= j < r.value ==> !OccursAt(s, p, j)
    ensures r.None? ==> forall j :: from <= j ==> !OccursAt(s, p, j)
    decreases |s| - from
  {
    if from + |p| > |s| then None
    else if s[from..from + |p|] == p then Some(from)
    else Find(s, p, from + 1)
  }

  /** The first occurrence at or after `from` is what `find` returns. */
  lemma FindFirst(s: string, p: string, from: nat, j: nat)
    requires from <= j && OccursAt(s, p, j)
    requires forall i :: from <= i < j ==> !OccursAt(s, p, i)
    ensures Find(s, p, from) == Some(j)
  {
  }

  /** `s.find(c, from)` for a single character `c`: the first position at or after `from` holding `c`. */
  function FindChar(s: string, c: char, from: nat): (r: Option<nat>)
    ensures r.Some? ==> from <= r.value < |s| && s[r.value] == c
    ensures r.Some? ==> forall j :: from <= j < r.value ==> s[j] != c
    ensures r.None? ==> forall j :: from <= j < |s| ==> s[j] != c
    decreases |s| - from
  {
    if from >= |s| then None
    else if s[from] == c then Some(from)
    else FindChar(s, c, from + 1)
  }

  /** A `c` at `j` with none between `from` and `j` is what the search finds. */
  lemma FindCharAt(s: string, c: char, from: nat, j: nat)
    requires from <= j < |s| && s[j] == c
    requires forall i :: from <= i < j ==> s[i] != c
    ensures FindChar(s, c, from) == Some(j)
  {
    var r := FindChar(s, c, from);
    if r.Some? {
      assert !(r.value < j) && !(r.value > j);
    }
  }

  /** `s.find(p) == 0` holds exactly when `s` starts with `p`. */
  lemma FindAtStart(s: string, p: string)
    ensures Find(s, p, 0) == Some(0) <==> StartsWith(s, p)
  {
  }

  /** The strings of `pieces` joined in order. */
  function Concat(pieces: seq<string>): string
    decreases |pieces|
  {
    if pieces == [] then [] else pieces[0] + Concat(pieces[1..])
  }

  lemma ConcatAppend(a: seq<string>, b: seq<string>)
    ensures Concat(a + b) == Concat(a) + Concat(b)
    decreases |a|
  {
    if a != [] {
      assert (a + b)[0] == a[0] && (a + b)[1..] == a[1..] + b;
      ConcatAppend(a[1..], b);
      calc {
        Concat(a + b);
        a[0] + Concat(a[1..] + b);
        a[0] + (Concat(a[1..]) + Concat(b));
        (a[0] + Concat(a[1..])) + Concat(b);
      }
    } else {
      assert a + b == b;
    }
  }

  /** The character classes the parsers read runs of. */
  datatype CharClass = DecimalDigits | LineChars

  predicate InClass(c: char, k: CharClass) {
    match k
    case DecimalDigits => IsDigit(c)
    case LineChars => c != '\n'
  }

  /** The longest prefix of `s` made of characters of class `k`. */
  function Span(s: string, k: CharClass): (r: string)
    ensures |r| <= |s| && r == s[..|r|]
    ensures forall i :: 0 <= i < |r| ==> InClass(r[i], k)
    ensures |r| < |s| ==> !InClass(s[|r|], k)
    decreases |s|
  {
    if s != [] && InClass(s[0], k) then [s[0]] + Span(s[1..], k) else []
  }

  function SkipSpaces(s: string): (r: string)
    ensures |r| <= |s| && r == s[|s| - |r|..]
    ensures r != [] ==> !IsSpace(r[0])
    decreases |s|
  {
    if s != [] && IsSpace(s[0]) then SkipSpaces(s[1..]) else s
  }

  /** What `strtol`/`strtoull` read before the digits: leading white space and one optional sign. */
  datatype Signed = Signed(negative: bool, digits: string)

  function SplitSign(s: string): Signed {
    var t := SkipSpaces(s);
    if t != [] && (t[0] == '-' || t[0] == '+') then Signed(t[0] == '-', t[1..]) else Signed(false, t)
  }

  /**
    `std::stoi(s)`: white space, an optional sign, then the longest run of decimal
    digits. None stands for the exceptions: no digit at all (`invalid_argument`) or a
    value outside the 32-bit range (`out_of_range`).
   */
  function Stoi(s: string): (r: Option<int>)
    ensures r.Some? ==> INT_MIN <= r.value <= INT_MAX
  {
    var sg := SplitSign(s);
    var ds := Span(sg.digits, DecimalDigits);
    if ds == [] then None
    else
      var m: int := DigitsValue(ds);
      var v := if sg.negative then -m else m;
      if INT_MIN <= v <= INT_MAX then Some(v) else None
  }

  /**
    `std::stoi(t, nullptr, 16)` on a string of the two characters `a` and `b`:
    white space or a sign may come first, then the longest run of hexadecimal
    digits is read. None stands for `invalid_argument`, thrown when no digit is
    read. Two characters leave no room for a `0x` prefix followed by a digit,
    nor for a value outside the 32-bit range.
   */
  function HexPair(a: char, b: char): (r: Option<int>)
    ensures r.Some? ==> -15 <= r.value <= 255
    ensures r.None? <==> !IsHexDigit(a) && !((IsSpace(a) || a == '+' || a == '-') && IsHexDigit(b))
  {
    if IsHexDigit(a) then Some(if IsHexDigit(b) then 16 * HexValue(a) + HexValue(b) else HexValue(a))
    else if (IsSpace(a) || a == '+' || a == '-') && IsHexDigit(b) then
      Some(if a == '-' then -(HexValue(b) as int) else HexValue(b))
    else None
  }

  /**
    `std::stoull(s)`: white space, an optional sign, then the longest run of decimal
    digits; a minus sign negates modulo 2^64 as `strtoull` does. None stands for
    `invalid_argument` and `out_of_range`.
   */
  function Stoull(s: string): (r: Option<nat>)
    ensures r.Some? ==> r.value < ULLONG_LIMIT
  {
    var sg := SplitSign(s);
    var ds := Span(sg.digits, DecimalDigits);
    if ds == [] then None
    else
      var m := DigitsValue(ds);
      if m >= ULLONG_LIMIT then None
      else if sg.negative then Some((ULLONG_LIMIT - m) % ULLONG_LIMIT) else Some(m)
  }

  /** A printed number parses back to itself. */
  lemma StoullDecimal(n: nat)
    requires n < ULLONG_LIMIT
    ensures Stoull(Decimal(n)) == Some(n)
  {
    var s := Decimal(n);
    assert IsDigit(s[0]) && !IsSpace(s[0]);
    assert SkipSpaces(s) == s;
    assert SplitSign(s) == Signed(false, s);
    AllDigitsTaken(s);
    DecimalValue(n);
  }

  /** A printed number in the 32-bit range reads back through `std::stoi`. */
  lemma StoiDecimal(n: nat)
    requires n <= INT_MAX
    ensures Stoi(Decimal(n)) == Some(n)
  {
    var s := Decimal(n);
    assert IsDigit(s[0]) && !IsSpace(s[0]);
    assert SkipSpaces(s) == s;
    var sg := SplitSign(s);
    assert sg == Signed(false, s);
    AllDigitsTaken(s);
    assert Span(sg.digits, DecimalDigits) == s;
    DecimalValue(n);
    assert DigitsValue(s) == n;
  }

  lemma {:induction false} AllDigitsTaken(s: string)
    requires AllDigits(s)
    ensures Span(s, DecimalDigits) == s
    decreases |s|
  {
    if s != [] {
      AllDigitsTaken(s[1..]);
    }
  }

  /** The two upper-case hexadecimal digits of a byte value read back as that value. */
  lemma HexPairValue(v: nat)
    requires v < 256
    ensures HexPair(HexChar(v / 16), HexChar(v % 16)) == Some(v)
  {
    var q, r := v / 16, v % 16;
    assert 16 * q + r == v;
  }
}
