/** Byte strings as the C library reads and prints them: decimal numerals, white space,
    NUL-terminated strings, and the line pieces that fgets and rio_readlineb return. */
module Text {
  datatype Option<+T> = None | Some(value: T)

  const INT_MAX: int := 0x7fff_ffff

  const INT_MIN: int := -0x8000_0000

  const LLONG_MAX: int := 0x7fff_ffff_ffff_ffff

  const MAXLINE: nat := 8192

  predicate InInt(v: int) { INT_MIN <= v <= INT_MAX }

  /** isspace in the "C" locale. */
  predicate IsSpace(c: char) { c == ' ' || '\t' <= c <= '\r' }

  predicate IsDigit(c: char) { '0' <= c <= '9' }

  function DigitValue(c: char): (d: nat)
    requires IsDigit(c)
  {
    c as int - '0' as int
  }

  function DigitChar(d: nat): (c: char)
    requires d < 10
    ensures IsDigit(c) && DigitValue(c) == d
  {
    '0' + d as char
  }

  // ---------- printing and scanning numerals ----------

  /** What %d and %lld print for a non-negative value. */
  function Dec(n: nat): (s: string)
    ensures |s| > 0 && IsDigit(s[0])
    ensures forall i :: 0 <= i < |s| ==> IsDigit(s[i])
  {
    if n < 10 then [DigitChar(n)] else Dec(n / 10) + [DigitChar(n % 10)]
  }

  function IntText(n: int): string {
    if n < 0 then "-" + Dec(-n) else Dec(n)
  }

  function SkipSpace(s: string): string {
    if s != "" && IsSpace(s[0]) then SkipSpace(s[1..]) else s
  }

  function ScanDigits(s: string, acc: nat): (nat, string) {
    if s != "" && IsDigit(s[0]) then ScanDigits(s[1..], 10 * acc + DigitValue(s[0])) else (acc, s)
  }

  function ScanSigned(t: string): Option<(int, string)> {
    var negative := t != "" && t[0] == '-';
    var u := if t != "" && (t[0] == '-' || t[0] == '+') then t[1..] else t;
    if u == "" || !IsDigit(u[0]) then None
    else
      var (v, rest) := ScanDigits(u, 0);
      var value: int := if negative then -(v as int) else v;
      Some((value, rest))
  }

  /** The longest decimal numeral strtol and %d accept at the front of s, with its mathematical
      value, and the text after it; None when there is no numeral. */
  function ScanInt(s: string): Option<(int, string)> { ScanSigned(SkipSpace(s)) }

  lemma {:induction false} ScanDigitsOfDec(n: nat, rest: string)
    ensures ScanDigits(Dec(n) + rest, 0) == ScanDigits(rest, n)
  {
    if n < 10 {
      assert (Dec(n) + rest)[1..] == rest;
    } else {
      var last := [DigitChar(n % 10)];
      assert Dec(n) + rest == Dec(n / 10) + (last + rest);
      ScanDigitsOfDec(n / 10, last + rest);
      assert (last + rest)[1..] == rest;
    }
  }

  predicate NoDigitNext(s: string) { s == "" || !IsDigit(s[0]) }

  lemma ScanDec(n: nat, rest: string)
    requires NoDigitNext(rest)
    ensures ScanDigits(Dec(n) + rest, 0) == (n, rest)
  {
    ScanDigitsOfDec(n, rest);
  }

  lemma ScanSignedBy(t: string, u: string, negative: bool, v: nat, rest: string)
    requires t == (if negative then "-" else "") + u
    requires u != "" && IsDigit(u[0]) && ScanDigits(u, 0) == (v, rest)
    ensures ScanSigned(t) == Some((if negative then 0 - v else v as int, rest))
  {
    assert negative ==> t[1..] == u;
    assert !negative ==> t == u;
  }

  lemma ScanSignedOfText(n: int, rest: string)
    requires NoDigitNext(rest)
    ensures ScanSigned(IntText(n) + rest) == Some((n, rest))
  {
    var v: nat := if n < 0 then -n else n;
    ScanDec(v, rest);
    assert IntText(n) + rest == (if n < 0 then "-" else "") + (Dec(v) + rest);
    ScanSignedBy(IntText(n) + rest, Dec(v) + rest, n < 0, v, rest);
  }

  lemma {:induction false} SkipSpaceOver(blank: string, t: string)
    requires forall i :: 0 <= i < |blank| ==> IsSpace(blank[i])
    ensures SkipSpace(blank + t) == SkipSpace(t)
  {
    if blank == "" {
      assert blank + t == t;
    } else {
      assert (blank + t)[1..] == blank[1..] + t;
      SkipSpaceOver(blank[1..], t);
    }
  }

  predicate Blank(s: string) { forall i :: 0 <= i < |s| ==> IsSpace(s[i]) }

  /** Scanning inverts printing, after any white space and before any text that is not a digit. */
  lemma ScanPrinted(blank: string, n: int, rest: string)
    requires Blank(blank) && NoDigitNext(rest)
    ensures ScanInt(blank + IntText(n) + rest) == Some((n, rest))
  {
    var t := IntText(n) + rest;
    assert blank + IntText(n) + rest == blank + t;
    SkipSpaceOver(blank, t);
    assert SkipSpace(t) == t;
    ScanSignedOfText(n, rest);
  }

  function Pow10(k: nat): (p: nat)
    ensures p > 0
  {
    if k == 0 then 1 else 10 * Pow10(k - 1)
  }

  lemma {:induction false} DecLength(n: nat, k: nat)
    requires 1 <= k && n < Pow10(k)
    ensures |Dec(n)| <= k
  {
    if n >= 10 {
      assert Pow10(1) == 10;
      DecLength(n / 10, k - 1);
    }
  }

  /** A printed int takes at most 11 characters, a printed generation at most 19. */
  lemma IntTextLength(n: int)
    requires InInt(n)
    ensures |IntText(n)| <= 11
    ensures forall i :: 0 <= i < |IntText(n)| ==> IsDigit(IntText(n)[i]) || IntText(n)[i] == '-'
  {
    assert Pow10(10) == 10_000_000_000 by {
      assert Pow10(5) == 100_000;
      assert Pow10(10) == 10 * Pow10(9) == 100 * Pow10(8) == 1000 * Pow10(7);
    }
    DecLength(if n < 0 then -n else n, 10);
  }

  lemma GenerationLength(g: nat)
    requires g <= LLONG_MAX
    ensures |Dec(g)| <= 19
  {
    assert Pow10(19) == 10_000_000_000_000_000_000 by {
      assert Pow10(5) == 100_000;
      assert Pow10(9) == 1_000_000_000;
      assert Pow10(13) == 10_000_000_000_000;
      assert Pow10(17) == 100_000_000_000_000_000;
    }
    DecLength(g, 19);
  }

  // ---------- numerals, written out ----------

  /** The value of a string of decimal digits. */
  function Value(digits: string): int {
    if digits == "" then 0 else 10 * Value(digits[..|digits| - 1]) + (digits[|digits| - 1] as int - '0' as int)
  }

  ghost predicate Digits(d: string) { forall c :: c in d ==> '0' <= c <= '9' }

  /** The six white space characters. */
  ghost predicate White(s: string) {
    forall c :: c in s ==> c == ' ' || c == '\t' || c == '\n' || c == '\U{0b}' || c == '\U{0c}' || c == '\r'
  }

  ghost predicate SignedDigits(t: string, v: int, sign: string, digits: string) {
    && t == sign + digits && (sign == "" || sign == "+" || sign == "-")
    && digits != "" && Digits(digits)
    && v == if sign == "-" then -Value(digits) else Value(digits)
  }

  /** t is a decimal numeral of value v: an optional sign, and digits, leading zeros allowed. */
  ghost predicate Numeral(t: string, v: int) {
    exists sign, digits :: SignedDigits(t, v, sign, digits)
  }

  /** The text does not go on with a digit. */
  ghost predicate Stops(rest: string) { rest == "" || rest[0] < '0' || rest[0] > '9' }

  lemma {:induction false} DigitsNatural(d: string)
    requires Digits(d)
    ensures Value(d) >= 0
  {
    if d != "" {
      var front := d[..|d| - 1];
      assert d[|d| - 1] in d && forall c :: c in front ==> c in d;
      DigitsNatural(front);
    }
  }

  lemma {:induction false} ScanDigitsReads(d: string, t: string)
    requires Digits(d)
    ensures Value(d) >= 0 && ScanDigits(d + t, 0) == ScanDigits(t, Value(d))
  {
    DigitsNatural(d);
    if d == "" {
      assert d + t == t;
    } else {
      var front, last := d[..|d| - 1], d[|d| - 1];
      assert last in d && forall c :: c in front ==> c in d;
      assert d + t == front + ([last] + t);
      ScanDigitsReads(front, [last] + t);
      assert ([last] + t)[1..] == t;
    }
  }

  lemma WhiteIsBlank(s: string)
    ensures White(s) <==> Blank(s)
  {
    if White(s) {
      forall i | 0 <= i < |s| ensures IsSpace(s[i]) { assert s[i] in s; }
    }
  }

  lemma {:induction false} SkipSpaceOfBlank(s: string)
    ensures SkipSpace(s) == "" <==> Blank(s)
  {
    if s != "" && IsSpace(s[0]) {
      SkipSpaceOfBlank(s[1..]);
      assert forall i :: 0 < i < |s| ==> s[i] == s[1..][i - 1];
    }
  }

  /** strtol and %d, for any white space, any sign and any digits. */
  lemma ScanIntReads(blank: string, t: string, v: int, rest: string)
    requires White(blank) && Numeral(t, v) && Stops(rest)
    ensures ScanInt(blank + t + rest) == Some((v, rest))
  {
    var sign, digits :| SignedDigits(t, v, sign, digits);
    var s := t + rest;
    assert blank + t + rest == blank + s;
    WhiteIsBlank(blank);
    SkipSpaceOver(blank, s);
    assert digits[0] in digits;
    assert SkipSpace(s) == s;
    ScanDigitsReads(digits, rest);
    if sign == "" {
      assert s == digits + rest;
    } else {
      assert s == sign + (digits + rest) && s[1..] == digits + rest;
    }
  }

  lemma {:induction false} DigitRun(s: string) returns (d: string)
    ensures d <= s && Digits(d) && Stops(s[|d|..])
    ensures s != "" && '0' <= s[0] <= '9' ==> d != ""
  {
    d := "";
    if s != "" && '0' <= s[0] <= '9' {
      var more := DigitRun(s[1..]);
      d := [s[0]] + more;
      assert s[|d|..] == s[1..][|more|..];
    }
  }

  lemma {:induction false} WhiteRun(s: string) returns (b: string)
    ensures b <= s && White(b) && SkipSpace(s) == s[|b|..]
  {
    b := "";
    if s != "" && IsSpace(s[0]) {
      var more := WhiteRun(s[1..]);
      b := [s[0]] + more;
      assert s[|b|..] == s[1..][|more|..];
    }
  }

  /** And nothing else is read: what was read was white space and a numeral. */
  lemma ScanIntOnly(s: string) returns (blank: string, t: string)
    requires ScanInt(s).Some?
    ensures var (v, rest) := ScanInt(s).value;
      White(blank) && Numeral(t, v) && Stops(rest) && s == blank + t + rest
  {
    blank := WhiteRun(s);
    var u := s[|blank|..];
    var sign := if u != "" && (u[0] == '-' || u[0] == '+') then [u[0]] else "";
    var w := u[|sign|..];
    var digits := DigitRun(w);
    t := sign + digits;
    var rest := w[|digits|..];
    var v := if sign == "-" then -Value(digits) else Value(digits);
    assert SignedDigits(t, v, sign, digits);
    assert s == blank + t + rest;
    ScanIntReads(blank, t, v, rest);
  }

  /** A printed number has no superfluous zeros, and a sign only if it is negative. */
  lemma {:induction false} DecCanonical(n: nat)
    ensures Digits(Dec(n)) && Value(Dec(n)) == n && (|Dec(n)| > 1 ==> Dec(n)[0] != '0')
  {
    if n >= 10 {
      DecCanonical(n / 10);
      assert Dec(n)[..|Dec(n)| - 1] == Dec(n / 10);
      if |Dec(n / 10)| == 1 { assert Value(Dec(n / 10)) == DigitValue(Dec(n / 10)[0]); }
    }
  }

  lemma PrintedNumeral(n: int)
    ensures Numeral(IntText(n), n)
    ensures Digits(if n < 0 then IntText(n)[1..] else IntText(n)) && (n < 0 ==> IntText(n)[0] == '-')
    ensures |IntText(n)| > (if n < 0 then 2 else 1) ==> IntText(n)[if n < 0 then 1 else 0] != '0'
  {
    var d := Dec(if n < 0 then -n else n);
    DecCanonical(if n < 0 then -n else n);
    assert SignedDigits(IntText(n), n, if n < 0 then "-" else "", d);
  }

  // ---------- C strings and line pieces ----------

  /** The C string that a buffer holds: everything before the first NUL. */
  function CStr(s: string): (t: string)
    ensures t <= s
    ensures '\0' !in t
    ensures '\0' !in s ==> t == s
  {
    if s == "" || s[0] == '\0' then "" else
      var t := [s[0]] + CStr(s[1..]);
      assert '\0' !in s ==> '\0' !in s[1..];
      t
  }

  /** Length of the piece one call of fgets (or rio_readlineb) takes from the front of s when
      the buffer has room for `limit` bytes before the NUL. */
  function PieceLength(s: string, limit: nat): (k: nat)
    ensures k <= |s| && k <= limit
    ensures s != "" && limit > 0 ==> k > 0
  {
    if s == "" || limit == 0 then 0
    else if s[0] == '\n' then 1
    else 1 + PieceLength(s[1..], limit - 1)
  }

  /** The piece ends at the first newline, or is full, or is all that is left. */
  lemma {:induction false} PieceShape(s: string, limit: nat)
    ensures var k := PieceLength(s, limit);
      && (forall i :: 0 <= i < k - 1 ==> s[i] != '\n')
      && (k == limit || k == |s| || (k > 0 && s[k - 1] == '\n'))
  {
    if s == "" || limit == 0 || s[0] == '\n' {
    } else {
      PieceShape(s[1..], limit - 1);
      var k := PieceLength(s, limit);
      forall i | 0 <= i < k - 1 ensures s[i] != '\n' {
        if i > 0 { assert s[i] == s[1..][i - 1]; }
      }
    }
  }

  /** Every piece that ends so is the one taken: the shape above decides the length. */
  lemma {:induction false} PieceUnique(s: string, limit: nat, k: nat)
    requires k <= |s| && k <= limit
    requires forall i :: 0 <= i < k - 1 ==> s[i] != '\n'
    requires k == limit || k == |s| || (k > 0 && s[k - 1] == '\n')
    ensures k == PieceLength(s, limit)
  {
    if s == "" || limit == 0 {
    } else if s[0] == '\n' {
    } else {
      assert k > 0;
      forall i | 0 <= i < k - 1 - 1 ensures s[1..][i] != '\n' { assert s[1..][i] == s[i + 1]; }
      PieceUnique(s[1..], limit - 1, k - 1);
    }
  }

  /** All pieces of a stream, in order. */
  function Pieces(s: string, limit: nat): (ps: seq<string>)
    requires limit > 0
    decreases |s|
  {
    if s == "" then [] else
      var k := PieceLength(s, limit);
      [s[..k]] + Pieces(s[k..], limit)
  }

  function Concat(ps: seq<string>): string {
    if ps == [] then "" else ps[0] + Concat(ps[1..])
  }

  lemma ConcatCons(p: string, ps: seq<string>)
    ensures Concat([p] + ps) == p + Concat(ps)
  {
    assert ([p] + ps)[1..] == ps;
  }

  /** The pieces are a partition of the stream: joined in order they give it back. */
  lemma {:induction false} PiecesConcat(s: string, limit: nat)
    requires limit > 0
    ensures Concat(Pieces(s, limit)) == s
    decreases |s|
  {
    if s != "" {
      var k := PieceLength(s, limit);
      PiecesConcat(s[k..], limit);
      ConcatCons(s[..k], Pieces(s[k..], limit));
      assert s[..k] + s[k..] == s;
    }
  }

  /** A line is a nonempty text whose only newline is its last character. */
  predicate IsLine(l: string) {
    l != "" && l[|l| - 1] == '\n' && forall i :: 0 <= i < |l| - 1 ==> l[i] != '\n'
  }

  predicate LineWithin(l: string, limit: nat) { IsLine(l) && |l| <= limit }

  lemma {:induction false} PiecesOfLines(ls: seq<string>, limit: nat)
    requires limit > 0
    requires forall l :: l in ls ==> LineWithin(l, limit)
    ensures Pieces(Concat(ls), limit) == ls
  {
    if ls != [] {
      var s := Concat(ls);
      var k := |ls[0]|;
      assert LineWithin(ls[0], limit);
      PieceUnique(s, limit, k);
      assert s[..k] == ls[0] && s[k..] == Concat(ls[1..]);
      PiecesOfLines(ls[1..], limit);
    }
  }

  lemma {:induction false} ConcatAppend(ps: seq<string>, p: string)
    ensures Concat(ps + [p]) == Concat(ps) + p
  {
    if ps == [] {
      assert ps + [p] == [p];
    } else {
      assert (ps + [p])[1..] == ps[1..] + [p];
      ConcatAppend(ps[1..], p);
    }
  }
}
