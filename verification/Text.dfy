/** The byte-string operations of Go's strings and strconv packages that the HTTP engine relies on. */
module Text {
  import opened Bytes

  const TAB: byte := 0x09
  const LF: byte := 0x0A
  const CR: byte := 0x0D
  const SP: byte := 0x20
  const COMMA: byte := 0x2C
  const COLON: byte := 0x3A
  const SEMICOLON: byte := 0x3B
  const CRLF: bytes := [CR, LF]

  // ---------------------------------------------------------------- searching and splitting

  /** Index of the first `b`, or the length when there is none. */
  function Find(s: bytes, b: byte): (i: nat)
    ensures i <= |s| && (i < |s| ==> s[i] == b)
  {
    if s == [] || s[0] == b then 0 else Find(s[1..], b) + 1
  }

  lemma {:induction false} FindFirst(s: bytes, b: byte)
    ensures b !in s[..Find(s, b)]
  {
    if s != [] && s[0] != b {
      var i := Find(s[1..], b);
      FindFirst(s[1..], b);
      assert s[..i + 1] == [s[0]] + s[1..][..i];
    }
  }

  lemma {:induction false} FindAt(x: bytes, b: byte, y: bytes)
    requires b !in x
    ensures Find(x + [b] + y, b) == |x|
  {
    var s := x + [b] + y;
    assert s[|x|] == b && s[..|x|] == x;
    FindUnique(s, b, |x|);
  }

  lemma {:induction false} FindUnique(s: bytes, b: byte, n: nat)
    requires n < |s| && s[n] == b && b !in s[..n]
    ensures Find(s, b) == n
  {
    if n > 0 {
      assert s[0] in s[..n];
      assert s[1..][..n - 1] == s[..n][1..];
      FindUnique(s[1..], b, n - 1);
    }
  }

  lemma {:induction false} FindNone(x: bytes, b: byte)
    requires b !in x
    ensures Find(x, b) == |x|
  {
    if x != [] {
      FindNone(x[1..], b);
    }
  }

  function Split(s: bytes, b: byte): (parts: seq<bytes>)
    ensures parts != []
    decreases |s|
  {
    var i := Find(s, b);
    if i == |s| then [s] else [s[..i]] + Split(s[i + 1..], b)
  }

  lemma {:induction false} SplitParts(s: bytes, b: byte)
    ensures forall i :: 0 <= i < |Split(s, b)| ==> b !in Split(s, b)[i]
    decreases |s|
  {
    var i := Find(s, b);
    FindFirst(s, b);
    if i == |s| {
      assert s[..i] == s;
    } else {
      SplitParts(s[i + 1..], b);
    }
  }

  lemma {:induction false} SplitAt(x: bytes, b: byte, y: bytes)
    requires b !in x
    ensures Split(x + [b] + y, b) == [x] + Split(y, b)
  {
    FindAt(x, b, y);
    var s := x + [b] + y;
    assert s[..|x|] == x && s[|x| + 1..] == y;
  }

  /** Drops trailing bytes that belong to `cut`. */
  function TrimRight(s: bytes, cut: set<byte>): (r: bytes)
    ensures r <= s && (r != [] ==> r[|r| - 1] !in cut)
  {
    if s != [] && s[|s| - 1] in cut then TrimRight(s[..|s| - 1], cut) else s
  }

  lemma {:induction false} TrimRightCuts(s: bytes, cut: set<byte>)
    ensures forall i :: |TrimRight(s, cut)| <= i < |s| ==> s[i] in cut
  {
    if s != [] && s[|s| - 1] in cut {
      TrimRightCuts(s[..|s| - 1], cut);
    }
  }

  lemma {:induction false} TrimRightOf(x: bytes, y: bytes, cut: set<byte>)
    requires x == [] || x[|x| - 1] !in cut
    requires forall b :: b in y ==> b in cut
    ensures TrimRight(x + y, cut) == x
  {
    if y == [] {
      assert x + y == x;
    } else {
      var m := |y| - 1;
      assert (x + y)[..|x + y| - 1] == x + y[..m];
      assert y[m] in y;
      TrimRightOf(x, y[..m], cut);
    }
  }

  // ---------------------------------------------------------------- white space

  predicate AsciiSpace(b: byte) {
    0x09 <= b <= 0x0D || b == SP
  }

  /** The UTF-8 encodings of the white space beyond ASCII: two bytes, or three. */
  predicate Wide2(a: byte, b: byte) {
    a == 0xC2 && (b == 0x85 || b == 0xA0)
  }

  predicate Wide3(a: byte, b: byte, c: byte) {
    || (a == 0xE1 && b == 0x9A && c == 0x80)
    || (a == 0xE2 && b == 0x80 && (0x80 <= c <= 0x8A || c == 0xA8 || c == 0xA9 || c == 0xAF))
    || (a == 0xE2 && b == 0x81 && c == 0x9F)
    || (a == 0xE3 && b == 0x80 && c == 0x80)
  }

  /** Length of the white-space character at the front, or 0. */
  function SpacePrefix(s: bytes): (k: nat)
    ensures k <= |s|
  {
    if s == [] then 0
    else if AsciiSpace(s[0]) then 1
    else if |s| >= 2 && Wide2(s[0], s[1]) then 2
    else if |s| >= 3 && Wide3(s[0], s[1], s[2]) then 3
    else 0
  }

  /** Length of the white-space character at the end, or 0. */
  function SpaceSuffix(s: bytes): (k: nat)
    ensures k <= |s|
  {
    var n := |s|;
    if n == 0 then 0
    else if AsciiSpace(s[n - 1]) then 1
    else if n >= 2 && Wide2(s[n - 2], s[n - 1]) then 2
    else if n >= 3 && Wide3(s[n - 3], s[n - 2], s[n - 1]) then 3
    else 0
  }

  /** The UTF-8 encoding of a code point of at most sixteen bits. */
  function Utf8(cp: nat): (u: bytes)
    requires cp < 0x1_0000
    ensures 1 <= |u| <= 3
  {
    if cp < 0x80 then [cp]
    else if cp < 0x800 then [0xC0 + cp / 0x40, 0x80 + cp % 0x40]
    else [0xE0 + cp / 0x1000, 0x80 + cp / 0x40 % 0x40, 0x80 + cp % 0x40]
  }

  /** The white space of Unicode. */
  predicate WhiteSpace(cp: nat) {
    || 0x09 <= cp <= 0x0D || cp == 0x20 || cp == 0x85 || cp == 0xA0 || cp == 0x1680
    || 0x2000 <= cp <= 0x200A || cp == 0x2028 || cp == 0x2029 || cp == 0x202F || cp == 0x205F || cp == 0x3000
  }

  /** A text starts with white space exactly if its first character is one. */
  lemma {:induction false} SpaceFirst(cp: nat, rest: bytes)
    requires cp < 0x1_0000
    ensures SpacePrefix(Utf8(cp) + rest) == if WhiteSpace(cp) then |Utf8(cp)| else 0
  {
    var u := Utf8(cp);
    var s := u + rest;
    assert s[0] == u[0] && (|u| > 1 ==> s[1] == u[1]) && (|u| > 2 ==> s[2] == u[2]);
    if 0x80 <= cp < 0x800 {
      WideTwo(cp);
    } else if cp >= 0x800 {
      WideThree(cp);
    }
  }

  lemma {:induction false} WideTwo(cp: nat)
    requires 0x80 <= cp < 0x800
    ensures Wide2(0xC0 + cp / 0x40, 0x80 + cp % 0x40) <==> WhiteSpace(cp)
  {}

  lemma {:induction false} WideThree(cp: nat)
    requires 0x800 <= cp < 0x1_0000
    ensures Wide3(0xE0 + cp / 0x1000, 0x80 + cp / 0x40 % 0x40, 0x80 + cp % 0x40) <==> WhiteSpace(cp)
  {
    var a, b, c := cp / 0x1000, cp / 0x40 % 0x40, cp % 0x40;
    assert cp / 0x40 / 0x40 == a;
    assert cp == a * 0x1000 + b * 0x40 + c;
  }

  predicate Trimmed(s: bytes) {
    SpacePrefix(s) == 0 && SpaceSuffix(s) == 0
  }

  function TrimSpaceLeft(s: bytes): (r: bytes)
    ensures SpacePrefix(r) == 0
    decreases |s|
  {
    var k := SpacePrefix(s);
    if k == 0 then s else TrimSpaceLeft(s[k..])
  }

  lemma {:induction false} TrimSpaceLeftSuffix(s: bytes)
    ensures |TrimSpaceLeft(s)| <= |s| && TrimSpaceLeft(s) == s[|s| - |TrimSpaceLeft(s)|..]
    decreases |s|
  {
    var k := SpacePrefix(s);
    if k > 0 {
      TrimSpaceLeftSuffix(s[k..]);
    }
  }

  function TrimSpaceRight(s: bytes): (r: bytes)
    ensures SpaceSuffix(r) == 0 && r <= s
    decreases |s|
  {
    var k := SpaceSuffix(s);
    if k == 0 then s else TrimSpaceRight(s[..|s| - k])
  }

  function TrimSpace(s: bytes): bytes {
    TrimSpaceRight(TrimSpaceLeft(s))
  }

  lemma {:induction false} PrefixOfUnspaced(p: bytes, s: bytes)
    requires p <= s && SpacePrefix(s) == 0
    ensures SpacePrefix(p) == 0
  {}

  lemma {:induction false} TrimSpaceTrims(s: bytes)
    ensures Trimmed(TrimSpace(s))
  {
    PrefixOfUnspaced(TrimSpace(s), TrimSpaceLeft(s));
  }

  lemma {:induction false} TrimSpaceIdempotent(s: bytes)
    requires Trimmed(s)
    ensures TrimSpace(s) == s && TrimSpace([SP] + s) == s
  {
    assert ([SP] + s)[1..] == s;
  }

  /** Trailing bytes cannot pull an ASCII byte that is no space into a white-space character. */
  lemma {:induction false} SuffixStaysRight(x: bytes, y: bytes)
    requires x != [] && x[|x| - 1] < 0x80 && !AsciiSpace(x[|x| - 1])
    ensures SpaceSuffix(x + y) <= |y|
  {
    var s := x + y;
    assert s[|x| - 1] == x[|x| - 1];
  }

  /** Trimming on the right stops at the latest at an ASCII byte that is no space. */
  lemma {:induction false} TrimStopsAt(x: bytes, y: bytes)
    requires x != [] && x[|x| - 1] < 0x80 && !AsciiSpace(x[|x| - 1])
    ensures |x| <= |TrimSpaceRight(x + y)| && x <= TrimSpaceRight(x + y)
    decreases |y|
  {
    SuffixStaysRight(x, y);
    var k := SpaceSuffix(x + y);
    if k > 0 {
      assert (x + y)[..|x + y| - k] == x + y[..|y| - k];
      TrimStopsAt(x, y[..|y| - k]);
    }
  }

  lemma {:induction false} TrimAsciiTail(x: bytes, y: bytes)
    requires SpaceSuffix(x) == 0 && forall b :: b in y ==> AsciiSpace(b)
    ensures TrimSpaceRight(x + y) == x
  {
    if y == [] {
      assert x + y == x;
    } else {
      var m := |y| - 1;
      assert y[m] in y;
      assert (x + y)[..|x + y| - 1] == x + y[..m];
      TrimAsciiTail(x, y[..m]);
    }
  }

  // ---------------------------------------------------------------- letter case

  /** A word in ASCII. */
  function Spelled(word: string): bytes
    requires forall i :: 0 <= i < |word| ==> word[i] < 128 as char
  {
    seq(|word|, i requires 0 <= i < |word| => word[i] as int)
  }

  function Lower(b: byte): byte {
    if 0x41 <= b <= 0x5A then b as int + 0x20 else b
  }

  function ToLower(s: bytes): bytes {
    seq(|s|, i requires 0 <= i < |s| => Lower(s[i]))
  }

  /** U+017F, U+212A and U+0130: the letters outside ASCII that have an ASCII letter as another or a lower case. */
  const LONG_S: bytes := [0xC5, 0xBF]
  const KELVIN: bytes := [0xE2, 0x84, 0xAA]
  const DOTTED_I: bytes := [0xC4, 0xB0]

  /** Every letter that folds to an ASCII letter, replaced by it. */
  function Folded(s: bytes): (r: bytes)
    decreases |s|
  {
    if s == [] then []
    else if LONG_S <= s then [0x73] + Folded(s[2..])
    else if KELVIN <= s then [0x6B] + Folded(s[3..])
    else [Lower(s[0])] + Folded(s[1..])
  }

  /** Every letter whose lower case is an ASCII letter, replaced by it. */
  function Lowered(s: bytes): (r: bytes)
    decreases |s|
  {
    if s == [] then []
    else if DOTTED_I <= s then [0x69] + Lowered(s[2..])
    else if KELVIN <= s then [0x6B] + Lowered(s[3..])
    else [Lower(s[0])] + Lowered(s[1..])
  }

  /** The text `s` is the ASCII text `t` up to Unicode case folding. */
  predicate EqualFold(s: bytes, t: bytes) {
    Folded(s) == ToLower(t)
  }

  /** The text `s` in lower case is the ASCII text `t`. */
  predicate LowersTo(s: bytes, t: bytes) {
    Lowered(s) == t
  }

  predicate IsAscii(s: bytes) {
    forall i :: 0 <= i < |s| ==> s[i] < 0x80
  }

  lemma {:induction false} AsciiFirst(b: byte, y: bytes)
    requires b < 0x80
    ensures Folded([b] + y) == [Lower(b)] + Folded(y) && Lowered([b] + y) == [Lower(b)] + Lowered(y)
  {
    assert ([b] + y)[0] == b && ([b] + y)[1..] == y;
    assert LONG_S[0] == 0xC5 && KELVIN[0] == 0xE2 && DOTTED_I[0] == 0xC4;
  }

  lemma {:induction false} LowerFirst(s: bytes)
    requires s != []
    ensures ToLower(s) == [Lower(s[0])] + ToLower(s[1..])
  {}

  lemma {:induction false} AsciiThen(x: bytes, y: bytes)
    requires IsAscii(x)
    ensures Folded(x + y) == ToLower(x) + Folded(y) && Lowered(x + y) == ToLower(x) + Lowered(y)
    decreases |x|
  {
    if x == [] {
      assert x + y == y && ToLower(x) == [];
    } else {
      assert x[0] < 0x80 && x + y == [x[0]] + (x[1..] + y);
      AsciiFirst(x[0], x[1..] + y);
      AsciiThen(x[1..], y);
      LowerFirst(x);
      Assoc([Lower(x[0])], ToLower(x[1..]), Folded(y));
      Assoc([Lower(x[0])], ToLower(x[1..]), Lowered(y));
    }
  }

  /** On ASCII texts both are the comparison of the lower-cased bytes. */
  lemma {:induction false} AsciiCase(s: bytes)
    requires IsAscii(s)
    ensures Folded(s) == ToLower(s) && Lowered(s) == ToLower(s)
  {
    AsciiThen(s, []);
    Empty(s);
    Empty(ToLower(s));
  }

  lemma {:induction false} LowerJoin(x: bytes, b: byte, y: bytes)
    ensures ToLower(x + [b] + y) == ToLower(x) + ([Lower(b)] + ToLower(y))
  {}

  /** U+017F in place of an s folds away. */
  lemma {:induction false} LongSFolds(x: bytes, y: bytes)
    requires IsAscii(x) && IsAscii(y)
    ensures EqualFold(x + LONG_S + y, x + [0x73] + y)
  {
    Assoc(x, LONG_S, y);
    AsciiThen(x, LONG_S + y);
    assert (LONG_S + y)[2..] == y && LONG_S <= LONG_S + y;
    AsciiCase(y);
    LowerJoin(x, 0x73, y);
  }

  /** The lower case of U+212A is a k. */
  lemma {:induction false} KelvinLowers(x: bytes, y: bytes)
    requires IsAscii(x) && IsAscii(y)
    ensures Lowered(x + KELVIN + y) == ToLower(x + [0x6B] + y)
  {
    Assoc(x, KELVIN, y);
    AsciiThen(x, KELVIN + y);
    assert (KELVIN + y)[3..] == y && KELVIN <= KELVIN + y && (KELVIN + y)[0] == 0xE2;
    AsciiCase(y);
    LowerJoin(x, 0x6B, y);
  }

  // ---------------------------------------------------------------- numbers

  predicate IsDigit(b: byte) {
    0x30 <= b <= 0x39
  }

  predicate AllDigits(s: bytes) {
    forall i :: 0 <= i < |s| ==> IsDigit(s[i])
  }

  function DigitOf(b: byte): nat {
    if IsDigit(b) then b as int - 0x30 else 0
  }

  /** The number read so far, continued with more digits. */
  function Value(sofar: nat, digits: bytes): nat
    decreases |digits|
  {
    if digits == [] then sofar else Value(sofar * 10 + DigitOf(digits[0]), digits[1..])
  }

  lemma {:induction false} ValueAppend(sofar: nat, digits: bytes, b: byte)
    ensures Value(sofar, digits + [b]) == Value(sofar, digits) * 10 + DigitOf(b)
    decreases |digits|
  {
    if digits == [] {
      assert digits + [b] == [b] && [b][1..] == [];
    } else {
      assert (digits + [b])[1..] == digits[1..] + [b];
      ValueAppend(sofar * 10 + DigitOf(digits[0]), digits[1..], b);
    }
  }

  function Decimal(n: nat): bytes {
    if n < 10 then [0x30 + n] else Decimal(n / 10) + [0x30 + n % 10]
  }

  lemma {:induction false} DecimalValue(n: nat)
    ensures Decimal(n) != [] && AllDigits(Decimal(n)) && Value(0, Decimal(n)) == n
  {
    if n < 10 {
      ValueAppend(0, [], 0x30 + n);
      assert [] + [0x30 + n] == [0x30 + n];
    } else {
      DecimalValue(n / 10);
      ValueAppend(0, Decimal(n / 10), 0x30 + n % 10);
    }
  }

  function Itoa(n: int): bytes {
    if n < 0 then [0x2D] + Decimal(-n) else Decimal(n)
  }

  /** Decimal with an optional sign. The 64-bit range check is not needed: its callers bound the value themselves. */
  function Atoi(s: bytes): Option<int> {
    var neg := s != [] && s[0] == 0x2D;
    var signed := neg || (s != [] && s[0] == 0x2B);
    var digits := if signed then s[1..] else s;
    if digits == [] || !AllDigits(digits) then None
    else if neg then Some(0 - Value(0, digits) as int) else Some(Value(0, digits))
  }

  /** A plus sign counts for nothing and a minus sign negates; a sign alone, and anything else, is no number. */
  lemma {:induction false} SignedDecimal(n: nat, b: byte, rest: bytes)
    ensures Atoi(Decimal(n)) == Some(n) && Atoi([0x2B] + Decimal(n)) == Some(n)
    ensures Atoi([0x2D] + Decimal(n)) == Some(0 - n as int)
    ensures Atoi([]) == None && Atoi([0x2B]) == None && Atoi([0x2D]) == None
    ensures !IsDigit(b) ==> Atoi(Decimal(n) + [b] + rest) == None
  {
    DecimalValue(n);
    var d := Decimal(n);
    assert IsDigit(d[0]) && ([0x2B] + d)[1..] == d && ([0x2D] + d)[1..] == d;
    var s := d + [b] + rest;
    assert s[0] == d[0] && s[|d|] == b;
  }

  lemma {:induction false} AtoiItoa(n: int)
    ensures Atoi(Itoa(n)) == Some(n)
    ensures SP !in Itoa(n) && LF !in Itoa(n) && CR !in Itoa(n)
  {
    if n < 0 {
      DecimalValue(-n);
      assert ([0x2D] + Decimal(-n))[1..] == Decimal(-n);
    } else {
      DecimalValue(n);
      assert IsDigit(Decimal(n)[0]);
    }
  }
}
