/** OpenSSH time values such as `1w2d3h`: conversion to seconds and back. */
module SshTime {
  import opened Bytes
  import opened Text

  const MAX_UINT32 := TWO32 - 1

  // ---------------------------------------------------------------- the grammar

  /** Seconds per unit: s, m, h, d or w, in either case. */
  function Multiplier(c: byte): Option<nat> {
    if c == 0x73 || c == 0x53 then Some(1)
    else if c == 0x6D || c == 0x4D then Some(60)
    else if c == 0x68 || c == 0x48 then Some(60 * 60)
    else if c == 0x64 || c == 0x44 then Some(24 * 60 * 60)
    else if c == 0x77 || c == 0x57 then Some(7 * 24 * 60 * 60)
    else None
  }

  /** `count` times a unit, as a repeated sum. */
  function Worth(count: nat, multiplier: nat): nat {
    if count == 0 then 0 else Worth(count - 1, multiplier) + multiplier
  }

  lemma {:induction false} WorthIsProduct(count: nat, multiplier: nat)
    ensures Worth(count, multiplier) == count * multiplier
  {
    if count > 0 {
      WorthIsProduct(count - 1, multiplier);
      assert count * multiplier == (count - 1) * multiplier + multiplier;
    }
  }

  /** A number and its unit; no unit means seconds. */
  datatype Segment = Segment(digits: bytes, unit: Option<byte>)

  datatype Segments = End | Then(first: Segment, rest: Segments)

  /** Only the last segment may do without a unit. */
  ghost predicate GoodSegment(seg: Segment, last: bool) {
    && seg.digits != [] && AllDigits(seg.digits)
    && match seg.unit
       case None => last
       case Some(c) => Multiplier(c).Some?
  }

  ghost predicate WellFormed(segs: Segments) {
    segs.End? || (GoodSegment(segs.first, segs.rest.End?) && WellFormed(segs.rest))
  }

  ghost function Spelled(seg: Segment): bytes {
    seg.digits + match seg.unit case None => [] case Some(c) => [c]
  }

  ghost function Render(segs: Segments): bytes {
    match segs case End => [] case Then(seg, rest) => Spelled(seg) + Render(rest)
  }

  ghost function Seconds(seg: Segment): nat
    requires seg.unit.Some? ==> Multiplier(seg.unit.value).Some?
  {
    var count := Value(0, seg.digits);
    match seg.unit case None => count case Some(c) => Worth(count, Multiplier(c).value)
  }

  ghost function Total(segs: Segments): nat
    requires WellFormed(segs)
  {
    match segs case End => 0 case Then(seg, rest) => Seconds(seg) + Total(rest)
  }

  // ---------------------------------------------------------------- reading

  function Plus(a: nat, b: Option<nat>): Option<nat> {
    match b case None => None case Some(n) => Some(a + n)
  }

  /** The unbounded number of seconds in a text that follows a number, or None when it does not fit the grammar. */
  function ReadAfter(number: Option<nat>, s: bytes): Option<nat>
    decreases |s|
  {
    if s == [] then Some(if number.Some? then number.value else 0)
    else if IsDigit(s[0]) then
      ReadAfter(Some((if number.Some? then number.value else 0) * 10 + DigitOf(s[0])), s[1..])
    else if number == None || Multiplier(s[0]) == None then None
    else Plus(Worth(number.value, Multiplier(s[0]).value), ReadAfter(None, s[1..]))
  }

  function Read(s: bytes): Option<nat> {
    ReadAfter(None, s)
  }

  function Convert(s: bytes): Option<uint32> {
    if s == [] then None
    else match Read(s)
      case None => None
      case Some(t) => if t <= MAX_UINT32 then Some(t) else None
  }

  /** Digits are taken into the number one after the other. */
  lemma {:induction false} ReadDigits(sofar: nat, digits: bytes, rest: bytes)
    requires AllDigits(digits)
    ensures ReadAfter(Some(sofar), digits + rest) == ReadAfter(Some(Value(sofar, digits)), rest)
    decreases |digits|
  {
    if digits == [] {
      assert digits + rest == rest;
    } else {
      assert (digits + rest)[1..] == digits[1..] + rest;
      ReadDigits(sofar * 10 + DigitOf(digits[0]), digits[1..], rest);
    }
  }

  lemma {:induction false} ReadNumber(digits: bytes, rest: bytes)
    requires digits != [] && AllDigits(digits)
    ensures Read(digits + rest) == ReadAfter(Some(Value(0, digits)), rest)
  {
    assert (digits + rest)[1..] == digits[1..] + rest;
    ReadDigits(DigitOf(digits[0]), digits[1..], rest);
  }

  lemma {:induction false} ReadUnit(count: nat, c: byte, rest: bytes)
    requires Multiplier(c).Some?
    ensures ReadAfter(Some(count), [c] + rest) == Plus(Worth(count, Multiplier(c).value), Read(rest))
  {
    assert ([c] + rest)[1..] == rest;
  }

  lemma {:induction false} ReadSegment(digits: bytes, c: byte, rest: bytes)
    requires digits != [] && AllDigits(digits) && Multiplier(c).Some?
    ensures Read(digits + [c] + rest) == Plus(Worth(Value(0, digits), Multiplier(c).value), Read(rest))
  {
    assert digits + [c] + rest == digits + ([c] + rest);
    ReadNumber(digits, [c] + rest);
    ReadUnit(Value(0, digits), c, rest);
  }

  // ---------------------------------------------------------------- conversion

  /** The division test used before multiplying is an exact overflow test. */
  lemma {:induction false} OverflowTest(val: nat, m: nat)
    requires val > 0
    ensures m > MAX_UINT32 / val <==> val * m > MAX_UINT32
  {
    var q := MAX_UINT32 / val;
    assert MAX_UINT32 == q * val + MAX_UINT32 % val;
    if m > q {
      assert val * m >= val * (q + 1);
    } else {
      assert val * m <= val * q;
    }
  }

  function Sum32(total: uint32, worth: nat): Option<uint32> {
    if total + worth <= MAX_UINT32 then Some(total + worth) else None
  }

  /** Multiplies and adds with the tests that keep both within 32 bits; `val` may be too large for 32 bits itself. */
  method AddSegment(total: uint32, val: nat, multiplier: nat) returns (r: Option<uint32>)
    requires multiplier >= 1
    ensures r == Sum32(total, Worth(val, multiplier))
  {
    WorthIsProduct(val, multiplier);
    if val > MAX_UINT32 {
      assert val * multiplier >= val;
      return None;
    }
    if val != 0 {
      OverflowTest(val, multiplier);
      if multiplier > MAX_UINT32 / val {
        return None;
      }
    }
    var scaled := val * multiplier;
    if total > MAX_UINT32 - scaled {
      return None;
    }
    r := Some(total + scaled);
  }

  method SkipDigits(str: bytes, start: nat) returns (i: nat)
    requires start <= |str|
    ensures start <= i <= |str| && AllDigits(str[start..i])
    ensures i < |str| ==> !IsDigit(str[i])
  {
    i := start;
    while i < |str| && IsDigit(str[i])
      invariant start <= i <= |str|
      invariant forall k :: start <= k < i ==> IsDigit(str[k])
    {
      i := i + 1;
    }
  }

  /** No continuation of `total` with what is read from `s` is an acceptable result. */
  predicate Hopeless(total: nat, s: bytes) {
    match Read(s) case None => true case Some(n) => total + n > MAX_UINT32
  }

  /** What is read at `start`, where a number ends at `i` and its unit, if any, ends at `next`. */
  lemma {:induction false} ReadAt(str: bytes, start: nat, i: nat, m: nat, next: nat)
    requires start < i <= next <= |str| && AllDigits(str[start..i])
    requires if i == |str| then m == 1 && next == i else Multiplier(str[i]) == Some(m) && next == i + 1
    ensures Read(str[start..]) == Plus(Worth(Value(0, str[start..i]), m), Read(str[next..]))
  {
    var digits := str[start..i];
    if i < |str| {
      assert str[start..] == digits + [str[i]] + str[next..];
      ReadSegment(digits, str[i], str[next..]);
    } else {
      assert str[start..] == digits + [] && str[next..] == [];
      ReadNumber(digits, []);
      WorthIsProduct(Value(0, digits), 1);
    }
  }

  lemma {:induction false} NothingAt(str: bytes, start: nat, i: nat)
    requires start <= i < |str| && AllDigits(str[start..i]) && !IsDigit(str[i])
    requires i == start || Multiplier(str[i]) == None
    ensures Read(str[start..]) == None
  {
    var digits, rest := str[start..i], str[i..];
    assert str[start..] == digits + rest;
    if digits != [] {
      ReadNumber(digits, rest);
    } else {
      assert digits + rest == rest;
    }
  }

  lemma {:induction false} AddsUp(total: nat, worth: nat, s: bytes, rest: bytes)
    requires Read(s) == Plus(worth, Read(rest))
    ensures Plus(total, Read(s)) == Plus(total + worth, Read(rest))
    ensures total + worth > MAX_UINT32 ==> Hopeless(total, s)
  {}

  /** One number and its unit from `start` on, added to `total`. */
  method NextSegment(str: bytes, start: nat, total: uint32) returns (sum: Option<uint32>, next: nat)
    requires start < |str|
    ensures sum == None ==> Hopeless(total, str[start..])
    ensures sum.Some? ==> start < next <= |str|
    ensures sum.Some? ==> Plus(total, Read(str[start..])) == Plus(sum.value, Read(str[next..]))
  {
    var i := SkipDigits(str, start);
    if start == i {
      NothingAt(str, start, i);
      return None, start;
    }
    var multiplier := 1;
    next := i;
    if i < |str| {
      match Multiplier(str[i]) {
        case None =>
          NothingAt(str, start, i);
          return None, start;
        case Some(m) => multiplier := m;
      }
      next := i + 1;
    }
    var val := Value(0, str[start..i]);
    ReadAt(str, start, i, multiplier, next);
    AddsUp(total, Worth(val, multiplier), str[start..], str[next..]);
    sum := AddSegment(total, val, multiplier);
  }

  method ConvertSshTime(str: bytes) returns (r: Option<uint32>)
    ensures r == Convert(str)
  {
    if str == [] {
      return None;
    }
    var total: uint32 := 0;
    var i := 0;
    assert str[0..] == str;
    while i < |str|
      invariant 0 <= i <= |str|
      invariant Read(str) == Plus(total, Read(str[i..]))
    {
      var sum, next := NextSegment(str, i, total);
      if sum == None {
        return None;
      }
      total, i := sum.value, next;
    }
    assert Read(str[i..]) == Some(0);
    r := Some(total);
  }

  // ---------------------------------------------------------------- the accepted language

  lemma {:induction false} ReadCons(seg: Segment, rest: bytes)
    requires GoodSegment(seg, false)
    ensures Read(Spelled(seg) + rest) == Plus(Seconds(seg), Read(rest))
  {
    ReadSegment(seg.digits, seg.unit.value, rest);
  }

  lemma {:induction false} ReadLast(seg: Segment)
    requires GoodSegment(seg, true) && seg.unit == None
    ensures Read(Spelled(seg)) == Some(Seconds(seg))
  {
    ReadNumber(seg.digits, []);
  }

  lemma {:induction false} ReadRendered(segs: Segments)
    requires WellFormed(segs)
    ensures Read(Render(segs)) == Some(Total(segs))
  {
    match segs {
      case End =>
      case Then(seg, rest) =>
        if seg.unit == None {
          ReadLast(seg);
          assert Spelled(seg) + [] == Spelled(seg);
        } else {
          ReadRendered(rest);
          ReadCons(seg, Render(rest));
        }
    }
  }

  /** Takes a text that can be read apart into the segments it consists of. */
  lemma {:induction false} SegmentsOf(s: bytes) returns (segs: Segments)
    requires Read(s).Some?
    ensures WellFormed(segs) && Render(segs) == s
    decreases |s|
  {
    if s == [] {
      segs := End;
    } else {
      var i := RunOfDigits(s, 0);
      assert s[0..] == s;
      if i < |s| && (i == 0 || Multiplier(s[i]) == None) {
        NothingAt(s, 0, i);
      }
      if i == |s| {
        segs := Then(Segment(s, None), End);
        assert s[..i] == s && s + [] + [] == s;
      } else {
        var seg := Segment(s[..i], Some(s[i]));
        assert s == Spelled(seg) + s[i + 1..];
        ReadCons(seg, s[i + 1..]);
        var more := SegmentsOf(s[i + 1..]);
        segs := Then(seg, more);
      }
    }
  }

  lemma {:induction false} RunOfDigits(s: bytes, from: nat) returns (i: nat)
    requires from <= |s| && AllDigits(s[..from])
    ensures i <= |s| && AllDigits(s[..i]) && (i < |s| ==> !IsDigit(s[i]))
    decreases |s| - from
  {
    if from < |s| && IsDigit(s[from]) {
      i := RunOfDigits(s, from + 1);
    } else {
      i := from;
    }
  }

  ghost predicate Denotes(segs: Segments, s: bytes, t: nat) {
    segs.Then? && WellFormed(segs) && Render(segs) == s && Total(segs) == t
  }

  /** A text converts to `t` exactly when it is a non-empty list of segments worth `t` seconds and `t` fits 32 bits. */
  lemma {:induction false} AcceptsIff(s: bytes, t: uint32)
    ensures Convert(s) == Some(t) <==> exists segs :: Denotes(segs, s, t)
  {
    if Convert(s) == Some(t) {
      var segs := SegmentsOf(s);
      ReadRendered(segs);
      assert Denotes(segs, s, t);
    }
    if segs: Segments :| Denotes(segs, s, t) {
      ReadRendered(segs);
      assert segs.first.digits != [];
    }
  }

  /** Rejection is exact too: no segments at all, or a true total beyond 32 bits. */
  lemma {:induction false} RejectsIff(s: bytes)
    ensures Convert(s) == None <==> forall segs, t: nat :: Denotes(segs, s, t) ==> t > MAX_UINT32
  {
    if Convert(s) == None {
      forall segs: Segments, t: nat | Denotes(segs, s, t) ensures t > MAX_UINT32 {
        ReadRendered(segs);
        assert segs.first.digits != [];
      }
    } else {
      AcceptsIff(s, Convert(s).value);
    }
  }

  /** A unit of either case is worth so many seconds, and no other byte is a unit. */
  lemma {:induction false} UnitWorth(n: nat, c: byte)
    ensures var r := Read(Decimal(n) + [c]);
            && (c == 0x73 || c == 0x53 ==> r == Some(n))
            && (c == 0x6D || c == 0x4D ==> r == Some(n * 60))
            && (c == 0x68 || c == 0x48 ==> r == Some(n * 3600))
            && (c == 0x64 || c == 0x44 ==> r == Some(n * 86400))
            && (c == 0x77 || c == 0x57 ==> r == Some(n * 604800))
    ensures c !in [0x73, 0x53, 0x6D, 0x4D, 0x68, 0x48, 0x64, 0x44, 0x77, 0x57] && !IsDigit(c) ==>
              Read(Decimal(n) + [c]) == None
  {
    DecimalValue(n);
    ReadNumber(Decimal(n), [c]);
    if !IsDigit(c) && Multiplier(c).Some? {
      WorthIsProduct(n, Multiplier(c).value);
    }
    assert [c][1..] == [];
  }

  lemma {:induction false} ReadLowered(number: Option<nat>, s: bytes)
    ensures ReadAfter(number, ToLower(s)) == ReadAfter(number, s)
    decreases |s|
  {
    if s != [] {
      LowerFirst(s);
      var t := ToLower(s);
      assert t[0] == Lower(s[0]) && t[1..] == ToLower(s[1..]);
      assert IsDigit(t[0]) <==> IsDigit(s[0]);
      assert Multiplier(t[0]) == Multiplier(s[0]);
      if IsDigit(s[0]) {
        ReadLowered(Some((if number.Some? then number.value else 0) * 10 + DigitOf(s[0])), s[1..]);
      } else {
        ReadLowered(None, s[1..]);
      }
    }
  }

  /** Letter case never matters. */
  lemma {:induction false} EitherCase(s: bytes)
    ensures Convert(ToLower(s)) == Convert(s)
  {
    ReadLowered(None, s);
  }

  // ---------------------------------------------------------------- writing

  const UNITS := 5

  /** "0s" */
  const ZERO: bytes := [0x30, 0x73]

  /** The suffixes w, d, h, m and s, each with its length. */
  function Unit(u: nat): (r: (byte, nat))
    requires u < UNITS
    ensures Multiplier(r.0) == Some(r.1) && r.1 > 0
    ensures u == UNITS - 1 ==> r.1 == 1
  {
    if u == 0 then (0x77, 7 * 24 * 60 * 60)
    else if u == 1 then (0x64, 24 * 60 * 60)
    else if u == 2 then (0x68, 60 * 60)
    else if u == 3 then (0x6D, 60)
    else (0x73, 1)
  }

  /** What is still to be written for `seconds` from unit `u` on. */
  function FormatFrom(seconds: nat, u: nat): bytes
    decreases UNITS - u
  {
    if u >= UNITS then []
    else
      var (suffix, value) := Unit(u);
      if seconds >= value then Decimal(seconds / value) + [suffix] + FormatFrom(seconds % value, u + 1)
      else FormatFrom(seconds, u + 1)
  }

  function Format(seconds: nat): bytes {
    if seconds == 0 then ZERO else FormatFrom(seconds, 0)
  }

  lemma {:induction false} FormatUnfolds(seconds: nat, u: nat)
    requires u < UNITS
    ensures seconds >= Unit(u).1 ==>
              FormatFrom(seconds, u)
              == (Decimal(seconds / Unit(u).1) + [Unit(u).0]) + FormatFrom(seconds % Unit(u).1, u + 1)
    ensures seconds < Unit(u).1 ==> FormatFrom(seconds, u) == FormatFrom(seconds, u + 1)
  {}

  /** A count and its unit; nothing for none. */
  function Part(count: nat, unit: byte): bytes {
    if count == 0 then [] else Decimal(count) + [unit]
  }

  lemma {:induction false} UnitPart(seconds: nat, u: nat)
    requires u < UNITS
    ensures var (suffix, value) := Unit(u);
            FormatFrom(seconds, u) == Part(seconds / value, suffix) + FormatFrom(seconds % value, u + 1)
  {
    var (suffix, value) := Unit(u);
    FormatUnfolds(seconds, u);
    if seconds < value {
      Small(seconds, value);
      Empty(FormatFrom(seconds, u + 1));
    } else {
      Large(seconds, value);
    }
  }

  lemma {:induction false} Small(x: nat, v: nat)
    requires x < v
    ensures x / v == 0 && x % v == x
  {}

  lemma {:induction false} Large(x: nat, v: nat)
    requires 0 < v <= x
    ensures x / v > 0
  {}

  /** Weeks, days, hours, minutes and seconds in this order, each as many as fit, and none written that is zero. */
  lemma {:induction false} FormatIs(n: nat)
    ensures Format(0) == [0x30, 0x73]
    ensures var d := n % 604800;
            var h := d % 86400;
            var m := h % 3600;
            n > 0 ==>
              Format(n) == Part(n / 604800, 0x77) + (Part(d / 86400, 0x64) + (Part(h / 3600, 0x68) +
                           (Part(m / 60, 0x6D) + Part(m % 60, 0x73))))
  {
    var d := n % 604800;
    var h := d % 86400;
    var m := h % 3600;
    UnitPart(n, 0);
    UnitPart(d, 1);
    UnitPart(h, 2);
    UnitPart(m, 3);
    UnitPart(m % 60, 4);
    Empty(Part(m % 60, 0x73));
  }

  /** What is written for one unit, and what is left for the smaller ones. */
  method WriteUnit(seconds: nat, u: nat) returns (part: bytes, left: nat)
    requires u < UNITS
    ensures FormatFrom(seconds, u) == part + FormatFrom(left, u + 1)
  {
    var (suffix, value) := Unit(u);
    FormatUnfolds(seconds, u);
    if seconds >= value {
      return Decimal(seconds / value) + [suffix], seconds % value;
    }
    Empty(FormatFrom(seconds, u + 1));
    return [], seconds;
  }

  method FormatSshTime(seconds: uint32) returns (s: bytes)
    ensures s == Format(seconds)
  {
    if seconds == 0 {
      return ZERO;
    }
    s := [];
    var left: nat := seconds;
    Empty(Format(seconds));
    for u := 0 to UNITS
      invariant s + FormatFrom(left, u) == Format(seconds)
    {
      var part, rest := WriteUnit(left, u);
      Assoc(s, part, FormatFrom(rest, u + 1));
      s := s + part;
      left := rest;
    }
    Empty(s);
  }

  lemma {:induction false} DivMod(x: nat, v: nat)
    requires v > 0
    ensures x / v * v + x % v == x
  {}

  lemma {:induction false} ReadDecimal(count: nat, suffix: byte, rest: bytes)
    requires Multiplier(suffix).Some?
    ensures Read((Decimal(count) + [suffix]) + rest) == Plus(Worth(count, Multiplier(suffix).value), Read(rest))
  {
    DecimalValue(count);
    ReadSegment(Decimal(count), suffix, rest);
  }

  /** The text of a quotient with its suffix, before the text of the remainder, reads as the whole. */
  lemma {:induction false} DividedReads(seconds: nat, suffix: byte, value: nat, rest: bytes)
    requires value > 0 && Multiplier(suffix) == Some(value) && Read(rest) == Some(seconds % value)
    ensures Read((Decimal(seconds / value) + [suffix]) + rest) == Some(seconds)
  {
    ReadDecimal(seconds / value, suffix, rest);
    WorthIsProduct(seconds / value, value);
    DivMod(seconds, value);
  }

  lemma {:induction false} FormatStep(seconds: nat, u: nat)
    requires u < UNITS && seconds >= Unit(u).1
    requires Read(FormatFrom(seconds % Unit(u).1, u + 1)) == Some(seconds % Unit(u).1)
    ensures Read(FormatFrom(seconds, u)) == Some(seconds) && FormatFrom(seconds, u) != []
  {
    FormatUnfolds(seconds, u);
    DividedReads(seconds, Unit(u).0, Unit(u).1, FormatFrom(seconds % Unit(u).1, u + 1));
  }

  lemma {:induction false} ReadFormatted(seconds: nat, u: nat)
    requires u <= UNITS
    requires u == UNITS ==> seconds == 0
    ensures Read(FormatFrom(seconds, u)) == Some(seconds)
    ensures seconds > 0 ==> FormatFrom(seconds, u) != []
    decreases UNITS - u
  {
    if u < UNITS {
      if seconds >= Unit(u).1 {
        ReadFormatted(seconds % Unit(u).1, u + 1);
        FormatStep(seconds, u);
      } else {
        ReadFormatted(seconds, u + 1);
      }
    }
  }

  /** Every 32-bit number of seconds survives formatting and conversion. */
  lemma {:induction false} RoundTrip(n: uint32)
    ensures Convert(Format(n)) == Some(n)
  {
    if n == 0 {
      ReadDecimal(0, 0x73, []);
      assert (Decimal(0) + [0x73]) + [] == ZERO;
    } else {
      ReadFormatted(n, 0);
    }
  }
}
