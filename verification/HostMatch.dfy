/** The capture hostname matcher: a glob matcher with a single backtrack point, and the rule list around it. */
module HostMatch {
  import opened Bytes
  import opened Text

  const STAR: byte := 0x2A
  const QUESTION: byte := 0x3F

  // ---------------------------------------------------------------- meaning

  /** The declarative meaning of a pattern: `*` stands for any run, `?` for one byte. */
  ghost predicate Matches(p: bytes, s: bytes) {
    if p == [] then s == []
    else if p[0] == STAR then exists k :: 0 <= k <= |s| && Matches(p[1..], s[k..])
    else s != [] && (p[0] == QUESTION || p[0] == s[0]) && Matches(p[1..], s[1..])
  }

  /** Some suffix of `s` that starts at `lo` or later matches. */
  ghost predicate MatchesFrom(p: bytes, s: bytes, lo: nat) {
    exists k :: lo <= k <= |s| && Matches(p, s[k..])
  }

  /** A star-free pattern piece against a text of the same length. */
  ghost predicate PieceMatches(piece: bytes, s: bytes) {
    && |piece| == |s|
    && STAR !in piece
    && forall j :: 0 <= j < |s| ==> piece[j] == QUESTION || piece[j] == s[j]
  }

  // ---------------------------------------------------------------- the loop

  predicate Steppable(pattern: bytes, s: bytes, p: int, i: int) {
    0 <= p < |pattern| && 0 <= i < |s| && (pattern[p] == QUESTION || pattern[p] == s[i])
  }

  predicate LoopState(pattern: bytes, s: bytes, p: int, i: int, star: int, mark: int) {
    && -1 <= star < p <= |pattern|
    && 0 <= mark <= i <= |s|
  }

  /** The answer of the matching loop from any of its states. */
  function Run(pattern: bytes, s: bytes, p: int, i: int, star: int, mark: int): bool
    requires LoopState(pattern, s, p, i, star, mark)
    decreases |pattern| - star, |s| - mark, |s| - i
  {
    if i == |s| then forall j :: p <= j < |pattern| ==> pattern[j] == STAR
    else if Steppable(pattern, s, p, i) then Run(pattern, s, p + 1, i + 1, star, mark)
    else if p < |pattern| && pattern[p] == STAR then Run(pattern, s, p + 1, i, p, i)
    else if star >= 0 then Run(pattern, s, star + 1, mark + 1, star, mark + 1)
    else false
  }

  /** What the matcher answers on any pattern and any subject. */
  function Glob(pattern: bytes, s: bytes): bool {
    Run(pattern, s, 0, 0, -1, 0)
  }

  method GlobMatch(pattern: bytes, s: bytes) returns (r: bool)
    ensures r == Glob(pattern, s)
    ensures STAR !in s ==> (r <==> Matches(pattern, s))
  {
    if STAR !in s {
      GlobIsMatches(pattern, s);
    }
    var p, i := 0, 0;
    var star, mark := -1, 0;
    while i < |s|
      invariant LoopState(pattern, s, p, i, star, mark)
      invariant Run(pattern, s, p, i, star, mark) == Glob(pattern, s)
      decreases |pattern| - star, |s| - mark, |s| - i
    {
      if p < |pattern| && (pattern[p] == QUESTION || pattern[p] == s[i]) {
        p, i := p + 1, i + 1;
      } else if p < |pattern| && pattern[p] == STAR {
        star, mark := p, i;
        p := p + 1;
      } else if star >= 0 {
        p := star + 1;
        mark := mark + 1;
        i := mark;
      } else {
        return false;
      }
    }
    ghost var rest := p;
    while p < |pattern| && pattern[p] == STAR
      invariant rest <= p <= |pattern|
      invariant forall j :: rest <= j < p ==> pattern[j] == STAR
    {
      p := p + 1;
    }
    r := p == |pattern|;
  }

  // ---------------------------------------------------------------- correctness

  lemma {:induction false} PeelPiece(piece: bytes, rest: bytes, s: bytes)
    requires STAR !in piece
    ensures Matches(piece + rest, s) <==>
            |piece| <= |s| && PieceMatches(piece, s[..|piece|]) && Matches(rest, s[|piece|..])
  {
    if piece == [] {
      assert piece + rest == rest;
      assert s[0..] == s;
    } else if s != [] {
      assert (piece + rest)[1..] == piece[1..] + rest;
      PeelPiece(piece[1..], rest, s[1..]);
      if |piece| <= |s| {
        assert s[1..][|piece| - 1..] == s[|piece|..];
        assert s[1..][..|piece| - 1] == s[..|piece|][1..];
        assert forall j :: 0 < j < |piece| ==>
            piece[j] == piece[1..][j - 1] && s[..|piece|][j] == s[..|piece|][1..][j - 1];
      }
    }
  }

  lemma {:induction false} OnlyStarsMatchEmpty(p: bytes)
    ensures Matches(p, []) <==> forall j :: 0 <= j < |p| ==> p[j] == STAR
  {
    if p != [] {
      OnlyStarsMatchEmpty(p[1..]);
      var e: bytes := [];
      assert e[0..] == e;
      if p[0] == STAR {
        assert Matches(p, e) <==> Matches(p[1..], e);
        assert forall j :: 0 < j < |p| ==> p[j] == p[1..][j - 1];
      }
    }
  }

  /** The answer the state still owes: with no star seen, a match from here; with one, any later restart. */
  ghost predicate Owed(pattern: bytes, s: bytes, p: int, i: int, star: int, mark: int)
    requires LoopState(pattern, s, p, i, star, mark)
  {
    if star < 0 then Matches(pattern[p..], s[i..]) else MatchesFrom(pattern[star + 1..], s, mark)
  }

  /** Between the last star and `p` the text since `mark` has been matched byte by byte. */
  ghost predicate Aligned(pattern: bytes, s: bytes, p: int, i: int, star: int, mark: int)
    requires LoopState(pattern, s, p, i, star, mark)
  {
    star >= 0 ==> PieceMatches(pattern[star + 1..p], s[mark..i])
  }

  /** The attempt that starts at `mark` succeeds exactly when what is left of it does. */
  lemma {:induction false} AttemptIsRemainder(pattern: bytes, s: bytes, p: int, i: int, star: int, mark: int)
    requires LoopState(pattern, s, p, i, star, mark) && star >= 0 && Aligned(pattern, s, p, i, star, mark)
    ensures Matches(pattern[star + 1..], s[mark..]) <==> Matches(pattern[p..], s[i..])
  {
    var piece := pattern[star + 1..p];
    assert piece + pattern[p..] == pattern[star + 1..];
    PeelPiece(piece, pattern[p..], s[mark..]);
    assert s[mark..][..|piece|] == s[mark..i];
    assert s[mark..][|piece|..] == s[i..];
  }

  /** A star at the front: some suffix matches the rest of the pattern. */
  lemma {:induction false} StarMeans(tail: bytes, s: bytes, i: nat)
    requires tail != [] && tail[0] == STAR && i <= |s|
    ensures Matches(tail, s[i..]) <==> MatchesFrom(tail[1..], s, i)
  {
    forall k | 0 <= k <= |s[i..]| ensures s[i..][k..] == s[i + k..] {}
    if MatchesFrom(tail[1..], s, i) {
      var k :| i <= k <= |s| && Matches(tail[1..], s[k..]);
      assert s[i..][k - i..] == s[k..];
    }
  }

  /** A piece and then a star, wherever the piece is put: the star alone may start at the first place it can. */
  lemma {:induction false} PieceThenStar(piece: bytes, tail: bytes, s: bytes, mark: nat)
    requires STAR !in piece && tail != [] && tail[0] == STAR && mark + |piece| <= |s|
    ensures MatchesFrom(piece + tail, s, mark) ==> MatchesFrom(tail[1..], s, mark + |piece|)
  {
    if MatchesFrom(piece + tail, s, mark) {
      var k :| mark <= k <= |s| && Matches(piece + tail, s[k..]);
      PeelPiece(piece, tail, s[k..]);
      assert s[k..][|piece|..] == s[k + |piece|..];
      StarMeans(tail, s, k + |piece|);
    }
  }

  lemma {:induction false} StarStep(pattern: bytes, s: bytes, p: int, i: int, star: int, mark: int)
    requires LoopState(pattern, s, p, i, star, mark) && Aligned(pattern, s, p, i, star, mark)
    requires p < |pattern| && pattern[p] == STAR
    ensures Owed(pattern, s, p, i, star, mark) <==> MatchesFrom(pattern[p + 1..], s, i)
  {
    var tail := pattern[p..];
    assert tail[1..] == pattern[p + 1..];
    StarMeans(tail, s, i);
    if star >= 0 {
      AttemptIsRemainder(pattern, s, p, i, star, mark);
      var piece := pattern[star + 1..p];
      assert piece + tail == pattern[star + 1..];
      PieceThenStar(piece, tail, s, mark);
    }
  }

  lemma {:induction false} StarsLeft(pattern: bytes, p: nat)
    requires p <= |pattern|
    ensures Matches(pattern[p..], []) <==> forall j :: p <= j < |pattern| ==> pattern[j] == STAR
  {
    var rest := pattern[p..];
    OnlyStarsMatchEmpty(rest);
    assert forall j :: 0 <= j < |rest| ==> rest[j] == pattern[p + j];
    assert forall j :: p <= j < |pattern| ==> pattern[j] == rest[j - p];
  }

  /** A piece as long as the text behind `mark` fits at `mark` only. */
  lemma {:induction false} OnlyFitsAt(piece: bytes, tail: bytes, s: bytes, mark: nat)
    requires STAR !in piece && mark + |piece| == |s|
    ensures MatchesFrom(piece + tail, s, mark) <==> Matches(piece + tail, s[mark..])
  {
    forall k | mark < k <= |s| ensures !Matches(piece + tail, s[k..]) {
      PeelPiece(piece, tail, s[k..]);
    }
  }

  lemma {:induction false} EndStep(pattern: bytes, s: bytes, p: int, star: int, mark: int)
    requires LoopState(pattern, s, p, |s|, star, mark) && Aligned(pattern, s, p, |s|, star, mark)
    ensures Owed(pattern, s, p, |s|, star, mark) <==> forall j :: p <= j < |pattern| ==> pattern[j] == STAR
  {
    StarsLeft(pattern, p);
    assert s[|s|..] == [];
    if star >= 0 {
      AttemptIsRemainder(pattern, s, p, |s|, star, mark);
      OnlyFitsAt(pattern[star + 1..p], pattern[p..], s, mark);
      assert pattern[star + 1..p] + pattern[p..] == pattern[star + 1..];
    }
  }

  lemma {:induction false} BacktrackStep(pattern: bytes, s: bytes, p: int, i: int, star: int, mark: int)
    requires LoopState(pattern, s, p, i, star, mark) && Aligned(pattern, s, p, i, star, mark)
    requires i < |s| && star >= 0 && !Steppable(pattern, s, p, i) && (p < |pattern| ==> pattern[p] != STAR)
    ensures MatchesFrom(pattern[star + 1..], s, mark) <==> MatchesFrom(pattern[star + 1..], s, mark + 1)
  {
    AttemptIsRemainder(pattern, s, p, i, star, mark);
  }

  lemma {:induction false} RunAnswersOwed(pattern: bytes, s: bytes, p: int, i: int, star: int, mark: int)
    requires STAR !in s
    requires LoopState(pattern, s, p, i, star, mark) && Aligned(pattern, s, p, i, star, mark)
    ensures Run(pattern, s, p, i, star, mark) <==> Owed(pattern, s, p, i, star, mark)
    decreases |pattern| - star, |s| - mark, |s| - i
  {
    if i == |s| {
      EndStep(pattern, s, p, star, mark);
    } else if Steppable(pattern, s, p, i) {
      assert pattern[p] != STAR;
      assert star >= 0 ==> pattern[star + 1..p + 1] == pattern[star + 1..p] + [pattern[p]];
      assert s[mark..i + 1] == s[mark..i] + [s[i]];
      RunAnswersOwed(pattern, s, p + 1, i + 1, star, mark);
      assert pattern[p..][1..] == pattern[p + 1..] && s[i..][1..] == s[i + 1..];
    } else if p < |pattern| && pattern[p] == STAR {
      StarStep(pattern, s, p, i, star, mark);
      RunAnswersOwed(pattern, s, p + 1, i, p, i);
    } else if star >= 0 {
      BacktrackStep(pattern, s, p, i, star, mark);
      RunAnswersOwed(pattern, s, star + 1, mark + 1, star, mark + 1);
    }
  }

  lemma {:induction false} GlobIsMatches(pattern: bytes, s: bytes)
    requires STAR !in s
    ensures Glob(pattern, s) <==> Matches(pattern, s)
  {
    RunAnswersOwed(pattern, s, 0, 0, -1, 0);
    assert pattern[0..] == pattern && s[0..] == s;
  }

  // ---------------------------------------------------------------- the exact limit

  function Questions(n: nat): (q: bytes)
    ensures |q| == n && forall j :: 0 <= j < n ==> q[j] == QUESTION
  {
    seq(n, _ => QUESTION)
  }

  /** The pattern that the matcher gets wrong on a subject whose first star is at `k`. */
  function Refuter(s: bytes, k: nat): (p: bytes)
    requires k < |s|
  {
    Questions(k) + ([STAR] + Questions(|s| - k))
  }

  lemma {:induction false} RefuterRuns(s: bytes, k: nat, i: nat)
    requires k < |s| && s[k] == STAR && i <= |s|
    ensures !Run(Refuter(s, k), s, i, i, -1, 0)
    decreases |s| - i
  {
    var p := Refuter(s, k);
    if i == |s| {
      assert p[|s|] == QUESTION;
    } else {
      assert Steppable(p, s, i, i);
      RefuterRuns(s, k, i + 1);
    }
  }

  lemma {:induction false} QuestionsMatch(n: nat, s: bytes)
    requires |s| == n
    ensures Matches(Questions(n), s)
  {
    PeelPiece(Questions(n), [], s);
    assert Questions(n) + [] == Questions(n);
    assert s[..n] == s && s[n..] == [];
  }

  lemma {:induction false} StarQuestionsMatch(tail: bytes, s: bytes)
    requires tail == [STAR] + Questions(|s|)
    ensures Matches(tail, s)
  {
    QuestionsMatch(|s|, s);
    assert tail[1..] == Questions(|s|);
    assert s[0..] == s;
  }

  lemma {:induction false} QuestionsThen(p: bytes, n: nat, tail: bytes, s: bytes, rest: bytes)
    requires n <= |s| && p == Questions(n) + tail && rest == s[n..] && Matches(tail, rest)
    ensures Matches(p, s)
  {
    assert PieceMatches(Questions(n), s[..n]);
    PeelPiece(Questions(n), tail, s);
  }

  lemma {:induction false} RefuterMatches(p: bytes, s: bytes, k: nat)
    requires k < |s| && p == Refuter(s, k)
    ensures Matches(p, s)
  {
    var tail, rest := [STAR] + Questions(|s| - k), s[k..];
    StarQuestionsMatch(tail, rest);
    QuestionsThen(p, k, tail, s, rest);
  }

  /**
   * The matcher has the declared meaning on a subject, whatever the pattern, exactly when the subject
   * holds no `*`: the literal test comes before the star test, so a `*` in the subject uses up a star.
   */
  lemma {:induction false} GlobExactIff(s: bytes)
    ensures (forall p: bytes :: Glob(p, s) <==> Matches(p, s)) <==> STAR !in s
  {
    if STAR !in s {
      forall p: bytes ensures Glob(p, s) <==> Matches(p, s) {
        GlobIsMatches(p, s);
      }
    } else {
      var k :| 0 <= k < |s| && s[k] == STAR;
      var p := Refuter(s, k);
      RefuterRuns(s, k, 0);
      RefuterMatches(p, s, k);
      assert !Glob(p, s) && Matches(p, s);
    }
  }

  // ---------------------------------------------------------------- rules

  const DEFAULT_PORT := -1
  const ANY_PORT := 0

  datatype HostRule = HostRule(exclude: bool, pattern: bytes, port: int)

  datatype HostMatcher = HostMatcher(rules: seq<HostRule>, ports: set<int>, anyPort: bool)

  predicate PortMatches(r: HostRule, port: int) {
    if r.port == DEFAULT_PORT then port == 443
    else if r.port == ANY_PORT then true
    else port == r.port
  }

  /** Rule `j` decides `host:port`: it applies and no earlier rule does. */
  predicate Decides(rules: seq<HostRule>, j: nat, host: bytes, port: int) {
    && j < |rules|
    && PortMatches(rules[j], port) && Glob(rules[j].pattern, host)
    && forall i :: 0 <= i < j ==> !(PortMatches(rules[i], port) && Glob(rules[i].pattern, host))
  }

  /** The matcher keeps the rules in order, and names exactly the ports of its include rules. */
  ghost predicate Compiled(m: HostMatcher, parsed: seq<HostRule>) {
    && m.rules == parsed
    && (forall port :: port in m.ports <==>
        exists i :: 0 <= i < |parsed| && !parsed[i].exclude && parsed[i].port == port > 0)
    && (m.anyPort <==> exists i :: 0 <= i < |parsed| && !parsed[i].exclude && parsed[i].port == ANY_PORT)
  }

  // ---------------------------------------------------------------- rule texts

  const HASH: byte := 0x23
  const MINUS: byte := 0x2D
  const DOT: byte := 0x2E
  const OPEN: byte := 0x5B
  const CLOSE: byte := 0x5D

  function TrimDot(s: bytes): bytes {
    if s != [] && s[|s| - 1] == DOT then s[..|s| - 1] else s
  }

  /** Where the last closing bracket with a colon behind it stands among the first `n` bytes, or -1. */
  function LastBracket(s: bytes, n: nat): (i: int)
    requires n <= |s|
    ensures -1 <= i < n && (i >= 0 ==> i + 1 < |s|)
  {
    if n == 0 then -1
    else if n < |s| && s[n - 1] == CLOSE && s[n] == COLON then n - 1
    else LastBracket(s, n - 1)
  }

  /** Host and port text; a bare IPv6 literal, with its several colons, has no port. */
  function SplitRulePort(s: bytes): Option<(bytes, bytes)> {
    if s != [] && s[0] == OPEN then
      var i := LastBracket(s, |s|);
      if i > 0 then Some((s[..i + 1], s[i + 2..])) else None
    else
      var i := Find(s, COLON);
      if i == |s| || COLON in s[i + 1..] then None else Some((s[..i], s[i + 1..]))
  }

  function TrimLeft(s: bytes, cut: set<byte>): bytes {
    if s != [] && s[0] in cut then TrimLeft(s[1..], cut) else s
  }

  function TrimBrackets(s: bytes): bytes {
    TrimRight(TrimLeft(s, {OPEN, CLOSE}), {OPEN, CLOSE})
  }

  /** Host text and port of a rule; a port text that is no port number stays part of the host. */
  function HostAndPort(s: bytes): (bytes, int) {
    match SplitRulePort(s)
    case None => (s, DEFAULT_PORT)
    case Some((host, port)) =>
      match Atoi(port)
      case None => (s, DEFAULT_PORT)
      case Some(n) => if 0 <= n <= 65535 then (host, n) else (s, DEFAULT_PORT)
  }

  /** The rule in a line, if it holds one; `lower` is the library's lower-casing of a text. */
  function ParseRule(lower: bytes -> bytes, line: bytes): Option<HostRule> {
    var s := lower(TrimSpace(line));
    if s == [] || s[0] == HASH then None
    else
      var exclude := s[0] == MINUS;
      var (host, port) := HostAndPort(TrimDot(if exclude then TrimSpace(s[1..]) else s));
      var pattern := TrimBrackets(host);
      if pattern == [] then None else Some(HostRule(exclude, pattern, port))
  }

  /** The rules in a list of lines, in order. */
  function Rules(lower: bytes -> bytes, lines: seq<bytes>): seq<HostRule> {
    if lines == [] then []
    else
      var before := Rules(lower, lines[..|lines| - 1]);
      match ParseRule(lower, lines[|lines| - 1]) case None => before case Some(r) => before + [r]
  }

  method CompileHostRules(lower: bytes -> bytes, lines: seq<bytes>) returns (m: HostMatcher)
    ensures Compiled(m, Rules(lower, lines))
  {
    m := HostMatcher([], {}, false);
    for n := 0 to |lines|
      invariant Compiled(m, Rules(lower, lines[..n]))
    {
      assert lines[..n + 1][..n] == lines[..n] && lines[..n + 1][n] == lines[n];
      match ParseRule(lower, lines[n]) {
        case None =>
        case Some(r) =>
          CompiledMore(m, Rules(lower, lines[..n]), r);
          m := WithRule(m, r);
      }
    }
    assert lines[..|lines|] == lines;
  }

  function WithRule(m: HostMatcher, r: HostRule): HostMatcher {
    HostMatcher(
      m.rules + [r],
      if !r.exclude && r.port > 0 then m.ports + {r.port} else m.ports,
      m.anyPort || (!r.exclude && r.port == ANY_PORT))
  }

  lemma {:induction false} CompiledMore(m: HostMatcher, parsed: seq<HostRule>, r: HostRule)
    requires Compiled(m, parsed)
    ensures Compiled(WithRule(m, r), parsed + [r])
  {
    var more := parsed + [r];
    assert forall i :: 0 <= i < |parsed| ==> more[i] == parsed[i];
    assert more[|parsed|] == r;
  }

  lemma {:induction false} RulePort(lower: bytes -> bytes, line: bytes)
    ensures ParseRule(lower, line).Some? ==> -1 <= ParseRule(lower, line).value.port <= 65535
  {}

  lemma {:induction false} RulePorts(lower: bytes -> bytes, lines: seq<bytes>)
    ensures forall i :: 0 <= i < |Rules(lower, lines)| ==> -1 <= Rules(lower, lines)[i].port <= 65535
    decreases |lines|
  {
    if lines != [] {
      RulePorts(lower, lines[..|lines| - 1]);
      RulePort(lower, lines[|lines| - 1]);
    }
  }

  /** A host pattern as it is usually written: printable ASCII in lower case, without brackets and colons. */
  predicate PlainHost(h: bytes) {
    && h != [] && h[0] != HASH && h[0] != MINUS && h[|h| - 1] != DOT
    && forall i :: 0 <= i < |h| ==> PlainByte(h[i])
  }

  predicate PlainByte(b: byte) {
    0x21 <= b < 0x7F && !(0x41 <= b <= 0x5A) && b != COLON && b != OPEN && b != CLOSE
  }

  /** Text that trimming and lower-casing leave alone. */
  predicate Settled(s: bytes) {
    s != [] && forall i :: 0 <= i < |s| ==> 0x21 <= s[i] < 0x7F && !(0x41 <= s[i] <= 0x5A)
  }

  predicate Printable(s: bytes) {
    forall i :: 0 <= i < |s| ==> 0x20 <= s[i] < 0x7F && !(0x41 <= s[i] <= 0x5A)
  }

  /** Lower-casing leaves printable ASCII without capitals alone. */
  ghost predicate KeepsPrintable(lower: bytes -> bytes) {
    forall s :: Printable(s) ==> lower(s) == s
  }

  lemma {:induction false} SettledStays(lower: bytes -> bytes, s: bytes)
    requires KeepsPrintable(lower) && Settled(s)
    ensures TrimSpace(s) == s && lower(s) == s
  {
    assert Printable(s);
    assert Trimmed(s);
    TrimSpaceIdempotent(s);
  }

  lemma {:induction false} BracketsStay(h: bytes)
    requires h != [] && h[0] != OPEN && h[0] != CLOSE && h[|h| - 1] != OPEN && h[|h| - 1] != CLOSE
    ensures TrimBrackets(h) == h
  {}

  lemma {:induction false} BareHost(h: bytes)
    requires PlainHost(h)
    ensures HostAndPort(h) == (h, DEFAULT_PORT) && TrimBrackets(h) == h && TrimDot(h) == h
  {
    assert PlainByte(h[0]) && PlainByte(h[|h| - 1]);
    FindNone(h, COLON);
    BracketsStay(h);
  }

  lemma {:induction false} PortDigits(port: nat)
    ensures var d := Decimal(port); Settled(d) && COLON !in d && d[|d| - 1] != DOT && Atoi(d) == Some(port)
  {
    DecimalValue(port);
    var d := Decimal(port);
    assert IsDigit(d[0]) && IsDigit(d[|d| - 1]);
  }

  lemma {:induction false} PortSplit(h: bytes, d: bytes, s: bytes)
    requires s == h + [COLON] + d && h != [] && h[0] != OPEN && COLON !in h && COLON !in d
    ensures SplitRulePort(s) == Some((h, d))
  {
    FindAt(h, COLON, d);
    assert s[0] == h[0] && s[..|h|] == h && s[|h| + 1..] == d;
  }

  lemma {:induction false} SettledJoin(h: bytes, d: bytes, s: bytes)
    requires s == h + [COLON] + d && Settled(h) && Settled(d) && d[|d| - 1] != DOT
    ensures Settled(s) && TrimDot(s) == s && s[0] == h[0]
  {
    assert s[|s| - 1] == d[|d| - 1];
  }

  lemma {:induction false} PlainIsSettled(h: bytes)
    requires PlainHost(h)
    ensures Settled(h) && COLON !in h && h[0] != OPEN
  {
    forall i | 0 <= i < |h| ensures 0x21 <= h[i] < 0x7F && !(0x41 <= h[i] <= 0x5A) && h[i] != COLON {
      assert PlainByte(h[i]);
    }
    assert PlainByte(h[0]);
  }

  lemma {:induction false} HostWithPort(h: bytes, port: nat, s: bytes)
    requires PlainHost(h) && port <= 65535 && s == h + [COLON] + Decimal(port)
    ensures Settled(s) && TrimDot(s) == s && s[0] == h[0] && HostAndPort(s) == (h, port)
  {
    PortDigits(port);
    PlainIsSettled(h);
    SettledJoin(h, Decimal(port), s);
    PortSplit(h, Decimal(port), s);
  }

  /** A text that stands for host and port, and the same with a minus sign in front. */
  lemma {:induction false} RuleOf(lower: bytes -> bytes, s: bytes, h: bytes, port: int, minus: bytes)
    requires KeepsPrintable(lower) && Settled(s) && s[0] != HASH && s[0] != MINUS
    requires TrimDot(s) == s && HostAndPort(s) == (h, port)
    requires h != [] && TrimBrackets(h) == h && minus == [MINUS] + s
    ensures ParseRule(lower, s) == Some(HostRule(false, h, port))
    ensures ParseRule(lower, minus) == Some(HostRule(true, h, port))
  {
    SettledStays(lower, s);
    assert Settled(minus);
    SettledStays(lower, minus);
    StaysRule(lower, s, h, port, h);
    MinusRule(lower, s, h, port, minus);
  }

  lemma {:induction false} StaysRule(lower: bytes -> bytes, s: bytes, host: bytes, port: int, pattern: bytes)
    requires s != [] && TrimSpace(s) == s && lower(s) == s && s[0] != HASH && s[0] != MINUS && TrimDot(s) == s
    requires HostAndPort(s) == (host, port) && TrimBrackets(host) == pattern && pattern != []
    ensures ParseRule(lower, s) == Some(HostRule(false, pattern, port))
  {}

  lemma {:induction false} MinusRule(lower: bytes -> bytes, s: bytes, h: bytes, port: int, minus: bytes)
    requires TrimSpace(s) == s && TrimDot(s) == s && HostAndPort(s) == (h, port) && h != [] && TrimBrackets(h) == h
    requires minus == [MINUS] + s && TrimSpace(minus) == minus && lower(minus) == minus
    ensures ParseRule(lower, minus) == Some(HostRule(true, h, port))
  {
    assert minus[0] == MINUS && minus[1..] == s;
  }

  /** The documented forms: a host alone, with a port, and either one excluded. */
  lemma {:induction false} RuleForms(lower: bytes -> bytes, h: bytes, port: nat)
    requires KeepsPrintable(lower) && PlainHost(h) && port <= 65535
    ensures ParseRule(lower, h) == Some(HostRule(false, h, DEFAULT_PORT))
    ensures ParseRule(lower, [MINUS] + h) == Some(HostRule(true, h, DEFAULT_PORT))
    ensures ParseRule(lower, h + [COLON] + Decimal(port)) == Some(HostRule(false, h, port))
    ensures ParseRule(lower, [MINUS] + (h + [COLON] + Decimal(port))) == Some(HostRule(true, h, port))
  {
    BareHost(h);
    PlainIsSettled(h);
    RuleOf(lower, h, h, DEFAULT_PORT, [MINUS] + h);
    var s := h + [COLON] + Decimal(port);
    HostWithPort(h, port, s);
    RuleOf(lower, s, h, port, [MINUS] + s);
  }

  /** A host name in lower case and without a dot at its end. */
  function Normal(lower: bytes -> bytes, host: bytes): bytes {
    TrimDot(lower(host))
  }

  /** The rule that decides, if there is one, is an include rule. */
  ghost predicate Hits(rules: seq<HostRule>, host: bytes, port: int) {
    exists j: nat :: Decides(rules, j, host, port) && !rules[j].exclude
  }

  method Match(lower: bytes -> bytes, m: HostMatcher, name: bytes, port: int) returns (hit: bool)
    ensures hit <==> name != [] && Hits(m.rules, Normal(lower, name), port)
  {
    if name == [] {
      return false;
    }
    var host := Normal(lower, name);
    for n := 0 to |m.rules|
      invariant forall i :: 0 <= i < n ==> !(PortMatches(m.rules[i], port) && Glob(m.rules[i].pattern, host))
    {
      var r := m.rules[n];
      if PortMatches(r, port) {
        var g := GlobMatch(r.pattern, host);
        if g {
          assert Decides(m.rules, n, host, port);
          assert forall j: nat :: Decides(m.rules, j, host, port) ==> j == n;
          return !r.exclude;
        }
      }
    }
    return false;
  }

  predicate HasExplicitPort(m: HostMatcher, port: int) {
    m.anyPort || port in m.ports
  }

  /** Every flow the matcher would intercept is one the tunnel peeks at: port 443, or an explicitly named port. */
  lemma {:induction false} InterceptedIsPeeked(
      lower: bytes -> bytes, lines: seq<bytes>, m: HostMatcher, j: nat, host: bytes, port: int)
    requires Compiled(m, Rules(lower, lines))
    requires Decides(m.rules, j, host, port) && !m.rules[j].exclude
    ensures port == 443 || HasExplicitPort(m, port)
  {
    RulePorts(lower, lines);
  }
}
