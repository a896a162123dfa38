/** From the texts of a rule list to the answers of the matcher: the first rule that applies decides. */
module HostRules {
  import opened Bytes
  import opened Text
  import opened HostMatch

  /** A line as it is documented: a host pattern, a port if one is named, and whether it excludes. */
  datatype Listed = Listed(pattern: bytes, port: Option<nat>, exclude: bool)

  predicate GoodLine(l: Listed) {
    PlainHost(l.pattern) && (l.port.Some? ==> l.port.value <= 65535)
  }

  function LineText(l: Listed): bytes {
    var text := match l.port case None => l.pattern case Some(n) => l.pattern + [COLON] + Decimal(n);
    if l.exclude then [MINUS] + text else text
  }

  function Texts(ls: seq<Listed>): seq<bytes> {
    seq(|ls|, i requires 0 <= i < |ls| => LineText(ls[i]))
  }

  /** A line without a port is about port 443, one with port 0 about every port, any other about its own. */
  ghost predicate Applies(l: Listed, host: bytes, port: int) {
    && Matches(l.pattern, host)
    && match l.port
       case None => port == 443
       case Some(n) => n == 0 || port == n
  }

  /** The lower-cased name is `host`, or `host` and one dot. */
  predicate Named(lower: bytes -> bytes, name: bytes, host: bytes) {
    lower(name) == host + [DOT] || (lower(name) == host && (host == [] || host[|host| - 1] != DOT))
  }

  /** What the matcher answers. */
  ghost predicate Answers(lower: bytes -> bytes, m: HostMatcher, name: bytes, port: int) {
    name != [] && Hits(m.rules, Normal(lower, name), port)
  }

  function RuleFor(l: Listed): HostRule {
    HostRule(l.exclude, l.pattern, match l.port case None => DEFAULT_PORT case Some(n) => n)
  }

  lemma {:induction false} LineParses(lower: bytes -> bytes, l: Listed)
    requires KeepsPrintable(lower) && GoodLine(l)
    ensures ParseRule(lower, LineText(l)) == Some(RuleFor(l))
  {
    RuleForms(lower, l.pattern, if l.port.Some? then l.port.value else 0);
  }

  function RulesFor(ls: seq<Listed>): seq<HostRule> {
    seq(|ls|, i requires 0 <= i < |ls| => RuleFor(ls[i]))
  }

  lemma {:induction false} OneMoreRule(lower: bytes -> bytes, lines: seq<bytes>, line: bytes, r: HostRule)
    requires ParseRule(lower, line) == Some(r)
    ensures Rules(lower, lines + [line]) == Rules(lower, lines) + [r]
  {
    assert (lines + [line])[..|lines|] == lines && (lines + [line])[|lines|] == line;
  }

  lemma {:induction false} LinesParse(lower: bytes -> bytes, ls: seq<Listed>)
    requires KeepsPrintable(lower) && forall i :: 0 <= i < |ls| ==> GoodLine(ls[i])
    ensures Rules(lower, Texts(ls)) == RulesFor(ls)
    decreases |ls|
  {
    if ls != [] {
      var front, last := ls[..|ls| - 1], ls[|ls| - 1];
      LinesParse(lower, front);
      LineParses(lower, last);
      OneMoreRule(lower, Texts(front), LineText(last), RuleFor(last));
      LastLine(ls, front, last);
    }
  }

  lemma {:induction false} LastLine(ls: seq<Listed>, front: seq<Listed>, last: Listed)
    requires ls != [] && front == ls[..|ls| - 1] && last == ls[|ls| - 1]
    ensures Texts(ls) == Texts(front) + [LineText(last)] && RulesFor(ls) == RulesFor(front) + [RuleFor(last)]
  {}

  lemma {:induction false} RuleApplies(l: Listed, host: bytes, port: int)
    requires GoodLine(l) && STAR !in host
    ensures PortMatches(RuleFor(l), port) && Glob(l.pattern, host) <==> Applies(l, host, port)
  {
    GlobIsMatches(l.pattern, host);
  }

  lemma {:induction false} NormalIs(lower: bytes -> bytes, name: bytes, host: bytes)
    requires Named(lower, name, host)
    ensures Normal(lower, name) == host
  {
    assert (host + [DOT])[..|host|] == host;
  }

  /** Line `j` is the first that applies. */
  ghost predicate FirstApplies(ls: seq<Listed>, j: nat, host: bytes, port: int) {
    j < |ls| && Applies(ls[j], host, port) && forall i :: 0 <= i < j ==> !Applies(ls[i], host, port)
  }

  lemma {:induction false} DecidesIffFirst(rules: seq<HostRule>, ls: seq<Listed>, j: nat, host: bytes, port: int)
    requires |rules| == |ls| && STAR !in host
    requires forall i :: 0 <= i < |ls| ==> GoodLine(ls[i]) && rules[i] == RuleFor(ls[i])
    ensures Decides(rules, j, host, port) <==> FirstApplies(ls, j, host, port)
  {
    forall i | 0 <= i < |ls|
      ensures PortMatches(rules[i], port) && Glob(rules[i].pattern, host) <==> Applies(ls[i], host, port)
    {
      RuleApplies(ls[i], host, port);
    }
  }

  /**
   * From the lines to the answer: a name without `*` is intercepted on a port exactly if the first line that applies
   * to them is there and does not exclude.
   */
  lemma {:induction false} FirstLineWins(
      lower: bytes -> bytes, ls: seq<Listed>, m: HostMatcher, name: bytes, host: bytes, port: int)
    requires KeepsPrintable(lower) && (forall i :: 0 <= i < |ls| ==> GoodLine(ls[i]))
    requires Compiled(m, Rules(lower, Texts(ls))) && name != [] && Named(lower, name, host) && STAR !in host
    ensures Answers(lower, m, name, port) <==> exists j: nat :: FirstApplies(ls, j, host, port) && !ls[j].exclude
  {
    LinesParse(lower, ls);
    NormalIs(lower, name, host);
    forall j: nat ensures Decides(m.rules, j, host, port) <==> FirstApplies(ls, j, host, port) {
      DecidesIffFirst(m.rules, ls, j, host, port);
    }
  }

  /** One line: on port 443, on the port it names, or on every port; an excluding line never intercepts. */
  lemma {:induction false} OneLine(
      lower: bytes -> bytes, l: Listed, m: HostMatcher, name: bytes, host: bytes, port: int)
    requires KeepsPrintable(lower) && GoodLine(l)
    requires Compiled(m, Rules(lower, [LineText(l)])) && name != [] && Named(lower, name, host) && STAR !in host
    ensures Answers(lower, m, name, port) <==>
            && !l.exclude && Matches(l.pattern, host)
            && (l.port == None ==> port == 443) && (l.port.Some? && l.port.value > 0 ==> port == l.port.value)
  {
    assert Texts([l]) == [LineText(l)];
    FirstLineWins(lower, [l], m, name, host, port);
    assert FirstApplies([l], 0, host, port) <==> Applies(l, host, port);
  }

  /** A line that excludes and comes first keeps a name from every line behind it. */
  lemma {:induction false} ExcludedFirst(
      lower: bytes -> bytes, ls: seq<Listed>, m: HostMatcher, name: bytes, host: bytes, port: int)
    requires KeepsPrintable(lower) && (forall i :: 0 <= i < |ls| ==> GoodLine(ls[i]))
    requires Compiled(m, Rules(lower, Texts(ls))) && name != [] && Named(lower, name, host) && STAR !in host
    requires ls != [] && ls[0].exclude && Applies(ls[0], host, port)
    ensures !Answers(lower, m, name, port)
  {
    FirstLineWins(lower, ls, m, name, host, port);
    assert forall j: nat :: FirstApplies(ls, j, host, port) ==> j == 0;
  }

  /** The ports worth peeking at are exactly those that an including line names, and every port if one names port 0. */
  lemma {:induction false} PeekedIff(lower: bytes -> bytes, ls: seq<Listed>, m: HostMatcher, port: int)
    requires KeepsPrintable(lower) && (forall i :: 0 <= i < |ls| ==> GoodLine(ls[i]))
    requires Compiled(m, Rules(lower, Texts(ls)))
    ensures HasExplicitPort(m, port) <==>
            exists i :: && 0 <= i < |ls| && !ls[i].exclude && ls[i].port.Some?
                        && (ls[i].port.value == 0 || ls[i].port.value == port)
  {
    LinesParse(lower, ls);
    forall i | 0 <= i < |ls| && !ls[i].exclude && ls[i].port.Some?
      ensures m.rules[i].port == ls[i].port.value && !m.rules[i].exclude
    {
      assert m.rules[i] == RuleFor(ls[i]);
    }
    forall i | 0 <= i < |ls| && !m.rules[i].exclude && m.rules[i].port >= 0
      ensures ls[i].port == Some(m.rules[i].port) && !ls[i].exclude
    {
      assert m.rules[i] == RuleFor(ls[i]);
    }
  }

  // ---------------------------------------------------------------- further forms

  /** Text in place of a host, as in an address literal: no brackets at its ends and no dot at its end. */
  predicate PlainText(x: bytes) {
    && Settled(x) && x[0] != HASH && x[0] != MINUS && x[|x| - 1] != DOT
    && OPEN !in x && CLOSE !in x
  }

  /** What is parsed when the text itself stays as it is. */
  lemma {:induction false} SettledRule(lower: bytes -> bytes, s: bytes, host: bytes, port: int, pattern: bytes)
    requires KeepsPrintable(lower) && Settled(s) && s[0] != HASH && s[0] != MINUS && TrimDot(s) == s
    requires HostAndPort(s) == (host, port) && TrimBrackets(host) == pattern && pattern != []
    ensures ParseRule(lower, s) == Some(HostRule(false, pattern, port))
  {
    SettledStays(lower, s);
    StaysRule(lower, s, host, port, pattern);
  }

  lemma {:induction false} Unbracketed(x: bytes)
    requires PlainText(x)
    ensures TrimBrackets(x) == x && TrimBrackets([OPEN] + x + [CLOSE]) == x
  {
    BracketsStay(x);
    var s := [OPEN] + x + [CLOSE];
    assert s[1..] == x + [CLOSE] && (x + [CLOSE])[0] == x[0];
    assert TrimLeft(x + [CLOSE], {OPEN, CLOSE}) == x + [CLOSE];
    assert TrimLeft(s, {OPEN, CLOSE}) == x + [CLOSE];
    TrimRightOf(x, [CLOSE], {OPEN, CLOSE});
  }

  lemma {:induction false} NoBracketColon(s: bytes, n: nat)
    requires n <= |s| && forall i :: 0 <= i < n ==> !(s[i] == CLOSE && i + 1 < |s| && s[i + 1] == COLON)
    ensures LastBracket(s, n) == -1
  {
    if n > 0 {
      NoBracketColon(s, n - 1);
    }
  }

  lemma {:induction false} BracketColonAt(s: bytes, k: nat, n: nat)
    requires k < n <= |s| && k + 1 < |s| && s[k] == CLOSE && s[k + 1] == COLON
    requires forall i :: k < i < |s| ==> s[i] != CLOSE
    ensures LastBracket(s, n) == k
  {
    if k + 1 < n {
      BracketColonAt(s, k, n - 1);
    }
  }

  /** An address literal with several colons has no port of its own. */
  lemma {:induction false} SeveralColons(lower: bytes -> bytes, x: bytes, y: bytes, s: bytes)
    requires KeepsPrintable(lower) && s == x + [COLON] + y && COLON in y && COLON !in x && PlainText(s)
    ensures ParseRule(lower, s) == Some(HostRule(false, s, -1))
  {
    FindAt(x, COLON, y);
    assert s[|x| + 1..] == y;
    assert s[0] != OPEN;
    Unbracketed(s);
    SettledRule(lower, s, s, DEFAULT_PORT, s);
  }

  /** In brackets it has none either. */
  lemma {:induction false} Bracketed(lower: bytes -> bytes, x: bytes, s: bytes)
    requires KeepsPrintable(lower) && PlainText(x) && s == [OPEN] + x + [CLOSE]
    ensures ParseRule(lower, s) == Some(HostRule(false, x, -1))
  {
    assert s[0] == OPEN && s[|s| - 1] == CLOSE;
    forall i | 0 <= i < |s| - 1 ensures s[i] != CLOSE {
      assert i > 0 ==> s[i] == x[i - 1] && x[i - 1] in x;
    }
    NoBracketColon(s, |s|);
    Unbracketed(x);
    SettledRule(lower, s, s, DEFAULT_PORT, x);
  }

  /** The port stands behind the brackets. */
  lemma {:induction false} BracketedPort(lower: bytes -> bytes, x: bytes, n: nat, s: bytes)
    requires KeepsPrintable(lower) && PlainText(x) && n <= 65535 && s == [OPEN] + x + [CLOSE] + [COLON] + Decimal(n)
    ensures ParseRule(lower, s) == Some(HostRule(false, x, n))
  {
    PortDigits(n);
    BracketedSettled(x, n, s);
    BracketedSplit(x, Decimal(n), s);
    Unbracketed(x);
    SettledRule(lower, s, [OPEN] + x + [CLOSE], n, x);
  }

  lemma {:induction false} BracketedSplit(x: bytes, d: bytes, s: bytes)
    requires s == [OPEN] + x + [CLOSE] + [COLON] + d && CLOSE !in d
    ensures SplitRulePort(s) == Some(([OPEN] + x + [CLOSE], d))
  {
    var k := |x| + 1;
    assert s[0] == OPEN && s[k] == CLOSE && s[k + 1] == COLON;
    assert s[..k + 1] == [OPEN] + x + [CLOSE] && s[k + 2..] == d;
    forall i | k < i < |s| ensures s[i] != CLOSE {
      assert i > k + 1 ==> s[i] == d[i - k - 2];
    }
    BracketColonAt(s, k, |s|);
  }

  lemma {:induction false} BracketedSettled(x: bytes, n: nat, s: bytes)
    requires Settled(x) && s == [OPEN] + x + [CLOSE] + [COLON] + Decimal(n)
    ensures Settled(s) && TrimDot(s) == s && s[0] == OPEN && CLOSE !in Decimal(n)
  {
    PortDigits(n);
    DecimalValue(n);
    var d := Decimal(n);
    assert s[|s| - 1] == d[|d| - 1];
    forall b | b in d ensures b != CLOSE {
      var i :| 0 <= i < |d| && d[i] == b;
      assert IsDigit(d[i]);
    }
  }

  /** A text behind the colon that is no port number stays part of the pattern. */
  lemma {:induction false} BadPort(lower: bytes -> bytes, h: bytes, d: bytes, s: bytes)
    requires KeepsPrintable(lower) && PlainHost(h) && s == h + [COLON] + d && PlainText(s) && COLON !in d
    requires Atoi(d) == None || Atoi(d).value < 0 || Atoi(d).value > 65535
    ensures ParseRule(lower, s) == Some(HostRule(false, s, -1))
  {
    PlainIsSettled(h);
    PortSplit(h, d, s);
    Unbracketed(s);
    SettledRule(lower, s, s, DEFAULT_PORT, s);
  }

  /** A dot at the end does not count. */
  lemma {:induction false} DotAtEnd(lower: bytes -> bytes, h: bytes, s: bytes)
    requires KeepsPrintable(lower) && PlainHost(h) && s == h + [DOT]
    ensures ParseRule(lower, s) == Some(HostRule(false, h, -1))
  {
    BareHost(h);
    PlainIsSettled(h);
    assert Settled(s) && s[0] == h[0] && s[..|h|] == h;
    SettledStays(lower, s);
  }

  /** White space around a line, and behind a minus sign, does not count. */
  lemma {:induction false} SpacesAround(lower: bytes -> bytes, h: bytes, line: bytes, spaced: bytes)
    requires KeepsPrintable(lower) && PlainHost(h) && Printable(spaced) && spaced != [] && spaced[0] == 0x2D
    requires TrimSpace(line) == spaced && TrimSpace(spaced[1..]) == h
    ensures ParseRule(lower, line) == Some(HostRule(true, h, -1))
  {
    BareHost(h);
  }

  /** Blank lines and comments hold no rule. */
  lemma {:induction false} NoRule(lower: bytes -> bytes, line: bytes)
    requires KeepsPrintable(lower) && Printable(TrimSpace(line))
    requires TrimSpace(line) == [] || TrimSpace(line)[0] == 0x23
    ensures ParseRule(lower, line) == None
  {}
}
