/**
 * The lexical rule table of the monitor's expression tokenizer (expr.c):
 * the token-type enumeration, the nine rules in their table order, and the
 * behaviour of POSIX `regexec` on each rule's pattern, stated over characters.
 *
 * `make_token` runs `regexec` on the suffix `e + position` and accepts a rule
 * only when the leftmost match starts at offset 0.  POSIX matching is
 * leftmost-longest, so the accepted match is the longest one beginning at
 * `position`.  `Matches` below says which lengths the pattern can match there;
 * `MatchAt` computes the longest and is proved to be exactly that.
 */
module ExprRules {
  import opened Common

  /** The token types TK_NOTYPE .. TK_NUM, in enumeration order. */
  datatype TokenType = NoType | Eq | LParent | RParent | Mul | Div | Plus | Sub | Num

  predicate IsDigit(c: char) { '0' <= c <= '9' }

  /** Characters that `\b` treats as part of a word (C locale: letters, digits, underscore). */
  predicate IsWordChar(c: char)
  {
    IsDigit(c) || 'a' <= c <= 'z' || 'A' <= c <= 'Z' || c == '_'
  }

  /** The three shapes of pattern the table uses. */
  datatype Pattern =
    | Literal(text: string)  // an escaped literal such as "\\(" or "=="
    | OneOrMore(c: char)     // "c+", here " +"
    | Number(width: nat)     // "\\b[0-9]{1,width}\\b"

  datatype Rule = Rule(pattern: Pattern, tokenType: TokenType)

  /** The rule table, in the order `make_token` tries it. */
  const RULES: seq<Rule> := [
    Rule(Literal("("), LParent),
    Rule(Literal(")"), RParent),
    Rule(OneOrMore(' '), NoType),
    Rule(Literal("*"), Mul),
    Rule(Literal("/"), Div),
    Rule(Literal("+"), Plus),
    Rule(Literal("-"), Sub),
    Rule(Literal("=="), Eq),
    Rule(Number(9), Num)
  ]

  /**
   * Whether index k of s is a word character of the string `regexec` sees,
   * which is the suffix s[p..]: characters before p are invisible to it.
   */
  predicate WordAt(s: string, p: nat, k: int)
  {
    p <= k < |s| && IsWordChar(s[k])
  }

  /** `\b` holds at index k of the suffix s[p..]. */
  predicate WordBoundary(s: string, p: nat, k: int)
  {
    WordAt(s, p, k - 1) != WordAt(s, p, k)
  }

  /** The pattern matches exactly the n characters s[p..p+n] of the suffix s[p..]. */
  predicate Matches(pat: Pattern, s: string, p: nat, n: nat)
  {
    p + n <= |s| &&
    match pat
    case Literal(t) => s[p..p + n] == t
    case OneOrMore(c) => 1 <= n && forall k :: p <= k < p + n ==> s[k] == c
    case Number(w) =>
      1 <= n <= w && (forall k :: p <= k < p + n ==> IsDigit(s[k])) &&
      WordBoundary(s, p, p) && WordBoundary(s, p, p + n)
  }

  /** The characters a `OneOrMore` or `Number` pattern repeats. */
  datatype CharSet = Only(c: char) | Digits
  {
    predicate Has(x: char)
    {
      match this
      case Only(c) => x == c
      case Digits => IsDigit(x)
    }
  }

  /** Length of the longest run of characters of `cs` starting at p; `SpanIsLongestRun` states it. */
  function Span(s: string, p: nat, cs: CharSet): (n: nat)
    requires p <= |s|
    ensures p + n <= |s|
    decreases |s| - p
  {
    if p < |s| && cs.Has(s[p]) then 1 + Span(s, p + 1, cs) else 0
  }

  /** `Span` covers only characters of `cs` and stops at the end or at the first other character. */
  lemma {:induction false} SpanIsLongestRun(s: string, p: nat, cs: CharSet)
    requires p <= |s|
    ensures forall k :: p <= k < p + Span(s, p, cs) ==> cs.Has(s[k])
    ensures p + Span(s, p, cs) == |s| || !cs.Has(s[p + Span(s, p, cs)])
    decreases |s| - p
  {
    if p < |s| && cs.Has(s[p]) {
      SpanIsLongestRun(s, p + 1, cs);
    }
  }

  /**
   * What `regexec(&re, e + p, ...)` with `rm_so == 0` reports: the length of
   * the match of the pattern that begins at p, or None.
   * `MatchAtIsLongest` proves it is the longest such match.
   */
  function MatchAt(pat: Pattern, s: string, p: nat): (r: Option<nat>)
    requires p <= |s|
    ensures r.Some? ==> p + r.value <= |s|
    ensures r.Some? && NonEmpty(pat) ==> 1 <= r.value
  {
    match pat
    case Literal(t) =>
      if p + |t| <= |s| && s[p..p + |t|] == t then Some(|t|) else None
    case OneOrMore(c) =>
      var n := Span(s, p, Only(c));
      if 1 <= n then Some(n) else None
    case Number(w) =>
      var n := Span(s, p, Digits);
      if 1 <= n <= w && WordBoundary(s, p, p + n) then Some(n) else None
  }

  /** POSIX leftmost-longest matching, anchored at p: `MatchAt` finds the longest match there, or reports that there is none. */
  lemma MatchAtIsLongest(pat: Pattern, s: string, p: nat)
    requires p <= |s|
    ensures var r := MatchAt(pat, s, p);
      && (r.Some? ==> Matches(pat, s, p, r.value))
      && (r.Some? ==> forall m: nat :: Matches(pat, s, p, m) ==> m <= r.value)
      && (r.None? ==> forall m: nat :: !Matches(pat, s, p, m))
  {
    match pat
    case Literal(_) =>
    case OneOrMore(c) =>
      SpanIsLongestRun(s, p, Only(c));
    case Number(w) =>
      SpanIsLongestRun(s, p, Digits);
      NumberMatchesOnlyFullRun(s, p, w, Span(s, p, Digits));
  }

  /** A number match can only end where the digit run ends. */
  lemma NumberMatchesOnlyFullRun(s: string, p: nat, w: nat, n: nat)
    requires p <= |s| && n == Span(s, p, Digits)
    ensures forall m: nat :: Matches(Number(w), s, p, m) ==> m == n
  {
    SpanIsLongestRun(s, p, Digits);
    forall m: nat | Matches(Number(w), s, p, m)
      ensures m == n
    {
      if m < n {
        assert Digits.Has(s[p + m]) && IsDigit(s[p + m - 1]);
        assert WordAt(s, p, p + m - 1) && WordAt(s, p, p + m);
      }
    }
  }

  /** The pattern consumes at least one character whenever it matches. */
  predicate NonEmpty(pat: Pattern)
  {
    pat.Literal? ==> |pat.text| > 0
  }

  /** A rule table whose every rule consumes input, so that a scan advances. */
  predicate WellFormed(rules: seq<Rule>)
  {
    forall i :: 0 <= i < |rules| ==> NonEmpty(rules[i].pattern)
  }

  lemma RulesWellFormed()
    ensures WellFormed(RULES)
  {
  }

  /** The rule that matched: its index in the table, its token type and the length of its match. */
  datatype Hit = Hit(rule: nat, kind: TokenType, len: nat)

  /**
   * The inner `for` of `make_token`: the first rule, from index `from` on,
   * whose pattern matches at p, with the length of its match.
   * `FirstMatchIsFirst` states what it picks.
   */
  function FirstMatch(rules: seq<Rule>, s: string, p: nat, from: nat): (r: Option<Hit>)
    requires WellFormed(rules) && p <= |s| && from <= |rules|
    ensures r.Some? ==> from <= r.value.rule < |rules| && r.value.kind == rules[r.value.rule].tokenType
    ensures r.Some? ==> 1 <= r.value.len && p + r.value.len <= |s|
    decreases |rules| - from
  {
    if from == |rules| then None
    else
      match MatchAt(rules[from].pattern, s, p)
      case Some(n) => Some(Hit(from, rules[from].tokenType, n))
      case None => FirstMatch(rules, s, p, from + 1)
  }

  /** The rules are tried in table order and the first one that matches wins. */
  lemma {:induction false} FirstMatchIsFirst(rules: seq<Rule>, s: string, p: nat, from: nat)
    requires WellFormed(rules) && p <= |s| && from <= |rules|
    ensures var r := FirstMatch(rules, s, p, from);
      && (r.Some? ==> MatchAt(rules[r.value.rule].pattern, s, p) == Some(r.value.len))
      && (r.Some? ==> forall j :: from <= j < r.value.rule ==> MatchAt(rules[j].pattern, s, p).None?)
      && (r.None? ==> forall j :: from <= j < |rules| ==> MatchAt(rules[j].pattern, s, p).None?)
    decreases |rules| - from
  {
    if from < |rules| && MatchAt(rules[from].pattern, s, p).None? {
      FirstMatchIsFirst(rules, s, p, from + 1);
    }
  }
}
