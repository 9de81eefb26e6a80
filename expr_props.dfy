/**
 * Properties of the tokenizer of expr.c, proved about the scan `LexFrom`
 * that `Tokenizer.MakeToken` is shown to carry out.
 */
module ExprProps {
  import opened Common
  import opened ExprRules
  import opened Expr

  // ---------------------------------------------------------------------
  // `regexec` is handed `e + position`: a rule's match depends only on the
  // characters from the current position on.
  // ---------------------------------------------------------------------

  lemma SliceOfSuffix<T>(s: seq<T>, p: nat, a: nat, b: nat)
    requires p <= a <= b <= |s|
    ensures s[a..b] == s[p..][a - p..b - p]
  {
  }

  lemma {:induction false} SpanSeesSuffix(s: string, p: nat, q: nat, cs: CharSet)
    requires p <= q <= |s|
    ensures Span(s, q, cs) == Span(s[p..], q - p, cs)
    decreases |s| - q
  {
    if q < |s| && cs.Has(s[q]) {
      SpanSeesSuffix(s, p, q + 1, cs);
    }
  }

  /** A pattern matches at q of s exactly as it does at the same place of any suffix s[p..] with p <= q. */
  lemma MatchAtSeesSuffix(pat: Pattern, s: string, p: nat, q: nat)
    requires p <= q <= |s|
    ensures MatchAt(pat, s, q) == MatchAt(pat, s[p..], q - p)
  {
    match pat
    case Literal(t) =>
      if q + |t| <= |s| {
        SliceOfSuffix(s, p, q, q + |t|);
      }
    case OneOrMore(c) =>
      SpanSeesSuffix(s, p, q, Only(c));
    case Number(w) =>
      SpanSeesSuffix(s, p, q, Digits);
  }

  lemma {:induction false} FirstMatchSeesSuffix(rules: seq<Rule>, s: string, p: nat, q: nat, from: nat)
    requires WellFormed(rules) && p <= q <= |s| && from <= |rules|
    ensures FirstMatch(rules, s, q, from) == FirstMatch(rules, s[p..], q - p, from)
    decreases |rules| - from
  {
    if from < |rules| {
      MatchAtSeesSuffix(rules[from].pattern, s, p, q);
      FirstMatchSeesSuffix(rules, s, p, q, from + 1);
    }
  }

  // ---------------------------------------------------------------------
  // The table of expr.c: its rules never compete, so the first match is
  // the only one.
  // ---------------------------------------------------------------------

  /** The character a match of the pattern begins with. */
  predicate Opens(pat: Pattern, c: char)
  {
    match pat
    case Literal(t) => |t| > 0 && c == t[0]
    case OneOrMore(d) => c == d
    case Number(_) => IsDigit(c)
  }

  lemma MatchOpensWith(pat: Pattern, s: string, p: nat)
    requires p <= |s| && NonEmpty(pat) && MatchAt(pat, s, p).Some?
    ensures p < |s| && Opens(pat, s[p])
  {
    if pat.Literal? {
      assert s[p..p + |pat.text|][0] == s[p];
    }
  }

  /** No two rules of the table match at the same position. */
  lemma RulesExclusive(s: string, p: nat, i: nat, j: nat)
    requires p <= |s| && i < |RULES| && j < |RULES| && i != j
    ensures MatchAt(RULES[i].pattern, s, p).None? || MatchAt(RULES[j].pattern, s, p).None?
  {
    RulesWellFormed();
    if MatchAt(RULES[i].pattern, s, p).Some? && MatchAt(RULES[j].pattern, s, p).Some? {
      MatchOpensWith(RULES[i].pattern, s, p);
      MatchOpensWith(RULES[j].pattern, s, p);
      assert false;
    }
  }

  /**
   * Whichever rule matches at p is the one `make_token` picks, whatever its
   * place in the table.
   */
  lemma OnlyMatchWins(s: string, p: nat, i: nat)
    requires p <= |s| && i < |RULES| && MatchAt(RULES[i].pattern, s, p).Some?
    ensures FirstMatch(RULES, s, p, 0) == Some(Hit(i, RULES[i].tokenType, MatchAt(RULES[i].pattern, s, p).value))
  {
    RulesWellFormed();
    FirstMatchIsFirst(RULES, s, p, 0);
    var r := FirstMatch(RULES, s, p, 0);
    if r.Some? && r.value.rule != i {
      RulesExclusive(s, p, i, r.value.rule);
    }
  }

  // ---------------------------------------------------------------------
  // How a scan ends and how many tokens it records.
  // ---------------------------------------------------------------------

  /** A scan that fails stops at a position where no rule matches. */
  lemma {:induction false} StuckWhereNoRuleMatches(rules: seq<Rule>, s: string, p: nat, acc: seq<Token>)
    requires WellFormed(rules) && p <= |s|
    ensures var r := LexFrom(rules, s, p, acc);
      r.NoMatch? ==> FirstMatch(rules, s, r.position, 0).None?
    decreases |s| - p
  {
    if p < |s| && FirstMatch(rules, s, p, 0).Some? {
      var h := FirstMatch(rules, s, p, 0).value;
      LexStep(rules, s, p, acc, h, LexFrom(rules, s, p, acc));
      StuckWhereNoRuleMatches(rules, s, p + h.len, acc + Emit(h.kind, s[p..p + h.len]));
    }
  }

  /**
   * Every match consumes at least one character and records at most one
   * token, so a scan records at most one token per remaining character.
   */
  lemma {:induction false} TokenCountBound(rules: seq<Rule>, s: string, p: nat, acc: seq<Token>)
    requires WellFormed(rules) && p <= |s|
    ensures |LexFrom(rules, s, p, acc).tokens| <= |acc| + (|s| - p)
    decreases |s| - p
  {
    if p < |s| && FirstMatch(rules, s, p, 0).Some? {
      var h := FirstMatch(rules, s, p, 0).value;
      TokenCountBound(rules, s, p + h.len, acc + Emit(h.kind, s[p..p + h.len]));
    }
  }

  /** An input of at most 32 characters never overflows the token buffer. */
  lemma ShortInputFits(s: string)
    requires |s| <= NR_TOKENS
    ensures |Tokenize(s).tokens| <= NR_TOKENS
  {
    TokenCountBound(RULES, s, 0, []);
  }

  // ---------------------------------------------------------------------
  // What the array can hold after a scan with the table of expr.c.
  // ---------------------------------------------------------------------

  /**
   * A token as `make_token` leaves it in the array: never TK_NOTYPE or
   * TK_EQ; a number carries 1 to 9 digits, so it fits `str[10]`; any other
   * type carries the empty string.
   */
  predicate Recordable(t: Token)
  {
    match t.kind
    case NoType => false
    case Eq => false
    case Num => 1 <= |t.str| <= 9 && forall k :: 0 <= k < |t.str| ==> IsDigit(t.str[k])
    case _ => t.str == ""
  }

  /** A table whose numbers are at most 9 digits wide, so every match of it records recordable tokens. */
  predicate TableRecordable(rules: seq<Rule>)
  {
    forall i :: 0 <= i < |rules| ==>
      rules[i].tokenType == Num ==> rules[i].pattern.Number? && rules[i].pattern.width <= 9
  }

  lemma RulesRecordable()
    ensures TableRecordable(RULES)
  {
  }

  /** What one accepted match records is recordable: spaces and `==` record nothing, a number its digits. */
  lemma HitRecordable(rules: seq<Rule>, s: string, p: nat, h: Hit)
    requires WellFormed(rules) && TableRecordable(rules)
    requires p <= |s| && FirstMatch(rules, s, p, 0) == Some(h)
    ensures forall t :: t in Emit(h.kind, s[p..p + h.len]) ==> Recordable(t)
  {
    FirstMatchIsFirst(rules, s, p, 0);
    if h.kind == Num {
      MatchAtIsLongest(rules[h.rule].pattern, s, p);
    }
  }

  /**
   * What one match of the table records: nothing for the space rule and the
   * `==` rule, otherwise one token of the rule's type, a number carrying the
   * digits matched and every other type the empty string.
   */
  lemma MatchRecords(s: string, p: nat, h: Hit)
    requires p <= |s| && FirstMatch(RULES, s, p, 0) == Some(h)
    ensures var out := Emit(h.kind, s[p..p + h.len]);
      if h.rule == RuleIndex(NoType) || h.rule == RuleIndex(Eq) then out == []
      else out == [Token(RULES[h.rule].tokenType, if h.rule == RuleIndex(Num) then s[p..p + h.len] else "")]
  {
  }

  /** Every token a scan records is recordable, whether the scan succeeds or fails. */
  lemma {:induction false} ScanRecordsRecordable(rules: seq<Rule>, s: string, p: nat, acc: seq<Token>)
    requires WellFormed(rules) && TableRecordable(rules)
    requires p <= |s| && forall t :: t in acc ==> Recordable(t)
    ensures forall t :: t in LexFrom(rules, s, p, acc).tokens ==> Recordable(t)
    decreases |s| - p
  {
    if p < |s| && FirstMatch(rules, s, p, 0).Some? {
      var h := FirstMatch(rules, s, p, 0).value;
      HitRecordable(rules, s, p, h);
      ScanRecordsRecordable(rules, s, p + h.len, acc + Emit(h.kind, s[p..p + h.len]));
    }
  }

  /** The tokens `make_token` leaves in the array are all recordable. */
  lemma TokenizeRecordsRecordable(s: string)
    ensures forall t :: t in Tokenize(s).tokens ==> Recordable(t)
  {
    RulesWellFormed();
    RulesRecordable();
    ScanRecordsRecordable(RULES, s, 0, []);
  }

  // ---------------------------------------------------------------------
  // Inputs that make `make_token` fail.
  // ---------------------------------------------------------------------

  /** The characters a pattern's matches are made of. */
  predicate InAlphabet(pat: Pattern, c: char)
  {
    match pat
    case Literal(t) => c in t
    case OneOrMore(d) => c == d
    case Number(_) => IsDigit(c)
  }

  /** No rule of the table can match a character `c`. */
  predicate Foreign(rules: seq<Rule>, c: char)
  {
    forall i :: 0 <= i < |rules| ==> !InAlphabet(rules[i].pattern, c)
  }

  /** A match consists of characters of its pattern's alphabet. */
  lemma MatchStaysInAlphabet(pat: Pattern, s: string, p: nat)
    requires p <= |s| && MatchAt(pat, s, p).Some?
    ensures forall k :: p <= k < p + MatchAt(pat, s, p).value ==> InAlphabet(pat, s[k])
  {
    MatchAtIsLongest(pat, s, p);
    if pat.Literal? {
      forall k | p <= k < p + |pat.text|
        ensures s[k] in pat.text
      {
        assert s[k] == s[p..p + |pat.text|][k - p];
      }
    }
  }

  /**
   * A character no rule can match is never consumed: a scan that
   * succeeds from p meets no such character from p on.
   */
  lemma {:induction false} ScanMeetsNoForeign(rules: seq<Rule>, s: string, p: nat, acc: seq<Token>, c: char)
    requires WellFormed(rules) && Foreign(rules, c) && p <= |s|
    requires LexFrom(rules, s, p, acc).Lexed?
    ensures forall k :: p <= k < |s| ==> s[k] != c
    decreases |s| - p
  {
    if p < |s| {
      var h := FirstMatch(rules, s, p, 0).value;
      FirstMatchIsFirst(rules, s, p, 0);
      MatchStaysInAlphabet(rules[h.rule].pattern, s, p);
      ScanMeetsNoForeign(rules, s, p + h.len, acc + Emit(h.kind, s[p..p + h.len]), c);
    }
  }

  /** The characters some rule of expr.c can match. */
  predicate Lexical(c: char)
  {
    IsDigit(c) || c in "()*/+-= "
  }

  lemma NonLexicalIsForeign(c: char)
    requires !Lexical(c)
    ensures Foreign(RULES, c)
  {
  }

  /**
   * An input holding a character outside the table's alphabet (a letter,
   * a tab, `!`, ...) makes `make_token` fail.
   */
  lemma ForeignCharRejected(s: string, k: nat)
    requires k < |s| && !Lexical(s[k])
    ensures Tokenize(s).NoMatch?
  {
    RulesWellFormed();
    NonLexicalIsForeign(s[k]);
    if Tokenize(s).Lexed? {
      ScanMeetsNoForeign(RULES, s, 0, [], s[k]);
    }
  }

  /**
   * A run of digits that is longer than 9, or that runs into a letter or
   * an underscore, has no `\\b` where the number rule needs one: no rule
   * matches at its start.
   */
  lemma BadDigitRunMatchesNoRule(s: string, p: nat)
    requires p < |s| && IsDigit(s[p])
    requires var n := Span(s, p, Digits); n > 9 || (p + n < |s| && IsWordChar(s[p + n]))
    ensures FirstMatch(RULES, s, p, 0).None?
  {
    SpanIsLongestRun(s, p, Digits);
    RulesWellFormed();
    FirstMatchIsFirst(RULES, s, p, 0);
    var r := FirstMatch(RULES, s, p, 0);
    if r.Some? {
      MatchOpensWith(RULES[r.value.rule].pattern, s, p);
      assert false;
    }
  }

  /** A scan that reaches such a digit run fails there. */
  lemma BadDigitRunRejected(s: string, p: nat, acc: seq<Token>)
    requires p < |s| && IsDigit(s[p])
    requires var n := Span(s, p, Digits); n > 9 || (p + n < |s| && IsWordChar(s[p + n]))
    ensures LexFrom(RULES, s, p, acc) == NoMatch(p, acc)
  {
    BadDigitRunMatchesNoRule(s, p);
    RulesWellFormed();
    LexStuck(RULES, s, p, acc, LexFrom(RULES, s, p, acc));
  }

  // ---------------------------------------------------------------------
  // Round trip: writing recordable tokens out, separated by spaces, and
  // tokenizing the text gives the same tokens back.
  // ---------------------------------------------------------------------

  /** The characters a token stands for. */
  function Text(t: Token): string
  {
    match t.kind
    case NoType => " "
    case Eq => "=="
    case LParent => "("
    case RParent => ")"
    case Mul => "*"
    case Div => "/"
    case Plus => "+"
    case Sub => "-"
    case Num => t.str
  }

  /** A token's text, one space, then the text r. */
  function Spaced(t: Token, r: string): string
  {
    Text(t) + " " + r
  }

  /** One space, then the text r. */
  function Blank(r: string): string
  {
    " " + r
  }

  /** Tokens written out, each followed by one space. */
  function Render(toks: seq<Token>): string
  {
    if toks == [] then "" else Spaced(toks[0], Render(toks[1..]))
  }

  /** The index of the rule of the table that produces a token type. */
  function RuleIndex(kind: TokenType): (i: nat)
    ensures i < |RULES| && RULES[i].tokenType == kind
  {
    match kind
    case LParent => 0
    case RParent => 1
    case NoType => 2
    case Mul => 3
    case Div => 4
    case Plus => 5
    case Sub => 6
    case Eq => 7
    case Num => 8
  }

  /** Text that does not open with a space. */
  predicate NoLeadingSpace(r: string)
  {
    r == [] || r[0] != ' '
  }

  /** Render's output never begins with a space. */
  lemma RenderOpensWithNonSpace(toks: seq<Token>)
    requires forall t :: t in toks ==> Recordable(t)
    ensures NoLeadingSpace(Render(toks))
  {
    if toks != [] {
      assert Recordable(toks[0]);
      assert Render(toks)[0] == Text(toks[0])[0];
    }
  }

  /** A recordable token's text is read back as that token. */
  lemma EmitText(t: Token)
    requires Recordable(t)
    ensures Emit(t.kind, Text(t)) == [t]
  {
  }

  /** The rule of a recordable token matches its text when a space follows it. */
  lemma TextMatches(t: Token, tail: string)
    requires Recordable(t) && tail != [] && tail[0] == ' '
    ensures MatchAt(RULES[RuleIndex(t.kind)].pattern, Text(t) + tail, 0) == Some(|Text(t)|)
  {
    var s := Text(t) + tail;
    var n := |Text(t)|;
    assert s[0..n] == Text(t);
    if t.kind == Num {
      SpanIsLongestRun(s, 0, Digits);
      assert s[n] == ' ';
    }
  }

  /** One space before text that does not begin with a space is matched by the space rule alone. */
  lemma SpaceMatches(r: string)
    requires NoLeadingSpace(r)
    ensures MatchAt(RULES[RuleIndex(NoType)].pattern, " " + r, 0) == Some(1)
  {
    var s := " " + r;
    assert Span(s, 1, Only(' ')) == 0 by {
      if 1 < |s| {
        assert s[1] == r[0];
      }
    }
  }

  /** The first rule to match a token's text followed by a space is one of the token's kind, and it takes exactly that text. */
  ghost predicate TokenReadsBack(rules: seq<Rule>, t: Token, r: string)
    requires WellFormed(rules)
  {
    var h := FirstMatch(rules, Spaced(t, r), 0, 0);
    h.Some? && h.value.kind == t.kind && h.value.len == |Text(t)|
  }

  /** The first rule to match a lone space is one that records nothing, and it takes just that space. */
  ghost predicate SpaceReadsBack(rules: seq<Rule>, r: string)
    requires WellFormed(rules)
  {
    var h := FirstMatch(rules, Blank(r), 0, 0);
    h.Some? && h.value.kind == NoType && h.value.len == 1
  }

  /**
   * What the round trip needs of a rule table: a recordable token's text
   * followed by a space is read as that token, and one space before text
   * that does not begin with a space is read as a space.
   */
  ghost predicate ReadsBack(rules: seq<Rule>)
  {
    WellFormed(rules) &&
    (forall t: Token, r: string {:trigger TokenReadsBack(rules, t, r)} ::
      Recordable(t) && NoLeadingSpace(r) ==> TokenReadsBack(rules, t, r)) &&
    (forall r: string {:trigger SpaceReadsBack(rules, r)} ::
      NoLeadingSpace(r) ==> SpaceReadsBack(rules, r))
  }

  lemma RulesReadBack()
    ensures ReadsBack(RULES)
  {
    RulesWellFormed();
    forall t: Token, r: string | Recordable(t) && NoLeadingSpace(r)
      ensures TokenReadsBack(RULES, t, r)
    {
      assert Spaced(t, r) == Text(t) + (" " + r);
      TextMatches(t, " " + r);
      OnlyMatchWins(Text(t) + (" " + r), 0, RuleIndex(t.kind));
    }
    forall r: string | NoLeadingSpace(r)
      ensures SpaceReadsBack(RULES, r)
    {
      SpaceMatches(r);
      OnlyMatchWins(" " + r, 0, RuleIndex(NoType));
    }
  }

  lemma ConsAppend<T>(acc: seq<T>, xs: seq<T>)
    requires xs != []
    ensures acc + [xs[0]] + xs[1..] == acc + xs
  {
    assert [xs[0]] + xs[1..] == xs;
  }

  /** Where a token's text, a space and more text follow, a chosen match of the token's type and length records that token and leaves the space and the rest. */
  lemma TokenHit(rules: seq<Rule>, t: Token, r: string, h: Hit)
    requires WellFormed(rules) && Recordable(t)
    requires FirstMatch(rules, Spaced(t, r), 0, 0) == Some(h) && h.kind == t.kind && h.len == |Text(t)|
    ensures h.len < |Spaced(t, r)| && Spaced(t, r)[h.len..] == Blank(r)
    ensures Emit(h.kind, Spaced(t, r)[..h.len]) == [t]
  {
    assert Spaced(t, r)[..h.len] == Text(t);
    EmitText(t);
  }

  /** Where one space and more text follow, a chosen one-character match of the space type records nothing and leaves the rest. */
  lemma SpaceHit(rules: seq<Rule>, r: string, h: Hit)
    requires WellFormed(rules)
    requires FirstMatch(rules, Blank(r), 0, 0) == Some(h) && h.kind == NoType && h.len == 1
    ensures Blank(r)[1..] == r && Emit(h.kind, Blank(r)[..1]) == []
  {
  }

  /**
   * The scan of the text u meets, for each token of toks in turn, a rule
   * that records that token followed by a rule that takes one character and
   * records nothing, and then the end of u.
   */
  ghost predicate StepsThrough(rules: seq<Rule>, u: string, toks: seq<Token>)
    requires WellFormed(rules)
    decreases |toks|
  {
    if toks == [] then u == []
    else
      var h := FirstMatch(rules, u, 0, 0);
      h.Some? && h.value.len < |u| && Emit(h.value.kind, u[..h.value.len]) == [toks[0]] &&
      var v := u[h.value.len..];
      var h' := FirstMatch(rules, v, 0, 0);
      h'.Some? && h'.value.len == 1 && Emit(h'.value.kind, v[..1]) == [] &&
      StepsThrough(rules, v[1..], toks[1..])
  }

  /** A rule chosen at the start of the suffix s[p..] is the one chosen at p of s, and takes the same characters. */
  lemma SuffixHit(rules: seq<Rule>, s: string, p: nat, h: Hit)
    requires WellFormed(rules) && p <= |s| && FirstMatch(rules, s[p..], 0, 0) == Some(h)
    ensures p + h.len <= |s| && FirstMatch(rules, s, p, 0) == Some(h)
    ensures s[p..][..h.len] == s[p..p + h.len] && s[p..][h.len..] == s[p + h.len..]
  {
    FirstMatchSeesSuffix(rules, s, p, p, 0);
  }

  /** A rule that records t carries the scan from p past its match with t recorded. */
  lemma TokenStep(rules: seq<Rule>, s: string, p: nat, acc: seq<Token>, h: Hit, t: Token)
    requires WellFormed(rules) && p < |s| && FirstMatch(rules, s, p, 0) == Some(h)
    requires Emit(h.kind, s[p..p + h.len]) == [t]
    ensures LexFrom(rules, s, p, acc) == LexFrom(rules, s, p + h.len, acc + [t])
  {
    LexStep(rules, s, p, acc, h, LexFrom(rules, s, p, acc));
  }

  /** A one-character rule that records nothing carries the scan one character on with nothing recorded. */
  lemma SpaceStep(rules: seq<Rule>, s: string, p: nat, acc: seq<Token>, h: Hit)
    requires WellFormed(rules) && p < |s| && FirstMatch(rules, s, p, 0) == Some(h)
    requires h.len == 1 && Emit(h.kind, s[p..p + 1]) == []
    ensures LexFrom(rules, s, p, acc) == LexFrom(rules, s, p + 1, acc)
  {
    LexStep(rules, s, p, acc, h, LexFrom(rules, s, p, acc));
    assert acc + [] == acc;
  }

  /** A rule that records t and then a one-character rule that records nothing carry the scan from p to past that character. */
  lemma TokenThenSpace(rules: seq<Rule>, s: string, p: nat, acc: seq<Token>, h: Hit, h': Hit, t: Token)
    requires WellFormed(rules) && p < |s| && FirstMatch(rules, s, p, 0) == Some(h)
    requires p + h.len < |s| && Emit(h.kind, s[p..p + h.len]) == [t]
    requires FirstMatch(rules, s, p + h.len, 0) == Some(h') && h'.len == 1 && Emit(h'.kind, s[p + h.len..p + h.len + 1]) == []
    ensures LexFrom(rules, s, p, acc) == LexFrom(rules, s, p + h.len + 1, acc + [t])
  {
    TokenStep(rules, s, p, acc, h, t);
    SpaceStep(rules, s, p + h.len, acc + [t], h');
  }

  /** A scan from p whose remaining text steps through toks records exactly them. */
  lemma {:induction false} ScanStepsThrough(rules: seq<Rule>, s: string, p: nat, toks: seq<Token>, acc: seq<Token>)
    requires WellFormed(rules) && p <= |s| && StepsThrough(rules, s[p..], toks)
    ensures LexFrom(rules, s, p, acc) == Lexed(acc + toks)
    decreases |toks|
  {
    if toks == [] {
      assert p == |s|;
      assert acc + toks == acc;
    } else {
      var h := FirstMatch(rules, s[p..], 0, 0).value;
      SuffixHit(rules, s, p, h);
      var q := p + h.len;
      var h' := FirstMatch(rules, s[q..], 0, 0).value;
      SuffixHit(rules, s, q, h');
      assert s[q..][1..] == s[q + 1..];
      TokenThenSpace(rules, s, p, acc, h, h', toks[0]);
      ScanStepsThrough(rules, s, q + 1, toks[1..], acc + [toks[0]]);
      ConsAppend(acc, toks);
    }
  }

  /** The rendering of recordable tokens, read with a table that reads back, steps through those tokens. */
  lemma {:induction false} RenderStepsThrough(rules: seq<Rule>, toks: seq<Token>)
    requires ReadsBack(rules) && forall t :: t in toks ==> Recordable(t)
    ensures StepsThrough(rules, Render(toks), toks)
    decreases |toks|
  {
    if toks != [] {
      var t, rest := toks[0], toks[1..];
      var r := Render(rest);
      assert forall x :: x in rest ==> x in toks;
      RenderOpensWithNonSpace(rest);
      assert TokenReadsBack(rules, t, r) && SpaceReadsBack(rules, r);
      TokenHit(rules, t, r, FirstMatch(rules, Spaced(t, r), 0, 0).value);
      SpaceHit(rules, r, FirstMatch(rules, Blank(r), 0, 0).value);
      RenderStepsThrough(rules, rest);
    }
  }

  /** Tokenizing the rendering of recordable tokens gives them back. */
  lemma RenderRoundTrip(toks: seq<Token>)
    requires forall t :: t in toks ==> Recordable(t)
    ensures Tokenize(Render(toks)) == Lexed(toks)
  {
    RulesReadBack();
    RenderStepsThrough(RULES, toks);
    assert Render(toks)[0..] == Render(toks);
    ScanStepsThrough(RULES, Render(toks), 0, toks, []);
  }
}
