/**
 * The expression tokenizer of the debugging monitor (expr.c): the Token
 * record, the file-level state `tokens[32]` / `nr_token`, `make_token`, and
 * the `expr` entry point, which tokenizes and then stops.
 *
 * `LexFrom` is the specification of the scan: it says which tokens a call
 * records and whether it succeeds.  `Tokenizer.MakeToken` is the loop the
 * source runs, proved to leave exactly those tokens in the array.
 */
module Expr {
  import opened Common
  import opened ExprRules

  /** `struct token`: its type and, for a number, the digits (at most 9, so `str[10]` holds them). */
  datatype Token = Token(kind: TokenType, str: string)

  /** Capacity of the static `tokens` array. */
  const NR_TOKENS: nat := 32

  /**
   * The tokens one accepted match appends, by the `switch` in `make_token`:
   * spaces are skipped, TK_EQ has no case and falls to `default`, a number
   * keeps its digits, and every other type is recorded with an empty string.
   */
  function Emit(kind: TokenType, lexeme: string): (r: seq<Token>)
    ensures |r| <= 1
    ensures r == [] <==> kind == NoType || kind == Eq
    ensures r != [] ==> r[0].kind == kind
  {
    match kind
    case NoType => []
    case Eq => []
    case Num => [Token(Num, lexeme)]
    case _ => [Token(kind, "")]
  }

  /** Outcome of a scan: all tokens recorded, or the position where no rule matched and the tokens recorded before it. */
  datatype LexResult =
    | Lexed(tokens: seq<Token>)
    | NoMatch(position: nat, tokens: seq<Token>)

  /**
   * The scan from position p with the rule table `rules`, `acc` being the
   * tokens recorded so far: try the rules in table order, take the first
   * that matches, advance past the match and record what it emits.
   */
  function LexFrom(rules: seq<Rule>, s: string, p: nat, acc: seq<Token>): (r: LexResult)
    requires WellFormed(rules) && p <= |s|
    ensures acc <= r.tokens
    ensures r.NoMatch? ==> p <= r.position < |s|
    decreases |s| - p
  {
    if p == |s| then Lexed(acc)
    else
      match FirstMatch(rules, s, p, 0)
      case None => NoMatch(p, acc)
      case Some(h) =>
        LexFrom(rules, s, p + h.len, acc + Emit(h.kind, s[p..p + h.len]))
  }

  /** The whole scan of one call with the table of expr.c, which starts with no tokens recorded. */
  function Tokenize(s: string): (r: LexResult)
    ensures r.NoMatch? ==> r.position < |s|
  {
    RulesWellFormed();
    LexFrom(RULES, s, 0, [])
  }

  /**
   * A scan resumed at p with `acc` recorded ends in `outcome`: the invariant
   * of the loop in `make_token`, relating what it has done to the whole scan.
   */
  ghost predicate Resumes(rules: seq<Rule>, s: string, p: nat, acc: seq<Token>, outcome: LexResult)
  {
    WellFormed(rules) && p <= |s| && LexFrom(rules, s, p, acc) == outcome
  }

  /**
   * One turn of the scan: the first matching rule decides what is recorded
   * and where the scan resumes, and the outcome of the scan stays the same.
   */
  lemma LexStep(rules: seq<Rule>, s: string, p: nat, acc: seq<Token>, h: Hit, outcome: LexResult)
    requires Resumes(rules, s, p, acc, outcome) && p < |s| && FirstMatch(rules, s, p, 0) == Some(h)
    ensures Resumes(rules, s, p + h.len, acc + Emit(h.kind, s[p..p + h.len]), outcome)
    ensures |acc| + |Emit(h.kind, s[p..p + h.len])| <= |outcome.tokens|
  {
  }

  /** The scan stops for good where no rule matches, keeping what it recorded before. */
  lemma LexStuck(rules: seq<Rule>, s: string, p: nat, acc: seq<Token>, outcome: LexResult)
    requires Resumes(rules, s, p, acc, outcome) && p < |s| && FirstMatch(rules, s, p, 0).None?
    ensures outcome == NoMatch(p, acc)
  {
  }

  /** The scan succeeds once it reaches the end of the input. */
  lemma LexDone(rules: seq<Rule>, s: string, acc: seq<Token>, outcome: LexResult)
    requires Resumes(rules, s, |s|, acc, outcome)
    ensures outcome == Lexed(acc)
  {
  }

  /**
   * The inner `for` of `make_token`: try the rules one by one and stop at
   * the first whose match begins at `position`; None when the loop runs to
   * the end of the table (`NR_REGEX`).
   */
  method TryRules(rules: seq<Rule>, e: string, position: nat) returns (hit: Option<Hit>)
    requires WellFormed(rules) && position <= |e|
    ensures hit == FirstMatch(rules, e, position, 0)
  {
    FirstMatchIsFirst(rules, e, position, 0);
    var i := 0;
    while i < |rules|
      invariant 0 <= i <= |rules|
      invariant forall j :: 0 <= j < i ==> MatchAt(rules[j].pattern, e, position).None?
    {
      var m := MatchAt(rules[i].pattern, e, position);
      if m.Some? {
        FirstMatchIsFirst(rules, e, position, i);
        return Some(Hit(i, rules[i].tokenType, m.value));
      }
      i := i + 1;
    }
    return None;
  }

  /** The static token buffer of expr.c and its fill count. */
  class Tokenizer {
    var tokens: array<Token>
    var nrToken: nat

    ghost predicate Valid()
      reads this
    {
      tokens.Length == NR_TOKENS && nrToken <= NR_TOKENS
    }

    /** The tokens recorded by the last call. */
    ghost function Recorded(): seq<Token>
      reads this, tokens
      requires Valid()
    {
      tokens[..nrToken]
    }

    /** The zero-initialised statics; the slots' initial contents are never read. */
    constructor ()
      ensures Valid() && fresh(tokens) && Recorded() == []
    {
      tokens := new Token[NR_TOKENS](_ => Token(NoType, ""));
      nrToken := 0;
    }

    /**
     * `make_token(e)`, where e holds the characters before the terminating
     * NUL.  The source never checks `nr_token < 32`, so a call that would
     * record a 33rd token writes past the array; callers must not make one.
     */
    method MakeToken(e: string) returns (ok: bool)
      requires Valid()
      requires '\0' !in e
      requires |Tokenize(e).tokens| <= NR_TOKENS
      modifies this`nrToken, tokens
      ensures Valid()
      ensures ok <==> Tokenize(e).Lexed?
      ensures Recorded() == Tokenize(e).tokens
      ensures forall k :: nrToken <= k < NR_TOKENS ==> tokens[k] == old(tokens[k])
    {
      nrToken := 0;
      RulesWellFormed();
      ok := Scan(RULES, e, Tokenize(e));
    }

    /**
     * The `while (e[position] != '\0')` loop of `make_token`, run from
     * position 0 with no tokens recorded and with the table `rules`;
     * `outcome` is the scan it carries out.
     */
    method Scan(rules: seq<Rule>, e: string, ghost outcome: LexResult) returns (ok: bool)
      requires Valid() && nrToken == 0
      requires Resumes(rules, e, 0, [], outcome) && |outcome.tokens| <= NR_TOKENS
      modifies this`nrToken, tokens
      ensures Valid()
      ensures ok <==> outcome.Lexed?
      ensures Recorded() == outcome.tokens
      ensures forall k :: nrToken <= k < NR_TOKENS ==> tokens[k] == old(tokens[k])
    {
      var position := 0;
      ghost var recorded: seq<Token> := [];
      while position < |e|
        invariant Valid() && position <= |e| && recorded == Recorded()
        invariant Resumes(rules, e, position, recorded, outcome)
        invariant forall k :: nrToken <= k < NR_TOKENS ==> tokens[k] == old(tokens[k])
        decreases |e| - position
      {
        var hit := TryRules(rules, e, position);
        if hit.None? {
          LexStuck(rules, e, position, recorded, outcome);
          return false;
        }
        var h := hit.value;
        var kind, lexeme := h.kind, e[position..position + h.len];
        LexStep(rules, e, position, recorded, h, outcome);
        Record(kind, lexeme);
        position, recorded := position + h.len, recorded + Emit(kind, lexeme);
      }
      LexDone(rules, e, recorded, outcome);
      return true;
    }

    /** The `switch` on the matched rule's token type. */
    method Record(kind: TokenType, lexeme: string)
      requires Valid() && nrToken + |Emit(kind, lexeme)| <= NR_TOKENS
      modifies this`nrToken, tokens
      ensures Valid()
      ensures Recorded() == old(Recorded()) + Emit(kind, lexeme)
      ensures forall k :: nrToken <= k < NR_TOKENS ==> tokens[k] == old(tokens[k])
    {
      match kind {
        case NoType =>
        case LParent => Append(Token(LParent, ""));
        case RParent => Append(Token(RParent, ""));
        case Mul => Append(Token(Mul, ""));
        case Div => Append(Token(Div, ""));
        case Plus => Append(Token(Plus, ""));
        case Sub => Append(Token(Sub, ""));
        case Num => Append(Token(Num, lexeme));
        case Eq =>  // no case for TK_EQ: `default: break;`
      }
    }

    /** `tokens[nr_token] = t; nr_token++;` */
    method Append(t: Token)
      requires Valid() && nrToken < NR_TOKENS
      modifies this`nrToken, tokens
      ensures Valid()
      ensures Recorded() == old(Recorded()) + [t]
      ensures forall k :: nrToken <= k < NR_TOKENS ==> tokens[k] == old(tokens[k])
    {
      tokens[nrToken] := t;
      nrToken := nrToken + 1;
    }

    /**
     * `expr(e, result)`: fails when tokenizing fails and, the evaluation
     * being left undone, also returns 0 (false) after a successful one;
     * `*result` is never written.
     */
    method Expr(e: string, result: Word) returns (success: bool, result': Word)
      requires Valid()
      requires '\0' !in e
      requires |Tokenize(e).tokens| <= NR_TOKENS
      modifies this`nrToken, tokens
      ensures Valid()
      ensures !success && result' == result
      ensures Recorded() == Tokenize(e).tokens
      ensures forall k :: nrToken <= k < NR_TOKENS ==> tokens[k] == old(tokens[k])
    {
      var ok := MakeToken(e);
      if !ok {
        return false, result;
      }
      return false, result;
    }
  }
}
