# NEMU debugger: expression tokenizer and register lookup

This project models two pieces of the simple debugger (`sdb`) of the NEMU
full-system emulator, in its riscv32 build:

- **The expression tokenizer** of `monitor/sdb/expr.c`. It has a table of
  nine lexical rules, tried in order: `(`, `)`, runs of spaces, `*`, `/`,
  `+`, `-`, `==` and a number of 1 to 9 digits. `make_token` walks the
  input from left to right. At each position it takes the first rule whose
  POSIX match starts exactly there and moves past that match. It then
  records a token in the static array `tokens[32]` and counts it in
  `nr_token`. Spaces record nothing, and neither does `==`, because
  `TK_EQ` has no `case` in the `switch`. If no rule matches, the call
  fails. `expr` tokenizes and then stops: the evaluator is still a TODO, so
  it returns 0 (false) either way.
- **The register-name lookup** `isa_reg_str2val` of `isa/riscv32/reg.c`.
  It searches the ABI name table (`$0`, `ra`, `sp`, …, `t6`) from the
  highest index down, over 16 registers in the embedded (RVE)
  configuration and 32 otherwise. On a hit it reads that register's value.

Layout:

- `common.dfy` (module `Common`): `Option`, and `Word`, the 32-bit
  `word_t` of riscv32.
- `expr_rules.dfy` (module `ExprRules`):
  - the token types and the rule table `RULES`;
  - what POSIX `regexec` reports for each pattern, written as character
    predicates: `Matches` is the declarative meaning and `MatchAt` the
    computed longest match;
  - `FirstMatch`, which tries the rules in table order.
- `expr.dfy` (module `Expr`):
  - `Token`;
  - the scan specification `LexFrom`, with its `Tokenize` wrapper;
  - the class `Tokenizer`, which holds the static `tokens` array and
    `nr_token`, and whose methods `MakeToken`, `Scan`, `Record`, `Append`
    and `Expr` are the loops and stores of the C code, proved against
    `Tokenize`;
  - `TryRules`, the inner `for` over the rule table.
- `expr_props.dfy` (module `ExprProps`): properties of the scan. They
  cover:
  - which rule wins;
  - where and why a scan fails;
  - how many tokens it can record;
  - the shape of every recorded token;
  - a round trip: tokens written out with single spaces are read back
    unchanged.
- `reg.dfy` (module `Reg`):
  - the name table `REGS`;
  - `LastIndexOf`, the specification of the search;
  - the search loop `SearchDown` and the entry point `Str2Val`;
  - lemmas about the table.

Modelling choices:

- **Input string.** The C string is modelled as the characters before its
  terminating NUL, so `MakeToken` requires `'\0' !in e`. `while
  (e[position] != '\0')` becomes `position < |e|`.
- **Word boundaries.** `regexec` runs on `e + position`, so a match cannot
  see the characters before `position`, and the start of that suffix counts
  as a non-word position for `\b`. Word characters are those of the C
  locale: ASCII letters, digits and `_`.
- **Number matches.** A number match must start at `position`, and POSIX
  takes the longest match, so the number rule accepts only a whole digit
  run of 1 to 9 digits that is followed by a non-word character or by the
  end of the input. A run of 10 or more digits, or a run followed by a
  letter or `_`, makes the call fail there.
- **Rule table as a parameter.** The scan lemmas take the table as a
  parameter `rules` with `WellFormed(rules)`. `Tokenize` and `MakeToken`
  instantiate it with `RULES`. `MakeToken` resets `nr_token` and hands the
  `while` loop to `Scan`, which is proved against the ghost outcome
  `Tokenize(e)`.
- **Register lookup.** A null `name` is `None`. The out-pointer `value` is
  modelled as the old value passed in plus the new value returned.
  `reg_name(i)` is `REGS[i]`, and `gpr(i)` is `gpr[i]` of an array
  argument that the lookup only reads: it has no `modifies` clause.

## Model

| member | source | states |
|---|---|---|
| ExprRules.MatchAtIsLongest | ics2024/nemu/src/monitor/sdb/expr.c:53-61 | a rule's reported match at a position is a match of its pattern beginning there and the longest one; None means the pattern has no match beginning there (POSIX leftmost-longest with `rm_so == 0`) |
| ExprRules.NumberMatchesOnlyFullRun | ics2024/nemu/src/monitor/sdb/expr.c:61 | `\b[0-9]{1,9}\b` can only match the whole digit run starting at the position |
| ExprRules.MatchAt | ics2024/nemu/src/monitor/sdb/expr.c:111 | a reported match stays inside the input and, for a pattern that cannot match the empty string, takes at least one character; `MatchAtIsLongest` shows that it is the longest match beginning at the position |
| ExprRules.SpanIsLongestRun | ics2024/nemu/src/monitor/sdb/expr.c:55 | the run measured for ` +` and `[0-9]` holds only such characters and ends at the end of input or at another character |
| ExprRules.RulesWellFormed | ics2024/nemu/src/monitor/sdb/expr.c:53-61 | every rule of the table consumes at least one character when it matches |
| ExprRules.FirstMatch | ics2024/nemu/src/monitor/sdb/expr.c:109-119 | an accepted match belongs to a rule of the table, carries that rule's token type, is at least one character long and stays inside the input |
| ExprRules.FirstMatchIsFirst | ics2024/nemu/src/monitor/sdb/expr.c:109-111 | the chosen rule matches, and every earlier rule does not: the first matching rule wins, not the longest match; None means that no rule matches |
| Expr.Emit | ics2024/nemu/src/monitor/sdb/expr.c:126-177 | one match records at most one token, of the matched rule's type, and records nothing exactly for spaces and `==`; `MatchRecords` and `EmitText` give the recorded string |
| Expr.LexFrom | ics2024/nemu/src/monitor/sdb/expr.c:106-188 | a scan only appends to the tokens already recorded, which stay a prefix of its result; a failing scan stops inside the input, at or after where it started |
| Expr.Tokenize | ics2024/nemu/src/monitor/sdb/expr.c:97-191 | a failed tokenization stops at a position inside the input; `Tokenizer.MakeToken` ties the outcome to the token array, and `RenderRoundTrip` shows that it reads back rendered tokens |
| Expr.LexStep | ics2024/nemu/src/monitor/sdb/expr.c:111-177 | after a match, the scan resumes past it with that match's tokens appended and still ends the same way |
| Expr.LexStuck | ics2024/nemu/src/monitor/sdb/expr.c:183-187 | where no rule matches, the scan fails at that position with the tokens recorded so far |
| Expr.LexDone | ics2024/nemu/src/monitor/sdb/expr.c:106 | a scan that reaches the terminating NUL succeeds with the tokens recorded so far |
| Expr.TryRules | ics2024/nemu/src/monitor/sdb/expr.c:109-181 | the inner loop returns exactly the first rule, in table order, that matches at the position, or none |
| Expr.Tokenizer.constructor | ics2024/nemu/src/monitor/sdb/expr.c:94-95 | the buffer has 32 slots and no token is recorded |
| Expr.Tokenizer.MakeToken | ics2024/nemu/src/monitor/sdb/expr.c:97-191 | returns true iff the whole input is tokenized; the array then holds exactly the tokens of this input (`nr_token` reset to 0 first), and slots past `nr_token` are untouched |
| Expr.Tokenizer.Scan | ics2024/nemu/src/monitor/sdb/expr.c:106-190 | the `while` loop records exactly the scan's tokens and returns false exactly when the scan fails |
| Expr.Tokenizer.Record | ics2024/nemu/src/monitor/sdb/expr.c:126-177 | the `switch` appends what the matched type emits: nothing for spaces and `==`, the digits for a number, an empty string for the other types |
| Expr.Tokenizer.Append | ics2024/nemu/src/monitor/sdb/expr.c:134-135 | stores a token in the next free slot and counts it, leaving the earlier tokens and the later slots unchanged |
| Expr.Tokenizer.Expr | ics2024/nemu/src/monitor/sdb/expr.c:193-204 | always returns false and never writes the result, having tokenized the input: the array holds exactly the input's tokens, and slots past `nr_token` are untouched |
| ExprProps.MatchAtSeesSuffix | ics2024/nemu/src/monitor/sdb/expr.c:111 | a pattern matches at a position of the input exactly as it does at the same place of any suffix starting at or before that position |
| ExprProps.FirstMatchSeesSuffix | ics2024/nemu/src/monitor/sdb/expr.c:111 | the rule chosen at a position depends only on the suffix from that position on |
| ExprProps.RulesExclusive | ics2024/nemu/src/monitor/sdb/expr.c:53-61 | no two rules of the table match at the same position |
| ExprProps.OnlyMatchWins | ics2024/nemu/src/monitor/sdb/expr.c:109-111 | a rule that matches at a position is the one chosen there, with its own match length |
| ExprProps.StuckWhereNoRuleMatches | ics2024/nemu/src/monitor/sdb/expr.c:183-187 | no rule matches at the position where a failed scan stops |
| ExprProps.TokenCountBound | ics2024/nemu/src/monitor/sdb/expr.c:119-175 | a scan records at most one token per remaining input character |
| ExprProps.ShortInputFits | ics2024/nemu/src/monitor/sdb/expr.c:94 | an input of at most 32 characters never records more than 32 tokens |
| ExprProps.HitRecordable | ics2024/nemu/src/monitor/sdb/expr.c:168-174 | one match records only well-formed tokens: no space or `==` token, and a number of 1 to 9 digits that fits `str[10]` |
| ExprProps.MatchRecords | ics2024/nemu/src/monitor/sdb/expr.c:126-177 | a match of the space rule or the `==` rule records nothing; a match of any other rule records exactly one token of that rule's type, a number with the matched digits and the others with an empty string |
| ExprProps.ScanRecordsRecordable | ics2024/nemu/src/monitor/sdb/expr.c:88-92 | every token a scan records, whether it succeeds or fails, is well formed |
| ExprProps.TokenizeRecordsRecordable | ics2024/nemu/src/monitor/sdb/expr.c:91 | every token `make_token` leaves in the array is well formed, so a number's digits always fit `str[10]` |
| ExprProps.MatchStaysInAlphabet | ics2024/nemu/src/monitor/sdb/expr.c:53-61 | a match consists only of characters that its pattern can match |
| ExprProps.ScanMeetsNoForeign | ics2024/nemu/src/monitor/sdb/expr.c:106-188 | a scan that succeeds never meets a character that no rule can match |
| ExprProps.NonLexicalIsForeign | ics2024/nemu/src/monitor/sdb/expr.c:53-61 | a character other than a digit or one of `( ) * / + - = space` is matched by no rule, e.g. a letter or a tab |
| ExprProps.ForeignCharRejected | ics2024/nemu/src/monitor/sdb/expr.c:183-187 | an input containing such a character fails to tokenize |
| ExprProps.BadDigitRunMatchesNoRule | ics2024/nemu/src/monitor/sdb/expr.c:61 | at a digit run longer than 9, or one followed by a letter or `_`, no rule matches |
| ExprProps.BadDigitRunRejected | ics2024/nemu/src/monitor/sdb/expr.c:183-187 | a scan reaching such a digit run fails at its first digit |
| ExprProps.RuleIndex | ics2024/nemu/src/monitor/sdb/expr.c:53-61 | every token type has a rule of the table that produces it |
| ExprProps.EmitText | ics2024/nemu/src/monitor/sdb/expr.c:132-174 | recording a well-formed token's text gives back that token |
| ExprProps.TextMatches | ics2024/nemu/src/monitor/sdb/expr.c:53-61 | a well-formed token's rule matches exactly its text when a space follows |
| ExprProps.SpaceMatches | ics2024/nemu/src/monitor/sdb/expr.c:55 | the space rule takes exactly one space when a non-space follows |
| ExprProps.RulesReadBack | ics2024/nemu/src/monitor/sdb/expr.c:53-61 | under the table, a token's text followed by a space is read as that token, and a lone space is skipped |
| ExprProps.TokenHit | ics2024/nemu/src/monitor/sdb/expr.c:111-174 | when the chosen match at a token's text followed by a space has the token's type and length, it records exactly that token and leaves the space and the rest (`RulesReadBack` shows that the table's chosen match has that type and length) |
| ExprProps.SpaceHit | ics2024/nemu/src/monitor/sdb/expr.c:128-131 | when the chosen match at a space followed by more text is a one-character match of the space type, it records nothing and leaves the rest (`RulesReadBack` shows that the table's chosen match is one) |
| ExprProps.SuffixHit | ics2024/nemu/src/monitor/sdb/expr.c:111-114 | the rule chosen at the start of the rest of the input is the one chosen at that position, with the same matched text |
| ExprProps.TokenStep | ics2024/nemu/src/monitor/sdb/expr.c:119-175 | a match that records a token moves the scan past the match with that token appended |
| ExprProps.SpaceStep | ics2024/nemu/src/monitor/sdb/expr.c:119-131 | a one-character match that records nothing moves the scan one character on, recording nothing |
| ExprProps.TokenThenSpace | ics2024/nemu/src/monitor/sdb/expr.c:106-177 | a token match followed by a one-character match that records nothing moves the scan past both, appending only the token |
| ExprProps.ScanStepsThrough | ics2024/nemu/src/monitor/sdb/expr.c:106-190 | a scan whose remaining text alternates between matches that record the given tokens and one-character matches that record nothing succeeds with exactly those tokens |
| ExprProps.RenderStepsThrough | ics2024/nemu/src/monitor/sdb/expr.c:106-190 | text made of well-formed tokens, each followed by one space, is scanned token by token |
| ExprProps.RenderRoundTrip | ics2024/nemu/src/monitor/sdb/expr.c:97-191 | tokenizing well-formed tokens written out with single spaces gives back exactly those tokens |
| Reg.NrRegs | ics2024/nemu/src/isa/riscv32/reg.c:68 | the lookup covers 16 registers under RVE and all 32 otherwise |
| Reg.LastIndexOf | ics2024/nemu/src/isa/riscv32/reg.c:70-77 | the index found is the largest one below the bound whose name is the one sought; None iff no name below the bound matches |
| Reg.SearchDown | ics2024/nemu/src/isa/riscv32/reg.c:68-84 | the downward loop succeeds iff a name matches, and then reads the register at the largest matching index; otherwise the value is unchanged |
| Reg.Str2Val | ics2024/nemu/src/isa/riscv32/reg.c:58-85 | a null name gives false; for a name without NUL characters (the characters before its terminator), the lookup returns true iff the name is among the covered registers, with that register's value, and leaves the value unchanged when it fails; registers are only read |
| Reg.RegNamesDistinct | ics2024/nemu/src/isa/riscv32/reg.c:26-27 | no two registers share a name |
| Reg.NameFindsItsRegister | ics2024/nemu/src/isa/riscv32/reg.c:26-27 | each covered register is found by its own name, at its own index |
| Reg.UpperNamesMissingUnderRve | ics2024/nemu/src/isa/riscv32/reg.c:68 | under RVE the names of registers 16 to 31 (`a6` to `t6`) are not found |

## Left out

- Expr.Tokenizer.MakeToken: requires that the input yield at most 32 tokens. The source never checks `nr_token < 32`, so a longer input would write past `tokens[32]`, which is undefined behaviour in C. `ShortInputFits` shows that inputs of at most 32 characters always satisfy this precondition.
- Regex compilation (`init_regex`, `regcomp`, and the `panic` when compilation fails): each pattern's POSIX matching is written out directly as character predicates.
- The C library's locale: `\b` is modelled with the C locale's word characters.
- `numlen_check`: it runs a regex and falls off its end without returning a value, so its result is undefined.
- Logging and diagnostics: the `Log` of every match and the `printf` of the error caret.
- Evaluation of expressions: `expr` leaves it as a TODO, so there is no evaluator to model.
- `isa_reg_display`: output formatting with `asprintf`, `realloc` and `printf`.
- The `sdb` command handlers and their I/O, the x86 banner logo, and the toy programs outside the emulator.
- `local-include/reg.h` (`reg_name`, `gpr` and `check_reg_idx`) is not part of this model. Its accessors are modelled as the name table and a register array.
- The initial contents of the token slots: every slot starts as a space-type token with an empty string. The source zero-fills the slots, and it never reads a slot it has not written.
- Concrete tokenizations of sample strings are not stated as lemmas. The properties above are stated for all inputs instead.
