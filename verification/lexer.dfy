/**
 * The lexer of the front end (the `t_*` rules, `t_ignore` and `t_error`).
 *
 * At each position the lexer first drops one ignored character (space, tab,
 * newline); otherwise it tries its rules in a fixed order and the FIRST rule
 * whose pattern matches there wins, not the longest match: the five keyword
 * rules `if`, `for`, `int`, `string`, `char` (in that order), then a quoted
 * character literal, then an identifier, then a digit run, then the one-character
 * operators and punctuation. When no rule matches, the character is reported
 * and skipped, and lexing goes on.
 */
module Lexer {
  import opened Wrappers
  import opened Numerals

  /** A token's kind together with its value. */
  datatype Terminal =
    | Ident(name: string)        // IDENTIFICADOR
    | Number(value: nat)         // NUMERO, value converted by int()
    | CharLit(text: string)      // CARACTER, both quotes kept in the text
    | Plus                       // SUMA
    | Minus                      // RESTA
    | Times                      // MULTIPLICA
    | Slash                      // DIVIDE
    | LParen                     // PARENTESIS_IZQ
    | RParen                     // PARENTESIS_DER
    | Equals                     // IGUAL
    | Semicolon                  // PUNTOYCOMA
    | Comma                      // COMA
    | KwIf | KwFor | KwInt | KwString | KwChar

  /** A token and the index in the input of its first character (PLY's `lexpos`). */
  datatype Token = Token(terminal: Terminal, pos: nat)

  /** The message `t_error` prints: the character that no rule matched. */
  datatype LexError = Unrecognized(c: char, pos: nat)

  datatype Scanned = Scanned(tokens: seq<Token>, errors: seq<LexError>)

  predicate IsIgnored(c: char) {
    c == ' ' || c == '\t' || c == '\n'
  }

  predicate IsIdentStart(c: char) {
    'a' <= c <= 'z' || 'A' <= c <= 'Z' || c == '_'
  }

  predicate IsIdentChar(c: char) {
    IsIdentStart(c) || IsDigit(c)
  }

  predicate IsNotQuote(c: char) {
    c != '\''
  }

  predicate HasPrefixAt(src: string, i: nat, w: string) {
    i + |w| <= |src| && src[i..i + |w|] == w
  }

  predicate IsKeyword(w: string) {
    w == "if" || w == "for" || w == "int" || w == "string" || w == "char"
  }

  function KeywordTerminal(w: string): Terminal
    requires IsKeyword(w)
  {
    if w == "if" then KwIf
    else if w == "for" then KwFor
    else if w == "int" then KwInt
    else if w == "string" then KwString
    else KwChar
  }

  /** The one-character rules `t_SUMA` ... `t_COMA`. */
  function OperatorTerminal(c: char): Option<Terminal> {
    match c
    case '+' => Some(Plus)
    case '-' => Some(Minus)
    case '*' => Some(Times)
    case '/' => Some(Slash)
    case '=' => Some(Equals)
    case '(' => Some(LParen)
    case ')' => Some(RParen)
    case ';' => Some(Semicolon)
    case ',' => Some(Comma)
    case _ => None
  }

  /** The text of a terminal whose text is fixed by its kind. */
  function FixedText(t: Terminal): string
    requires !t.Ident? && !t.Number? && !t.CharLit?
  {
    match t
    case Plus => "+"
    case Minus => "-"
    case Times => "*"
    case Slash => "/"
    case LParen => "("
    case RParen => ")"
    case Equals => "="
    case Semicolon => ";"
    case Comma => ","
    case KwIf => "if"
    case KwFor => "for"
    case KwInt => "int"
    case KwString => "string"
    case KwChar => "char"
  }

  /** `s` is the source text of a token with terminal `t`. */
  predicate Spells(t: Terminal, s: string) {
    if t.Number? then |s| > 0 && AllDigits(s) && DigitsValue(s) == t.value
    else if t.Ident? then
      s == t.name && |s| > 0 && IsIdentStart(s[0]) && forall m | 0 <= m < |s| :: IsIdentChar(s[m])
    else if t.CharLit? then
      s == t.text && |s| >= 2 && s[0] == '\'' && s[|s| - 1] == '\''
      && forall m | 0 < m < |s| - 1 :: s[m] != '\''
    else s == FixedText(t)
  }

  /** The end of the longest run of characters satisfying `p` that starts at `j`. */
  function SpanEnd(src: string, j: nat, p: char -> bool): (k: nat)
    requires j <= |src|
    ensures j <= k <= |src|
    ensures forall m | j <= m < k :: p(src[m])
    ensures k == |src| || !p(src[k])
    decreases |src| - j
  {
    if j < |src| && p(src[j]) then SpanEnd(src, j + 1, p) else j
  }

  /** Some rule matches at `i`: the character starts an identifier or a number, is an
      operator or punctuation, or is a quote closed later in the input. (Keywords start
      with letters, so they are covered.) */
  predicate Recognised(src: string, i: nat)
    requires i < |src|
  {
    IsIdentStart(src[i]) || IsDigit(src[i]) || OperatorTerminal(src[i]).Some?
    || (src[i] == '\'' && exists k | i < k < |src| :: src[k] == '\'')
  }

  /** The keyword rules `t_IF`, `t_FOR`, `t_INT`, `t_STRING`, `t_CHAR`, in that order.
      Each pattern is the bare word, so it also matches the start of a longer word. */
  function MatchKeyword(src: string, i: nat): (r: Option<(Terminal, nat)>)
    requires i < |src|
    ensures r.None? ==> forall k | i < k <= |src| :: !IsKeyword(src[i..k])
    ensures r.Some? ==> i < r.value.1 <= |src| && IsKeyword(src[i..r.value.1])
                        && r.value.0 == KeywordTerminal(src[i..r.value.1])
                        && Spells(r.value.0, src[i..r.value.1])
  {
    if HasPrefixAt(src, i, "if") then Some((KwIf, i + 2))
    else if HasPrefixAt(src, i, "for") then Some((KwFor, i + 3))
    else if HasPrefixAt(src, i, "int") then Some((KwInt, i + 3))
    else if HasPrefixAt(src, i, "string") then Some((KwString, i + 6))
    else if HasPrefixAt(src, i, "char") then Some((KwChar, i + 4))
    else
      NoKeywordStarts(src, i);
      None
  }

  lemma NoKeywordStarts(src: string, i: nat)
    requires i < |src|
    requires !HasPrefixAt(src, i, "if") && !HasPrefixAt(src, i, "for") && !HasPrefixAt(src, i, "int")
    requires !HasPrefixAt(src, i, "string") && !HasPrefixAt(src, i, "char")
    ensures forall k | i < k <= |src| :: !IsKeyword(src[i..k])
  {
  }

  /** `t_CARACTER`: a quote, any run of non-quotes, a quote. */
  function MatchCharLit(src: string, i: nat): (r: Option<(Terminal, nat)>)
    requires i < |src|
    ensures r.None? ==> src[i] != '\'' || forall q | i < q < |src| :: src[q] != '\''
    ensures r.Some? ==> src[i] == '\'' && i + 1 < r.value.1 <= |src| && r.value.0 == CharLit(src[i..r.value.1])
                        && src[r.value.1 - 1] == '\'' && (forall m | i < m < r.value.1 - 1 :: src[m] != '\'')
                        && Spells(r.value.0, src[i..r.value.1])
  {
    if src[i] == '\'' && SpanEnd(src, i + 1, IsNotQuote) < |src| then
      var k := SpanEnd(src, i + 1, IsNotQuote);
      Some((CharLit(src[i..k + 1]), k + 1))
    else None
  }

  /** `t_IDENTIFICADOR`: a letter or underscore, then letters, digits and underscores. */
  function MatchIdent(src: string, i: nat): (r: Option<(Terminal, nat)>)
    requires i < |src|
    ensures r.Some? <==> IsIdentStart(src[i])
    ensures r.Some? ==> i < r.value.1 <= |src| && r.value.0 == Ident(src[i..r.value.1])
                        && (r.value.1 == |src| || !IsIdentChar(src[r.value.1]))
                        && Spells(r.value.0, src[i..r.value.1])
  {
    if IsIdentStart(src[i]) then
      var k := SpanEnd(src, i + 1, IsIdentChar);
      Some((Ident(src[i..k]), k))
    else None
  }

  /** `t_NUMERO`: a run of digits, converted by `int()`. */
  function MatchNumber(src: string, i: nat): (r: Option<(Terminal, nat)>)
    requires i < |src|
    ensures r.Some? <==> IsDigit(src[i])
    ensures r.Some? ==> i < r.value.1 <= |src| && r.value.0.Number?
                        && (r.value.1 == |src| || !IsDigit(src[r.value.1]))
                        && Spells(r.value.0, src[i..r.value.1])
  {
    if IsDigit(src[i]) then
      var k := SpanEnd(src, i + 1, IsDigit);
      Some((Number(DigitsValue(src[i..k])), k))
    else None
  }

  /** The one-character rules. */
  function MatchOperator(src: string, i: nat): (r: Option<(Terminal, nat)>)
    requires i < |src|
    ensures r.Some? <==> OperatorTerminal(src[i]).Some?
    ensures r.Some? ==> r.value.1 == i + 1 && OperatorTerminal(src[i]) == Some(r.value.0)
                        && Spells(r.value.0, src[i..r.value.1])
  {
    match OperatorTerminal(src[i])
    case Some(t) => Some((t, i + 1))
    case None => None
  }

  /** The first rule that matches at `i`, with the index just past its match. */
  function Scan(src: string, i: nat): (r: Option<(Terminal, nat)>)
    requires i < |src|
    ensures r.Some? ==> i < r.value.1 <= |src| && Spells(r.value.0, src[i..r.value.1])
  {
    if MatchKeyword(src, i).Some? then MatchKeyword(src, i)
    else if MatchCharLit(src, i).Some? then MatchCharLit(src, i)
    else if MatchIdent(src, i).Some? then MatchIdent(src, i)
    else if MatchNumber(src, i).Some? then MatchNumber(src, i)
    else MatchOperator(src, i)
  }

  predicate Increasing(ts: seq<Token>) {
    forall a, b | 0 <= a < b < |ts| :: ts[a].pos < ts[b].pos
  }

  /** The tokens and messages the lexer produces for `src[i..]`. Every token starts at a
      character that is not ignored, positions increase, and every message names an
      unignored character at which no rule matches. */
  function LexFrom(src: string, i: nat): (r: Scanned)
    requires i <= |src|
    ensures Increasing(r.tokens)
    ensures forall k | 0 <= k < |r.tokens| ::
              i <= r.tokens[k].pos < |src| && !IsIgnored(src[r.tokens[k].pos])
    ensures forall k | 0 <= k < |r.errors| ::
              i <= r.errors[k].pos < |src| && r.errors[k].c == src[r.errors[k].pos]
              && !IsIgnored(r.errors[k].c) && Scan(src, r.errors[k].pos).None?
    decreases |src| - i
  {
    if i == |src| then Scanned([], [])
    else if IsIgnored(src[i]) then LexFrom(src, i + 1)
    else match Scan(src, i)
      case Some((t, j)) =>
        var rest := LexFrom(src, j);
        Scanned([Token(t, i)] + rest.tokens, rest.errors)
      case None =>
        var rest := LexFrom(src, i + 1);
        Scanned(rest.tokens, [Unrecognized(src[i], i)] + rest.errors)
  }

  /** The whole input: tokens in order of position, each at an unignored character of
      the source (`LexedTokensAreScanned` says which terminal each one is). */
  function Lex(src: string): (r: Scanned)
    ensures Increasing(r.tokens)
    ensures forall k | 0 <= k < |r.tokens| :: r.tokens[k].pos < |src| && !IsIgnored(src[r.tokens[k].pos])
  {
    LexFrom(src, 0)
  }

  /** The scanning loop that PLY runs as the parser pulls tokens. */
  method Tokenize(src: string) returns (tokens: seq<Token>, errors: seq<LexError>)
    ensures Scanned(tokens, errors) == Lex(src)
  {
    tokens, errors := [], [];
    var i := 0;
    while i < |src|
      invariant i <= |src|
      invariant Lex(src) == Scanned(tokens + LexFrom(src, i).tokens, errors + LexFrom(src, i).errors)
      decreases |src| - i
    {
      if IsIgnored(src[i]) {
        SkipIgnored(src, i);
        i := i + 1;
      } else {
        var m := Scan(src, i);
        if m.Some? {
          var (t, j) := m.value;
          assert tokens + LexFrom(src, i).tokens == (tokens + [Token(t, i)]) + LexFrom(src, j).tokens
                 && LexFrom(src, i).errors == LexFrom(src, j).errors by {
            TokenStep(src, i, t, j);
            AppendAssoc(tokens, [Token(t, i)], LexFrom(src, j).tokens);
          }
          tokens := tokens + [Token(t, i)];
          i := j;
        } else {
          var e := Unrecognized(src[i], i);
          assert errors + LexFrom(src, i).errors == (errors + [e]) + LexFrom(src, i + 1).errors
                 && LexFrom(src, i).tokens == LexFrom(src, i + 1).tokens by {
            ErrorStep(src, i);
            AppendAssoc(errors, [e], LexFrom(src, i + 1).errors);
          }
          errors := errors + [e];
          i := i + 1;
        }
      }
    }
  }


  // ----- Properties of the rules -----

  /** A reserved word wins over the identifier rule at the start of ANY text, so an
      identifier that begins with a reserved word is split: the keyword first. */
  lemma KeywordRuleWins(w: string, rest: string)
    requires IsKeyword(w)
    ensures Scan(w + rest, 0) == Some((KeywordTerminal(w), |w|))
  {
    assert (w + rest)[..|w|] == w;
    KeywordRuleWinsAt(w + rest, 0, w);
  }

  /** The same at any position: wherever a reserved word starts, the keyword rule wins
      over the identifier rule, so the second `int` of `int a = 1, int b = 2;` is INT. */
  lemma KeywordRuleWinsAt(src: string, i: nat, w: string)
    requires IsKeyword(w) && i < |src| && HasPrefixAt(src, i, w)
    ensures Scan(src, i) == Some((KeywordTerminal(w), i + |w|))
  {
    assert src[i..i + |w|] == w;
    assert src[i] == w[0] && src[i + 1] == w[1];
    if w == "for" {
      FirstCharMismatch(src, i, "if");
    } else if w == "int" {
      SecondCharMismatch(src, i, "if");
      FirstCharMismatch(src, i, "for");
    } else if w == "string" {
      FirstCharMismatch(src, i, "if");
      FirstCharMismatch(src, i, "for");
      FirstCharMismatch(src, i, "int");
    } else if w == "char" {
      FirstCharMismatch(src, i, "if");
      FirstCharMismatch(src, i, "for");
      FirstCharMismatch(src, i, "int");
      FirstCharMismatch(src, i, "string");
    }
  }

  lemma SecondCharMismatch(src: string, i: nat, w: string)
    requires i + 1 < |src| && |w| > 1 && src[i + 1] != w[1]
    ensures !HasPrefixAt(src, i, w)
  {
  }

  lemma FirstCharMismatch(src: string, i: nat, w: string)
    requires i < |src| && |w| > 0 && src[i] != w[0]
    ensures !HasPrefixAt(src, i, w)
  {
  }

  /** Reserved words start with letters, so none starts at a character that cannot start
      an identifier. */
  lemma NoKeywordAt(src: string, i: nat)
    requires i < |src| && !IsIdentStart(src[i])
    ensures !HasPrefixAt(src, i, "if") && !HasPrefixAt(src, i, "for") && !HasPrefixAt(src, i, "int")
    ensures !HasPrefixAt(src, i, "string") && !HasPrefixAt(src, i, "char")
  {
    FirstCharMismatch(src, i, "if");
    FirstCharMismatch(src, i, "for");
    FirstCharMismatch(src, i, "int");
    FirstCharMismatch(src, i, "string");
    FirstCharMismatch(src, i, "char");
  }

  /** When no reserved word starts at `i`, a letter or underscore starts an identifier
      that runs as far as identifier characters go. */
  lemma IdentifierIsMaximalRun(src: string, i: nat)
    requires i < |src| && IsIdentStart(src[i])
    requires !HasPrefixAt(src, i, "if") && !HasPrefixAt(src, i, "for") && !HasPrefixAt(src, i, "int")
    requires !HasPrefixAt(src, i, "string") && !HasPrefixAt(src, i, "char")
    ensures Scan(src, i).Some?
    ensures var (t, k) := Scan(src, i).value;
            t == Ident(src[i..k])
            && (forall m | i <= m < k :: IsIdentChar(src[m]))
            && (k == |src| || !IsIdentChar(src[k]))
  {
  }

  /** A digit starts a NUMERO token that takes the whole run of digits, whose value is
      the number the run denotes: `12` is one token, never `1` then `2`. */
  lemma NumberIsMaximalRun(src: string, i: nat)
    requires i < |src| && IsDigit(src[i])
    ensures Scan(src, i).Some?
    ensures var (t, k) := Scan(src, i).value;
            i < k <= |src| && (forall m | i <= m < k :: IsDigit(src[m]))
            && (k == |src| || !IsDigit(src[k]))
            && t == Number(DigitsValue(src[i..k]))
  {
    NoKeywordAt(src, i);
  }

  /** No rule matches exactly when the character is not `Recognised`. */
  lemma ScanFailsIffUnrecognised(src: string, i: nat)
    requires i < |src|
    ensures Scan(src, i).None? <==> !Recognised(src, i)
  {
    if src[i] == '\'' {
      QuoteScan(src, i);
    } else {
      UnquotedScan(src, i);
    }
  }

  /** At a quote only the character-literal rule can match, and it matches when the
      quote is closed later on. */
  lemma QuoteScan(src: string, i: nat)
    requires i < |src| && src[i] == '\''
    ensures Scan(src, i).Some? <==> exists q | i < q < |src| :: src[q] == '\''
  {
    NoKeywordAt(src, i);
    var k := SpanEnd(src, i + 1, IsNotQuote);
    if exists q | i < q < |src| :: src[q] == '\'' {
      var q :| i < q < |src| && src[q] == '\'';
      assert k <= q;
    }
  }

  lemma UnquotedScan(src: string, i: nat)
    requires i < |src| && src[i] != '\''
    ensures Scan(src, i).Some? <==> IsIdentStart(src[i]) || IsDigit(src[i]) || OperatorTerminal(src[i]).Some?
  {
    if !IsIdentStart(src[i]) {
      NoKeywordAt(src, i);
    }
  }

  /** An unrecognised character yields one message and no token, and lexing resumes at
      the very next character: it is never fatal. */
  lemma UnrecognisedSkipsOne(src: string, i: nat)
    requires i < |src| && !IsIgnored(src[i]) && !Recognised(src, i)
    ensures LexFrom(src, i).tokens == LexFrom(src, i + 1).tokens
    ensures LexFrom(src, i).errors == [Unrecognized(src[i], i)] + LexFrom(src, i + 1).errors
  {
    ScanFailsIffUnrecognised(src, i);
  }

  /** One step of the lexer at a character where the first matching rule gives `t`
      and ends at `j`: the token, then whatever lexing from `j` gives. */
  lemma TokenStep(src: string, i: nat, t: Terminal, j: nat)
    requires i < |src| && !IsIgnored(src[i])
    requires Scan(src, i).Some? && Scan(src, i).value.0 == t && Scan(src, i).value.1 == j
    ensures LexFrom(src, i) == Scanned([Token(t, i)] + LexFrom(src, j).tokens, LexFrom(src, j).errors)
  {
  }

  /** A character literal is a quote, then characters other than a quote, then the
      first quote after it; both quotes stay in the token. */
  lemma CharLiteralToFirstClosingQuote(src: string, i: nat, q: nat)
    requires i < q < |src| && src[i] == '\'' && src[q] == '\''
    requires forall m | i < m < q :: src[m] != '\''
    ensures Scan(src, i) == Some((CharLit(src[i..q + 1]), q + 1))
  {
    NoKeywordAt(src, i);
    var k := SpanEnd(src, i + 1, IsNotQuote);
    assert k == q;
  }

  /** Text made only of spaces, tabs and newlines yields neither tokens nor messages. */
  lemma {:induction false} IgnoredOnlyYieldsNothing(src: string, i: nat)
    requires i <= |src|
    requires forall m | i <= m < |src| :: IsIgnored(src[m])
    ensures LexFrom(src, i) == Scanned([], [])
    decreases |src| - i
  {
    if i < |src| {
      IgnoredOnlyYieldsNothing(src, i + 1);
    }
  }

  lemma SpanToEnd(src: string, j: nat, p: char -> bool)
    requires j <= |src|
    requires forall m | j <= m < |src| :: p(src[m])
    ensures SpanEnd(src, j, p) == |src|
  {
  }

  /** A written natural number lexes back to one NUMERO token with that value. */
  lemma NumeralLexesToItsValue(n: nat)
    ensures Lex(NatToString(n)) == Scanned([Token(Number(n), 0)], [])
  {
    var s := NatToString(n);
    SpanToEnd(s, 1, IsDigit);
    assert s[0..|s|] == s;
    DigitsValueOfNatToString(n);
    NoKeywordAt(s, 0);
    assert Scan(s, 0) == Some((Number(n), |s|));
    assert LexFrom(s, |s|) == Scanned([], []);
  }

  /** Every token of the whole input is what the first matching rule produces where the
      token starts. */
  lemma LexedTokensAreScanned(src: string)
    ensures forall k | 0 <= k < |Lex(src).tokens| ::
              var t := Lex(src).tokens[k];
              t.pos < |src| && Scan(src, t.pos).Some? && Scan(src, t.pos).value.0 == t.terminal
  {
    TokensComeFromScan(src, 0);
  }

  /** Each token, lexing from any index, is exactly what the first matching rule
      produced at its position. */
  lemma {:induction false} TokensComeFromScan(src: string, i: nat)
    requires i <= |src|
    ensures forall k | 0 <= k < |LexFrom(src, i).tokens| ::
              var t := LexFrom(src, i).tokens[k];
              Scan(src, t.pos).Some? && Scan(src, t.pos).value.0 == t.terminal
    decreases |src| - i
  {
    if i < |src| {
      if IsIgnored(src[i]) {
        TokensComeFromScan(src, i + 1);
      } else if Scan(src, i).Some? {
        TokensComeFromScan(src, Scan(src, i).value.1);
      } else {
        TokensComeFromScan(src, i + 1);
      }
    }
  }

  // ----- Worked inputs -----

  /** The exact word `int` is the INT keyword. */
  lemma ExactIntIsKeyword()
    ensures Lex("int") == Scanned([Token(KwInt, 0)], [])
  {
    KeywordRuleWins("int", "");
    assert "int" + "" == "int";
  }

  lemma IntegerScans()
    ensures Scan("integer", 0) == Some((KwInt, 3))
    ensures Scan("integer", 3) == Some((Ident("eger"), 7))
  {
    var s := "integer";
    assert Scan(s, 0) == Some((KwInt, 3)) by {
      KeywordRuleWins("int", "eger");
      assert "int" + "eger" == s;
    }
    FirstCharMismatch(s, 3, "if");
    FirstCharMismatch(s, 3, "for");
    FirstCharMismatch(s, 3, "int");
    FirstCharMismatch(s, 3, "string");
    FirstCharMismatch(s, 3, "char");
    SpanToEnd(s, 4, IsIdentChar);
    assert s[3..7] == "eger";
  }

  /** `integer` is the INT keyword followed by the identifier `eger`. */
  lemma IntegerSplitsAfterKeyword()
    ensures Lex("integer") == Scanned([Token(KwInt, 0), Token(Ident("eger"), 3)], [])
  {
    var s := "integer";
    IntegerScans();
    assert LexFrom(s, 3) == Scanned([Token(Ident("eger"), 3)], []) by {
      TokenStep(s, 3, Ident("eger"), 7);
    }
    TokenStep(s, 0, KwInt, 3);
    assert [Token(KwInt, 0)] + [Token(Ident("eger"), 3)] == [Token(KwInt, 0), Token(Ident("eger"), 3)];
  }

  lemma ShortDeclarationKeyword()
    ensures Scan("int x = 5;", 0) == Some((KwInt, 3))
  {
    KeywordRuleWins("int", " x = 5;");
    assert "int" + " x = 5;" == "int x = 5;";
  }

  lemma ShortDeclarationIdent()
    ensures Scan("int x = 5;", 4) == Some((Ident("x"), 5))
  {
    var s := "int x = 5;";
    FirstCharMismatch(s, 4, "if");
    FirstCharMismatch(s, 4, "for");
    FirstCharMismatch(s, 4, "int");
    FirstCharMismatch(s, 4, "string");
    FirstCharMismatch(s, 4, "char");
    assert s[4..5] == "x";
  }

  lemma ShortDeclarationSymbols()
    ensures Scan("int x = 5;", 6) == Some((Equals, 7))
    ensures Scan("int x = 5;", 8) == Some((Number(5), 9))
    ensures Scan("int x = 5;", 9) == Some((Semicolon, 10))
  {
    var s := "int x = 5;";
    NoKeywordAt(s, 6);
    NoKeywordAt(s, 9);
    assert Scan(s, 8) == Some((Number(5), 9)) by {
      NoKeywordAt(s, 8);
      assert s[8..9] == "5";
      assert DigitsValue("5") == 5;
    }
  }

  /** The part after the identifier: `= 5;`. */
  lemma ShortDeclarationTail()
    ensures LexFrom("int x = 5;", 5) == Scanned([Token(Equals, 6), Token(Number(5), 8), Token(Semicolon, 9)], [])
  {
    var s := "int x = 5;";
    ShortDeclarationSymbols();
    var t9 := [Token(Semicolon, 9)];
    var t8 := [Token(Number(5), 8)] + t9;
    assert LexFrom(s, 9) == Scanned(t9, []) by {
      TokenStep(s, 9, Semicolon, 10);
    }
    assert LexFrom(s, 7) == Scanned(t8, []) by {
      TokenStep(s, 8, Number(5), 9);
      SkipIgnored(s, 7);
    }
    SkipIgnored(s, 5);
    TokenStep(s, 6, Equals, 7);
    assert [Token(Equals, 6)] + t8 == [Token(Equals, 6), Token(Number(5), 8), Token(Semicolon, 9)];
  }

  /** The part after the keyword: ` x = 5;`. */
  lemma ShortDeclarationAfterKeyword()
    ensures LexFrom("int x = 5;", 3)
            == Scanned([Token(Ident("x"), 4), Token(Equals, 6), Token(Number(5), 8), Token(Semicolon, 9)], [])
  {
    ShortDeclarationFromIdent();
    SkipIgnored("int x = 5;", 3);
  }

  lemma ShortDeclarationFromIdent()
    ensures LexFrom("int x = 5;", 4)
            == Scanned([Token(Ident("x"), 4), Token(Equals, 6), Token(Number(5), 8), Token(Semicolon, 9)], [])
  {
    var s := "int x = 5;";
    var tail := [Token(Equals, 6), Token(Number(5), 8), Token(Semicolon, 9)];
    assert LexFrom(s, 4) == Scanned([Token(Ident("x"), 4)] + LexFrom(s, 5).tokens, LexFrom(s, 5).errors) by {
      ShortDeclarationIdent();
      TokenStep(s, 4, Ident("x"), 5);
    }
    ShortDeclarationTail();
    assert [Token(Ident("x"), 4)] + tail
           == [Token(Ident("x"), 4), Token(Equals, 6), Token(Number(5), 8), Token(Semicolon, 9)];
  }


  lemma AppendAssoc<T>(a: seq<T>, b: seq<T>, c: seq<T>)
    ensures a + (b + c) == (a + b) + c
  {
  }

  lemma ErrorStep(src: string, i: nat)
    requires i < |src| && !IsIgnored(src[i]) && Scan(src, i).None?
    ensures LexFrom(src, i) == Scanned(LexFrom(src, i + 1).tokens, [Unrecognized(src[i], i)] + LexFrom(src, i + 1).errors)
  {
  }

  lemma SkipIgnored(src: string, i: nat)
    requires i < |src| && IsIgnored(src[i])
    ensures LexFrom(src, i) == LexFrom(src, i + 1)
  {
  }


  /** `int x = 5;`: blanks are dropped and every other character or run is one token. */
  lemma ShortDeclarationLexes()
    ensures Lex("int x = 5;")
            == Scanned([Token(KwInt, 0), Token(Ident("x"), 4), Token(Equals, 6), Token(Number(5), 8),
                        Token(Semicolon, 9)], [])
  {
    var s := "int x = 5;";
    var after := [Token(Ident("x"), 4), Token(Equals, 6), Token(Number(5), 8), Token(Semicolon, 9)];
    ShortDeclarationKeyword();
    ShortDeclarationAfterKeyword();
    TokenStep(s, 0, KwInt, 3);
    assert [Token(KwInt, 0)] + after
           == [Token(KwInt, 0), Token(Ident("x"), 4), Token(Equals, 6), Token(Number(5), 8), Token(Semicolon, 9)];
  }
}
