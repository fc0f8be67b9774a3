# A verified model of the CompiladorMejorado front end

`CompiladorMejorado.py` is a small compiler for one statement of the form
`type id = expr (, type id = expr)* ;`. It is built on PLY, with a tkinter window around it.
This project models its front end in Dafny and proves properties of the model:

- **Lexer** (`Lexer`, `lexer.dfy`). At each position one space, tab or newline is dropped.
  Otherwise the function rules are tried in the order they are defined, then the
  one-character string rules, and the first rule that matches wins:
  1. the keyword patterns `if`, `for`, `int`, `string`, `char`;
  2. the quoted character literal;
  3. the identifier;
  4. the digit run;
  5. the one-character operators and punctuation.

  A character that no rule matches is reported and skipped, and lexing continues.
  `Tokenize` is the scanning loop; `LexFrom`/`Lex` specify it.
- **Grammar** (`Syntax`, `syntax.dfy`). The assignments of a declaration are abstract-syntax
  trees. The precedence table makes `+ -` and `* /` left-associative and makes `* /` bind
  tighter. Together with the ambiguous `expresion` rule, this admits exactly the trees
  satisfying `IsExpr`. A precedence-climbing parser over the tokens' terminals stands in
  for the LALR tables. It is proved to be the inverse of writing a well-formed tree out
  as terminals, in both directions.
- **Semantic actions** (`Translate`, `translate.dfy`). The actions run as the parser
  reduces. They are written as functions over the two global stores, the symbol table
  `tabla_simbolos` and the three-address-code buffer `codigo_intermedio`, plus the
  semantic messages the actions print:
  - a binary expression appends `t{k} = l op r`, where k is the buffer's length, and its
    value is `t{k}`;
  - a number's value is the number;
  - an identifier's value is its stored value, or None (printed `None`) with a message
    when it is undeclared;
  - an assignment inserts `id -> (type, value)` only when `id` is absent, reports a
    redeclaration otherwise, and appends `t{k} = value` in both cases.
- **Pipeline** (`FrontEnd`, `frontend.dfy`).
  - `Compile` is `analisis_sintactico`: it empties the table only, then lexes, parses and
    reduces. Temporaries therefore keep their numbering across runs.
  - `JoinLines` is `generar_codigo_tres_direcciones`.
  - The class `Compiler` holds the stores as fields. Its methods update them in place,
    one per reduction, plus `Analyze`, and each method is proved equal to the functions
    above.

Behaviour that follows the code as written:

- **Keywords are not matched as whole words.** The keyword rules are bare words tried
  before the identifier rule. A word that begins with a reserved word is split:
  `integer` lexes as `INT` followed by the identifier `eger`, not as the single
  identifier one would expect. The model follows the code (`IntegerSplitsAfterKeyword`).
- **Some tokens can only cause a syntax error.** `PARENTESIS_IZQ`, `PARENTESIS_DER`, `IF`,
  `FOR` and `CARACTER` are lexed, but no production uses them.
- **The table stores the expression's value, never the copy line's temporary.** The
  value is a number, a temporary or None. The temporary of the assignment's own copy line
  is never referred to again (`SumAssignmentCode`: `int x = 2 + 3;` stores `t0`, and the
  copy line is `t1 = t0`).

## Model

| member | source | states |
|---|---|---|
| Numerals.NatToString | CompiladorMejorado.py:103-104 | `str(n)` is a non-empty run of digits with no leading zero |
| Numerals.DigitsValueOfNatToString | CompiladorMejorado.py:60-63 | reading a written number back with `int()` gives the number |
| Numerals.NatToStringInjective | CompiladorMejorado.py:103 | distinct numbers are written differently |
| Lexer.MatchKeyword | CompiladorMejorado.py:32-50 | the keyword rules, in order: a match's text is a reserved word and the token is that word's keyword; no match means no reserved word starts there |
| Lexer.KeywordRuleWinsAt | CompiladorMejorado.py:32-58 | at any position where a reserved word starts, the first matching rule produces that keyword's token and consumes exactly the word |
| Lexer.MatchCharLit | CompiladorMejorado.py:52-54 | a match starts at a quote, runs over non-quotes to the next quote, and is a CARACTER token whose text keeps both quotes; no match means no quote there or no later quote |
| Lexer.MatchIdent | CompiladorMejorado.py:56-58 | a match exists exactly at a letter or underscore; it is the IDENTIFICADOR token of the longest run of letters, digits and underscores |
| Lexer.MatchNumber | CompiladorMejorado.py:60-63 | a match exists exactly at a digit; it is a NUMERO token over the longest digit run, valued as the number the run denotes |
| Lexer.NumberIsMaximalRun | CompiladorMejorado.py:60-63 | at a digit the first matching rule is the number rule, over the longest digit run, with the value of that run |
| Lexer.MatchOperator | CompiladorMejorado.py:22-30 | a match exists exactly at an operator or punctuation character; it consumes that one character and gives its token |
| Lexer.Scan | CompiladorMejorado.py:22-63 | the first matching rule consumes a non-empty span whose text spells the token produced (a number's digits, an identifier's name, a literal's text, or the fixed text of the other kinds) |
| Lexer.LexFrom | CompiladorMejorado.py:65-69 | token positions strictly increase and never fall on an ignored character; every message names an unignored character at which no rule matches |
| Lexer.Lex | CompiladorMejorado.py:65-69 | the tokens of the whole input come in increasing position order, each at an unignored character of the input |
| Lexer.LexedTokensAreScanned | CompiladorMejorado.py:22-69 | every token of the whole input is what the first matching rule produces where the token starts |
| Lexer.Tokenize | CompiladorMejorado.py:65-69 | the scanning loop produces exactly the tokens and messages of `Lex` |
| Lexer.KeywordRuleWins | CompiladorMejorado.py:32-58 | at the start of any text that begins with a reserved word, that keyword's token is produced, whatever follows |
| Lexer.NoKeywordAt | CompiladorMejorado.py:32-50 | no keyword rule matches at a character that cannot start an identifier |
| Lexer.IdentifierIsMaximalRun | CompiladorMejorado.py:56-58 | with no keyword at the position, a letter starts an identifier that extends over the longest run of identifier characters |
| Lexer.ScanFailsIffUnrecognised | CompiladorMejorado.py:22-63 | no rule matches exactly when the character is not a letter, digit, operator or a quote closed later |
| Lexer.QuoteScan | CompiladorMejorado.py:52-54 | at a quote a rule matches if and only if a closing quote follows |
| Lexer.UnquotedScan | CompiladorMejorado.py:22-63 | away from a quote a rule matches if and only if the character starts an identifier or number or is an operator |
| Lexer.UnrecognisedSkipsOne | CompiladorMejorado.py:67-69 | an unrecognised character gives one message, no token, and lexing resumes at the next character |
| Lexer.CharLiteralToFirstClosingQuote | CompiladorMejorado.py:52-54 | a character literal runs from a quote to the first quote after it, both quotes kept |
| Lexer.IgnoredOnlyYieldsNothing | CompiladorMejorado.py:65 | spaces, tabs and newlines alone give neither tokens nor messages |
| Lexer.NumeralLexesToItsValue | CompiladorMejorado.py:60-63 | the numeral of any n lexes to a single NUMERO token of value n |
| Lexer.TokensComeFromScan | CompiladorMejorado.py:65-69 | every token is what the first matching rule produced at its position |
| Lexer.ExactIntIsKeyword | CompiladorMejorado.py:40-42 | the exact word `int` is one INT token |
| Lexer.IntegerScans | CompiladorMejorado.py:40-58 | in `integer` the INT rule matches at 0 and the identifier `eger` at 3 |
| Lexer.IntegerSplitsAfterKeyword | CompiladorMejorado.py:32-58 | `integer` lexes as INT followed by the identifier `eger` |
| Lexer.ShortDeclarationLexes | CompiladorMejorado.py:16-69 | `int x = 5;` lexes to five tokens at positions 0, 4, 6, 8, 9 with no messages: INT wins at 0 over the identifier rule, the blanks are skipped, and `x`, `=`, `5`, `;` are matched at 4, 6, 8, 9 |
| Syntax.ParseFactor | CompiladorMejorado.py:122-131 | a NUMERO or IDENTIFICADOR is a leaf whose writing-out is the terminal consumed; anything else is an error at that terminal |
| Syntax.TermTail | CompiladorMejorado.py:74-77 | extending a term with `* /` factors keeps it a left-grouped term and stops before any `* /`; an error is reported at a strictly shorter suffix of the input |
| Syntax.ParseTerm | CompiladorMejorado.py:74-77 | a parsed term is left-grouped, spells the input it consumed, and is not followed by `* /`; an error is reported at a suffix of the input |
| Syntax.ExprTail | CompiladorMejorado.py:74-77 | extending an expression with `+ -` terms keeps it well formed and stops before any operator; an error is reported at a strictly shorter suffix of the input |
| Syntax.ParseExpr | CompiladorMejorado.py:113-117 | a parsed expression is well formed, spells the input it consumed, and no operator follows it; an error is reported at a suffix of the input |
| Syntax.ParseType | CompiladorMejorado.py:107-111 | a type is accepted exactly at INT, STRING, CHAR and writes back to that keyword |
| Syntax.ParseAssignment | CompiladorMejorado.py:92-93 | a parsed assignment spells `tipo IDENTIFICADOR IGUAL expresion` of the input consumed; an error is reported at a suffix of the input |
| Syntax.ListTail | CompiladorMejorado.py:84-86 | appending `, asignacion` items keeps the list well formed and stops before a non-comma; an error is reported at a strictly shorter suffix of the input |
| Syntax.ParseList | CompiladorMejorado.py:84-90 | a parsed list is non-empty, well formed and spells the input it consumed; an error is reported at a suffix of the input |
| Syntax.ParseDeclaration | CompiladorMejorado.py:80-82 | a successful parse is a well-formed declaration that spells the whole input; an error reports a suffix of the input |
| Syntax.Parse | CompiladorMejorado.py:80-90 | over the lexer's tokens: a successful parse is a well-formed declaration whose writing-out is the tokens' terminals; an error is a suffix of those terminals |
| Syntax.Terminals | CompiladorMejorado.py:16-20 | the parser sees each token's kind and value in order |
| Syntax.FactorComplete | CompiladorMejorado.py:122-127 | a NUMERO or IDENTIFICADOR leaf parses back to itself |
| Syntax.TermSpine | CompiladorMejorado.py:74-77 | parsing a term's writing-out reduces to extending that term with what follows |
| Syntax.TermComplete | CompiladorMejorado.py:74-77 | a left-grouped term followed by no `* /` parses back to itself |
| Syntax.ExprSpine | CompiladorMejorado.py:74-77 | parsing an expression's writing-out reduces to extending that expression with what follows |
| Syntax.ExprComplete | CompiladorMejorado.py:113-117 | a well-formed expression followed by no operator parses back to itself, leaving exactly the rest |
| Syntax.AssignmentComplete | CompiladorMejorado.py:92-93 | a well-formed assignment parses back to itself |
| Syntax.ListSpine | CompiladorMejorado.py:84-90 | parsing a list's writing-out reduces to extending that list with what follows |
| Syntax.DeclarationRoundTrip | CompiladorMejorado.py:80-90 | a well-formed declaration written out as terminals parses back to itself |
| Syntax.ExprUnambiguous | CompiladorMejorado.py:74-77 | two well-formed expressions with the same terminals are the same tree |
| Syntax.SubtractionGroupsLeft | CompiladorMejorado.py:74-75 | `1 - 2 - 3` parses as `(1 - 2) - 3` |
| Syntax.ProductBindsTighter | CompiladorMejorado.py:74-77 | `1 + 2 * 3` parses as `1 + (2 * 3)` |
| Translate.TempName | CompiladorMejorado.py:118 | `f"t{k}"`; its properties are stated by `TempNameReadsBack` |
| Translate.Render | CompiladorMejorado.py:104 | `f"{valor}"` of a number, a temporary's name or None; its properties are stated by `RenderReadsBack` |
| Translate.Valid | CompiladorMejorado.py:103-104 | the numbering invariant: line i of the buffer starts with `t{i} = ` and holds no newline, and every temporary in the table is already defined; the `…KeepsValid` lemmas prove every reduction and run preserves it |
| Translate.TempNameReadsBack | CompiladorMejorado.py:118 | the name `t{k}` is `t` followed by digits that read back as k, with no newline |
| Translate.RenderReadsBack | CompiladorMejorado.py:104 | a number is printed as a numeral that reads back as the number; no value is printed with a newline |
| Translate.ReduceBinary | CompiladorMejorado.py:113-120 | the value is the temporary `t{k}`, k the buffer's length; the table and messages are unchanged, and the one line appended is `t{k} = l op r` |
| Translate.ReduceIdentifier | CompiladorMejorado.py:126-131 | the table and buffer are unchanged; a declared identifier gives its stored value with no message; an undeclared one gives None and one `no declarada` message |
| Translate.ReduceAssignment | CompiladorMejorado.py:92-105 | the node is `(id, value)`; an absent identifier is inserted with its type and value, a present one leaves the table as it was and adds one `ya declarada` message; in both cases the one line `t{k} = value` is appended, k the buffer's old length |
| Translate.Eval | CompiladorMejorado.py:113-131 | an expression's reductions leave the table alone, append exactly one line per binary operator, and only append messages |
| Translate.ExecAssignment | CompiladorMejorado.py:92-105 | the node names the assigned identifier, which is declared afterwards, and the buffer grows by one line per operator plus the copy line |
| Translate.ExecDeclaration | CompiladorMejorado.py:80-105 | a declaration gives one node per assignment and only appends lines and messages |
| Translate.LineIsNumbered | CompiladorMejorado.py:103-104 | the line for temporary k starts with `t{k} = ` |
| Translate.OneTempPerLine | CompiladorMejorado.py:103-104 | a line can start with `t{i} = ` and with `t{j} = ` only when i equals j |
| Translate.LinesDefineTheirOwnTemps | CompiladorMejorado.py:103-104 | in valid stores line i starts with `t{j} = ` exactly when j is i, so every temporary is defined by one line and no two lines are equal |
| Translate.AppendKeepsValid | CompiladorMejorado.py:103-104 | appending a line named after the buffer's length keeps line i defining `t{i}` |
| Translate.BinaryKeepsValid | CompiladorMejorado.py:113-120 | an operator reduction keeps the buffer numbered and its temporary is defined |
| Translate.AssignmentKeepsValid | CompiladorMejorado.py:92-105 | an assignment reduction keeps the buffer numbered and every temporary in the table defined |
| Translate.EvalKeepsValid | CompiladorMejorado.py:113-131 | an expression keeps the stores valid and its value names only a defined temporary |
| Translate.EvalValue | CompiladorMejorado.py:113-131 | binary: the last line's temporary; number: itself, nothing appended; identifier: its stored value, or None with a message and nothing appended |
| Translate.AssignmentTable | CompiladorMejorado.py:98-105 | the entry is inserted only when absent; a redeclaration keeps the entry and is reported; the stored value is never the copy line's temporary |
| Translate.AssignmentCode | CompiladorMejorado.py:103-104 | after the expression's lines exactly one line `t{k} = value` is appended and nothing earlier changes |
| Translate.ExecAssignmentKeepsValid | CompiladorMejorado.py:92-105 | one assignment keeps the stores valid |
| Translate.DeclarationKeepsValid | CompiladorMejorado.py:80-105 | a whole declaration keeps the stores valid |
| Translate.DeclarationPrefix | CompiladorMejorado.py:84-90 | the first m nodes of a declaration are those of its first m assignments alone, and node m is the next assignment run on the state they leave |
| Translate.AssignmentEntry | CompiladorMejorado.py:98-105 | the node names the identifier; the table changes only by inserting an absent identifier with the node's value |
| Translate.DeclarationNodeIds | CompiladorMejorado.py:84-90 | the nodes name the declaration's identifiers in source order |
| Translate.DeclarationTable | CompiladorMejorado.py:98-101 | existing entries are never changed, every assigned identifier ends up declared, and no other key is added |
| Translate.FirstDeclarationWins | CompiladorMejorado.py:98-101 | the first assignment to an undeclared identifier decides its entry |
| Translate.LaterSeesEarlier | CompiladorMejorado.py:126-129 | an assignment whose right-hand side is an identifier first declared by an earlier assignment of the same declaration gets that earlier assignment's value |
| Translate.EvalDependsOnTableAndLength | CompiladorMejorado.py:118-129 | an expression's value depends only on the table and the buffer's length |
| Translate.DeclarationDependsOnTableAndLength | CompiladorMejorado.py:92-131 | a declaration's nodes, final table and line count depend only on the starting table and buffer length |
| Translate.SubtractionChainCode | CompiladorMejorado.py:113-120 | `1 - 2 - 3` emits `t0 = 1 - 2`, `t1 = t0 - 3` |
| Translate.ProductFirstCode | CompiladorMejorado.py:113-120 | `1 + 2 * 3` emits `t0 = 2 * 3`, `t1 = 1 + t0` |
| Translate.SumAssignmentCode | CompiladorMejorado.py:92-105 | `int x = 2 + 3;` stores `x -> (int, t0)` and emits `t0 = 2 + 3`, `t1 = t0` |
| Translate.RedeclarationCode | CompiladorMejorado.py:98-104 | `int x = 1, int x = 2;` keeps `x -> (int, 1)`, reports `x`, and still emits `t1 = 2` |
| Translate.UndeclaredOperandCode | CompiladorMejorado.py:126-131 | an undeclared operand prints as `None` and is reported |
| FrontEnd.Compile | CompiladorMejorado.py:216-228 | a run only appends lines and messages; a syntax error leaves the emptied table; a parse gives a non-empty node list and a table whose keys are exactly the nodes' identifiers |
| FrontEnd.JoinLines | CompiladorMejorado.py:179-181 | `"\n".join(codigo_intermedio)`; its properties are stated by `JoinedNewlines` and `SplitJoinedLines` |
| FrontEnd.JoinedNewlines | CompiladorMejorado.py:179-181 | lines without newlines are joined with exactly one fewer newline than there are lines |
| FrontEnd.SplitJoinedLines | CompiladorMejorado.py:179-181 | splitting the joined listing at newlines gives back the lines |
| FrontEnd.JoinSplitLines | CompiladorMejorado.py:179-181 | joining the pieces of any text gives the text back |
| FrontEnd.CompileKeepsValid | CompiladorMejorado.py:216-221 | every run keeps line i of the buffer defining `t{i}` |
| FrontEnd.CompileForgetsTable | CompiladorMejorado.py:217-218 | what a run reports and the table it leaves do not depend on the table it started from |
| FrontEnd.CompileRunsDeclaration | CompiladorMejorado.py:216-221 | a source whose tokens spell a well-formed declaration runs exactly that declaration on the emptied table |
| FrontEnd.ShortDeclarationRuns | CompiladorMejorado.py:92-105 | the reductions of `int x = 5` store `x -> (int, 5)` and append `t{k} = 5` |
| FrontEnd.ShortDeclarationTerminals | CompiladorMejorado.py:16-69 | the tokens of `int x = 5;` have the terminals INT, IDENTIFICADOR `x`, IGUAL, NUMERO 5, PUNTOYCOMA |
| FrontEnd.ShortDeclarationSpelled | CompiladorMejorado.py:16-90 | the tokens of `int x = 5;` spell that one-assignment declaration |
| FrontEnd.ShortDeclarationCompiles | CompiladorMejorado.py:216-221 | `int x = 5;` on any stores leaves the table `{x: (int, 5)}` and appends `t{k} = 5` |
| FrontEnd.RerunContinuesNumbering | CompiladorMejorado.py:217-218 | running `int x = 5;` twice is no redeclaration, and the second line is numbered after the first |
| FrontEnd.Compiler.constructor | CompiladorMejorado.py:10-11 | both stores start empty, and valid |
| FrontEnd.Compiler.ThreeAddressCode | CompiladorMejorado.py:179-181 | the listing splits back into the buffer's lines, and is `""` for an empty buffer |
| FrontEnd.Compiler.ReduceIdentifier | CompiladorMejorado.py:126-131 | the in-place reduction equals `Translate.ReduceIdentifier` on the old stores; valid stores stay valid and the value names only a defined temporary |
| FrontEnd.Compiler.ReduceBinary | CompiladorMejorado.py:113-120 | the in-place reduction equals `Translate.ReduceBinary` on the old stores; valid stores stay valid and the new temporary is defined |
| FrontEnd.Compiler.ReduceAssignment | CompiladorMejorado.py:92-105 | the in-place reduction equals `Translate.ReduceAssignment` on the old stores; valid stores stay valid when the value names a defined temporary |
| FrontEnd.Compiler.EvaluateExpr | CompiladorMejorado.py:113-131 | the reductions of an expression, in place, equal `Eval` on the old stores; valid stores stay valid and the value names only a defined temporary |
| FrontEnd.Compiler.RunDeclaration | CompiladorMejorado.py:80-105 | the loop over the assignments equals `ExecDeclaration` on the old stores; valid stores stay valid |
| FrontEnd.Compiler.Analyze | CompiladorMejorado.py:216-228 | a run in place equals `Compile` on the old stores and keeps them valid |

## Left out

- The tkinter window `CompilerApp` (`CompiladorMejorado.py:183-249`) is not modelled: it only moves text between widgets. From it the model keeps only the table reset of `analisis_sintactico`.
- The `.strip()` of the window's text (lines 211 and 219) is not modelled. `Compile` takes the text as the lexer receives it. Spaces, tabs and newlines at the ends are ignored by the lexer anyway. `strip()` also removes `\r`, `\v`, `\f` and Unicode whitespace, which this lexer does not ignore, so for text with those at its ends the model reports lexer messages that the program would not.
- `generar_dfa`, `dibujar_arbol_sintaxis`, `transiciones` and `token_count` (lines 12-13 and 138-177) are not modelled. They render pictures with graphviz and start a viewer, and `transiciones` is never filled.
- PLY's table construction (`yacc.yacc()`) is not modelled. A precedence-climbing parser stands in for it. What is proved is that `ParseDeclaration` inverts `DeclarationTerminals` on well-formed trees (`WellFormed`/`IsExpr`), in both directions. That `IsExpr` is exactly the set of trees the precedence table allows is argued, not proved.
- The model builds the whole tree first and then runs the reductions, while PLY interleaves them with parsing. The actions never influence parsing, so for a successful parse the two orders give the same stores.
- Compile: on a syntax error the model stops at the first offending terminal and leaves the buffer unchanged. It therefore does not model two PLY behaviours:
  - PLY's error recovery after `p_error` returns. It discards tokens and restarts, so it can still return a result for a later suffix.
  - The reductions PLY already performed before it detected the error, which may have added lines and entries.
- Compiler.Analyze: the same limits as `Compile` on a syntax error.
- The `print` calls of `t_error`, `p_error` and the semantic actions are modelled as data, not output:
  - lexer messages are returned beside the tokens;
  - semantic messages are appended to a list in the stores;
  - the syntax error is reported as the result, with the offending terminal.

  The interleaving of lexer messages with the other messages is not modelled.
- `\d` in Python 3 also matches non-ASCII decimal digits. The model accepts only `0`-`9`.
- MatchNumber: `int(t.value)` (line 62) raises `ValueError` in current Python for a digit run longer than the interpreter's int/str conversion limit (4300 digits by default). That exception aborts the lexer and the parse: `analisis_sintactico` shows `Error: …` (lines 227-228), and `analisis_lexico` does not catch it. The model lexes a digit run of any length to one NUMERO token, so `NumberIsMaximalRun` and `NumeralLexesToItsValue` hold for every length.
- PLY's `lineno` is not modelled; no rule updates it. Each token keeps its index in the text.
- The insertion order of the symbol table is not modelled. It matters only when `mostrar_tabla_simbolos` lists the table. The table is a map.
