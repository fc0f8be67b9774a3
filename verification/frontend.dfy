/**
 * The pipeline behind the "Análisis Sintáctico" button and the two global stores it
 * works on. `analisis_sintactico` empties the symbol table and runs the parser, which
 * pulls tokens from the lexer and fires the semantic actions as it reduces; the
 * three-address-code buffer is never emptied, so temporaries keep being numbered from
 * where the previous run stopped. `generar_codigo_tres_direcciones` joins the buffer
 * with newlines.
 *
 * `Compile` states the pipeline as a function of the source text and the stores;
 * `Compiler` is the same thing as an object whose fields the methods update in place.
 */
module FrontEnd {
  import opened Wrappers
  import opened Lexer
  import opened Syntax
  import opened Translate

  /** What the parser returns: the list of `('asignacion', id, valor)` nodes, or nothing
      after `p_error` reported the terminal it stopped at (None at the end of input). */
  datatype Outcome = Parsed(nodes: seq<AssignNode>) | SyntaxError(near: Option<Terminal>)

  /** The terminal `p_error` receives: the first one the parser could not use. */
  function Offending(rest: seq<Terminal>): Option<Terminal> {
    if rest == [] then None else Some(rest[0])
  }

  /** `analisis_sintactico` on source `src`: the table is emptied, the buffer and the
      earlier messages are kept, then the declaration is lexed, parsed and reduced. */
  function Compile(src: string, st: State): (r: (Outcome, seq<LexError>, State))
    ensures |st.code| <= |r.2.code| && r.2.code[..|st.code|] == st.code
    ensures |st.diags| <= |r.2.diags| && r.2.diags[..|st.diags|] == st.diags
    ensures r.0.SyntaxError? ==> r.2 == st.(table := map[])
    ensures r.0.Parsed? ==>
              |r.0.nodes| > 0
              && forall x :: x in r.2.table <==> exists k | 0 <= k < |r.0.nodes| :: r.0.nodes[k].id == x
  {
    var lexed := Lex(src);
    var cleared := st.(table := map[]);
    match Parse(lexed.tokens)
    case Err(rest) => (SyntaxError(Offending(rest)), lexed.errors, cleared)
    case Ok(d) =>
      var (nodes, st') := ExecDeclaration(d, cleared);
      DeclarationNodeIds(d, cleared);
      DeclarationTable(d, cleared);
      (Parsed(nodes), lexed.errors, st')
  }

  // ----- generar_codigo_tres_direcciones -----

  /** Python's `"\n".join(lines)`: one newline between consecutive lines. */
  function JoinLines(lines: seq<string>): string
  {
    if |lines| == 0 then ""
    else if |lines| == 1 then lines[0]
    else lines[0] + "\n" + JoinLines(lines[1..])
  }

  /** Lines that hold no newline are joined with exactly one fewer newline than there
      are lines. */
  lemma {:induction false} JoinedNewlines(lines: seq<string>)
    requires forall i | 0 <= i < |lines| :: '\n' !in lines[i]
    ensures multiset(JoinLines(lines))['\n'] == if |lines| == 0 then 0 else |lines| - 1
  {
    if |lines| > 1 {
      JoinedNewlines(lines[1..]);
      assert multiset(JoinLines(lines)) == multiset(lines[0]) + multiset("\n") + multiset(JoinLines(lines[1..]));
    }
  }

  function IndexOfNewline(s: string): (i: nat)
    requires '\n' in s
    ensures i < |s| && s[i] == '\n' && '\n' !in s[..i]
  {
    if s[0] == '\n' then 0 else 1 + IndexOfNewline(s[1..])
  }

  /** Python's `s.split("\n")`: the pieces between newlines, always at least one. */
  function SplitLines(s: string): (r: seq<string>)
    ensures |r| > 0
    decreases |s|
  {
    if '\n' !in s then [s]
    else
      var i := IndexOfNewline(s);
      [s[..i]] + SplitLines(s[i + 1..])
  }

  /** The joined listing gives back the buffer line by line: no line holds a newline. */
  lemma {:induction false} SplitJoinedLines(lines: seq<string>)
    requires |lines| > 0 && forall i | 0 <= i < |lines| :: '\n' !in lines[i]
    ensures SplitLines(JoinLines(lines)) == lines
  {
    if |lines| > 1 {
      var l := lines[0];
      var rest := JoinLines(lines[1..]);
      var s := l + "\n" + rest;
      assert s[..|l|] == l && s[|l|] == '\n';
      assert IndexOfNewline(s) == |l| by {
        NewlineAt(s, |l|);
      }
      assert s[|l| + 1..] == rest;
      SplitJoinedLines(lines[1..]);
    }
  }

  /** The first newline is found where it is. */
  lemma {:induction false} NewlineAt(s: string, i: nat)
    requires i < |s| && s[i] == '\n' && '\n' !in s[..i]
    ensures IndexOfNewline(s) == i
  {
    if i > 0 {
      assert s[0] == s[..i][0];
      assert s[1..][..i - 1] == s[..i][1..];
      NewlineAt(s[1..], i - 1);
    }
  }

  /** Joining the pieces of any text gives that text back. */
  lemma {:induction false} JoinSplitLines(s: string)
    ensures JoinLines(SplitLines(s)) == s
    decreases |s|
  {
    if '\n' in s {
      var i := IndexOfNewline(s);
      JoinSplitLines(s[i + 1..]);
      assert s == s[..i] + "\n" + s[i + 1..];
    }
  }

  // ----- Properties of the pipeline -----

  /** Every run keeps the stores valid, so the lines it adds are numbered on from the
      lines already there: line i of the buffer always defines `t{i}`. */
  lemma CompileKeepsValid(src: string, st: State)
    requires Valid(st)
    ensures Valid(Compile(src, st).2)
  {
    var cleared := st.(table := map[]);
    if Parse(Lex(src).tokens).Ok? {
      DeclarationKeepsValid(Parse(Lex(src).tokens).value, cleared);
    }
  }

  /** Because the table is emptied first, what a run reports and the table it leaves do
      not depend on the table it started from, only on how long the buffer already is. */
  lemma CompileForgetsTable(src: string, st1: State, st2: State)
    requires |st1.code| == |st2.code|
    ensures Compile(src, st1).0 == Compile(src, st2).0
    ensures Compile(src, st1).2.table == Compile(src, st2).2.table
    ensures |Compile(src, st1).2.code| == |Compile(src, st2).2.code|
  {
    if Parse(Lex(src).tokens).Ok? {
      DeclarationDependsOnTableAndLength(Parse(Lex(src).tokens).value, st1.(table := map[]), st2.(table := map[]));
    }
  }

  /** A source whose tokens spell a well-formed declaration is parsed back to that
      declaration, whose reductions then run on the stores with the table emptied. */
  lemma CompileRunsDeclaration(src: string, st: State, d: seq<Assignment>)
    requires WellFormed(d) && Terminals(Lex(src).tokens) == DeclarationTerminals(d)
    ensures var (nodes, st') := ExecDeclaration(d, st.(table := map[]));
            Compile(src, st) == (Parsed(nodes), Lex(src).errors, st')
  {
    DeclarationRoundTrip(d);
  }

  lemma ShortDeclarationRuns(st: State)
    ensures ExecDeclaration([Assignment(IntType, "x", Num(5))], st.(table := map[]))
            == ([AssignNode("x", VNum(5))],
                State(map["x" := Entry(IntType, VNum(5))], st.code + [Line(|st.code|, "5")], st.diags))
  {
    DeclarationOfOne(Assignment(IntType, "x", Num(5)), st.(table := map[]));
    assert Render(VNum(5)) == "5" by {
      SmallNumerals();
    }
  }

  lemma ShortDeclarationSpelled()
    ensures Terminals(Lex("int x = 5;").tokens) == DeclarationTerminals([Assignment(IntType, "x", Num(5))])
  {
    ShortDeclarationTerminals();
    assert DeclarationTerminals([Assignment(IntType, "x", Num(5))]) == [KwInt, Ident("x"), Equals, Number(5), Semicolon];
  }

  lemma ShortDeclarationTerminals()
    ensures Terminals(Lex("int x = 5;").tokens) == [KwInt, Ident("x"), Equals, Number(5), Semicolon]
  {
    var tokens := [Token(KwInt, 0), Token(Ident("x"), 4), Token(Equals, 6), Token(Number(5), 8), Token(Semicolon, 9)];
    ShortDeclarationLexes();
    assert Terminals(tokens) == [KwInt, Ident("x"), Equals, Number(5), Semicolon];
  }


  /** `int x = 5;` on any stores: the table ends up holding only `x -> (int, 5)` and one
      line `t{k} = 5` is appended, k the number of lines already there. */
  lemma ShortDeclarationCompiles(st: State)
    ensures Compile("int x = 5;", st)
            == (Parsed([AssignNode("x", VNum(5))]), [],
                State(map["x" := Entry(IntType, VNum(5))], st.code + [Line(|st.code|, "5")], st.diags))
  {
    ShortDeclarationLexes();
    ShortDeclarationSpelled();
    CompileRunsDeclaration("int x = 5;", st, [Assignment(IntType, "x", Num(5))]);
    ShortDeclarationRuns(st);
  }

  /** Running `int x = 5;` twice: the second run is not a redeclaration, because the
      table was emptied, and its line is numbered right after the first run's line. */
  lemma RerunContinuesNumbering(st: State)
    ensures var first := Compile("int x = 5;", st).2;
            var second := Compile("int x = 5;", first).2;
            second.table == first.table == map["x" := Entry(IntType, VNum(5))]
            && second.code == st.code + [Line(|st.code|, "5"), Line(|st.code| + 1, "5")]
            && second.diags == st.diags
  {
    ShortDeclarationCompiles(st);
    var first := Compile("int x = 5;", st).2;
    ShortDeclarationCompiles(first);
    assert first.code + [Line(|first.code|, "5")] == st.code + [Line(|st.code|, "5"), Line(|st.code| + 1, "5")];
  }

  // ----- The stores as an object -----

  /** The module-level state `tabla_simbolos` and `codigo_intermedio`, with the messages
      the actions print. */
  class Compiler {
    var table: map<string, Entry>
    var code: seq<string>
    var diags: seq<Diagnostic>

    function Snapshot(): State
      reads this
    {
      State(table, code, diags)
    }

    predicate Valid()
      reads this
    {
      Translate.Valid(Snapshot())
    }

    /** The stores as the program starts: both empty. */
    constructor ()
      ensures table == map[] && code == [] && diags == []
      ensures Valid()
    {
      table := map[];
      code := [];
      diags := [];
    }

    /** `generar_codigo_tres_direcciones`. */
    function ThreeAddressCode(): (s: string)
      reads this
      ensures Valid() && |code| > 0 ==> SplitLines(s) == code
      ensures |code| == 0 ==> s == ""
    {
      var s := JoinLines(code);
      if Valid() && |code| > 0 then SplitJoinedLines(code); s else s
    }

    /** `p_expresion_identificador`. */
    method ReduceIdentifier(x: string) returns (v: Value)
      modifies this
      ensures (v, Snapshot()) == Translate.ReduceIdentifier(x, old(Snapshot()))
      ensures old(Valid()) ==> Valid() && RefersBelow(v, |code|)
    {
      if x in table {
        v := table[x].value;
      } else {
        v := Undefined;
        diags := diags + [Undeclared(x)];
      }
    }

    /** `p_expresion_operacion`. */
    method ReduceBinary(op: Op, l: Value, r: Value) returns (v: Value)
      modifies this
      ensures (v, Snapshot()) == Translate.ReduceBinary(op, l, r, old(Snapshot()))
      ensures old(Valid()) ==> Valid() && RefersBelow(v, |code|)
    {
      if Valid() {
        BinaryKeepsValid(op, l, r, Snapshot());
      }
      var k := |code|;
      code := code + [Line(k, Render(l) + " " + OpText(op) + " " + Render(r))];
      v := VTemp(k);
    }

    /** `p_asignacion`. */
    method ReduceAssignment(ty: TypeName, x: string, v: Value) returns (node: AssignNode)
      modifies this
      ensures (node, Snapshot()) == Translate.ReduceAssignment(ty, x, v, old(Snapshot()))
      ensures old(Valid()) && RefersBelow(v, old(|code|)) ==> Valid()
    {
      if Valid() && RefersBelow(v, |code|) {
        AssignmentKeepsValid(ty, x, v, Snapshot());
      }
      if x in table {
        diags := diags + [Redeclared(x)];
      } else {
        table := table[x := Entry(ty, v)];
      }
      code := code + [Line(|code|, Render(v))];
      node := AssignNode(x, v);
    }

    /** The reductions of one expression, operands first. */
    method EvaluateExpr(e: Expr) returns (v: Value)
      modifies this
      ensures (v, Snapshot()) == Eval(e, old(Snapshot()))
      ensures old(Valid()) ==> Valid() && RefersBelow(v, |code|)
      decreases e
    {
      if Valid() {
        EvalKeepsValid(e, Snapshot());
      }
      match e
      case Num(n) =>
        v := VNum(n);
      case Id(x) =>
        v := ReduceIdentifier(x);
      case Bin(op, l, r) =>
        var vl := EvaluateExpr(l);
        var vr := EvaluateExpr(r);
        v := ReduceBinary(op, vl, vr);
    }

    /** The reductions of a declaration's assignments, one after the other. */
    method RunDeclaration(d: seq<Assignment>) returns (nodes: seq<AssignNode>)
      modifies this
      ensures (nodes, Snapshot()) == ExecDeclaration(d, old(Snapshot()))
      ensures old(Valid()) ==> Valid()
    {
      if Valid() {
        DeclarationKeepsValid(d, Snapshot());
      }
      nodes := [];
      var i := 0;
      while i < |d|
        invariant i <= |d|
        invariant (nodes, Snapshot()) == ExecDeclaration(d[..i], old(Snapshot()))
      {
        assert d[..i + 1][..i] == d[..i];
        var v := EvaluateExpr(d[i].rhs);
        var node := ReduceAssignment(d[i].ty, d[i].id, v);
        nodes := nodes + [node];
        i := i + 1;
      }
      assert d[..i] == d;
    }

    /** `analisis_sintactico`: empty the table, then lex, parse and reduce. */
    method Analyze(src: string) returns (outcome: Outcome, lexErrors: seq<LexError>)
      modifies this
      ensures (outcome, lexErrors, Snapshot()) == Compile(src, old(Snapshot()))
      ensures old(Valid()) ==> Valid()
    {
      if Valid() {
        CompileKeepsValid(src, Snapshot());
      }
      table := map[];
      var tokens;
      tokens, lexErrors := Tokenize(src);
      match Parse(tokens)
      case Err(rest) =>
        outcome := SyntaxError(Offending(rest));
      case Ok(d) =>
        var nodes := RunDeclaration(d);
        outcome := Parsed(nodes);
    }
  }
}
