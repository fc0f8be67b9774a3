/**
 * The grammar of one declaration statement and its abstract syntax.
 *
 *   declaracion  : asignaciones PUNTOYCOMA
 *   asignaciones : asignaciones COMA asignacion | asignacion
 *   asignacion   : tipo IDENTIFICADOR IGUAL expresion
 *   tipo         : INT | STRING | CHAR
 *   expresion    : expresion (SUMA|RESTA|MULTIPLICA|DIVIDE) expresion | NUMERO | IDENTIFICADOR
 *
 * with `+ -` and `* /` both left-associative and `* /` binding tighter. The trees the
 * precedence declarations let through are exactly those satisfying `IsExpr`; the
 * parser below is proved to be the inverse of writing such a tree out as terminals.
 * Each parsing function takes the input still to be read and returns the tree with
 * the input left after it; a syntax error returns the input from the terminal at
 * which no continuation is possible (empty when the input ended too early).
 */
module Syntax {
  import opened Wrappers
  import opened Lexer

  /** `p_tipo` hands on the keyword's own text: 'int', 'string' or 'char'. */
  datatype TypeName = IntType | StringType | CharType

  datatype Op = Add | Sub | Mul | Div

  datatype Expr = Num(n: nat) | Id(name: string) | Bin(op: Op, left: Expr, right: Expr)

  datatype Assignment = Assignment(ty: TypeName, id: string, rhs: Expr)

  // ----- Trees that the precedence rules produce -----

  predicate IsFactor(e: Expr) {
    e.Num? || e.Id?
  }

  /** Products and quotients of factors, grouped to the left. */
  predicate IsTerm(e: Expr) {
    IsFactor(e) || (e.Bin? && (e.op == Mul || e.op == Div) && IsTerm(e.left) && IsFactor(e.right))
  }

  /** Sums and differences of terms, grouped to the left. */
  predicate IsExpr(e: Expr) {
    IsTerm(e) || (e.Bin? && (e.op == Add || e.op == Sub) && IsExpr(e.left) && IsTerm(e.right))
  }

  predicate WellFormed(d: seq<Assignment>) {
    |d| > 0 && forall k | 0 <= k < |d| :: IsExpr(d[k].rhs)
  }

  // ----- Writing trees out as terminals -----

  function OpTerminal(op: Op): Terminal {
    match op
    case Add => Plus
    case Sub => Minus
    case Mul => Times
    case Div => Slash
  }

  function TypeTerminal(ty: TypeName): Terminal {
    match ty
    case IntType => KwInt
    case StringType => KwString
    case CharType => KwChar
  }

  function ExprTerminals(e: Expr): seq<Terminal> {
    match e
    case Num(n) => [Number(n)]
    case Id(x) => [Ident(x)]
    case Bin(op, l, r) => ExprTerminals(l) + [OpTerminal(op)] + ExprTerminals(r)
  }

  function AssignmentTerminals(a: Assignment): seq<Terminal> {
    [TypeTerminal(a.ty), Ident(a.id), Equals] + ExprTerminals(a.rhs)
  }

  function ListTerminals(d: seq<Assignment>): seq<Terminal>
    requires |d| > 0
  {
    if |d| == 1 then AssignmentTerminals(d[0])
    else ListTerminals(d[..|d| - 1]) + [Comma] + AssignmentTerminals(d[|d| - 1])
  }

  function DeclarationTerminals(d: seq<Assignment>): seq<Terminal>
    requires |d| > 0
  {
    ListTerminals(d) + [Semicolon]
  }

  // ----- The parser -----

  predicate IsAddOp(t: Terminal) {
    t == Plus || t == Minus
  }

  predicate IsMulOp(t: Terminal) {
    t == Times || t == Slash
  }

  /** The input does not start with a `*` or `/` that would extend a term. */
  predicate EndsTerm(ts: seq<Terminal>) {
    ts == [] || !IsMulOp(ts[0])
  }

  /** The input does not start with an operator that would extend an expression. */
  predicate EndsExpr(ts: seq<Terminal>) {
    ts == [] || (!IsAddOp(ts[0]) && !IsMulOp(ts[0]))
  }

  function TerminalOp(t: Terminal): (op: Op)
    requires IsAddOp(t) || IsMulOp(t)
    ensures OpTerminal(op) == t
  {
    match t
    case Plus => Add
    case Minus => Sub
    case Times => Mul
    case Slash => Div
  }

  /** `Ok((tree, rest))`, or `Err(rest)` with `rest` starting at the offending terminal. */
  type Parsed<T> = Result<(T, seq<Terminal>), seq<Terminal>>

  /** `s` is what is left of `t` after some of its first terminals were read. */
  predicate IsSuffix(s: seq<Terminal>, t: seq<Terminal>)
    decreases |t|
  {
    if |s| == |t| then s == t else |s| < |t| && IsSuffix(s, t[1..])
  }

  lemma {:induction false} SuffixOfAppend(x: seq<Terminal>, y: seq<Terminal>)
    ensures IsSuffix(y, x + y)
    decreases |x|
  {
    if x != [] {
      assert (x + y)[1..] == x[1..] + y;
      SuffixOfAppend(x[1..], y);
    }
  }

  lemma {:induction false} SuffixTrans(a: seq<Terminal>, b: seq<Terminal>, c: seq<Terminal>)
    ensures IsSuffix(a, b) && IsSuffix(b, c) ==> IsSuffix(a, c)
    decreases |c|
  {
    if IsSuffix(a, b) && IsSuffix(b, c) && |b| < |c| {
      SuffixTrans(a, b, c[1..]);
    }
  }

  /** Regrouping of `x + [t] + y + z` (written left to right) as `x + ts` when the input
      `ts` is `[t]` followed by `y + z`. */
  lemma Regroup<T>(x: seq<T>, t: T, y: seq<T>, z: seq<T>, ts: seq<T>)
    requires ts != [] && ts[0] == t && ts[1..] == y + z
    ensures x + [t] + y + z == x + ts
  {
    assert ts == [t] + (y + z);
  }

  /** `expresion : NUMERO | IDENTIFICADOR` */
  function ParseFactor(ts: seq<Terminal>): (r: Parsed<Expr>)
    ensures r.Ok? ==> IsFactor(r.value.0) && ts == ExprTerminals(r.value.0) + r.value.1
    ensures r.Err? ==> r.error == ts
  {
    if ts != [] && ts[0].Number? then Ok((Num(ts[0].value), ts[1..]))
    else if ts != [] && ts[0].Ident? then Ok((Id(ts[0].name), ts[1..]))
    else Err(ts)
  }

  /** Extends the term `acc` with `* factor` and `/ factor` while they follow. */
  function TermTail(acc: Expr, ts: seq<Terminal>): (r: Parsed<Expr>)
    requires IsTerm(acc)
    ensures r.Ok? ==> IsTerm(r.value.0) && EndsTerm(r.value.1)
                      && ExprTerminals(r.value.0) + r.value.1 == ExprTerminals(acc) + ts
    ensures r.Err? ==> |r.error| < |ts| && IsSuffix(r.error, ts)
    decreases |ts|
  {
    if ts != [] && IsMulOp(ts[0]) then
      var f := ParseFactor(ts[1..]);
      SuffixOfAppend([ts[0]], ts[1..]);
      assert ts == [ts[0]] + ts[1..];
      if f.Err? then Err(f.error)
      else
        Regroup(ExprTerminals(acc), ts[0], ExprTerminals(f.value.0), f.value.1, ts);
        SuffixOfAppend(ExprTerminals(f.value.0), f.value.1);
        SuffixTrans(f.value.1, ts[1..], ts);
        var r := TermTail(Bin(TerminalOp(ts[0]), acc, f.value.0), f.value.1);
        SuffixTrans(if r.Err? then r.error else [], f.value.1, ts);
        r
    else Ok((acc, ts))
  }

  function ParseTerm(ts: seq<Terminal>): (r: Parsed<Expr>)
    ensures r.Ok? ==> IsTerm(r.value.0) && EndsTerm(r.value.1) && ts == ExprTerminals(r.value.0) + r.value.1
    ensures r.Err? ==> |r.error| <= |ts| && IsSuffix(r.error, ts)
  {
    var f := ParseFactor(ts);
    if f.Err? then Err(f.error)
    else
      SuffixOfAppend(ExprTerminals(f.value.0), f.value.1);
      var r := TermTail(f.value.0, f.value.1);
      SuffixTrans(if r.Err? then r.error else [], f.value.1, ts);
      r
  }

  /** Extends the expression `acc` with `+ term` and `- term` while they follow. */
  function ExprTail(acc: Expr, ts: seq<Terminal>): (r: Parsed<Expr>)
    requires IsExpr(acc) && EndsTerm(ts)
    ensures r.Ok? ==> IsExpr(r.value.0) && EndsExpr(r.value.1)
                      && ExprTerminals(r.value.0) + r.value.1 == ExprTerminals(acc) + ts
    ensures r.Err? ==> |r.error| < |ts| && IsSuffix(r.error, ts)
    decreases |ts|
  {
    if ts != [] && IsAddOp(ts[0]) then
      var t := ParseTerm(ts[1..]);
      SuffixOfAppend([ts[0]], ts[1..]);
      assert ts == [ts[0]] + ts[1..];
      if t.Err? then
        SuffixTrans(t.error, ts[1..], ts);
        Err(t.error)
      else
        Regroup(ExprTerminals(acc), ts[0], ExprTerminals(t.value.0), t.value.1, ts);
        SuffixOfAppend(ExprTerminals(t.value.0), t.value.1);
        SuffixTrans(t.value.1, ts[1..], ts);
        var r := ExprTail(Bin(TerminalOp(ts[0]), acc, t.value.0), t.value.1);
        SuffixTrans(if r.Err? then r.error else [], t.value.1, ts);
        r
    else Ok((acc, ts))
  }

  function ParseExpr(ts: seq<Terminal>): (r: Parsed<Expr>)
    ensures r.Ok? ==> IsExpr(r.value.0) && EndsExpr(r.value.1) && ts == ExprTerminals(r.value.0) + r.value.1
    ensures r.Err? ==> |r.error| <= |ts| && IsSuffix(r.error, ts)
  {
    var t := ParseTerm(ts);
    if t.Err? then Err(t.error)
    else
      SuffixOfAppend(ExprTerminals(t.value.0), t.value.1);
      var r := ExprTail(t.value.0, t.value.1);
      SuffixTrans(if r.Err? then r.error else [], t.value.1, ts);
      r
  }

  function ParseType(t: Terminal): (r: Option<TypeName>)
    ensures r.Some? <==> t in {KwInt, KwString, KwChar}
    ensures r.Some? ==> TypeTerminal(r.value) == t
  {
    match t
    case KwInt => Some(IntType)
    case KwString => Some(StringType)
    case KwChar => Some(CharType)
    case _ => None
  }

  /** `asignacion : tipo IDENTIFICADOR IGUAL expresion` */
  function ParseAssignment(ts: seq<Terminal>): (r: Parsed<Assignment>)
    ensures r.Ok? ==> IsExpr(r.value.0.rhs) && EndsExpr(r.value.1)
                      && ts == AssignmentTerminals(r.value.0) + r.value.1
    ensures r.Err? ==> |r.error| <= |ts| && IsSuffix(r.error, ts)
  {
    if ts == [] || ParseType(ts[0]).None? then Err(ts)
    else if |ts| == 1 || !ts[1].Ident? then Err(ts[1..])
    else if |ts| == 2 || ts[2] != Equals then Err(ts[2..])
    else
      var e := ParseExpr(ts[3..]);
      SuffixOfAppend(ts[..3], ts[3..]);
      assert ts == ts[..3] + ts[3..];
      if e.Err? then
        SuffixTrans(e.error, ts[3..], ts);
        Err(e.error)
      else
        var a := Assignment(ParseType(ts[0]).value, ts[1].name, e.value.0);
        var head := [TypeTerminal(a.ty), Ident(a.id), Equals];
        assert ts == head + ts[3..];
        AppendAssoc(head, ExprTerminals(a.rhs), e.value.1);
        Ok((a, e.value.1))
  }

  /** Appends `, asignacion` to the list `acc` while a comma follows. */
  function ListTail(acc: seq<Assignment>, ts: seq<Terminal>): (r: Parsed<seq<Assignment>>)
    requires WellFormed(acc)
    ensures r.Ok? ==> WellFormed(r.value.0) && (r.value.1 == [] || r.value.1[0] != Comma)
                      && ListTerminals(r.value.0) + r.value.1 == ListTerminals(acc) + ts
    ensures r.Err? ==> |r.error| < |ts| && IsSuffix(r.error, ts)
    decreases |ts|
  {
    if ts != [] && ts[0] == Comma then
      var a := ParseAssignment(ts[1..]);
      SuffixOfAppend([ts[0]], ts[1..]);
      assert ts == [ts[0]] + ts[1..];
      if a.Err? then
        SuffixTrans(a.error, ts[1..], ts);
        Err(a.error)
      else
        SnocList(acc, a.value.0);
        Regroup(ListTerminals(acc), Comma, AssignmentTerminals(a.value.0), a.value.1, ts);
        SuffixOfAppend(AssignmentTerminals(a.value.0), a.value.1);
        SuffixTrans(a.value.1, ts[1..], ts);
        var r := ListTail(acc + [a.value.0], a.value.1);
        SuffixTrans(if r.Err? then r.error else [], a.value.1, ts);
        r
    else Ok((acc, ts))
  }

  lemma SnocList(d: seq<Assignment>, a: Assignment)
    requires WellFormed(d) && IsExpr(a.rhs)
    ensures WellFormed(d + [a])
    ensures ListTerminals(d + [a]) == ListTerminals(d) + [Comma] + AssignmentTerminals(a)
  {
    var d' := d + [a];
    assert d'[..|d'| - 1] == d && d'[|d'| - 1] == a;
    assert forall k | 0 <= k < |d| :: d'[k] == d[k];
  }

  function ParseList(ts: seq<Terminal>): (r: Parsed<seq<Assignment>>)
    ensures r.Ok? ==> WellFormed(r.value.0) && (r.value.1 == [] || r.value.1[0] != Comma)
                      && ts == ListTerminals(r.value.0) + r.value.1
    ensures r.Err? ==> |r.error| <= |ts| && IsSuffix(r.error, ts)
  {
    var a := ParseAssignment(ts);
    if a.Err? then Err(a.error)
    else
      SuffixOfAppend(AssignmentTerminals(a.value.0), a.value.1);
      var r := ListTail([a.value.0], a.value.1);
      SuffixTrans(if r.Err? then r.error else [], a.value.1, ts);
      r
  }

  /** `declaracion : asignaciones PUNTOYCOMA`, the start symbol: the whole input must be
      one declaration. A successful parse is well formed and spells the input exactly;
      with `DeclarationRoundTrip`, parsing is a bijection between well-formed declarations
      and the terminal strings the grammar accepts. */
  function ParseDeclaration(ts: seq<Terminal>): (r: Result<seq<Assignment>, seq<Terminal>>)
    ensures r.Ok? ==> WellFormed(r.value) && ts == DeclarationTerminals(r.value)
    ensures r.Err? ==> IsSuffix(r.error, ts)
  {
    var l := ParseList(ts);
    if l.Err? then Err(l.error)
    else
      var rest := l.value.1;
      SuffixOfAppend(ListTerminals(l.value.0), rest);
      if rest == [] || rest[0] != Semicolon then Err(rest)
      else if |rest| > 1 then
        SuffixOfAppend([rest[0]], rest[1..]);
        assert rest == [rest[0]] + rest[1..];
        SuffixTrans(rest[1..], rest, ts);
        Err(rest[1..])
      else
        assert rest == [Semicolon];
        Ok(l.value.0)
  }

  function Terminals(tokens: seq<Token>): (ts: seq<Terminal>)
    ensures |ts| == |tokens| && forall k | 0 <= k < |ts| :: ts[k] == tokens[k].terminal
  {
    seq(|tokens|, k requires 0 <= k < |tokens| => tokens[k].terminal)
  }

  /** The parser over the lexer's tokens; positions play no part in parsing. */
  function Parse(tokens: seq<Token>): (r: Result<seq<Assignment>, seq<Terminal>>)
    ensures r.Ok? ==> WellFormed(r.value) && DeclarationTerminals(r.value) == Terminals(tokens)
    ensures r.Err? ==> IsSuffix(r.error, Terminals(tokens))
  {
    ParseDeclaration(Terminals(tokens))
  }

  // ----- Completeness: every well-formed tree is parsed back -----

  lemma Reassoc<T>(a: seq<T>, b: seq<T>, c: seq<T>, d: seq<T>)
    ensures a + b + c + d == a + (b + (c + d))
  {
  }

  lemma {:induction false} TermSpine(e: Expr, rest: seq<Terminal>)
    requires IsTerm(e)
    ensures ParseTerm(ExprTerminals(e) + rest) == TermTail(e, rest)
  {
    if e.Bin? {
      var tail := [OpTerminal(e.op)] + (ExprTerminals(e.right) + rest);
      assert ExprTerminals(e) + rest == ExprTerminals(e.left) + tail by {
        Reassoc(ExprTerminals(e.left), [OpTerminal(e.op)], ExprTerminals(e.right), rest);
      }
      assert ParseTerm(ExprTerminals(e.left) + tail) == TermTail(e.left, tail) by {
        TermSpine(e.left, tail);
      }
      assert TermTail(e.left, tail) == TermTail(e, rest) by {
        assert tail != [] && IsMulOp(tail[0]) && TerminalOp(tail[0]) == e.op;
        assert ParseFactor(tail[1..]) == Ok((e.right, rest)) by {
          assert tail[1..] == ExprTerminals(e.right) + rest;
          FactorComplete(e.right, rest);
        }
        TermTailStep(e.left, tail, e.right, rest);
      }
    }
  }

  /** A factor is read back by `ParseFactor`, leaving what follows it. */
  lemma FactorComplete(f: Expr, rest: seq<Terminal>)
    requires IsFactor(f)
    ensures ParseFactor(ExprTerminals(f) + rest) == Ok((f, rest))
  {
  }

  /** One step of `TermTail` over `op factor`. */
  lemma TermTailStep(l: Expr, ts: seq<Terminal>, f: Expr, rest: seq<Terminal>)
    requires IsTerm(l) && ts != [] && IsMulOp(ts[0]) && ParseFactor(ts[1..]) == Ok((f, rest))
    ensures TermTail(l, ts) == TermTail(Bin(TerminalOp(ts[0]), l, f), rest)
  {
  }

  lemma TermComplete(e: Expr, rest: seq<Terminal>)
    requires IsTerm(e) && EndsTerm(rest)
    ensures ParseTerm(ExprTerminals(e) + rest) == Ok((e, rest))
  {
    TermSpine(e, rest);
  }

  lemma {:induction false} ExprSpine(e: Expr, rest: seq<Terminal>)
    requires IsExpr(e) && EndsTerm(rest)
    ensures ParseExpr(ExprTerminals(e) + rest) == ExprTail(e, rest)
  {
    if IsTerm(e) {
      TermComplete(e, rest);
    } else {
      var tail := [OpTerminal(e.op)] + (ExprTerminals(e.right) + rest);
      Reassoc(ExprTerminals(e.left), [OpTerminal(e.op)], ExprTerminals(e.right), rest);
      assert ParseExpr(ExprTerminals(e.left) + tail) == ExprTail(e.left, tail) by {
        ExprSpine(e.left, tail);
      }
      assert ExprTail(e.left, tail) == ExprTail(e, rest) by {
        assert tail != [] && IsAddOp(tail[0]) && TerminalOp(tail[0]) == e.op;
        assert ParseTerm(tail[1..]) == Ok((e.right, rest)) by {
          assert tail[1..] == ExprTerminals(e.right) + rest;
          TermComplete(e.right, rest);
        }
        ExprTailStep(e.left, tail, e.right, rest);
      }
    }
  }

  /** One step of `ExprTail` over `op term`. */
  lemma ExprTailStep(l: Expr, ts: seq<Terminal>, r: Expr, rest: seq<Terminal>)
    requires IsExpr(l) && ts != [] && IsAddOp(ts[0]) && ParseTerm(ts[1..]) == Ok((r, rest))
    ensures ExprTail(l, ts) == ExprTail(Bin(TerminalOp(ts[0]), l, r), rest)
  {
  }

  /** A well-formed expression followed by input that cannot continue it is parsed back
      to itself, leaving exactly that input. */
  lemma ExprComplete(e: Expr, rest: seq<Terminal>)
    requires IsExpr(e) && EndsExpr(rest)
    ensures ParseExpr(ExprTerminals(e) + rest) == Ok((e, rest))
  {
    ExprSpine(e, rest);
  }

  lemma AssignmentComplete(a: Assignment, rest: seq<Terminal>)
    requires IsExpr(a.rhs) && EndsExpr(rest)
    ensures ParseAssignment(AssignmentTerminals(a) + rest) == Ok((a, rest))
  {
    var ts := AssignmentTerminals(a) + rest;
    assert ts[0] == TypeTerminal(a.ty) && ts[1] == Ident(a.id) && ts[2] == Equals;
    assert ParseType(ts[0]) == Some(a.ty);
    assert ts[3..] == ExprTerminals(a.rhs) + rest;
    ExprComplete(a.rhs, rest);
  }

  lemma {:induction false} ListSpine(d: seq<Assignment>, rest: seq<Terminal>)
    requires WellFormed(d) && EndsExpr(rest)
    ensures ParseList(ListTerminals(d) + rest) == ListTail(d, rest)
    decreases |d|
  {
    if |d| == 1 {
      assert d == [d[0]];
      AssignmentComplete(d[0], rest);
    } else {
      var init, last := d[..|d| - 1], d[|d| - 1];
      assert d == init + [last];
      assert WellFormed(init) by {
        assert forall k | 0 <= k < |init| :: init[k] == d[k];
      }
      var tail := [Comma] + (AssignmentTerminals(last) + rest);
      Reassoc(ListTerminals(init), [Comma], AssignmentTerminals(last), rest);
      assert ParseList(ListTerminals(init) + tail) == ListTail(init, tail) by {
        ListSpine(init, tail);
      }
      assert ListTail(init, tail) == ListTail(d, rest) by {
        assert tail != [] && tail[0] == Comma;
        assert ParseAssignment(tail[1..]) == Ok((last, rest)) by {
          assert tail[1..] == AssignmentTerminals(last) + rest;
          AssignmentComplete(last, rest);
        }
        ListTailStep(init, tail, last, rest);
      }
    }
  }

  /** One step of `ListTail` over `, asignacion`. */
  lemma ListTailStep(init: seq<Assignment>, ts: seq<Terminal>, last: Assignment, rest: seq<Terminal>)
    requires WellFormed(init) && ts != [] && ts[0] == Comma && ParseAssignment(ts[1..]) == Ok((last, rest))
    ensures ListTail(init, ts) == ListTail(init + [last], rest)
  {
  }

  /** Round trip: a well-formed declaration written out as terminals parses back to itself. */
  lemma DeclarationRoundTrip(d: seq<Assignment>)
    requires WellFormed(d)
    ensures ParseDeclaration(DeclarationTerminals(d)) == Ok(d)
  {
    ListSpine(d, [Semicolon]);
  }

  /** The grammar with its precedence rules is unambiguous: two well-formed expressions
      with the same terminals are the same tree. */
  lemma ExprUnambiguous(e1: Expr, e2: Expr)
    requires IsExpr(e1) && IsExpr(e2) && ExprTerminals(e1) == ExprTerminals(e2)
    ensures e1 == e2
  {
    var ts := ExprTerminals(e1);
    assert ts + [] == ts;
    ExprComplete(e1, []);
    ExprComplete(e2, []);
  }

  /** Left associativity: `1 - 2 - 3` is `(1 - 2) - 3`. */
  lemma SubtractionGroupsLeft()
    ensures ParseExpr([Number(1), Minus, Number(2), Minus, Number(3)])
            == Ok((Bin(Sub, Bin(Sub, Num(1), Num(2)), Num(3)), []))
  {
    var e := Bin(Sub, Bin(Sub, Num(1), Num(2)), Num(3));
    assert ExprTerminals(e) + [] == [Number(1), Minus, Number(2), Minus, Number(3)];
    ExprComplete(e, []);
  }

  /** Precedence: `1 + 2 * 3` is `1 + (2 * 3)`. */
  lemma ProductBindsTighter()
    ensures ParseExpr([Number(1), Plus, Number(2), Times, Number(3)])
            == Ok((Bin(Add, Num(1), Bin(Mul, Num(2), Num(3))), []))
  {
    var e := Bin(Add, Num(1), Bin(Mul, Num(2), Num(3)));
    assert ExprTerminals(e) + [] == [Number(1), Plus, Number(2), Times, Number(3)];
    ExprComplete(e, []);
  }
}
