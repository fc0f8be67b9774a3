/**
 * The semantic actions that run as the parser reduces (`p_asignacion`,
 * `p_expresion_operacion`, `p_expresion_numero`, `p_expresion_identificador`),
 * written as functions over the two global stores: the symbol table and the
 * three-address-code buffer (plus the semantic messages the actions print).
 *
 * Reductions happen bottom-up, so an expression's actions run in post-order, left
 * operand first, and each assignment's actions run before the next assignment of
 * the same declaration is read.
 */
module Translate {
  import opened Numerals
  import opened Syntax

  /** What an expression's reduction leaves in `p[0]`: the number of a NUMERO, the name
      `t{k}` of a temporary, or Python's None for an undeclared identifier. */
  datatype Value = VNum(n: nat) | VTemp(k: nat) | Undefined

  /** A symbol-table entry `(tipo, valor)`. */
  datatype Entry = Entry(ty: TypeName, value: Value)

  /** The semantic messages the actions print. */
  datatype Diagnostic = Redeclared(id: string) | Undeclared(id: string)

  /** The tuple `('asignacion', id, valor)` that `p_asignacion` leaves. */
  datatype AssignNode = AssignNode(id: string, value: Value)

  /** The global stores `tabla_simbolos` and `codigo_intermedio`, and the messages printed. */
  datatype State = State(table: map<string, Entry>, code: seq<string>, diags: seq<Diagnostic>)

  /** `f"t{k}"`: a `t` followed by the numeral of k, from which k can be read back. */
  function TempName(k: nat): string
  {
    "t" + NatToString(k)
  }

  /** Python's `f"{valor}"`: a number is written as its numeral, and no value is written
      with a newline. */
  function Render(v: Value): string
  {
    match v
    case VNum(n) => NatToString(n)
    case VTemp(k) => TempName(k)
    case Undefined => "None"
  }

  function OpText(op: Op): string {
    match op
    case Add => "+"
    case Sub => "-"
    case Mul => "*"
    case Div => "/"
  }

  /** The line `t{k} = rhs`. */
  function Line(k: nat, rhs: string): string {
    TempName(k) + " = " + rhs
  }

  predicate StartsWith(s: string, prefix: string) {
    |prefix| <= |s| && s[..|prefix|] == prefix
  }

  predicate RefersBelow(v: Value, n: nat) {
    v.VTemp? ==> v.k < n
  }

  /** Line `i` of the buffer defines `t{i}` and holds no newline, and every temporary the
      table mentions is already defined. */
  predicate Valid(st: State) {
    (forall i | 0 <= i < |st.code| :: StartsWith(st.code[i], TempName(i) + " = ") && '\n' !in st.code[i])
    && (forall x | x in st.table :: RefersBelow(st.table[x].value, |st.code|))
  }

  function BinCount(e: Expr): nat {
    match e
    case Num(_) => 0
    case Id(_) => 0
    case Bin(_, l, r) => BinCount(l) + BinCount(r) + 1
  }

  // ----- The reductions -----

  /** `p_expresion_operacion`: append `t{k} = l op r`, k the buffer's length; the value is `t{k}`. */
  function ReduceBinary(op: Op, l: Value, r: Value, st: State): (res: (Value, State))
    ensures res.0 == VTemp(|st.code|) && res.1.table == st.table && res.1.diags == st.diags
    ensures res.1.code == st.code + [Render(res.0) + " = " + (Render(l) + " " + OpText(op) + " " + Render(r))]
  {
    var k := |st.code|;
    assert Render(VTemp(k)) == TempName(k);
    (VTemp(k), st.(code := st.code + [Line(k, Render(l) + " " + OpText(op) + " " + Render(r))]))
  }

  /** `p_expresion_identificador`: the stored value, or None and a message. */
  function ReduceIdentifier(x: string, st: State): (res: (Value, State))
    ensures res.1.table == st.table && res.1.code == st.code
    ensures x in st.table ==> res.0 == st.table[x].value && res.1.diags == st.diags
    ensures x !in st.table ==> res.0 == Undefined && res.1.diags == st.diags + [Undeclared(x)]
  {
    if x in st.table then (st.table[x].value, st)
    else (Undefined, st.(diags := st.diags + [Undeclared(x)]))
  }

  /** `p_asignacion`: insert `x -> (ty, v)` unless `x` is already declared, then append
      `t{k} = v` in both cases. */
  function ReduceAssignment(ty: TypeName, x: string, v: Value, st: State): (res: (AssignNode, State))
    ensures res.0 == AssignNode(x, v)
    ensures x in st.table ==> res.1.table == st.table
    ensures x !in st.table ==> res.1.table == st.table[x := Entry(ty, v)]
    ensures res.1.code == st.code + [TempName(|st.code|) + " = " + Render(v)]
    ensures res.1.diags == st.diags + if x in st.table then [Redeclared(x)] else []
  {
    var k := |st.code|;
    var table := if x in st.table then st.table else st.table[x := Entry(ty, v)];
    var diags := if x in st.table then st.diags + [Redeclared(x)] else st.diags;
    (AssignNode(x, v), State(table, st.code + [Line(k, Render(v))], diags))
  }

  /** The reductions of an expression tree, in post-order. They never touch the table, and
      they append exactly one line per binary operator. */
  function Eval(e: Expr, st: State): (r: (Value, State))
    ensures r.1.table == st.table
    ensures |r.1.code| == |st.code| + BinCount(e) && r.1.code[..|st.code|] == st.code
    ensures |st.diags| <= |r.1.diags| && r.1.diags[..|st.diags|] == st.diags
  {
    match e
    case Num(n) => (VNum(n), st)
    case Id(x) => ReduceIdentifier(x, st)
    case Bin(op, l, r) =>
      var (vl, s1) := Eval(l, st);
      var (vr, s2) := Eval(r, s1);
      assert s2.code[..|st.code|] == s1.code[..|s1.code|][..|st.code|];
      assert s2.diags[..|st.diags|] == s1.diags[..|s1.diags|][..|st.diags|];
      ReduceBinary(op, vl, vr, s2)
  }

  /** One assignment: its expression's reductions, then `p_asignacion`. The identifier is
      declared afterwards, and the buffer grows by the expression's lines plus one. */
  function ExecAssignment(a: Assignment, st: State): (res: (AssignNode, State))
    ensures res.0.id == a.id && a.id in res.1.table
    ensures |res.1.code| == |st.code| + BinCount(a.rhs) + 1
  {
    var (v, s1) := Eval(a.rhs, st);
    ReduceAssignment(a.ty, a.id, v, s1)
  }

  /** The reductions of a declaration's assignments, in source order: one node per
      assignment, and lines and messages are only ever appended. */
  function ExecDeclaration(d: seq<Assignment>, st: State): (r: (seq<AssignNode>, State))
    ensures |r.0| == |d|
    ensures |st.code| <= |r.1.code| && r.1.code[..|st.code|] == st.code
    ensures |st.diags| <= |r.1.diags| && r.1.diags[..|st.diags|] == st.diags
  {
    if d == [] then ([], st)
    else
      var (ns, s1) := ExecDeclaration(d[..|d| - 1], st);
      var (n, s2) := ExecAssignment(d[|d| - 1], s1);
      AssignmentCode(d[|d| - 1], s1);
      assert s2.code[..|st.code|] == s1.code[..|st.code|];
      assert s2.diags[..|st.diags|] == s1.diags[..|st.diags|];
      (ns + [n], s2)
  }

  // ----- Properties -----

  lemma DigitsHaveNoNewline(s: string)
    requires AllDigits(s)
    ensures '\n' !in s
  {
  }

  /** The name of temporary `k` is a `t` followed by digits that read back as k, and
      holds no newline. */
  lemma TempNameReadsBack(k: nat)
    ensures var r := TempName(k);
      |r| >= 2 && r[0] == 't' && AllDigits(r[1..]) && DigitsValue(r[1..]) == k && '\n' !in r
  {
    DigitsValueOfNatToString(k);
    DigitsHaveNoNewline(NatToString(k));
    assert TempName(k)[1..] == NatToString(k);
  }

  /** A number is written as a numeral that reads back as the number, and no value is
      written with a newline. */
  lemma RenderReadsBack(v: Value)
    ensures v.VNum? ==> AllDigits(Render(v)) && |Render(v)| > 0 && DigitsValue(Render(v)) == v.n
    ensures '\n' !in Render(v)
  {
    match v
    case VNum(n) =>
      DigitsValueOfNatToString(n);
      DigitsHaveNoNewline(NatToString(n));
    case VTemp(k) => TempNameReadsBack(k);
    case Undefined =>
  }

  /** A line built for temporary `k` starts with `t{k} = ` and holds no newline. */
  lemma LineIsNumbered(k: nat, rhs: string)
    requires '\n' !in rhs
    ensures StartsWith(Line(k, rhs), TempName(k) + " = ") && '\n' !in Line(k, rhs)
  {
    TempNameReadsBack(k);
  }

  /** A line can define at most one temporary: `t{i} = ` and `t{j} = ` both begin it only
      when i and j are equal. */
  lemma OneTempPerLine(line: string, i: nat, j: nat)
    requires StartsWith(line, TempName(i) + " = ") && StartsWith(line, TempName(j) + " = ")
    ensures i == j
  {
    var a, b := TempName(i), TempName(j);
    NameInLine(line, i);
    NameInLine(line, j);
    TempNameReadsBack(i);
    TempNameReadsBack(j);
    if |a| == |b| {
      assert a == (a + " = ")[..|a|] == line[..|a|] == (b + " = ")[..|b|] == b;
    }
  }

  /** A line that starts with `t{k} = ` has digits after the `t` and a space right after
      the name. */
  lemma NameInLine(line: string, k: nat)
    ensures StartsWith(line, TempName(k) + " = ") ==>
              |line| > |TempName(k)| && line[|TempName(k)|] == ' '
              && forall m | 1 <= m < |TempName(k)| :: IsDigit(line[m])
  {
    var a := TempName(k);
    TempNameReadsBack(k);
    if StartsWith(line, a + " = ") {
      assert line[..|a| + 3] == a + " = ";
      forall m | 1 <= m < |a|
        ensures IsDigit(line[m])
      {
        assert line[m] == (a + " = ")[m] == a[1..][m - 1];
      }
    }
  }

  /** In valid stores line i defines `t{i}` and no other temporary, so every temporary is
      defined by exactly one line and no two lines are equal. */
  lemma LinesDefineTheirOwnTemps(st: State, i: nat, j: nat)
    requires Valid(st) && i < |st.code| && j < |st.code|
    ensures StartsWith(st.code[i], TempName(j) + " = ") <==> i == j
    ensures i != j ==> st.code[i] != st.code[j]
  {
    if StartsWith(st.code[i], TempName(j) + " = ") {
      OneTempPerLine(st.code[i], i, j);
    }
  }

  /** Appending a line numbered by the buffer's length keeps the stores valid. */
  lemma AppendKeepsValid(st: State, line: string)
    requires Valid(st) && StartsWith(line, TempName(|st.code|) + " = ") && '\n' !in line
    ensures Valid(st.(code := st.code + [line]))
  {
    var st' := st.(code := st.code + [line]);
    assert forall i | 0 <= i < |st.code| :: st'.code[i] == st.code[i];
  }

  lemma BinaryKeepsValid(op: Op, l: Value, r: Value, st: State)
    requires Valid(st)
    ensures Valid(ReduceBinary(op, l, r, st).1)
    ensures RefersBelow(ReduceBinary(op, l, r, st).0, |ReduceBinary(op, l, r, st).1.code|)
  {
    var rhs := Render(l) + " " + OpText(op) + " " + Render(r);
    RenderReadsBack(l);
    RenderReadsBack(r);
    LineIsNumbered(|st.code|, rhs);
    AppendKeepsValid(st, Line(|st.code|, rhs));
  }

  lemma AssignmentKeepsValid(ty: TypeName, x: string, v: Value, st: State)
    requires Valid(st) && RefersBelow(v, |st.code|)
    ensures Valid(ReduceAssignment(ty, x, v, st).1)
  {
    RenderReadsBack(v);
    LineIsNumbered(|st.code|, Render(v));
    var appended := st.(code := st.code + [Line(|st.code|, Render(v))]);
    AppendKeepsValid(st, Line(|st.code|, Render(v)));
    assert ReduceAssignment(ty, x, v, st).1.code == appended.code;
  }

  /** The reductions of an expression keep the stores valid, and the value they leave
      names a temporary that is already defined. */
  lemma {:induction false} EvalKeepsValid(e: Expr, st: State)
    requires Valid(st)
    ensures Valid(Eval(e, st).1) && RefersBelow(Eval(e, st).0, |Eval(e, st).1.code|)
  {
    match e
    case Num(_) =>
    case Id(_) =>
    case Bin(op, l, r) =>
      EvalKeepsValid(l, st);
      var (vl, s1) := Eval(l, st);
      EvalKeepsValid(r, s1);
      var (vr, s2) := Eval(r, s1);
      BinaryKeepsValid(op, vl, vr, s2);
  }

  /** What an expression leaves in `p[0]`: a binary expression's value is the temporary
      of the last line appended; a number's value is the number and changes nothing; an
      identifier's value is its stored value, or None with a message when undeclared, and
      appends no line. */
  lemma EvalValue(e: Expr, st: State)
    ensures var (v, st') := Eval(e, st);
            (e.Bin? ==> v == VTemp(|st'.code| - 1))
            && (e.Num? ==> v == VNum(e.n) && st' == st)
            && (e.Id? && e.name in st.table ==> v == st.table[e.name].value && st' == st)
            && (e.Id? && e.name !in st.table ==>
                  v == Undefined && st'.code == st.code && st'.diags == st.diags + [Undeclared(e.name)])
  {
  }

  /** `p_asignacion` on the table: the identifier is inserted with the expression's value
      only when it was not declared; a redeclaration keeps the old entry and reports it.
      The table stores the value itself, never the name of the copy line's temporary. */
  lemma AssignmentTable(a: Assignment, st: State)
    requires Valid(st)
    ensures var v := Eval(a.rhs, st).0;
            var st' := ExecAssignment(a, st).1;
            ExecAssignment(a, st).0 == AssignNode(a.id, v)
            && (a.id in st.table ==>
                  st'.table == st.table && st'.diags == Eval(a.rhs, st).1.diags + [Redeclared(a.id)])
            && (a.id !in st.table ==>
                  st'.table == st.table[a.id := Entry(a.ty, v)] && v != VTemp(|st'.code| - 1))
  {
    EvalKeepsValid(a.rhs, st);
  }

  /** `p_asignacion` on the buffer: after the expression's own lines comes exactly one line
      `t{k} = value`; the lines and messages already there stay as they were. */
  lemma AssignmentCode(a: Assignment, st: State)
    ensures var st' := ExecAssignment(a, st).1;
            var k := |st.code| + BinCount(a.rhs);
            |st'.code| == k + 1 && st'.code[..|st.code|] == st.code
            && st'.code[k] == Line(k, Render(Eval(a.rhs, st).0))
            && |st.diags| <= |st'.diags| && st'.diags[..|st.diags|] == st.diags
  {
    var s1 := Eval(a.rhs, st).1;
    var st' := ExecAssignment(a, st).1;
    assert st'.code[..|st.code|] == st.code by {
      assert st'.code[..|s1.code|] == s1.code;
    }
    assert st'.diags[..|st.diags|] == st.diags by {
      assert st'.diags[..|s1.diags|] == s1.diags;
    }
  }

  lemma ExecAssignmentKeepsValid(a: Assignment, st: State)
    requires Valid(st)
    ensures Valid(ExecAssignment(a, st).1)
  {
    EvalKeepsValid(a.rhs, st);
    AssignmentKeepsValid(a.ty, a.id, Eval(a.rhs, st).0, Eval(a.rhs, st).1);
  }

  /** A whole declaration keeps the stores valid. */
  lemma {:induction false} DeclarationKeepsValid(d: seq<Assignment>, st: State)
    requires Valid(st)
    ensures Valid(ExecDeclaration(d, st).1)
  {
    if d != [] {
      DeclarationKeepsValid(d[..|d| - 1], st);
      ExecAssignmentKeepsValid(d[|d| - 1], ExecDeclaration(d[..|d| - 1], st).1);
    }
  }

  /** One step of a declaration: the last assignment runs on the state its prefix left. */
  lemma DeclarationStep(d: seq<Assignment>, st: State)
    requires d != []
    ensures var (ns, s1) := ExecDeclaration(d[..|d| - 1], st);
            var (n, s2) := ExecAssignment(d[|d| - 1], s1);
            ExecDeclaration(d, st) == (ns + [n], s2)
  {
  }

  /** What one assignment does to the table, in terms of the value it records. */
  lemma AssignmentEntry(a: Assignment, st: State)
    ensures var (n, st') := ExecAssignment(a, st);
            n.id == a.id
            && (a.id in st.table ==> st'.table == st.table)
            && (a.id !in st.table ==> st'.table == st.table[a.id := Entry(a.ty, n.value)])
  {
  }

  /** The nodes name the declaration's identifiers, in source order. */
  lemma {:induction false} DeclarationNodeIds(d: seq<Assignment>, st: State)
    ensures forall k | 0 <= k < |d| :: ExecDeclaration(d, st).0[k].id == d[k].id
  {
    if d != [] {
      var init := d[..|d| - 1];
      var last := d[|d| - 1];
      var (ns, s1) := ExecDeclaration(init, st);
      var n := ExecAssignment(last, s1).0;
      assert ExecDeclaration(d, st).0 == ns + [n] by {
        DeclarationStep(d, st);
      }
      assert n.id == last.id by {
        AssignmentEntry(last, s1);
      }
      DeclarationNodeIds(init, st);
      forall k | 0 <= k < |d|
        ensures (ns + [n])[k].id == d[k].id
      {
        if k < |d| - 1 {
          assert (ns + [n])[k] == ns[k] && init[k] == d[k];
        }
      }
    }
  }

  /** A declaration never changes an entry that was already there, leaves every identifier
      it assigns declared, and adds no other key. */
  lemma {:induction false} DeclarationTable(d: seq<Assignment>, st: State)
    ensures var t := ExecDeclaration(d, st).1.table;
            (forall x | x in st.table :: x in t && t[x] == st.table[x])
            && (forall k | 0 <= k < |d| :: d[k].id in t)
            && (forall x | x in t :: x in st.table || exists k | 0 <= k < |d| :: d[k].id == x)
  {
    if d != [] {
      var init := d[..|d| - 1];
      var last := d[|d| - 1];
      var s1 := ExecDeclaration(init, st).1;
      var s2 := ExecAssignment(last, s1).1;
      assert ExecDeclaration(d, st).1 == s2 by {
        DeclarationStep(d, st);
      }
      assert s2.table == if last.id in s1.table then s1.table
                         else s1.table[last.id := Entry(last.ty, ExecAssignment(last, s1).0.value)] by {
        AssignmentEntry(last, s1);
      }
      DeclarationTable(init, st);
      assert forall k | 0 <= k < |d| - 1 :: init[k] == d[k];
    }
  }

  /** Within one declaration the first assignment to an undeclared identifier decides its
      entry: later assignments to it are redeclarations and change nothing. */
  lemma {:induction false} FirstDeclarationWins(d: seq<Assignment>, st: State, j: nat)
    requires j < |d| && d[j].id !in st.table
    requires forall k | 0 <= k < j :: d[k].id != d[j].id
    ensures var (nodes, st') := ExecDeclaration(d, st);
            d[j].id in st'.table && st'.table[d[j].id] == Entry(d[j].ty, nodes[j].value)
  {
    var x := d[j].id;
    var init := d[..|d| - 1];
    var (ns, s1) := ExecDeclaration(init, st);
    var last := d[|d| - 1];
    var (n, s2) := ExecAssignment(last, s1);
    assert ExecDeclaration(d, st) == (ns + [n], s2) by {
      DeclarationStep(d, st);
    }
    assert n.id == last.id
           && (last.id in s1.table ==> s2.table == s1.table)
           && (last.id !in s1.table ==> s2.table == s1.table[last.id := Entry(last.ty, n.value)]) by {
      AssignmentEntry(last, s1);
    }
    if j == |d| - 1 {
      assert x !in s1.table by {
        DeclarationTable(init, st);
        assert forall k | 0 <= k < |init| :: init[k].id == d[k].id;
      }
      assert (ns + [n])[j] == n;
    } else {
      assert x in s1.table && s1.table[x] == Entry(d[j].ty, ns[j].value) by {
        assert init[j] == d[j] && forall k | 0 <= k < j :: init[k] == d[k];
        FirstDeclarationWins(init, st, j);
      }
      assert (ns + [n])[j] == ns[j];
    }
  }

  /** The first m assignments of a declaration give its first m nodes, and assignment m
      runs on the state they leave. */
  lemma {:induction false} DeclarationPrefix(d: seq<Assignment>, st: State, m: nat)
    requires m < |d|
    ensures ExecDeclaration(d, st).0[..m] == ExecDeclaration(d[..m], st).0
    ensures ExecDeclaration(d, st).0[m] == ExecAssignment(d[m], ExecDeclaration(d[..m], st).1).0
  {
    var init := d[..|d| - 1];
    var (ns, s1) := ExecDeclaration(init, st);
    var n := ExecAssignment(d[|d| - 1], s1).0;
    assert ExecDeclaration(d, st).0 == ns + [n] by {
      DeclarationStep(d, st);
    }
    if m < |d| - 1 {
      DeclarationPrefix(init, st, m);
      assert init[..m] == d[..m] && init[m] == d[m];
      assert (ns + [n])[..m] == ns[..m] && (ns + [n])[m] == ns[m];
    } else {
      assert init == d[..m] && |ns| == m;
      assert (ns + [n])[..m] == ns;
    }
  }

  /** Each assignment's effects happen before the next assignment is read: a later
      assignment `d[k]` whose expression is the identifier first declared by `d[j]` gets
      the value `d[j]` recorded. */
  lemma LaterSeesEarlier(d: seq<Assignment>, st: State, j: nat, k: nat)
    requires j < k < |d| && d[j].id !in st.table
    requires forall i | 0 <= i < j :: d[i].id != d[j].id
    requires d[k].rhs == Id(d[j].id)
    ensures ExecDeclaration(d, st).0[k].value == ExecDeclaration(d, st).0[j].value
  {
    var x := d[j].id;
    var init := d[..k];
    var (ns, s) := ExecDeclaration(init, st);
    assert x in s.table && s.table[x] == Entry(d[j].ty, ns[j].value) by {
      assert init[j] == d[j] && forall i | 0 <= i < j :: init[i] == d[i];
      FirstDeclarationWins(init, st, j);
    }
    DeclarationPrefix(d, st, k);
    assert ExecDeclaration(d, st).0[j] == ns[j] by {
      assert ExecDeclaration(d, st).0[..k][j] == ExecDeclaration(d, st).0[j];
    }
    AssignmentEntry(d[k], s);
  }

  /** An expression's value depends on the stores only through the table and the
      buffer's length: what the earlier lines say does not matter. */
  lemma {:induction false} EvalDependsOnTableAndLength(e: Expr, s1: State, s2: State)
    requires s1.table == s2.table && |s1.code| == |s2.code|
    ensures Eval(e, s1).0 == Eval(e, s2).0
  {
    match e
    case Num(_) =>
    case Id(_) =>
    case Bin(_, l, r) =>
      EvalDependsOnTableAndLength(l, s1, s2);
      EvalDependsOnTableAndLength(r, Eval(l, s1).1, Eval(l, s2).1);
  }

  /** The same holds for a whole declaration: the nodes and the final table depend only
      on the table it starts from and on how many lines the buffer already holds. */
  lemma {:induction false} DeclarationDependsOnTableAndLength(d: seq<Assignment>, s1: State, s2: State)
    requires s1.table == s2.table && |s1.code| == |s2.code|
    ensures ExecDeclaration(d, s1).0 == ExecDeclaration(d, s2).0
    ensures ExecDeclaration(d, s1).1.table == ExecDeclaration(d, s2).1.table
    ensures |ExecDeclaration(d, s1).1.code| == |ExecDeclaration(d, s2).1.code|
  {
    if d != [] {
      var init := d[..|d| - 1];
      var last := d[|d| - 1];
      DeclarationDependsOnTableAndLength(init, s1, s2);
      var t1 := ExecDeclaration(init, s1).1;
      var t2 := ExecDeclaration(init, s2).1;
      EvalDependsOnTableAndLength(last.rhs, t1, t2);
      DeclarationStep(d, s1);
      DeclarationStep(d, s2);
      AssignmentCode(last, t1);
      AssignmentCode(last, t2);
      AssignmentEntry(last, t1);
      AssignmentEntry(last, t2);
    }
  }
  // ----- Worked examples -----

  lemma SmallNumerals()
    ensures NatToString(0) == "0" && NatToString(1) == "1" && NatToString(2) == "2"
    ensures NatToString(3) == "3" && NatToString(5) == "5"
  {
  }

  /** `1 - 2 - 3`: the left subtraction is reduced first. */
  lemma SubtractionChainCode()
    ensures Eval(Bin(Sub, Bin(Sub, Num(1), Num(2)), Num(3)), State(map[], [], []))
            == (VTemp(1), State(map[], ["t0 = 1 - 2", "t1 = t0 - 3"], []))
  {
    var s0 := State(map[], [], []);
    var s1 := State(map[], ["t0 = 1 - 2"], []);
    SmallNumerals();
    assert Render(VNum(1)) + " " + OpText(Sub) + " " + Render(VNum(2)) == "1 - 2";
    assert Line(0, "1 - 2") == "t0 = 1 - 2";
    assert ReduceBinary(Sub, VNum(1), VNum(2), s0).1.code == s0.code + [Line(0, "1 - 2")];
    assert Eval(Bin(Sub, Num(1), Num(2)), s0) == (VTemp(0), s1);
    assert Render(VTemp(0)) == "t0";
    assert Render(VTemp(0)) + " " + OpText(Sub) + " " + Render(VNum(3)) == "t0 - 3";
    assert Line(1, "t0 - 3") == "t1 = t0 - 3";
    assert ReduceBinary(Sub, VTemp(0), VNum(3), s1).1.code == s1.code + [Line(1, "t0 - 3")];
    assert s1.code + ["t1 = t0 - 3"] == ["t0 = 1 - 2", "t1 = t0 - 3"];
  }

  /** `1 + 2 * 3`: the product is reduced before the sum that uses it. */
  lemma ProductFirstCode()
    ensures Eval(Bin(Add, Num(1), Bin(Mul, Num(2), Num(3))), State(map[], [], []))
            == (VTemp(1), State(map[], ["t0 = 2 * 3", "t1 = 1 + t0"], []))
  {
    var s0 := State(map[], [], []);
    var s1 := State(map[], ["t0 = 2 * 3"], []);
    SmallNumerals();
    assert Render(VNum(2)) + " " + OpText(Mul) + " " + Render(VNum(3)) == "2 * 3";
    assert Line(0, "2 * 3") == "t0 = 2 * 3";
    assert ReduceBinary(Mul, VNum(2), VNum(3), s0).1.code == s0.code + [Line(0, "2 * 3")];
    assert Eval(Num(1), s0) == (VNum(1), s0);
    assert Eval(Bin(Mul, Num(2), Num(3)), s0) == (VTemp(0), s1);
    assert Render(VTemp(0)) == "t0";
    assert Render(VNum(1)) + " " + OpText(Add) + " " + Render(VTemp(0)) == "1 + t0";
    assert Line(1, "1 + t0") == "t1 = 1 + t0";
    assert ReduceBinary(Add, VNum(1), VTemp(0), s1).1.code == s1.code + [Line(1, "1 + t0")];
    assert s1.code + ["t1 = 1 + t0"] == ["t0 = 2 * 3", "t1 = 1 + t0"];
  }

  lemma DeclarationOfOne(a: Assignment, st: State)
    ensures ExecDeclaration([a], st) == ([ExecAssignment(a, st).0], ExecAssignment(a, st).1)
  {
    DeclarationStep([a], st);
    assert [a][..0] == [];
    assert [] + [ExecAssignment(a, st).0] == [ExecAssignment(a, st).0];
  }

  lemma DeclarationOfTwo(a1: Assignment, a2: Assignment, st: State)
    ensures var s1 := ExecAssignment(a1, st).1;
            ExecDeclaration([a1, a2], st) == ([ExecAssignment(a1, st).0, ExecAssignment(a2, s1).0], ExecAssignment(a2, s1).1)
  {
    var (n1, s1) := ExecAssignment(a1, st);
    var n2 := ExecAssignment(a2, s1).0;
    assert [a1, a2][..1] == [a1];
    DeclarationOfOne(a1, st);
    assert ExecDeclaration([a1, a2][..1], st) == ([n1], s1);
    DeclarationStep([a1, a2], st);
    assert [n1] + [n2] == [n1, n2];
  }

  /** `int x = 2 + 3;`: the table records `t0`, and the copy line is `t1 = t0`. */
  lemma SumAssignmentCode()
    ensures ExecDeclaration([Assignment(IntType, "x", Bin(Add, Num(2), Num(3)))], State(map[], [], []))
            == ([AssignNode("x", VTemp(0))],
                State(map["x" := Entry(IntType, VTemp(0))], ["t0 = 2 + 3", "t1 = t0"], []))
  {
    var s0 := State(map[], [], []);
    var s1 := State(map[], ["t0 = 2 + 3"], []);
    var a := Assignment(IntType, "x", Bin(Add, Num(2), Num(3)));
    SmallNumerals();
    assert Render(VNum(2)) + " " + OpText(Add) + " " + Render(VNum(3)) == "2 + 3";
    assert Line(0, "2 + 3") == "t0 = 2 + 3";
    assert s0.code + ["t0 = 2 + 3"] == ["t0 = 2 + 3"];
    assert Eval(a.rhs, s0) == (VTemp(0), s1);
    assert Line(1, Render(VTemp(0))) == "t1 = t0";
    assert s1.code + ["t1 = t0"] == ["t0 = 2 + 3", "t1 = t0"];
    DeclarationOfOne(a, s0);
  }

  /** `int x = 1, int x = 2;`: the second assignment is reported and leaves the entry
      alone, but still appends its line. */
  lemma RedeclarationCode()
    ensures ExecDeclaration([Assignment(IntType, "x", Num(1)), Assignment(IntType, "x", Num(2))], State(map[], [], []))
            == ([AssignNode("x", VNum(1)), AssignNode("x", VNum(2))],
                State(map["x" := Entry(IntType, VNum(1))], ["t0 = 1", "t1 = 2"], [Redeclared("x")]))
  {
    var a1 := Assignment(IntType, "x", Num(1));
    var a2 := Assignment(IntType, "x", Num(2));
    var s0 := State(map[], [], []);
    var s1 := State(map["x" := Entry(IntType, VNum(1))], ["t0 = 1"], []);
    SmallNumerals();
    assert Line(0, Render(VNum(1))) == "t0 = 1";
    assert s0.code + ["t0 = 1"] == ["t0 = 1"];
    assert ExecAssignment(a1, s0) == (AssignNode("x", VNum(1)), s1);
    assert Line(1, Render(VNum(2))) == "t1 = 2";
    assert s1.code + ["t1 = 2"] == ["t0 = 1", "t1 = 2"];
    assert s1.diags + [Redeclared("x")] == [Redeclared("x")];
    DeclarationOfTwo(a1, a2, s0);
  }

  /** `int y = z + 1;` with `z` undeclared: the operand prints as None. */
  lemma UndeclaredOperandCode()
    ensures ExecDeclaration([Assignment(IntType, "y", Bin(Add, Id("z"), Num(1)))], State(map[], [], []))
            == ([AssignNode("y", VTemp(0))],
                State(map["y" := Entry(IntType, VTemp(0))], ["t0 = None + 1", "t1 = t0"], [Undeclared("z")]))
  {
    var s0 := State(map[], [], []);
    var sz := State(map[], [], [Undeclared("z")]);
    var s1 := State(map[], ["t0 = None + 1"], [Undeclared("z")]);
    var a := Assignment(IntType, "y", Bin(Add, Id("z"), Num(1)));
    SmallNumerals();
    assert s0.diags + [Undeclared("z")] == [Undeclared("z")];
    assert Eval(Id("z"), s0) == (Undefined, sz);
    assert Render(Undefined) + " " + OpText(Add) + " " + Render(VNum(1)) == "None + 1";
    assert Line(0, "None + 1") == "t0 = None + 1";
    assert sz.code + ["t0 = None + 1"] == ["t0 = None + 1"];
    assert Eval(a.rhs, s0) == (VTemp(0), s1);
    assert Line(1, Render(VTemp(0))) == "t1 = t0";
    assert s1.code + ["t1 = t0"] == ["t0 = None + 1", "t1 = t0"];
    DeclarationOfOne(a, s0);
  }
}
