/** The expression compiler of python/algorithm/data_struct/myStack.py: infix to postfix by operator precedence, and
    the evaluation of postfix, both with a stack.

    The specification is the expression tree. `Infix` adds to it the parentheses that a user wrote, so a well-formed
    `Infix` is one way of writing an expression under precedence and left associativity. */
module Postfix {
  import opened Sequences

  datatype Op = Times | Divide | Plus | Minus

  /** What split() returns, sorted the way the program does: numbers by isdigit(), anything unknown is a word. */
  datatype Token = Number(value: nat) | Operator(op: Op) | Open | Close | Word(text: string)

  /** IndexError, KeyError and ZeroDivisionError. */
  datatype Error = PopFromEmpty | UnknownOperator | DivisionByZero

  datatype Result<+T> = Ok(value: T) | Err(error: Error)

  class Stack<T(==)> {
    var items: seq<T>

    constructor ()
      ensures items == []
    {
      items := [];
    }

    predicate IsEmpty()
      reads this
    {
      items == []
    }

    method Push(item: T)
      modifies this
      ensures items == old(items) + [item]
    {
      items := items + [item];
    }

    method Pop() returns (r: Result<T>)
      modifies this
      ensures old(items) == [] ==> r == Err(PopFromEmpty) && items == []
      ensures r.Err? ==> old(items) == []
      ensures r.Ok? ==> old(items) == items + [r.value]
    {
      if items == [] {
        return Err(PopFromEmpty);
      }
      r := Ok(items[|items| - 1]);
      items := items[..|items| - 1];
    }

    function Peek(): T
      requires !IsEmpty()
      reads this
    {
      items[|items| - 1]
    }
  }

  // ---- expressions and how they are written ----

  datatype Expr = Lit(n: nat) | Bin(op: Op, left: Expr, right: Expr)

  datatype Infix = Literal(n: nat) | Paren(inner: Infix) | Node(op: Op, left: Infix, right: Infix)

  /** The grammar of expressions: sums of terms, which are products of factors, grouped from the left. */
  predicate WellFormed(c: Infix)
    decreases c, 2
  {
    if c.Node? && (c.op == Plus || c.op == Minus) then WellFormed(c.left) && IsTerm(c.right) else IsTerm(c)
  }

  predicate IsTerm(c: Infix)
    decreases c, 1
  {
    if c.Node? then (c.op == Times || c.op == Divide) && IsTerm(c.left) && IsFactor(c.right) else IsFactor(c)
  }

  predicate IsFactor(c: Infix)
    decreases c, 0
  {
    match c
    case Literal(_) => true
    case Paren(inner) => WellFormed(inner)
    case Node(_, _, _) => false
  }

  /** The precedences in the dictionary. */
  function Prec(op: Op): nat {
    if op == Times || op == Divide then 3 else 2
  }

  function Level(c: Infix): nat {
    if c.Node? then Prec(c.op) else 4
  }

  /** No operator stands where precedence and left associativity would regroup it. */
  predicate Grouped(c: Infix) {
    match c
    case Literal(_) => true
    case Paren(inner) => Grouped(inner)
    case Node(op, l, r) => Grouped(l) && Grouped(r) && Prec(op) <= Level(l) && Prec(op) < Level(r)
  }

  /** Comparing the precedences in the dictionary gives the expressions of the grammar. */
  lemma {:induction false} PrecedenceIsGrammar(c: Infix)
    ensures WellFormed(c) <==> Grouped(c)
    ensures IsTerm(c) <==> Grouped(c) && Prec(Times) <= Level(c)
    ensures IsFactor(c) <==> Grouped(c) && Prec(Times) < Level(c)
  {
    match c
    case Literal(_) =>
      assert WellFormed(c) == IsTerm(c) == IsFactor(c);
    case Paren(inner) =>
      PrecedenceIsGrammar(inner);
      assert WellFormed(c) == IsTerm(c) == IsFactor(c);
    case Node(_, l, r) =>
      PrecedenceIsGrammar(l);
      PrecedenceIsGrammar(r);
  }

  function Tokens(c: Infix): seq<Token> {
    match c
    case Literal(n) => [Number(n)]
    case Paren(inner) => [Open] + Tokens(inner) + [Close]
    case Node(op, l, r) => Tokens(l) + [Operator(op)] + Tokens(r)
  }

  /** The expression that is written. */
  function Erase(c: Infix): Expr {
    match c
    case Literal(n) => Lit(n)
    case Paren(inner) => Erase(inner)
    case Node(op, l, r) => Bin(op, Erase(l), Erase(r))
  }

  /** The way of writing with only the parentheses that are needed. */
  function Written(e: Expr): (c: Infix)
    ensures Grouped(c) && Erase(c) == e
    ensures Level(c) == if e.Bin? then Prec(e.op) else 4
  {
    match e
    case Lit(n) => Literal(n)
    case Bin(op, l, r) =>
      var left, right := Written(l), Written(r);
      Node(op, if Level(left) < Prec(op) then Paren(left) else left,
           if Level(right) <= Prec(op) then Paren(right) else right)
  }

  function Postorder(e: Expr): seq<Token> {
    match e
    case Lit(n) => [Number(n)]
    case Bin(op, l, r) => Postorder(l) + Postorder(r) + [Operator(op)]
  }

  // ---- infix to postfix ----

  /** The dictionary of precedences. */
  function PrecOf(t: Token): Result<nat> {
    match t
    case Operator(op) => Ok(Prec(op))
    case Open => Ok(1)
    case _ => Err(UnknownOperator)
  }

  datatype State = State(stack: seq<Token>, out: seq<Token>)

  /** The loop of a closing parenthesis. */
  function UntilOpen(s: State): Result<State>
    decreases |s.stack|
  {
    if s.stack == [] then Err(PopFromEmpty)
    else
      var n := |s.stack| - 1;
      if s.stack[n] == Open then Ok(State(s.stack[..n], s.out))
      else UntilOpen(State(s.stack[..n], s.out + [s.stack[n]]))
  }

  /** The loop of an operator. */
  function Reduce(s: State, t: Token): Result<State>
    decreases |s.stack|
  {
    if s.stack == [] then Ok(s)
    else
      var n := |s.stack| - 1;
      if PrecOf(s.stack[n]).Err? || PrecOf(t).Err? then Err(UnknownOperator)
      else if PrecOf(s.stack[n]).value < PrecOf(t).value then Ok(s)
      else Reduce(State(s.stack[..n], s.out + [s.stack[n]]), t)
  }

  function Step(s: State, t: Token): Result<State> {
    match t
    case Number(_) => Ok(State(s.stack, s.out + [t]))
    case Open => Ok(State(s.stack + [t], s.out))
    case Close => UntilOpen(s)
    case _ =>
      var r := Reduce(s, t);
      if r.Err? then r else Ok(State(r.value.stack + [t], r.value.out))
  }

  function Run(tokens: seq<Token>, s: State): Result<seq<Token>> {
    if tokens == [] then Ok(s.out + Reverse(s.stack))
    else
      var r := Step(s, tokens[0]);
      if r.Err? then Err(r.error) else Run(tokens[1..], r.value)
  }

  function Compiled(tokens: seq<Token>): Result<seq<Token>> {
    Run(tokens, State([], []))
  }

  lemma RunNext(tokens: seq<Token>, i: nat, s: State)
    requires i < |tokens|
    ensures Run(tokens[i..], s) 
         == match Step(s, tokens[i]) case Err(e) => Err(e) case Ok(s') => Run(tokens[i + 1..], s')
  {
    assert tokens[i..][1..] == tokens[i + 1..];
  }

  method Infix2Postfix(tokens: seq<Token>) returns (r: Result<seq<Token>>)
    ensures r == Compiled(tokens)
  {
    var opStack := new Stack<Token>();
    var postfixList: seq<Token> := [];
    var i := 0;
    while i < |tokens|
      invariant i <= |tokens| && fresh(opStack)
      invariant Run(tokens[i..], State(opStack.items, postfixList)) == Compiled(tokens)
    {
      var token := tokens[i];
      ghost var s := State(opStack.items, postfixList);
      RunNext(tokens, i, s);
      hide Run, Reverse;
      if token.Number? {
        postfixList := postfixList + [token];
      } else if token == Open {
        opStack.Push(token);
      } else if token == Close {
        var top := opStack.Pop();
        while top.Ok? && top.value != Open
          invariant UntilOpen(s) == match top
                                    case Ok(t) => UntilOpen(State(opStack.items + [t], postfixList))
                                    case Err(e) => Err(e)
          decreases |opStack.items|, top.Ok?
        {
          assert (opStack.items + [top.value])[..|opStack.items|] == opStack.items;
          postfixList := postfixList + [top.value];
          top := opStack.Pop();
        }
        if top.Err? {
          return Err(top.error);
        }
        assert (opStack.items + [top.value])[..|opStack.items|] == opStack.items;
      } else {
        while !opStack.IsEmpty()
          invariant Reduce(s, token) == Reduce(State(opStack.items, postfixList), token)
          decreases |opStack.items|
        {
          var left, right := PrecOf(opStack.Peek()), PrecOf(token);
          if left.Err? || right.Err? {
            return Err(UnknownOperator);
          }
          if left.value < right.value {
            break;
          }
          var top := opStack.Pop();
          postfixList := postfixList + [top.value];
        }
        opStack.Push(token);
      }
      i := i + 1;
    }
    while !opStack.IsEmpty()
      invariant Ok(postfixList + Reverse(opStack.items)) == Compiled(tokens)
      decreases |opStack.items|
    {
      var top := opStack.Pop();
      ReverseLast(opStack.items, top.value);
      assert postfixList + ([top.value] + Reverse(opStack.items)) == postfixList + [top.value] + Reverse(opStack.items);
      postfixList := postfixList + [top.value];
    }
    assert postfixList + [] == postfixList;
    r := Ok(postfixList);
  }

  // ---- the translation preserves meaning ----

  /** What a written expression has put out before the next token decides about the rest, and what is still stacked. */
  function Emitted(c: Infix): seq<Token> {
    match c
    case Literal(n) => [Number(n)]
    case Paren(inner) => Postorder(Erase(inner))
    case Node(op, l, r) => Postorder(Erase(l)) + Emitted(r)
  }

  function Pending(c: Infix): seq<Token> {
    if c.Node? then [Operator(c.op)] + Pending(c.right) else []
  }

  lemma {:induction false} EmittedPending(c: Infix)
    ensures Emitted(c) + Reverse(Pending(c)) == Postorder(Erase(c))
  {
    if c.Node? {
      EmittedPending(c.right);
      assert (Postorder(Erase(c.left)) + Emitted(c.right)) + (Reverse(Pending(c.right)) + [Operator(c.op)])
          == Postorder(Erase(c.left)) + (Emitted(c.right) + Reverse(Pending(c.right))) + [Operator(c.op)];
    }
  }

  /** All stacked operators bind at least as strongly as the expression. */
  lemma {:induction false} PendingBinds(c: Infix)
    requires Grouped(c)
    ensures forall i | 0 <= i < |Pending(c)| :: Pending(c)[i].Operator? && Level(c) <= Prec(Pending(c)[i].op)
  {
    if c.Node? {
      PendingBinds(c.right);
    }
  }

  /** The stack does not hold back an expression of this level. */
  predicate Weaker(stack: seq<Token>, level: nat) {
    stack == [] || (var t := stack[|stack| - 1]; t == Open || (t.Operator? && Prec(t.op) < level))
  }

  lemma {:induction false} ReduceAll(stack: seq<Token>, pend: seq<Token>, out: seq<Token>, op: Op)
    requires forall i | 0 <= i < |pend| :: pend[i].Operator? && Prec(op) <= Prec(pend[i].op)
    requires Weaker(stack, Prec(op))
    ensures Reduce(State(stack + pend, out), Operator(op)) == Ok(State(stack, out + Reverse(pend)))
    decreases |pend|
  {
    hide Reduce, Weaker, Prec;
    if pend == [] {
      assert stack + pend == stack && out + [] == out;
      ReduceStops(stack, out, op);
    } else {
      var n := |pend| - 1;
      PopLast(stack, pend, out);
      ReducePops(State(stack + pend, out), op);
      ReduceAll(stack, pend[..n], out + [pend[n]], op);
    }
  }

  lemma ReduceStops(stack: seq<Token>, out: seq<Token>, op: Op)
    requires Weaker(stack, Prec(op))
    ensures Reduce(State(stack, out), Operator(op)) == Ok(State(stack, out))
  {
  }

  lemma ReducePops(s: State, op: Op)
    requires s.stack != []
    requires var top := s.stack[|s.stack| - 1]; top.Operator? && Prec(op) <= Prec(top.op)
    ensures var n := |s.stack| - 1;
            Reduce(s, Operator(op)) == Reduce(State(s.stack[..n], s.out + [s.stack[n]]), Operator(op))
  {
  }

  lemma PopLast(stack: seq<Token>, pend: seq<Token>, out: seq<Token>)
    requires pend != []
    ensures var n := |pend| - 1; var s := stack + pend;
            && s[|s| - 1] == pend[n] && s[..|s| - 1] == stack + pend[..n]
            && out + [pend[n]] + Reverse(pend[..n]) == out + Reverse(pend)
  {
    var n := |pend| - 1;
    assert pend == pend[..n] + [pend[n]];
    ReverseLast(pend[..n], pend[n]);
    assert out + ([pend[n]] + Reverse(pend[..n])) == out + [pend[n]] + Reverse(pend[..n]);
  }

  lemma {:induction false} CloseAll(stack: seq<Token>, pend: seq<Token>, out: seq<Token>)
    requires forall i | 0 <= i < |pend| :: pend[i].Operator?
    ensures UntilOpen(State(stack + [Open] + pend, out)) == Ok(State(stack, out + Reverse(pend)))
    decreases |pend|
  {
    if pend == [] {
      assert (stack + [Open])[..|stack|] == stack && stack + [Open] + pend == stack + [Open] && out + [] == out;
    } else {
      var n := |pend| - 1;
      PopLast(stack + [Open], pend, out);
      CloseAll(stack, pend[..n], out + [pend[n]]);
    }
  }

  lemma RunStep(t: Token, rest: seq<Token>, s: State)
    ensures Run([t] + rest, s) == (if Step(s, t).Err? then Err(Step(s, t).error) else Run(rest, Step(s, t).value))
  {
    assert ([t] + rest)[1..] == rest;
  }

  /** An operator behind its left operand. */
  lemma RunOperator(op: Op, l: Infix, rest: seq<Token>, stack: seq<Token>, out: seq<Token>)
    requires Grouped(l) && Prec(op) <= Level(l) && Weaker(stack, Prec(op))
    ensures Run([Operator(op)] + rest, State(stack + Pending(l), out + Emitted(l)))
         == Run(rest, State(stack + [Operator(op)], out + Postorder(Erase(l))))
  {
    hide Run, Reduce, UntilOpen, Reverse;
    RunStep(Operator(op), rest, State(stack + Pending(l), out + Emitted(l)));
    PendingBinds(l);
    ReduceAll(stack, Pending(l), out + Emitted(l), op);
    EmittedPending(l);
    assert out + Emitted(l) + Reverse(Pending(l)) == out + Postorder(Erase(l));
  }

  /** A closing parenthesis. */
  lemma RunClose(inner: Infix, rest: seq<Token>, stack: seq<Token>, out: seq<Token>)
    requires Grouped(inner)
    ensures Run([Close] + rest, State(stack + [Open] + Pending(inner), out + Emitted(inner)))
         == Run(rest, State(stack, out + Postorder(Erase(inner))))
  {
    hide Run, Reduce, UntilOpen, Reverse;
    RunStep(Close, rest, State(stack + [Open] + Pending(inner), out + Emitted(inner)));
    PendingBinds(inner);
    CloseAll(stack, Pending(inner), out + Emitted(inner));
    EmittedPending(inner);
    assert out + Emitted(inner) + Reverse(Pending(inner)) == out + Postorder(Erase(inner));
  }

  /** Reading a whole expression puts out its beginning and stacks the rest, whatever comes before and after. */
  lemma {:induction false} RunTokens(c: Infix, rest: seq<Token>, stack: seq<Token>, out: seq<Token>)
    requires Grouped(c) && Weaker(stack, Level(c))
    ensures Run(Tokens(c) + rest, State(stack, out)) == Run(rest, State(stack + Pending(c), out + Emitted(c)))
  {
    hide Run, Reduce, UntilOpen, Reverse;
    match c
    case Literal(n) =>
      RunStep(Number(n), rest, State(stack, out));
      assert stack + [] == stack;
    case Paren(inner) =>
      var base := stack + [Open];
      assert Tokens(c) + rest == [Open] + (Tokens(inner) + ([Close] + rest));
      RunStep(Open, Tokens(inner) + ([Close] + rest), State(stack, out));
      RunTokens(inner, [Close] + rest, base, out);
      RunClose(inner, rest, stack, out);
      assert stack + [] == stack;
    case Node(op, l, r) =>
      assert Tokens(c) + rest == Tokens(l) + ([Operator(op)] + (Tokens(r) + rest));
      RunTokens(l, [Operator(op)] + (Tokens(r) + rest), stack, out);
      RunOperator(op, l, Tokens(r) + rest, stack, out);
      RunTokens(r, rest, stack + [Operator(op)], out + Postorder(Erase(l)));
      assert stack + [Operator(op)] + Pending(r) == stack + Pending(c);
      assert out + Postorder(Erase(l)) + Emitted(r) == out + Emitted(c);
  }

  /** Infix to postfix: every way of writing an expression is translated to its postorder. */
  lemma TranslatesToPostorder(c: Infix)
    requires WellFormed(c)
    ensures Compiled(Tokens(c)) == Ok(Postorder(Erase(c)))
  {
    PrecedenceIsGrammar(c);
    RunTokens(c, [], [], []);
    assert Tokens(c) + [] == Tokens(c) && [] + Pending(c) == Pending(c) && [] + Emitted(c) == Emitted(c);
    EmittedPending(c);
  }

  // ---- evaluation ----

  /** The value of an expression, or the division by zero. */
  function Value(e: Expr): Result<real> {
    match e
    case Lit(n) => Ok(n as real)
    case Bin(op, l, r) =>
      var x, y := Value(l), Value(r);
      if x.Err? then x else if y.Err? then y
      else
        match op
        case Plus => Ok(x.value + y.value)
        case Minus => Ok(x.value - y.value)
        case Times => Ok(x.value * y.value)
        case Divide => if y.value == 0.0 then Err(DivisionByZero) else Ok(x.value / y.value)
  }

  /** doMath: any token that is not one of the first three operators subtracts. */
  function DoMath(t: Token, x: real, y: real): Result<real> {
    if t == Operator(Times) then Ok(x * y)
    else if t == Operator(Divide) then (if y == 0.0 then Err(DivisionByZero) else Ok(x / y))
    else if t == Operator(Plus) then Ok(x + y)
    else Ok(x - y)
  }

  function Evaluate(tokens: seq<Token>, stack: seq<real>): Result<real> {
    var n := |stack|;
    if tokens == [] then (if n == 0 then Err(PopFromEmpty) else Ok(stack[n - 1]))
    else if tokens[0].Number? then Evaluate(tokens[1..], stack + [tokens[0].value as real])
    else if n < 2 then Err(PopFromEmpty)
    else
      var r := DoMath(tokens[0], stack[n - 2], stack[n - 1]);
      if r.Err? then r else Evaluate(tokens[1..], stack[..n - 2] + [r.value])
  }

  method PostfixVal(tokens: seq<Token>) returns (r: Result<real>)
    ensures r == Evaluate(tokens, [])
  {
    var operandStack := new Stack<real>();
    var i := 0;
    while i < |tokens|
      invariant i <= |tokens| && fresh(operandStack)
      invariant Evaluate(tokens[i..], operandStack.items) == Evaluate(tokens, [])
    {
      var token := tokens[i];
      assert tokens[i..][1..] == tokens[i + 1..];
      if token.Number? {
        operandStack.Push(token.value as real);
      } else {
        ghost var items := operandStack.items;
        var operand2 := operandStack.Pop();
        if operand2.Err? {
          return operand2;
        }
        var operand1 := operandStack.Pop();
        if operand1.Err? {
          return operand1;
        }
        assert items[..|items| - 2] == operandStack.items;
        var res := DoMath(token, operand1.value, operand2.value);
        if res.Err? {
          return res;
        }
        operandStack.Push(res.value);
      }
      i := i + 1;
    }
    r := operandStack.Pop();
  }

  lemma {:induction false} EvaluatePostorder(e: Expr, rest: seq<Token>, stack: seq<real>)
    ensures Evaluate(Postorder(e) + rest, stack) ==
            match Value(e)
            case Ok(v) => Evaluate(rest, stack + [v])
            case Err(error) => Err(error)
  {
    match e
    case Lit(n) =>
      assert ([Number(n)] + rest)[1..] == rest;
    case Bin(op, l, r) =>
      assert Postorder(e) + rest == Postorder(l) + (Postorder(r) + ([Operator(op)] + rest));
      hide DoMath, Value;
      OperandErrors(e);
      EvaluatePostorder(l, Postorder(r) + ([Operator(op)] + rest), stack);
      if Value(l).Ok? {
        var x := Value(l).value;
        EvaluatePostorder(r, [Operator(op)] + rest, stack + [x]);
        if Value(r).Ok? {
          var y := Value(r).value;
          var s := stack + [x] + [y];
          assert ([Operator(op)] + rest)[1..] == rest;
          assert s[..|s| - 2] == stack && s[|s| - 2] == x && s[|s| - 1] == y;
          Computes(e);
        }
      }
  }

  lemma OperandErrors(e: Expr)
    requires e.Bin?
    ensures Value(e.left).Err? ==> Value(e) == Value(e.left)
    ensures Value(e.left).Ok? && Value(e.right).Err? ==> Value(e) == Value(e.right)
  {
  }

  /** doMath computes what the operator stands for. */
  lemma Computes(e: Expr)
    requires e.Bin? && Value(e.left).Ok? && Value(e.right).Ok?
    ensures DoMath(Operator(e.op), Value(e.left).value, Value(e.right).value) == Value(e)
  {
  }

  /** Compiling and running gives the value of the expression, and the stacks are never popped when empty. */
  lemma CompilerCorrect(c: Infix)
    requires WellFormed(c)
    ensures Compiled(Tokens(c)).Ok? && Evaluate(Compiled(Tokens(c)).value, []) == Value(Erase(c))
  {
    TranslatesToPostorder(c);
    EvaluatePostorder(Erase(c), [], []);
    assert Postorder(Erase(c)) + [] == Postorder(Erase(c));
  }

  /** The same for the methods. */
  method CompileAndRun(c: Infix) returns (r: Result<real>)
    requires WellFormed(c)
    ensures r == Value(Erase(c))
  {
    CompilerCorrect(c);
    var p := Infix2Postfix(Tokens(c));
    r := PostfixVal(p.value);
  }

  // ---- a list of tokens stands for at most one expression ----

  /** The expressions that a postorder builds on a stack. */
  function Rebuilt(tokens: seq<Token>, stack: seq<Expr>): seq<Expr> {
    var n := |stack|;
    if tokens == [] then stack
    else if tokens[0].Number? then Rebuilt(tokens[1..], stack + [Lit(tokens[0].value)])
    else if n < 2 || !tokens[0].Operator? then []
    else Rebuilt(tokens[1..], stack[..n - 2] + [Bin(tokens[0].op, stack[n - 2], stack[n - 1])])
  }

  lemma {:induction false} RebuiltPostorder(e: Expr, rest: seq<Token>, stack: seq<Expr>)
    ensures Rebuilt(Postorder(e) + rest, stack) == Rebuilt(rest, stack + [e])
  {
    match e
    case Lit(n) =>
      assert ([Number(n)] + rest)[1..] == rest;
    case Bin(op, l, r) =>
      assert Postorder(e) + rest == Postorder(l) + (Postorder(r) + ([Operator(op)] + rest));
      RebuiltPostorder(l, Postorder(r) + ([Operator(op)] + rest), stack);
      RebuiltPostorder(r, [Operator(op)] + rest, stack + [l]);
      var s := stack + [l] + [r];
      assert ([Operator(op)] + rest)[1..] == rest;
      assert s[..|s| - 2] == stack && s[|s| - 2] == l && s[|s| - 1] == r;
  }

  /** Precedence and left associativity leave no choice: a list of tokens is a way of writing one expression only. */
  lemma Unambiguous(c: Infix, c': Infix)
    requires WellFormed(c) && WellFormed(c') && Tokens(c) == Tokens(c')
    ensures Erase(c) == Erase(c')
  {
    TranslatesToPostorder(c);
    TranslatesToPostorder(c');
    RebuiltPostorder(Erase(c), [], []);
    RebuiltPostorder(Erase(c'), [], []);
    assert Postorder(Erase(c)) == Postorder(Erase(c'));
    assert ([] + [Erase(c)])[0] == ([] + [Erase(c')])[0];
  }

  // ---- unbalanced input ----

  function Opens(stack: seq<Token>): nat {
    if stack == [] then 0 else Opens(stack[..|stack| - 1]) + (if stack[|stack| - 1] == Open then 1 else 0)
  }

  /** With `open` parentheses to be closed, none is closed before it is opened. */
  predicate Closable(tokens: seq<Token>, open: nat) {
    if tokens == [] then true
    else if tokens[0] == Open then Closable(tokens[1..], open + 1)
    else if tokens[0] == Close then open > 0 && Closable(tokens[1..], open - 1)
    else Closable(tokens[1..], open)
  }

  predicate Stacked(stack: seq<Token>) {
    forall i | 0 <= i < |stack| :: stack[i].Operator? || stack[i] == Open
  }

  lemma {:induction false} ReduceKeepsOpens(s: State, op: Op)
    requires Stacked(s.stack)
    ensures var r := Reduce(s, Operator(op)); r.Ok? && Stacked(r.value.stack) && Opens(r.value.stack) == Opens(s.stack)
    ensures Opens(Reduce(s, Operator(op)).value.out) == Opens(s.out)
    decreases |s.stack|
  {
    if s.stack != [] {
      var n := |s.stack| - 1;
      var top := s.stack[n];
      if !(top.Operator? && Prec(top.op) < Prec(op)) && top != Open {
        assert (s.out + [top])[..|s.out|] == s.out;
        ReduceKeepsOpens(State(s.stack[..n], s.out + [top]), op);
      }
    }
  }

  lemma {:induction false} CloseTakesOpen(s: State)
    requires Stacked(s.stack)
    ensures var r := UntilOpen(s);
            if Opens(s.stack) == 0 then r == Err(PopFromEmpty)
            else
              && r.Ok? && Stacked(r.value.stack) && Opens(r.value.stack) == Opens(s.stack) - 1
              && Opens(r.value.out) == Opens(s.out)
    decreases |s.stack|
  {
    if s.stack != [] && s.stack[|s.stack| - 1] != Open {
      var n := |s.stack| - 1;
      assert (s.out + [s.stack[n]])[..|s.out|] == s.out;
      CloseTakesOpen(State(s.stack[..n], s.out + [s.stack[n]]));
    }
  }

  lemma {:induction false} RunClosable(tokens: seq<Token>, s: State)
    requires Stacked(s.stack) && forall i | 0 <= i < |tokens| :: !tokens[i].Word?
    ensures Run(tokens, s).Ok? <==> Closable(tokens, Opens(s.stack))
    ensures Run(tokens, s).Err? ==> Run(tokens, s).error == PopFromEmpty
  {
    if tokens != [] {
      var t := tokens[0];
      if t.Operator? {
        ReduceKeepsOpens(s, t.op);
      } else if t == Close {
        CloseTakesOpen(s);
      }
      var r := Step(s, t);
      if r.Ok? {
        var next := r.value.stack;
        if t == Open || t.Operator? {
          assert next[..|next| - 1] == (if t == Open then s.stack else Reduce(s, t).value.stack);
        }
        RunClosable(tokens[1..], r.value);
      }
    }
  }

  /** The translation fails exactly when a closing parenthesis has no opening one, and then with an empty stack. An
      opening parenthesis that is never closed is not an error. */
  lemma FailsOnUnopened(tokens: seq<Token>)
    requires forall i | 0 <= i < |tokens| :: !tokens[i].Word?
    ensures Compiled(tokens).Ok? <==> Closable(tokens, 0)
    ensures Compiled(tokens).Err? ==> Compiled(tokens).error == PopFromEmpty
  {
    RunClosable(tokens, State([], []));
  }

  function Count(tokens: seq<Token>, t: Token): nat {
    if tokens == [] then 0 else (if tokens[0] == t then 1 else 0) + Count(tokens[1..], t)
  }

  lemma {:induction false} OpensAppend(a: seq<Token>, b: seq<Token>)
    ensures Opens(a + b) == Opens(a) + Opens(b)
  {
    if b == [] {
      assert a + b == a;
    } else {
      var n := |b| - 1;
      assert (a + b)[..|a + b| - 1] == a + b[..n];
      OpensAppend(a, b[..n]);
    }
  }

  lemma {:induction false} OpensReverse(s: seq<Token>)
    ensures Opens(Reverse(s)) == Opens(s)
  {
    if s != [] {
      OpensReverse(s[1..]);
      OpensAppend(Reverse(s[1..]), [s[0]]);
      OpensAppend([s[0]], s[1..]);
      assert [s[0]] + s[1..] == s;
    }
  }

  lemma {:induction false} OpensAtAll(s: seq<Token>)
    ensures Opens(s) == 0 <==> Open !in s
  {
    if s != [] {
      var n := |s| - 1;
      OpensAtAll(s[..n]);
      assert s == s[..n] + [s[n]];
    }
  }

  /** One token: an opening parenthesis is kept, a closing one takes one away, and nothing else does either. */
  lemma StepOpens(s: State, t: Token)
    requires Stacked(s.stack) && !t.Word? && Step(s, t).Ok?
    ensures var r := Step(s, t).value;
            && Stacked(r.stack)
            && Opens(r.stack) + Opens(r.out) + (if t == Close then 1 else 0)
               == Opens(s.stack) + Opens(s.out) + if t == Open then 1 else 0
  {
    var r := Step(s, t).value;
    if t.Operator? {
      ReduceKeepsOpens(s, t.op);
      assert r.stack[..|r.stack| - 1] == Reduce(s, t).value.stack;
    } else if t == Close {
      CloseTakesOpen(s);
    } else if t == Open {
      assert r.stack[..|s.stack|] == s.stack;
    } else {
      assert r.out[..|s.out|] == s.out;
    }
  }

  lemma {:induction false} RunOpens(tokens: seq<Token>, s: State)
    requires Stacked(s.stack) && (forall i | 0 <= i < |tokens| :: !tokens[i].Word?) && Run(tokens, s).Ok?
    ensures Opens(Run(tokens, s).value) + Count(tokens, Close) == Opens(s.stack) + Opens(s.out) + Count(tokens, Open)
    decreases |tokens|
  {
    hide Step, Opens, Stacked, Reverse;
    if tokens == [] {
      OpensAppend(s.out, Reverse(s.stack));
      OpensReverse(s.stack);
    } else {
      StepOpens(s, tokens[0]);
      RunOpens(tokens[1..], Step(s, tokens[0]).value);
    }
  }

  /** Of all input that is translated, exactly that with as many closing as opening parentheses gives a text without
      parentheses; each opening one too many ends up in the text. */
  lemma UnclosedEndUpInText(tokens: seq<Token>)
    requires (forall i | 0 <= i < |tokens| :: !tokens[i].Word?) && Compiled(tokens).Ok?
    ensures Opens(Compiled(tokens).value) == Count(tokens, Open) - Count(tokens, Close)
    ensures Open in Compiled(tokens).value <==> Count(tokens, Open) != Count(tokens, Close)
  {
    RunOpens(tokens, State([], []));
    OpensAtAll(Compiled(tokens).value);
  }

  /** There it is taken for a minus: the text of `a ( b` has the value a - b. */
  lemma UnclosedSubtracts(a: nat, b: nat)
    ensures Compiled([Number(a), Open, Number(b)]) == Ok([Number(a), Number(b), Open])
    ensures Evaluate([Number(a), Number(b), Open], []) == Ok((a - b) as real)
  {
    hide *;
    UnclosedText(a, b);
    UnclosedValue(a, b);
  }

  lemma UnclosedText(a: nat, b: nat)
    ensures Compiled([Number(a), Open, Number(b)]) == Ok([Number(a), Number(b), Open])
  {
    var tokens, text := [Number(a), Open, Number(b)], [Number(a), Number(b), Open];
    assert tokens[1..] == [Open, Number(b)] && tokens[1..][1..] == [Number(b)] && tokens[1..][1..][1..] == [];
    assert [] + [Open] == [Open] && [Number(a)] + [Number(b)] + Reverse([Open]) == text;
    var s1, s2 := State([], [Number(a)]), State([Open], [Number(a)]);
    var s3 := State([Open], [Number(a), Number(b)]);
    var none: seq<Token> := [];
    assert none + [Number(a)] == [Number(a)] && none + [Open] == [Open];
    assert [Number(a)] + [Number(b)] == [Number(a), Number(b)];
    assert Step(State([], []), Number(a)) == Ok(s1) && Step(s1, Open) == Ok(s2) && Step(s2, Number(b)) == Ok(s3);
    assert s3.out + Reverse(s3.stack) == text;
    hide Step, Reverse;
    assert Run([], s3) == Ok(text);
    assert Run([Number(b)], s2) == Run([], s3);
    assert Run([Open, Number(b)], s1) == Run([Number(b)], s2);
  }

  lemma UnclosedValue(a: nat, b: nat)
    ensures Evaluate([Number(a), Number(b), Open], []) == Ok((a - b) as real)
  {
    var x, y, z := a as real, b as real, (a - b) as real;
    var text := [Number(a), Number(b), Open];
    assert text[1..] == [Number(b), Open] && text[1..][1..] == [Open] && text[1..][1..][1..] == [];
    assert [] + [x] == [x] && [x] + [y] == [x, y] && [x, y][..0] + [z] == [z] && x - y == z;
    assert Evaluate([], [z]) == Ok(z);
    assert Evaluate([Open], [x, y]) == Evaluate([], [z]);
    assert Evaluate([Number(b), Open], [x]) == Evaluate([Open], [x, y]);
  }

  /** It is put out as if it were an operator. */
  lemma UnclosedIsEmitted(c: Infix)
    requires WellFormed(c)
    ensures Compiled([Open] + Tokens(c)) == Ok(Postorder(Erase(c)) + [Open])
  {
    PrecedenceIsGrammar(c);
    RunStep(Open, Tokens(c), State([], []));
    assert Tokens(c) + [] == Tokens(c) && [] + [Open] == [Open] && [] + Emitted(c) == Emitted(c);
    RunTokens(c, [], [Open], []);
    UnclosedDrained(c);
    hide Reverse, Tokens, Postorder, Emitted, Pending;
  }

  lemma UnclosedDrained(c: Infix)
    ensures Emitted(c) + Reverse([Open] + Pending(c)) == Postorder(Erase(c)) + [Open]
  {
    ReverseAppend([Open], Pending(c));
    EmittedPending(c);
    assert Reverse([Open]) == [Open];
    assert Emitted(c) + (Reverse(Pending(c)) + [Open]) == Emitted(c) + Reverse(Pending(c)) + [Open];
  }

  /** Evaluation then misses an operand. */
  lemma UnclosedMissesOperand(e: Expr)
    ensures Evaluate(Postorder(e) + [Open], []).Err?
    ensures Value(e).Ok? ==> Evaluate(Postorder(e) + [Open], []) == Err(PopFromEmpty)
  {
    EvaluatePostorder(e, [Open], []);
  }
}
