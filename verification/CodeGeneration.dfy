/** Arithmetic expression trees compiled to straight-line single-assignment code, with the arguments taken from a
    cursor. */
module CodeGeneration {
  import opened Basics

  const MIN: int := -0x8000_0000_0000_0000
  const MAX: int := 0x7FFF_FFFF_FFFF_FFFF

  type Int64 = x: int | MIN <= x <= MAX

  datatype Operation = Addition | Subtraction | Multiplication | Division

  datatype Node =
    | Constant(constant: Int64)
    | Variable(name: string)
    | Binary(operation: Operation, left: Node, right: Node)

  // ----- arithmetic

  /** The 64-bit two's complement number with the same low bits. */
  function Wrap(x: int): Int64 {
    (x + 0x8000_0000_0000_0000) % 0x1_0000_0000_0000_0000 - 0x8000_0000_0000_0000
  }

  /** It is the only number in range that differs by a multiple of the word size. */
  lemma WrapsAround(x: int, y: Int64)
    ensures y == Wrap(x) <==> (y - x) % 0x1_0000_0000_0000_0000 == 0
  {
    var m := 0x1_0000_0000_0000_0000;
    var q := (x + 0x8000_0000_0000_0000) / m;
    assert x + 0x8000_0000_0000_0000 == q * m + (x + 0x8000_0000_0000_0000) % m;
    assert Wrap(x) - x == -q * m;
    assert y - x == (y - Wrap(x)) + (-q) * m;
  }

  function Abs(x: int): nat {
    if x < 0 then -x else x
  }

  /** Signed division rounds towards zero. */
  function Quotient(a: int, b: int): int
    requires b != 0
  {
    if (a < 0) == (b < 0) then Abs(a) / Abs(b) else -(Abs(a) / Abs(b))
  }

  lemma Multiple(q: nat, y: nat, k: nat)
    requires k <= y
    ensures k * q <= q * y
  {
    assert q * y == q * k + q * (y - k);
  }

  lemma NaturalQuotient(x: nat, y: nat, q: nat)
    requires y > 0 && q == x / y
    ensures q * y <= x < q * y + y && q <= x && (y > 1 ==> 2 * q <= x) && (y == 1 ==> q == x)
  {
    assert x == q * y + x % y;
    Multiple(q, y, 1);
    if y > 1 {
      Multiple(q, y, 2);
    }
  }

  lemma Magnitude(a: int, b: int) returns (q: nat)
    requires b != 0
    ensures (a < 0) == (b < 0) ==> Quotient(a, b) == q
    ensures (a < 0) != (b < 0) ==> Quotient(a, b) + q == 0
    ensures q * Abs(b) <= Abs(a) < q * Abs(b) + Abs(b) && q <= Abs(a)
    ensures (Abs(b) > 1 ==> 2 * q <= Abs(a)) && (Abs(b) == 1 ==> q == Abs(a))
  {
    q := Abs(a) / Abs(b);
    NaturalQuotient(Abs(a), Abs(b), q);
  }

  /** What is left over is smaller than the divisor and has the dividend's sign. */
  lemma QuotientTruncates(a: int, b: int)
    requires b != 0
    ensures var r := a - Quotient(a, b) * b;
            Abs(r) < Abs(b) && (r != 0 ==> (r < 0 <==> a < 0))
  {
    var q := Magnitude(a, b);
    hide Quotient;
    var m := q * Abs(b);
    assert Quotient(a, b) * b == if a < 0 then -m else m by {
      assert b < 0 ==> q * b == -m && (-q) * b == m;
      assert b > 0 ==> q * b == m && (-q) * b == -m;
    }
  }

  /** The quotient leaves the range only for the smallest number divided by -1. */
  lemma QuotientFits(a: Int64, b: Int64)
    requires b != 0
    ensures MIN <= Quotient(a, b) <= MAX <==> !(a == MIN && b == -1)
  {
    var q := Magnitude(a, b);
    hide Quotient;
    if Abs(b) > 1 {
      assert 2 * q <= Abs(a);
    }
  }

  /** None where the instruction is undefined: a zero divisor, or a quotient out of range. */
  function Apply(operation: Operation, a: Int64, b: Int64): Option<Int64> {
    match operation
    case Addition => Some(Wrap(a + b))
    case Subtraction => Some(Wrap(a - b))
    case Multiplication => Some(Wrap(a * b))
    case Division =>
      if b == 0 || (a == MIN && b == -1) then None
      else
        QuotientFits(a, b);
        Some(Quotient(a, b))
  }

  function Both(operation: Operation, x: Option<Int64>, y: Option<Int64>): Option<Int64> {
    if x.None? || y.None? then None else Apply(operation, x.value, y.value)
  }

  // ----- the meaning of the tree: the p-th variable from the left is the p-th argument

  function CountVariables(node: Node): nat {
    match node
    case Constant(_) => 0
    case Variable(_) => 1
    case Binary(_, left, right) => CountVariables(left) + CountVariables(right)
  }

  function Eval(node: Node, arguments: seq<Int64>): Option<Int64>
    requires |arguments| == CountVariables(node)
  {
    match node
    case Constant(c) => Some(c)
    case Variable(_) => Some(arguments[0])
    case Binary(operation, left, right) =>
      var k := CountVariables(left);
      Both(operation, Eval(left, arguments[..k]), Eval(right, arguments[k..]))
  }

  // ----- the meaning in numbers

  /** What an operation on two words gives, in terms of whole numbers: a word that differs from the result by a multiple
      of the word size, or the quotient that leaves the smaller remainder with the dividend's sign; nothing where the
      instruction is undefined. */
  ghost predicate IsResult(operation: Operation, a: int, b: int, value: Option<Int64>) {
    match operation
    case Addition => value.Some? && (value.value - (a + b)) % 0x1_0000_0000_0000_0000 == 0
    case Subtraction => value.Some? && (value.value - (a - b)) % 0x1_0000_0000_0000_0000 == 0
    case Multiplication => value.Some? && (value.value - a * b) % 0x1_0000_0000_0000_0000 == 0
    case Division =>
      if b == 0 || (a == -0x8000_0000_0000_0000 && b == -1) then value.None?
      else
        value.Some? &&
        var r := a - value.value * b;
        (if r < 0 then -r else r) < (if b < 0 then -b else b) && (r != 0 ==> (r < 0 <==> a < 0))
  }

  lemma ApplyIs(operation: Operation, a: Int64, b: Int64)
    ensures IsResult(operation, a, b, Apply(operation, a, b))
  {
    hide Wrap, Quotient;
    match operation
    case Addition => WrapsAround(a + b, Wrap(a + b));
    case Subtraction => WrapsAround(a - b, Wrap(a - b));
    case Multiplication => WrapsAround(a * b, Wrap(a * b));
    case Division =>
      if b != 0 {
        QuotientTruncates(a, b);
      }
  }

  /** There is only one such result. */
  lemma IsResultOnce(operation: Operation, a: Int64, b: Int64, v: Option<Int64>, w: Option<Int64>)
    requires IsResult(operation, a, b, v) && IsResult(operation, a, b, w)
    ensures v == w
  {
    hide Wrap;
    match operation
    case Addition => SameWord(a + b, v.value, w.value);
    case Subtraction => SameWord(a - b, v.value, w.value);
    case Multiplication => SameWord(a * b, v.value, w.value);
    case Division =>
      if v.Some? {
        SameQuotient(a, b, v.value, w.value);
      }
  }

  lemma SameWord(x: int, v: Int64, w: Int64)
    requires (v - x) % 0x1_0000_0000_0000_0000 == 0 && (w - x) % 0x1_0000_0000_0000_0000 == 0
    ensures v == w
  {
    WrapsAround(x, v);
    WrapsAround(x, w);
  }

  lemma SameQuotient(a: int, b: int, v: int, w: int)
    requires b != 0
    requires var r := a - v * b; Abs(r) < Abs(b) && (r != 0 ==> (r < 0 <==> a < 0))
    requires var r := a - w * b; Abs(r) < Abs(b) && (r != 0 ==> (r < 0 <==> a < 0))
    ensures v == w
  {
    assert v * b - w * b == (v - w) * b;
    MultipleIsLarge(v - w, b);
  }

  lemma MultipleIsLarge(d: int, b: int)
    ensures d == 0 || Abs(d * b) >= Abs(b)
  {
    if d >= 1 {
      assert d * b == b + (d - 1) * b;
    } else if d <= -1 {
      assert d * b == -b + (d + 1) * b;
    }
  }

  /** The value of an expression, operation by operation. */
  ghost predicate Means(node: Node, arguments: seq<Int64>, value: Option<Int64>)
    requires |arguments| == CountVariables(node)
  {
    match node
    case Constant(c) => value == Some(c)
    case Variable(_) => value == Some(arguments[0])
    case Binary(operation, left, right) =>
      var k := CountVariables(left);
      exists x, y ::
        Means(left, arguments[..k], x) && Means(right, arguments[k..], y) && Combined(operation, x, y, value)
  }

  ghost predicate Combined(operation: Operation, x: Option<Int64>, y: Option<Int64>, value: Option<Int64>) {
    if x.None? || y.None? then value.None? else IsResult(operation, x.value, y.value, value)
  }

  /** Evaluation gives this value and no other. */
  lemma {:induction false} EvalMeans(node: Node, arguments: seq<Int64>, value: Option<Int64>)
    requires |arguments| == CountVariables(node)
    ensures Means(node, arguments, value) <==> value == Eval(node, arguments)
  {
    if node.Binary? {
      var k := CountVariables(node.left);
      var l, r := arguments[..k], arguments[k..];
      var x, y := Eval(node.left, l), Eval(node.right, r);
      EvalMeans(node.left, l, x);
      EvalMeans(node.right, r, y);
      hide Apply, IsResult;
      if x.Some? && y.Some? {
        ApplyIs(node.operation, x.value, y.value);
      }
      assert Combined(node.operation, x, y, Eval(node, arguments));
      if Means(node, arguments, value) {
        var x', y' :| Means(node.left, l, x') && Means(node.right, r, y') && Combined(node.operation, x', y', value);
        EvalMeans(node.left, l, x');
        EvalMeans(node.right, r, y');
        if x.Some? && y.Some? {
          IsResultOnce(node.operation, x.value, y.value, value, Eval(node, arguments));
        }
      }
    }
  }

  predicate NoDivision(node: Node) {
    node.Binary? ==> !node.operation.Division? && NoDivision(node.left) && NoDivision(node.right)
  }

  /** The value in whole numbers, without any word size. */
  function Number(node: Node, arguments: seq<Int64>): int
    requires |arguments| == CountVariables(node) && NoDivision(node)
  {
    match node
    case Constant(c) => c
    case Variable(_) => arguments[0]
    case Binary(operation, left, right) =>
      var x := Number(left, arguments[..CountVariables(left)]);
      var y := Number(right, arguments[CountVariables(left)..]);
      match operation
      case Addition => x + y
      case Subtraction => x - y
      case _ => x * y
  }

  ghost predicate Congruent(x: int, y: int) {
    exists k :: x == y + k * 0x1_0000_0000_0000_0000
  }

  lemma CongruentIff(x: int, y: int)
    ensures Congruent(x, y) <==> (x - y) % 0x1_0000_0000_0000_0000 == 0
  {
    var m := 0x1_0000_0000_0000_0000;
    if (x - y) % m == 0 {
      assert x == y + ((x - y) / m) * m;
    }
  }

  lemma CongruentOperation(operation: Operation, a: int, b: int, x: int, y: int, v: int)
    requires !operation.Division? && Congruent(a, x) && Congruent(b, y)
    requires Congruent(v, match operation case Addition => a + b case Subtraction => a - b case _ => a * b)
    ensures Congruent(v, match operation case Addition => x + y case Subtraction => x - y case _ => x * y)
  {
    var m := 0x1_0000_0000_0000_0000;
    var i :| a == x + i * m;
    var j :| b == y + j * m;
    match operation
    case Addition =>
      var k :| v == a + b + k * m;
      assert v == x + y + (i + j + k) * m;
    case Subtraction =>
      var k :| v == a - b + k * m;
      assert v == x - y + (i - j + k) * m;
    case Multiplication =>
      var k :| v == a * b + k * m;
      Products(x, y, i, j, m);
      assert v == x * y + (x * j + i * y + i * j * m + k) * m;
  }

  lemma Products(x: int, y: int, i: int, j: int, m: int)
    ensures (x + i * m) * (y + j * m) == x * y + (x * j + i * y + i * j * m) * m
  {
    assert (x + i * m) * (y + j * m) == x * y + x * (j * m) + (i * m) * y + (i * m) * (j * m);
    assert x * (j * m) == x * j * m && (i * m) * y == i * y * m && (i * m) * (j * m) == i * j * m * m;
  }

  /** Without divisions an expression always has a value: its number, wrapped around once. */
  lemma {:induction false} EvalIsNumber(node: Node, arguments: seq<Int64>)
    requires |arguments| == CountVariables(node) && NoDivision(node)
    ensures Eval(node, arguments).Some?
    ensures (Eval(node, arguments).value - Number(node, arguments)) % 0x1_0000_0000_0000_0000 == 0
  {
    if node.Binary? {
      var k := CountVariables(node.left);
      var l, r := arguments[..k], arguments[k..];
      EvalIsNumber(node.left, l);
      EvalIsNumber(node.right, r);
      var a, b := Eval(node.left, l).value, Eval(node.right, r).value;
      ApplyIs(node.operation, a, b);
      NumberStep(node.operation, a, b, Number(node.left, l), Number(node.right, r), Apply(node.operation, a, b));
    }
  }

  lemma NumberStep(operation: Operation, a: Int64, b: Int64, x: int, y: int, v: Option<Int64>)
    requires !operation.Division? && IsResult(operation, a, b, v)
    requires (a - x) % 0x1_0000_0000_0000_0000 == 0 && (b - y) % 0x1_0000_0000_0000_0000 == 0
    ensures v.Some?
    ensures (v.value - match operation case Addition => x + y case Subtraction => x - y case _ => x * y)
            % 0x1_0000_0000_0000_0000 == 0
  {
    var of := (p: int, q: int) => match operation case Addition => p + q case Subtraction => p - q case _ => p * q;
    CongruentIff(a, x);
    CongruentIff(b, y);
    CongruentIff(v.value, of(a, b));
    CongruentIff(v.value, of(x, y));
    hide Congruent;
    CongruentOperation(operation, a, b, x, y, v.value);
  }

  // ----- the meaning of the code

  /** An operand: a constant, a parameter of the function, or the result of an instruction. */
  datatype Value = Const(constant: Int64) | Parameter(index: nat) | Result(index: nat)

  datatype Instruction = Instruction(operation: Operation, left: Value, right: Value)

  /** Operands are known once the parameters and that many instructions are. */
  predicate Known(v: Value, parameters: nat, instructions: nat) {
    match v
    case Const(_) => true
    case Parameter(i) => i < parameters
    case Result(i) => i < instructions
  }

  predicate WellFormed(code: seq<Instruction>, parameters: nat) {
    forall i :: 0 <= i < |code| ==> Known(code[i].left, parameters, i) && Known(code[i].right, parameters, i)
  }

  function Operand(v: Value, args: seq<Int64>, results: seq<Int64>): Int64
    requires Known(v, |args|, |results|)
  {
    match v
    case Const(c) => c
    case Parameter(i) => args[i]
    case Result(i) => results[i]
  }

  /** The results of all instructions, executed one after the other. */
  function Execute(code: seq<Instruction>, args: seq<Int64>): (results: Option<seq<Int64>>)
    requires WellFormed(code, |args|)
    ensures results.Some? ==> |results.value| == |code|
  {
    if code == [] then Some([])
    else
      var n := |code| - 1;
      var before := Execute(code[..n], args);
      if before == None then None
      else
        var x := Apply(code[n].operation, Operand(code[n].left, args, before.value),
                       Operand(code[n].right, args, before.value));
        if x == None then None else Some(before.value + [x.value])
  }

  lemma {:induction false} ExecutePrefix(code: seq<Instruction>, args: seq<Int64>, n: nat)
    requires WellFormed(code, |args|) && n <= |code| && Execute(code, args).Some?
    ensures Execute(code[..n], args) == Some(Execute(code, args).value[..n])
  {
    if n < |code| {
      var m := |code| - 1;
      ExecutePrefix(code[..m], args, n);
      assert code[..m][..n] == code[..n];
      assert Execute(code, args).value[..m] == Execute(code[..m], args).value;
      assert Execute(code, args).value[..n] == Execute(code, args).value[..m][..n];
    } else {
      assert code[..n] == code;
      assert Execute(code, args).value[..n] == Execute(code, args).value;
    }
  }

  // ----- the compiler

  datatype Emitted = Emitted(value: Value, cursor: nat, code: seq<Instruction>)

  /** For each operation, whether its right operand is visited first. C++ leaves that to the compiler at every call. */
  type Order = Operation -> bool

  function Compile(node: Node, cursor: nat, code: seq<Instruction>, rightFirst: Order): (e: Emitted)
    ensures e.cursor == cursor + CountVariables(node) && code <= e.code
  {
    match node
    case Constant(c) => Emitted(Const(c), cursor, code)
    case Variable(_) => Emitted(Parameter(cursor), cursor + 1, code)
    case Binary(operation, left, right) =>
      if rightFirst(operation) then
        var r := Compile(right, cursor, code, rightFirst);
        var l := Compile(left, r.cursor, r.code, rightFirst);
        Emitted(Result(|l.code|), l.cursor, l.code + [Instruction(operation, l.value, r.value)])
      else
        var l := Compile(left, cursor, code, rightFirst);
        var r := Compile(right, l.cursor, l.code, rightFirst);
        Emitted(Result(|r.code|), r.cursor, r.code + [Instruction(operation, l.value, r.value)])
  }

  // ----- the compiled code means what the tree means

  function Reverse<T>(s: seq<T>): (r: seq<T>)
    ensures |r| == |s|
  {
    seq(|s|, i requires 0 <= i < |s| => s[|s| - 1 - i])
  }

  lemma ReverseTwice<T>(s: seq<T>)
    ensures Reverse(Reverse(s)) == s
  {
  }

  /** What the variables of an expression are bound to, from left to right, when the visits take the arguments in
      turn. */
  function Binding<T>(node: Node, args: seq<T>, rightFirst: Order): (r: seq<T>)
    requires |args| == CountVariables(node)
    ensures |r| == |args|
  {
    match node
    case Constant(_) => []
    case Variable(_) => args
    case Binary(operation, left, right) =>
      if rightFirst(operation) then
        var k := CountVariables(right);
        Binding(left, args[k..], rightFirst) + Binding(right, args[..k], rightFirst)
      else
        var k := CountVariables(left);
        Binding(left, args[..k], rightFirst) + Binding(right, args[k..], rightFirst)
  }

  lemma KnownLater(v: Value, parameters: nat, n: nat, m: nat)
    requires Known(v, parameters, n) && n <= m
    ensures Known(v, parameters, m)
  {
  }

  /** The state of an execution: the operand has this value, or execution stopped. */
  ghost predicate Yields(v: Value, code: seq<Instruction>, args: seq<Int64>, x: Option<Int64>)
    requires WellFormed(code, |args|) && Known(v, |args|, |code|)
  {
    match x
    case None => Execute(code, args) == None
    case Some(y) => Execute(code, args).Some? && Operand(v, args, Execute(code, args).value) == y
  }

  /** More code can only add results, or stop. */
  lemma YieldsLater(v: Value, code: seq<Instruction>, code': seq<Instruction>, args: seq<Int64>, x: Option<Int64>)
    requires code <= code' && WellFormed(code', |args|) && WellFormed(code, |args|) && Known(v, |args|, |code|)
    requires Yields(v, code, args, x)
    ensures Known(v, |args|, |code'|)
    ensures Execute(code', args).Some? ==> Yields(v, code', args, x)
    ensures x == None ==> Execute(code', args) == None
  {
    if Execute(code', args).Some? {
      ExecutePrefix(code', args, |code|);
      assert code'[..|code|] == code;
    }
  }

  /** One more instruction combines two operands. */
  lemma YieldsBinary(operation: Operation, l: Value, r: Value, code: seq<Instruction>, args: seq<Int64>,
                     x: Option<Int64>, y: Option<Int64>)
    requires WellFormed(code, |args|) && Known(l, |args|, |code|) && Known(r, |args|, |code|)
    requires if x.None? || y.None? then Execute(code, args) == None
             else Yields(l, code, args, x) && Yields(r, code, args, y)
    ensures var code' := code + [Instruction(operation, l, r)];
            && WellFormed(code', |args|)
            && Yields(Result(|code|), code', args, Both(operation, x, y))
  {
    var code' := code + [Instruction(operation, l, r)];
    assert code'[..|code|] == code;
    hide Apply;
  }

  /** The value of a subexpression whose visit starts at a cursor. */
  ghost function Meaning(node: Node, args: seq<Int64>, cursor: nat, rightFirst: Order): Option<Int64>
    requires cursor + CountVariables(node) <= |args|
  {
    Eval(node, Binding(node, args[cursor..cursor + CountVariables(node)], rightFirst))
  }

  lemma MeaningBinary(operation: Operation, left: Node, right: Node, args: seq<Int64>, cursor: nat, rightFirst: Order)
    requires cursor + CountVariables(left) + CountVariables(right) <= |args|
    ensures CountVariables(Binary(operation, left, right)) == CountVariables(left) + CountVariables(right)
    ensures Meaning(Binary(operation, left, right), args, cursor, rightFirst)
      == if rightFirst(operation)
         then Both(operation, Meaning(left, args, cursor + CountVariables(right), rightFirst),
                   Meaning(right, args, cursor, rightFirst))
         else Both(operation, Meaning(left, args, cursor, rightFirst),
                   Meaning(right, args, cursor + CountVariables(left), rightFirst))
  {
    hide Binding, Both, Eval, CountVariables;
    var kl, kr := CountVariables(left), CountVariables(right);
    var seen := args[cursor..cursor + kl + kr];
    BindingBinary(operation, left, right, seen, rightFirst);
    if rightFirst(operation) {
      assert seen[..kr] == args[cursor..cursor + kr] && seen[kr..] == args[cursor + kr..cursor + kr + kl];
      EvalOperands(operation, left, right, Binding(left, seen[kr..], rightFirst),
                   Binding(right, seen[..kr], rightFirst));
    } else {
      assert seen[..kl] == args[cursor..cursor + kl] && seen[kl..] == args[cursor + kl..cursor + kl + kr];
      EvalOperands(operation, left, right, Binding(left, seen[..kl], rightFirst),
                   Binding(right, seen[kl..], rightFirst));
    }
  }

  lemma BindingBinary<T>(operation: Operation, left: Node, right: Node, args: seq<T>, rightFirst: Order)
    requires |args| == CountVariables(left) + CountVariables(right)
    ensures CountVariables(Binary(operation, left, right)) == CountVariables(left) + CountVariables(right)
    ensures Binding(Binary(operation, left, right), args, rightFirst)
      == var kl, kr := CountVariables(left), CountVariables(right);
         if rightFirst(operation) then Binding(left, args[kr..], rightFirst) + Binding(right, args[..kr], rightFirst)
         else Binding(left, args[..kl], rightFirst) + Binding(right, args[kl..], rightFirst)
  {
  }

  lemma EvalOperands(operation: Operation, left: Node, right: Node, l: seq<Int64>, r: seq<Int64>)
    requires |l| == CountVariables(left) && |r| == CountVariables(right)
    ensures Eval(Binary(operation, left, right), l + r) == Both(operation, Eval(left, l), Eval(right, r))
  {
    assert (l + r)[..|l|] == l && (l + r)[|l|..] == r;
    hide Both;
  }

  lemma CompileBinary(operation: Operation, left: Node, right: Node, cursor: nat, code: seq<Instruction>,
                      rightFirst: Order)
    ensures rightFirst(operation) ==>
      var r := Compile(right, cursor, code, rightFirst);
      var l := Compile(left, r.cursor, r.code, rightFirst);
      Compile(Binary(operation, left, right), cursor, code, rightFirst)
      == Emitted(Result(|l.code|), l.cursor, l.code + [Instruction(operation, l.value, r.value)])
    ensures !rightFirst(operation) ==>
      var l := Compile(left, cursor, code, rightFirst);
      var r := Compile(right, l.cursor, l.code, rightFirst);
      Compile(Binary(operation, left, right), cursor, code, rightFirst)
      == Emitted(Result(|r.code|), r.cursor, r.code + [Instruction(operation, l.value, r.value)])
  {
  }

  /** Execution from before the code of an expression to behind it. */
  ghost predicate Reaches(before: seq<Instruction>, v: Value, code: seq<Instruction>, args: seq<Int64>,
                          x: Option<Int64>)
    requires WellFormed(before, |args|) && WellFormed(code, |args|) && Known(v, |args|, |code|)
  {
    if Execute(before, args) == None then Execute(code, args) == None else Yields(v, code, args, x)
  }

  /** After both operands: both values are there, or execution stopped. */
  ghost predicate BothReached(before: seq<Instruction>, l: Value, r: Value, code: seq<Instruction>, args: seq<Int64>,
                              x: Option<Int64>, y: Option<Int64>)
    requires WellFormed(before, |args|) && WellFormed(code, |args|) && Known(l, |args|, |code|) &&
             Known(r, |args|, |code|)
  {
    if Execute(before, args) == None || x == None || y == None then Execute(code, args) == None
    else Yields(l, code, args, x) && Yields(r, code, args, y)
  }

  lemma Visited(first: Value, second: Value, before: seq<Instruction>, between: seq<Instruction>,
                code: seq<Instruction>,
                args: seq<Int64>, x: Option<Int64>, y: Option<Int64>)
    requires between <= code && WellFormed(before, |args|) && WellFormed(between, |args|) && WellFormed(code, |args|)
    requires Known(first, |args|, |between|) && Known(second, |args|, |code|)
    requires Reaches(before, first, between, args, x) && Reaches(between, second, code, args, y)
    ensures Known(first, |args|, |code|)
    ensures BothReached(before, first, second, code, args, x, y) && BothReached(before, second, first, code, args, y, x)
  {
    KnownLater(first, |args|, |between|, |code|);
    if Execute(before, args).Some? {
      YieldsLater(first, between, code, args, x);
    }
    hide Execute, Operand, WellFormed, Known;
  }

  lemma AppendBinary(operation: Operation, l: Value, r: Value, before: seq<Instruction>, code: seq<Instruction>,
                     args: seq<Int64>, x: Option<Int64>, y: Option<Int64>)
    requires WellFormed(before, |args|) && WellFormed(code, |args|) && Known(l, |args|, |code|) &&
             Known(r, |args|, |code|)
    requires BothReached(before, l, r, code, args, x, y)
    ensures var code' := code + [Instruction(operation, l, r)];
            WellFormed(code', |args|) && Known(Result(|code|), |args|, |code'|) &&
            Reaches(before, Result(|code|), code', args, Both(operation, x, y))
  {
    var code' := code + [Instruction(operation, l, r)];
    assert code'[..|code|] == code;
    if Execute(before, args).Some? {
      YieldsBinary(operation, l, r, code, args, x, y);
    }
  }

  lemma CompiledLeaf(node: Node, cursor: nat, code: seq<Instruction>, rightFirst: Order, args: seq<Int64>)
    requires !node.Binary? && WellFormed(code, |args|) && cursor + CountVariables(node) <= |args|
    ensures var e := Compile(node, cursor, code, rightFirst);
            && WellFormed(e.code, |args|) && Known(e.value, |args|, |e.code|)
            && Reaches(code, e.value, e.code, args, Meaning(node, args, cursor, rightFirst))
  {
  }

  /** Subexpression by subexpression: compiled after any code, at any cursor, whatever the order of visits. */
  lemma {:induction false} Compiled(node: Node, cursor: nat, code: seq<Instruction>, rightFirst: Order,
                                    args: seq<Int64>)
    requires WellFormed(code, |args|) && cursor + CountVariables(node) <= |args|
    ensures var e := Compile(node, cursor, code, rightFirst);
            && WellFormed(e.code, |args|) && Known(e.value, |args|, |e.code|)
            && Reaches(code, e.value, e.code, args, Meaning(node, args, cursor, rightFirst))
  {
    hide *;
    match node
    case Constant(_) => CompiledLeaf(node, cursor, code, rightFirst, args);
    case Variable(_) => CompiledLeaf(node, cursor, code, rightFirst, args);
    case Binary(operation, left, right) =>
      BinaryCount(operation, left, right);
      CompileBinary(operation, left, right, cursor, code, rightFirst);
      MeaningBinary(operation, left, right, args, cursor, rightFirst);
      if rightFirst(operation) {
        var r := Compile(right, cursor, code, rightFirst);
        var l := Compile(left, r.cursor, r.code, rightFirst);
        Compiled(right, cursor, code, rightFirst, args);
        Compiled(left, r.cursor, r.code, rightFirst, args);
        var x, y := Meaning(left, args, r.cursor, rightFirst), Meaning(right, args, cursor, rightFirst);
        Visited(r.value, l.value, code, r.code, l.code, args, y, x);
        AppendBinary(operation, l.value, r.value, code, l.code, args, x, y);
      } else {
        var l := Compile(left, cursor, code, rightFirst);
        var r := Compile(right, l.cursor, l.code, rightFirst);
        Compiled(left, cursor, code, rightFirst, args);
        Compiled(right, l.cursor, l.code, rightFirst, args);
        var x, y := Meaning(left, args, cursor, rightFirst), Meaning(right, args, l.cursor, rightFirst);
        Visited(l.value, r.value, code, l.code, r.code, args, x, y);
        AppendBinary(operation, l.value, r.value, code, r.code, args, x, y);
      }
  }

  lemma BinaryCount(operation: Operation, left: Node, right: Node)
    ensures CountVariables(Binary(operation, left, right)) == CountVariables(left) + CountVariables(right)
  {
  }

  // ----- when the arguments come out right

  /** Wherever both operands have variables, the right one is visited first. */
  predicate RightToLeft(node: Node, rightFirst: Order) {
    match node
    case Constant(_) => true
    case Variable(_) => true
    case Binary(operation, left, right) =>
      && RightToLeft(left, rightFirst) && RightToLeft(right, rightFirst)
      && (rightFirst(operation) || CountVariables(left) == 0 || CountVariables(right) == 0)
  }

  lemma ReverseJoin<T>(a: seq<T>, b: seq<T>)
    ensures Reverse(a + b) == Reverse(b) + Reverse(a)
  {
  }

  lemma {:induction false} ReversedBinding<T>(node: Node, args: seq<T>, rightFirst: Order)
    requires |args| == CountVariables(node) && RightToLeft(node, rightFirst)
    ensures Binding(node, args, rightFirst) == Reverse(args)
  {
    match node
    case Constant(_) =>
    case Variable(_) =>
    case Binary(operation, left, right) =>
      var k := CountVariables(if rightFirst(operation) then right else left);
      assert args == args[..k] + args[k..];
      ReverseJoin(args[..k], args[k..]);
      if rightFirst(operation) {
        ReversedBinding(right, args[..k], rightFirst);
        ReversedBinding(left, args[k..], rightFirst);
      } else {
        ReversedBinding(left, args[..k], rightFirst);
        ReversedBinding(right, args[k..], rightFirst);
      }
  }

  /** Every value bound is one of the arguments. */
  lemma {:induction false} BoundAmong<T>(node: Node, args: seq<T>, rightFirst: Order, p: nat)
    requires |args| == CountVariables(node) && p < |args|
    ensures Binding(node, args, rightFirst)[p] in args
  {
    match node
    case Constant(_) =>
    case Variable(_) =>
    case Binary(operation, left, right) =>
      BindingBinary(operation, left, right, args, rightFirst);
      hide Binding, CountVariables;
      var kl := CountVariables(left);
      var k := CountVariables(if rightFirst(operation) then right else left);
      var l := if rightFirst(operation) then args[k..] else args[..k];
      var r := if rightFirst(operation) then args[..k] else args[k..];
      if p < kl {
        BoundAmong(left, l, rightFirst, p);
      } else {
        BoundAmong(right, r, rightFirst, p - kl);
      }
  }

  ghost predicate Different<T>(args: seq<T>) {
    forall i, j :: 0 <= i < j < |args| ==> args[i] != args[j]
  }

  lemma LastIsNew<T>(args: seq<T>, k: nat)
    requires Different(args) && k < |args|
    ensures Reverse(args)[0] !in args[..k]
  {
  }

  lemma FirstIsLast<T>(operation: Operation, left: Node, right: Node, args: seq<T>, rightFirst: Order)
    requires |args| == CountVariables(left) + CountVariables(right) && Different(args) && !rightFirst(operation)
    requires CountVariables(left) > 0 && CountVariables(right) > 0
    ensures Binding(Binary(operation, left, right), args, rightFirst)[0] != Reverse(args)[0]
  {
    var a := args[..CountVariables(left)];
    BindingBinary(operation, left, right, args, rightFirst);
    hide Binding, Reverse, Different;
    BoundAmong(left, a, rightFirst, 0);
    LastIsNew(args, |a|);
  }

  /** The operands share the arguments of an operation in turn. */
  function LeftPart<T>(operation: Operation, left: Node, right: Node, args: seq<T>, rightFirst: Order): seq<T>
    requires |args| == CountVariables(left) + CountVariables(right)
  {
    if rightFirst(operation) then args[CountVariables(right)..] else args[..CountVariables(left)]
  }

  function RightPart<T>(operation: Operation, left: Node, right: Node, args: seq<T>, rightFirst: Order): seq<T>
    requires |args| == CountVariables(left) + CountVariables(right)
  {
    if rightFirst(operation) then args[..CountVariables(right)] else args[CountVariables(left)..]
  }

  lemma ReversedParts<T>(operation: Operation, left: Node, right: Node, args: seq<T>, rightFirst: Order)
    requires |args| == CountVariables(left) + CountVariables(right)
    requires Binding(Binary(operation, left, right), args, rightFirst) == Reverse(args)
    requires rightFirst(operation) || CountVariables(left) == 0 || CountVariables(right) == 0
    ensures var l, r := LeftPart(operation, left, right, args, rightFirst),
                        RightPart(operation, left, right, args, rightFirst);
            Binding(left, l, rightFirst) == Reverse(l) && Binding(right, r, rightFirst) == Reverse(r)
  {
    BindingBinary(operation, left, right, args, rightFirst);
    PartsJoin(operation, left, right, args, rightFirst);
    hide Binding, Reverse, CountVariables, LeftPart, RightPart;
    var l, r := LeftPart(operation, left, right, args, rightFirst), RightPart(operation, left, right, args, rightFirst);
    JoinReversed(Binding(left, l, rightFirst), Binding(right, r, rightFirst), r, l);
  }

  lemma PartsJoin<T>(operation: Operation, left: Node, right: Node, args: seq<T>, rightFirst: Order)
    requires |args| == CountVariables(left) + CountVariables(right)
    requires rightFirst(operation) || CountVariables(left) == 0 || CountVariables(right) == 0
    ensures var l, r := LeftPart(operation, left, right, args, rightFirst),
                        RightPart(operation, left, right, args, rightFirst);
            args == r + l && |l| == CountVariables(left)
  {
    hide CountVariables;
    var l, r := LeftPart(operation, left, right, args, rightFirst), RightPart(operation, left, right, args, rightFirst);
    if !rightFirst(operation) {
      assert if CountVariables(left) == 0 then l == [] && r == args else l == args && r == [];
    }
    assert args == r + l;
  }

  lemma JoinReversed<T>(x: seq<T>, y: seq<T>, a: seq<T>, b: seq<T>)
    requires x + y == Reverse(a + b) && |x| == |b|
    ensures x == Reverse(b) && y == Reverse(a)
  {
    hide Reverse;
    ReverseJoin(a, b);
    SameParts(x, y, Reverse(b), Reverse(a));
  }

  /** Different arguments come out reversed only by visits from right to left. */
  lemma {:induction false} ReversedOnly<T>(node: Node, args: seq<T>, rightFirst: Order)
    requires |args| == CountVariables(node) && Different(args) && Binding(node, args, rightFirst) == Reverse(args)
    ensures RightToLeft(node, rightFirst)
  {
    hide Binding, Reverse;
    match node
    case Constant(_) =>
    case Variable(_) =>
    case Binary(operation, left, right) =>
      if !rightFirst(operation) && CountVariables(left) > 0 && CountVariables(right) > 0 {
        FirstIsLast(operation, left, right, args, rightFirst);
      } else {
        ReversedParts(operation, left, right, args, rightFirst);
        ReversedOnly(left, LeftPart(operation, left, right, args, rightFirst), rightFirst);
        ReversedOnly(right, RightPart(operation, left, right, args, rightFirst), rightFirst);
      }
  }

  lemma SameParts<T>(a: seq<T>, b: seq<T>, c: seq<T>, d: seq<T>)
    requires a + b == c + d && |a| == |c|
    ensures a == c && b == d
  {
    assert (a + b)[..|a|] == a && (c + d)[..|c|] == c && (a + b)[|a|..] == b && (c + d)[|c|..] == d;
  }

  /** 0, 1, 2 and so on. */
  function Positions(n: nat): (positions: seq<nat>)
    ensures |positions| == n && Different(Reverse(positions))
  {
    seq(n, i requires 0 <= i < n => i)
  }

  /** Arguments passed last first reach their variables, the p-th from the left the p-th, exactly when the visits go
      from right to left. */
  lemma BoundInOrder(node: Node, rightFirst: Order)
    ensures var positions := Positions(CountVariables(node));
            RightToLeft(node, rightFirst) <==> Binding(node, Reverse(positions), rightFirst) == positions
  {
    var positions := Positions(CountVariables(node));
    ReverseTwice(positions);
    if RightToLeft(node, rightFirst) {
      ReversedBinding(node, Reverse(positions), rightFirst);
    }
    hide Binding;
    if Binding(node, Reverse(positions), rightFirst) == Reverse(Reverse(positions)) {
      ReversedOnly(node, Reverse(positions), rightFirst);
    }
  }

  // ----- code generation into a basic block, and the call

  class FunctionContext {
    /** The next parameter to hand out. */
    var cursor: nat

    constructor ()
    {
      cursor := 0;
    }
  }

  class BasicBlock {
    var instructions: seq<Instruction>

    constructor ()
      ensures instructions == []
    {
      instructions := [];
    }

    method Create(operation: Operation, left: Value, right: Value) returns (v: Value)
      modifies this
      ensures instructions == old(instructions) + [Instruction(operation, left, right)] &&
              v == Result(|old(instructions)|)
    {
      v := Result(|instructions|);
      instructions := instructions + [Instruction(operation, left, right)];
    }
  }

  method Calculate(node: Node, basicBlock: BasicBlock, context: FunctionContext, rightFirst: Order) returns (v: Value)
    modifies basicBlock, context
    ensures Emitted(v, context.cursor, basicBlock.instructions)
      == Compile(node, old(context.cursor), old(basicBlock.instructions), rightFirst)
    decreases node
  {
    match node
    case Constant(c) =>
      v := Const(c);
    case Variable(_) =>
      v := Parameter(context.cursor);
      context.cursor := context.cursor + 1;
    case Binary(operation, left, right) =>
      var l, r;
      if rightFirst(operation) {
        r := Calculate(right, basicBlock, context, rightFirst);
        l := Calculate(left, basicBlock, context, rightFirst);
      } else {
        l := Calculate(left, basicBlock, context, rightFirst);
        r := Calculate(right, basicBlock, context, rightFirst);
      }
      v := basicBlock.Create(operation, l, r);
  }

  /** A function of so many parameters that runs its code and returns one value. */
  datatype Function = Function(parameters: nat, code: seq<Instruction>, result: Value) {
    predicate Valid() {
      WellFormed(code, parameters) && Known(result, parameters, |code|)
    }

    function Call(args: seq<Int64>): Option<Int64>
      requires Valid() && |args| == parameters
    {
      var results := Execute(code, args);
      if results == None then None else Some(Operand(result, args, results.value))
    }
  }

  /** The function is valid for the verifier, uses up its parameters exactly, and computes the tree. */
  method CreateArithmeticFunction(context: FunctionContext, rootNode: Node, rightFirst: Order) returns (f: Function)
    modifies context
    ensures f == FunctionFor(rootNode, rightFirst) && f.parameters == context.cursor
    ensures f.Valid() && forall args: seq<Int64> {:trigger f.Call(args)} :: |args| == f.parameters ==>
      f.Call(args) == Eval(rootNode, Binding(rootNode, args, rightFirst))
  {
    var numberOfVariables := CountVariables(rootNode);
    context.cursor := 0;
    var basicBlock := new BasicBlock();
    var sum := Calculate(rootNode, basicBlock, context, rightFirst);
    f := Function(numberOfVariables, basicBlock.instructions, sum);
    CompiledFunction(rootNode, rightFirst);
  }

  function FunctionFor(node: Node, rightFirst: Order): (f: Function)
    ensures f.parameters == CountVariables(node)
  {
    var e := Compile(node, 0, [], rightFirst);
    Function(CountVariables(node), e.code, e.value)
  }

  lemma CompiledFunction(node: Node, rightFirst: Order)
    ensures var f := FunctionFor(node, rightFirst);
            && f.Valid()
            && forall args: seq<Int64> {:trigger f.Call(args)} :: |args| == f.parameters ==>
                 f.Call(args) == Eval(node, Binding(node, args, rightFirst))
  {
    var f := FunctionFor(node, rightFirst);
    Compiled(node, 0, [], rightFirst, seq(CountVariables(node), i => 0));
    forall args: seq<Int64> | |args| == f.parameters
      ensures f.Call(args) == Eval(node, Binding(node, args, rightFirst))
    {
      Compiled(node, 0, [], rightFirst, args);
      assert args[0..|args|] == args;
    }
  }

  /** Compiles and calls, passing the arguments last first. With visits from right to left the p-th variable from the
      left gets the p-th argument. */
  method CalculateExpression(arguments: seq<Int64>, node: Node, rightFirst: Order) returns (value: Option<Int64>)
    requires |arguments| == CountVariables(node)
    ensures value == Eval(node, Binding(node, Reverse(arguments), rightFirst))
    ensures RightToLeft(node, rightFirst) ==> value == Eval(node, arguments) && Means(node, arguments, value)
    ensures RightToLeft(node, rightFirst) && NoDivision(node) ==>
      value.Some? && (value.value - Number(node, arguments)) % 0x1_0000_0000_0000_0000 == 0
  {
    hide Eval, Binding, Means, Number, NoDivision, RightToLeft, FunctionFor;
    var context := new FunctionContext();
    var arithm := CreateArithmeticFunction(context, node, rightFirst);
    var n := |arguments|;
    var args := new Int64[n];
    var i := 0;
    while i < n
      invariant 0 <= i <= n
      invariant forall k :: n - i <= k < n ==> args[k] == arguments[n - 1 - k]
    {
      args[n - 1 - i] := arguments[i];
      i := i + 1;
    }
    assert args[..] == Reverse(arguments);
    value := arithm.Call(args[..]);
    if RightToLeft(node, rightFirst) {
      InOrder(node, arguments, rightFirst, value);
    }
  }

  lemma InOrder(node: Node, arguments: seq<Int64>, rightFirst: Order, value: Option<Int64>)
    requires |arguments| == CountVariables(node) && RightToLeft(node, rightFirst)
    requires value == Eval(node, Binding(node, Reverse(arguments), rightFirst))
    ensures value == Eval(node, arguments) && Means(node, arguments, value)
    ensures NoDivision(node) ==>
      value.Some? && (value.value - Number(node, arguments)) % 0x1_0000_0000_0000_0000 == 0
  {
    hide Eval, Binding, Reverse, Means, Number;
    ReversedBinding(node, Reverse(arguments), rightFirst);
    ReverseTwice(arguments);
    EvalMeans(node, arguments, value);
    if NoDivision(node) {
      EvalIsNumber(node, arguments);
    }
  }

  /** The compiled function, called with the arguments last first, gives the value of the tree. */
  ghost predicate CorrectOn(node: Node, arguments: seq<Int64>, rightFirst: Order)
    requires |arguments| == CountVariables(node)
  {
    var f := FunctionFor(node, rightFirst);
    f.Valid() && f.Call(Reverse(arguments)) == Eval(node, arguments)
  }

  /** All calls give the value of the tree exactly when every operation has its right operand visited first. */
  lemma OrderMatters(rightFirst: Order)
    ensures (forall operation :: rightFirst(operation)) <==> forall node: Node, arguments: seq<Int64> ::
      |arguments| == CountVariables(node) ==> CorrectOn(node, arguments, rightFirst)
  {
    hide CorrectOn, Two, Three;
    if forall operation :: rightFirst(operation) {
      forall node: Node, arguments: seq<Int64> | |arguments| == CountVariables(node)
        ensures CorrectOn(node, arguments, rightFirst)
      {
        CorrectAll(node, arguments, rightFirst);
      }
    } else {
      var operation :| !rightFirst(operation);
      var node, arguments := SomeWrong(operation, rightFirst);
    }
  }

  lemma CorrectAll(node: Node, arguments: seq<Int64>, rightFirst: Order)
    requires (forall operation :: rightFirst(operation)) && |arguments| == CountVariables(node)
    ensures CorrectOn(node, arguments, rightFirst)
  {
    AllRight(node, rightFirst);
    CompiledFunction(node, rightFirst);
    ReversedBinding(node, Reverse(arguments), rightFirst);
    ReverseTwice(arguments);
  }

  /** An operation whose left operand is visited first makes some call wrong: itself, if swapped operands change it, or
      else on top of a subtraction. */
  lemma SomeWrong(operation: Operation, rightFirst: Order) returns (node: Node, arguments: seq<Int64>)
    requires !rightFirst(operation)
    ensures |arguments| == CountVariables(node) && !CorrectOn(node, arguments, rightFirst)
  {
    hide CorrectOn, Two, Three, Apply, Both;
    SubtractionSwaps();
    DivisionSwaps();
    AdditionSwaps();
    MultiplicationSwaps();
    if !rightFirst(Subtraction) {
      node, arguments := Two(Subtraction), [5, 1];
      WrongTwo(Subtraction, 5, 1, rightFirst);
    } else {
      match operation
      case Subtraction =>
      case Division =>
        node, arguments := Two(Division), [4, 2];
        WrongTwo(Division, 4, 2, rightFirst);
      case Addition =>
        node, arguments := Three(Addition), [0, 0, 1];
        WrongThree(Addition, 0, 0, 1, rightFirst);
      case Multiplication =>
        node, arguments := Three(Multiplication), [1, 0, 2];
        WrongThree(Multiplication, 1, 0, 2, rightFirst);
    }
  }

  lemma SubtractionSwaps()
    ensures Apply(Subtraction, 5, 1) != Apply(Subtraction, 1, 5)
  {
  }

  lemma DivisionSwaps()
    ensures Apply(Division, 4, 2) != Apply(Division, 2, 4)
  {
  }

  lemma AdditionSwaps()
    ensures Both(Addition, Apply(Subtraction, 0, 0), Some(1)) != Both(Addition, Apply(Subtraction, 0, 1), Some(0))
  {
  }

  lemma MultiplicationSwaps()
    ensures
      Both(Multiplication, Apply(Subtraction, 1, 0), Some(2)) != Both(Multiplication, Apply(Subtraction, 0, 2), Some(1))
  {
  }

  lemma WrongTwo(operation: Operation, a: Int64, b: Int64, rightFirst: Order)
    requires !rightFirst(operation) && Apply(operation, a, b) != Apply(operation, b, a)
    ensures !CorrectOn(Two(operation), [a, b], rightFirst)
  {
    hide Apply, Two, Eval, Binding, CorrectOn;
    TwoSwapped(operation, a, b, rightFirst);
    Wrong(Two(operation), [a, b], rightFirst);
  }

  lemma WrongThree(operation: Operation, a: Int64, b: Int64, c: Int64, rightFirst: Order)
    requires !rightFirst(operation) && rightFirst(Subtraction)
    requires Both(operation, Apply(Subtraction, a, b), Some(c)) != Both(operation, Apply(Subtraction, b, c), Some(a))
    ensures !CorrectOn(Three(operation), [a, b, c], rightFirst)
  {
    hide Apply, Both, Three, Eval, Binding, CorrectOn;
    ThreeSwapped(operation, a, b, c, rightFirst);
    Wrong(Three(operation), [a, b, c], rightFirst);
  }

  /** An operation on two variables, and one on a difference and a variable. */
  function Two(operation: Operation): (node: Node)
    ensures CountVariables(node) == 2
  {
    Binary(operation, Variable("a"), Variable("b"))
  }

  function Three(operation: Operation): (node: Node)
    ensures CountVariables(node) == 3
  {
    Binary(operation, Two(Subtraction), Variable("c"))
  }

  lemma TwoSwapped(operation: Operation, a: Int64, b: Int64, rightFirst: Order)
    requires !rightFirst(operation)
    ensures Eval(Two(operation), [a, b]) == Apply(operation, a, b)
    ensures Eval(Two(operation), Binding(Two(operation), Reverse([a, b]), rightFirst)) == Apply(operation, b, a)
  {
    hide Apply;
    assert Reverse([a, b]) == [b, a];
    assert Binding(Two(operation), [b, a], rightFirst) == [b, a];
  }

  lemma ThreeSwapped(operation: Operation, a: Int64, b: Int64, c: Int64, rightFirst: Order)
    requires !rightFirst(operation) && rightFirst(Subtraction)
    ensures Eval(Three(operation), [a, b, c]) == Both(operation, Apply(Subtraction, a, b), Some(c))
    ensures Eval(Three(operation), Binding(Three(operation), Reverse([a, b, c]), rightFirst))
      == Both(operation, Apply(Subtraction, b, c), Some(a))
  {
    hide Apply;
    ThreeEval(operation, a, b, c);
    ThreeEval(operation, b, c, a);
    assert Reverse([a, b, c]) == [c, b, a];
    BindingBinary(operation, Two(Subtraction), Variable("c"), [c, b, a], rightFirst);
    BindingBinary(Subtraction, Variable("a"), Variable("b"), [c, b], rightFirst);
    hide Eval, Both;
    assert [c, b, a][..2] == [c, b] && [c, b, a][2..] == [a] && [c, b][1..] == [b] && [c, b][..1] == [c];
    assert Binding(Three(operation), [c, b, a], rightFirst) == [b, c, a];
  }

  lemma ThreeEval(operation: Operation, a: Int64, b: Int64, c: Int64)
    ensures Eval(Three(operation), [a, b, c]) == Both(operation, Apply(Subtraction, a, b), Some(c))
  {
    EvalOperands(Subtraction, Variable("a"), Variable("b"), [a], [b]);
    EvalOperands(operation, Two(Subtraction), Variable("c"), [a, b], [c]);
    hide Apply;
    assert [a] + [b] == [a, b] && [a, b] + [c] == [a, b, c];
  }

  lemma {:induction false} AllRight(node: Node, rightFirst: Order)
    requires forall operation :: rightFirst(operation)
    ensures RightToLeft(node, rightFirst)
  {
    if node.Binary? {
      AllRight(node.left, rightFirst);
      AllRight(node.right, rightFirst);
    }
  }

  lemma Wrong(node: Node, arguments: seq<Int64>, rightFirst: Order)
    requires |arguments| == CountVariables(node)
    requires Eval(node, Binding(node, Reverse(arguments), rightFirst)) != Eval(node, arguments)
    ensures !CorrectOn(node, arguments, rightFirst)
  {
    CompiledFunction(node, rightFirst);
  }
}
