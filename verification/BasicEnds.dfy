/** When evaluation ends: always, if user functions can be ranked so that each body mentions lower ones only; never, if
    the bodies of some begin with calls of one another. */
module BasicEnds {
  import opened Options
  import opened BasicText
  import opened BasicMeaning
  import opened BasicFuel

  // ---- Functions that can be ranked ----

  /** A rank for every letter. */
  type Ranks = s: seq<nat> | |s| == 26 witness seq(26, _ => 0)

  /** Every user function that the text mentions, wherever it does, has a rank below the bound. */
  ghost predicate Below(text: string, ranks: Ranks, bound: nat) {
    forall s: nat {:trigger FnAt(text, s)} :: FnAt(text, s) ==> ranks[Letter(At(text, s + 2))] < bound
  }

  /** Every body mentions only functions of a lower rank. */
  ghost predicate Ranked(fns: seq<DefFn>, ranks: Ranks) {
    forall letter: Var {:trigger FnFor(fns, letter)} :: FnFor(fns, letter).Some? ==>
      Below(FnFor(fns, letter).value.body, ranks, ranks[letter])
  }

  /** What is left of a text behind a position. */
  function Left(text: string, pos: nat): nat { if pos < |text| then |text| - pos else 0 }

  function Larger(a: nat, b: nat): nat { if a < b then b else a }

  lemma SpelledInside(text: string, s: nat, name: string)
    requires |name| > 0 && name[0] != NUL && Names(text, s, name) && Up(name[0]) == name[0]
    ensures s < |text|
  {
    assert Spells(text, s, name, 0);
  }

  /** A called function's name stands in the text. */
  lemma {:induction false} CalledInside(text: string, s: nat, names: seq<string>, i: nat)
    requires i <= |names| && forall k {:trigger names[k]} :: 0 <= k < |names| ==>
             |names[k]| > 0 && names[k][0] != NUL && Up(names[k][0]) == names[k][0]
    ensures i <= CalledAt(text, s, names, i) <= |names|
    ensures CalledAt(text, s, names, i) < |names| ==> s < |text|
    decreases |names| - i
  {
    if i < |names| {
      if CallsAt(text, s, names[i]) { SpelledInside(text, s, names[i]); } else { CalledInside(text, s, names, i + 1); }
    }
  }

  lemma OperatorInside(text: string, s: nat)
    ensures AddOp(text, s) != NoOp ==> s < |text| && s < Behind(AddOp(text, s), text, s)
    ensures MulOp(text, s) != NoOp ==> s < |text|
    ensures Names(text, s, "NOT") ==> s < |text|
  {
    if Names(text, s, "AND") { SpelledInside(text, s, "AND"); }
    if Names(text, s, "OR") { SpelledInside(text, s, "OR"); }
    if Names(text, s, "XOR") { SpelledInside(text, s, "XOR"); }
    if Names(text, s, "NOT") { SpelledInside(text, s, "NOT"); }
  }

  // ---- Enough fuel ----

  lemma ExprEnds(env: Env, text: string, pos: nat, rand: nat, ranks: Ranks, bound: nat) returns (f: nat)
    requires Ranked(env.fns, ranks) && Below(text, ranks, bound)
    ensures !Expr(env, text, pos, rand, f).Spent?
    decreases bound, Left(text, pos), 9
  {
    var f1 := TermEnds(env, text, pos, rand, ranks, bound);
    f := f1 + 1;
    match Term(env, text, pos, rand, f1)
    case Done(p, v, r) =>
      var f2 := ExprRestEnds(env, text, p, v, r, ranks, bound);
      f := Larger(f1, f2) + 1;
      TermSettles(env, text, pos, rand, f1, f - 1);
      ExprRestSettles(env, text, p, v, r, f2, f - 1);
    case _ =>
  }

  lemma ExprRestEnds(env: Env, text: string, pos: nat, lhs: int, rand: nat, ranks: Ranks, bound: nat) returns (f: nat)
    requires Ranked(env.fns, ranks) && Below(text, ranks, bound)
    ensures !ExprRest(env, text, pos, lhs, rand, f).Spent?
    decreases bound, Left(text, pos), 8
  {
    var s := Skip(text, pos);
    var op := AddOp(text, s);
    f := 1;
    if op != NoOp {
      OperatorInside(text, s);
      var q := Behind(op, text, s);
      var f1 := TermEnds(env, text, q, rand, ranks, bound);
      f := f1 + 1;
      match Term(env, text, q, rand, f1)
      case Done(p, v, r) =>
        var f2 := ExprRestEnds(env, text, p, Apply(op, lhs, v), r, ranks, bound);
        f := Larger(f1, f2) + 1;
        TermSettles(env, text, q, rand, f1, f - 1);
        ExprRestSettles(env, text, p, Apply(op, lhs, v), r, f2, f - 1);
      case _ =>
    }
  }

  lemma TermEnds(env: Env, text: string, pos: nat, rand: nat, ranks: Ranks, bound: nat) returns (f: nat)
    requires Ranked(env.fns, ranks) && Below(text, ranks, bound)
    ensures !Term(env, text, pos, rand, f).Spent?
    decreases bound, Left(text, pos), 8
  {
    var f1 := FactorEnds(env, text, pos, rand, ranks, bound);
    f := f1 + 1;
    match Factor(env, text, pos, rand, f1)
    case Done(p, v, r) =>
      var f2 := TermRestEnds(env, text, p, v, r, ranks, bound);
      f := Larger(f1, f2) + 1;
      FactorSettles(env, text, pos, rand, f1, f - 1);
      TermRestSettles(env, text, p, v, r, f2, f - 1);
    case _ =>
  }

  lemma TermRestEnds(env: Env, text: string, pos: nat, lhs: int, rand: nat, ranks: Ranks, bound: nat) returns (f: nat)
    requires Ranked(env.fns, ranks) && Below(text, ranks, bound)
    ensures !TermRest(env, text, pos, lhs, rand, f).Spent?
    decreases bound, Left(text, pos), 7
  {
    var s := Skip(text, pos);
    var op := MulOp(text, s);
    f := 1;
    if op != NoOp {
      OperatorInside(text, s);
      var f1 := FactorEnds(env, text, s + 1, rand, ranks, bound);
      f := f1 + 1;
      match Factor(env, text, s + 1, rand, f1)
      case Done(p, v, r) =>
        var f2 := TermRestEnds(env, text, p, Apply(op, lhs, v), r, ranks, bound);
        f := Larger(f1, f2) + 1;
        TermRestEnough(env, text, pos, lhs, rand, f1, f2);
      case _ =>
    }
  }

  /** Fuel for an operand and fuel for what follows it are enough for both. */
  lemma TermRestEnough(env: Env, text: string, pos: nat, lhs: int, rand: nat, f1: nat, f2: nat)
    requires MulOp(text, Skip(text, pos)) != NoOp && Factor(env, text, Skip(text, pos) + 1, rand, f1).Done?
    requires var o := Factor(env, text, Skip(text, pos) + 1, rand, f1);
             !TermRest(env, text, o.pos, Apply(MulOp(text, Skip(text, pos)), lhs, o.value), o.rand, f2).Spent?
    ensures !TermRest(env, text, pos, lhs, rand, Larger(f1, f2) + 1).Spent?
  {
    var s, f := Skip(text, pos), Larger(f1, f2);
    var o := Factor(env, text, s + 1, rand, f1);
    FactorSettles(env, text, s + 1, rand, f1, f);
    TermRestSettles(env, text, o.pos, Apply(MulOp(text, s), lhs, o.value), o.rand, f2, f);
  }

  lemma FactorEnds(env: Env, text: string, pos: nat, rand: nat, ranks: Ranks, bound: nat) returns (f: nat)
    requires Ranked(env.fns, ranks) && Below(text, ranks, bound)
    ensures !Factor(env, text, pos, rand, f).Spent?
    decreases bound, Left(text, pos), 7
  {
    var s := Skip(text, pos);
    var f1;
    if Names(text, s, "NOT") {
      OperatorInside(text, s);
      f1 := FactorEnds(env, text, Skip(text, s + 3), rand, ranks, bound);
    } else {
      f1 := AtomEnds(env, text, Signs(text, s, false).1, rand, ranks, bound);
    }
    f := f1 + 1;
  }

  lemma AtomEnds(env: Env, text: string, s: nat, rand: nat, ranks: Ranks, bound: nat) returns (f: nat)
    requires Ranked(env.fns, ranks) && Below(text, ranks, bound)
    ensures !Atom(env, text, s, rand, f).Spent?
    decreases bound, Left(text, s), 6
  {
    var f1 := OperandEnds(env, text, s, rand, ranks, bound);
    f := f1 + 1;
  }

  lemma OperandEnds(env: Env, text: string, s: nat, rand: nat, ranks: Ranks, bound: nat) returns (f: nat)
    requires Ranked(env.fns, ranks) && Below(text, ranks, bound)
    ensures !AtomOf(env, KindAt(text, s), text, s, rand, f).Spent?
    decreases bound, Left(text, s), 5
  {
    var f1;
    match KindAt(text, s)
    case Bracket =>
      f1 := ParenEnds(env, text, s, rand, ranks, bound);
      f := f1 + 1;
    case BuiltIn(b, len) =>
      f1 := NumCallEnds(env, b, text, Skip(text, s + len), rand, ranks, bound);
      f := f1 + 1;
    case UserFn(letter) =>
      f1 := FnCallEnds(env, letter, text, s + 3, rand, ranks, bound);
      f := f1 + 1;
    case Plain =>
      f1 := ValueEnds(env, text, s, rand, ranks, bound);
      f := f1 + 1;
  }

  lemma ParenEnds(env: Env, text: string, pos: nat, rand: nat, ranks: Ranks, bound: nat) returns (f: nat)
    requires Ranked(env.fns, ranks) && Below(text, ranks, bound)
    ensures !Paren(env, text, pos, rand, f).Spent?
    decreases bound, Left(text, pos), 3
  {
    var s := Skip(text, pos);
    f := 1;
    if At(text, s) == '(' {
      var f1 := ExprEnds(env, text, s + 1, rand, ranks, bound);
      f := f1 + 1;
    }
  }

  lemma NumCallEnds(env: Env, b: NumFn, text: string, pos: nat, rand: nat, ranks: Ranks, bound: nat) returns (f: nat)
    requires Ranked(env.fns, ranks) && Below(text, ranks, bound)
    ensures !NumCall(env, b, text, pos, rand, f).Spent?
    decreases bound, Left(text, pos), 4
  {
    if b == Abs || b == Rnd || b == Eof {
      var f1 := ParenEnds(env, text, pos, rand, ranks, bound);
      f := f1 + 1;
    } else {
      var f1 := StrExprEnds(env, text, pos + 1, rand, ranks, bound);
      f := f1 + 1;
      match StrExpr(env, text, pos + 1, rand, f1)
      case Done(p, t, r) =>
        if b == Instr && At(text, Skip(text, p)) == ',' {
          var f2 := StrExprEnds(env, text, Skip(text, p) + 1, r, ranks, bound);
          f := Larger(f1, f2) + 1;
          StrExprSettles(env, text, pos + 1, rand, f1, f - 1);
          StrExprSettles(env, text, Skip(text, p) + 1, r, f2, f - 1);
        }
      case _ =>
    }
  }

  lemma FnCallEnds(env: Env, letter: Var, text: string, pos: nat, rand: nat, ranks: Ranks, bound: nat) returns (f: nat)
    requires Ranked(env.fns, ranks) && Below(text, ranks, bound) && ranks[letter] < bound
    ensures !FnCall(env, letter, text, pos, rand, f).Spent?
    decreases bound, Left(text, pos), 4
  {
    f := 1;
    if FnFor(env.fns, letter).Some? {
      var d := FnFor(env.fns, letter).value;
      var f1 := ParenEnds(env, text, pos, rand, ranks, bound);
      f := f1 + 1;
      match Paren(env, text, pos, rand, f1)
      case Done(p, arg, r) =>
        var env' := env.(vars := env.vars[d.param := arg]);
        var f2 := ExprEnds(env', d.body, 0, r, ranks, ranks[letter]);
        f := Larger(f1, f2) + 1;
        ParenSettles(env, text, pos, rand, f1, f - 1);
        ExprSettles(env', d.body, 0, r, f2, f - 1);
      case _ =>
    }
  }

  lemma ValueEnds(env: Env, text: string, pos: nat, rand: nat, ranks: Ranks, bound: nat) returns (f: nat)
    requires Ranked(env.fns, ranks) && Below(text, ranks, bound)
    ensures !Value(env, text, pos, rand, f).Spent?
    decreases bound, Left(text, pos), 4
  {
    var ref := VarAt(text, Skip(text, pos));
    f := 1;
    if ref.VarRef? && At(text, Skip(text, ref.end)) == '(' {
      var f1 := ExprEnds(env, text, Skip(text, ref.end) + 1, rand, ranks, bound);
      f := f1 + 1;
    }
  }

  lemma StrExprEnds(env: Env, text: string, pos: nat, rand: nat, ranks: Ranks, bound: nat) returns (f: nat)
    requires Ranked(env.fns, ranks) && Below(text, ranks, bound)
    ensures !StrExpr(env, text, pos, rand, f).Spent?
    decreases bound, Left(text, pos), 3
  {
    var f1 := StrRestEnds(env, text, pos, "", rand, ranks, bound);
    f := f1 + 1;
  }

  lemma StrRestEnds(env: Env, text: string, pos: nat, sofar: string, rand: nat, ranks: Ranks, bound: nat)
    returns (f: nat)
    requires Ranked(env.fns, ranks) && Below(text, ranks, bound)
    ensures !StrRest(env, text, pos, sofar, rand, f).Spent?
    decreases bound, Left(text, pos), 2
  {
    var f1 := PartEnds(env, text, Skip(text, pos), rand, ranks, bound);
    f := f1 + 1;
    match Part(env, text, Skip(text, pos), rand, f1)
    case Done(p, t, r) =>
      var e := Skip(text, p);
      if At(text, e) == '+' {
        var f2 := StrRestEnds(env, text, e + 1, Cut(sofar + t), r, ranks, bound);
        f := Larger(f1, f2) + 1;
        PartSettles(env, text, Skip(text, pos), rand, f1, f - 1);
        StrRestSettles(env, text, e + 1, Cut(sofar + t), r, f2, f - 1);
      }
    case _ =>
  }

  lemma PartEnds(env: Env, text: string, s: nat, rand: nat, ranks: Ranks, bound: nat) returns (f: nat)
    requires Ranked(env.fns, ranks) && Below(text, ranks, bound)
    ensures !Part(env, text, s, rand, f).Spent?
    decreases bound, Left(text, s), 1
  {
    CalledInside(text, s, StrNames(), 0);
    f := 1;
    match StrFnOf(CalledAt(text, s, StrNames(), 0))
    case Some(b) =>
      var f1 := StrCallEnds(env, b, text, Skip(text, s + StrLen(b)), rand, ranks, bound);
      f := f1 + 1;
    case None =>
  }

  lemma StrCallEnds(env: Env, b: StrFn, text: string, pos: nat, rand: nat, ranks: Ranks, bound: nat) returns (f: nat)
    requires Ranked(env.fns, ranks) && Below(text, ranks, bound)
    ensures !StrCall(env, b, text, pos, rand, f).Spent?
    decreases bound, Left(text, pos), 4
  {
    if b == Chr || b == Str {
      var f1 := ParenEnds(env, text, pos, rand, ranks, bound);
      f := f1 + 1;
    } else {
      var f1 := StrExprEnds(env, text, pos + 1, rand, ranks, bound);
      f := f1 + 1;
      match StrExpr(env, text, pos + 1, rand, f1)
      case Done(p, t, r) =>
        if At(text, Skip(text, p)) == ',' {
          var f2 := SubCallEnds(env, b, t, text, Skip(text, p) + 1, r, ranks, bound);
          f := Larger(f1, f2) + 1;
          StrExprSettles(env, text, pos + 1, rand, f1, f - 1);
          SubCallSettles(env, b, t, text, Skip(text, p) + 1, r, f2, f - 1);
        }
      case _ =>
    }
  }

  lemma SubCallEnds(env: Env, b: StrFn, t: string, text: string, pos: nat, rand: nat, ranks: Ranks, bound: nat)
    returns (f: nat)
    requires Ranked(env.fns, ranks) && Below(text, ranks, bound)
    ensures !SubCall(env, b, t, text, pos, rand, f).Spent?
    decreases bound, Left(text, pos), 10
  {
    var f1 := ExprEnds(env, text, pos, rand, ranks, bound);
    f := f1 + 1;
    match Expr(env, text, pos, rand, f1)
    case Done(p, _, r) =>
      if b == Mid && At(text, Skip(text, p)) == ',' {
        var f2 := ExprEnds(env, text, Skip(text, p) + 1, r, ranks, bound);
        f := Larger(f1, f2) + 1;
        ExprSettles(env, text, pos, rand, f1, f - 1);
        ExprSettles(env, text, Skip(text, p) + 1, r, f2, f - 1);
      }
    case _ =>
  }

  ghost function Highest(ranks: seq<nat>): (r: nat)
    ensures forall i :: 0 <= i < |ranks| ==> ranks[i] <= r
  {
    if |ranks| == 0 then 0 else Larger(Highest(ranks[..|ranks| - 1]), ranks[|ranks| - 1])
  }

  /** If the user functions can be ranked, every expression, of numbers or of strings, has a value or is refused: some
      fuel is enough. */
  lemma EvaluationEnds(env: Env, text: string, pos: nat, rand: nat, ranks: Ranks)
    requires Ranked(env.fns, ranks)
    ensures exists f: nat :: !Expr(env, text, pos, rand, f).Spent?
    ensures exists f: nat :: !StrExpr(env, text, pos, rand, f).Spent?
  {
    var f := ExprEnds(env, text, pos, rand, ranks, Highest(ranks) + 1);
    var g := StrExprEnds(env, text, pos, rand, ranks, Highest(ranks) + 1);
  }

  /** In particular without user functions. */
  lemma PlainEnds(env: Env, text: string, pos: nat, rand: nat)
    requires env.fns == []
    ensures exists f: nat :: !Expr(env, text, pos, rand, f).Spent?
  {
    EvaluationEnds(env, text, pos, rand, seq(26, _ => 0));
  }

  // ---- Expressions that are never refused ----

  /** Where an expression ends that is made of numbers, variables that are not followed by a bracket, the operators
      `+ - * AND OR XOR NOT`, signs, brackets, ABS, RND and EOF; nothing if the text is no such expression. */
  function SafeExpr(text: string, pos: nat): (r: Option<nat>)
    ensures r.Some? ==> pos <= r.value
    decreases Left(text, pos), 9
  {
    match SafeTerm(text, pos)
    case None => None
    case Some(p) => SafeExprRest(text, p)
  }

  function SafeExprRest(text: string, pos: nat): (r: Option<nat>)
    ensures r.Some? ==> pos <= r.value
    decreases Left(text, pos), 8
  {
    var s := Skip(text, pos);
    var op := AddOp(text, s);
    OperatorInside(text, s);
    if op == NoOp then Some(s)
    else match SafeTerm(text, Behind(op, text, s))
      case None => None
      case Some(p) => SafeExprRest(text, p)
  }

  function SafeTerm(text: string, pos: nat): (r: Option<nat>)
    ensures r.Some? ==> pos <= r.value
    decreases Left(text, pos), 8
  {
    match SafeFactor(text, pos)
    case None => None
    case Some(p) => SafeTermRest(text, p)
  }

  function SafeTermRest(text: string, pos: nat): (r: Option<nat>)
    ensures r.Some? ==> pos <= r.value
    decreases Left(text, pos), 7
  {
    var s := Skip(text, pos);
    var op := MulOp(text, s);
    OperatorInside(text, s);
    if op == NoOp then Some(s)
    else if Divides(op) then None
    else match SafeFactor(text, s + 1)
      case None => None
      case Some(p) => SafeTermRest(text, p)
  }

  function SafeFactor(text: string, pos: nat): (r: Option<nat>)
    ensures r.Some? ==> pos <= r.value
    decreases Left(text, pos), 7
  {
    var s := Skip(text, pos);
    OperatorInside(text, s);
    if Names(text, s, "NOT") then SafeFactor(text, Skip(text, s + 3))
    else SafeOperand(text, KindAt(text, Signs(text, s, false).1), Signs(text, s, false).1)
  }

  function SafeOperand(text: string, kind: Kind, s: nat): (r: Option<nat>)
    requires kind == KindAt(text, s)
    ensures r.Some? ==> s <= r.value
    decreases Left(text, s), 6
  {
    match kind
    case Bracket => SafeParen(text, s)
    case BuiltIn(f, len) => if f == Abs || f == Rnd || f == Eof then SafeParen(text, Skip(text, s + len)) else None
    case UserFn(_) => None
    case Plain => SafeValue(text, s)
  }

  function SafeParen(text: string, pos: nat): (r: Option<nat>)
    ensures r.Some? ==> pos <= r.value
    decreases Left(text, pos), 3
  {
    var s := Skip(text, pos);
    if At(text, s) != '(' then None
    else match SafeExpr(text, s + 1)
      case None => None
      case Some(p) => if At(text, Skip(text, p)) == ')' then Some(Skip(text, p) + 1) else None
  }

  function SafeValue(text: string, pos: nat): (r: Option<nat>)
    ensures r.Some? ==> pos <= r.value
  {
    var s := Skip(text, pos);
    if !IsAlpha(At(text, s)) then
      match ReadInt(text, pos) case NoNumber => None case Number(_, e) => Some(e)
    else
      var ref := VarAt(text, s);
      if ref.NoVar? || ref.isString || At(text, Skip(text, ref.end)) == '(' then None
      else Some(Skip(text, ref.end))
  }

  /** Unless the fuel runs out there is a value, and the expression ends where it should. */
  predicate Comes(o: Out<int>, e: nat) { o.Spent? || (o.Done? && o.pos == e) }

  /** Such an expression has a value, whatever the variables, arrays and functions are. */
  lemma {:induction false} SafeExprComes(env: Env, text: string, pos: nat, rand: nat, f: nat)
    requires SafeExpr(text, pos).Some?
    ensures Comes(Expr(env, text, pos, rand, f), SafeExpr(text, pos).value)
    decreases f
  {
    if f > 0 {
      SafeTermComes(env, text, pos, rand, f - 1);
      match Term(env, text, pos, rand, f - 1) {
        case Done(p, v, r) => SafeExprRestComes(env, text, p, v, r, f - 1);
        case _ =>
      }
    }
  }

  lemma {:induction false} SafeExprRestComes(env: Env, text: string, pos: nat, lhs: int, rand: nat, f: nat)
    requires SafeExprRest(text, pos).Some?
    ensures Comes(ExprRest(env, text, pos, lhs, rand, f), SafeExprRest(text, pos).value)
    decreases f
  {
    var s := Skip(text, pos);
    var op := AddOp(text, s);
    if f > 0 && op != NoOp {
      SafeTermComes(env, text, Behind(op, text, s), rand, f - 1);
      match Term(env, text, Behind(op, text, s), rand, f - 1) {
        case Done(p, v, r) => SafeExprRestComes(env, text, p, Apply(op, lhs, v), r, f - 1);
        case _ =>
      }
    }
  }

  lemma {:induction false} SafeTermComes(env: Env, text: string, pos: nat, rand: nat, f: nat)
    requires SafeTerm(text, pos).Some?
    ensures Comes(Term(env, text, pos, rand, f), SafeTerm(text, pos).value)
    decreases f
  {
    if f > 0 {
      SafeFactorComes(env, text, pos, rand, f - 1);
      match Factor(env, text, pos, rand, f - 1) {
        case Done(p, v, r) => SafeTermRestComes(env, text, p, v, r, f - 1);
        case _ =>
      }
    }
  }

  lemma {:induction false} SafeTermRestComes(env: Env, text: string, pos: nat, lhs: int, rand: nat, f: nat)
    requires SafeTermRest(text, pos).Some?
    ensures Comes(TermRest(env, text, pos, lhs, rand, f), SafeTermRest(text, pos).value)
    decreases f
  {
    var s := Skip(text, pos);
    var op := MulOp(text, s);
    if f > 0 && op != NoOp {
      SafeFactorComes(env, text, s + 1, rand, f - 1);
      match Factor(env, text, s + 1, rand, f - 1) {
        case Done(p, v, r) => SafeTermRestComes(env, text, p, Apply(op, lhs, v), r, f - 1);
        case _ =>
      }
    }
  }

  lemma {:induction false} SafeFactorComes(env: Env, text: string, pos: nat, rand: nat, f: nat)
    requires SafeFactor(text, pos).Some?
    ensures Comes(Factor(env, text, pos, rand, f), SafeFactor(text, pos).value)
    decreases f
  {
    var s := Skip(text, pos);
    var t := Signs(text, s, false).1;
    if f > 0 && Names(text, s, "NOT") {
      SafeFactorComes(env, text, Skip(text, s + 3), rand, f - 1);
    } else if f > 0 {
      SafeAtomComes(env, text, t, rand, f - 1);
    }
  }

  lemma {:induction false} SafeAtomComes(env: Env, text: string, s: nat, rand: nat, f: nat)
    requires SafeOperand(text, KindAt(text, s), s).Some?
    ensures Comes(Atom(env, text, s, rand, f), SafeOperand(text, KindAt(text, s), s).value)
    decreases f
  {
    if f > 0 { SafeOperandComes(env, text, s, rand, f - 1); }
  }

  lemma {:induction false} SafeOperandComes(env: Env, text: string, s: nat, rand: nat, f: nat)
    requires SafeOperand(text, KindAt(text, s), s).Some?
    ensures Comes(AtomOf(env, KindAt(text, s), text, s, rand, f), SafeOperand(text, KindAt(text, s), s).value)
    decreases f
  {
    if f > 0 {
      match KindAt(text, s) {
        case Bracket => SafeParenComes(env, text, s, rand, f - 1);
        case BuiltIn(b, len) =>
          var q := Skip(text, s + len);
          if f > 1 { SafeParenComes(env, text, q, rand, f - 2); }
          assert Comes(NumCall(env, b, text, q, rand, f - 1), SafeParen(text, q).value);
        case Plain => assert Comes(Value(env, text, s, rand, f - 1), SafeValue(text, s).value);
      }
    }
  }

  lemma {:induction false} SafeParenComes(env: Env, text: string, pos: nat, rand: nat, f: nat)
    requires SafeParen(text, pos).Some?
    ensures Comes(Paren(env, text, pos, rand, f), SafeParen(text, pos).value)
    decreases f
  {
    if f > 0 { SafeExprComes(env, text, Skip(text, pos) + 1, rand, f - 1); }
  }

  // ---- Functions that call one another without end ----

  /** Where the first operand of an expression begins: behind blanks, NOT, signs and brackets. */
  function Lead(text: string, pos: nat): nat
    decreases Left(text, pos)
  {
    var s := Skip(text, pos);
    if Names(text, s, "NOT") then (if s < |text| then Lead(text, Skip(text, s + 3)) else s)
    else
      var t := Signs(text, s, false).1;
      if At(text, t) == '(' then Lead(text, t + 1) else t
  }

  /** An operand has no value, at least with so much fuel. */
  ghost predicate NoValue(env: Env, text: string, s: nat, rand: nat, f: nat) {
    forall g {:trigger Atom(env, text, s, rand, g)} :: 0 <= g <= f ==> Atom(env, text, s, rand, g).Spent?
  }

  /** An expression whose first operand has no value has none. */
  lemma {:induction false} LeadSpends(env: Env, text: string, pos: nat, rand: nat, f: nat)
    requires NoValue(env, text, Lead(text, pos), rand, f)
    ensures Expr(env, text, pos, rand, f).Spent?
    decreases f, 1
  {
    if f >= 2 {
      FactorSpends(env, text, pos, rand, f - 2);
      assert Term(env, text, pos, rand, f - 1).Spent?;
    }
  }

  lemma {:induction false} FactorSpends(env: Env, text: string, pos: nat, rand: nat, f: nat)
    requires NoValue(env, text, Lead(text, pos), rand, f)
    ensures Factor(env, text, pos, rand, f).Spent?
    decreases f, 0
  {
    var s := Skip(text, pos);
    var t := Signs(text, s, false).1;
    if f >= 1 {
      if Names(text, s, "NOT") {
        OperatorInside(text, s);
        assert Lead(text, pos) == Lead(text, Skip(text, s + 3));
        FactorSpends(env, text, Skip(text, s + 3), rand, f - 1);
      } else if At(text, t) == '(' {
        assert Lead(text, pos) == Lead(text, t + 1);
        BracketSpends(env, text, t, rand, f - 1);
      } else {
        assert Lead(text, pos) == t;
        assert Atom(env, text, t, rand, f - 1).Spent?;
      }
    }
  }

  lemma {:induction false} BracketSpends(env: Env, text: string, t: nat, rand: nat, f: nat)
    requires At(text, t) == '(' && NoValue(env, text, Lead(text, t + 1), rand, f)
    ensures Atom(env, text, t, rand, f).Spent?
    decreases f, 2
  {
    assert KindAt(text, t) == Bracket && Skip(text, t) == t;
    if f >= 3 {
      LeadSpends(env, text, t + 1, rand, f - 3);
      assert Paren(env, text, t, rand, f - 2).Spent?;
    }
    if f >= 1 { assert AtomOf(env, Bracket, text, t, rand, f - 1).Spent?; }
  }

  /** An argument in brackets that is never refused, whatever the variables are. */
  ghost predicate NeverFails(fns: seq<DefFn>, text: string, pos: nat) {
    forall env: Env, rand: nat, f: nat {:trigger Paren(env, text, pos, rand, f)} :: env.fns == fns ==>
      !Paren(env, text, pos, rand, f).Failed?
  }

  /** A condition for that which can be read off the text. */
  lemma SafeNeverFails(fns: seq<DefFn>, text: string, pos: nat)
    requires SafeParen(text, pos).Some?
    ensures NeverFails(fns, text, pos)
  {
    forall env: Env, rand: nat, f: nat {:trigger Paren(env, text, pos, rand, f)}
      ensures !Paren(env, text, pos, rand, f).Failed?
    {
      SafeParenComes(env, text, pos, rand, f);
    }
  }

  /** The body begins with a call of one of the functions, with an argument that is never refused. */
  ghost predicate BeginsWithCall(fns: seq<DefFn>, body: string, letters: set<Var>) {
    var s := Lead(body, 0);
    KindAt(body, s).UserFn? && KindAt(body, s).letter in letters && NeverFails(fns, body, s + 3)
  }

  ghost predicate Circular(fns: seq<DefFn>, letters: set<Var>) {
    forall letter: Var {:trigger FnFor(fns, letter)} :: letter in letters ==>
      FnFor(fns, letter).Some? && BeginsWithCall(fns, FnFor(fns, letter).value.body, letters)
  }

  /** User functions whose bodies begin with calls of one another have no value, however much fuel there is. */
  lemma {:induction false} NeverEnds(env: Env, letters: set<Var>, letter: Var, rand: nat, f: nat)
    requires Circular(env.fns, letters) && letter in letters && FnFor(env.fns, letter).Some?
    ensures Expr(env, FnFor(env.fns, letter).value.body, 0, rand, f).Spent?
    decreases f, 1
  {
    var body := FnFor(env.fns, letter).value.body;
    forall g | 0 <= g <= f ensures Atom(env, body, Lead(body, 0), rand, g).Spent? {
      CallSpends(env, letters, body, Lead(body, 0), rand, g);
    }
    LeadSpends(env, body, 0, rand, f);
  }

  /** A call of one of them has none either. */
  lemma {:induction false} CallSpends(env: Env, letters: set<Var>, text: string, s: nat, rand: nat, f: nat)
    requires Circular(env.fns, letters) && KindAt(text, s).UserFn? && KindAt(text, s).letter in letters
    requires NeverFails(env.fns, text, s + 3)
    ensures Atom(env, text, s, rand, f).Spent?
    decreases f, 0
  {
    var letter := KindAt(text, s).letter;
    assert FnFor(env.fns, letter).Some?;
    var d := FnFor(env.fns, letter).value;
    if f >= 3 {
      match Paren(env, text, s + 3, rand, f - 3) {
        case Done(p, arg, r) => NeverEnds(env.(vars := env.vars[d.param := arg]), letters, letter, r, f - 3);
        case _ =>
      }
      assert FnCall(env, letter, text, s + 3, rand, f - 2).Spent?;
    }
    if f >= 2 { assert AtomOf(env, KindAt(text, s), text, s, rand, f - 1).Spent?; }
  }

  /** The body begins with a call of one of the functions, with an argument made as `SafeExpr` says. */
  predicate SafeCall(body: string, letters: set<Var>) {
    var s := Lead(body, 0);
    KindAt(body, s).UserFn? && KindAt(body, s).letter in letters && SafeParen(body, s + 3).Some?
  }

  ghost predicate SafelyCircular(fns: seq<DefFn>, letters: set<Var>) {
    forall letter: Var {:trigger FnFor(fns, letter)} :: letter in letters ==>
      FnFor(fns, letter).Some? && SafeCall(FnFor(fns, letter).value.body, letters)
  }

  /** The same from the program text alone. */
  lemma CircularTexts(env: Env, letters: set<Var>, letter: Var, rand: nat, f: nat)
    requires SafelyCircular(env.fns, letters) && letter in letters && FnFor(env.fns, letter).Some?
    ensures Expr(env, FnFor(env.fns, letter).value.body, 0, rand, f).Spent?
  {
    forall l: Var | l in letters
      ensures FnFor(env.fns, l).Some? && BeginsWithCall(env.fns, FnFor(env.fns, l).value.body, letters)
    {
      var body := FnFor(env.fns, l).value.body;
      SafeNeverFails(env.fns, body, Lead(body, 0) + 3);
    }
    NeverEnds(env, letters, letter, rand, f);
  }

  const ENDLESS: string := "FNA(X)"

  lemma {:induction false} NotCalled(text: string, s: nat, names: seq<string>, i: nat)
    requires i <= |names| && forall k {:trigger names[k]} :: 0 <= k < |names| ==>
             |names[k]| > 0 && Up(At(text, s)) != Up(names[k][0])
    ensures CalledAt(text, s, names, i) == |names|
    decreases |names| - i
  {
    if i < |names| {
      assert !Spells(text, s, names[i], 0);
      NotCalled(text, s, names, i + 1);
    }
  }

  lemma OtherLetter(text: string, s: nat, name: string)
    requires |name| > 0 && Up(At(text, s)) != Up(name[0])
    ensures !Names(text, s, name)
  {
    assert !Spells(text, s, name, 0);
  }

  lemma ArgumentIsSafe()
    ensures SafeParen(ENDLESS, 3).Some?
  {
    var t := ENDLESS;
    assert At(t, 3) == '(' && At(t, 4) == 'X' && At(t, 5) == ')';
    assert Skip(t, 3) == 3 && Skip(t, 4) == 4 && Skip(t, 5) == 5;
    OtherLetter(t, 4, "NOT");
    OtherLetter(t, 5, "AND");
    OtherLetter(t, 5, "OR");
    OtherLetter(t, 5, "XOR");
    NotCalled(t, 4, NumNames(), 0);
    assert Signs(t, 4, false) == (false, 4) && KindAt(t, 4) == Plain;
    assert TailEnd(t, 5) == 5 && SafeValue(t, 4) == Some(5);
    assert SafeFactor(t, 4) == Some(5);
    assert MulOp(t, 5) == NoOp && SafeTerm(t, 4) == Some(5);
    assert AddOp(t, 5) == NoOp && SafeExpr(t, 4) == Some(5);
  }

  /** How FNA( is read at the beginning of a text. */
  lemma CallRead(t: string)
    requires |t| > 4 && t[..4] == "FNA("
    ensures Skip(t, 0) == 0 && Skip(t, 3) == 3 && Lead(t, 0) == 0 && KindAt(t, 0) == UserFn(0) && !Names(t, 0, "NOT")
    ensures Signs(t, 0, false) == (false, 0)
  {
    assert t[0] == t[..4][0] == 'F' && t[1] == t[..4][1] == 'N' && t[2] == t[..4][2] == 'A' && t[3] == t[..4][3] == '(';
    OtherLetter(t, 0, "NOT");
    NotCalled(t, 0, NumNames(), 0);
    assert Signs(t, 0, false) == (false, 0) && KindAt(t, 0) == UserFn(0);
  }

  /** For instance `DEF FNA(X)=FNA(X)`. */
  lemma CallsItselfForever(env: Env, d: DefFn, rand: nat, f: nat)
    requires FnFor(env.fns, 0) == Some(d) && d.body == ENDLESS
    ensures Expr(env, ENDLESS, 0, rand, f).Spent?
  {
    CallRead(ENDLESS);
    ArgumentIsSafe();
    CircularTexts(env, {0}, 0, rand, f);
  }

  const REFUSED: string := "FNA(1/0)"

  /** A single digit, as an operand. */
  lemma DigitFactor(env: Env, t: string, s: nat, rand: nat, f: nat)
    requires s < |t| && IsDigit(t[s]) && !IsDigit(At(t, s + 1)) && f >= 4
    ensures Factor(env, t, s, rand, f) == Done(s + 1, Digit(t[s]), rand)
  {
    OtherLetter(t, s, "NOT");
    assert Skip(t, s) == s && Signs(t, s, false) == (false, s) && KindAt(t, s) == Plain;
    assert Digits(t, s + 1, Digit(t[s])) == (Digit(t[s]), s + 1);
    assert ReadInt(t, s) == Number(Digit(t[s]), s + 1);
    assert Value(env, t, s, rand, f - 3) == Done(s + 1, Digit(t[s]), rand);
    assert AtomOf(env, Plain, t, s, rand, f - 2) == Value(env, t, s, rand, f - 3);
    assert Atom(env, t, s, rand, f - 1) == AtomOf(env, Plain, t, s, rand, f - 2);
  }

  lemma QuotientRefused(env: Env, rand: nat, f: nat)
    requires f >= 8
    ensures Paren(env, REFUSED, 3, rand, f).Failed?
  {
    var t := REFUSED;
    assert At(t, 3) == '(' && At(t, 4) == '1' && At(t, 5) == '/' && At(t, 6) == '0' && At(t, 7) == ')';
    assert Skip(t, 3) == 3 && Skip(t, 5) == 5;
    DigitFactor(env, t, 4, rand, f - 3);
    DigitFactor(env, t, 6, rand, f - 4);
    assert MulOp(t, 5) == Over;
    assert TermRest(env, t, 5, 1, rand, f - 3).Failed?;
    assert Term(env, t, 4, rand, f - 2).Failed?;
    assert Expr(env, t, 4, rand, f - 1).Failed?;
  }

  /** But not `DEF FNA(X)=FNA(1/0)`: its argument is refused before the call is made. */
  lemma RefusedFirst(env: Env, d: DefFn, rand: nat, f: nat)
    requires FnFor(env.fns, 0) == Some(d) && d.body == REFUSED && f >= 14
    ensures Expr(env, REFUSED, 0, rand, f).Failed?
  {
    var t := REFUSED;
    CallRead(t);
    QuotientRefused(env, rand, f - 6);
    assert FnCall(env, 0, t, 3, rand, f - 5).Failed?;
    assert AtomOf(env, UserFn(0), t, 0, rand, f - 4).Failed?;
    assert Atom(env, t, 0, rand, f - 3).Failed?;
    assert Factor(env, t, 0, rand, f - 2).Failed?;
    assert Term(env, t, 0, rand, f - 1).Failed?;
  }
}
