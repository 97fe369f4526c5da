/** More fuel never changes an answer: what an expression means does not depend on how much is given, once it is
    enough. */
module BasicFuel {
  import opened Options
  import opened BasicText
  import opened BasicMeaning

  ghost predicate Settled<T>(a: Out<T>, b: Out<T>) { a.Spent? || b == a }

  lemma {:induction false} ExprSettles(env: Env, text: string, pos: nat, rand: nat, f: nat, g: nat)
    requires f <= g
    ensures Settled(Expr(env, text, pos, rand, f), Expr(env, text, pos, rand, g))
    decreases f
  {
    if f > 0 {
      TermSettles(env, text, pos, rand, f - 1, g - 1);
      match Term(env, text, pos, rand, f - 1)
      case Done(p, v, r) => ExprRestSettles(env, text, p, v, r, f - 1, g - 1);
      case _ =>
    }
  }

  lemma {:induction false} ExprRestSettles(env: Env, text: string, pos: nat, lhs: int, rand: nat, f: nat, g: nat)
    requires f <= g
    ensures Settled(ExprRest(env, text, pos, lhs, rand, f), ExprRest(env, text, pos, lhs, rand, g))
    decreases f
  {
    if f > 0 {
      var s := Skip(text, pos);
      var op := AddOp(text, s);
      TermSettles(env, text, Behind(op, text, s), rand, f - 1, g - 1);
      match Term(env, text, Behind(op, text, s), rand, f - 1)
      case Done(p, v, r) => if op != NoOp { ExprRestSettles(env, text, p, Apply(op, lhs, v), r, f - 1, g - 1); }
      case _ =>
    }
  }

  lemma {:induction false} TermSettles(env: Env, text: string, pos: nat, rand: nat, f: nat, g: nat)
    requires f <= g
    ensures Settled(Term(env, text, pos, rand, f), Term(env, text, pos, rand, g))
    decreases f
  {
    if f > 0 {
      FactorSettles(env, text, pos, rand, f - 1, g - 1);
      match Factor(env, text, pos, rand, f - 1)
      case Done(p, v, r) => TermRestSettles(env, text, p, v, r, f - 1, g - 1);
      case _ =>
    }
  }

  lemma {:induction false} TermRestSettles(env: Env, text: string, pos: nat, lhs: int, rand: nat, f: nat, g: nat)
    requires f <= g
    ensures Settled(TermRest(env, text, pos, lhs, rand, f), TermRest(env, text, pos, lhs, rand, g))
    decreases f
  {
    if f > 0 {
      var s := Skip(text, pos);
      var op := MulOp(text, s);
      FactorSettles(env, text, s + 1, rand, f - 1, g - 1);
      match Factor(env, text, s + 1, rand, f - 1)
      case Done(p, v, r) => if !(Divides(op) && v == 0) {
        TermRestSettles(env, text, p, Apply(op, lhs, v), r, f - 1, g - 1);
      }
      case _ =>
    }
  }

  lemma {:induction false} FactorSettles(env: Env, text: string, pos: nat, rand: nat, f: nat, g: nat)
    requires f <= g
    ensures Settled(Factor(env, text, pos, rand, f), Factor(env, text, pos, rand, g))
    decreases f
  {
    if f > 0 {
      var s := Skip(text, pos);
      FactorSettles(env, text, Skip(text, s + 3), rand, f - 1, g - 1);
      AtomSettles(env, text, Signs(text, s, false).1, rand, f - 1, g - 1);
    }
  }

  lemma {:induction false} AtomSettles(env: Env, text: string, s: nat, rand: nat, f: nat, g: nat)
    requires f <= g
    ensures Settled(Atom(env, text, s, rand, f), Atom(env, text, s, rand, g))
    decreases f
  {
    if f > 0 { AtomOfSettles(env, KindAt(text, s), text, s, rand, f - 1, g - 1); }
  }

  lemma {:induction false} AtomOfSettles(env: Env, kind: Kind, text: string, s: nat, rand: nat, f: nat, g: nat)
    requires f <= g
    ensures Settled(AtomOf(env, kind, text, s, rand, f), AtomOf(env, kind, text, s, rand, g))
    decreases f
  {
    if f > 0 {
      match kind
      case Bracket => ParenSettles(env, text, s, rand, f - 1, g - 1);
      case BuiltIn(b, len) => NumCallSettles(env, b, text, Skip(text, s + len), rand, f - 1, g - 1);
      case UserFn(letter) => FnCallSettles(env, letter, text, s + 3, rand, f - 1, g - 1);
      case Plain => ValueSettles(env, text, s, rand, f - 1, g - 1);
    }
  }

  lemma {:induction false} ParenSettles(env: Env, text: string, pos: nat, rand: nat, f: nat, g: nat)
    requires f <= g
    ensures Settled(Paren(env, text, pos, rand, f), Paren(env, text, pos, rand, g))
    decreases f
  {
    if f > 0 { ExprSettles(env, text, Skip(text, pos) + 1, rand, f - 1, g - 1); }
  }

  lemma {:induction false} NumCallSettles(env: Env, b: NumFn, text: string, pos: nat, rand: nat, f: nat, g: nat)
    requires f <= g
    ensures Settled(NumCall(env, b, text, pos, rand, f), NumCall(env, b, text, pos, rand, g))
    decreases f
  {
    if f > 0 {
      ParenSettles(env, text, pos, rand, f - 1, g - 1);
      StrExprSettles(env, text, pos + 1, rand, f - 1, g - 1);
      match StrExpr(env, text, pos + 1, rand, f - 1)
      case Done(p, _, r) => StrExprSettles(env, text, Skip(text, p) + 1, r, f - 1, g - 1);
      case _ =>
    }
  }

  lemma {:induction false} FnCallSettles(env: Env, letter: Var, text: string, pos: nat, rand: nat, f: nat, g: nat)
    requires f <= g
    ensures Settled(FnCall(env, letter, text, pos, rand, f), FnCall(env, letter, text, pos, rand, g))
    decreases f
  {
    if f > 0 {
      ParenSettles(env, text, pos, rand, f - 1, g - 1);
      match FnFor(env.fns, letter)
      case None =>
      case Some(d) =>
        match Paren(env, text, pos, rand, f - 1)
        case Done(_, arg, r) => ExprSettles(env.(vars := env.vars[d.param := arg]), d.body, 0, r, f - 1, g - 1);
        case _ =>
    }
  }

  lemma {:induction false} ValueSettles(env: Env, text: string, pos: nat, rand: nat, f: nat, g: nat)
    requires f <= g
    ensures Settled(Value(env, text, pos, rand, f), Value(env, text, pos, rand, g))
    decreases f
  {
    if f > 0 {
      var ref := VarAt(text, Skip(text, pos));
      if ref.VarRef? { ExprSettles(env, text, Skip(text, ref.end) + 1, rand, f - 1, g - 1); }
    }
  }

  lemma {:induction false} StrExprSettles(env: Env, text: string, pos: nat, rand: nat, f: nat, g: nat)
    requires f <= g
    ensures Settled(StrExpr(env, text, pos, rand, f), StrExpr(env, text, pos, rand, g))
    decreases f
  {
    if f > 0 { StrRestSettles(env, text, pos, "", rand, f - 1, g - 1); }
  }

  lemma {:induction false} StrRestSettles(env: Env, text: string, pos: nat, sofar: string, rand: nat, f: nat, g: nat)
    requires f <= g
    ensures Settled(StrRest(env, text, pos, sofar, rand, f), StrRest(env, text, pos, sofar, rand, g))
    decreases f
  {
    if f > 0 {
      PartSettles(env, text, Skip(text, pos), rand, f - 1, g - 1);
      match Part(env, text, Skip(text, pos), rand, f - 1)
      case Done(p, t, r) => StrRestSettles(env, text, Skip(text, p) + 1, Cut(sofar + t), r, f - 1, g - 1);
      case _ =>
    }
  }

  lemma {:induction false} PartSettles(env: Env, text: string, s: nat, rand: nat, f: nat, g: nat)
    requires f <= g
    ensures Settled(Part(env, text, s, rand, f), Part(env, text, s, rand, g))
    decreases f
  {
    if f > 0 {
      match StrFnOf(CalledAt(text, s, StrNames(), 0))
      case Some(b) => StrCallSettles(env, b, text, Skip(text, s + StrLen(b)), rand, f - 1, g - 1);
      case None =>
    }
  }

  lemma {:induction false} StrCallSettles(env: Env, b: StrFn, text: string, pos: nat, rand: nat, f: nat, g: nat)
    requires f <= g
    ensures Settled(StrCall(env, b, text, pos, rand, f), StrCall(env, b, text, pos, rand, g))
    decreases f
  {
    if f > 0 {
      ParenSettles(env, text, pos, rand, f - 1, g - 1);
      StrExprSettles(env, text, pos + 1, rand, f - 1, g - 1);
      match StrExpr(env, text, pos + 1, rand, f - 1)
      case Done(p, t, r) => SubCallSettles(env, b, t, text, Skip(text, p) + 1, r, f - 1, g - 1);
      case _ =>
    }
  }

  lemma {:induction false} SubCallSettles(env: Env, b: StrFn, t: string, text: string, pos: nat, rand: nat, f: nat,
                                          g: nat)
    requires f <= g
    ensures Settled(SubCall(env, b, t, text, pos, rand, f), SubCall(env, b, t, text, pos, rand, g))
    decreases f
  {
    if f > 0 {
      ExprSettles(env, text, pos, rand, f - 1, g - 1);
      match Expr(env, text, pos, rand, f - 1)
      case Done(p, _, r) => ExprSettles(env, text, Skip(text, p) + 1, r, f - 1, g - 1);
      case _ =>
    }
  }

  /** An expression has one meaning: two evaluations that do not run out of fuel agree. */
  lemma OneMeaning(env: Env, text: string, pos: nat, rand: nat, f: nat, g: nat)
    requires !Expr(env, text, pos, rand, f).Spent? && !Expr(env, text, pos, rand, g).Spent?
    ensures Expr(env, text, pos, rand, f) == Expr(env, text, pos, rand, g)
  {
    if f <= g { ExprSettles(env, text, pos, rand, f, g); } else { ExprSettles(env, text, pos, rand, g, f); }
  }
}
