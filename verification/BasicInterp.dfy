/** The evaluator itself: it reads expressions straight from their text and keeps the variables in an array, in which a
    call of a user function overwrites the parameter for a while. */
module BasicInterp {
  import opened Options
  import opened BasicText
  import opened BasicMeaning

  datatype Status = Good | Bad | OutOfFuel

  /** What a parser gives back: on success the value and the position behind the expression, otherwise the position it
      was given. */
  ghost predicate Tells<T>(o: Out<T>, st: Status, pos: nat, next: nat, v: T, rand: nat) {
    o == Result(st, next, v, rand) && (st != Good ==> next == pos)
  }

  function Result<T>(st: Status, next: nat, v: T, rand: nat): Out<T> {
    match st case Good => Done(next, v, rand) case Bad => Failed(rand) case OutOfFuel => Spent(rand)
  }

  // ---- Looking at the text ----

  /** The operator of a sum at a position, and where its right-hand side begins. */
  method ReadAddOp(text: string, s: nat) returns (op: Op, at: nat)
    ensures op == AddOp(text, s) && at == Behind(op, text, s)
  {
    if At(text, s) == '+' { return Plus, s + 1; }
    if At(text, s) == '-' { return Minus, s + 1; }
    var r := NameMatches(text, s, "AND");
    if r {
      at := SkipSpaces(text, s + 3);
      return And, at;
    }
    r := NameMatches(text, s, "OR");
    if r {
      at := SkipSpaces(text, s + 2);
      return Or, at;
    }
    r := NameMatches(text, s, "XOR");
    if r {
      at := SkipSpaces(text, s + 3);
      return Xor, at;
    }
    op, at := NoOp, s + 1;
  }

  method IsCall(text: string, s: nat, name: string) returns (r: bool)
    ensures r == CallsAt(text, s, name)
  {
    r := NameMatches(text, s, name);
    if !r { return; }
    var e := SkipSpaces(text, s + |name|);
    r := At(text, e) == '(';
  }

  /** The first of some functions that is called at a position. */
  method FindCall(text: string, s: nat, names: seq<string>) returns (i: nat)
    ensures i == CalledAt(text, s, names, 0)
  {
    i := 0;
    while i < |names|
      invariant CalledAt(text, s, names, 0) == CalledAt(text, s, names, i)
    {
      var r := IsCall(text, s, names[i]);
      if r { return; }
      i := i + 1;
    }
  }

  /** What an operand is: a bracket, a built-in function, a user function, or a plain value. */
  method FindKind(text: string, s: nat) returns (kind: Kind)
    ensures kind == KindAt(text, s)
  {
    if At(text, s) == '(' { return Bracket; }
    if !IsAlpha(At(text, s)) { return Plain; }
    var i := FindCall(text, s, NumNames());
    var f := NumFnOf(i);
    if f.Some? { return BuiltIn(f.value, if f.value == Instr then 5 else 3); }
    if Up(At(text, s)) == 'F' && Up(At(text, s + 1)) == 'N' && IsAlpha(At(text, s + 2)) && !IsTail(At(text, s + 3)) {
      return UserFn(Letter(At(text, s + 2)));
    }
    kind := Plain;
  }

  method ReadSigns(text: string, pos: nat) returns (minus: bool, s: nat)
    ensures (minus, s) == Signs(text, pos, false)
  {
    minus, s := false, pos;
    while At(text, s) == '+' || At(text, s) == '-'
      invariant Signs(text, s, minus) == Signs(text, pos, false)
      decreases |text| - s
    {
      if At(text, s) == '-' { minus := !minus; }
      s := SkipSpaces(text, s + 1);
    }
  }

  method ReadVar(text: string, s: nat) returns (ref: VarRef)
    ensures ref == VarAt(text, s)
  {
    if !IsAlpha(At(text, s)) { return NoVar; }
    var e := s + 1;
    while IsTail(At(text, e))
      invariant TailEnd(text, e) == TailEnd(text, s + 1)
      decreases |text| - e
    {
      e := e + 1;
    }
    if At(text, e) == '$' { return VarRef(Letter(At(text, s)), true, e + 1); }
    ref := VarRef(Letter(At(text, s)), false, e);
  }

  /** Reads a literal behind its opening quote; what does not fit is read and dropped. */
  method ReadLiteral(text: string, pos: nat) returns (r: Option<(nat, string)>)
    ensures r == Literal(text, pos, "")
  {
    var s, t := pos, "";
    ghost var all := "";
    while At(text, s) != NUL && At(text, s) != '"'
      invariant Literal(text, pos, "") == Literal(text, s, all) && t == Cut(all)
      decreases |text| - s
    {
      if |t| < MAX_STRING { t := t + [At(text, s)]; }
      all := all + [At(text, s)];
      s := s + 1;
    }
    if At(text, s) != '"' { return None; }
    r := Some((s + 1, t));
  }

  // ---- Strings ----

  /** Copies part of a text, from a position and at most n characters. */
  method CopyPart(t: string, from: nat, n: int) returns (part: string)
    ensures part == if from <= |t| then Cut(t[from..from + Clamp(n, |t| - from)]) else ""
  {
    part := "";
    var i := 0;
    while i < n && from + i < |t| && i < MAX_STRING
      invariant 0 <= i == |part| && (i > 0 ==>
                  i <= n && i <= MAX_STRING && from + i <= |t| && part == t[from..from + i])
    {
      part := part + [t[from + i]];
      i := i + 1;
    }
    if from <= |t| {
      var whole := t[from..from + Clamp(n, |t| - from)];
      assert |part| == |Cut(whole)|;
      assert part == Cut(whole);
    }
  }

  method Substring(f: StrFn, t: string, a: int, n: int) returns (part: string)
    requires f == Mid || f == Left || f == Right
    ensures part == SubText(f, t, a, n)
  {
    if f == Left {
      part := CopyPart(t, 0, Clamp(a, |t|));
      assert t[0..Clamp(a, |t|)] == t[..Clamp(a, |t|)];
    } else if f == Right {
      part := CopyPart(t, |t| - Clamp(a, |t|), Clamp(a, |t|));
      assert t[|t| - Clamp(a, |t|)..|t|] == t[|t| - Clamp(a, |t|)..];
    } else {
      part := CopyPart(t, if a < 1 then 0 else a - 1, n);
    }
  }

  /** Searches a text for another, place by place and character by character. */
  method FindText(t: string, needle: string) returns (r: nat)
    ensures r == Find(t, needle, 0)
  {
    if needle == "" { return 1; }
    for i := 0 to |t|
      invariant Find(t, needle, 0) == Find(t, needle, i)
    {
      var k := 0;
      while k < |needle| && At(t, i + k) == needle[k] && i + k < |t|
        invariant k <= |needle| && i + k <= |t| && t[i..i + k] == needle[..k]
      {
        assert t[i..i + k + 1] == t[i..i + k] + [t[i + k]] && needle[..k + 1] == needle[..k] + [needle[k]];
        k := k + 1;
      }
      assert k == |needle| <==> needle <= t[i..] by { Occurs(t, needle, i, k); }
      if k == |needle| { return i + 1; }
    }
    r := 0;
  }

  /** A match that stops before the end of the text sought is none. */
  lemma Occurs(t: string, needle: string, i: nat, k: nat)
    requires i + k <= |t| && k <= |needle| && t[i..i + k] == needle[..k]
    requires k == |needle| || i + k == |t| || t[i + k] != needle[k]
    ensures k == |needle| <==> needle <= t[i..]
  {
    if k == |needle| { assert needle[..k] == needle && t[i..][..k] == t[i..i + k]; }
  }

  // ---- The evaluator ----

  class Interpreter {
    const vars: array<int>
    const strs: Strings
    const arrays: Arrays
    const fns: seq<DefFn>
    const ended: seq<bool>
    var rand: nat

    constructor (strs: Strings, arrays: Arrays, fns: seq<DefFn>, ended: seq<bool>, rand: nat)
      ensures Valid() && fresh(vars) && Env() == BasicMeaning.Env(seq(26, _ => 0), strs, arrays, fns, ended) &&
              this.rand == rand
    {
      vars := new int[26](_ => 0);
      this.strs, this.arrays, this.fns, this.ended, this.rand := strs, arrays, fns, ended, rand;
    }

    ghost predicate Valid()
      reads this
    {
      vars.Length == 26
    }

    ghost function Env(): Env
      requires Valid()
      reads this, vars
    {
      BasicMeaning.Env(vars[..], strs, arrays, fns, ended)
    }

    method ParseExpr(text: string, pos: nat, fuel: nat) returns (st: Status, next: nat, v: int)
      requires Valid()
      modifies vars, this`rand
      ensures vars[..] == old(vars[..])
      ensures Tells(Expr(old(Env()), text, pos, old(rand), fuel), st, pos, next, v, rand)
      decreases fuel, 1
    {
      if fuel == 0 { return OutOfFuel, pos, 0; }
      st, next, v := ParseTerm(text, pos, fuel - 1);
      if st == Good { st, next, v := AddAll(text, next, v, fuel - 1); }
      if st != Good { next := pos; }
    }

    /** The operators and operands of a sum, up to its end. */
    method AddAll(text: string, pos: nat, lhs: int, fuel: nat) returns (st: Status, next: nat, v: int)
      requires Valid()
      modifies vars, this`rand
      ensures vars[..] == old(vars[..])
      ensures ExprRest(old(Env()), text, pos, lhs, old(rand), fuel) == Result(st, next, v, rand)
      decreases fuel, 1
    {
      var f, more := fuel, true;
      st, next, v := Good, pos, lhs;
      while more
        invariant 0 <= f <= fuel && vars[..] == old(vars[..])
        invariant ExprRest(old(Env()), text, pos, lhs, old(rand), fuel) ==
                  if more then ExprRest(Env(), text, next, v, rand, f) else Result(st, next, v, rand)
        decreases f, more
      {
        st, next, v, more := AddMore(text, next, v, f);
        if more { f := f - 1; }
      }
    }

    /** One more operator and operand of a sum, or its end. */
    method AddMore(text: string, pos: nat, lhs: int, fuel: nat) returns (st: Status, next: nat, v: int, more: bool)
      requires Valid()
      modifies vars, this`rand
      ensures vars[..] == old(vars[..]) && (more ==> fuel > 0)
      ensures ExprRest(old(Env()), text, pos, lhs, old(rand), fuel) ==
              if more then ExprRest(old(Env()), text, next, v, rand, fuel - 1) else Result(st, next, v, rand)
      decreases fuel, 0
    {
      if fuel == 0 { return OutOfFuel, pos, 0, false; }
      var s := SkipSpaces(text, pos);
      var op, at := ReadAddOp(text, s);
      if op == NoOp { return Good, s, lhs, false; }
      var rhs;
      st, next, rhs := ParseTerm(text, at, fuel - 1);
      if st != Good { return st, pos, 0, false; }
      v, more := Apply(op, lhs, rhs), true;
    }

    method ParseTerm(text: string, pos: nat, fuel: nat) returns (st: Status, next: nat, v: int)
      requires Valid()
      modifies vars, this`rand
      ensures vars[..] == old(vars[..])
      ensures Tells(Term(old(Env()), text, pos, old(rand), fuel), st, pos, next, v, rand)
      decreases fuel, 1
    {
      if fuel == 0 { return OutOfFuel, pos, 0; }
      st, next, v := ParseFactor(text, pos, fuel - 1);
      if st == Good { st, next, v := MulAll(text, next, v, fuel - 1); }
      if st != Good { next := pos; }
    }

    /** The operators and operands of a product, up to its end. */
    method MulAll(text: string, pos: nat, lhs: int, fuel: nat) returns (st: Status, next: nat, v: int)
      requires Valid()
      modifies vars, this`rand
      ensures vars[..] == old(vars[..])
      ensures TermRest(old(Env()), text, pos, lhs, old(rand), fuel) == Result(st, next, v, rand)
      decreases fuel, 1
    {
      var f, more := fuel, true;
      st, next, v := Good, pos, lhs;
      while more
        invariant 0 <= f <= fuel && vars[..] == old(vars[..])
        invariant TermRest(old(Env()), text, pos, lhs, old(rand), fuel) ==
                  if more then TermRest(Env(), text, next, v, rand, f) else Result(st, next, v, rand)
        decreases f, more
      {
        st, next, v, more := MulMore(text, next, v, f);
        if more { f := f - 1; }
      }
    }

    /** One more operator and operand of a product, or its end. */
    method MulMore(text: string, pos: nat, lhs: int, fuel: nat) returns (st: Status, next: nat, v: int, more: bool)
      requires Valid()
      modifies vars, this`rand
      ensures vars[..] == old(vars[..]) && (more ==> fuel > 0)
      ensures TermRest(old(Env()), text, pos, lhs, old(rand), fuel) ==
              if more then TermRest(old(Env()), text, next, v, rand, fuel - 1) else Result(st, next, v, rand)
      decreases fuel, 0
    {
      if fuel == 0 { return OutOfFuel, pos, 0, false; }
      var s := SkipSpaces(text, pos);
      var op := MulOp(text, s);
      if op == NoOp { return Good, s, lhs, false; }
      var rhs;
      st, next, rhs := ParseFactor(text, s + 1, fuel - 1);
      if st != Good { return st, pos, 0, false; }
      if Divides(op) && rhs == 0 { return Bad, pos, 0, false; }
      v, more := Apply(op, lhs, rhs), true;
    }

    method ParseFactor(text: string, pos: nat, fuel: nat) returns (st: Status, next: nat, v: int)
      requires Valid()
      modifies vars, this`rand
      ensures vars[..] == old(vars[..])
      ensures Tells(Factor(old(Env()), text, pos, old(rand), fuel), st, pos, next, v, rand)
      decreases fuel, 1
    {
      if fuel == 0 { return OutOfFuel, pos, 0; }
      var s := SkipSpaces(text, pos);
      var isNot := NameMatches(text, s, "NOT");
      if isNot {
        s := SkipSpaces(text, s + 3);
        st, next, v := ParseFactor(text, s, fuel - 1);
        if st != Good { return st, pos, 0; }
        return Good, next, I32(-v - 1);
      }
      var minus;
      minus, s := ReadSigns(text, s);
      st, next, v := ParseAtom(text, s, fuel - 1);
      if st != Good { return st, pos, 0; }
      v := Signed(minus, v);
    }

    method ParseAtom(text: string, pos: nat, fuel: nat) returns (st: Status, next: nat, v: int)
      requires Valid()
      modifies vars, this`rand
      ensures vars[..] == old(vars[..])
      ensures Tells(Atom(old(Env()), text, pos, old(rand), fuel), st, pos, next, v, rand)
      decreases fuel, 1
    {
      if fuel == 0 { return OutOfFuel, pos, 0; }
      var kind := FindKind(text, pos);
      st, next, v := ParseKind(kind, text, pos, fuel - 1);
    }

    method ParseKind(kind: Kind, text: string, pos: nat, fuel: nat) returns (st: Status, next: nat, v: int)
      requires Valid()
      modifies vars, this`rand
      ensures vars[..] == old(vars[..])
      ensures Tells(AtomOf(old(Env()), kind, text, pos, old(rand), fuel), st, pos, next, v, rand)
      decreases fuel, 1
    {
      if fuel == 0 { return OutOfFuel, pos, 0; }
      match kind {
        case Bracket => st, next, v := ParseParen(text, pos, fuel - 1);
        case BuiltIn(f, len) =>
          var s := SkipSpaces(text, pos + len);
          st, next, v := CallNumFn(f, text, s, fuel - 1);
          if st != Good { next := pos; }
        case UserFn(letter) =>
          st, next, v := CallFn(letter, text, pos + 3, fuel - 1);
          if st != Good { next := pos; }
        case Plain => st, next, v := ParseValue(text, pos, fuel - 1);
      }
    }

    method ParseParen(text: string, pos: nat, fuel: nat) returns (st: Status, next: nat, v: int)
      requires Valid()
      modifies vars, this`rand
      ensures vars[..] == old(vars[..])
      ensures Tells(Paren(old(Env()), text, pos, old(rand), fuel), st, pos, next, v, rand)
      decreases fuel, 1
    {
      if fuel == 0 { return OutOfFuel, pos, 0; }
      var s := SkipSpaces(text, pos);
      if At(text, s) != '(' { return Bad, pos, 0; }
      st, s, v := ParseExpr(text, s + 1, fuel - 1);
      if st != Good { return st, pos, 0; }
      s := SkipSpaces(text, s);
      if At(text, s) != ')' { return Bad, pos, 0; }
      next := s + 1;
    }

    /** Calls a user function: the parameter is overwritten with the argument while the body is evaluated, and then put
        back whether or not that succeeds. */
    method CallFn(letter: Var, text: string, pos: nat, fuel: nat) returns (st: Status, next: nat, v: int)
      requires Valid()
      modifies vars, this`rand
      ensures vars[..] == old(vars[..])
      ensures Tells(FnCall(old(Env()), letter, text, pos, old(rand), fuel), st, pos, next, v, rand)
      decreases fuel, 1
    {
      if fuel == 0 { return OutOfFuel, pos, 0; }
      var i := 0;
      while i < |fns| && fns[i].letter != letter
        invariant i <= |fns| && FnFor(fns[i..], letter) == FnFor(fns, letter)
      {
        assert fns[i..][1..] == fns[i + 1..];
        i := i + 1;
      }
      if i == |fns| { return Bad, pos, 0; }
      var arg;
      st, next, arg := ParseParen(text, pos, fuel - 1);
      if st != Good { return st, pos, 0; }
      var pv := fns[i].param;
      var oldVal := vars[pv];
      vars[pv] := arg;
      assert vars[..] == old(vars[..])[pv := arg];
      var e;
      st, e, v := ParseExpr(fns[i].body, 0, fuel - 1);
      vars[pv] := oldVal;
      assert vars[..] == old(vars[..]);
      if st != Good { next := pos; }
    }

    method ParseValue(text: string, pos: nat, fuel: nat) returns (st: Status, next: nat, v: int)
      requires Valid()
      modifies vars, this`rand
      ensures vars[..] == old(vars[..])
      ensures Tells(Value(old(Env()), text, pos, old(rand), fuel), st, pos, next, v, rand)
      decreases fuel, 1
    {
      if fuel == 0 { return OutOfFuel, pos, 0; }
      var s := SkipSpaces(text, pos);
      if !IsAlpha(At(text, s)) {
        var r := ParseInt(text, pos);
        match r {
          case NoNumber => return Bad, pos, 0;
          case Number(x, e) => return Good, e, x;
        }
      }
      var ref := ReadVar(text, s);
      if ref.isString { return Bad, pos, 0; }
      s := SkipSpaces(text, ref.end);
      if At(text, s) != '(' { return Good, s, vars[ref.idx]; }
      var i;
      st, s, i := ParseExpr(text, s + 1, fuel - 1);
      if st != Good { return st, pos, 0; }
      s := SkipSpaces(text, s);
      if At(text, s) != ')' || i < 0 || i >= |arrays[ref.idx]| { return Bad, pos, 0; }
      return Good, s + 1, arrays[ref.idx][i];
    }

    // ---- Built-in functions ----

    method CallNumFn(f: NumFn, text: string, pos: nat, fuel: nat) returns (st: Status, next: nat, v: int)
      requires Valid()
      modifies vars, this`rand
      ensures vars[..] == old(vars[..])
      ensures Tells(NumCall(old(Env()), f, text, pos, old(rand), fuel), st, pos, next, v, rand)
      decreases fuel, 1
    {
      if fuel == 0 { return OutOfFuel, pos, 0; }
      if f == Abs || f == Rnd || f == Eof {
        var x;
        st, next, x := ParseParen(text, pos, fuel - 1);
        if st != Good { return st, pos, 0; }
        v := NumberFn(f, x);
        return;
      }
      var t, s;
      st, s, t := ParseStr(text, pos + 1, fuel - 1);
      if st != Good { return st, pos, 0; }
      s := SkipSpaces(text, s);
      if f != Instr {
        if At(text, s) != ')' { return Bad, pos, 0; }
        v := TextFn(f, t);
        return Good, s + 1, v;
      }
      if At(text, s) != ',' { return Bad, pos, 0; }
      var needle;
      st, s, needle := ParseStr(text, s + 1, fuel - 1);
      if st != Good { return st, pos, 0; }
      s := SkipSpaces(text, s);
      if At(text, s) != ')' { return Bad, pos, 0; }
      v := FindText(t, needle);
      return Good, s + 1, v;
    }

    method NumberFn(f: NumFn, x: int) returns (v: int)
      requires Valid() && (f == Abs || f == Rnd || f == Eof)
      modifies this`rand
      ensures (v, rand) == OfNumber(Env(), f, x, old(rand))
    {
      if f == Abs {
        v := if x < 0 then I32(-x) else x;
      } else if f == Rnd {
        if x <= 0 { return 0; }
        rand := (rand * 1664525 + 1013904223) % WORD32;
        v := I32(rand % x);
      } else {
        v := if x < 1 || x > |ended| || ended[x - 1] then -1 else 0;
      }
    }

    static method TextFn(f: NumFn, t: string) returns (v: int)
      requires f == Len || f == Val || f == Asc
      ensures v == OfText(f, t)
    {
      if f == Len {
        v := |t|;
      } else if f == Val {
        var r := ParseInt(t, 0);
        v := if r.Number? then r.value else 0;
      } else {
        v := if t == "" then 0 else t[0] as int;
      }
    }

    // ---- Strings ----

    method ParseStr(text: string, pos: nat, fuel: nat) returns (st: Status, next: nat, t: string)
      requires Valid()
      modifies vars, this`rand
      ensures vars[..] == old(vars[..])
      ensures Tells(StrExpr(old(Env()), text, pos, old(rand), fuel), st, pos, next, t, rand)
      decreases fuel, 1
    {
      if fuel == 0 { return OutOfFuel, pos, ""; }
      st, next, t := JoinAll(text, pos, "", fuel - 1);
      if st != Good { next := pos; }
    }

    /** The parts of a string, up to its end. */
    method JoinAll(text: string, pos: nat, sofar: string, fuel: nat) returns (st: Status, next: nat, t: string)
      requires Valid()
      modifies vars, this`rand
      ensures vars[..] == old(vars[..])
      ensures StrRest(old(Env()), text, pos, sofar, old(rand), fuel) == Result(st, next, t, rand)
      decreases fuel, 1
    {
      var f, more := fuel, true;
      st, next, t := Good, pos, sofar;
      while more
        invariant 0 <= f <= fuel && vars[..] == old(vars[..])
        invariant StrRest(old(Env()), text, pos, sofar, old(rand), fuel) ==
                  if more then StrRest(Env(), text, next, t, rand, f) else Result(st, next, t, rand)
        decreases f, more
      {
        st, next, t, more := JoinMore(text, next, t, f);
        if more { f := f - 1; }
      }
    }

    /** One more part of a string. */
    method JoinMore(text: string, pos: nat, sofar: string, fuel: nat)
      returns (st: Status, next: nat, t: string, more: bool)
      requires Valid()
      modifies vars, this`rand
      ensures vars[..] == old(vars[..]) && (more ==> fuel > 0)
      ensures StrRest(old(Env()), text, pos, sofar, old(rand), fuel) ==
              if more then StrRest(old(Env()), text, next, t, rand, fuel - 1) else Result(st, next, t, rand)
      decreases fuel, 0
    {
      if fuel == 0 { return OutOfFuel, pos, "", false; }
      var s := SkipSpaces(text, pos);
      st, next, t := ParsePart(text, s, fuel - 1);
      if st != Good { return st, pos, "", false; }
      t := Cut(sofar + t);
      s := SkipSpaces(text, next);
      if At(text, s) != '+' { return Good, s, t, false; }
      next, more := s + 1, true;
    }

    method ParsePart(text: string, pos: nat, fuel: nat) returns (st: Status, next: nat, t: string)
      requires Valid()
      modifies vars, this`rand
      ensures vars[..] == old(vars[..])
      ensures Tells(Part(old(Env()), text, pos, old(rand), fuel), st, pos, next, t, rand)
      decreases fuel, 1
    {
      if fuel == 0 { return OutOfFuel, pos, ""; }
      if At(text, pos) == '"' {
        var l := ReadLiteral(text, pos + 1);
        match l {
          case None => return Bad, pos, "";
          case Some(x) => return Good, x.0, x.1;
        }
      }
      var i := FindCall(text, pos, StrNames());
      var f := StrFnOf(i);
      if f.Some? {
        var s := SkipSpaces(text, pos + StrLen(f.value));
        st, next, t := CallStrFn(f.value, text, s, fuel - 1);
        if st != Good { next := pos; }
        return;
      }
      var ref := ReadVar(text, pos);
      if ref.NoVar? || !ref.isString { return Bad, pos, ""; }
      return Good, ref.end, Cut(strs[ref.idx]);
    }

    method CallStrFn(f: StrFn, text: string, pos: nat, fuel: nat) returns (st: Status, next: nat, t: string)
      requires Valid()
      modifies vars, this`rand
      ensures vars[..] == old(vars[..])
      ensures Tells(StrCall(old(Env()), f, text, pos, old(rand), fuel), st, pos, next, t, rand)
      decreases fuel, 1
    {
      if fuel == 0 { return OutOfFuel, pos, ""; }
      if f == Chr || f == Str {
        var x;
        st, next, x := ParseParen(text, pos, fuel - 1);
        if st != Good { return st, pos, ""; }
        t := NumberText(f, x);
        return;
      }
      var s, src;
      st, s, src := ParseStr(text, pos + 1, fuel - 1);
      if st != Good { return st, pos, ""; }
      s := SkipSpaces(text, s);
      if At(text, s) != ',' { return Bad, pos, ""; }
      st, next, t := ParseSub(f, src, text, s + 1, fuel - 1);
      if st != Good { next := pos; }
    }

    static method NumberText(f: StrFn, x: int) returns (t: string)
      requires f == Chr || f == Str
      ensures t == OfNumberText(f, x)
    {
      if f == Chr {
        t := if x % 256 == 0 then "" else [(x % 256) as char];
      } else {
        t := IntToText(x);
        t := Cut(t);
      }
    }

    method ParseSub(f: StrFn, src: string, text: string, pos: nat, fuel: nat) returns (st: Status, next: nat, t: string)
      requires Valid() && (f == Mid || f == Left || f == Right)
      modifies vars, this`rand
      ensures vars[..] == old(vars[..])
      ensures Tells(SubCall(old(Env()), f, src, text, pos, old(rand), fuel), st, pos, next, t, rand)
      decreases fuel, 1
    {
      if fuel == 0 { return OutOfFuel, pos, ""; }
      var s, a, n := pos, 0, MAX_STRING + 1;
      st, s, a := ParseExpr(text, pos, fuel - 1);
      if st != Good { return st, pos, ""; }
      s := SkipSpaces(text, s);
      if f == Mid && At(text, s) == ',' {
        st, s, n := ParseExpr(text, s + 1, fuel - 1);
        if st != Good { return st, pos, ""; }
        s := SkipSpaces(text, s);
      }
      if At(text, s) != ')' { return Bad, pos, ""; }
      t := Substring(f, src, a, n);
      next := s + 1;
    }
  }
}
