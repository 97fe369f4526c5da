/** What a BASIC expression means: its value for given variables, where a user function is its body with the parameter
    bound. `fuel` bounds the depth of evaluation. */
module BasicMeaning {
  import opened Options
  import opened BasicText

  type Slots = s: seq<int> | |s| == 26 witness seq(26, _ => 0)
  type Strings = s: seq<string> | |s| == 26 witness seq(26, _ => "")
  type Arrays = s: seq<seq<int>> | |s| == 26 witness seq(26, _ => [])
  type Var = n: nat | n < 26

  datatype DefFn = DefFn(letter: Var, param: Var, body: string)

  /** What an expression can refer to: variables, arrays, user functions, and which input files have ended. */
  datatype Env = Env(vars: Slots, strs: Strings, arrays: Arrays, fns: seq<DefFn>, ended: seq<bool>)

  /** A value and the position behind the expression, or no value. Every evaluation may draw random numbers. */
  datatype Out<T> = Done(pos: nat, value: T, rand: nat) | Failed(rand: nat) | Spent(rand: nat)

  // ---- Operators and built-in functions ----

  datatype Op = Plus | Minus | And | Or | Xor | Times | Over | Mod | NoOp

  function AddOp(text: string, s: nat): Op {
    if At(text, s) == '+' then Plus else if At(text, s) == '-' then Minus else if Names(text, s, "AND") then And
    else if Names(text, s, "OR") then Or else if Names(text, s, "XOR") then Xor else NoOp
  }

  function MulOp(text: string, s: nat): Op {
    if At(text, s) == '*' then Times else if At(text, s) == '/' then Over else if At(text, s) == '%' then Mod else NoOp
  }

  /** Where the right-hand side of an operator begins. */
  function Behind(op: Op, text: string, s: nat): nat {
    match op case And => Skip(text, s + 3) case Or => Skip(text, s + 2) case Xor => Skip(text, s + 3) case _ => s + 1
  }

  /** Two numbers combined bit by bit, n bits of them. */
  function Bitwise(op: Op, a: nat, b: nat, n: nat): nat
    decreases n, a
  {
    if n == 0 then 0 else Bit(op, a % 2, b % 2) + 2 * Bitwise(op, a / 2, b / 2, n - 1)
  }

  function Bit(op: Op, a: nat, b: nat): nat {
    match op case And => a * b case Or => if a + b > 0 then 1 else 0 case _ => (a + b) % 2
  }

  function Halved(x: nat, k: nat): nat { if k == 0 then x else Halved(x / 2, k - 1) }

  /** Every bit of the result comes from the bits in its place. */
  lemma {:induction false} BitwiseBits(op: Op, a: nat, b: nat, n: nat, k: nat)
    requires k < n
    ensures Halved(Bitwise(op, a, b, n), k) % 2 == Bit(op, Halved(a, k) % 2, Halved(b, k) % 2)
  {
    var rest := Bitwise(op, a / 2, b / 2, n - 1);
    assert Bitwise(op, a, b, n) == Bit(op, a % 2, b % 2) + 2 * rest && Bit(op, a % 2, b % 2) <= 1;
    if k > 0 { BitwiseBits(op, a / 2, b / 2, n - 1, k - 1); }
  }

  function Quotient(a: int, b: int): int
    requires b != 0
  {
    var q := (if a < 0 then -a else a) / (if b < 0 then -b else b);
    if (a < 0) == (b < 0) then q else -q
  }

  predicate Divides(op: Op) { op == Over || op == Mod }

  function Operation(op: Op): (int, int) -> int {
    match op
    case Plus => (a, b) => I32(a + b)
    case Minus => (a, b) => I32(a - b)
    case Times => (a, b) => I32(a * b)
    case Over => (a, b) => if b == 0 then 0 else I32(Quotient(a, b))
    case Mod => (a, b) => if b == 0 then 0 else I32(a - Quotient(a, b) * b)
    case NoOp => (a, b) => a
    case _ => (a, b) => I32(Bitwise(op, a % WORD32, b % WORD32, 32))
  }

  function Apply(op: Op, a: int, b: int): int { Operation(op)(a, b) }

  predicate CallsAt(text: string, s: nat, name: string) {
    Names(text, s, name) && At(text, Skip(text, s + |name|)) == '('
  }

  /** Which of some functions, from the i-th on, is called at a position; how many there are if it is none. */
  function CalledAt(text: string, s: nat, names: seq<string>, i: nat): (r: nat)
    decreases |names| - i, |text|
  {
    if i >= |names| || CallsAt(text, s, names[i]) then i else CalledAt(text, s, names, i + 1)
  }

  datatype NumFn = Abs | Rnd | Len | Val | Asc | Eof | Instr

  function NumNames(): seq<string> { ["ABS", "RND", "LEN", "VAL", "ASC", "EOF", "INSTR"] }

  function NumFnOf(i: nat): Option<NumFn> {
    if i == 0 then Some(Abs) else if i == 1 then Some(Rnd) else if i == 2 then Some(Len) else if i == 3 then Some(Val)
    else if i == 4 then Some(Asc) else if i == 5 then Some(Eof) else if i == 6 then Some(Instr) else None
  }

  datatype StrFn = Chr | Str | Mid | Left | Right

  function StrNames(): seq<string> { ["CHR$", "STR$", "MID$", "LEFT$", "RIGHT$"] }

  function StrFnOf(i: nat): Option<StrFn> {
    if i == 0 then Some(Chr) else if i == 1 then Some(Str) else if i == 2 then Some(Mid) else if i == 3 then Some(Left)
    else if i == 4 then Some(Right) else None
  }

  function StrLen(f: StrFn): nat { match f case Left => 5 case Right => 6 case _ => 4 }

  predicate FnAt(text: string, s: nat) {
    Up(At(text, s)) == 'F' && Up(At(text, s + 1)) == 'N' && IsAlpha(At(text, s + 2)) && !IsTail(At(text, s + 3))
  }

  function NextRandom(rand: nat): nat { (rand * 1664525 + 1013904223) % WORD32 }

  /** The value of a built-in function of a number, and the random state after it. */
  function OfNumber(env: Env, f: NumFn, v: int, rand: nat): (int, nat) {
    match f
    case Abs => (if v < 0 then I32(-v) else v, rand)
    case Rnd => if v <= 0 then (0, rand) else (I32(NextRandom(rand) % v), NextRandom(rand))
    case _ => (if v < 1 || v > |env.ended| || env.ended[v - 1] then -1 else 0, rand)
  }

  function OfText(f: NumFn, t: string): int {
    match f
    case Len => |t|
    case Val => (match ReadInt(t, 0) case Number(v, _) => v case NoNumber => 0)
    case _ => if t == "" then 0 else t[0] as int
  }

  function Cut(t: string): (r: string)
    ensures |r| <= MAX_STRING
  {
    if |t| <= MAX_STRING then t else t[..MAX_STRING]
  }

  function OfNumberText(f: StrFn, v: int): string {
    if f == Chr then (if v % 256 == 0 then "" else [(v % 256) as char]) else Cut(Text(v))
  }

  function Clamp(v: int, high: nat): nat { if v < 0 then 0 else if v > high then high else v }

  /** Part of a text: from a position counted from one, or from either end. */
  function SubText(f: StrFn, t: string, a: int, n: int): string {
    match f
    case Left => Cut(t[..Clamp(a, |t|)])
    case Right => Cut(t[|t| - Clamp(a, |t|)..])
    case _ =>
      var from := if a < 1 then 0 else Clamp(a - 1, |t|);
      Cut(t[from..from + Clamp(n, |t| - from)])
  }

  /** The first place, counted from one, at which a text occurs in another; zero if there is none. An empty text occurs
      at the first place. */
  function Find(t: string, needle: string, from: nat): nat
    requires from <= |t|
    decreases |t| - from
  {
    if needle == "" then 1
    else if from == |t| then 0
    else if needle <= t[from..] then from + 1
    else Find(t, needle, from + 1)
  }

  /** A string literal from its opening quote on: the position behind it and the text. */
  function Literal(text: string, pos: nat, sofar: string): (r: Option<(nat, string)>)
    ensures r.Some? ==> pos <= r.value.0
    decreases |text| - pos
  {
    if At(text, pos) == '"' then Some((pos + 1, Cut(sofar)))
    else if pos < |text| && text[pos] != NUL then Literal(text, pos + 1, sofar + [text[pos]])
    else None
  }

  /** Signs, one after another: whether they come to a minus, and where they end. */
  function Signs(text: string, s: nat, minus: bool): (r: (bool, nat))
    ensures s <= r.1
    decreases |text| - s
  {
    if s < |text| && text[s] == '+' then Signs(text, Skip(text, s + 1), minus)
    else if s < |text| && text[s] == '-' then Signs(text, Skip(text, s + 1), !minus)
    else (minus, s)
  }

  function Signed(minus: bool, v: int): int { if minus then I32(-v) else I32(v) }

  /** What an operand is, from how it begins. */
  datatype Kind = Bracket | BuiltIn(f: NumFn, len: nat) | UserFn(letter: Var) | Plain

  function KindAt(text: string, s: nat): Kind {
    if At(text, s) == '(' then Bracket
    else if !IsAlpha(At(text, s)) then Plain
    else match NumFnOf(CalledAt(text, s, NumNames(), 0))
      case Some(f) => BuiltIn(f, if f == Instr then 5 else 3)
      case None => if FnAt(text, s) then UserFn(Letter(At(text, s + 2))) else Plain
  }

  function FnFor(fns: seq<DefFn>, letter: Var): Option<DefFn> {
    if |fns| == 0 then None else if fns[0].letter == letter then Some(fns[0]) else FnFor(fns[1..], letter)
  }

  /** A variable's name: which one, whether a string variable, and the position behind it. */
  datatype VarRef = VarRef(idx: Var, isString: bool, end: nat) | NoVar

  function VarAt(text: string, s: nat): VarRef {
    if !IsAlpha(At(text, s)) then NoVar
    else
      var e := TailEnd(text, s + 1);
      VarRef(Letter(At(text, s)), At(text, e) == '$', if At(text, e) == '$' then e + 1 else e)
  }

  function Closed<T>(text: string, p: nat, v: T, rand: nat): Out<T> {
    var e := Skip(text, p);
    if At(text, e) == ')' then Done(e + 1, v, rand) else Failed(rand)
  }

  // ---- Evaluation ----

  function Expr(env: Env, text: string, pos: nat, rand: nat, fuel: nat): (o: Out<int>)
    ensures o.Done? ==> pos <= o.pos
    decreases fuel
  {
    if fuel == 0 then Spent(rand)
    else match Term(env, text, pos, rand, fuel - 1)
      case Done(p, v, r) => ExprRest(env, text, p, v, r, fuel - 1)
      case o => o
  }

  function ExprRest(env: Env, text: string, pos: nat, lhs: int, rand: nat, fuel: nat): (o: Out<int>)
    ensures o.Done? ==> pos <= o.pos
    decreases fuel
  {
    if fuel == 0 then Spent(rand)
    else
      var s := Skip(text, pos);
      var op := AddOp(text, s);
      if op == NoOp then Done(s, lhs, rand)
      else match Term(env, text, Behind(op, text, s), rand, fuel - 1)
        case Done(p, v, r) => ExprRest(env, text, p, Apply(op, lhs, v), r, fuel - 1)
        case o => o
  }

  function Term(env: Env, text: string, pos: nat, rand: nat, fuel: nat): (o: Out<int>)
    ensures o.Done? ==> pos <= o.pos
    decreases fuel
  {
    if fuel == 0 then Spent(rand)
    else match Factor(env, text, pos, rand, fuel - 1)
      case Done(p, v, r) => TermRest(env, text, p, v, r, fuel - 1)
      case o => o
  }

  function TermRest(env: Env, text: string, pos: nat, lhs: int, rand: nat, fuel: nat): (o: Out<int>)
    ensures o.Done? ==> pos <= o.pos
    decreases fuel
  {
    if fuel == 0 then Spent(rand)
    else
      var s := Skip(text, pos);
      var op := MulOp(text, s);
      if op == NoOp then Done(s, lhs, rand)
      else match Factor(env, text, s + 1, rand, fuel - 1)
        case Done(p, v, r) =>
          if Divides(op) && v == 0 then Failed(r) else TermRest(env, text, p, Apply(op, lhs, v), r, fuel - 1)
        case o => o
  }

  function Factor(env: Env, text: string, pos: nat, rand: nat, fuel: nat): (o: Out<int>)
    ensures o.Done? ==> pos <= o.pos
    decreases fuel
  {
    if fuel == 0 then Spent(rand)
    else
      var s := Skip(text, pos);
      if Names(text, s, "NOT") then
        match Factor(env, text, Skip(text, s + 3), rand, fuel - 1)
        case Done(p, v, r) => Done(p, I32(-v - 1), r)
        case o => o
      else
        var sg := Signs(text, s, false);
        match Atom(env, text, sg.1, rand, fuel - 1)
        case Done(p, v, r) => Done(p, Signed(sg.0, v), r)
        case o => o
  }

  function Atom(env: Env, text: string, s: nat, rand: nat, fuel: nat): (o: Out<int>)
    ensures o.Done? ==> s <= o.pos
    decreases fuel
  {
    if fuel == 0 then Spent(rand) else AtomOf(env, KindAt(text, s), text, s, rand, fuel - 1)
  }

  function AtomOf(env: Env, kind: Kind, text: string, s: nat, rand: nat, fuel: nat): (o: Out<int>)
    ensures o.Done? ==> s <= o.pos
    decreases fuel
  {
    if fuel == 0 then Spent(rand)
    else match kind
      case Bracket => Paren(env, text, s, rand, fuel - 1)
      case BuiltIn(f, len) => NumCall(env, f, text, Skip(text, s + len), rand, fuel - 1)
      case UserFn(letter) => FnCall(env, letter, text, s + 3, rand, fuel - 1)
      case Plain => Value(env, text, s, rand, fuel - 1)
  }

  function Paren(env: Env, text: string, pos: nat, rand: nat, fuel: nat): (o: Out<int>)
    ensures o.Done? ==> pos <= o.pos
    decreases fuel
  {
    if fuel == 0 then Spent(rand)
    else
      var s := Skip(text, pos);
      if At(text, s) != '(' then Failed(rand)
      else match Expr(env, text, s + 1, rand, fuel - 1)
        case Done(p, v, r) => Closed(text, p, v, r)
        case o => o
  }

  function NumCall(env: Env, f: NumFn, text: string, pos: nat, rand: nat, fuel: nat): (o: Out<int>)
    ensures o.Done? ==> pos <= o.pos
    decreases fuel
  {
    if fuel == 0 then Spent(rand)
    else match f
      case Abs | Rnd | Eof => (
        match Paren(env, text, pos, rand, fuel - 1)
        case Done(p, v, r) => Done(p, OfNumber(env, f, v, r).0, OfNumber(env, f, v, r).1)
        case o => o)
      case Len | Val | Asc => (
        match StrExpr(env, text, pos + 1, rand, fuel - 1)
        case Done(p, t, r) => Closed(text, p, OfText(f, t), r)
        case Failed(r) => Failed(r)
        case Spent(r) => Spent(r))
      case Instr => (
        match StrExpr(env, text, pos + 1, rand, fuel - 1)
        case Done(p, t, r) =>
          if At(text, Skip(text, p)) != ',' then Failed(r)
          else (match StrExpr(env, text, Skip(text, p) + 1, r, fuel - 1)
            case Done(q, n, r') => Closed(text, q, Find(t, n, 0), r')
            case Failed(r') => Failed(r')
            case Spent(r') => Spent(r'))
        case Failed(r) => Failed(r)
        case Spent(r) => Spent(r))
  }

  /** A user function: its body, with the parameter bound to the argument. */
  function FnCall(env: Env, letter: Var, text: string, pos: nat, rand: nat, fuel: nat): (o: Out<int>)
    ensures o.Done? ==> pos <= o.pos
    decreases fuel
  {
    if fuel == 0 then Spent(rand)
    else match FnFor(env.fns, letter)
      case None => Failed(rand)
      case Some(d) =>
        match Paren(env, text, pos, rand, fuel - 1)
        case Done(p, arg, r) => (
          match Expr(env.(vars := env.vars[d.param := arg]), d.body, 0, r, fuel - 1)
          case Done(_, v, r') => Done(p, v, r')
          case o => o)
        case o => o
  }

  function Value(env: Env, text: string, pos: nat, rand: nat, fuel: nat): (o: Out<int>)
    ensures o.Done? ==> pos <= o.pos
    decreases fuel
  {
    if fuel == 0 then Spent(rand)
    else
      var s := Skip(text, pos);
      if !IsAlpha(At(text, s)) then
        (match ReadInt(text, pos) case NoNumber => Failed(rand) case Number(v, e) => Done(e, v, rand))
      else
        var ref := VarAt(text, s);
        if ref.NoVar? || ref.isString then Failed(rand)
        else
          var e := Skip(text, ref.end);
          if At(text, e) != '(' then Done(e, env.vars[ref.idx], rand)
          else match Expr(env, text, e + 1, rand, fuel - 1)
            case Done(p, i, r) =>
              var q := Skip(text, p);
              if At(text, q) != ')' || !(0 <= i < |env.arrays[ref.idx]|) then Failed(r)
              else Done(q + 1, env.arrays[ref.idx][i], r)
            case o => o
  }

  function StrExpr(env: Env, text: string, pos: nat, rand: nat, fuel: nat): (o: Out<string>)
    ensures o.Done? ==> pos <= o.pos
    decreases fuel
  {
    if fuel == 0 then Spent(rand) else StrRest(env, text, pos, "", rand, fuel - 1)
  }

  function StrRest(env: Env, text: string, pos: nat, sofar: string, rand: nat, fuel: nat): (o: Out<string>)
    ensures o.Done? ==> pos <= o.pos
    decreases fuel
  {
    if fuel == 0 then Spent(rand)
    else match Part(env, text, Skip(text, pos), rand, fuel - 1)
      case Done(p, t, r) =>
        var e := Skip(text, p);
        if At(text, e) == '+' then StrRest(env, text, e + 1, Cut(sofar + t), r, fuel - 1)
        else Done(e, Cut(sofar + t), r)
      case o => o
  }

  function Part(env: Env, text: string, s: nat, rand: nat, fuel: nat): (o: Out<string>)
    ensures o.Done? ==> s <= o.pos
    decreases fuel
  {
    if fuel == 0 then Spent(rand)
    else if At(text, s) == '"' then
      (match Literal(text, s + 1, "") case Some(l) => Done(l.0, l.1, rand) case None => Failed(rand))
    else match StrFnOf(CalledAt(text, s, StrNames(), 0))
      case Some(f) => StrCall(env, f, text, Skip(text, s + StrLen(f)), rand, fuel - 1)
      case None => match VarAt(text, s)
        case NoVar => Failed(rand)
        case VarRef(i, isString, e) => if isString then Done(e, Cut(env.strs[i]), rand) else Failed(rand)
  }

  function StrCall(env: Env, f: StrFn, text: string, pos: nat, rand: nat, fuel: nat): (o: Out<string>)
    ensures o.Done? ==> pos <= o.pos
    decreases fuel
  {
    if fuel == 0 then Spent(rand)
    else if f == Chr || f == Str then
      match Paren(env, text, pos, rand, fuel - 1)
      case Done(p, v, r) => Done(p, OfNumberText(f, v), r)
      case Failed(r) => Failed(r)
      case Spent(r) => Spent(r)
    else match StrExpr(env, text, pos + 1, rand, fuel - 1)
      case Done(p, t, r) =>
        if At(text, Skip(text, p)) != ',' then Failed(r) else SubCall(env, f, t, text, Skip(text, p) + 1, r, fuel - 1)
      case o => o
  }

  /** The numbers behind the text from which a part is taken. */
  function SubCall(env: Env, f: StrFn, t: string, text: string, pos: nat, rand: nat, fuel: nat): (o: Out<string>)
    ensures o.Done? ==> pos <= o.pos
    decreases fuel
  {
    if fuel == 0 then Spent(rand)
    else match Expr(env, text, pos, rand, fuel - 1)
      case Done(p, a, r) =>
        if f == Mid && At(text, Skip(text, p)) == ',' then
          match Expr(env, text, Skip(text, p) + 1, r, fuel - 1)
          case Done(q, n, r') => Closed(text, q, SubText(f, t, a, n), r')
          case Failed(r') => Failed(r')
          case Spent(r') => Spent(r')
        else Closed(text, p, SubText(f, t, a, MAX_STRING + 1), r)
      case Failed(r) => Failed(r)
      case Spent(r) => Spent(r)
  }
}
