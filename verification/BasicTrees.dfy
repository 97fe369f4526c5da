/** What BASIC expressions mean as trees: products before sums, each from left to right, with the functions of numbers
    and strings, and user functions in place. */
module BasicTrees {
  import opened Options
  import opened BasicText
  import opened BasicMeaning

  datatype SumOp = Add | Subtract | BitAnd | BitOr | BitXor
  datatype ProductOp = Multiply | Divide | Remainder

  datatype Sum = Sum(first: Product, rest: Sums)
  datatype Sums = NoMore | More(op: SumOp, term: Product, rest: Sums)
  datatype Product = Product(first: Operand, rest: Products)
  datatype Products = NoFactor | Factor(op: ProductOp, factor: Operand, rest: Products)
  datatype Operand = NotOf(of: Operand) | Signed(minus: seq<bool>, atom: Primary)
  datatype Primary = Number(n: nat) | Variable(i: Var) | Element(i: Var, at: Sum) | Brackets(e: Sum)
                   | AbsOf(e: Sum) | EofOf(e: Sum) | LenOf(t: Phrase) | ValOf(t: Phrase) | AscOf(t: Phrase)
                   | InstrOf(t: Phrase, needle: Phrase) | CallOf(letter: Var, arg: Sum, param: Var, body: Sum)

  datatype Phrase = Phrase(first: Piece, rest: Pieces)
  datatype Pieces = NoPiece | Joined(piece: Piece, rest: Pieces)
  datatype Piece = Quoted(s: string) | StringVar(i: Var) | ChrOf(e: Sum) | StrOf(e: Sum) | LeftOf(t: Phrase, n: Sum)
                 | RightOf(t: Phrase, n: Sum) | MidOf(t: Phrase, from: Sum, n: Sum) | TailOf(t: Phrase, from: Sum)

  // ---- What a tree is worth ----

  /** A value; or it is refused, for a division by zero or an element that is not there; or the tree does not fit: it
      calls a function that the program defines otherwise, or quotes what cannot be quoted. */
  datatype Worth<T> = Is(value: T) | Refused | Unfit

  /** The whole number within 32 bits that a number is cut down to, in two's complement. */
  function Cut32(x: int): int {
    var r := x % 0x1_0000_0000;
    if r < 0x8000_0000 then r else r - 0x1_0000_0000
  }

  /** Bits 0 to n - 1 of two numbers combined. */
  function Bits(op: SumOp, a: int, b: int, n: nat): nat
    decreases n
  {
    if n == 0 then 0 else LowBit(op, a % 2 == 1, b % 2 == 1) + 2 * Bits(op, a / 2, b / 2, n - 1)
  }

  function LowBit(op: SumOp, x: bool, y: bool): nat {
    var bit := match op case BitAnd => x && y case BitOr => x || y case _ => x != y;
    if bit then 1 else 0
  }

  function SumOf(op: SumOp, a: int, b: int): int {
    match op
    case Add => Cut32(a + b)
    case Subtract => Cut32(a - b)
    case _ => Cut32(Bits(op, a, b, 32))
  }

  /** Division rounds towards zero, and the remainder has the sign of the dividend. */
  function Truncated(a: int, b: int): int
    requires b != 0
  {
    if a >= 0 then (if b > 0 then a / b else -(a / -b)) else (if b > 0 then -(-a / b) else -a / -b)
  }

  function ProductOf(op: ProductOp, a: int, b: int): Worth<int> {
    match op
    case Multiply => Is(Cut32(a * b))
    case Divide => if b == 0 then Refused else Is(Cut32(Truncated(a, b)))
    case Remainder => if b == 0 then Refused else Is(Cut32(a - b * Truncated(a, b)))
  }

  /** Strings are cut down to 95 characters. */
  function Short(t: string): string { if |t| <= 95 then t else t[..95] }

  ghost function SumValue(env: Env, e: Sum): Worth<int>
    decreases e
  {
    match ProductValue(env, e.first)
    case Is(v) => SumsValue(env, v, e.rest)
    case w => w
  }

  ghost function SumsValue(env: Env, left: int, rest: Sums): Worth<int>
    decreases rest
  {
    match rest
    case NoMore => Is(left)
    case More(op, term, more) =>
      match ProductValue(env, term)
      case Is(v) => SumsValue(env, SumOf(op, left, v), more)
      case w => w
  }

  ghost function ProductValue(env: Env, t: Product): Worth<int>
    decreases t
  {
    match OperandValue(env, t.first)
    case Is(v) => ProductsValue(env, v, t.rest)
    case w => w
  }

  ghost function ProductsValue(env: Env, left: int, rest: Products): Worth<int>
    decreases rest
  {
    match rest
    case NoFactor => Is(left)
    case Factor(op, factor, more) =>
      match OperandValue(env, factor)
      case Is(v) => (match ProductOf(op, left, v) case Is(w) => ProductsValue(env, w, more) case w => w)
      case w => w
  }

  ghost function OperandValue(env: Env, f: Operand): Worth<int>
    decreases f
  {
    match f
    case NotOf(g) => NotOfValue(OperandValue(env, g))
    case Signed(minus, atom) => SignedValue(Odd(minus), PrimaryValue(env, atom))
  }

  function NotOfValue(w: Worth<int>): Worth<int> { match w case Is(v) => Is(Cut32(-v - 1)) case _ => w }

  function SignedValue(minus: bool, w: Worth<int>): Worth<int> {
    match w case Is(v) => Is(Cut32(if minus then -v else v)) case _ => w
  }

  /** Whether an odd number of minus signs stands before an operand. */
  function Odd(minus: seq<bool>): bool { if |minus| == 0 then false else minus[0] != Odd(minus[1..]) }

  /** The first function that a program defines under a letter has this parameter and this body. */
  ghost predicate Defined(fns: seq<DefFn>, letter: Var, param: Var, body: string) {
    exists k :: 0 <= k < |fns| && fns[k] == DefFn(letter, param, body) &&
                forall j :: 0 <= j < k ==> fns[j].letter != letter
  }

  ghost function PrimaryValue(env: Env, a: Primary): Worth<int>
    decreases a
  {
    match a
    case Number(n) => Is(Cut32(n))
    case Variable(i) => Is(env.vars[i])
    case Element(i, at) => ElementValue(env.arrays[i], SumValue(env, at))
    case Brackets(e) => SumValue(env, e)
    case AbsOf(e) => AbsValue(SumValue(env, e))
    case EofOf(e) => EofValue(env.ended, SumValue(env, e))
    case LenOf(t) => TextValue(Len, PhraseValue(env, t))
    case ValOf(t) => TextValue(Val, PhraseValue(env, t))
    case AscOf(t) => TextValue(Asc, PhraseValue(env, t))
    case InstrOf(t, needle) =>
      (match PhraseValue(env, t)
       case Is(v) => InstrValue(v, PhraseValue(env, needle))
       case Refused => Refused
       case Unfit => Unfit)
    case CallOf(letter, arg, param, body) =>
      if !Defined(env.fns, letter, param, WriteSum(body)) then Unfit
      else match SumValue(env, arg)
        case Is(v) => SumValue(env.(vars := env.vars[param := v]), body)
        case w => w
  }

  function ElementValue(elements: seq<int>, w: Worth<int>): Worth<int> {
    match w case Is(v) => if 0 <= v < |elements| then Is(elements[v]) else Refused case _ => w
  }

  function AbsValue(w: Worth<int>): Worth<int> { match w case Is(v) => Is(if v < 0 then Cut32(-v) else v) case _ => w }

  /** Files count from one; a file that has not been opened has ended. */
  function EofValue(ended: seq<bool>, w: Worth<int>): Worth<int> {
    match w case Is(v) => Is(if 1 <= v <= |ended| && !ended[v - 1] then 0 else -1) case _ => w
  }

  function TextValue(f: NumFn, w: Worth<string>): Worth<int> {
    match w case Is(t) => Is(OfText(f, t)) case Refused => Refused case Unfit => Unfit
  }

  function InstrValue(t: string, w: Worth<string>): Worth<int> {
    match w case Is(n) => Is(Find(t, n, 0)) case Refused => Refused case Unfit => Unfit
  }

  ghost function PhraseValue(env: Env, t: Phrase): Worth<string>
    decreases t
  {
    match PieceValue(env, t.first)
    case Is(v) => PiecesValue(env, Short(v), t.rest)
    case w => w
  }

  ghost function PiecesValue(env: Env, left: string, rest: Pieces): Worth<string>
    decreases rest
  {
    match rest
    case NoPiece => Is(left)
    case Joined(piece, more) =>
      match PieceValue(env, piece)
      case Is(v) => PiecesValue(env, Short(left + v), more)
      case w => w
  }

  ghost function PieceValue(env: Env, a: Piece): Worth<string>
    decreases a
  {
    match a
    case Quoted(s) => if '"' in s || NUL in s then Unfit else Is(Short(s))
    case StringVar(i) => Is(Short(env.strs[i]))
    case ChrOf(e) => NumberTextValue(Chr, SumValue(env, e))
    case StrOf(e) => NumberTextValue(Str, SumValue(env, e))
    case LeftOf(t, n) =>
      (match PhraseValue(env, t) case Is(v) => PartValue(Left, v, SumValue(env, n), Is(0)) case w => w)
    case RightOf(t, n) =>
      (match PhraseValue(env, t) case Is(v) => PartValue(Right, v, SumValue(env, n), Is(0)) case w => w)
    case MidOf(t, from, n) =>
      (match PhraseValue(env, t)
       case Is(v) => PartValue(Mid, v, SumValue(env, from), SumValue(env, n))
       case w => w)
    case TailOf(t, from) =>
      (match PhraseValue(env, t) case Is(v) => PartValue(Mid, v, SumValue(env, from), Is(96)) case w => w)
  }

  function NumberTextValue(f: StrFn, w: Worth<int>): Worth<string> {
    match w case Is(v) => Is(OfNumberText(f, v)) case Refused => Refused case Unfit => Unfit
  }

  function PartValue(f: StrFn, t: string, a: Worth<int>, n: Worth<int>): Worth<string> {
    match a
    case Is(v) => (match n case Is(m) => Is(SubText(f, t, v, m)) case Refused => Refused case Unfit => Unfit)
    case Refused => Refused
    case Unfit => Unfit
  }

  // ---- How a tree is written ----

  function WriteSum(e: Sum): string { WriteProduct(e.first) + WriteSums(e.rest) }

  function WriteSums(rest: Sums): string {
    match rest
    case NoMore => ""
    case More(op, term, more) => Sign(op) + (WriteProduct(term) + WriteSums(more))
  }

  function Sign(op: SumOp): string {
    match op case Add => "+" case Subtract => "-" case BitAnd => " AND " case BitOr => " OR " case BitXor => " XOR "
  }

  function WriteProduct(t: Product): string { WriteOperand(t.first) + WriteProducts(t.rest) }

  function WriteProducts(rest: Products): string {
    match rest
    case NoFactor => ""
    case Factor(op, factor, more) => [Mark(op)] + (WriteOperand(factor) + WriteProducts(more))
  }

  function Mark(op: ProductOp): char { match op case Multiply => '*' case Divide => '/' case Remainder => '%' }

  function WriteOperand(f: Operand): string {
    match f
    case NotOf(g) => "NOT " + WriteOperand(g)
    case Signed(minus, atom) => WriteSigns(minus) + WritePrimary(atom)
  }

  function WriteSigns(minus: seq<bool>): string {
    if |minus| == 0 then "" else [if minus[0] then '-' else '+'] + WriteSigns(minus[1..])
  }

  function LetterOf(i: Var): char { 'A' + i as char }

  function WritePrimary(a: Primary): string {
    match a
    case Number(n) => Decimal(n)
    case Variable(i) => [LetterOf(i)]
    case Element(i, at) => [LetterOf(i), '('] + (WriteSum(at) + ")")
    case Brackets(e) => "(" + (WriteSum(e) + ")")
    case AbsOf(e) => "ABS(" + (WriteSum(e) + ")")
    case EofOf(e) => "EOF(" + (WriteSum(e) + ")")
    case LenOf(t) => "LEN(" + (WritePhrase(t) + ")")
    case ValOf(t) => "VAL(" + (WritePhrase(t) + ")")
    case AscOf(t) => "ASC(" + (WritePhrase(t) + ")")
    case InstrOf(t, needle) => "INSTR(" + (WritePhrase(t) + ("," + (WritePhrase(needle) + ")")))
    case CallOf(letter, arg, _, _) => ['F', 'N', LetterOf(letter), '('] + (WriteSum(arg) + ")")
  }

  function WritePhrase(t: Phrase): string { WritePiece(t.first) + WritePieces(t.rest) }

  function WritePieces(rest: Pieces): string {
    match rest
    case NoPiece => ""
    case Joined(piece, more) => "+" + (WritePiece(piece) + WritePieces(more))
  }

  function WritePiece(a: Piece): string {
    match a
    case Quoted(s) => "\"" + (s + "\"")
    case StringVar(i) => [LetterOf(i), '$']
    case ChrOf(e) => "CHR$(" + (WriteSum(e) + ")")
    case StrOf(e) => "STR$(" + (WriteSum(e) + ")")
    case LeftOf(t, n) => "LEFT$(" + (WritePhrase(t) + ("," + (WriteSum(n) + ")")))
    case RightOf(t, n) => "RIGHT$(" + (WritePhrase(t) + ("," + (WriteSum(n) + ")")))
    case MidOf(t, from, n) => "MID$(" + (WritePhrase(t) + ("," + (WriteSum(from) + ("," + (WriteSum(n) + ")")))))
    case TailOf(t, from) => "MID$(" + (WritePhrase(t) + ("," + (WriteSum(from) + ")")))
  }

  // ---- The operations ----

  lemma CutIs(x: int)
    ensures I32(x) == Cut32(x)
  {
  }

  lemma {:induction false} BitsMeet(op: SumOp, o: Op, a: int, b: int, n: nat)
    requires (op == BitAnd && o == And) || (op == BitOr && o == Or) || (op == BitXor && o == Xor)
    ensures Bitwise(o, a % Power(n), b % Power(n), n) == Bits(op, a, b, n)
    decreases n
  {
    if n > 0 {
      HalfPower(a, n);
      HalfPower(b, n);
      BitsMeet(op, o, a / 2, b / 2, n - 1);
      LowMeets(op, o, a, b);
    }
  }

  lemma LowMeets(op: SumOp, o: Op, a: int, b: int)
    requires (op == BitAnd && o == And) || (op == BitOr && o == Or) || (op == BitXor && o == Xor)
    ensures Bit(o, a % 2, b % 2) == LowBit(op, a % 2 == 1, b % 2 == 1)
  {
  }

  function Power(n: nat): (p: nat)
    ensures p > 0
  {
    if n == 0 then 1 else 2 * Power(n - 1)
  }

  lemma HalfPower(a: int, n: nat)
    requires n > 0
    ensures a % Power(n) % 2 == a % 2 && a % Power(n) / 2 == a / 2 % Power(n - 1)
  {
    var p := Power(n - 1);
    ModParts(a, p);
  }

  lemma ModParts(a: int, p: nat)
    requires p > 0
    ensures a % (2 * p) == 2 * (a / 2 % p) + a % 2
  {
    var h := a / 2;
    var q, r := h / p, h % p;
    DivMod(h, p);
    assert a == 2 * h + a % 2 && h == q * p + r;
    assert a == q * (2 * p) + (2 * r + a % 2);
    ModUnique(a, 2 * p, q, 2 * r + a % 2);
  }

  lemma DivMod(h: int, p: nat)
    requires p > 0
    ensures h == h / p * p + h % p && 0 <= h % p < p
  {
  }

  lemma ModUnique(a: int, m: nat, q: int, r: nat)
    requires m > 0 && r < m && a == q * m + r
    ensures a % m == r
  {
    DivMod(a, m);
    var d := a / m - q;
    assert a % m - r == -d * m by { assert a / m * m == q * m + d * m; }
    if d > 0 { MulAtLeast(d, m); } else if d < 0 { MulAtLeast(-d, m); }
  }

  lemma MulAtLeast(d: nat, m: nat)
    requires d > 0
    ensures d * m >= m
  {
    assert d * m == m + (d - 1) * m;
  }

  lemma PowerOfWord()
    ensures Power(32) == WORD32
  {
    FourMore(0);
    FourMore(4);
    FourMore(8);
    FourMore(12);
    FourMore(16);
    FourMore(20);
    FourMore(24);
    FourMore(28);
  }

  lemma FourMore(n: nat)
    ensures Power(n + 4) == 16 * Power(n)
  {
    assert Power(n + 1) == 2 * Power(n);
    assert Power(n + 2) == 2 * Power(n + 1);
    assert Power(n + 3) == 2 * Power(n + 2);
  }

  function OpOf(op: SumOp): Op {
    match op case Add => Plus case Subtract => Minus case BitAnd => And case BitOr => Or case BitXor => Xor
  }

  function MulOpOf(op: ProductOp): Op { match op case Multiply => Times case Divide => Over case Remainder => Mod }

  lemma SumsAgree(op: SumOp, a: int, b: int)
    ensures Apply(OpOf(op), a, b) == SumOf(op, a, b)
  {
    match op
    case Add => CutIs(a + b);
    case Subtract => CutIs(a - b);
    case _ =>
      PowerOfWord();
      BitsMeet(op, OpOf(op), a, b, 32);
      CutIs(Bits(op, a, b, 32));
  }

  lemma QuotientIs(a: int, b: int)
    requires b != 0
    ensures Quotient(a, b) == Truncated(a, b)
  {
  }

  lemma ProductsAgree(op: ProductOp, a: int, b: int)
    ensures if Divides(MulOpOf(op)) && b == 0 then ProductOf(op, a, b) == Refused
            else ProductOf(op, a, b) == Is(Apply(MulOpOf(op), a, b))
  {
    match op
    case Multiply => CutIs(a * b);
    case Divide =>
      if b != 0 {
        QuotientIs(a, b);
        CutIs(Truncated(a, b));
      }
    case Remainder =>
      if b != 0 {
        QuotientIs(a, b);
        assert Quotient(a, b) * b == b * Truncated(a, b);
        CutIs(a - b * Truncated(a, b));
      }
  }

  /** RND draws the next number of a linear congruential sequence and gives a number below its argument; for an argument
      that is not positive it gives zero and draws nothing. */
  lemma DrawIs(env: Env, v: int, rand: nat)
    requires v < 0x8000_0000
    ensures var (r, next) := OfNumber(env, Rnd, v, rand);
            if v <= 0 then r == 0 && next == rand
            else next == (1664525 * rand + 1013904223) % 0x1_0000_0000 && r == next % v
  {
    if v > 0 { CutIs(NextRandom(rand) % v); }
  }

  // ---- The functions of strings ----

  predicate Occurs(t: string, needle: string, k: nat) { k + |needle| <= |t| && t[k..k + |needle|] == needle }

  /** INSTR gives the first place, counted from one, at which one string occurs in another, or zero; an empty string
      occurs at the first place. */
  lemma FindIs(t: string, needle: string)
    ensures var r := Find(t, needle, 0);
            && (r == 0 <==> needle != "" && forall k: nat :: !Occurs(t, needle, k))
            && (r > 0 ==> (needle == "" && r == 1) ||
                          (Occurs(t, needle, r - 1) && forall k: nat :: k < r - 1 ==> !Occurs(t, needle, k)))
  {
    if needle != "" { FoundFrom(t, needle, 0); }
  }

  lemma {:induction false} FoundFrom(t: string, needle: string, from: nat)
    requires needle != "" && from <= |t|
    ensures var r := Find(t, needle, from);
            && (r == 0 <==> forall k: nat :: k >= from ==> !Occurs(t, needle, k))
            && (r > 0 ==> r > from && Occurs(t, needle, r - 1) &&
                          forall k: nat :: from <= k < r - 1 ==> !Occurs(t, needle, k))
    decreases |t| - from
  {
    PrefixIs(t, needle, from);
    if from < |t| && !(needle <= t[from..]) { FoundFrom(t, needle, from + 1); }
  }

  lemma PrefixIs(t: string, needle: string, from: nat)
    requires from <= |t|
    ensures needle <= t[from..] <==> Occurs(t, needle, from)
  {
    if from + |needle| <= |t| { assert t[from..][..|needle|] == t[from..from + |needle|]; }
  }

  /** LEFT$ and RIGHT$ give as many characters of either end as asked for and there, MID$ those from a place on; no more
      than 95. */
  lemma PartsAre(t: string, a: int, n: int)
    ensures var k := if a < 0 then 0 else if a > |t| then |t| else a;
            SubText(Left, t, a, n) == Short(t[..k]) && SubText(Right, t, a, n) == Short(t[|t| - k..])
    ensures var rest := if a < 1 then t else if a > |t| then "" else t[a - 1..];
            SubText(Mid, t, a, n) == Short(if n < 0 then "" else if n > |rest| then rest else rest[..n])
  {
    var rest := if a < 1 then t else if a > |t| then "" else t[a - 1..];
    var from := if a < 1 then 0 else Clamp(a - 1, |t|);
    assert t[from..] == rest;
    var m := Clamp(n, |t| - from);
    assert t[from..from + m] == rest[..m];
    assert m == |rest| ==> rest[..m] == rest;
  }

  /** LEN and ASC, CHR$ and STR$. */
  lemma LengthsAndCodes(t: string, v: int)
    ensures OfText(Len, t) == |t| && OfText(Asc, t) == (if t == "" then 0 else t[0] as int)
    ensures OfNumberText(Chr, v) == (if v % 256 == 0 then "" else [(v % 256) as char])
    ensures -0x8000_0000 <= v < 0x8000_0000 ==> OfNumberText(Str, v) == Text(v) && OfText(Val, Text(v)) == v
  {
    if -0x8000_0000 <= v < 0x8000_0000 {
      TextReadsBack(v);
      TextShort(v);
    }
  }

  function Ten(k: nat): nat { if k == 0 then 1 else 10 * Ten(k - 1) }

  lemma {:induction false} DecimalShort(n: nat, k: nat)
    requires k > 0 && n < Ten(k)
    ensures |Decimal(n)| <= k
    decreases k
  {
    if n >= 10 { DecimalShort(n / 10, k - 1); }
  }

  lemma TextShort(v: int)
    requires -0x8000_0000 <= v < 0x8000_0000
    ensures |Text(v)| <= 11
  {
    assert Ten(5) == 100000;
    assert Ten(7) == 100 * Ten(5);
    assert Ten(9) == 100 * Ten(7);
    assert Ten(10) == 10 * Ten(9);
    DecimalShort(if v < 0 then -v else v, 10);
  }

  // ---- Where a text is read ----

  ghost predicate Opened(x: bool) { true }

  /** A text stands between two positions of another. Stated behind a quantifier, so that only proofs that mention
      `Opened` see the characters. */
  ghost predicate Stands(text: string, pos: nat, end: nat, part: string) {
    forall x {:trigger Opened(x)} :: Opened(x) ==> end == pos + |part| && end <= |text| && text[pos..end] == part
  }

  lemma StandsBoth(text: string, pos: nat, end: nat, a: string, b: string) returns (mid: nat)
    requires Stands(text, pos, end, a + b)
    ensures Stands(text, pos, mid, a) && Stands(text, mid, end, b)
  {
    assert Opened(true);
    mid := pos + |a|;
    assert text[pos..mid] == text[pos..end][..|a|] == a;
    assert text[mid..end] == text[pos..end][|a|..] == b;
  }

  lemma StandsFirst(text: string, pos: nat, end: nat, part: string, c: char)
    requires Stands(text, pos, end, part) && |part| > 0 && part[0] == c
    ensures At(text, pos) == c && pos < end
  {
    assert Opened(true);
    assert text[pos..end][0] == text[pos];
  }

  lemma StandsNothing(text: string, pos: nat, end: nat)
    requires Stands(text, pos, end, "")
    ensures end == pos
  {
    assert Opened(true);
  }

  lemma PartRead(text: string, pos: nat, end: nat, ds: string)
    requires Stands(text, pos, end, ds) && |ds| > 0 && !IsDigit(At(text, end))
    requires forall i {:trigger ds[i]} :: 0 <= i < |ds| ==> IsDigit(ds[i])
    ensures Digits(text, pos, 0) == (I32(ValueOf(ds)), end)
  {
    assert Opened(true);
    var cut := text[..end];
    forall i {:trigger cut[i]} | pos <= i < end ensures IsDigit(cut[i]) {
      assert text[i] == text[pos..end][i - pos] == ds[i - pos];
    }
    DigitsRead(cut, pos, end);
    assert cut[pos..end] == ds;
    SamePrefix(text, cut, pos, 0);
  }

  lemma {:induction false} SamePrefix(text: string, cut: string, pos: nat, v: int)
    requires |cut| <= |text| && cut == text[..|cut|] && pos <= |cut| && !IsDigit(At(text, |cut|))
    ensures Digits(text, pos, v) == Digits(cut, pos, v)
    decreases |cut| - pos
  {
    if pos < |cut| {
      assert text[pos] == cut[pos];
      if IsDigit(cut[pos]) { SamePrefix(text, cut, pos + 1, I32(v * 10 + Digit(cut[pos]))); }
    }
  }

  lemma CutTwice(n: nat, sign: int)
    requires sign == 1 || sign == -1
    ensures I32(I32(n) * sign) == Cut32(n * sign)
  {
    CutIs(n);
  }

  lemma {:induction false} Blanks(text: string, pos: nat, end: nat)
    requires pos <= end <= |text| && (forall i :: pos <= i < end ==> IsSpace(text[i])) && !IsSpace(At(text, end))
    ensures Skip(text, pos) == end
    decreases end - pos
  {
    if pos < end { Blanks(text, pos + 1, end); }
  }

  /** VAL reads the digits that a string begins with, behind blanks and a minus sign, as a number; it gives zero if
      there are none. */
  lemma ValueIs(blanks: string, minus: bool, n: nat, rest: string)
    requires (forall i :: 0 <= i < |blanks| ==> IsSpace(blanks[i])) && !IsDigit(At(rest, 0))
    ensures OfText(Val, blanks + ((if minus then "-" else "") + (Decimal(n) + rest))) ==
            Cut32(n * if minus then -1 else 1)
    ensures At(rest, 0) != '-' && !IsSpace(At(rest, 0)) ==>
              OfText(Val, blanks + ((if minus then "-" else "") + rest)) == 0
  {
    var sign := if minus then "-" else "";
    var text := blanks + (sign + (Decimal(n) + rest));
    var d, e := ValueStands(text, blanks, sign, Decimal(n), rest);
    Blanks(text, 0, |blanks|);
    ValueGiven(text, |blanks|, d, e, n);
    if At(rest, 0) != '-' && !IsSpace(At(rest, 0)) { NoValue(blanks, sign, rest); }
  }

  lemma ValueGiven(text: string, s: nat, d: nat, e: nat, n: nat)
    requires Skip(text, 0) == s && d == s + (if At(text, s) == '-' then 1 else 0)
    requires Stands(text, d, e, Decimal(n)) && !IsDigit(At(text, e)) && IsDigit(At(text, d))
    ensures OfText(Val, text) == Cut32(n * if At(text, s) == '-' then -1 else 1)
  {
    PartRead(text, d, e, Decimal(n));
    DecimalValue(n);
    CutTwice(n, if At(text, s) == '-' then -1 else 1);
  }

  lemma ValueStands(text: string, blanks: string, sign: string, ds: string, rest: string) returns (d: nat, e: nat)
    requires text == blanks + (sign + (ds + rest)) && (sign == "" || sign == "-") && |ds| > 0
    ensures d == |blanks| + |sign| && Stands(text, d, e, ds) && At(text, e) == At(rest, 0)
    ensures |blanks| <= |text| && text[..|blanks|] == blanks
    ensures At(text, d) == ds[0] && At(text, |blanks|) == if sign == "" then ds[0] else '-'
  {
    d, e := |blanks| + |sign|, |blanks| + |sign| + |ds|;
    assert text[d..e] == ds;
    if |rest| > 0 { assert text[e] == rest[0]; }
  }

  lemma NoValue(blanks: string, sign: string, rest: string)
    requires (forall i :: 0 <= i < |blanks| ==> IsSpace(blanks[i])) && !IsDigit(At(rest, 0)) && At(rest, 0) != '-'
    requires (sign == "" || sign == "-") && !IsSpace(At(rest, 0))
    ensures OfText(Val, blanks + (sign + rest)) == 0
  {
    var text := blanks + (sign + rest);
    assert At(text, |blanks|) == if sign == "" then At(rest, 0) else '-';
    assert At(text, |blanks| + |sign|) == At(rest, 0);
    Blanks(text, 0, |blanks|);
  }
}
