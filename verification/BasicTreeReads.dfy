/** Writing an expression tree as text and evaluating the text gives the value of the tree. */
module BasicTreeReads {
  import opened Options
  import opened BasicText
  import opened BasicMeaning
  import opened BasicEnds
  import opened BasicTrees

  /** What may stand behind an operand. */
  predicate Follows(text: string, q: nat) {
    !IsTail(At(text, q)) && At(text, q) != '$' && At(text, Skip(text, q)) != '('
  }

  predicate EndsProduct(text: string, q: nat) { Follows(text, q) && MulOp(text, Skip(text, q)) == NoOp }

  ghost predicate EndsSum(text: string, q: nat) {
    forall x {:trigger OfEnd(x)} :: OfEnd(x) ==> EndsProduct(text, q) && AddOp(text, Skip(text, q)) == NoOp
  }

  /** What may stand behind a string expression. */
  ghost predicate EndsPhrase(text: string, q: nat) {
    forall x {:trigger OfEnd(x)} :: OfEnd(x) ==> At(text, Skip(text, q)) != '+'
  }

  /** Evaluation gives a value and stops at a place, as far as blanks matter; or is refused. */
  predicate Gives<T(==)>(o: Out<T>, w: Worth<T>, text: string, end: nat, rand: nat) {
    match w
    case Is(v) => o.Done? && o.value == v && o.rand == rand && Skip(text, o.pos) == Skip(text, end)
    case Refused => o.Failed?
    case Unfit => true
  }

  function Largest(a: nat, b: nat): nat { if a < b then b else a }

  /** What the predicates below are about. They are stated behind a quantifier, and a proof sees through those about
      something by naming it: evaluation, text, fuel, or what a tree is worth. */
  ghost predicate OfSum(x: bool) { true }

  ghost predicate OfSums(x: bool) { true }

  ghost predicate OfProducts(x: bool) { true }

  ghost predicate OfAtom(x: bool) { true }

  ghost predicate OfPhrase(x: bool) { true }

  ghost predicate OfPieces(x: bool) { true }

  ghost predicate OfPiece(x: bool) { true }

  ghost predicate OfCall(x: bool) { true }

  ghost predicate OfPart(x: bool) { true }

  ghost predicate OfEnd(x: bool) { true }

  ghost predicate OfText(x: bool) { true }

  ghost predicate OfFuel(x: bool) { true }

  ghost predicate OfWorth(x: bool) { true }

  /** The evaluation of an expression, an operand or a piece of a string expression gives a value. */
  ghost predicate SumGiven(env: Env, text: string, pos: nat, end: nat, w: Worth<int>, rand: nat, f: nat) {
    forall x {:trigger OfSum(x)} :: OfSum(x) ==> Gives(Expr(env, text, pos, rand, f), w, text, end, rand)
  }

  ghost predicate AtomGiven(env: Env, text: string, pos: nat, end: nat, w: Worth<int>, rand: nat, f: nat) {
    forall x {:trigger OfAtom(x)} :: OfAtom(x) ==> Gives(Atom(env, text, pos, rand, f), w, text, end, rand)
  }

  ghost predicate PieceGiven(env: Env, text: string, pos: nat, end: nat, w: Worth<string>, rand: nat, f: nat) {
    forall x {:trigger OfPiece(x)} :: OfPiece(x) ==> Gives(Part(env, text, pos, rand, f), w, text, end, rand)
  }

  /** What is written for a tree stands between two positions. */
  ghost predicate SumAt(text: string, pos: nat, end: nat, e: Sum) {
    forall x {:trigger OfText(x)} :: OfText(x) ==> Stands(text, pos, end, WriteSum(e))
  }

  ghost predicate PrimaryAt(text: string, pos: nat, end: nat, a: Primary) {
    forall x {:trigger OfText(x)} :: OfText(x) ==> Stands(text, pos, end, WritePrimary(a))
  }

  ghost predicate PhraseAt(text: string, pos: nat, end: nat, t: Phrase) {
    forall x {:trigger OfText(x)} :: OfText(x) ==> Stands(text, pos, end, WritePhrase(t))
  }

  ghost predicate PiecesAt(text: string, pos: nat, end: nat, rest: Pieces) {
    forall x {:trigger OfText(x)} :: OfText(x) ==> Stands(text, pos, end, WritePieces(rest))
  }

  ghost predicate PieceAt(text: string, pos: nat, end: nat, a: Piece) {
    forall x {:trigger OfText(x)} :: OfText(x) ==> Stands(text, pos, end, WritePiece(a))
  }

  /** Fuel that is enough. */
  function SumFuel(e: Sum): (f: nat)
    ensures f > 0
    decreases e
  {
    Largest(ProductFuel(e.first), SumsFuel(e.rest)) + 1
  }

  function SumsFuel(rest: Sums): (f: nat)
    ensures f > 0
    decreases rest
  {
    match rest case NoMore => 1 case More(_, t, more) => Largest(ProductFuel(t), SumsFuel(more)) + 1
  }

  function ProductFuel(t: Product): (f: nat)
    ensures f > 0
    decreases t
  {
    Largest(OperandFuel(t.first), ProductsFuel(t.rest)) + 1
  }

  function ProductsFuel(rest: Products): (f: nat)
    ensures f > 0
    decreases rest
  {
    match rest case NoFactor => 1 case Factor(_, g, more) => Largest(OperandFuel(g), ProductsFuel(more)) + 1
  }

  function OperandFuel(f: Operand): (n: nat)
    ensures n > 0
    decreases f
  {
    match f case NotOf(g) => OperandFuel(g) + 1 case Signed(_, atom) => PrimaryFuel(atom) + 1
  }

  function PrimaryFuel(a: Primary): (n: nat)
    ensures n > 0
    decreases a
  {
    match a
    case Number(_) => 3
    case Variable(_) => 3
    case Element(_, e) => SumFuel(e) + 3
    case Brackets(e) => SumFuel(e) + 3
    case AbsOf(e) => SumFuel(e) + 4
    case EofOf(e) => SumFuel(e) + 4
    case LenOf(t) => PhraseFuel(t) + 3
    case ValOf(t) => PhraseFuel(t) + 3
    case AscOf(t) => PhraseFuel(t) + 3
    case InstrOf(t, needle) => Largest(PhraseFuel(t), PhraseFuel(needle)) + 3
    case CallOf(_, arg, _, body) => Largest(SumFuel(arg), SumFuel(body)) + 4
  }

  function PhraseFuel(t: Phrase): (f: nat)
    ensures f > 1
    decreases t
  {
    Largest(PieceFuel(t.first), PiecesFuel(t.rest)) + 2
  }

  function PiecesFuel(rest: Pieces): (f: nat)
    ensures f > 0
    decreases rest
  {
    match rest case NoPiece => 1 case Joined(a, more) => Largest(PieceFuel(a), PiecesFuel(more)) + 1
  }

  function PieceFuel(a: Piece): (f: nat)
    ensures f > 0
    decreases a
  {
    match a
    case Quoted(_) => 1
    case StringVar(_) => 1
    case ChrOf(e) => SumFuel(e) + 3
    case StrOf(e) => SumFuel(e) + 3
    case LeftOf(t, n) => Largest(PhraseFuel(t), SumFuel(n)) + 3
    case RightOf(t, n) => Largest(PhraseFuel(t), SumFuel(n)) + 3
    case MidOf(t, from, n) => Largest(PhraseFuel(t), Largest(SumFuel(from), SumFuel(n))) + 3
    case TailOf(t, from) => Largest(PhraseFuel(t), SumFuel(from)) + 3
  }

  // ---- Fuel and worth ----

  ghost predicate EnoughSum(f: nat, e: Sum) {
    forall x {:trigger OfFuel(x)} :: OfFuel(x) ==> f >= SumFuel(e)
  }

  ghost predicate EnoughPrimary(f: nat, a: Primary) {
    forall x {:trigger OfFuel(x)} :: OfFuel(x) ==> f >= PrimaryFuel(a)
  }

  ghost predicate EnoughPhrase(f: nat, t: Phrase) {
    forall x {:trigger OfFuel(x)} :: OfFuel(x) ==> f >= PhraseFuel(t)
  }

  ghost predicate EnoughPieces(f: nat, rest: Pieces) {
    forall x {:trigger OfFuel(x)} :: OfFuel(x) ==> f >= PiecesFuel(rest)
  }

  ghost predicate EnoughPiece(f: nat, a: Piece) {
    forall x {:trigger OfFuel(x)} :: OfFuel(x) ==> f >= PieceFuel(a)
  }

  ghost predicate SumWorth(env: Env, e: Sum, w: Worth<int>) {
    forall x {:trigger OfWorth(x)} :: OfWorth(x) ==> w == SumValue(env, e)
  }

  ghost predicate PrimaryWorth(env: Env, a: Primary, w: Worth<int>) {
    forall x {:trigger OfWorth(x)} :: OfWorth(x) ==> w == PrimaryValue(env, a)
  }

  ghost predicate PhraseWorth(env: Env, t: Phrase, w: Worth<string>) {
    forall x {:trigger OfWorth(x)} :: OfWorth(x) ==> w == PhraseValue(env, t)
  }

  ghost predicate PieceWorth(env: Env, a: Piece, w: Worth<string>) {
    forall x {:trigger OfWorth(x)} :: OfWorth(x) ==> w == PieceValue(env, a)
  }

  lemma ArgumentFuel(f: nat, a: Primary)
    requires EnoughPrimary(f, a)
    ensures f >= 3
    ensures match a
            case Number(_) => true
            case Variable(_) => true
            case Element(_, e) => f >= 4 && EnoughSum(f - 3, e)
            case Brackets(e) => f >= 4 && EnoughSum(f - 3, e)
            case AbsOf(e) => f >= 5 && EnoughSum(f - 4, e)
            case EofOf(e) => f >= 5 && EnoughSum(f - 4, e)
            case LenOf(t) => f >= 5 && EnoughPhrase(f - 3, t)
            case ValOf(t) => f >= 5 && EnoughPhrase(f - 3, t)
            case AscOf(t) => f >= 5 && EnoughPhrase(f - 3, t)
            case InstrOf(t, needle) => f >= 5 && EnoughPhrase(f - 3, t) && EnoughPhrase(f - 3, needle)
            case CallOf(_, arg, _, body) => f >= 5 && EnoughSum(f - 4, arg) && EnoughSum(f - 3, body)
  {
    assert OfFuel(true);
  }

  lemma PartFuel(f: nat, a: Piece)
    requires EnoughPiece(f, a)
    ensures f >= 1
    ensures match a
            case Quoted(_) => true
            case StringVar(_) => true
            case ChrOf(e) => f >= 4 && EnoughSum(f - 3, e)
            case StrOf(e) => f >= 4 && EnoughSum(f - 3, e)
            case LeftOf(t, n) => f >= 4 && EnoughPhrase(f - 2, t) && EnoughSum(f - 3, n)
            case RightOf(t, n) => f >= 4 && EnoughPhrase(f - 2, t) && EnoughSum(f - 3, n)
            case MidOf(t, from, n) => f >= 4 && EnoughPhrase(f - 2, t) && EnoughSum(f - 3, from) && EnoughSum(f - 3, n)
            case TailOf(t, from) => f >= 4 && EnoughPhrase(f - 2, t) && EnoughSum(f - 3, from)
  {
    assert OfFuel(true);
  }

  lemma PhraseFuels(f: nat, t: Phrase)
    requires EnoughPhrase(f, t)
    ensures f >= 2 && EnoughPiece(f - 2, t.first) && EnoughPieces(f - 2, t.rest)
  {
    assert OfFuel(true);
  }

  lemma PiecesFuels(f: nat, j: Pieces)
    requires EnoughPieces(f, j) && j.Joined?
    ensures f >= 1 && EnoughPiece(f - 1, j.piece) && EnoughPieces(f - 1, j.rest)
  {
    assert OfFuel(true);
  }

  // ---- Single characters ----

  predicate Solid(c: char) { !IsSpace(c) && c != NUL && c != '*' && c != '/' && c != '%' }

  lemma SkipAtSolid(text: string, pos: nat)
    requires !IsSpace(At(text, pos))
    ensures Skip(text, pos) == pos
  {
  }

  /** What is written for an operand begins with a solid character. */
  lemma {:induction false} OperandBegins(f: Operand)
    ensures |WriteOperand(f)| > 0 && Solid(WriteOperand(f)[0])
  {
    match f
    case NotOf(_) =>
    case Signed(minus, atom) =>
      PrimaryBegins(atom);
      if |minus| == 0 { assert WriteSigns(minus) + WritePrimary(atom) == WritePrimary(atom); }
  }

  lemma PrimaryBegins(a: Primary)
    ensures |WritePrimary(a)| > 0 && Solid(WritePrimary(a)[0]) && WritePrimary(a)[0] != '+' && WritePrimary(a)[0] != '-'
  {
    match a
    case Number(n) => assert IsDigit(Decimal(n)[0]);
    case _ =>
  }

  lemma PieceBegins(a: Piece)
    ensures |WritePiece(a)| > 0 && Solid(WritePiece(a)[0])
  {
  }

  lemma ProductBegins(t: Product)
    ensures |WriteProduct(t)| > 0 && Solid(WriteProduct(t)[0])
  {
    OperandBegins(t.first);
  }

  lemma SumBegins(e: Sum)
    ensures |WriteSum(e)| > 0 && Solid(WriteSum(e)[0])
  {
    ProductBegins(e.first);
  }

  lemma OneMark(text: string, q: nat, q1: nat, c: char)
    requires Stands(text, q, q1, [c])
    ensures q1 == q + 1
  {
    assert Opened(true);
  }

  lemma {:induction false} SkipTwice(text: string, q: nat)
    ensures Skip(text, Skip(text, q)) == Skip(text, q)
    decreases |text| - q
  {
    if q < |text| && IsSpace(text[q]) { SkipTwice(text, q + 1); }
  }

  /** What stands before a comma or a closing bracket, and what behind. */
  lemma MarkStands(text: string, q: nat, end: nat, inner: string, c: char, tail: string) returns (m: nat)
    requires Stands(text, q, end, inner + ([c] + tail)) && (c == ',' || c == ')')
    ensures Stands(text, q, m, inner) && At(text, m) == c && Stands(text, m + 1, end, tail)
    ensures EndsSum(text, m) && EndsPhrase(text, m)
  {
    m := StandsBoth(text, q, end, inner, [c] + tail);
    var n := StandsBoth(text, m, end, [c], tail);
    StandsFirst(text, m, n, [c], c);
    OneMark(text, m, n, c);
    SkipAtSolid(text, m);
    NoWord(text, m);
  }

  lemma EndStands(text: string, q: nat, end: nat, inner: string) returns (m: nat)
    requires Stands(text, q, end, inner + ")")
    ensures Stands(text, q, m, inner) && At(text, m) == ')' && end == m + 1
    ensures EndsSum(text, m) && EndsPhrase(text, m)
  {
    assert ")" == [')'] + "";
    m := MarkStands(text, q, end, inner, ')', "");
    StandsNothing(text, m + 1, end);
  }

  /** The parts of what is written for an operand or a piece of a string expression with arguments in brackets. */
  lemma ArgumentAt(text: string, pos: nat, end: nat, a: Primary, open: string, e: Sum) returns (q: nat, m: nat)
    requires PrimaryAt(text, pos, end, a)
    requires match a
             case Brackets(e') => e == e' && open == "("
             case AbsOf(e') => e == e' && open == "ABS("
             case EofOf(e') => e == e' && open == "EOF("
             case Element(i, e') => e == e' && open == [LetterOf(i), '(']
             case CallOf(letter, e', _, _) => e == e' && open == ['F', 'N', LetterOf(letter), '(']
             case _ => false
    ensures Stands(text, pos, q, open) && SumAt(text, q, m, e) && EndsSum(text, m) && At(text, m) == ')' && end == m + 1
  {
    assert OfText(true);
    q := StandsBoth(text, pos, end, open, WriteSum(e) + ")");
    m := EndStands(text, q, end, WriteSum(e));
  }

  lemma StringAt(text: string, pos: nat, end: nat, a: Primary, open: string, t: Phrase) returns (q: nat, m: nat)
    requires PrimaryAt(text, pos, end, a)
    requires (a == LenOf(t) && open == "LEN(") || (a == ValOf(t) && open == "VAL(") || (a == AscOf(t) && open == "ASC(")
    ensures Stands(text, pos, q, open) && PhraseAt(text, q, m, t) && EndsPhrase(text, m) && At(text, m) == ')'
    ensures end == m + 1
  {
    assert OfText(true);
    q := StandsBoth(text, pos, end, open, WritePhrase(t) + ")");
    m := EndStands(text, q, end, WritePhrase(t));
  }

  lemma StringsAt(text: string, pos: nat, end: nat, t: Phrase, needle: Phrase) returns (q: nat, m: nat, m': nat)
    requires PrimaryAt(text, pos, end, InstrOf(t, needle))
    ensures Stands(text, pos, q, "INSTR(") && PhraseAt(text, q, m, t) && EndsPhrase(text, m) && At(text, m) == ','
    ensures PhraseAt(text, m + 1, m', needle) && EndsPhrase(text, m') && At(text, m') == ')' && end == m' + 1
  {
    assert OfText(true);
    q := StandsBoth(text, pos, end, "INSTR(", WritePhrase(t) + ("," + (WritePhrase(needle) + ")")));
    m := MarkStands(text, q, end, WritePhrase(t), ',', WritePhrase(needle) + ")");
    m' := EndStands(text, m + 1, end, WritePhrase(needle));
  }

  lemma NumberAt(text: string, pos: nat, end: nat, a: Piece, open: string, e: Sum) returns (q: nat, m: nat)
    requires PieceAt(text, pos, end, a) && ((a == ChrOf(e) && open == "CHR$(") || (a == StrOf(e) && open == "STR$("))
    ensures Stands(text, pos, q, open) && SumAt(text, q, m, e) && EndsSum(text, m) && At(text, m) == ')' && end == m + 1
  {
    assert OfText(true);
    q := StandsBoth(text, pos, end, open, WriteSum(e) + ")");
    m := EndStands(text, q, end, WriteSum(e));
  }

  lemma PartAt(text: string, pos: nat, end: nat, a: Piece, open: string, t: Phrase, n: Sum)
    returns (q: nat, m: nat, m': nat)
    requires PieceAt(text, pos, end, a)
    requires (a == LeftOf(t, n) && open == "LEFT$(") || (a == RightOf(t, n) && open == "RIGHT$(") ||
             (a == TailOf(t, n) && open == "MID$(")
    ensures Stands(text, pos, q, open) && PhraseAt(text, q, m, t) && EndsPhrase(text, m) && At(text, m) == ','
    ensures SumAt(text, m + 1, m', n) && EndsSum(text, m') && At(text, m') == ')' && end == m' + 1
  {
    assert OfText(true);
    q := StandsBoth(text, pos, end, open, WritePhrase(t) + ("," + (WriteSum(n) + ")")));
    m := MarkStands(text, q, end, WritePhrase(t), ',', WriteSum(n) + ")");
    m' := EndStands(text, m + 1, end, WriteSum(n));
  }

  lemma MidAt(text: string, pos: nat, end: nat, t: Phrase, from: Sum, n: Sum) returns (q: nat, m: nat, m1: nat, m2: nat)
    requires PieceAt(text, pos, end, MidOf(t, from, n))
    ensures Stands(text, pos, q, "MID$(") && PhraseAt(text, q, m, t) && EndsPhrase(text, m) && At(text, m) == ','
    ensures SumAt(text, m + 1, m1, from) && EndsSum(text, m1) && At(text, m1) == ','
    ensures SumAt(text, m1 + 1, m2, n) && EndsSum(text, m2) && At(text, m2) == ')' && end == m2 + 1
  {
    assert OfText(true);
    q := StandsBoth(text, pos, end, "MID$(", WritePhrase(t) + ("," + (WriteSum(from) + ("," + (WriteSum(n) + ")")))));
    m := MarkStands(text, q, end, WritePhrase(t), ',', WriteSum(from) + ("," + (WriteSum(n) + ")")));
    m1 := MarkStands(text, m + 1, end, WriteSum(from), ',', WriteSum(n) + ")");
    m2 := EndStands(text, m1 + 1, end, WriteSum(n));
  }

  /** No operator begins with a comma or a closing bracket. */
  lemma NoWord(text: string, m: nat)
    requires At(text, m) == ')' || At(text, m) == ','
    ensures AddOp(text, m) == NoOp && MulOp(text, m) == NoOp
  {
    OtherLetter(text, m, "AND");
    OtherLetter(text, m, "OR");
    OtherLetter(text, m, "XOR");
  }

  // ---- Names of functions ----

  /** Some character of one name is not that of the other. */
  ghost predicate Differ(a: string, b: string) {
    exists d :: 0 <= d < |a| && d < |b| && Up(a[d]) != Up(b[d])
  }

  lemma {:induction false} SpellsOut(text: string, pos: nat, q: nat, name: string, i: nat)
    requires Stands(text, pos, q, name + "(") && i <= |name|
    ensures Spells(text, pos, name, i)
    decreases |name| - i
  {
    if i < |name| {
      assert Opened(true);
      assert At(text, pos + i) == text[pos..q][i] == name[i];
      SpellsOut(text, pos, q, name, i + 1);
    }
  }

  lemma {:induction false} NotSpelled(text: string, pos: nat, name: string, d: nat, i: nat)
    requires i <= d < |name| && Up(At(text, pos + d)) != Up(name[d])
    ensures !Spells(text, pos, name, i)
    decreases d - i
  {
    if i < d { NotSpelled(text, pos, name, d, i + 1); }
  }

  /** The call of the i-th of some functions is found to be that. */
  lemma {:induction false} CalledIs(text: string, pos: nat, q: nat, names: seq<string>, i: nat, j: nat)
    requires j <= i < |names| && Stands(text, pos, q, names[i] + "(")
    requires forall k :: j <= k < i ==> Differ(names[i], names[k])
    ensures CalledAt(text, pos, names, j) == i
    ensures q == pos + |names[i]| + 1 && At(text, pos + |names[i]|) == '(' && Skip(text, pos + |names[i]|) == q - 1
    decreases i - j
  {
    assert Opened(true);
    var name := names[i];
    assert At(text, pos + |name|) == text[pos..q][|name|] == '(';
    SkipAtSolid(text, pos + |name|);
    if j < i {
      assert Differ(name, names[j]);
      var d :| 0 <= d < |name| && d < |names[j]| && Up(name[d]) != Up(names[j][d]);
      assert At(text, pos + d) == text[pos..q][d] == name[d];
      NotSpelled(text, pos, names[j], d, 0);
      CalledIs(text, pos, q, names, i, j + 1);
    } else {
      SpellsOut(text, pos, q, name, 0);
    }
  }

  lemma NamesDiffer()
    ensures forall i, k {:trigger NumNames()[i], NumNames()[k]} :: 0 <= k < i < 7 ==>
              Differ(NumNames()[i], NumNames()[k])
    ensures forall i, k {:trigger StrNames()[i], StrNames()[k]} :: 0 <= k < i < 5 ==>
              Differ(StrNames()[i], StrNames()[k])
  {
    forall i, k | 0 <= k < i < 7 ensures Differ(NumNames()[i], NumNames()[k]) {
      var a, b := NumNames()[i], NumNames()[k];
      assert (Up(a[0]) != Up(b[0])) || Up(a[1]) != Up(b[1]);
    }
    forall i, k | 0 <= k < i < 5 ensures Differ(StrNames()[i], StrNames()[k]) {
      var a, b := StrNames()[i], StrNames()[k];
      assert Up(a[0]) != Up(b[0]);
    }
  }

  /** How the calls of functions begin. */
  ghost predicate Opens(open: string, names: seq<string>, i: nat) { i < |names| && open == names[i] + "(" }

  lemma NumbersOpen()
    ensures Opens("ABS(", NumNames(), 0) && Opens("LEN(", NumNames(), 2) && Opens("VAL(", NumNames(), 3)
    ensures Opens("ASC(", NumNames(), 4) && Opens("EOF(", NumNames(), 5) && Opens("INSTR(", NumNames(), 6)
  {
  }

  lemma StringsOpen()
    ensures Opens("CHR$(", StrNames(), 0) && Opens("STR$(", StrNames(), 1) && Opens("MID$(", StrNames(), 2)
    ensures Opens("LEFT$(", StrNames(), 3) && Opens("RIGHT$(", StrNames(), 4)
  {
  }

  /** The call of a function at a position, with its argument at q. */
  ghost predicate NumCallAt(text: string, pos: nat, q: nat, fn: NumFn) {
    forall x {:trigger OfCall(x)} :: OfCall(x) ==>
        var len := if fn == Instr then 5 else 3;
        KindAt(text, pos) == BuiltIn(fn, len) && q == pos + len + 1 && At(text, pos + len) == '(' &&
        Skip(text, pos + len) == pos + len
  }

  ghost predicate StrCallAt(text: string, pos: nat, q: nat, fn: StrFn) {
    forall x {:trigger OfCall(x)} :: OfCall(x) ==>
        StrFnOf(CalledAt(text, pos, StrNames(), 0)) == Some(fn) && At(text, pos) != '"' && q == pos + StrLen(fn) + 1 &&
        At(text, pos + StrLen(fn)) == '(' && Skip(text, pos + StrLen(fn)) == pos + StrLen(fn)
  }

  lemma NumCallStands(text: string, pos: nat, q: nat, open: string, i: nat)
    requires i < 7 && Opens(open, NumNames(), i) && Stands(text, pos, q, open)
    ensures NumFnOf(i).Some? && NumCallAt(text, pos, q, NumFnOf(i).value)
  {
    NamesDiffer();
    var name := NumNames()[i];
    forall k | 0 <= k < i ensures Differ(NumNames()[i], NumNames()[k]) {}
    CalledIs(text, pos, q, NumNames(), i, 0);
    assert Opened(true);
    assert At(text, pos) == text[pos..q][0] == name[0];
  }

  lemma StrCallStands(text: string, pos: nat, q: nat, open: string, i: nat)
    requires i < 5 && Opens(open, StrNames(), i) && Stands(text, pos, q, open)
    ensures StrFnOf(i).Some? && StrCallAt(text, pos, q, StrFnOf(i).value)
  {
    NamesDiffer();
    var name := StrNames()[i];
    forall k | 0 <= k < i ensures Differ(StrNames()[i], StrNames()[k]) {}
    CalledIs(text, pos, q, StrNames(), i, 0);
    assert Opened(true);
    assert At(text, pos) == text[pos..q][0] == name[0];
  }

  // ---- Products ----

  /** Behind an operand of a product comes the end of the product or a mark. */
  lemma ProductsFollow(text: string, q: nat, end: nat, rest: Products)
    requires Stands(text, q, end, WriteProducts(rest)) && EndsProduct(text, end)
    ensures Follows(text, q)
    ensures rest.NoFactor? ==> q == end
    ensures rest.Factor? ==> Skip(text, q) == q && MulOp(text, q) == MulOpOf(rest.op)
  {
    match rest
    case NoFactor => StandsNothing(text, q, end);
    case Factor(op, _, _) => StandsFirst(text, q, end, WriteProducts(rest), Mark(op));
  }

  lemma {:induction false} ProductReads(env: Env, text: string, pos: nat, end: nat, t: Product, rand: nat, f: nat)
    requires Stands(text, pos, end, WriteProduct(t)) && EndsProduct(text, end) && f >= ProductFuel(t)
    ensures Gives(Term(env, text, pos, rand, f), ProductValue(env, t), text, end, rand)
    decreases t, 2
  {
    var q := StandsBoth(text, pos, end, WriteOperand(t.first), WriteProducts(t.rest));
    ProductsFollow(text, q, end, t.rest);
    OperandReads(env, text, pos, q, t.first, rand, f - 1);
    if OperandValue(env, t.first).Is? {
      var o := BasicMeaning.Factor(env, text, pos, rand, f - 1);
      ProductsRead(env, text, o.pos, q, end, t.rest, o.value, rand, f - 1);
      assert OfProducts(true);
    }
  }

  /** The evaluation of the rest of a product gives its value. */
  ghost predicate ProductsGiven(env: Env, text: string, p: nat, end: nat, rest: Products, left: int, rand: nat, f: nat)
  {
    forall x {:trigger OfProducts(x)} ::
      OfProducts(x) ==> Gives(TermRest(env, text, p, left, rand, f), ProductsValue(env, left, rest), text, end, rand)
  }

  lemma {:induction false} ProductsRead(env: Env, text: string, p: nat, q: nat, end: nat, rest: Products, left: int,
                                        rand: nat, f: nat)
    requires Stands(text, q, end, WriteProducts(rest)) && EndsProduct(text, end)
    requires Skip(text, p) == Skip(text, q) && f >= ProductsFuel(rest)
    ensures ProductsGiven(env, text, p, end, rest, left, rand, f)
    decreases rest, 2
  {
    match rest
    case NoFactor =>
      StandsNothing(text, q, end);
      ProductEnds(env, text, p, end, left, rand, f);
    case Factor(_, _, more) =>
      var ok, p', q', w := FactorRead(env, text, p, q, end, rest, left, rand, f);
      if ok { ProductsRead(env, text, p', q', end, more, w, rand, f - 1); }
  }

  lemma ProductEnds(env: Env, text: string, p: nat, end: nat, left: int, rand: nat, f: nat)
    requires EndsProduct(text, end) && Skip(text, p) == Skip(text, end) && f > 0
    ensures ProductsGiven(env, text, p, end, NoFactor, left, rand, f)
  {
    SkipTwice(text, end);
  }

  /** One operand of a product more, in the evaluation and in the tree. */
  lemma {:induction false} FactorRead(env: Env, text: string, p: nat, q: nat, end: nat, rest: Products, left: int,
                                      rand: nat, f: nat) returns (ok: bool, p': nat, q': nat, w: int)
    requires rest.Factor? && Stands(text, q, end, WriteProducts(rest)) && EndsProduct(text, end)
    requires Skip(text, p) == Skip(text, q) && f >= ProductsFuel(rest)
    ensures Stands(text, q', end, WriteProducts(rest.rest)) && (ok ==> Skip(text, p') == Skip(text, q'))
    ensures (ok ==> ProductsGiven(env, text, p', end, rest.rest, w, rand, f - 1)) ==>
              ProductsGiven(env, text, p, end, rest, left, rand, f)
    decreases rest, 1
  {
    ProductsFollow(text, q, end, rest);
    var q1 := StandsBoth(text, q, end, [Mark(rest.op)], WriteOperand(rest.factor) + WriteProducts(rest.rest));
    q' := StandsBoth(text, q1, end, WriteOperand(rest.factor), WriteProducts(rest.rest));
    OneMark(text, q, q1, Mark(rest.op));
    ProductsFollow(text, q', end, rest.rest);
    OperandReads(env, text, q1, q', rest.factor, rand, f - 1);
    var o := BasicMeaning.Factor(env, text, q1, rand, f - 1);
    var v := OperandValue(env, rest.factor);
    ok := v.Is? && ProductOf(rest.op, left, v.value).Is?;
    p' := if o.Done? then o.pos else 0;
    w := FactorGiven(env, text, p, q1, end, left, rand, f, rest);
  }

  lemma FactorGiven(env: Env, text: string, p: nat, q1: nat, end: nat, left: int, rand: nat, f: nat, rest: Products)
    returns (w: int)
    requires f > 0 && rest.Factor? && MulOp(text, Skip(text, p)) == MulOpOf(rest.op) && q1 == Skip(text, p) + 1
    requires var o := BasicMeaning.Factor(env, text, q1, rand, f - 1);
             match OperandValue(env, rest.factor)
             case Is(v) => o.Done? && o.value == v && o.rand == rand
             case Refused => o.Failed?
             case Unfit => true
    ensures var o := BasicMeaning.Factor(env, text, q1, rand, f - 1);
            var v := OperandValue(env, rest.factor);
            (v.Is? && ProductOf(rest.op, left, v.value).Is? ==>
              o.Done? && ProductsGiven(env, text, o.pos, end, rest.rest, w, rand, f - 1)) ==>
              ProductsGiven(env, text, p, end, rest, left, rand, f)
  {
    var o := BasicMeaning.Factor(env, text, q1, rand, f - 1);
    w := if o.Done? then Apply(MulOpOf(rest.op), left, o.value) else 0;
    if o.Done? { ProductsAgree(rest.op, left, o.value); }
    assert OfProducts(true);
  }

  // ---- Operands ----

  lemma {:induction false} OperandReads(env: Env, text: string, pos: nat, end: nat, g: Operand, rand: nat, f: nat)
    requires Stands(text, pos, end, WriteOperand(g)) && Follows(text, end) && f >= OperandFuel(g)
    ensures Gives(BasicMeaning.Factor(env, text, pos, rand, f), OperandValue(env, g), text, end, rand)
    decreases g, 2
  {
    match g
    case NotOf(h) =>
      var q := StandsBoth(text, pos, end, "NOT ", WriteOperand(h));
      OperandBegins(h);
      NotStands(text, pos, q, end, WriteOperand(h));
      OperandReads(env, text, q, end, h, rand, f - 1);
      NotGiven(env, text, pos, q, end, OperandValue(env, h), rand, f);
    case Signed(minus, atom) =>
      var q := StandsBoth(text, pos, end, WriteSigns(minus), WritePrimary(atom));
      PrimaryBegins(atom);
      StandsFirst(text, q, end, WritePrimary(atom), WritePrimary(atom)[0]);
      NoNot(text, pos, q, end, minus, atom);
      SignsRead(text, pos, q, minus, false);
      assert PrimaryAt(text, q, end, atom);
      assert EnoughPrimary(f - 1, atom);
      var w := PrimaryReads(env, text, q, end, atom, rand, f - 1);
      assert OfWorth(true);
      SignedGiven(env, text, pos, q, end, Odd(minus), w, rand, f);
  }

  lemma NotGiven(env: Env, text: string, pos: nat, q: nat, end: nat, w: Worth<int>, rand: nat, f: nat)
    requires f > 0 && Skip(text, pos) == pos && Names(text, pos, "NOT") && Skip(text, pos + 3) == q
    requires Gives(BasicMeaning.Factor(env, text, q, rand, f - 1), w, text, end, rand)
    ensures Gives(BasicMeaning.Factor(env, text, pos, rand, f), NotOfValue(w), text, end, rand)
  {
    FactorNot(env, text, pos, q, rand, f);
    if w.Is? { CutIs(-w.value - 1); }
  }

  lemma SignedGiven(env: Env, text: string, pos: nat, q: nat, end: nat, minus: bool, w: Worth<int>, rand: nat, f: nat)
    requires f > 0 && Skip(text, pos) == pos && !Names(text, pos, "NOT")
    requires BasicMeaning.Signs(text, pos, false) == (minus, q)
    requires AtomGiven(env, text, q, end, w, rand, f - 1)
    ensures Gives(BasicMeaning.Factor(env, text, pos, rand, f), SignedValue(minus, w), text, end, rand)
  {
    assert OfAtom(true);
    FactorSigned(env, text, pos, q, minus, rand, f);
    if w.Is? {
      CutIs(w.value);
      CutIs(-w.value);
    }
  }

  /** How the evaluator reads NOT, and signs. */
  lemma FactorNot(env: Env, text: string, pos: nat, q: nat, rand: nat, f: nat)
    requires f > 0 && Skip(text, pos) == pos && Names(text, pos, "NOT") && Skip(text, pos + 3) == q
    ensures BasicMeaning.Factor(env, text, pos, rand, f) ==
            match BasicMeaning.Factor(env, text, q, rand, f - 1)
            case Done(p, v, r) => Done(p, I32(-v - 1), r)
            case o => o
  {
  }

  lemma FactorSigned(env: Env, text: string, pos: nat, q: nat, minus: bool, rand: nat, f: nat)
    requires f > 0 && Skip(text, pos) == pos && !Names(text, pos, "NOT") &&
             BasicMeaning.Signs(text, pos, false) == (minus, q)
    ensures BasicMeaning.Factor(env, text, pos, rand, f) ==
            match Atom(env, text, q, rand, f - 1)
            case Done(p, v, r) => Done(p, if minus then I32(-v) else I32(v), r)
            case o => o
  {
  }

  lemma NotStands(text: string, pos: nat, q: nat, end: nat, rest: string)
    requires Stands(text, pos, q, "NOT ") && Stands(text, q, end, rest) && |rest| > 0 && Solid(rest[0])
    ensures Skip(text, pos) == pos && Names(text, pos, "NOT") && Skip(text, pos + 3) == q
  {
    assert Opened(true);
    var not := text[pos..q];
    assert not == "NOT ";
    assert text[pos] == not[0] && text[pos + 1] == not[1] && text[pos + 2] == not[2] && text[pos + 3] == not[3];
    assert text[q] == text[q..end][0];
    assert Spells(text, pos, "NOT", 3) && Spells(text, pos, "NOT", 2) && Spells(text, pos, "NOT", 1);
    assert Skip(text, pos + 4) == q;
  }

  /** Signs and an operand are not read as NOT. */
  lemma NoNot(text: string, pos: nat, q: nat, end: nat, minus: seq<bool>, atom: Primary)
    requires Stands(text, pos, q, WriteSigns(minus)) && Stands(text, q, end, WritePrimary(atom)) && Follows(text, end)
    ensures Skip(text, pos) == pos && !Names(text, pos, "NOT")
  {
    assert Opened(true);
    PrimaryBegins(atom);
    if |minus| > 0 {
      assert text[pos] == text[pos..q][0];
    } else {
      assert text[pos] == text[q..end][0];
      if atom.Variable? {
        assert end == pos + 1 && Up(At(text, pos + 1)) != 'O';
      } else if |WritePrimary(atom)| > 1 {
        assert text[pos + 1] == text[q..end][1];
      }
    }
    NotNamed(text, pos);
  }

  lemma NotNamed(text: string, pos: nat)
    requires Up(At(text, pos)) != 'N' || Up(At(text, pos + 1)) != 'O'
    ensures !Names(text, pos, "NOT")
  {
    assert !Spells(text, pos, "NOT", 0) || !Spells(text, pos, "NOT", 1);
  }

  lemma {:induction false} SignsRead(text: string, pos: nat, q: nat, minus: seq<bool>, m: bool)
    requires Stands(text, pos, q, WriteSigns(minus)) && Solid(At(text, q)) && At(text, q) != '+' && At(text, q) != '-'
    ensures BasicMeaning.Signs(text, pos, m) == (m != Odd(minus), q)
    decreases |minus|
  {
    if |minus| == 0 {
      StandsNothing(text, pos, q);
    } else {
      var c := if minus[0] then '-' else '+';
      var p := StandsBoth(text, pos, q, [c], WriteSigns(minus[1..]));
      OneMark(text, pos, p, c);
      StandsFirst(text, pos, p, [c], c);
      SignsRead(text, p, q, minus[1..], if minus[0] then !m else m);
      NextSolid(text, p, q, minus[1..]);
      SkipAtSolid(text, p);
    }
  }

  lemma NextSolid(text: string, p: nat, q: nat, minus: seq<bool>)
    requires Stands(text, p, q, WriteSigns(minus)) && Solid(At(text, q))
    ensures Solid(At(text, p))
  {
    if |minus| == 0 {
      StandsNothing(text, p, q);
    } else {
      StandsFirst(text, p, q, WriteSigns(minus), if minus[0] then '-' else '+');
    }
  }

  // ---- Primaries ----

  lemma {:induction false} PrimaryReads(env: Env, text: string, pos: nat, end: nat, a: Primary, rand: nat, f: nat)
    returns (w: Worth<int>)
    requires PrimaryAt(text, pos, end, a) && Follows(text, end) && EnoughPrimary(f, a)
    ensures PrimaryWorth(env, a, w) && AtomGiven(env, text, pos, end, w, rand, f)
    decreases a, 2
  {
    match a
    case Number(n) => w := NumberReads(env, text, pos, end, n, rand, f);
    case Variable(i) => w := VariableReads(env, text, pos, end, i, rand, f);
    case Element(_, _) => w := ElementReads(env, text, pos, end, a, rand, f);
    case Brackets(_) => w := BracketsRead(env, text, pos, end, a, rand, f);
    case AbsOf(_) => w := AbsReads(env, text, pos, end, a, rand, f);
    case EofOf(_) => w := EofReads(env, text, pos, end, a, rand, f);
    case LenOf(t) => w := TextReads(env, text, pos, end, a, "LEN(", Len, 2, t, rand, f);
    case ValOf(t) => w := TextReads(env, text, pos, end, a, "VAL(", Val, 3, t, rand, f);
    case AscOf(t) => w := TextReads(env, text, pos, end, a, "ASC(", Asc, 4, t, rand, f);
    case InstrOf(_, _) => w := InstrReads(env, text, pos, end, a, rand, f);
    case CallOf(_, _, _, _) => w := CallReads(env, text, pos, end, a, rand, f);
  }

  lemma NumberReads(env: Env, text: string, pos: nat, end: nat, n: nat, rand: nat, f: nat) returns (w: Worth<int>)
    requires PrimaryAt(text, pos, end, Primary.Number(n)) && Follows(text, end) && EnoughPrimary(f, Primary.Number(n))
    ensures PrimaryWorth(env, Primary.Number(n), w) && AtomGiven(env, text, pos, end, w, rand, f)
  {
    assert OfText(true) && OfFuel(true);
    w := Is(Cut32(n));
    DigitsStand(text, pos, end, n);
    AtomPlain(env, text, pos, rand, f);
  }

  lemma VariableReads(env: Env, text: string, pos: nat, end: nat, i: Var, rand: nat, f: nat) returns (w: Worth<int>)
    requires PrimaryAt(text, pos, end, Variable(i)) && Follows(text, end) && EnoughPrimary(f, Variable(i))
    ensures PrimaryWorth(env, Variable(i), w) && AtomGiven(env, text, pos, end, w, rand, f)
  {
    assert OfText(true) && OfFuel(true);
    w := Is(env.vars[i]);
    LetterStands(text, pos, end, i);
    AtomPlain(env, text, pos, rand, f);
    SkipTwice(text, end);
  }

  lemma AtomPlain(env: Env, text: string, pos: nat, rand: nat, f: nat)
    requires f >= 3 && KindAt(text, pos) == Plain
    ensures Atom(env, text, pos, rand, f) == Value(env, text, pos, rand, f - 2)
  {
    assert Atom(env, text, pos, rand, f) == AtomOf(env, Plain, text, pos, rand, f - 1);
  }

  lemma AtomBracket(env: Env, text: string, pos: nat, rand: nat, f: nat)
    requires f >= 3 && At(text, pos) == '('
    ensures Atom(env, text, pos, rand, f) == Paren(env, text, pos, rand, f - 2)
  {
    assert Atom(env, text, pos, rand, f) == AtomOf(env, Bracket, text, pos, rand, f - 1);
  }

  lemma AtomBuiltIn(env: Env, text: string, pos: nat, q: nat, fn: NumFn, rand: nat, f: nat)
    requires f >= 3 && NumCallAt(text, pos, q, fn)
    ensures q > 0 && At(text, q - 1) == '(' &&
            Atom(env, text, pos, rand, f) == NumCall(env, fn, text, q - 1, rand, f - 2)
  {
    assert OfCall(true);
    var len := if fn == Instr then 5 else 3;
    assert Atom(env, text, pos, rand, f) == AtomOf(env, BuiltIn(fn, len), text, pos, rand, f - 1);
  }

  /** An expression in brackets. */
  lemma ParenReads(env: Env, text: string, pos: nat, m: nat, w: Worth<int>, rand: nat, f: nat)
    requires f > 0 && At(text, pos) == '(' && At(text, m) == ')'
    requires SumGiven(env, text, pos + 1, m, w, rand, f - 1)
    ensures var o := Paren(env, text, pos, rand, f);
            match w case Is(v) => o == Done(m + 1, v, rand) case Refused => o.Failed? case Unfit => true
  {
    assert OfSum(true);
    SkipAtSolid(text, pos);
    SkipAtSolid(text, m);
  }

  lemma {:induction false} BracketsRead(env: Env, text: string, pos: nat, end: nat, a: Primary, rand: nat, f: nat)
    returns (w: Worth<int>)
    requires a.Brackets? && PrimaryAt(text, pos, end, a) && EnoughPrimary(f, a)
    ensures PrimaryWorth(env, a, w) && AtomGiven(env, text, pos, end, w, rand, f)
    decreases a, 1
  {
    ArgumentFuel(f, a);
    var q, m := ArgumentAt(text, pos, end, a, "(", a.e);
    StandsFirst(text, pos, q, "(", '(');
    OneMark(text, pos, q, '(');
    w := SumReads(env, text, q, m, a.e, rand, f - 3);
    BracketsGiven(env, text, pos, m, a.e, w, rand, f);
  }

  lemma BracketsGiven(env: Env, text: string, pos: nat, m: nat, e: Sum, w: Worth<int>, rand: nat, f: nat)
    requires f >= 4 && At(text, pos) == '(' && At(text, m) == ')' && SumGiven(env, text, pos + 1, m, w, rand, f - 3)
    requires SumWorth(env, e, w)
    ensures AtomGiven(env, text, pos, m + 1, w, rand, f) && PrimaryWorth(env, Brackets(e), w)
  {
    ParenReads(env, text, pos, m, w, rand, f - 2);
    AtomBracket(env, text, pos, rand, f);
  }

  lemma {:induction false} AbsReads(env: Env, text: string, pos: nat, end: nat, a: Primary, rand: nat, f: nat)
    returns (w: Worth<int>)
    requires a.AbsOf? && PrimaryAt(text, pos, end, a) && EnoughPrimary(f, a)
    ensures PrimaryWorth(env, a, w) && AtomGiven(env, text, pos, end, w, rand, f)
    decreases a, 1
  {
    ArgumentFuel(f, a);
    var q, m := ArgumentAt(text, pos, end, a, "ABS(", a.e);
    NumbersOpen();
    NumCallStands(text, pos, q, "ABS(", 0);
    var v := SumReads(env, text, q, m, a.e, rand, f - 4);
    w := AbsValue(v);
    AbsGiven(env, text, pos, q, m, v, rand, f);
  }

  lemma AbsGiven(env: Env, text: string, pos: nat, q: nat, m: nat, w: Worth<int>, rand: nat, f: nat)
    requires f >= 5 && NumCallAt(text, pos, q, Abs) && At(text, m) == ')' && SumGiven(env, text, q, m, w, rand, f - 4)
    ensures AtomGiven(env, text, pos, m + 1, AbsValue(w), rand, f)
  {
    AtomBuiltIn(env, text, pos, q, Abs, rand, f);
    ParenReads(env, text, q - 1, m, w, rand, f - 3);
    if w.Is? { CutIs(-w.value); }
  }

  lemma {:induction false} EofReads(env: Env, text: string, pos: nat, end: nat, a: Primary, rand: nat, f: nat)
    returns (w: Worth<int>)
    requires a.EofOf? && PrimaryAt(text, pos, end, a) && EnoughPrimary(f, a)
    ensures PrimaryWorth(env, a, w) && AtomGiven(env, text, pos, end, w, rand, f)
    decreases a, 1
  {
    ArgumentFuel(f, a);
    var q, m := ArgumentAt(text, pos, end, a, "EOF(", a.e);
    NumbersOpen();
    NumCallStands(text, pos, q, "EOF(", 5);
    var v := SumReads(env, text, q, m, a.e, rand, f - 4);
    w := EofValue(env.ended, v);
    EofGiven(env, text, pos, q, m, v, rand, f);
  }

  lemma EofGiven(env: Env, text: string, pos: nat, q: nat, m: nat, w: Worth<int>, rand: nat, f: nat)
    requires f >= 5 && NumCallAt(text, pos, q, Eof) && At(text, m) == ')' && SumGiven(env, text, q, m, w, rand, f - 4)
    ensures AtomGiven(env, text, pos, m + 1, EofValue(env.ended, w), rand, f)
  {
    AtomBuiltIn(env, text, pos, q, Eof, rand, f);
    ParenReads(env, text, q - 1, m, w, rand, f - 3);
  }

  /** An element of an array. */
  lemma {:induction false} ElementReads(env: Env, text: string, pos: nat, end: nat, a: Primary, rand: nat, f: nat)
    returns (w: Worth<int>)
    requires a.Element? && PrimaryAt(text, pos, end, a) && EnoughPrimary(f, a)
    ensures PrimaryWorth(env, a, w) && AtomGiven(env, text, pos, end, w, rand, f)
    decreases a, 1
  {
    ArgumentFuel(f, a);
    var q, m := ArgumentAt(text, pos, end, a, [LetterOf(a.i), '('], a.at);
    ElementStands(text, pos, q, a.i);
    var v := SumReads(env, text, q, m, a.at, rand, f - 3);
    w := ElementValue(env.arrays[a.i], v);
    ElementGiven(env, text, pos, m, a.i, v, rand, f);
  }

  lemma ElementStands(text: string, pos: nat, q: nat, i: Var)
    requires Stands(text, pos, q, [LetterOf(i), '('])
    ensures q == pos + 2 && KindAt(text, pos) == Plain && IsAlpha(At(text, pos)) && Skip(text, pos) == pos
    ensures VarAt(text, pos) == VarRef(i, false, pos + 1) && At(text, pos + 1) == '(' && Skip(text, pos + 1) == pos + 1
  {
    assert Opened(true);
    var w := text[pos..q];
    assert At(text, pos) == w[0] && At(text, pos + 1) == w[1];
    NoCall(text, pos, NumNames(), 0);
    assert TailEnd(text, pos + 1) == pos + 1;
  }

  lemma ElementGiven(env: Env, text: string, pos: nat, m: nat, i: Var, w: Worth<int>, rand: nat, f: nat)
    requires f >= 4 && KindAt(text, pos) == Plain && IsAlpha(At(text, pos)) && Skip(text, pos) == pos
    requires VarAt(text, pos) == VarRef(i, false, pos + 1) && At(text, pos + 1) == '(' && Skip(text, pos + 1) == pos + 1
    requires At(text, m) == ')' && SumGiven(env, text, pos + 2, m, w, rand, f - 3)
    ensures AtomGiven(env, text, pos, m + 1, ElementValue(env.arrays[i], w), rand, f)
  {
    assert OfSum(true);
    AtomPlain(env, text, pos, rand, f);
    SkipAtSolid(text, m);
  }

  /** Functions of one string. */
  lemma {:induction false} TextReads(env: Env, text: string, pos: nat, end: nat, a: Primary, open: string, fn: NumFn,
                                     i: nat, t: Phrase, rand: nat, f: nat) returns (w: Worth<int>)
    requires (a == LenOf(t) && open == "LEN(" && fn == Len && i == 2) ||
             (a == ValOf(t) && open == "VAL(" && fn == Val && i == 3) ||
             (a == AscOf(t) && open == "ASC(" && fn == Asc && i == 4)
    requires PrimaryAt(text, pos, end, a) && EnoughPrimary(f, a)
    ensures PrimaryWorth(env, a, w) && AtomGiven(env, text, pos, end, w, rand, f)
    decreases a, 1
  {
    ArgumentFuel(f, a);
    var q, m := StringAt(text, pos, end, a, open, t);
    NumbersOpen();
    NumCallStands(text, pos, q, open, i);
    var v := PhraseReads(env, text, q, m, t, rand, f - 3);
    w := TextValue(fn, v);
    TextGiven(env, text, pos, q, m, fn, v, rand, f);
  }

  lemma TextGiven(env: Env, text: string, pos: nat, q: nat, m: nat, fn: NumFn, w: Worth<string>, rand: nat, f: nat)
    requires f >= 4 && NumCallAt(text, pos, q, fn) && (fn == Len || fn == Val || fn == Asc)
    requires At(text, m) == ')' && PhraseGiven(env, text, q, m, w, rand, f - 3)
    ensures AtomGiven(env, text, pos, m + 1, TextValue(fn, w), rand, f)
  {
    assert OfPhrase(true);
    AtomBuiltIn(env, text, pos, q, fn, rand, f);
    SkipAtSolid(text, m);
  }

  lemma {:induction false} InstrReads(env: Env, text: string, pos: nat, end: nat, a: Primary, rand: nat, f: nat)
    returns (w: Worth<int>)
    requires a.InstrOf? && PrimaryAt(text, pos, end, a) && EnoughPrimary(f, a)
    ensures PrimaryWorth(env, a, w) && AtomGiven(env, text, pos, end, w, rand, f)
    decreases a, 1
  {
    ArgumentFuel(f, a);
    var q, m, m' := StringsAt(text, pos, end, a.t, a.needle);
    NumbersOpen();
    NumCallStands(text, pos, q, "INSTR(", 6);
    var v := PhraseReads(env, text, q, m, a.t, rand, f - 3);
    var n := PhraseReads(env, text, m + 1, m', a.needle, rand, f - 3);
    w := PlaceValue(v, n);
    InstrGiven(env, text, pos, q, m, m', v, n, rand, f);
  }

  function PlaceValue(w: Worth<string>, n: Worth<string>): Worth<int> {
    match w case Is(t) => InstrValue(t, n) case Refused => Refused case Unfit => Unfit
  }

  lemma InstrGiven(env: Env, text: string, pos: nat, q: nat, m: nat, m': nat, w: Worth<string>, n: Worth<string>,
                   rand: nat, f: nat)
    requires f >= 4 && NumCallAt(text, pos, q, Instr) && At(text, m) == ',' && At(text, m') == ')'
    requires PhraseGiven(env, text, q, m, w, rand, f - 3) && PhraseGiven(env, text, m + 1, m', n, rand, f - 3)
    ensures AtomGiven(env, text, pos, m' + 1, PlaceValue(w, n), rand, f)
  {
    assert OfPhrase(true);
    AtomBuiltIn(env, text, pos, q, Instr, rand, f);
    SkipAtSolid(text, m);
    SkipAtSolid(text, m');
  }

  /** A user function. */
  lemma {:induction false} CallReads(env: Env, text: string, pos: nat, end: nat, a: Primary, rand: nat, f: nat)
    returns (w: Worth<int>)
    requires a.CallOf? && PrimaryAt(text, pos, end, a) && EnoughPrimary(f, a)
    ensures PrimaryWorth(env, a, w) && AtomGiven(env, text, pos, end, w, rand, f)
    decreases a, 1
  {
    var CallOf(letter, arg, param, body) := a;
    if !Defined(env.fns, letter, param, WriteSum(body)) { return Unfit; }
    ArgumentFuel(f, a);
    var q, m := ArgumentAt(text, pos, end, a, ['F', 'N', LetterOf(letter), '('], arg);
    FnStands(text, pos, q, letter);
    w := SumReads(env, text, q, m, arg, rand, f - 4);
    var d := DefFn(letter, param, WriteSum(body));
    DefinedIs(env.fns, d);
    var inner := Unfit;
    if w.Is? { inner := BodyReads(env.(vars := env.vars[param := w.value]), body, rand, f - 3); }
    CallGiven(env, text, pos, m, d, w, inner, rand, f);
    CallWorth(env, a, w, inner);
    if w.Is? { w := inner; }
  }

  lemma CallWorth(env: Env, a: Primary, w: Worth<int>, inner: Worth<int>)
    requires a.CallOf? && Defined(env.fns, a.letter, a.param, WriteSum(a.body)) && SumWorth(env, a.arg, w)
    requires w.Is? ==> SumWorth(env.(vars := env.vars[a.param := w.value]), a.body, inner)
    ensures PrimaryWorth(env, a, if w.Is? then inner else w)
  {
    assert OfWorth(true);
  }

  /** A whole text that is an expression. */
  lemma {:induction false} BodyReads(env: Env, body: Sum, rand: nat, f: nat) returns (w: Worth<int>)
    requires EnoughSum(f, body)
    ensures SumWorth(env, body, w) && SumGiven(env, WriteSum(body), 0, |WriteSum(body)|, w, rand, f)
    decreases body, 2
  {
    var text := WriteSum(body);
    assert text[0..|text|] == text;
    assert Stands(text, 0, |text|, text);
    assert Skip(text, |text|) == |text|;
    NothingNamed(text);
    assert SumAt(text, 0, |text|, body);
    w := SumReads(env, text, 0, |text|, body, rand, f);
  }

  lemma NothingNamed(text: string)
    ensures AddOp(text, |text|) == NoOp && MulOp(text, |text|) == NoOp
  {
    OtherLetter(text, |text|, "AND");
    OtherLetter(text, |text|, "OR");
    OtherLetter(text, |text|, "XOR");
  }

  lemma FnStands(text: string, pos: nat, q: nat, letter: Var)
    requires Stands(text, pos, q, ['F', 'N', LetterOf(letter), '('])
    ensures q == pos + 4 && KindAt(text, pos) == UserFn(letter) && At(text, pos + 3) == '('
  {
    assert Opened(true);
    var w := text[pos..q];
    assert At(text, pos) == w[0] && At(text, pos + 1) == w[1] && At(text, pos + 2) == w[2] && At(text, pos + 3) == w[3];
    NotCalled(text, pos, NumNames(), 0);
  }

  lemma {:induction false} DefinedIs(fns: seq<DefFn>, d: DefFn)
    requires Defined(fns, d.letter, d.param, d.body)
    ensures FnFor(fns, d.letter) == Some(d)
    decreases |fns|
  {
    var k :| 0 <= k < |fns| && fns[k] == d && forall j :: 0 <= j < k ==> fns[j].letter != d.letter;
    if k > 0 {
      var rest := fns[1..];
      assert rest[k - 1] == d && forall j :: 0 <= j < k - 1 ==> rest[j].letter != d.letter;
      DefinedIs(rest, d);
    }
  }

  lemma CallGiven(env: Env, text: string, pos: nat, m: nat, d: DefFn, w: Worth<int>, inner: Worth<int>, rand: nat,
                  f: nat)
    requires f >= 4 && KindAt(text, pos) == UserFn(d.letter) && FnFor(env.fns, d.letter) == Some(d)
    requires At(text, pos + 3) == '(' && At(text, m) == ')' && SumGiven(env, text, pos + 4, m, w, rand, f - 4)
    requires w.Is? ==> SumGiven(env.(vars := env.vars[d.param := w.value]), d.body, 0, |d.body|, inner, rand, f - 3)
    ensures w.Is? ==> AtomGiven(env, text, pos, m + 1, inner, rand, f)
    ensures !w.Is? ==> AtomGiven(env, text, pos, m + 1, w, rand, f)
  {
    assert OfSum(true);
    ParenReads(env, text, pos + 3, m, w, rand, f - 3);
    assert Atom(env, text, pos, rand, f) == AtomOf(env, UserFn(d.letter), text, pos, rand, f - 1);
    assert AtomOf(env, UserFn(d.letter), text, pos, rand, f - 1) == FnCall(env, d.letter, text, pos + 3, rand, f - 2);
  }

  /** A letter by itself is a variable. */
  lemma LetterStands(text: string, pos: nat, end: nat, i: Var)
    requires Stands(text, pos, end, [LetterOf(i)]) && Follows(text, end)
    ensures KindAt(text, pos) == Plain && IsAlpha(At(text, pos)) && Skip(text, pos) == pos
    ensures VarAt(text, pos) == VarRef(i, false, end) && At(text, Skip(text, end)) != '('
  {
    OneMark(text, pos, end, LetterOf(i));
    StandsFirst(text, pos, end, [LetterOf(i)], LetterOf(i));
    SkipAtSolid(text, pos);
    NoCall(text, pos, NumNames(), 0);
    assert TailEnd(text, end) == end;
  }

  lemma {:induction false} NoCall(text: string, s: nat, names: seq<string>, i: nat)
    requires i <= |names| && !IsTail(At(text, s + 1))
    requires forall k {:trigger names[k]} :: 0 <= k < |names| ==> |names[k]| > 1 && IsAlpha(names[k][1])
    ensures CalledAt(text, s, names, i) == |names|
    decreases |names| - i
  {
    if i < |names| {
      assert !Spells(text, s, names[i], 1);
      assert !Spells(text, s, names[i], 0);
      NoCall(text, s, names, i + 1);
    }
  }

  /** Digits are read as their number. */
  lemma DigitsStand(text: string, pos: nat, end: nat, n: nat)
    requires Stands(text, pos, end, Decimal(n)) && Follows(text, end)
    ensures KindAt(text, pos) == Plain && !IsAlpha(At(text, pos)) && Skip(text, pos) == pos
    ensures ReadInt(text, pos) == BasicText.Number(Cut32(n), end)
  {
    DecimalValue(n);
    DigitsAre(text, pos, end, Decimal(n));
    CutTwice(n, 1);
  }

  lemma DigitsAre(text: string, pos: nat, end: nat, ds: string)
    requires Stands(text, pos, end, ds) && |ds| > 0 && Follows(text, end)
    requires forall i {:trigger ds[i]} :: 0 <= i < |ds| ==> IsDigit(ds[i])
    ensures KindAt(text, pos) == Plain && !IsAlpha(At(text, pos)) && Skip(text, pos) == pos
    ensures ReadInt(text, pos) == BasicText.Number(I32(I32(ValueOf(ds)) * 1), end)
  {
    StandsFirst(text, pos, end, ds, ds[0]);
    SkipAtSolid(text, pos);
    PartRead(text, pos, end, ds);
  }

  // ---- Strings ----

  /** The evaluation of a string expression, or of the rest of one, gives its value. */
  ghost predicate PhraseGiven(env: Env, text: string, pos: nat, end: nat, w: Worth<string>, rand: nat, f: nat) {
    forall x {:trigger OfPhrase(x)} :: OfPhrase(x) ==> Gives(StrExpr(env, text, pos, rand, f), w, text, end, rand)
  }

  ghost predicate PiecesGiven(env: Env, text: string, pos: nat, end: nat, w: Worth<string>, sofar: string, rand: nat,
                              f: nat) {
    forall x {:trigger OfPieces(x)} :: OfPieces(x) ==>
        Gives(StrRest(env, text, pos, sofar, rand, f), w, text, end, rand)
  }

  lemma {:induction false} PhraseReads(env: Env, text: string, pos: nat, end: nat, t: Phrase, rand: nat, f: nat)
    returns (w: Worth<string>)
    requires PhraseAt(text, pos, end, t) && EndsPhrase(text, end) && EnoughPhrase(f, t)
    ensures PhraseWorth(env, t, w) && PhraseGiven(env, text, pos, end, w, rand, f)
    decreases t, 1
  {
    PhraseFuels(f, t);
    var q := PhraseSplits(text, pos, end, t);
    var v := PieceReads(env, text, pos, q, t.first, rand, f - 2);
    w := v;
    if v.Is? {
      var now := Short("" + v.value);
      w := Is(now);
      if t.rest.Joined? { w := PiecesRead(env, text, q, end, t.rest, now, rand, f - 2); }
    }
    StepGiven(env, text, pos, q, end, v, t.rest, "", w, rand, f - 1);
    PhraseOfPieces(env, text, pos, end, w, rand, f);
    PhraseWorthIs(env, t, v, w);
  }

  lemma PhraseWorthIs(env: Env, t: Phrase, v: Worth<string>, w: Worth<string>)
    requires PieceWorth(env, t.first, v)
    requires if v.Is? then PiecesWorth(env, Short("" + v.value), t.rest, w) else w == v
    ensures PhraseWorth(env, t, w)
  {
    assert OfWorth(true);
    if v.Is? { assert "" + v.value == v.value; }
  }

  ghost predicate PiecesWorth(env: Env, left: string, rest: Pieces, w: Worth<string>) {
    forall x {:trigger OfWorth(x)} :: OfWorth(x) ==> w == PiecesValue(env, left, rest)
  }

  lemma PhraseOfPieces(env: Env, text: string, pos: nat, end: nat, w: Worth<string>, rand: nat, f: nat)
    requires f > 0 && PiecesGiven(env, text, pos, end, w, "", rand, f - 1)
    ensures PhraseGiven(env, text, pos, end, w, rand, f)
  {
    assert OfPieces(true);
  }

  lemma {:induction false} PiecesRead(env: Env, text: string, pos: nat, end: nat, j: Pieces, sofar: string, rand: nat,
                                      f: nat) returns (w: Worth<string>)
    requires j.Joined? && PiecesAt(text, pos, end, j) && EndsPhrase(text, end) && EnoughPieces(f, j)
    ensures PiecesWorth(env, sofar, j, w) && PiecesGiven(env, text, pos + 1, end, w, sofar, rand, f)
    decreases j, 1
  {
    PiecesFuels(f, j);
    var q := PiecesSplit(text, pos, end, j);
    var v := PieceReads(env, text, pos + 1, q, j.piece, rand, f - 1);
    w := v;
    if v.Is? {
      var now := Short(sofar + v.value);
      w := Is(now);
      if j.rest.Joined? { w := PiecesRead(env, text, q, end, j.rest, now, rand, f - 1); }
    }
    StepGiven(env, text, pos + 1, q, end, v, j.rest, sofar, w, rand, f);
    PiecesWorthIs(env, j, sofar, v, w);
  }

  lemma PiecesWorthIs(env: Env, j: Pieces, sofar: string, v: Worth<string>, w: Worth<string>)
    requires j.Joined? && PieceWorth(env, j.piece, v)
    requires if v.Is? then PiecesWorth(env, Short(sofar + v.value), j.rest, w) else w == v
    ensures PiecesWorth(env, sofar, j, w)
  {
    assert OfWorth(true);
  }

  /** What a string expression begins with, and what its rest begins with. */
  lemma PhraseSplits(text: string, pos: nat, end: nat, t: Phrase) returns (q: nat)
    requires PhraseAt(text, pos, end, t)
    ensures PieceAt(text, pos, q, t.first) && PiecesAt(text, q, end, t.rest) && Skip(text, pos) == pos
    ensures if t.rest.NoPiece? then q == end else At(text, q) == '+'
  {
    assert OfText(true);
    q := StandsBoth(text, pos, end, WritePiece(t.first), WritePieces(t.rest));
    PieceStarts(text, pos, q, t.first);
    RestStarts(text, q, end, t.rest);
  }

  lemma PiecesSplit(text: string, pos: nat, end: nat, j: Pieces) returns (q: nat)
    requires j.Joined? && PiecesAt(text, pos, end, j)
    ensures PieceAt(text, pos + 1, q, j.piece) && PiecesAt(text, q, end, j.rest) && Skip(text, pos + 1) == pos + 1
    ensures if j.rest.NoPiece? then q == end else At(text, q) == '+'
  {
    assert OfText(true);
    var p := StandsBoth(text, pos, end, "+", WritePiece(j.piece) + WritePieces(j.rest));
    OneMark(text, pos, p, '+');
    q := StandsBoth(text, p, end, WritePiece(j.piece), WritePieces(j.rest));
    PieceStarts(text, p, q, j.piece);
    RestStarts(text, q, end, j.rest);
  }

  lemma PieceStarts(text: string, pos: nat, q: nat, a: Piece)
    requires Stands(text, pos, q, WritePiece(a))
    ensures Skip(text, pos) == pos
  {
    PieceBegins(a);
    StandsFirst(text, pos, q, WritePiece(a), WritePiece(a)[0]);
    SkipAtSolid(text, pos);
  }

  lemma RestStarts(text: string, q: nat, end: nat, rest: Pieces)
    requires Stands(text, q, end, WritePieces(rest))
    ensures if rest.NoPiece? then q == end else At(text, q) == '+'
  {
    match rest
    case NoPiece => StandsNothing(text, q, end);
    case Joined(_, _) => StandsFirst(text, q, end, WritePieces(rest), '+');
  }

  /** One piece of a string expression, and what comes behind it. */
  lemma StepGiven(env: Env, text: string, pos: nat, q: nat, end: nat, v: Worth<string>, rest: Pieces, sofar: string,
                  w: Worth<string>, rand: nat, f: nat)
    requires f > 0 && Skip(text, pos) == pos && PieceGiven(env, text, pos, q, v, rand, f - 1)
    requires EndsPhrase(text, end) && if rest.NoPiece? then q == end else At(text, q) == '+'
    requires if !v.Is? then w == v else if rest.NoPiece? then w == Is(Short(sofar + v.value))
             else PiecesGiven(env, text, q + 1, end, w, Short(sofar + v.value), rand, f - 1)
    ensures PiecesGiven(env, text, pos, end, w, sofar, rand, f)
  {
    assert OfPiece(true) && OfPieces(true);
    assert OfEnd(true);
    if v.Is? {
      SkipTwice(text, end);
      if rest.Joined? { SkipAtSolid(text, q); }
    }
  }

  lemma {:induction false} PieceReads(env: Env, text: string, pos: nat, end: nat, a: Piece, rand: nat, f: nat)
    returns (w: Worth<string>)
    requires PieceAt(text, pos, end, a) && EnoughPiece(f, a)
    ensures PieceWorth(env, a, w) && PieceGiven(env, text, pos, end, w, rand, f)
    decreases a, 1
  {
    match a
    case Quoted(s) => w := QuotedReads(env, text, pos, end, s, rand, f);
    case StringVar(i) => w := StringVarReads(env, text, pos, end, i, rand, f);
    case ChrOf(e) => w := NumberTextReads(env, text, pos, end, a, "CHR$(", Chr, 0, e, rand, f);
    case StrOf(e) => w := NumberTextReads(env, text, pos, end, a, "STR$(", Str, 1, e, rand, f);
    case LeftOf(t, n) => w := EndReads(env, text, pos, end, "LEFT$(", Left, 3, a, t, n, rand, f);
    case RightOf(t, n) => w := EndReads(env, text, pos, end, "RIGHT$(", Right, 4, a, t, n, rand, f);
    case MidOf(_, _, _) => w := MidReads(env, text, pos, end, a, rand, f);
    case TailOf(t, from) => w := EndReads(env, text, pos, end, "MID$(", Mid, 2, a, t, from, rand, f);
  }

  lemma QuotedReads(env: Env, text: string, pos: nat, end: nat, s: string, rand: nat, f: nat) returns (w: Worth<string>)
    requires PieceAt(text, pos, end, Quoted(s)) && EnoughPiece(f, Quoted(s))
    ensures PieceWorth(env, Quoted(s), w) && PieceGiven(env, text, pos, end, w, rand, f)
  {
    PartFuel(f, Quoted(s));
    assert OfText(true);
    var m := QuotesStand(text, pos, end, s);
    w := Unfit;
    if '"' !in s && NUL !in s {
      w := Is(Short(s));
      LiteralReads(text, pos + 1, m, s, "");
      assert "" + s == s;
    }
  }

  lemma QuotesStand(text: string, pos: nat, end: nat, s: string) returns (m: nat)
    requires Stands(text, pos, end, "\"" + (s + "\""))
    ensures At(text, pos) == '"' && Stands(text, pos + 1, m, s) && At(text, m) == '"' && end == m + 1
  {
    var q := StandsBoth(text, pos, end, "\"", s + "\"");
    m := StandsBoth(text, q, end, s, "\"");
    StandsFirst(text, pos, q, "\"", '"');
    StandsFirst(text, m, end, "\"", '"');
    OneMark(text, pos, q, '"');
    OneMark(text, m, end, '"');
  }

  lemma {:induction false} LiteralReads(text: string, q: nat, m: nat, s: string, sofar: string)
    requires Stands(text, q, m, s) && At(text, m) == '"' && '"' !in s && NUL !in s
    ensures Literal(text, q, sofar) == Some((m + 1, Short(sofar + s)))
    decreases |s|
  {
    assert Opened(true);
    if |s| == 0 {
      assert sofar + s == sofar;
    } else {
      assert text[q] == text[q..m][0] == s[0];
      assert text[q + 1..m] == text[q..m][1..] == s[1..];
      LiteralReads(text, q + 1, m, s[1..], sofar + [s[0]]);
      assert sofar + [s[0]] + s[1..] == sofar + s;
    }
  }

  lemma StringVarReads(env: Env, text: string, pos: nat, end: nat, i: Var, rand: nat, f: nat) returns (w: Worth<string>)
    requires PieceAt(text, pos, end, StringVar(i)) && EnoughPiece(f, StringVar(i))
    ensures PieceWorth(env, StringVar(i), w) && PieceGiven(env, text, pos, end, w, rand, f)
  {
    PartFuel(f, StringVar(i));
    assert OfText(true) && Opened(true);
    w := Is(Short(env.strs[i]));
    var name := text[pos..end];
    assert At(text, pos) == name[0] && At(text, pos + 1) == name[1];
    NoCall(text, pos, StrNames(), 0);
    assert TailEnd(text, pos + 1) == pos + 1;
  }

  lemma {:induction false} NumberTextReads(env: Env, text: string, pos: nat, end: nat, a: Piece, open: string,
                                           fn: StrFn, i: nat, e: Sum, rand: nat, f: nat) returns (w: Worth<string>)
    requires (a == ChrOf(e) && open == "CHR$(" && fn == Chr && i == 0) ||
             (a == StrOf(e) && open == "STR$(" && fn == Str && i == 1)
    requires PieceAt(text, pos, end, a) && EnoughPiece(f, a)
    ensures PieceWorth(env, a, w) && PieceGiven(env, text, pos, end, w, rand, f)
    decreases a, 0
  {
    PartFuel(f, a);
    var q, m := NumberAt(text, pos, end, a, open, e);
    StringsOpen();
    StrCallStands(text, pos, q, open, i);
    var v := SumReads(env, text, q, m, e, rand, f - 3);
    w := NumberTextValue(fn, v);
    NumberTextGiven(env, text, pos, q, m, fn, v, rand, f);
  }

  lemma NumberTextGiven(env: Env, text: string, pos: nat, q: nat, m: nat, fn: StrFn, w: Worth<int>, rand: nat, f: nat)
    requires f >= 3 && (fn == Chr || fn == Str) && StrCallAt(text, pos, q, fn) && At(text, m) == ')'
    requires SumGiven(env, text, q, m, w, rand, f - 3)
    ensures PieceGiven(env, text, pos, m + 1, NumberTextValue(fn, w), rand, f)
  {
    assert OfCall(true);
    ParenReads(env, text, pos + 4, m, w, rand, f - 2);
    assert Part(env, text, pos, rand, f) == StrCall(env, fn, text, pos + 4, rand, f - 1);
  }

  /** LEFT$ and RIGHT$, and MID$ with one number. */
  lemma {:induction false} EndReads(env: Env, text: string, pos: nat, end: nat, open: string, fn: StrFn, i: nat,
                                    a: Piece, t: Phrase, n: Sum, rand: nat, f: nat) returns (w: Worth<string>)
    requires (a == LeftOf(t, n) && open == "LEFT$(" && fn == Left && i == 3) ||
             (a == RightOf(t, n) && open == "RIGHT$(" && fn == Right && i == 4) ||
             (a == TailOf(t, n) && open == "MID$(" && fn == Mid && i == 2)
    requires PieceAt(text, pos, end, a) && EnoughPiece(f, a)
    ensures PieceWorth(env, a, w) && PieceGiven(env, text, pos, end, w, rand, f)
    decreases a, 0
  {
    PartFuel(f, a);
    var q, m, m' := PartAt(text, pos, end, a, open, t, n);
    StringsOpen();
    StrCallStands(text, pos, q, open, i);
    var v := PhraseReads(env, text, q, m, t, rand, f - 2);
    var k := SumReads(env, text, m + 1, m', n, rand, f - 3);
    w := EndValue(fn, v, k);
    OneNumberGiven(env, text, pos, fn, q, m, m', v, k, rand, f);
    EndWorth(env, a, fn, t, n, v, k);
  }

  lemma EndWorth(env: Env, a: Piece, fn: StrFn, t: Phrase, n: Sum, v: Worth<string>, k: Worth<int>)
    requires (a == LeftOf(t, n) && fn == Left) || (a == RightOf(t, n) && fn == Right) ||
             (a == TailOf(t, n) && fn == Mid)
    requires PhraseWorth(env, t, v) && SumWorth(env, n, k)
    ensures PieceWorth(env, a, EndValue(fn, v, k))
  {
    assert OfWorth(true);
  }

  function EndValue(fn: StrFn, w: Worth<string>, n: Worth<int>): Worth<string> {
    match w case Is(v) => PartValue(fn, v, n, Is(96)) case _ => w
  }

  function MidValue(w: Worth<string>, a: Worth<int>, n: Worth<int>): Worth<string> {
    match w case Is(v) => PartValue(Mid, v, a, n) case _ => w
  }

  lemma OneNumberGiven(env: Env, text: string, pos: nat, fn: StrFn, q: nat, m: nat, m': nat, w: Worth<string>,
                       n: Worth<int>, rand: nat, f: nat)
    requires f >= 3 && (fn == Left || fn == Right || fn == Mid) && StrCallAt(text, pos, q, fn)
    requires At(text, m) == ',' && At(text, m') == ')'
    requires PhraseGiven(env, text, q, m, w, rand, f - 2) && SumGiven(env, text, m + 1, m', n, rand, f - 3)
    ensures PieceGiven(env, text, pos, m' + 1, EndValue(fn, w, n), rand, f)
  {
    if w.Is? { EndGivenText(env, text, fn, w.value, m + 1, m', n, rand, f - 2); }
    PartGiven(env, text, pos, m' + 1, fn, q, m, w, EndValue(fn, w, n), rand, f);
  }

  lemma TwoNumbersGiven(env: Env, text: string, pos: nat, q: nat, m: nat, m1: nat, m2: nat, w: Worth<string>,
                        a: Worth<int>, n: Worth<int>, rand: nat, f: nat)
    requires f >= 3 && StrCallAt(text, pos, q, Mid) && At(text, m) == ',' && At(text, m1) == ',' && At(text, m2) == ')'
    requires PhraseGiven(env, text, q, m, w, rand, f - 2) && SumGiven(env, text, m + 1, m1, a, rand, f - 3)
    requires SumGiven(env, text, m1 + 1, m2, n, rand, f - 3)
    ensures PieceGiven(env, text, pos, m2 + 1, MidValue(w, a, n), rand, f)
  {
    if w.Is? { MidGiven(env, text, w.value, m + 1, m1, m2, a, n, rand, f - 2); }
    PartGiven(env, text, pos, m2 + 1, Mid, q, m, w, MidValue(w, a, n), rand, f);
  }

  /** The numbers behind the text of a call give its value. */
  ghost predicate PartsGiven(env: Env, fn: StrFn, t: string, text: string, q: nat, end: nat, v: Worth<string>,
                             rand: nat, f: nat) {
    forall x {:trigger OfPart(x)} ::
      OfPart(x) ==> Gives(SubCall(env, fn, t, text, q, rand, f), v, text, end, rand)
  }

  /** The call of a function of a string and numbers comes to what its numbers come to. */
  lemma PartGiven(env: Env, text: string, pos: nat, end: nat, fn: StrFn, q: nat, m: nat, w: Worth<string>,
                  v: Worth<string>, rand: nat, f: nat)
    requires f >= 3 && (fn == Left || fn == Right || fn == Mid) && StrCallAt(text, pos, q, fn) && At(text, m) == ','
    requires PhraseGiven(env, text, q, m, w, rand, f - 2)
    requires if w.Is? then PartsGiven(env, fn, w.value, text, m + 1, end, v, rand, f - 2) else v == w
    ensures PieceGiven(env, text, pos, end, v, rand, f)
  {
    assert OfCall(true) && OfPhrase(true) && OfPart(true);
    SkipAtSolid(text, m);
    assert Part(env, text, pos, rand, f) == StrCall(env, fn, text, q - 1, rand, f - 1);
  }

  lemma EndGivenText(env: Env, text: string, fn: StrFn, t: string, q: nat, m: nat, w: Worth<int>, rand: nat, f: nat)
    requires f > 0 && At(text, m) == ')' && SumGiven(env, text, q, m, w, rand, f - 1)
    ensures PartsGiven(env, fn, t, text, q, m + 1, PartValue(fn, t, w, Is(96)), rand, f)
  {
    assert OfSum(true);
    SkipAtSolid(text, m);
  }

  lemma {:induction false} MidReads(env: Env, text: string, pos: nat, end: nat, a: Piece, rand: nat, f: nat)
    returns (w: Worth<string>)
    requires a.MidOf? && PieceAt(text, pos, end, a) && EnoughPiece(f, a)
    ensures PieceWorth(env, a, w) && PieceGiven(env, text, pos, end, w, rand, f)
    decreases a, 0
  {
    PartFuel(f, a);
    var q, m, m1, m2 := MidAt(text, pos, end, a.t, a.from, a.n);
    StringsOpen();
    StrCallStands(text, pos, q, "MID$(", 2);
    var v := PhraseReads(env, text, q, m, a.t, rand, f - 2);
    var k := SumReads(env, text, m + 1, m1, a.from, rand, f - 3);
    var n := SumReads(env, text, m1 + 1, m2, a.n, rand, f - 3);
    w := MidValue(v, k, n);
    TwoNumbersGiven(env, text, pos, q, m, m1, m2, v, k, n, rand, f);
    MidWorth(env, a, v, k, n);
  }

  lemma MidWorth(env: Env, a: Piece, v: Worth<string>, k: Worth<int>, n: Worth<int>)
    requires a.MidOf? && PhraseWorth(env, a.t, v) && SumWorth(env, a.from, k) && SumWorth(env, a.n, n)
    ensures PieceWorth(env, a, MidValue(v, k, n))
  {
    assert OfWorth(true);
  }

  lemma MidGiven(env: Env, text: string, t: string, q: nat, m1: nat, m2: nat, a: Worth<int>, n: Worth<int>, rand: nat,
                 f: nat)
    requires f > 0 && At(text, m1) == ',' && At(text, m2) == ')'
    requires SumGiven(env, text, q, m1, a, rand, f - 1) && SumGiven(env, text, m1 + 1, m2, n, rand, f - 1)
    ensures PartsGiven(env, Mid, t, text, q, m2 + 1, PartValue(Mid, t, a, n), rand, f)
  {
    assert OfSum(true);
    SkipAtSolid(text, m1);
    SkipAtSolid(text, m2);
  }

  // ---- Sums ----

  /** Behind a product of a sum comes the end of the sum or an operator. */
  lemma SumsFollow(text: string, q: nat, end: nat, rest: Sums)
    requires Stands(text, q, end, WriteSums(rest)) && EndsSum(text, end)
    ensures EndsProduct(text, q)
    ensures rest.NoMore? ==> q == end
  {
    match rest
    case NoMore =>
      StandsNothing(text, q, end);
      assert OfEnd(true);
    case More(op, t, more) =>
      var q1 := SignStands(text, q, end, op, t, more);
  }

  /** An operator of a sum as it is read, and where its right-hand side begins. */
  lemma SignStands(text: string, q: nat, end: nat, op: SumOp, t: Product, more: Sums) returns (q1: nat)
    requires Stands(text, q, end, Sign(op) + (WriteProduct(t) + WriteSums(more)))
    ensures Stands(text, q1, end, WriteProduct(t) + WriteSums(more)) && EndsProduct(text, q)
    ensures AddOp(text, Skip(text, q)) == OpOf(op) && Behind(OpOf(op), text, Skip(text, q)) == q1
  {
    q1 := StandsBoth(text, q, end, Sign(op), WriteProduct(t) + WriteSums(more));
    ProductBegins(t);
    StandsFirst(text, q1, end, WriteProduct(t) + WriteSums(more), WriteProduct(t)[0]);
    SkipAtSolid(text, q1);
    match op
    case Add => SignRead(text, q, q1, '+');
    case Subtract => SignRead(text, q, q1, '-');
    case BitAnd => AndStands(text, q, q1);
    case BitOr => OrStands(text, q, q1);
    case BitXor => XorStands(text, q, q1);
  }

  lemma SignRead(text: string, q: nat, q1: nat, c: char)
    requires Stands(text, q, q1, [c]) && (c == '+' || c == '-')
    ensures q1 == q + 1 && At(text, q) == c && Skip(text, q) == q
  {
    OneMark(text, q, q1, c);
    StandsFirst(text, q, q1, [c], c);
    SkipAtSolid(text, q);
  }

  lemma AndStands(text: string, q: nat, q1: nat)
    requires Stands(text, q, q1, " AND ") && Skip(text, q1) == q1
    ensures At(text, q) == ' ' && Skip(text, q) == q + 1 && At(text, q + 1) == 'A' && Names(text, q + 1, "AND")
    ensures Skip(text, q + 4) == q1
  {
    assert Opened(true);
    var w := text[q..q1];
    assert w == " AND ";
    assert text[q] == w[0] && text[q + 1] == w[1] && text[q + 2] == w[2] && text[q + 3] == w[3] && text[q + 4] == w[4];
    assert Spells(text, q + 1, "AND", 3) && Spells(text, q + 1, "AND", 2) && Spells(text, q + 1, "AND", 1);
    assert Skip(text, q + 5) == q1;
  }

  lemma OrStands(text: string, q: nat, q1: nat)
    requires Stands(text, q, q1, " OR ") && Skip(text, q1) == q1
    ensures At(text, q) == ' ' && Skip(text, q) == q + 1 && At(text, q + 1) == 'O' && Names(text, q + 1, "OR")
    ensures Skip(text, q + 3) == q1 && !Names(text, q + 1, "AND")
  {
    assert Opened(true);
    var w := text[q..q1];
    assert w == " OR ";
    assert text[q] == w[0] && text[q + 1] == w[1] && text[q + 2] == w[2] && text[q + 3] == w[3];
    assert Spells(text, q + 1, "OR", 2) && Spells(text, q + 1, "OR", 1);
    assert Skip(text, q + 4) == q1;
    OtherLetter(text, q + 1, "AND");
  }

  lemma XorStands(text: string, q: nat, q1: nat)
    requires Stands(text, q, q1, " XOR ") && Skip(text, q1) == q1
    ensures At(text, q) == ' ' && Skip(text, q) == q + 1 && At(text, q + 1) == 'X' && Names(text, q + 1, "XOR")
    ensures Skip(text, q + 4) == q1 && !Names(text, q + 1, "AND") && !Names(text, q + 1, "OR")
  {
    assert Opened(true);
    var w := text[q..q1];
    assert w == " XOR ";
    assert text[q] == w[0] && text[q + 1] == w[1] && text[q + 2] == w[2] && text[q + 3] == w[3] && text[q + 4] == w[4];
    assert Spells(text, q + 1, "XOR", 3) && Spells(text, q + 1, "XOR", 2) && Spells(text, q + 1, "XOR", 1);
    assert Skip(text, q + 5) == q1;
    OtherLetter(text, q + 1, "AND");
    OtherLetter(text, q + 1, "OR");
  }

  /** The evaluation of the rest of a sum gives its value. */
  ghost predicate SumsGiven(env: Env, text: string, p: nat, end: nat, rest: Sums, left: int, rand: nat, f: nat) {
    forall x {:trigger OfSums(x)} ::
      OfSums(x) ==> Gives(ExprRest(env, text, p, left, rand, f), SumsValue(env, left, rest), text, end, rand)
  }

  /** Evaluating what was written for a sum gives its value, or is refused for a division by zero. */
  lemma {:induction false} SumReads(env: Env, text: string, pos: nat, end: nat, e: Sum, rand: nat, f: nat)
    returns (w: Worth<int>)
    requires SumAt(text, pos, end, e) && EndsSum(text, end) && EnoughSum(f, e)
    ensures SumWorth(env, e, w) && SumGiven(env, text, pos, end, w, rand, f)
    decreases e, 1
  {
    assert OfFuel(true);
    w := SumValue(env, e);
    var ok, p, q, v := FirstRead(env, text, pos, end, e, rand, f);
    if ok { SumsRead(env, text, p, q, end, e.rest, v, rand, f - 1); }
  }

  /** The first product of a sum. */
  lemma {:induction false} FirstRead(env: Env, text: string, pos: nat, end: nat, e: Sum, rand: nat, f: nat)
    returns (ok: bool, p: nat, q: nat, v: int)
    requires SumAt(text, pos, end, e) && EndsSum(text, end) && f >= SumFuel(e)
    ensures Stands(text, q, end, WriteSums(e.rest)) && (ok ==> Skip(text, p) == Skip(text, q))
    ensures (ok ==> SumsGiven(env, text, p, end, e.rest, v, rand, f - 1)) ==>
              SumGiven(env, text, pos, end, SumValue(env, e), rand, f)
    decreases e, 0
  {
    assert OfText(true);
    q := StandsBoth(text, pos, end, WriteProduct(e.first), WriteSums(e.rest));
    SumsFollow(text, q, end, e.rest);
    ProductReads(env, text, pos, q, e.first, rand, f - 1);
    var o := Term(env, text, pos, rand, f - 1);
    ok := ProductValue(env, e.first).Is?;
    p, v := if ok then o.pos else 0, if ok then o.value else 0;
    FirstGiven(env, text, pos, end, e, rand, f);
  }

  lemma FirstGiven(env: Env, text: string, pos: nat, end: nat, e: Sum, rand: nat, f: nat)
    requires f > 0
    requires var o := Term(env, text, pos, rand, f - 1);
             match ProductValue(env, e.first)
             case Is(v) => o.Done? && o.value == v && o.rand == rand
             case Refused => o.Failed?
             case Unfit => true
    ensures var o := Term(env, text, pos, rand, f - 1);
            (ProductValue(env, e.first).Is? ==> SumsGiven(env, text, o.pos, end, e.rest, o.value, rand, f - 1)) ==>
              SumGiven(env, text, pos, end, SumValue(env, e), rand, f)
  {
    assert OfSums(true);
  }

  lemma {:induction false} SumsRead(env: Env, text: string, p: nat, q: nat, end: nat, rest: Sums, left: int, rand: nat,
                                    f: nat)
    requires Stands(text, q, end, WriteSums(rest)) && EndsSum(text, end)
    requires Skip(text, p) == Skip(text, q) && f >= SumsFuel(rest)
    ensures SumsGiven(env, text, p, end, rest, left, rand, f)
    decreases rest, 1
  {
    match rest
    case NoMore =>
      StandsNothing(text, q, end);
      EndGiven(env, text, p, end, left, rand, f);
    case More(_, _, more) =>
      var ok, p', q', w := NextRead(env, text, p, q, end, rest, left, rand, f);
      if ok { SumsRead(env, text, p', q', end, more, w, rand, f - 1); }
  }

  lemma EndGiven(env: Env, text: string, p: nat, end: nat, left: int, rand: nat, f: nat)
    requires EndsSum(text, end) && Skip(text, p) == Skip(text, end) && f > 0
    ensures SumsGiven(env, text, p, end, NoMore, left, rand, f)
  {
    assert OfEnd(true);
    SkipTwice(text, end);
  }

  /** One product of a sum more, in the evaluation and in the tree. */
  lemma {:induction false} NextRead(env: Env, text: string, p: nat, q: nat, end: nat, rest: Sums, left: int, rand: nat,
                                    f: nat) returns (ok: bool, p': nat, q': nat, w: int)
    requires rest.More? && Stands(text, q, end, WriteSums(rest)) && EndsSum(text, end)
    requires Skip(text, p) == Skip(text, q) && f >= SumsFuel(rest)
    ensures Stands(text, q', end, WriteSums(rest.rest)) && (ok ==> Skip(text, p') == Skip(text, q'))
    ensures (ok ==> SumsGiven(env, text, p', end, rest.rest, w, rand, f - 1)) ==>
              SumsGiven(env, text, p, end, rest, left, rand, f)
    decreases rest, 0
  {
    var q1 := SignStands(text, q, end, rest.op, rest.term, rest.rest);
    q' := StandsBoth(text, q1, end, WriteProduct(rest.term), WriteSums(rest.rest));
    SumsFollow(text, q', end, rest.rest);
    ProductReads(env, text, q1, q', rest.term, rand, f - 1);
    var o := Term(env, text, q1, rand, f - 1);
    ok := ProductValue(env, rest.term).Is?;
    p' := if ok then o.pos else 0;
    w := NextGiven(env, text, p, q1, end, left, rand, f, rest);
  }

  lemma NextGiven(env: Env, text: string, p: nat, q1: nat, end: nat, left: int, rand: nat, f: nat, rest: Sums)
    returns (w: int)
    requires rest.More? && f > 0
    requires AddOp(text, Skip(text, p)) == OpOf(rest.op) && Behind(OpOf(rest.op), text, Skip(text, p)) == q1
    requires var o := Term(env, text, q1, rand, f - 1);
             match ProductValue(env, rest.term)
             case Is(v) => o.Done? && o.value == v && o.rand == rand
             case Refused => o.Failed?
             case Unfit => true
    ensures var o := Term(env, text, q1, rand, f - 1);
            (ProductValue(env, rest.term).Is? ==> SumsGiven(env, text, o.pos, end, rest.rest, w, rand, f - 1)) ==>
              SumsGiven(env, text, p, end, rest, left, rand, f)
  {
    var o := Term(env, text, q1, rand, f - 1);
    w := if o.Done? then Apply(OpOf(rest.op), left, o.value) else 0;
    if o.Done? { SumsAgree(rest.op, left, o.value); }
    assert OfSums(true);
  }

  /** A tree written as text and evaluated has the value of the tree; if the tree is refused, for a division by zero or
      an element that is not there, so is the text. */
  lemma WrittenReads(env: Env, e: Sum, rand: nat)
    ensures exists f: nat :: Gives(Expr(env, WriteSum(e), 0, rand, f), SumValue(env, e), WriteSum(e),
                                   |WriteSum(e)|, rand)
  {
    var w := BodyReads(env, e, rand, SumFuel(e));
    assert OfSum(true) && OfWorth(true);
  }

  /** The same for a string expression. */
  lemma WrittenPhraseReads(env: Env, t: Phrase, rand: nat)
    ensures exists f: nat ::
              Gives(StrExpr(env, WritePhrase(t), 0, rand, f), PhraseValue(env, t), WritePhrase(t),
                    |WritePhrase(t)|, rand)
  {
    var text := WritePhrase(t);
    assert text[0..|text|] == text;
    assert Stands(text, 0, |text|, text);
    assert PhraseAt(text, 0, |text|, t);
    var w := PhraseReads(env, text, 0, |text|, t, rand, PhraseFuel(t));
    assert OfPhrase(true) && OfWorth(true);
  }
}
