/** BASIC source text: characters, names, numbers and strings. */
module BasicText {
  const MAX_STRING: nat := 95
  const NUL: char := '\0'
  const WORD32: nat := 0x1_0000_0000

  /** A character of a text that ends with NUL. */
  function At(text: string, pos: nat): char { if pos < |text| then text[pos] else NUL }

  predicate IsSpace(c: char) { c == ' ' || c == '\t' }

  predicate IsDigit(c: char) { '0' <= c <= '9' }

  predicate IsAlpha(c: char) { 'a' <= c <= 'z' || 'A' <= c <= 'Z' }

  predicate IsTail(c: char) { IsAlpha(c) || IsDigit(c) || c == '_' }

  function Up(c: char): char { if 'a' <= c <= 'z' then c - 'a' + 'A' else c }

  function Letter(c: char): (i: nat)
    requires IsAlpha(c)
    ensures i < 26
  {
    (Up(c) - 'A') as nat
  }

  /** Where the blanks from a position on end. */
  function Skip(text: string, pos: nat): (r: nat)
    ensures pos <= r && (pos <= |text| ==> r <= |text|)
    decreases |text| - pos
  {
    if pos < |text| && IsSpace(text[pos]) then Skip(text, pos + 1) else pos
  }

  lemma {:induction false} SkipIs(text: string, pos: nat)
    ensures !IsSpace(At(text, Skip(text, pos))) && forall i :: pos <= i < Skip(text, pos) ==> IsSpace(At(text, i))
    decreases |text| - pos
  {
    if pos < |text| && IsSpace(text[pos]) { SkipIs(text, pos + 1); }
  }

  method SkipSpaces(text: string, pos: nat) returns (r: nat)
    ensures r == Skip(text, pos)
  {
    r := pos;
    while IsSpace(At(text, r))
      invariant Skip(text, r) == Skip(text, pos) && pos <= r
      decreases |text| - r
    {
      r := r + 1;
    }
  }

  /** Where a name that has begun ends. */
  function TailEnd(text: string, pos: nat): (r: nat)
    ensures pos <= r
    decreases |text| - pos
  {
    if pos < |text| && IsTail(text[pos]) then TailEnd(text, pos + 1) else pos
  }

  /** A name, from its i-th character on, stands at a position, in capitals or not. */
  predicate Spells(text: string, pos: nat, name: string, i: nat)
    decreases |name| - i, |text|
  {
    i >= |name| || (Up(At(text, pos + i)) == Up(name[i]) && Spells(text, pos, name, i + 1))
  }

  /** A name stands at a position, and no longer one. */
  predicate Names(text: string, pos: nat, name: string) {
    Spells(text, pos, name, 0) && !IsTail(At(text, pos + |name|))
  }

  method NameMatches(text: string, pos: nat, name: string) returns (r: bool)
    ensures r == Names(text, pos, name)
  {
    for i := 0 to |name|
      invariant Spells(text, pos, name, 0) == Spells(text, pos, name, i)
    {
      if Up(At(text, pos + i)) != Up(name[i]) { return false; }
    }
    r := !IsTail(At(text, pos + |name|));
  }

  // ---- Numbers ----

  /** A number cut down to 32 bits, in two's complement. */
  function I32(x: int): int { (x + 0x8000_0000) % WORD32 - 0x8000_0000 }

  lemma I32Is(x: int)
    ensures -0x8000_0000 <= I32(x) < 0x8000_0000 && (I32(x) - x) % WORD32 == 0
  {
  }

  function Digit(c: char): (d: nat)
    requires IsDigit(c)
    ensures d < 10
  {
    (c - '0') as nat
  }

  /** The number that digits from a position on stand for, following an initial number; and where they end. */
  function Digits(text: string, pos: nat, v: int): (r: (int, nat))
    ensures pos <= r.1
    decreases |text| - pos
  {
    if pos < |text| && IsDigit(text[pos]) then Digits(text, pos + 1, I32(v * 10 + Digit(text[pos]))) else (v, pos)
  }

  datatype Number = Number(value: int, end: nat) | NoNumber

  /** A number with an optional minus sign. */
  function ReadInt(text: string, pos: nat): (r: Number)
    ensures r.Number? ==> pos <= r.end
  {
    var s := Skip(text, pos);
    var t := if At(text, s) == '-' then s + 1 else s;
    if !IsDigit(At(text, t)) then NoNumber
    else var d := Digits(text, t, 0); Number(I32(d.0 * if t > s then -1 else 1), d.1)
  }

  method ParseInt(text: string, pos: nat) returns (r: Number)
    ensures r == ReadInt(text, pos)
  {
    var s := SkipSpaces(text, pos);
    var sign := 1;
    if At(text, s) == '-' { sign, s := -1, s + 1; }
    if !IsDigit(At(text, s)) { return NoNumber; }
    var v, t := 0, s;
    while IsDigit(At(text, t))
      invariant Digits(text, t, v) == Digits(text, s, 0)
      decreases |text| - t
    {
      v, t := I32(v * 10 + Digit(At(text, t))), t + 1;
    }
    r := Number(I32(v * sign), t);
  }

  function DigitChar(d: nat): (c: char)
    requires d < 10
    ensures IsDigit(c) && Digit(c) == d
  {
    '0' + d as char
  }

  /** The decimal digits of a number. */
  function Decimal(n: nat): (s: string)
    ensures |s| > 0 && forall i {:trigger s[i]} :: 0 <= i < |s| ==> IsDigit(s[i])
  {
    (if n < 10 then "" else Decimal(n / 10)) + [DigitChar(n % 10)]
  }

  function Text(v: int): string { if v < 0 then "-" + Decimal(-v) else Decimal(v) }

  /** Digits of a number, or nothing for zero. */
  function DigitsLeft(n: nat): string { if n == 0 then "" else Decimal(n) }

  lemma DecimalStep(n: nat)
    ensures Decimal(n) == DigitsLeft(n / 10) + [DigitChar(n % 10)]
  {
  }

  /** Writes a number as text: its digits from the last to the first, and then in reverse. */
  method IntToText(v: int) returns (s: string)
    ensures s == Text(v)
  {
    if v == 0 {
      DecimalStep(0);
      return "0";
    }
    var uv: nat := if v < 0 then -v else v;
    var digits := "";
    ghost var all := uv;
    while uv > 0
      invariant Decimal(all) == DigitsLeft(uv) + digits
    {
      DecimalStep(uv);
      Regroup(DigitsLeft(uv / 10), DigitChar(uv % 10), digits);
      digits := [DigitChar(uv % 10)] + digits;
      uv := uv / 10;
    }
    assert "" + digits == digits;
    s := if v < 0 then "-" + digits else digits;
  }

  lemma Regroup(a: string, c: char, b: string)
    ensures (a + [c]) + b == a + ([c] + b)
  {
  }

  // ---- Writing a number and reading it back ----

  function ValueOf(s: string): nat
    requires forall i {:trigger s[i]} :: 0 <= i < |s| ==> IsDigit(s[i])
  {
    if |s| == 0 then 0 else ValueOf(s[..|s| - 1]) * 10 + Digit(s[|s| - 1])
  }

  lemma {:induction false} DecimalValue(n: nat)
    ensures ValueOf(Decimal(n)) == n
  {
    var s := Decimal(n);
    if n < 10 {
      assert s[..0] == "" && s == [DigitChar(n)];
    } else {
      DecimalValue(n / 10);
      assert s[..|s| - 1] == Decimal(n / 10);
    }
  }

  lemma WrapStep(x: int, d: int)
    ensures I32(I32(x) * 10 + d) == I32(x * 10 + d)
  {
    I32Is(x);
    Congruent(I32(x), x);
    var k := (I32(x) - x) / WORD32;
    assert I32(x) * 10 + d == (x * 10 + d) + (10 * k) * WORD32;
    WrapShift(x * 10 + d, 10 * k);
  }

  lemma Congruent(a: int, b: int)
    requires (a - b) % WORD32 == 0
    ensures a == b + (a - b) / WORD32 * WORD32
  {
  }

  lemma WrapShift(x: int, k: int)
    ensures I32(x + k * WORD32) == I32(x)
  {
  }

  /** Reading digits from the left gives their value, cut down to 32 bits. */
  lemma {:induction false} DigitsRead(text: string, a: nat, k: nat)
    requires a <= k <= |text| && forall i {:trigger text[i]} :: a <= i < |text| ==> IsDigit(text[i])
    ensures Digits(text, a, 0) == Digits(text, k, I32(ValueOf(text[a..k])))
    decreases k - a
  {
    if k > a {
      DigitsRead(text, a, k - 1);
      assert text[a..k][..k - 1 - a] == text[a..k - 1];
      WrapStep(ValueOf(text[a..k - 1]), Digit(text[k - 1]));
    }
  }

  /** Reading a text of digits, or of digits behind a minus sign. */
  lemma NumberRead(t: string, a: nat)
    requires a < |t| && (a == 0 || (a == 1 && t[0] == '-')) && forall i {:trigger t[i]} :: a <= i < |t| ==>
               IsDigit(t[i])
    ensures ReadInt(t, 0) == Number(I32(I32(ValueOf(t[a..])) * if a == 1 then -1 else 1), |t|)
  {
    assert IsDigit(t[a]);
    assert Skip(t, 0) == 0;
    DigitsRead(t, a, |t|);
    assert t[a..|t|] == t[a..];
  }

  lemma Negated(n: nat)
    requires n <= 0x8000_0000
    ensures I32(I32(n) * -1) == 0 - n && (n < 0x8000_0000 ==> I32(I32(n) * 1) == n)
  {
  }

  /** A number written as text reads as that number. */
  lemma TextReadsBack(v: int)
    requires -0x8000_0000 <= v < 0x8000_0000
    ensures ReadInt(Text(v), 0) == Number(v, |Text(v)|)
  {
    var t := Text(v);
    if v < 0 {
      var n: nat := -v;
      var d := Decimal(n);
      forall i {:trigger t[i]} | 1 <= i < |t| ensures IsDigit(t[i]) { assert t[i] == d[i - 1]; }
      NumberRead(t, 1);
      assert t[1..] == d;
      DecimalValue(n);
      Negated(n);
    } else {
      Negated(v);
      NumberRead(t, 0);
      assert t[0..] == Decimal(v);
      DecimalValue(v);
    }
  }
}
