/** The number printers and parsers of stdlib.c. */
module Numbers {
  import opened Words
  import opened CStrings
  import opened Search

  // ---------------------------------------------------------------- what the strings mean

  /** The character _ultoa stores for a digit: '0' onwards, past '9' moved to the letters. */
  function Dig(d: nat): Byte
  {
    var b := (48 + d) % 256;
    if SChar(b) > 57 then (b + 7) % 256 else b
  }

  /** The digits of `v`, most significant first. */
  function Digits(v: nat, base: int): (s: seq<Byte>)
    requires base >= 2
    ensures |s| > 0
    decreases v
  {
    (if v < base then [] else DivSmaller(v, base); Digits(v / base, base)) + [Dig(v % base)]
  }

  lemma Times(base: int, q: nat)
    requires base >= 2
    ensures base * q >= 2 * q && (q >= 1 ==> base * q >= base)
  {
    if q >= 1 { assert base * q == base + base * (q - 1); }
  }

  lemma DivSmaller(v: nat, base: int)
    requires base >= 2 && v > 0
    ensures 0 <= v / base < v && v / base <= v / 2 && (v >= base ==> v / base > 0) && (v < base ==> v / base == 0)
  {
    var q, p, r := v / base, base * (v / base), v % base;
    assert v == p + r && 0 <= r < base;
    Times(base, q);
    assert p >= 2 * q && (q >= 1 ==> p >= base);
  }

  lemma DigitsStep(v: nat, base: int)
    requires base >= 2
    ensures v / base == 0 ==> Digits(v, base) == [Dig(v % base)]
    ensures v / base > 0 ==> Digits(v, base) == Digits(v / base, base) + [Dig(v % base)] && v / base < v
    ensures v / base >= 0
  {
    if v > 0 { DivSmaller(v, base); } else { ZeroDiv(base); }
  }

  lemma ZeroDiv(base: int)
    requires base >= 2
    ensures 0 / base == 0
  {
  }

  function Pow2(n: nat): nat { if n == 0 then 1 else 2 * Pow2(n - 1) }

  /** A number below 2^n needs at most n digits in any base from 2 on. */
  lemma {:induction false} DigitsFit(v: nat, base: int, n: nat)
    requires base >= 2 && n > 0 && v < Pow2(n)
    ensures |Digits(v, base)| <= n
  {
    if v >= base {
      DivSmaller(v, base);
      assert n > 1;
      DigitsFit(v / base, base, n - 1);
    }
  }

  function DigitVal(b: Byte): int { if b >= 65 then b - 55 else b - 48 }

  /** The number a digit string denotes. */
  function Positional(s: seq<Byte>, base: int): int
  {
    if s == [] then 0 else Positional(s[..|s| - 1], base) * base + DigitVal(s[|s| - 1])
  }

  /** Digits are '0' to '9' and then capital letters. */
  lemma DigitCharacters(d: nat)
    requires d < 36
    ensures Dig(d) == if d < 10 then '0' as int + d else 'A' as int + (d - 10)
  {
  }

  lemma DigVal(d: nat)
    requires d < 36
    ensures DigitVal(Dig(d)) == d && (d > 0 ==> Dig(d) != 48)
  {
  }

  lemma Euclid(v: nat, base: int)
    requires base >= 2
    ensures (v / base) * base + v % base == v && v / base >= 0 && (v / base == 0 ==> v % base == v)
  {
    var q, p := v / base, base * (v / base);
    assert v == p + v % base && p == q * base;
    Times(base, q);
  }

  /** In every base from 2 to 36 the printed digits denote the value, with no leading zero. */
  lemma {:induction false} DigitsDenote(v: nat, base: int)
    requires 2 <= base <= 36
    ensures Positional(Digits(v, base), base) == v && (v > 0 ==> Digits(v, base)[0] != 48)
    decreases v
  {
    hide Digits, Dig, Positional;
    var q, d := v / base, v % base;
    DigitsStep(v, base);
    Euclid(v, base);
    DigVal(d);
    if q > 0 {
      DigitsDenote(q, base);
      LastDigit(Digits(q, base), Dig(d), base);
    } else {
      OneDigit(Dig(d), base);
    }
  }

  lemma OneDigit(b: Byte, base: int)
    ensures Positional([b], base) == DigitVal(b)
  {
    assert [b][..0] == [];
  }

  lemma LastDigit(s: seq<Byte>, b: Byte, base: int)
    ensures Positional(s + [b], base) == Positional(s, base) * base + DigitVal(b)
  {
    assert (s + [b])[..|s|] == s;
  }

  predicate IsDec(b: Byte) { 48 <= b <= 57 }

  /** The digit loop of atol, in 32-bit arithmetic. */
  function Dec(s: seq<Byte>, acc: Word): Word
  {
    if s == [] || !IsDec(s[0]) then acc else Dec(s[1..], U32(10 * acc + (s[0] - 48)))
  }

  function SkipBlanks(s: seq<Byte>): seq<Byte>
  {
    if s != [] && s[0] == 32 then SkipBlanks(s[1..]) else s
  }

  /** atol of a C string's characters. */
  function AToL(s: seq<Byte>): Word
  {
    var t := SkipBlanks(s);
    if t != [] && t[0] == 45 then U32(WORD - Dec(t[1..], 0))
    else Dec(if t != [] && t[0] == 43 then t[1..] else t, 0)
  }

  /** The signed reading of a word, as atoi returns it. */
  function Int32(w: Word): int { if w < 0x8000_0000 then w else w - WORD }

  /** The value of a hexadecimal character, or -1. */
  function HexVal(b: Byte): int
  {
    if 48 <= b <= 57 then b - 48
    else if 65 <= b <= 70 then b - 55
    else if 97 <= b <= 102 then b - 87
    else -1
  }

  predicate AllHex(s: seq<Byte>) { forall k :: 0 <= k < |s| ==> HexVal(s[k]) >= 0 }

  function Hex(s: seq<Byte>, acc: Word): Word
  {
    if s == [] then acc else Hex(s[1..], if HexVal(s[0]) < 0 then acc else U32(16 * acc + HexVal(s[0])))
  }

  function AToX(s: seq<Byte>): Word { if AllHex(s) then Hex(s, 0) else 0 }

  // ---------------------------------------------------------------- round trips

  lemma {:induction false} DecAppend(s: seq<Byte>, b: Byte, acc: Word)
    requires (forall k :: 0 <= k < |s| ==> IsDec(s[k])) && IsDec(b)
    ensures Dec(s + [b], acc) == U32(10 * Dec(s, acc) + (b - 48))
  {
    if s == [] {
      assert (s + [b])[1..] == [];
    } else {
      assert (s + [b])[1..] == s[1..] + [b];
      DecAppend(s[1..], b, U32(10 * acc + (s[0] - 48)));
    }
  }

  lemma DigReads(d: nat)
    requires d < 16
    ensures HexVal(Dig(d)) == d && (d < 10 ==> Dig(d) == 48 + d) && Dig(d) == ItoaDig(d)
  {
  }

  lemma {:induction false} DecOfDigits(v: Word)
    ensures Dec(Digits(v, 10), 0) == v && forall k :: 0 <= k < |Digits(v, 10)| ==> IsDec(Digits(v, 10)[k])
    decreases v
  {
    DigReads(v % 10);
    hide Dig, HexVal;
    if v >= 10 {
      DecOfDigits(v / 10);
      DecAppend(Digits(v / 10, 10), Dig(v % 10), 0);
    }
  }

  /** atol reads back what ltoa prints in base 10, for every 32-bit value. */
  lemma DecimalRoundTrip(v: Word)
    ensures AToL(Digits(v, 10)) == v
  {
    DecOfDigits(v);
    assert IsDec(Digits(v, 10)[0]);
  }

  lemma TimesTenWraps(p: int, d: int)
    ensures U32(10 * U32(p) + d) == U32(10 * p + d)
  {
    var q := p / WORD;
    assert p == WORD * q + U32(p);
    Wraps(10 * U32(p) + d, 10 * q);
  }

  lemma TimesSixteenWraps(p: int, d: int)
    ensures U32(16 * U32(p) + d) == U32(16 * p + d)
  {
    var q := p / WORD;
    assert p == WORD * q + U32(p);
    Wraps(16 * U32(p) + d, 16 * q);
  }

  /** atol's digit loop computes the number its digits denote, modulo 32 bits. */
  lemma {:induction false} DecIsPositional(s: seq<Byte>)
    requires forall k :: 0 <= k < |s| ==> IsDec(s[k])
    ensures Positional(s, 10) >= 0 && Dec(s, 0) == U32(Positional(s, 10))
    decreases |s|
  {
    if s != [] {
      var n := |s| - 1;
      var front, b := s[..n], s[n];
      DecIsPositional(front);
      assert s == front + [b];
      DecAppend(front, b, 0);
      LastDigit(front, b, 10);
      TimesTenWraps(Positional(front, 10), b - 48);
      hide Dec, Positional, U32;
    }
  }

  /** A string of digits reads as the number it denotes modulo 32 bits, however long it is, leading zeros and all. */
  lemma DigitsRead(s: seq<Byte>)
    requires s != [] && forall k :: 0 <= k < |s| ==> IsDec(s[k])
    ensures Positional(s, 10) >= 0 && AToL(s) == U32(Positional(s, 10))
    ensures Positional(s, 10) < WORD ==> AToL(s) == Positional(s, 10)
  {
    DecIsPositional(s);
    hide Dec, Positional;
    assert IsDec(s[0]);
  }

  function Blanks(n: nat): (s: seq<Byte>)
    ensures |s| == n && forall k :: 0 <= k < n ==> s[k] == 32
  {
    seq(n, k => 32)
  }

  lemma {:induction false} BlanksSkipped(n: nat, t: seq<Byte>)
    requires t == [] || t[0] != 32
    ensures SkipBlanks(Blanks(n) + t) == t
  {
    if n == 0 {
      assert Blanks(0) + t == t;
    } else {
      assert (Blanks(n) + t)[1..] == Blanks(n - 1) + t;
      BlanksSkipped(n - 1, t);
    }
  }

  lemma {:induction false} DecStops(ds: seq<Byte>, rest: seq<Byte>, acc: Word)
    requires (forall k :: 0 <= k < |ds| ==> IsDec(ds[k])) && (rest == [] || !IsDec(rest[0]))
    ensures Dec(ds + rest, acc) == Dec(ds, acc)
  {
    if ds == [] {
      assert ds + rest == rest;
    } else {
      assert (ds + rest)[1..] == ds[1..] + rest;
      DecStops(ds[1..], rest, U32(10 * acc + (ds[0] - 48)));
    }
  }

  /** atol skips blanks, takes at most one sign, and reads digits up to the first other character; without digits, 0. */
  lemma AToLReads(n: nat, sign: seq<Byte>, ds: seq<Byte>, rest: seq<Byte>)
    requires sign == [] || sign == [43] || sign == [45]
    requires (forall k :: 0 <= k < |ds| ==> IsDec(ds[k])) && (rest == [] || !IsDec(rest[0]))
    requires sign == [] && ds == [] && rest != [] ==> rest[0] != 32 && rest[0] != 43 && rest[0] != 45
    ensures AToL(Blanks(n) + sign + ds + rest) == U32(if sign == [45] then -Positional(ds, 10) else Positional(ds, 10))
  {
    hide Dec, SkipBlanks, Positional, U32, Blanks, AToL;
    var u := ds + rest;
    assert ds != [] ==> IsDec(ds[0]);
    assert Blanks(n) + sign + ds + rest == Blanks(n) + (sign + u);
    BlanksSkipped(n, sign + u);
    SignRead(Blanks(n) + (sign + u), sign, u);
    DecStops(ds, rest, 0);
    DecIsPositional(ds);
    Negated(Positional(ds, 10));
  }

  lemma SignRead(s: seq<Byte>, sign: seq<Byte>, u: seq<Byte>)
    requires SkipBlanks(s) == sign + u && (sign == [] || sign == [43] || sign == [45])
    requires sign == [] && u != [] ==> u[0] != 43 && u[0] != 45
    ensures AToL(s) == if sign == [45] then U32(WORD - Dec(u, 0)) else Dec(u, 0)
  {
    hide Dec, SkipBlanks, U32;
    if sign == [] { assert sign + u == u; } else { assert (sign + u)[1..] == u; }
  }

  lemma Negated(p: int)
    ensures U32(WORD - U32(p)) == U32(-p)
  {
    U32Early(p, WORD);
    Wraps(-p, 1);
  }

  lemma {:induction false} ThreeDigitsDenote(s: seq<Byte>)
    requires |s| <= 3 && forall k :: 0 <= k < |s| ==> IsDec(s[k])
    ensures 0 <= Positional(s, 10) < if |s| == 3 then 1000 else if |s| == 2 then 100 else if |s| == 1 then 10 else 1
    decreases |s|
  {
    if s != [] {
      assert IsDec(s[|s| - 1]);
      ThreeDigitsDenote(s[..|s| - 1]);
    }
  }

  lemma NegativeReads(v: Word)
    ensures AToL([45] + Digits(v, 10)) == U32(WORD - v)
  {
    DecOfDigits(v);
    assert ([45] + Digits(v, 10))[1..] == Digits(v, 10);
  }

  lemma {:induction false} HexAppend(s: seq<Byte>, b: Byte, acc: Word)
    requires AllHex(s) && HexVal(b) >= 0
    ensures AllHex(s + [b]) && Hex(s + [b], acc) == U32(16 * Hex(s, acc) + HexVal(b))
  {
    if s == [] {
      assert (s + [b])[1..] == [];
    } else {
      assert (s + [b])[1..] == s[1..] + [b];
      HexAppend(s[1..], b, U32(16 * acc + HexVal(s[0])));
    }
  }

  lemma {:induction false} HexOfDigits(v: Word)
    ensures AllHex(Digits(v, 16)) && Hex(Digits(v, 16), 0) == v
    decreases v
  {
    DigReads(v % 16);
    hide Dig, HexVal;
    if v >= 16 {
      HexOfDigits(v / 16);
      HexAppend(Digits(v / 16, 16), Dig(v % 16), 0);
    }
  }

  /** atox reads back what ltoa prints in base 16, for every 32-bit value. */
  lemma HexRoundTrip(v: Word)
    ensures AToX(Digits(v, 16)) == v
  {
    HexOfDigits(v);
  }

  /** The characters '0' to '9', 'A' to 'F' and 'a' to 'f'. */
  predicate IsHex(b: Byte) { 48 <= b <= 57 || 65 <= b <= 70 || 97 <= b <= 102 }

  function Capital(b: Byte): Byte { if 97 <= b <= 122 then b - 32 else b }

  function Capitals(s: seq<Byte>): (r: seq<Byte>)
    ensures |r| == |s| && forall k :: 0 <= k < |s| ==> r[k] == Capital(s[k])
  {
    seq(|s|, k requires 0 <= k < |s| => Capital(s[k]))
  }

  lemma HexValIs(b: Byte)
    ensures HexVal(b) == (if IsHex(b) then DigitVal(Capital(b)) else -1) && (IsHex(b) ==> HexVal(b) >= 0)
  {
  }

  lemma CapitalsAppend(s: seq<Byte>, b: Byte)
    ensures Capitals(s + [b]) == Capitals(s) + [Capital(b)]
  {
  }

  lemma {:induction false} HexIsPositional(s: seq<Byte>)
    requires forall k :: 0 <= k < |s| ==> IsHex(s[k])
    ensures AllHex(s) && Hex(s, 0) == U32(Positional(Capitals(s), 16))
    decreases |s|
  {
    if s != [] {
      hide Hex, Positional, U32, HexVal, DigitVal, Capital, Capitals, AllHex;
      var n := |s| - 1;
      var front, b := s[..n], s[n];
      assert IsHex(b) && s == front + [b];
      HexIsPositional(front);
      CapitalsAppend(front, b);
      HexValIs(b);
      HexAppend(front, b, 0);
      LastDigit(Capitals(front), Capital(b), 16);
      TimesSixteenWraps(Positional(Capitals(front), 16), DigitVal(Capital(b)));
    }
  }

  /** atox reads hexadecimal characters, small and capital letters alike, as the number they denote modulo 32 bits, and
      gives 0 for a string with any other character in it. */
  lemma HexRead(s: seq<Byte>)
    ensures AToX(s) == if forall k :: 0 <= k < |s| ==> IsHex(s[k]) then U32(Positional(Capitals(s), 16)) else 0
  {
    if forall k :: 0 <= k < |s| ==> IsHex(s[k]) {
      HexIsPositional(s);
    } else {
      var k :| 0 <= k < |s| && !IsHex(s[k]);
      HexValIs(s[k]);
    }
  }

  /** The low `n` hexadecimal digits of `v`, as xtoa prints them. */
  function FixedHex(v: Word, n: nat): (s: seq<Byte>)
    ensures |s| == n
  {
    if n == 0 then [] else FixedHex(v / 16, n - 1) + [Dig(v % 16)]
  }

  function Pow16(n: nat): nat { if n == 0 then 1 else 16 * Pow16(n - 1) }

  lemma {:induction false} FixedHexReads(v: Word, n: nat)
    requires v < Pow16(n)
    ensures AllHex(FixedHex(v, n)) && Hex(FixedHex(v, n), 0) == v
  {
    DigReads(v % 16);
    hide Dig, HexVal;
    if n > 0 {
      FixedHexReads(v / 16, n - 1);
      HexAppend(FixedHex(v / 16, n - 1), Dig(v % 16), 0);
    }
  }

  /** atox reads back what xtoa prints with four bytes, for every 32-bit value. */
  lemma FixedHexRoundTrip(v: Word)
    ensures AToX(FixedHex(v, 8)) == v
  {
    assert Pow16(8) == WORD;
    FixedHexReads(v, 8);
  }

  // ---------------------------------------------------------------- itoa

  function CDiv(n: int, base: int): int
    requires base >= 2
  {
    if n >= 0 then n / base else -((-n) / base)
  }

  function CMod(n: int, base: int): int
    requires base >= 2
  {
    if n >= 0 then n % base else -((-n) % base)
  }

  /** abs in 32-bit arithmetic: the most negative value is its own absolute value. */
  function Abs32(n: int): int
    requires -0x8000_0000 <= n < 0x8000_0000
  {
    if n >= 0 then n else if n == -0x8000_0000 then n else -n
  }

  function ItoaDig(r: int): Byte
    requires -48 <= r < 72
  {
    if r >= 10 then 65 + (r - 10) else 48 + r
  }

  function Magnitude(n: int): nat { if n < 0 then -n else n }

  /** The characters itoa stores before it turns the buffer round. */
  function Backwards(n: int, base: int): seq<Byte>
    requires 2 <= base <= 32
    decreases Magnitude(n)
  {
    if n == 0 then []
    else [ItoaDig(CMod(n, base))] + (ShrinksC(n, base); Backwards(CDiv(n, base), base))
  }

  lemma ShrinksC(n: int, base: int)
    requires n != 0 && base >= 2
    ensures Magnitude(CDiv(n, base)) < Magnitude(n)
  {
    DivSmaller(Magnitude(n), base);
  }

  function Reversed<T>(s: seq<T>): (r: seq<T>)
    ensures |r| == |s|
  {
    if s == [] then [] else Reversed(s[1..]) + [s[0]]
  }

  lemma {:induction false} ReversedAt<T>(s: seq<T>, k: nat)
    requires k < |s|
    ensures Reversed(s)[k] == s[|s| - 1 - k]
  {
    if k < |s| - 1 { ReversedAt(s[1..], k); }
  }

  /** The characters of itoa, before the buffer is turned round. */
  function Unturned(num: int, base: int): seq<Byte>
    requires -0x8000_0000 <= num < 0x8000_0000 && 2 <= base <= 32
  {
    var n := Abs32(num);
    (if n == 0 then [48] else Backwards(n, base)) + if num < 0 && base == 10 then [45] else []
  }

  /** The string itoa leaves. */
  function IToA(num: int, base: int): seq<Byte>
    requires -0x8000_0000 <= num < 0x8000_0000 && 2 <= base <= 32
  {
    Reversed(Unturned(num, base))
  }

  lemma {:induction false} BackwardsIsDigits(n: nat, base: int)
    requires n > 0 && 2 <= base <= 32
    ensures Reversed(Backwards(n, base)) == Digits(n, base)
    decreases n
  {
    DivSmaller(n, base);
    DigSame(n % base);
    hide Dig, ItoaDig;
    var s := Backwards(n, base);
    assert s == [ItoaDig(n % base)] + Backwards(n / base, base);
    assert s[1..] == Backwards(n / base, base);
    if n >= base { BackwardsIsDigits(n / base, base); }
  }

  lemma DigSame(d: nat)
    requires d < 32
    ensures Dig(d) == ItoaDig(d)
  {
  }

  lemma ReversedAppend<T>(s: seq<T>, x: T)
    ensures Reversed(s + [x]) == [x] + Reversed(s)
  {
    var r, q := Reversed(s + [x]), [x] + Reversed(s);
    forall k | 0 <= k < |r| ensures r[k] == q[k] {
      ReversedAt(s + [x], k);
      if k > 0 { ReversedAt(s, k - 1); }
    }
  }

  /** What itoa prints for every value but the most negative: a sign in base 10 only, then the digits. */
  lemma ItoaPrints(n: int, base: int)
    requires -0x8000_0000 < n < 0x8000_0000 && 2 <= base <= 32
    ensures IToA(n, base) == if n < 0 && base == 10 then [45] + Digits(-n, base) else Digits(Magnitude(n), base)
  {
    if n == 0 {
      assert Reversed([48]) == [48];
      assert Unturned(0, base) == [48];
      DigitsStep(0, base);
      ZeroDiv(base);
      DigSame(0);
    } else {
      var m := Magnitude(n);
      BackwardsIsDigits(m, base);
      hide Digits, Backwards;
      if n < 0 && base == 10 {
        ReversedAppend(Backwards(m, 10), 45);
      } else {
        assert Unturned(n, base) == Backwards(m, base);
      }
    }
  }

  /** What itoa stores for a negative number, digit for digit: as far below '0' as the digit is above. */
  lemma {:induction false} BackwardsBelow(n: int, base: int, k: nat)
    requires n < 0 && 2 <= base <= 32
    ensures |Backwards(n, base)| == |Backwards(-n, base)|
    ensures k < |Backwards(n, base)| ==> Backwards(n, base)[k] == 48 - DigitVal(Backwards(-n, base)[k])
    decreases -n
  {
    hide DigitVal;
    var q := CDiv(n, base);
    DivSmaller(-n, base);
    DigitBelow((-n) % base);
    assert q == -CDiv(-n, base) && CMod(n, base) == -CMod(-n, base);
    if q < 0 { BackwardsBelow(q, base, if k > 0 then k - 1 else 0); }
  }

  lemma DigitBelow(d: int)
    requires 0 <= d < 32
    ensures ItoaDig(-d) == 48 - DigitVal(ItoaDig(d))
  {
  }

  lemma ItoaMostNegativeTurned(base: int)
    requires 2 <= base <= 32
    ensures IToA(-0x8000_0000, base) == (if base == 10 then [45] else []) + Reversed(Backwards(-0x8000_0000, base))
  {
    hide Backwards, Reversed;
    var b := Backwards(-0x8000_0000, base);
    if base == 10 { ReversedAppend(b, 45); } else { assert b + [] == b && [] + Reversed(b) == Reversed(b); }
  }

  /** So the most negative value prints, in every base, as its magnitude with every digit that far below '0'. */
  lemma ItoaMostNegativeIs(base: int, k: nat)
    requires 2 <= base <= 32
    ensures var ds, s := Digits(0x8000_0000, base), IToA(-0x8000_0000, base);
            var at := if base == 10 then 1 else 0;
      |s| == |ds| + at && (base == 10 ==> s[0] == 45) && (k < |ds| ==> s[k + at] == 48 - DigitVal(ds[k]))
  {
    hide Backwards, Digits, DigitVal, IToA, Reversed;
    var b, p := Backwards(-0x8000_0000, base), Backwards(0x8000_0000, base);
    BackwardsIsDigits(0x8000_0000, base);
    ItoaMostNegativeTurned(base);
    BackwardsBelow(-0x8000_0000, base, if k < |p| then |p| - 1 - k else 0);
    if k < |p| {
      ReversedAt(p, k);
      ReversedAt(b, k);
    }
  }

  /** The string itoa leaves for the most negative value starts with '-' and then a full stop. */
  lemma ItoaMostNegative()
    ensures |IToA(-0x8000_0000, 10)| > 1 && IToA(-0x8000_0000, 10)[0] == 45 && IToA(-0x8000_0000, 10)[1] == 46
  {
    var b := Unturned(-0x8000_0000, 10);
    MostNegativeDigits();
    ReversedAt(b, 0);
    ReversedAt(b, 1);
  }

  lemma BackStep(n: int, q: int)
    requires n < 0 && q == -((-n) / 10)
    ensures Backwards(n, 10) == [ItoaDig(CMod(n, 10))] + Backwards(q, 10)
  {
  }

  lemma MostNegativeDigits()
    ensures |Backwards(-0x8000_0000, 10)| == 10 && Backwards(-0x8000_0000, 10)[9] == 46
  {
    BackStep(-2147483648, -214748364);
    BackStep(-214748364, -21474836);
    BackStep(-21474836, -2147483);
    BackStep(-2147483, -214748);
    BackStep(-214748, -21474);
    BackStep(-21474, -2147);
    BackStep(-2147, -214);
    BackStep(-214, -21);
    BackStep(-21, -2);
    BackStep(-2, 0);
  }

  lemma MostNegativeReads()
    ensures AToL(IToA(-0x8000_0000, 10)) == 0
  {
    ItoaMostNegative();
    SignOnly(IToA(-0x8000_0000, 10));
  }

  lemma SignOnly(s: seq<Byte>)
    requires |s| > 1 && s[0] == 45 && s[1] == 46
    ensures AToL(s) == 0
  {
    assert SkipBlanks(s) == s;
    assert s[1..][0] == 46;
  }

  /** atoi reads back what itoa prints if and only if the value is not the most negative one. */
  lemma ItoaRoundTripIff(n: int)
    requires -0x8000_0000 <= n < 0x8000_0000
    ensures Int32(AToL(IToA(n, 10))) == n <==> n != -0x8000_0000
  {
    hide IToA, AToL, Digits;
    if n == -0x8000_0000 {
      MostNegativeReads();
    } else {
      ItoaPrints(n, 10);
      if n < 0 { NegativeReads(-n); } else { DecimalRoundTrip(n); }
    }
  }

  // ---------------------------------------------------------------- in a buffer

  predicate NoNul(s: seq<Byte>) { forall k :: 0 <= k < |s| ==> s[k] != 0 }

  lemma Terminated(s: seq<Byte>, tail: seq<Byte>)
    requires NoNul(s)
    ensures CStr(s + [0] + tail) == s
  {
    FirstIs(s + [0] + tail, IsZero(), |s|);
  }

  lemma {:induction false} BackwardsNoNul(n: int, base: int)
    requires 2 <= base <= 32
    ensures NoNul(Backwards(n, base))
    decreases Magnitude(n)
  {
    if n != 0 {
      ShrinksC(n, base);
      BackwardsNoNul(CDiv(n, base), base);
    }
  }

  lemma ItoaNoNul(n: int, base: int)
    requires -0x8000_0000 <= n < 0x8000_0000 && 2 <= base <= 32
    ensures NoNul(IToA(n, base))
  {
    BackwardsNoNul(Abs32(n), base);
    hide Backwards, Reversed;
    var u := Unturned(n, base);
    forall k | 0 <= k < |u| ensures Reversed(u)[k] != 0 {
      ReversedAt(u, k);
    }
  }

  /** Whatever follows the terminator, the parsers read the printed value out of the buffer. */
  lemma BufferRoundTrips(v: Word, tail: seq<Byte>)
    ensures AToL(CStr(Digits(v, 10) + [0] + tail)) == v
    ensures AToX(CStr(Digits(v, 16) + [0] + tail)) == v
    ensures AToX(CStr(FixedHex(v, 8) + [0] + tail)) == v
  {
    hide Digits, FixedHex, Hex, Dec, AToL;
    DecOfDigits(v);
    DecimalRoundTrip(v);
    Terminated(Digits(v, 10), tail);
    HexOfDigits(v);
    Terminated(Digits(v, 16), tail);
    assert Pow16(8) == WORD;
    FixedHexReads(v, 8);
    Terminated(FixedHex(v, 8), tail);
  }

  lemma ItoaBufferRoundTripIff(n: int, tail: seq<Byte>)
    requires -0x8000_0000 <= n < 0x8000_0000
    ensures Int32(AToL(CStr(IToA(n, 10) + [0] + tail))) == n <==> n != -0x8000_0000
  {
    hide IToA, AToL;
    ItoaNoNul(n, 10);
    Terminated(IToA(n, 10), tail);
    ItoaRoundTripIff(n);
  }
}
