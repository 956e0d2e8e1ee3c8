/** The loops of stdlib.c that print and parse numbers. */
module NumberLoops {
  import opened Words
  import opened CStrings
  import opened Numbers

  lemma WordFits(v: Word, base: int)
    requires base >= 2
    ensures |Digits(v, base)| <= 32
  {
    assert Pow2(8) == 256;
    Pow2Adds(8, 8);
    Pow2Adds(16, 16);
    DigitsFit(v, base, 32);
  }

  lemma {:induction false} Pow2Adds(a: nat, b: nat)
    ensures Pow2(a + b) == Pow2(a) * Pow2(b)
  {
    if a > 0 { Pow2Adds(a - 1, b); }
  }

  lemma FillStep(all: seq<Byte>, v: nat, base: int, before: seq<Byte>, after: seq<Byte>)
    requires base >= 2 && all == Digits(v, base) + before && after == [Dig(v % base)] + before
    ensures v / base >= 0
    ensures v / base == 0 ==> all == after
    ensures v / base > 0 ==> v / base < v && all == Digits(v / base, base) + after
  {
    hide Digits, Dig;
    DigitsStep(v, base);
    if v / base > 0 {
      assert Digits(v / base, base) + [Dig(v % base)] + before == Digits(v / base, base) + after;
    }
  }

  /** The digit loop of _ultoa, into the end of its 32-byte buffer. */
  method FillDigits(v: Word, buffer: array<Byte>, base: int) returns (index: nat)
    requires base >= 2 && buffer.Length == 32
    modifies buffer
    ensures index < 32 && buffer[index..] == Digits(v, base)
  {
    WordFits(v, base);
    hide Digits, Dig;
    ghost var all := Digits(v, base);
    index := 32;
    var value: nat := v;
    while true
      invariant index <= 32
      invariant all == Digits(value, base) + buffer[index..]
      decreases value
    {
      assert |all| == |Digits(value, base)| + (32 - index);
      index := index - 1;
      ghost var before := buffer[index + 1..];
      buffer[index] := Dig(value % base);
      FillStep(all, value, base, before, buffer[index..]);
      value := value / base;
      if value == 0 { break; }
    }
  }

  /** _ultoa: prints through a 32-byte buffer, which is always large enough. */
  method UlToA(v: Word, result: array<Byte>, base: int)
    requires base >= 2 && result.Length > |Digits(v, base)|
    modifies result
    ensures result[..|Digits(v, base)| + 1] == Digits(v, base) + [0]
    ensures result[|Digits(v, base)| + 1..] == old(result[|Digits(v, base)| + 1..])
  {
    hide Digits;
    ghost var all := Digits(v, base);
    var buffer := new Byte[32];
    var index := FillDigits(v, buffer, base);
    ghost var start := index;
    assert forall k :: 0 <= k < |all| ==> buffer[start + k] == buffer[start..][k];
    var i := 0;
    while index < 32
      invariant index == start + i <= 32
      invariant forall k :: 0 <= k < i ==> result[k] == all[k]
      invariant forall k :: i <= k < result.Length ==> result[k] == old(result[k])
      modifies result
    {
      result[i] := buffer[index];
      i := i + 1;
      index := index + 1;
    }
    result[i] := 0;
    assert result[..i + 1] == all + [0];
  }

  /** The byte a scan finds at position `i` of a terminated string. */
  ghost predicate At(s: seq<Byte>, i: int, b: Byte)
  {
    0 <= i <= |s| && NoNul(s) && b == if i < |s| then s[i] else 0
  }

  lemma BufferAt(buf: seq<Byte>, i: nat)
    requires 0 in buf && i <= |CStr(buf)|
    ensures i < |buf| && At(CStr(buf), i, buf[i])
  {
    FirstZero(buf);
  }

  lemma SkipStep(s: seq<Byte>, i: int, b: Byte)
    requires At(s, i, b)
    ensures b == 32 ==> i < |s| && SkipBlanks(s[i..]) == SkipBlanks(s[i + 1..])
    ensures b != 32 ==> SkipBlanks(s[i..]) == s[i..]
  {
    assert i < |s| ==> s[i..][1..] == s[i + 1..];
  }

  lemma DigitStep(s: seq<Byte>, i: int, b: Byte, acc: Word)
    requires At(s, i, b)
    ensures U32(SChar(b) - 48) <= 9 ==>
      i < |s| && Dec(s[i..], acc) == Dec(s[i + 1..], U32(10 * acc + U32(SChar(b) - 48)))
    ensures U32(SChar(b) - 48) > 9 ==> Dec(s[i..], acc) == acc
  {
    assert i < |s| ==> s[i..][1..] == s[i + 1..];
  }

  lemma SignStep(s: seq<Byte>, i: int, b: Byte)
    requires At(s, i, b) && SkipBlanks(s) == s[i..]
    ensures b == 45 ==> i < |s| && AToL(s) == U32(WORD - Dec(s[i + 1..], 0))
    ensures b == 43 ==> i < |s| && AToL(s) == Dec(s[i + 1..], 0)
    ensures b != 45 && b != 43 ==> AToL(s) == Dec(s[i..], 0)
  {
    hide Dec, SkipBlanks;
    assert i < |s| ==> s[i..][1..] == s[i + 1..];
  }

  /** atol over a NUL-terminated buffer. */
  method AToLRead(buf: seq<Byte>) returns (r: Word)
    requires 0 in buf
    ensures r == AToL(CStr(buf))
  {
    ghost var s := CStr(buf);
    hide SkipBlanks, Dec, AToL, CStr, At, SChar, U32;
    var i := 0;
    BufferAt(buf, i);
    assert s[0..] == s;
    while buf[i] == 32
      invariant i <= |s| && i < |buf| && At(s, i, buf[i]) && SkipBlanks(s) == SkipBlanks(s[i..])
      decreases |s| - i
    {
      SkipStep(s, i, buf[i]);
      i := i + 1;
      BufferAt(buf, i);
    }
    SkipStep(s, i, buf[i]);
    SignStep(s, i, buf[i]);
    var sign := 0;
    if buf[i] == 45 {
      sign := 1;
      i := i + 1;
    } else if buf[i] == 43 {
      i := i + 1;
    }
    BufferAt(buf, i);
    ghost var value := Dec(s[i..], 0);
    var result: Word := 0;
    var digit := U32(SChar(buf[i]) - 48);
    while digit <= 9
      invariant i <= |s| && i < |buf| && At(s, i, buf[i])
      invariant value == Dec(s[i..], result) && digit == U32(SChar(buf[i]) - 48)
      decreases |s| - i
    {
      DigitStep(s, i, buf[i], result);
      result := U32(10 * result + digit);
      i := i + 1;
      BufferAt(buf, i);
      digit := U32(SChar(buf[i]) - 48);
    }
    DigitStep(s, i, buf[i], result);
    r := if sign == 1 then U32(WORD - result) else result;
  }

  /** atox: anything that is not a hexadecimal digit makes the result 0. */
  method AToXRead(buf: seq<Byte>) returns (num: Word)
    requires 0 in buf
    ensures num == AToX(CStr(buf))
  {
    var len := StrLen(buf);
    ghost var s := CStr(buf);
    num := 0;
    var i := 0;
    while i < len
      invariant i <= len == |s| && AllHex(s[..i]) && Hex(s, 0) == Hex(s[i..], num)
    {
      assert buf[i] == s[i];
      if HexVal(buf[i]) < 0 { return 0; }
      num := U32(16 * num + HexVal(buf[i]));
      i := i + 1;
    }
    assert s[..i] == s;
  }

  lemma BackStep32(n: int, base: int)
    requires 2 <= base <= 32 && n != 0
    ensures Backwards(n, base) == [ItoaDig(CMod(n, base))] + Backwards(CDiv(n, base), base)
    ensures Magnitude(CDiv(n, base)) < Magnitude(n) && -32 < CMod(n, base) < 32
  {
    ShrinksC(n, base);
  }

  /** _itoa_rev on the first `n` bytes. */
  method ItoaRev(buffer: array<Byte>, n: nat)
    requires n <= buffer.Length
    modifies buffer
    ensures buffer[..n] == Reversed(old(buffer[..n])) && buffer[n..] == old(buffer[n..])
  {
    var i, j := 0, n - 1;
    ghost var was := buffer[..];
    while i < j
      invariant 0 <= i && i + j == n - 1 && j >= i - 1
      invariant forall k :: 0 <= k < i ==> buffer[k] == was[n - 1 - k] && buffer[n - 1 - k] == was[k]
      invariant forall k :: i <= k <= j ==> buffer[k] == was[k]
      invariant forall k :: n <= k < buffer.Length ==> buffer[k] == was[k]
    {
      buffer[i], buffer[j] := buffer[j], buffer[i];
      i := i + 1;
      j := j - 1;
    }
    forall k | 0 <= k < n ensures buffer[k] == Reversed(was[..n])[k] {
      ReversedAt(was[..n], k);
      assert k >= i ==> n - 1 - k <= j;
      if k > j { assert buffer[n - 1 - (n - 1 - k)] == was[n - 1 - k]; }
    }
  }

  /** The digit loop of itoa. */
  method ItoaDigits(n0: int, buff: array<Byte>, base: int) returns (i: nat)
    requires 2 <= base <= 32 && buff.Length >= |Backwards(n0, base)|
    modifies buff
    ensures i == |Backwards(n0, base)| && buff[..i] == Backwards(n0, base) && buff[i..] == old(buff[i..])
  {
    hide Backwards, ItoaDig, CDiv, CMod;
    ghost var all := Backwards(n0, base);
    i := 0;
    var n := n0;
    while n != 0
      invariant i <= |all| && all == buff[..i] + Backwards(n, base)
      invariant buff[i..] == old(buff[i..])
      decreases Magnitude(n)
    {
      BackStep32(n, base);
      ghost var done := buff[..i];
      buff[i] := ItoaDig(CMod(n, base));
      assert buff[..i + 1] == done + [ItoaDig(CMod(n, base))];
      i := i + 1;
      n := CDiv(n, base);
    }
    NoneLeft(base);
  }

  lemma NoneLeft(base: int)
    requires 2 <= base <= 32
    ensures Backwards(0, base) == []
  {
  }

  /** itoa: a base it does not support leaves the buffer as it was. */
  method ItoaInto(num: int, buff: array<Byte>, base: int)
    requires -0x8000_0000 <= num < 0x8000_0000
    requires 2 <= base <= 32 ==> buff.Length > |Unturned(num, base)|
    modifies buff
    ensures !(2 <= base <= 32) ==> buff[..] == old(buff[..])
    ensures 2 <= base <= 32 ==> buff[..|IToA(num, base)| + 1] == IToA(num, base) + [0]
    ensures 2 <= base <= 32 ==> buff[|IToA(num, base)| + 1..] == old(buff[|IToA(num, base)| + 1..])
  {
    if base < 2 || base > 32 { return; }
    hide Reversed, Backwards, ItoaDig;
    NoneLeft(base);
    var i := ItoaDigits(Abs32(num), buff, base);
    if i == 0 {
      buff[i] := 48;
      i := i + 1;
    }
    if num < 0 && base == 10 {
      buff[i] := 45;
      i := i + 1;
    }
    buff[i] := 0;
    ghost var tail := buff[i..];
    assert buff[..i] == Unturned(num, base) && tail[0] == 0;
    assert tail[1..] == old(buff[i + 1..]);
    ItoaRev(buff, i);
    assert buff[..i] == IToA(num, base);
    OneMore(buff[..], i);
  }

  lemma OneMore(b: seq<Byte>, i: nat)
    requires i < |b|
    ensures b[..i + 1] == b[..i] + [b[i..][0]] && b[i + 1..] == b[i..][1..]
  {
  }

  lemma HexStep(v: Word, n: nat)
    ensures FixedHex(v, n + 1) == FixedHex(v / 16, n) + [Dig(v % 16)] && FixedHex(v, 0) == []
  {
  }

  /** The hexadecimal character of the nibble at bit `shift`. */
  function Nibble(num: Word, scale: int): Byte
    requires scale > 0
  {
    Dig((num / scale) % 16)
  }

  /** xtoa: prints 2 * sz digits and no terminator; any other size only clears the first byte. */
  method XToA(num: Word, buff: array<Byte>, sz: int)
    requires buff.Length > 0 && (sz == 1 || sz == 2 || sz == 4 ==> buff.Length >= 2 * sz)
    modifies buff
    ensures sz == 1 || sz == 2 || sz == 4 ==>
      buff[..2 * sz] == FixedHex(num, 2 * sz) && buff[2 * sz..] == old(buff[2 * sz..])
    ensures !(sz == 1 || sz == 2 || sz == 4) ==> buff[..] == old(buff[..])[0 := 0]
  {
    hide Dig;
    buff[0] := 0;
    if sz == 1 {
      buff[0] := Nibble(num, 0x10);
      buff[1] := Nibble(num, 1);
    } else if sz == 2 {
      buff[0] := Nibble(num, 0x1000);
      buff[1] := Nibble(num, 0x100);
      buff[2] := Nibble(num, 0x10);
      buff[3] := Nibble(num, 1);
    } else if sz == 4 {
      buff[0] := Nibble(num, 0x1000_0000);
      buff[1] := Nibble(num, 0x100_0000);
      buff[2] := Nibble(num, 0x10_0000);
      buff[3] := Nibble(num, 0x1_0000);
      buff[4] := Nibble(num, 0x1000);
      buff[5] := Nibble(num, 0x100);
      buff[6] := Nibble(num, 0x10);
      buff[7] := Nibble(num, 1);
    }
    TwoDigits(num);
    FourDigits(num);
    EightDigits(num);
    hide FixedHex;
  }

  lemma TwoDigits(v: Word)
    ensures FixedHex(v, 2) == [Nibble(v, 0x10), Nibble(v, 1)]
  {
    hide Dig;
    HexStep(v, 1);
    HexStep(v / 16, 0);
  }

  lemma FourDigits(v: Word)
    ensures FixedHex(v, 4) == [Nibble(v, 0x1000), Nibble(v, 0x100), Nibble(v, 0x10), Nibble(v, 1)]
  {
    hide Dig;
    TwoDigits(v / 0x100);
    HexStep(v, 3);
    HexStep(v / 16, 2);
    assert v / 16 / 16 == v / 0x100;
  }

  lemma HexFour(v: Word)
    ensures FixedHex(v, 8) == FixedHex(v / 0x1_0000, 4) + FixedHex(v, 4)
  {
    hide Dig;
    HexStep(v, 7);
    HexStep(v / 16, 6);
    HexStep(v / 0x100, 5);
    HexStep(v / 0x1000, 4);
    HexStep(v, 3);
    HexStep(v / 16, 2);
    HexStep(v / 0x100, 1);
    HexStep(v / 0x1000, 0);
    hide FixedHex;
    assert v / 16 / 16 == v / 0x100 && v / 0x100 / 16 == v / 0x1000 && v / 0x1000 / 16 == v / 0x1_0000;
  }

  lemma NibblesUp(v: Word)
    ensures Nibble(v / 0x1_0000, 0x1000) == Nibble(v, 0x1000_0000)
    ensures Nibble(v / 0x1_0000, 0x100) == Nibble(v, 0x100_0000)
    ensures Nibble(v / 0x1_0000, 0x10) == Nibble(v, 0x10_0000) && Nibble(v / 0x1_0000, 1) == Nibble(v, 0x1_0000)
  {
    hide Dig;
  }

  lemma EightDigits(v: Word)
    ensures FixedHex(v, 8) == [Nibble(v, 0x1000_0000), Nibble(v, 0x100_0000), Nibble(v, 0x10_0000), Nibble(v, 0x1_0000),
                               Nibble(v, 0x1000), Nibble(v, 0x100), Nibble(v, 0x10), Nibble(v, 1)]
  {
    hide Dig;
    HexFour(v);
    FourDigits(v / 0x1_0000);
    FourDigits(v);
    NibblesUp(v);
    hide FixedHex, Nibble;
  }
}
