/** 32-bit machine words and the counting helpers every other module shares. */
module Words {
  const WORD: int := 0x1_0000_0000

  type Word = x: int | 0 <= x < WORD

  type Byte = x: int | 0 <= x < 256

  /** A byte read as a signed char. */
  function SChar(b: Byte): int { if b < 128 then b else b - 256 }

  /** Truncation to an unsigned 32-bit value. */
  function U32(x: int): (r: Word)
    ensures 0 <= x < WORD ==> r == x
  {
    x % WORD
  }

  /** Truncation to an unsigned 16-bit value. */
  function U16(x: int): (r: int)
    ensures 0 <= r < 0x1_0000 && (0 <= x < 0x1_0000 ==> r == x)
  {
    x % 0x1_0000
  }

  /** Reducing early does not change a sum or a difference. */
  lemma U32Early(x: int, y: int)
    ensures U32(U32(x) + y) == U32(x + y) && U32(y - U32(x)) == U32(y - x)
  {
    var q := x / WORD;
    assert x == WORD * q + U32(x);
    Wraps(U32(x) + y, q);
    Wraps(y - U32(x), -q);
  }

  lemma Wraps(z: int, q: int)
    ensures U32(z + WORD * q) == U32(z)
  {
    var d, r := z / WORD, z % WORD;
    assert z + WORD * q == WORD * (d + q) + r;
  }

  /** A word in memory, low byte first. */
  function LE32(x: Word): (r: seq<Byte>)
    ensures |r| == 4
  {
    [x % 0x100, x / 0x100 % 0x100, x / 0x100 / 0x100 % 0x100, x / 0x100 / 0x100 / 0x100]
  }

  /** The word that four bytes of memory hold. */
  function Rd32(d: seq<Byte>, at: nat): Word
    requires at + 4 <= |d|
  {
    d[at] as int + 0x100 * d[at + 1] as int + 0x1_0000 * d[at + 2] as int + 0x100_0000 * d[at + 3] as int
  }

  lemma Rd32OfLE32(d: seq<Byte>, at: nat, x: Word)
    requires at + 4 <= |d| && d[at..at + 4] == LE32(x)
    ensures Rd32(d, at) == x
  {
    var r := d[at..at + 4];
    var a, b := x / 0x100, x / 0x100 / 0x100;
    assert x == 0x100 * a + x % 0x100 && a == 0x100 * b + a % 0x100 && b == 0x100 * (b / 0x100) + b % 0x100;
    assert d[at] == r[0] && d[at + 1] == r[1] && d[at + 2] == r[2] && d[at + 3] == r[3];
  }

  lemma LE32OfRd32(d: seq<Byte>)
    requires |d| == 4
    ensures LE32(Rd32(d, 0)) == d
  {
    var x2: int := d[2] as int + 0x100 * d[3] as int;
    var x1: int := d[1] as int + 0x100 * x2;
    var x0: int := d[0] as int + 0x100 * x1;
    assert x0 / 0x100 == x1 && x1 / 0x100 == x2 && x2 / 0x100 == d[3];
    assert x0 == Rd32(d, 0);
  }

  /** The null pointer. */
  const NULL: Word := 0
}

/** Linear search: the shape of every descriptor-table loop in the kernel. */
module Search {
  ghost predicate IsFirst<T>(s: seq<T>, p: T -> bool, r: nat)
  {
    r <= |s| && (forall k :: 0 <= k < r ==> !p(s[k])) && (r < |s| ==> p(s[r]))
  }

  lemma {:induction false} FirstExists<T>(s: seq<T>, p: T -> bool, from: nat)
    requires from <= |s| && forall k :: 0 <= k < from ==> !p(s[k])
    ensures exists r: nat :: IsFirst(s, p, r)
    decreases |s| - from
  {
    if from == |s| || p(s[from]) {
      assert IsFirst(s, p, from);
    } else {
      FirstExists(s, p, from + 1);
    }
  }

  /** The index of the first element satisfying `p`, or `|s|` when there is none. */
  ghost function First<T>(s: seq<T>, p: T -> bool): (r: nat)
    ensures r <= |s|
    ensures forall k :: 0 <= k < r ==> !p(s[k])
    ensures r < |s| ==> p(s[r])
  {
    FirstExists(s, p, 0);
    var r: nat :| IsFirst(s, p, r);
    r
  }

  /** A search that stopped at `k` stopped at the first match. */
  lemma FirstIs<T>(s: seq<T>, p: T -> bool, k: nat)
    requires IsFirst(s, p, k)
    ensures First(s, p) == k
  {
    var r := First(s, p);
    assert !(r < k) && !(k < r);
  }
}

/** Sums over a table, and how an update of one slot changes them. */
module Sums {
  function SumBy<T>(s: seq<T>, w: T -> nat): nat
  {
    if s == [] then 0 else w(s[0]) + SumBy(s[1..], w)
  }

  lemma {:induction false} SumUpdate<T>(s: seq<T>, w: T -> nat, i: nat, x: T)
    requires i < |s|
    ensures SumBy(s[i := x], w) == SumBy(s, w) - w(s[i]) + w(x)
    ensures w(s[i]) <= SumBy(s, w)
  {
    if i == 0 {
      assert s[i := x][1..] == s[1..];
    } else {
      assert s[i := x][1..] == s[1..][i - 1 := x];
      SumUpdate(s[1..], w, i - 1, x);
    }
  }

  lemma SumPair<T>(s: seq<T>, w: T -> nat, i: nat, j: nat, x: T, y: T)
    requires i < |s| && j < |s| && i != j
    ensures SumBy(s[i := x][j := y], w) == SumBy(s, w) - w(s[i]) - w(s[j]) + w(x) + w(y)
  {
    SumUpdate(s, w, i, x);
    SumUpdate(s[i := x], w, j, y);
  }

  lemma {:induction false} SumTwo<T>(s: seq<T>, w: T -> nat, i: nat, j: nat)
    requires i < j < |s|
    ensures w(s[i]) + w(s[j]) <= SumBy(s, w)
  {
    if i == 0 {
      SumUpdate(s[1..], w, j - 1, s[j]);
    } else {
      SumTwo(s[1..], w, i - 1, j - 1);
    }
  }

  lemma {:induction false} SumZero<T>(s: seq<T>, w: T -> nat)
    requires forall k :: 0 <= k < |s| ==> w(s[k]) == 0
    ensures SumBy(s, w) == 0
  {
    if s != [] {
      SumZero(s[1..], w);
    }
  }

  lemma {:induction false} SumSplit<T>(s: seq<T>, u: T -> nat, v: T -> nat, w: T -> nat)
    requires forall k :: 0 <= k < |s| ==> w(s[k]) == u(s[k]) + v(s[k])
    ensures SumBy(s, w) == SumBy(s, u) + SumBy(s, v)
  {
    if s != [] {
      SumSplit(s[1..], u, v, w);
    }
  }

  lemma {:induction false} SumAppend<T>(s: seq<T>, t: seq<T>, w: T -> nat)
    ensures SumBy(s + t, w) == SumBy(s, w) + SumBy(t, w)
  {
    if s == [] {
      assert s + t == t;
    } else {
      assert (s + t)[1..] == s[1..] + t;
      SumAppend(s[1..], t, w);
    }
  }

  lemma SumLast<T>(s: seq<T>, w: T -> nat)
    requires s != []
    ensures SumBy(s, w) == SumBy(s[..|s| - 1], w) + w(s[|s| - 1])
  {
    var n := |s| - 1;
    SumAppend(s[..n], [s[n]], w);
    SumSmall(s[n], s[n], w);
    hide SumBy;
    assert s == s[..n] + [s[n]];
  }

  lemma SumSmall<T>(a: T, b: T, w: T -> nat)
    ensures SumBy([a], w) == w(a) && SumBy([a, b], w) == w(a) + w(b)
  {
    assert [a][1..] == [];
    assert SumBy([b], w) == w(b) by { assert [b][1..] == []; }
    assert [a, b][1..] == [b];
  }
}
