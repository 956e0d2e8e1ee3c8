/** strsplit, and the join it is the inverse of. */
module StrSplit {
  import opened Words
  import opened CStrings

  /** Where the first delimiter stands, or the length when there is none. */
  function Cut(s: seq<Byte>, d: Byte): (k: nat)
    ensures k <= |s| && (k < |s| ==> s[k] == d)
    ensures d !in s[..k]
  {
    if s == [] || s[0] == d then 0 else 1 + Cut(s[1..], d)
  }

  function Beyond(s: seq<Byte>, d: Byte): seq<Byte>
  {
    if Cut(s, d) < |s| then s[Cut(s, d) + 1..] else []
  }

  /** The pieces of a string, cut at every delimiter. */
  function Pieces(s: seq<Byte>, d: Byte): seq<seq<Byte>>
    decreases |s|
  {
    if s == [] then [] else [s[..Cut(s, d)]] + Pieces(Beyond(s, d), d)
  }

  function Join(ps: seq<seq<Byte>>, d: Byte): seq<Byte>
  {
    if ps == [] then [] else if |ps| == 1 then ps[0] else ps[0] + [d] + Join(ps[1..], d)
  }

  function Delims(s: seq<Byte>, d: Byte): nat
  {
    if s == [] then 0 else (if s[0] == d then 1 else 0) + Delims(s[1..], d)
  }

  /** The string without its last character when that is the delimiter. */
  function Trim(s: seq<Byte>, d: Byte): seq<Byte>
  {
    if s != [] && s[|s| - 1] == d then s[..|s| - 1] else s
  }

  ghost predicate Apart(ps: seq<seq<Byte>>, d: Byte) { forall k :: 0 <= k < |ps| ==> d !in ps[k] }

  lemma {:induction false} CutIs(a: seq<Byte>, b: seq<Byte>, d: Byte)
    requires d !in a
    ensures Cut(a + [d] + b, d) == |a| && Beyond(a + [d] + b, d) == b
    ensures Cut(a, d) == |a|
  {
    if a == [] {
      assert (a + [d] + b)[1..] == b;
    } else {
      assert (a + [d] + b)[1..] == a[1..] + [d] + b;
      CutIs(a[1..], b, d);
    }
  }

  lemma PiecesStep(a: seq<Byte>, b: seq<Byte>, d: Byte)
    requires d !in a
    ensures Pieces(a + [d] + b, d) == [a] + Pieces(b, d)
    ensures a != [] ==> Pieces(a, d) == [a]
  {
    CutIs(a, b, d);
    var s := a + [d] + b;
    hide Cut;
    assert s[..|a|] == a && a[..|a|] == a;
    assert a != [] ==> Beyond(a, d) == [];
  }

  /** The pieces hold no delimiter and join back to the string, less one delimiter at its end. */
  lemma {:induction false} SplitJoins(s: seq<Byte>, d: Byte)
    ensures Apart(Pieces(s, d), d) && Join(Pieces(s, d), d) == Trim(s, d)
    ensures s != [] ==> Pieces(s, d) != []
    decreases |s|
  {
    if s != [] {
      var k, rest := Cut(s, d), Beyond(s, d);
      SplitJoins(rest, d);
      var ps := Pieces(s, d);
      assert ps == [s[..k]] + Pieces(rest, d);
      hide Cut, Pieces;
      assert ps[1..] == Pieces(rest, d);
      TrimStep(s, d, k);
    }
  }

  lemma TrimStep(s: seq<Byte>, d: Byte, k: nat)
    requires s != [] && k <= |s| && d !in s[..k] && (k < |s| ==> s[k] == d)
    ensures k == |s| ==> Trim(s, d) == s[..k]
    ensures k + 1 == |s| ==> Trim(s, d) == s[..k]
    ensures k + 1 < |s| ==> Trim(s, d) == s[..k] + [d] + Trim(s[k + 1..], d)
  {
    assert k == |s| ==> s[..k] == s && s[|s| - 1] in s[..k];
  }

  lemma OnePiece(p: seq<Byte>, d: Byte)
    requires d !in p
    ensures Pieces(p, d) == [p] <==> p != []
    ensures Pieces(p + [d], d) == [p]
  {
    PiecesStep(p, [], d);
    assert p + [d] + [] == p + [d];
  }

  lemma HeadsAgree(p: seq<Byte>, qs: seq<seq<Byte>>, rest: seq<seq<Byte>>)
    ensures [p] + qs == [p] + rest <==> qs == rest
  {
    assert ([p] + qs)[1..] == qs && ([p] + rest)[1..] == rest;
  }

  lemma JoinStep(ps: seq<seq<Byte>>, d: Byte)
    requires |ps| > 1 && Apart(ps, d)
    ensures Pieces(Join(ps, d), d) == ps <==> Pieces(Join(ps[1..], d), d) == ps[1..]
    ensures Pieces(Join(ps, d) + [d], d) == ps <==> Pieces(Join(ps[1..], d) + [d], d) == ps[1..]
  {
    var rest := Join(ps[1..], d);
    assert Join(ps, d) == ps[0] + [d] + rest;
    assert Join(ps, d) + [d] == ps[0] + [d] + (rest + [d]);
    PiecesStep(ps[0], rest, d);
    PiecesStep(ps[0], rest + [d], d);
    hide Pieces, Join;
    HeadsAgree(ps[0], Pieces(rest, d), ps[1..]);
    HeadsAgree(ps[0], Pieces(rest + [d], d), ps[1..]);
    assert ps == [ps[0]] + ps[1..];
  }

  /** A list of delimiter-free pieces is what splitting its join gives back, if and only if the last piece is not
      empty. */
  lemma {:induction false} JoinSplitsIff(ps: seq<seq<Byte>>, d: Byte)
    requires ps != [] && Apart(ps, d)
    ensures Pieces(Join(ps, d), d) == ps <==> ps[|ps| - 1] != []
    decreases |ps|
  {
    hide Pieces;
    if |ps| == 1 {
      OnePiece(ps[0], d);
      assert ps == [ps[0]];
    } else {
      hide Join;
      JoinStep(ps, d);
      JoinSplitsIff(ps[1..], d);
    }
  }

  /** With a delimiter after the last piece, every list of delimiter-free pieces comes back. */
  lemma {:induction false} ClosedJoinSplits(ps: seq<seq<Byte>>, d: Byte)
    requires ps != [] && Apart(ps, d)
    ensures Pieces(Join(ps, d) + [d], d) == ps
    decreases |ps|
  {
    hide Pieces;
    if |ps| == 1 {
      OnePiece(ps[0], d);
      assert ps == [ps[0]];
    } else {
      hide Join;
      JoinStep(ps, d);
      ClosedJoinSplits(ps[1..], d);
    }
  }

  lemma {:induction false} DelimsAppend(a: seq<Byte>, b: seq<Byte>, d: Byte)
    ensures Delims(a + b, d) == Delims(a, d) + Delims(b, d)
    ensures d !in a ==> Delims(a, d) == 0
  {
    if a == [] {
      assert a + b == b;
    } else {
      assert (a + b)[1..] == a[1..] + b;
      DelimsAppend(a[1..], b, d);
    }
  }

  /** strsplit sizes its array from the delimiters before the last character: exactly one slot per piece. */
  lemma {:induction false} PieceCount(s: seq<Byte>, d: Byte)
    requires s != []
    ensures |Pieces(s, d)| == Delims(s[..|s| - 1], d) + 1
    decreases |s|
  {
    var k, rest := Cut(s, d), Beyond(s, d);
    hide Cut;
    if rest == [] {
      DelimsAppend(s[..|s| - 1], [], d);
      assert d !in s[..|s| - 1];
    } else {
      PieceCount(rest, d);
      var inner := rest[..|rest| - 1];
      assert s[..|s| - 1] == s[..k] + ([d] + inner);
      DelimsAppend(s[..k], [d] + inner, d);
      DelimsAppend([d], inner, d);
      assert Delims([d], d) == 1;
    }
  }

  /** The counting loop. */
  method CountDelims(s: seq<Byte>, d: Byte, len: int) returns (n: nat)
    requires 0 < len <= |s|
    ensures n == Delims(s[..len - 1], d)
  {
    n := 0;
    var i := 0;
    while i < len - 1
      invariant i <= len - 1 && n == Delims(s[..i], d)
    {
      assert s[..i + 1] == s[..i] + [s[i]];
      DelimsAppend(s[..i], [s[i]], d);
      if s[i] == d { n := n + 1; }
      i := i + 1;
    }
  }

  /** What is left of a string from `start` on. */
  function From(s: seq<Byte>, start: nat): seq<Byte>
  {
    if start <= |s| then s[start..] else []
  }

  lemma TakePiece(s: seq<Byte>, d: Byte, start: nat, end: nat)
    requires start <= end <= |s| && start < |s| && d !in s[start..end] && (end < |s| ==> s[end] == d)
    ensures Pieces(From(s, start), d) == [s[start..end]] + Pieces(From(s, end + 1), d)
  {
    if end < |s| {
      assert From(s, start) == s[start..end] + [d] + From(s, end + 1);
      PiecesStep(s[start..end], From(s, end + 1), d);
      hide Pieces, From;
    } else {
      PiecesStep(s[start..], [], d);
      assert s[start..end] == s[start..];
    }
  }

  /** The end of the piece that starts at `start`: the inner loop of strsplit. */
  method PieceEnd(buf: seq<Byte>, d: Byte, start: nat, len: nat) returns (end: nat)
    requires start < len < |buf|
    ensures start <= end <= len && d !in buf[start..end] && (end < len ==> buf[end] == d)
  {
    end := start;
    while buf[end] != d && end < len
      invariant start <= end <= len && d !in buf[start..end]
      decreases len - end
    {
      assert buf[start..end + 1] == buf[start..end] + [buf[end]];
      end := end + 1;
    }
  }

  /** A piece as strsplit stores it: the memory it is copied to was zeroed. */
  function Stored(piece: seq<Byte>): seq<Byte> { piece + [0] }

  /** The first `n` slots hold their pieces, and what stands from `start` on is still to be cut. */
  ghost predicate Cutting(s: seq<Byte>, d: Byte, slots: seq<seq<Byte>>, n: nat, start: nat)
  {
    var all := Pieces(s, d);
    && n <= |all| == |slots|
    && all[n..] == Pieces(From(s, start), d)
    && forall k :: 0 <= k < n ==> slots[k] == Stored(all[k])
  }

  lemma CuttingStarts(s: seq<Byte>, d: Byte, slots: seq<seq<Byte>>)
    requires |slots| == |Pieces(s, d)|
    ensures Cutting(s, d, slots, 0, 0)
  {
    hide Pieces;
    assert From(s, 0) == s;
  }

  lemma CuttingRoom(s: seq<Byte>, d: Byte, slots: seq<seq<Byte>>, n: nat, start: nat)
    requires Cutting(s, d, slots, n, start) && start < |s|
    ensures n < |slots|
  {
    assert |From(s, start)| > 0;
    assert |Pieces(From(s, start), d)| > 0;
  }

  lemma CuttingStep(s: seq<Byte>, d: Byte, was: seq<seq<Byte>>, n: nat, start: nat, end: nat)
    requires Cutting(s, d, was, n, start) && n < |was|
    requires start <= end <= |s| && start < |s| && d !in s[start..end] && (end < |s| ==> s[end] == d)
    ensures Cutting(s, d, was[n := Stored(s[start..end])], n + 1, end + 1)
  {
    TakePiece(s, d, start, end);
    hide Pieces, From, Stored;
    var all, piece, rest := Pieces(s, d), s[start..end], Pieces(From(s, end + 1), d);
    assert all[n..] == [piece] + rest;
    assert all[n] == all[n..][0] && all[n + 1..] == all[n..][1..];
  }

  lemma CuttingEnds(s: seq<Byte>, d: Byte, slots: seq<seq<Byte>>, n: nat, start: nat)
    requires Cutting(s, d, slots, n, start) && start >= |s|
    ensures |slots| == |Pieces(s, d)| && forall k :: 0 <= k < |slots| ==> slots[k] == Stored(Pieces(s, d)[k])
  {
    assert Pieces(From(s, start), d) == [];
    hide Pieces, From, Stored;
  }

  /** strsplit: no result for an empty string, otherwise one zero-terminated copy per piece. */
  method Split(buf: seq<Byte>, delim: Byte) returns (pieces: array?<seq<Byte>>)
    requires 0 in buf
    ensures pieces == null <==> CStr(buf) == []
    ensures pieces != null ==> pieces.Length == |Pieces(CStr(buf), delim)|
    ensures pieces != null ==> forall k :: 0 <= k < pieces.Length ==> pieces[k] == Pieces(CStr(buf), delim)[k] + [0]
  {
    FirstZero(buf);
    ghost var s := CStr(buf);
    var len := StrLen(buf);
    if len == 0 { return null; }
    var n := CountDelims(buf, delim, len);
    PieceCount(s, delim);
    assert s[..len - 1] == buf[..len - 1];
    pieces := FillPieces(buf, buf[..len], delim, len, n + 1);
  }

  /** The cutting loop of strsplit, into an array with one slot per piece. */
  method FillPieces(buf: seq<Byte>, ghost s: seq<Byte>, delim: Byte, len: nat, slots: nat)
    returns (pieces: array<seq<Byte>>)
    requires len < |buf| && s == buf[..len] && slots == |Pieces(s, delim)|
    ensures pieces.Length == slots
    ensures forall k :: 0 <= k < slots ==> pieces[k] == Stored(Pieces(s, delim)[k])
  {
    hide Pieces, Cutting, Stored;
    pieces := new seq<Byte>[slots];
    var offset := 0;
    var start, end := 0, 0;
    CuttingStarts(s, delim, pieces[..]);
    while end < len
      invariant start == end && Cutting(s, delim, pieces[..], offset, start)
      decreases len - end
    {
      end := PieceEnd(buf, delim, start, len);
      assert buf[start..end] == s[start..end];
      CuttingRoom(s, delim, pieces[..], offset, start);
      CuttingStep(s, delim, pieces[..], offset, start, end);
      pieces[offset] := Stored(buf[start..end]);
      start := end + 1;
      end := end + 1;
      offset := offset + 1;
    }
    CuttingEnds(s, delim, pieces[..], offset, start);
  }
}
