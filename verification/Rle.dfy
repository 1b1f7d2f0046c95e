/** The run-length coder used on closed log files. */
module Rle {
  import opened Types

  const MAX_RUN: nat := 130
  const MAX_LITERAL: nat := 128

  // How often the first byte repeats, up to n times.
  function RunLength(d: Bytes, n: nat): (r: nat)
    requires d != [] && n >= 1
    ensures 1 <= r <= n && r <= |d|
  {
    if n == 1 || |d| == 1 || d[1] != d[0] then 1 else 1 + RunLength(d[1..], n - 1)
  }

  predicate StartsRun(d: Bytes) {
    d != [] && RunLength(d, MAX_RUN) >= 3
  }

  // How many bytes up to the next run worth coding, at most n.
  function LiteralLength(d: Bytes, n: nat): (l: nat)
    ensures l <= n && l <= |d|
    ensures n > 0 && d != [] && !StartsRun(d) ==> l >= 1
    decreases n
  {
    if n == 0 || d == [] || StartsRun(d) then 0 else 1 + LiteralLength(d[1..], n - 1)
  }

  // It stops short only before a run.
  lemma {:induction false} LiteralStopsAtRun(d: Bytes, n: nat)
    ensures var l := LiteralLength(d, n);
            l < n && l < |d| ==> StartsRun(d[l..])
    decreases n
  {
    if n > 0 && d != [] && !StartsRun(d) {
      LiteralStopsAtRun(d[1..], n - 1);
      assert d[LiteralLength(d, n)..] == d[1..][LiteralLength(d[1..], n - 1)..];
    } else {
      assert d[0..] == d;
    }
  }

  // How much of the data one piece of output stands for.
  function Taken(d: Bytes): (n: nat)
    requires d != []
    ensures 1 <= n <= |d|
  {
    if StartsRun(d) then RunLength(d, MAX_RUN) else LiteralLength(d, MAX_LITERAL)
  }

  // A run is a control byte from 128 on and the byte; a literal segment is a control byte
  // up to 127 and its bytes.
  function Piece(d: Bytes): Bytes
    requires d != []
  {
    if StartsRun(d) then [128 + (Taken(d) - 3), d[0]] else [Taken(d) - 1] + d[..Taken(d)]
  }

  function Compressed(d: Bytes): Bytes
    decreases |d|
  {
    if d == [] then [] else Piece(d) + Compressed(d[Taken(d)..])
  }

  function Repeat(b: Byte, n: nat): (s: Bytes)
    ensures |s| == n && forall i | 0 <= i < n :: s[i] == b
  {
    if n == 0 then [] else [b] + Repeat(b, n - 1)
  }

  function Prepend(head: Bytes, rest: Option<Bytes>): Option<Bytes> {
    match rest
    case Some(s) => Some(head + s)
    case None => None
  }

  function Decompressed(b: Bytes): Option<Bytes>
    decreases |b|
  {
    if b == [] then Some([])
    else if b[0] <= 127 then
      if 1 + b[0] + 1 > |b| then None
      else Prepend(b[1..b[0] + 2], Decompressed(b[b[0] + 2..]))
    else if |b| < 2 then None
    else Prepend(Repeat(b[1], b[0] - 125), Decompressed(b[2..]))
  }

  // ---- what the coder promises ----

  lemma {:induction false} RunRepeats(d: Bytes, n: nat)
    requires d != [] && n >= 1
    ensures d[..RunLength(d, n)] == Repeat(d[0], RunLength(d, n))
  {
    if n > 1 && |d| > 1 && d[1] == d[0] {
      RunRepeats(d[1..], n - 1);
      assert d[..RunLength(d, n)] == [d[0]] + d[1..][..RunLength(d, n) - 1];
    }
  }

  lemma DecodeRun(x: Byte, r: nat, rest: Bytes)
    requires 3 <= r <= MAX_RUN
    ensures Decompressed([128 + (r - 3), x] + rest) == Prepend(Repeat(x, r), Decompressed(rest))
  {
    assert ([128 + (r - 3), x] + rest)[2..] == rest;
  }

  lemma DecodeLiteral(lit: Bytes, rest: Bytes)
    requires 1 <= |lit| <= MAX_LITERAL
    ensures Decompressed([|lit| - 1] + lit + rest) == Prepend(lit, Decompressed(rest))
  {
    var b := [|lit| - 1] + lit + rest;
    assert b[1..|lit| + 1] == lit && b[|lit| + 1..] == rest;
  }

  // A piece decodes to the data it stands for.
  lemma DecodePiece(d: Bytes, rest: Bytes)
    requires d != []
    ensures Decompressed(Piece(d) + rest) == Prepend(d[..Taken(d)], Decompressed(rest))
  {
    if StartsRun(d) {
      RunRepeats(d, MAX_RUN);
      DecodeRun(d[0], Taken(d), rest);
    } else {
      DecodeLiteral(d[..Taken(d)], rest);
    }
  }

  lemma RoundTripStep(d: Bytes, rest: Bytes)
    requires d != [] && Decompressed(rest) == Some(d[Taken(d)..])
    ensures Decompressed(Piece(d) + rest) == Some(d)
  {
    DecodePiece(d, rest);
    assert d == d[..Taken(d)] + d[Taken(d)..];
  }

  lemma {:induction false} RoundTrip(d: Bytes)
    ensures Decompressed(Compressed(d)) == Some(d)
    decreases |d|
  {
    if d != [] {
      RoundTrip(d[Taken(d)..]);
      RoundTripStep(d, Compressed(d[Taken(d)..]));
    }
  }

  function Blocks(n: nat): nat {
    (n + MAX_LITERAL - 1) / MAX_LITERAL
  }

  // At worst one byte more for every 128: a literal segment that stops short is followed by
  // a run, which saves at least the byte the segment cost.
  lemma {:induction false} SizeBound(d: Bytes)
    ensures |Compressed(d)| <= |d| + Blocks(|d|)
    decreases |d|
  {
    if d != [] {
      var rest := d[Taken(d)..];
      if StartsRun(d) || Taken(d) == MAX_LITERAL || rest == [] {
        SizeBound(rest);
      } else {
        LiteralStopsAtRun(d, MAX_LITERAL);
        SizeBound(rest[Taken(rest)..]);
      }
    }
  }

  // The bound is met: bytes without a run cost exactly that much.
  lemma {:induction false} BoundIsTight(d: Bytes)
    requires forall i | 0 <= i < |d| - 2 :: !(d[i] == d[i + 1] == d[i + 2])
    ensures |Compressed(d)| == |d| + Blocks(|d|)
    decreases |d|
  {
    hide LiteralLength, RunLength;
    if d != [] {
      NoRunInside(d, MAX_LITERAL);
      BoundIsTight(d[Taken(d)..]);
    }
  }

  lemma {:induction false} NoRunInside(d: Bytes, n: nat)
    requires forall i | 0 <= i < |d| - 2 :: !(d[i] == d[i + 1] == d[i + 2])
    ensures !StartsRun(d)
    ensures LiteralLength(d, n) == if n < |d| then n else |d|
    decreases n
  {
    if |d| >= 2 && d[1] == d[0] {
      assert RunLength(d[1..], MAX_RUN - 1) == 1;
    }
    if n > 0 && d != [] {
      NoRunInside(d[1..], n - 1);
    }
  }

  // A byte repeated n times takes two bytes for every 130, and what is left over two more, or one
  // more than its length if it is too short to count as a run.
  lemma {:induction false} RunsAreShort(b: Byte, n: nat)
    ensures |Compressed(Repeat(b, n))| == 2 * (n / 130) + LeftOver(n % 130)
  {
    hide RunLength, LiteralLength, Repeat;
    if n == 1 || n == 2 {
      ShortRepeat(b, n);
    } else if n > 0 {
      var m := if n < 130 then n else 130;
      OneRun(b, n, m);
      RunsAreShort(b, n - m);
      assert n >= 130 ==> n / 130 == (n - 130) / 130 + 1 && n % 130 == (n - 130) % 130;
    }
  }

  function LeftOver(n: nat): nat {
    if n == 0 then 0 else if n < 3 then n + 1 else 2
  }

  lemma OneRun(b: Byte, n: nat, m: nat)
    requires n >= 3 && m == if n < 130 then n else 130
    ensures |Compressed(Repeat(b, n))| == 2 + |Compressed(Repeat(b, n - m))|
  {
    hide RunLength, LiteralLength, Repeat;
    RunOfRepeat(b, n, MAX_RUN);
    RestOfRepeat(b, n, m);
  }

  lemma {:induction false} RunOfRepeat(b: Byte, n: nat, m: nat)
    requires n >= 1 && m >= 1
    ensures RunLength(Repeat(b, n), m) == if n < m then n else m
    decreases m
  {
    if n > 1 && m > 1 {
      assert Repeat(b, n)[1..] == Repeat(b, n - 1);
      RunOfRepeat(b, n - 1, m - 1);
    }
  }

  lemma RestOfRepeat(b: Byte, n: nat, m: nat)
    requires m <= n
    ensures Repeat(b, n)[m..] == Repeat(b, n - m)
  {
  }

  lemma ShortRepeat(b: Byte, n: nat)
    requires n == 1 || n == 2
    ensures |Compressed(Repeat(b, n))| == n + 1
  {
    NoRunInside(Repeat(b, n), MAX_LITERAL);
    assert Repeat(b, n)[n..] == [];
  }

  // ---- the loops ----

  method RunEnd(data: Bytes, i: nat) returns (end: nat)
    requires i < |data|
    ensures end == i + RunLength(data[i..], MAX_RUN)
  {
    end := i + 1;
    while end < |data| && data[end] == data[i] && end - i < MAX_RUN
      invariant i + 1 <= end <= |data| && end - i <= MAX_RUN
      invariant data[end - 1] == data[i]
      invariant RunLength(data[i..], MAX_RUN) == end - i - 1 + RunLength(data[end - 1..], MAX_RUN - (end - i - 1))
    {
      assert data[end - 1..][1..] == data[end..];
      end := end + 1;
    }
  }

  method RLECompress(data: Bytes) returns (out: Bytes)
    ensures out == Compressed(data)
  {
    var i := 0;
    out := [];
    ghost var all, rest := Compressed(data), Compressed(data);
    assert data[0..] == data;
    while i < |data|
      invariant 0 <= i <= |data| && rest == Compressed(data[i..]) && all == out + rest
    {
      var piece, next := NextPiece(data, i);
      CodedStep(data, i);
      rest := Compressed(data[next..]);
      Regroup(out, piece, rest);
      out, i := out + piece, next;
    }
  }

  method NextPiece(data: Bytes, i: nat) returns (piece: Bytes, next: nat)
    requires i < |data|
    ensures next == i + Taken(data[i..]) && piece == Piece(data[i..])
  {
    var runEnd := RunEnd(data, i);
    if runEnd - i >= 3 {
      piece, next := [128 + (runEnd - i - 3), data[i]], runEnd;
    } else {
      next := LiteralEnd(data, i);
      assert data[i..][..next - i] == data[i..next];
      piece := [next - i - 1] + data[i..next];
    }
  }

  lemma CodedStep(data: Bytes, i: nat)
    requires i < |data|
    ensures Compressed(data[i..]) == Piece(data[i..]) + Compressed(data[i + Taken(data[i..])..])
  {
    assert data[i..][Taken(data[i..])..] == data[i + Taken(data[i..])..];
  }

  lemma Regroup(a: Bytes, b: Bytes, c: Bytes)
    ensures a + (b + c) == (a + b) + c
  {
  }

  method LiteralEnd(data: Bytes, start: nat) returns (end: nat)
    requires start < |data|
    ensures end == start + LiteralLength(data[start..], MAX_LITERAL)
  {
    hide RunLength;
    end := start;
    ghost var left: nat := MAX_LITERAL;
    while end < |data| && end - start < MAX_LITERAL
      invariant start <= end <= |data| && left == MAX_LITERAL - (end - start)
      invariant LiteralLength(data[start..], MAX_LITERAL) == end - start + LiteralLength(data[end..], left)
    {
      var nextRunEnd := RunEnd(data, end);
      if nextRunEnd - end >= 3 {
        break;
      }
      assert data[end..][1..] == data[end + 1..];
      end, left := end + 1, left - 1;
    }
  }

  lemma LiteralStep(data: Bytes, i: nat)
    requires i < |data| && data[i] <= 127
    ensures var next := i + 1 + (data[i] + 1);
            Decompressed(data[i..]) ==
              if next > |data| then None else Prepend(data[i + 1..next], Decompressed(data[next..]))
  {
    var here, next := data[i..], i + 1 + (data[i] + 1);
    if next <= |data| {
      assert here[1..data[i] + 2] == data[i + 1..next] && here[data[i] + 2..] == data[next..];
    }
  }

  lemma RunStep(data: Bytes, i: nat)
    requires i < |data| && data[i] > 127
    ensures Decompressed(data[i..]) ==
              if i + 1 >= |data| then None else Prepend(Repeat(data[i + 1], data[i] - 125), Decompressed(data[i + 2..]))
  {
    if i + 1 < |data| {
      assert data[i..][2..] == data[i + 2..];
    }
  }

  method RLEDecompress(data: Bytes) returns (out: Option<Bytes>)
    ensures out == Decompressed(data)
  {
    hide Repeat, Decompressed;
    var i := 0;
    var done: Bytes := [];
    assert data[0..] == data;
    PrependNothing(Decompressed(data));
    while i < |data|
      invariant 0 <= i <= |data| && Decompressed(data) == Prepend(done, Decompressed(data[i..]))
    {
      var ctrl := data[i];
      if ctrl <= 127 {
        LiteralStep(data, i);
      } else {
        RunStep(data, i);
      }
      i := i + 1;
      if ctrl <= 127 {
        var len := ctrl + 1;
        if i + len > |data| {
          return None;
        }
        PrependTwice(done, data[i..i + len], Decompressed(data[i + len..]));
        done := done + data[i..i + len];
        i := i + len;
      } else {
        var len := ctrl - 125;
        if i >= |data| {
          return None;
        }
        PrependTwice(done, Repeat(data[i], len), Decompressed(data[i + 1..]));
        done := done + Repeat(data[i], len);
        i := i + 1;
      }
    }
    NothingLeft(data);
    assert done + [] == done;
    return Some(done);
  }

  lemma NothingLeft(data: Bytes)
    ensures Decompressed(data[|data|..]) == Some([])
  {
  }

  lemma PrependNothing(rest: Option<Bytes>)
    ensures Prepend([], rest) == rest
  {
    if rest.Some? {
      assert [] + rest.value == rest.value;
    }
  }

  lemma PrependTwice(a: Bytes, b: Bytes, rest: Option<Bytes>)
    ensures Prepend(a, Prepend(b, rest)) == Prepend(a + b, rest)
  {
    if rest.Some? {
      assert a + (b + rest.value) == (a + b) + rest.value;
    }
  }
}
