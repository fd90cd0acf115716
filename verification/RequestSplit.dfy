/** Splitting a memory request into cache-line pieces (Core::initiateMemoryAccess). Addresses are 64-bit
    and wrap; request size and line size are 32-bit. */
module RequestSplit {
  import Bits
  import opened Common

  /** Where an access hit: unknown, or a level of the memory hierarchy (larger is farther). */
  datatype Where = Unknown | Level(n: int)

  /** One call of coreInitiateMemoryAccess: line address, offset in it, position in the caller's buffer, size. */
  datatype Piece = Piece(line: nat, offset: nat, buffer: nat, size: nat)
  {
    function Start(): nat { line + offset }
    function End(): nat { line + offset + size }
  }

  /** The address is the first of a line. */
  ghost predicate IsLine(a: nat, lineSize: nat)
    requires lineSize > 0
  {
    exists q: nat :: LineNumber(q, lineSize) == a
  }

  function LineNumber(q: nat, lineSize: nat): nat { q * lineSize }

  function AlignDown(a: nat, lineSize: nat): (r: nat)
    requires lineSize > 0
    ensures r <= a < r + lineSize
  {
    a - a % lineSize
  }

  /** The position in its line. */
  function Offset(a: nat, lineSize: nat): (o: nat)
    requires lineSize > 0
    ensures AlignDown(a, lineSize) + o == a && o < lineSize
  {
    a % lineSize
  }

  /** The farther of two answers; an unknown one does not count. */
  function Farther(a: Where, b: Where): Where {
    if a == Unknown || (b != Unknown && b.n > a.n) then b else a
  }

  predicate Request(address: nat, size: nat, lineSize: nat) {
    address < TWO_64 && size < TWO_32 && 0 < lineSize < TWO_32
  }

  /** The loop ends: its variable can pass the last line before it wraps, or there is no iteration at all
      because address+size wraps. */
  predicate Ends(address: nat, size: nat, lineSize: nat)
    requires Request(address, size, lineSize)
  {
    address + size >= TWO_64 || AlignDown(address + size, lineSize) + lineSize < TWO_64
  }

  /** pieces cover [address, upto) in order: no gap, no overlap, nothing empty, each inside one aligned
      line, each with its buffer position. */
  ghost predicate Tiles(pieces: seq<Piece>, address: nat, lineSize: nat, upto: nat)
    requires lineSize > 0
  {
    if |pieces| == 0 then upto == address
    else
      var p := pieces[|pieces| - 1];
      && p.size > 0 && p.End() == upto
      && IsLine(p.line, lineSize) && p.offset + p.size <= lineSize
      && p.Start() >= address && p.buffer == p.Start() - address
      && Tiles(pieces[..|pieces| - 1], address, lineSize, p.Start())
  }

  /** No line is accessed twice, and lines are accessed in order. */
  ghost predicate LinesAscend(pieces: seq<Piece>) {
    forall j, k :: 0 <= j < k < |pieces| ==> pieces[j].line < pieces[k].line
  }

  ghost predicate LinesBelow(pieces: seq<Piece>, line: nat) {
    forall k :: 0 <= k < |pieces| ==> pieces[k].line < line
  }

  function Farthest(pieces: seq<Piece>, outcome: Piece -> Where): Where {
    if |pieces| == 0 then Unknown
    else Farther(Farthest(pieces[..|pieces| - 1], outcome), outcome(pieces[|pieces| - 1]))
  }

  method InitiateMemoryAccess(component: int, address: nat, size: nat, lineSize: nat, outcome: Piece -> Where)
      returns (hit: Where, pieces: seq<Piece>)
    requires Request(address, size, lineSize) && (size > 0 ==> Ends(address, size, lineSize))
    ensures size == 0 ==> hit == Level(component) && pieces == []
    ensures size > 0 && address + size < TWO_64 ==> Tiles(pieces, address, lineSize, address + size)
    ensures LinesAscend(pieces)
    ensures size > 0 && address + size >= TWO_64 ==> pieces == []
    ensures size > 0 ==> hit == Farthest(pieces, outcome)
  {
    if size <= 0 { return Level(component), []; }
    var end := (address + size) % TWO_64;
    LineOrder(address, size, lineSize);
    if AlignDown(address, lineSize) > AlignDown(end, lineSize) { return Unknown, []; }
    hit, pieces := Lines(address, end, lineSize, outcome);
  }

  /** The first line is not above the last one exactly when address+size does not wrap. */
  lemma LineOrder(address: nat, size: nat, lineSize: nat)
    requires Request(address, size, lineSize)
    ensures address + size < TWO_64 ==> (address + size) % TWO_64 == address + size
    ensures AlignDown(address, lineSize) <= AlignDown((address + size) % TWO_64, lineSize) <==> address + size < TWO_64
  {
    var end := (address + size) % TWO_64;
    var first, last := AlignDown(address, lineSize), AlignDown(end, lineSize);
    Aligned(address, lineSize);
    Aligned(end, lineSize);
    if address + size < TWO_64 {
      if last < first { NextLine(last, first, lineSize); }
    } else {
      assert end == address + size - TWO_64;
    }
  }

  /** The loop over the lines. */
  method Lines(address: nat, end: nat, lineSize: nat, outcome: Piece -> Where)
      returns (hit: Where, pieces: seq<Piece>)
    requires lineSize > 0 && address < end && AlignDown(end, lineSize) + lineSize < TWO_64
    ensures Tiles(pieces, address, lineSize, end) && LinesAscend(pieces)
    ensures hit == Farthest(pieces, outcome)
  {
    hit, pieces := Unknown, [];
    var beginAligned, endAligned := AlignDown(address, lineSize), AlignDown(end, lineSize);
    Aligned(address, lineSize);
    Aligned(end, lineSize);
    if endAligned < beginAligned { NextLine(endAligned, beginAligned, lineSize); }
    var firstOffset, tail := Offset(address, lineSize), Offset(end, lineSize);
    var head := 0;
    var curr := beginAligned;
    ghost var upto := address;
    while curr <= endAligned
      invariant IsLine(curr, lineSize) && beginAligned <= curr <= endAligned + lineSize
      invariant upto == if curr == beginAligned then address else if curr <= endAligned then curr else end
      invariant head == upto - address
      invariant Tiles(pieces, address, lineSize, upto)
      invariant LinesAscend(pieces) && LinesBelow(pieces, curr)
      invariant hit == Farthest(pieces, outcome)
      decreases endAligned + lineSize - curr
    {
      var offset := if curr == beginAligned then firstOffset else 0;
      var n := if curr == endAligned then tail - offset else lineSize - offset;
      hit, pieces, head := Access(Piece(curr, offset, head, n), hit, pieces, outcome, address, lineSize);
      upto := upto + n;
      NextLine(curr, endAligned, lineSize);
      NoWrap(curr + lineSize);
      curr := (curr + lineSize) % TWO_64;
    }
  }

  /** The access to one line, if the request has bytes in it. */
  method Access(p: Piece, hit0: Where, pieces0: seq<Piece>, outcome: Piece -> Where,
                ghost address: nat, ghost lineSize: nat)
      returns (hit: Where, pieces: seq<Piece>, head: nat)
    requires lineSize > 0 && address + p.buffer == p.Start() && Tiles(pieces0, address, lineSize, p.Start())
    requires IsLine(p.line, lineSize) && p.offset + p.size <= lineSize
    requires LinesAscend(pieces0) && LinesBelow(pieces0, p.line) && hit0 == Farthest(pieces0, outcome)
    ensures Tiles(pieces, address, lineSize, p.End()) && head == p.End() - address
    ensures LinesAscend(pieces) && LinesBelow(pieces, p.line + lineSize) && hit == Farthest(pieces, outcome)
  {
    hit, pieces, head := hit0, pieces0, p.buffer;
    if p.size != 0 {
      OnePieceMore(pieces, address, lineSize, p.Start(), p, outcome);
      hit := Farther(hit, outcome(p));
      pieces := pieces + [p];
      head := head + p.size;
    }
  }

  lemma OnePieceMore(pieces: seq<Piece>, address: nat, lineSize: nat, upto: nat, p: Piece, outcome: Piece -> Where)
    requires lineSize > 0 && Tiles(pieces, address, lineSize, upto) && upto >= address
    requires p.Start() == upto && p.size > 0 && IsLine(p.line, lineSize) && p.offset + p.size <= lineSize
    requires p.buffer == upto - address && LinesAscend(pieces) && LinesBelow(pieces, p.line)
    ensures LinesAscend(pieces + [p]) && LinesBelow(pieces + [p], p.line + lineSize)
    ensures Tiles(pieces + [p], address, lineSize, p.End())
    ensures Farthest(pieces + [p], outcome) == Farther(Farthest(pieces, outcome), outcome(p))
  {
    assert (pieces + [p])[..|pieces|] == pieces;
  }

  lemma NoWrap(a: nat)
    requires a < TWO_64
    ensures a % TWO_64 == a
  {
  }

  lemma Aligned(a: nat, lineSize: nat)
    requires lineSize > 0
    ensures IsLine(AlignDown(a, lineSize), lineSize)
  {
    assert LineNumber(a / lineSize, lineSize) == AlignDown(a, lineSize);
  }

  /** Consecutive lines differ by the line size. */
  lemma NextLine(curr: nat, last: nat, lineSize: nat)
    requires lineSize > 0 && IsLine(curr, lineSize) && IsLine(last, lineSize) && curr <= last
    ensures IsLine(curr + lineSize, lineSize)
    ensures curr < last ==> curr + lineSize <= last
  {
    var q: nat :| LineNumber(q, lineSize) == curr;
    var r: nat :| LineNumber(r, lineSize) == last;
    assert LineNumber(q + 1, lineSize) == curr + lineSize;
    assert (r - q) * lineSize == last - curr;
    if q < r {
      Bits.MulAtLeast(r - q, lineSize);
    } else {
      assert (q - r) * lineSize >= 0;
    }
  }

  // ---------------------------------------------------------------- what the tiling means

  /** The buffer position of a piece is the total size of the pieces before it. */
  lemma {:induction false} BufferIsTotalIssued(pieces: seq<Piece>, address: nat, lineSize: nat, upto: nat, k: nat)
    requires lineSize > 0 && Tiles(pieces, address, lineSize, upto) && k < |pieces|
    ensures pieces[k].buffer == TotalSize(pieces[..k])
    ensures TotalSize(pieces) == upto - address
  {
    var n := |pieces| - 1;
    if n > 0 {
      BufferIsTotalIssued(pieces[..n], address, lineSize, pieces[n].Start(), if k < n then k else 0);
      if k < n { assert pieces[..n][..k] == pieces[..k]; }
    }
  }

  function TotalSize(pieces: seq<Piece>): nat {
    if |pieces| == 0 then 0 else TotalSize(pieces[..|pieces| - 1]) + pieces[|pieces| - 1].size
  }

  predicate Covers(p: Piece, b: nat) { p.Start() <= b < p.End() }

  /** A byte is in some piece exactly when it is in the request, and never in two. */
  lemma {:induction false} EveryByteOnce(pieces: seq<Piece>, address: nat, lineSize: nat, upto: nat, b: nat)
    requires lineSize > 0 && Tiles(pieces, address, lineSize, upto)
    ensures address <= upto
    ensures address <= b < upto <==> exists k :: 0 <= k < |pieces| && Covers(pieces[k], b)
    ensures forall j, k :: 0 <= j < k < |pieces| && Covers(pieces[j], b) ==> !Covers(pieces[k], b)
  {
    var n := |pieces| - 1;
    if n >= 0 {
      var pre, p := pieces[..n], pieces[n];
      EveryByteOnce(pre, address, lineSize, p.Start(), b);
      assert forall k :: 0 <= k < n ==> pre[k] == pieces[k];
      if address <= b < upto {
        if b >= p.Start() {
          assert Covers(pieces[n], b);
        } else {
          var k :| 0 <= k < n && Covers(pre[k], b);
          assert Covers(pieces[k], b);
        }
      }
      if k :| 0 <= k < |pieces| && Covers(pieces[k], b) {
        if k < n { assert Covers(pre[k], b); }
      }
    }
  }

  /** The returned level is the farthest of the known ones, and unknown only if none is known. */
  lemma {:induction false} FarthestIsMaximum(pieces: seq<Piece>, outcome: Piece -> Where)
    ensures Farthest(pieces, outcome) == Unknown <==> forall k :: 0 <= k < |pieces| ==> outcome(pieces[k]) == Unknown
    ensures Farthest(pieces, outcome) != Unknown ==>
              && (exists k :: 0 <= k < |pieces| && outcome(pieces[k]) == Farthest(pieces, outcome))
              && (forall k :: 0 <= k < |pieces| && outcome(pieces[k]) != Unknown ==>
                    outcome(pieces[k]).n <= Farthest(pieces, outcome).n)
  {
    var n := |pieces| - 1;
    if n >= 0 {
      FarthestIsMaximum(pieces[..n], outcome);
      assert forall k :: 0 <= k < n ==> pieces[..n][k] == pieces[k];
      assert outcome(pieces[n]) == outcome(pieces[n]);
    }
  }

  /** The line of a piece is that of its bytes. */
  lemma LineOfPiece(p: Piece, lineSize: nat)
    requires lineSize > 0 && p.size > 0 && IsLine(p.line, lineSize) && p.offset + p.size <= lineSize
    ensures p.line == AlignDown(p.End() - 1, lineSize)
  {
    var a := AlignDown(p.End() - 1, lineSize);
    Aligned(p.End() - 1, lineSize);
    if a < p.line { NextLine(a, p.line, lineSize); }
    if p.line < a { NextLine(p.line, a, lineSize); }
  }

  /** The last piece takes of the last line what the request has of it. */
  lemma LastPiece(pieces: seq<Piece>, address: nat, lineSize: nat, upto: nat)
    requires lineSize > 0 && |pieces| > 0 && Tiles(pieces, address, lineSize, upto) && LinesAscend(pieces)
    ensures address < upto
    ensures var line := AlignDown(upto - 1, lineSize); var start := if address > line then address else line;
            pieces[|pieces| - 1] == Piece(line, start - line, start - address, upto - start)
    ensures |pieces| > 1 <==> address < AlignDown(upto - 1, lineSize)
  {
    var n := |pieces| - 1;
    var p := pieces[n];
    LineOfPiece(p, lineSize);
    if n > 0 {
      var q := pieces[n - 1];
      assert pieces[..n][n - 1] == q && q.line < p.line;
      NextLine(q.line, p.line, lineSize);
      assert Tiles(pieces[..n], address, lineSize, p.Start());
    }
  }

  /** There is one way to cut a request into pieces that tile it with one access per line. */
  lemma {:induction false} OneTiling(xs: seq<Piece>, ys: seq<Piece>, address: nat, lineSize: nat, upto: nat)
    requires lineSize > 0 && Tiles(xs, address, lineSize, upto) && LinesAscend(xs)
    requires Tiles(ys, address, lineSize, upto) && LinesAscend(ys)
    ensures xs == ys
  {
    var n, m := |xs| - 1, |ys| - 1;
    if n >= 0 { LastPiece(xs, address, lineSize, upto); }
    if m >= 0 { LastPiece(ys, address, lineSize, upto); }
    if n >= 0 && m >= 0 {
      OneTiling(xs[..n], ys[..m], address, lineSize, xs[n].Start());
      assert xs == xs[..n] + [xs[n]] && ys == ys[..m] + [ys[m]];
    }
  }

  /** A request makes as many accesses as there are lines from its first byte's to its last byte's. */
  lemma {:induction false} OneAccessPerLine(pieces: seq<Piece>, address: nat, lineSize: nat, upto: nat)
    requires lineSize > 0 && address < upto && Tiles(pieces, address, lineSize, upto) && LinesAscend(pieces)
    ensures AlignDown(upto - 1, lineSize) == AlignDown(address, lineSize) + (|pieces| - 1) * lineSize
  {
    var n := |pieces| - 1;
    var p := pieces[n];
    LastPiece(pieces, address, lineSize, upto);
    if n == 0 {
      LineOfPiece(Piece(p.line, p.offset, p.buffer, 1), lineSize);
    } else {
      OneAccessPerLine(pieces[..n], address, lineSize, p.line);
      LineBefore(p.line, lineSize);
      OneMore(n, lineSize);
    }
  }

  lemma OneMore(n: nat, lineSize: nat)
    ensures n * lineSize == (n - 1) * lineSize + lineSize
  {
  }

  /** The line in front of a line starts one line size below it. */
  lemma LineBefore(line: nat, lineSize: nat)
    requires lineSize > 0 && line > 0 && IsLine(line, lineSize)
    ensures AlignDown(line - 1, lineSize) == line - lineSize
  {
    var a := AlignDown(line - 1, lineSize);
    Aligned(line - 1, lineSize);
    NextLine(a, line, lineSize);
  }

  // ---------------------------------------------------------------- when the loop ends

  /** The loop variable after n iterations, if the loop lets it run. */
  function LineAfter(address: nat, lineSize: nat, n: nat): nat
    requires lineSize > 0
  {
    (AlignDown(address, lineSize) + n * lineSize) % TWO_64
  }

  predicate LoopGuard(address: nat, size: nat, lineSize: nat, n: nat)
    requires Request(address, size, lineSize)
  {
    LineAfter(address, lineSize, n) <= AlignDown((address + size) % TWO_64, lineSize)
  }

  /** How many bytes of the address space the last line has: all of its own if the line size divides 2^64. */
  function Rest(lineSize: nat): (e: nat)
    requires 0 < lineSize < TWO_32
    ensures 0 < e <= lineSize
  {
    TWO_64 - AlignDown(TWO_64 - 1, lineSize)
  }

  /** The loop ends exactly when Ends says so or, for a request that ends in the last line, when the rest of the
      address space does not divide the line size: otherwise the variable wraps and never passes the last line. */
  lemma LoopEndsIff(address: nat, size: nat, lineSize: nat)
    requires Request(address, size, lineSize)
    ensures (exists n: nat :: !LoopGuard(address, size, lineSize, n))
            <==> Ends(address, size, lineSize) || lineSize % Rest(lineSize) != 0
  {
    if Ends(address, size, lineSize) {
      var n := LoopStops(address, size, lineSize);
      assert !LoopGuard(address, size, lineSize, n);
    } else {
      LastLine(address + size, lineSize);
      if lineSize % Rest(lineSize) != 0 {
        var n := LoopSlips(address, size, lineSize);
        assert !LoopGuard(address, size, lineSize, n);
      } else {
        forall n: nat ensures LoopGuard(address, size, lineSize, n) { LoopRunsOn(address, size, lineSize, n); }
      }
    }
  }

  /** For line sizes that divide 2^64 Ends is the whole condition. */
  lemma RestOfDivisor(lineSize: nat)
    requires 0 < lineSize < TWO_32
    ensures IsLine(TWO_64, lineSize) <==> Rest(lineSize) == lineSize
  {
    Aligned(TWO_64 - 1, lineSize);
    var last := AlignDown(TWO_64 - 1, lineSize);
    NextLine(last, last, lineSize);
    if IsLine(TWO_64, lineSize) { NextLine(last, TWO_64, lineSize); }
  }

  /** An address whose next line lies outside the address space is in the last line. */
  lemma LastLine(end: nat, lineSize: nat)
    requires 0 < lineSize < TWO_32 && end < TWO_64 <= AlignDown(end, lineSize) + lineSize
    ensures AlignDown(end, lineSize) == TWO_64 - Rest(lineSize)
  {
    Aligned(end, lineSize);
    Aligned(TWO_64 - 1, lineSize);
    var a, b := AlignDown(end, lineSize), AlignDown(TWO_64 - 1, lineSize);
    if a < b { NextLine(a, b, lineSize); }
    if b < a { NextLine(b, a, lineSize); }
  }

  /** The variable wraps often enough to come out behind the last line by the remainder. */
  lemma LoopSlips(address: nat, size: nat, lineSize: nat) returns (n: nat)
    requires Request(address, size, lineSize) && address + size < TWO_64
    requires AlignDown(address + size, lineSize) == TWO_64 - Rest(lineSize) && lineSize % Rest(lineSize) != 0
    ensures !LoopGuard(address, size, lineSize, n)
  {
    Aligned(address, lineSize);
    Aligned(address + size, lineSize);
    LineOrder(address, size, lineSize);
    n := SlipsOut(AlignDown(address, lineSize), TWO_64 - Rest(lineSize), Rest(lineSize), lineSize);
  }

  lemma SlipsOut(first: nat, last: nat, e: nat, lineSize: nat) returns (n: nat)
    requires e > 0 && last + e == TWO_64 && lineSize > 0 && lineSize % e != 0 && first <= last
    requires IsLine(first, lineSize) && IsLine(last, lineSize)
    ensures (first + n * lineSize) % TWO_64 > last
  {
    var q: nat :| LineNumber(q, lineSize) == last;
    var p: nat :| LineNumber(p, lineSize) == first;
    assert (p - q) * lineSize == first - last;
    if q < p { Bits.MulAtLeast(p - q, lineSize); }
    var t: nat, s: nat := Bits.Quotient(lineSize, e), lineSize % e;
    assert lineSize == e * t + s;
    n := SlipAt(first, last, p, q, t, s, e, lineSize);
  }

  lemma SlipAt(first: nat, last: nat, p: nat, q: nat, t: nat, s: nat, e: nat, lineSize: nat) returns (n: nat)
    requires first == p * lineSize && last == q * lineSize && p <= q && e + last == TWO_64 && lineSize == e * t + s
    requires 0 < s < e
    ensures (first + n * lineSize) % TWO_64 > last
  {
    Slip(first, last, p, q, t, s, e, lineSize);
    n := q + 1 + t * q - p;
    Bits.DivModUnique(first + n * lineSize, TWO_64, t, last + s);
  }

  lemma Slip(first: nat, last: nat, p: nat, q: nat, t: nat, s: nat, e: nat, lineSize: nat)
    requires first == p * lineSize && last == q * lineSize && p <= q && e + last == TWO_64 && lineSize == e * t + s
    ensures q + 1 + t * q >= p
    ensures first + (q + 1 + t * q - p) * lineSize == t * TWO_64 + (last + s)
  {
    assert t * q >= 0;
    assert (q + 1 + t * q - p) * lineSize == q * lineSize + lineSize + (t * q) * lineSize - p * lineSize;
    assert (t * q) * lineSize == t * (q * lineSize) == t * last;
    assert t * TWO_64 == t * e + t * last;
  }

  lemma LoopStops(address: nat, size: nat, lineSize: nat) returns (n: nat)
    requires Request(address, size, lineSize) && Ends(address, size, lineSize)
    ensures !LoopGuard(address, size, lineSize, n)
  {
    var end := (address + size) % TWO_64;
    var first, last := AlignDown(address, lineSize), AlignDown(end, lineSize);
    if address + size >= TWO_64 {
      LineOrder(address, size, lineSize);
      assert first + 0 * lineSize == first && first % TWO_64 == first;
      n := 0;
    } else {
      LineOrder(address, size, lineSize);
      Aligned(address, lineSize);
      Aligned(end, lineSize);
      n := LinesBetween(first, last, lineSize);
    }
  }

  /** Steps of one line from the first line to just past the last. */
  lemma LinesBetween(first: nat, last: nat, lineSize: nat) returns (n: nat)
    requires lineSize > 0 && IsLine(first, lineSize) && IsLine(last, lineSize) && first <= last
    requires last + lineSize < TWO_64
    ensures (first + n * lineSize) % TWO_64 == last + lineSize
  {
    var q: nat :| LineNumber(q, lineSize) == first;
    var r: nat :| LineNumber(r, lineSize) == last;
    assert (q - r) * lineSize == first - last;
    if r < q { Bits.MulAtLeast(q - r, lineSize); }
    n := r - q + 1;
    assert n * lineSize == last - first + lineSize;
  }

  lemma LoopRunsOn(address: nat, size: nat, lineSize: nat, n: nat)
    requires Request(address, size, lineSize) && address + size < TWO_64
    requires AlignDown(address + size, lineSize) == TWO_64 - Rest(lineSize) && lineSize % Rest(lineSize) == 0
    ensures LoopGuard(address, size, lineSize, n)
  {
    Aligned(address, lineSize);
    Aligned(address + size, lineSize);
    LineOrder(address, size, lineSize);
    NeverOut(AlignDown(address, lineSize), TWO_64 - Rest(lineSize), Rest(lineSize), lineSize, n);
  }

  lemma NeverOut(first: nat, last: nat, e: nat, lineSize: nat, n: nat)
    requires e > 0 && last + e == TWO_64 && lineSize > 0 && lineSize % e == 0
    requires IsLine(first, lineSize) && IsLine(last, lineSize)
    ensures (first + n * lineSize) % TWO_64 <= last
  {
    LinesOfLines(first, lineSize, e);
    LinesOfLines(last, lineSize, e);
    NextLine(last, last, e);
    LinesOfSteps(n, lineSize, e);
    AlwaysALine(first, n * lineSize, e);
  }

  /** A multiple of a multiple of e is a multiple of e. */
  lemma LinesOfLines(a: nat, lineSize: nat, e: nat)
    requires lineSize > 0 && e > 0 && IsLine(a, lineSize) && lineSize % e == 0
    ensures IsLine(a, e)
  {
    var q: nat :| LineNumber(q, lineSize) == a;
    LinesOfSteps(q, lineSize, e);
  }

  lemma LinesOfSteps(n: nat, lineSize: nat, e: nat)
    requires e > 0 && lineSize % e == 0
    ensures IsLine(n * lineSize, e)
  {
    var t := lineSize / e;
    assert lineSize == t * e;
    assert n * (t * e) == (n * t) * e;
    assert LineNumber(n * t, e) == n * lineSize;
  }

  /** A multiple of e, taken modulo a multiple 2^64 of e, is at most 2^64-e. */
  lemma AlwaysALine(first: nat, steps: nat, e: nat)
    requires 0 < e <= TWO_64 && IsLine(first, e) && IsLine(steps, e) && IsLine(TWO_64, e)
    ensures (first + steps) % TWO_64 <= TWO_64 - e
  {
    var v, k := (first + steps) % TWO_64, (first + steps) / TWO_64;
    var q: nat :| LineNumber(q, e) == first;
    var r: nat :| LineNumber(r, e) == steps;
    var m: nat :| LineNumber(m, e) == TWO_64;
    assert first + steps == v + k * TWO_64;
    assert (q + r) * e == q * e + r * e;
    WrappedLine(v, q + r, k, m, e);
    NextLine(v, TWO_64, e);
  }

  lemma WrappedLine(v: nat, x: nat, k: nat, m: nat, lineSize: nat)
    requires lineSize > 0 && x * lineSize == v + k * (m * lineSize)
    ensures IsLine(v, lineSize)
  {
    assert k * (m * lineSize) == (k * m) * lineSize;
    assert (x - k * m) * lineSize == x * lineSize - (k * m) * lineSize == v;
    assert (k * m - x) * lineSize == -(v as int);
    if x < k * m { Bits.MulAtLeast(k * m - x, lineSize); }
    assert LineNumber(x - k * m, lineSize) == v;
  }
}
