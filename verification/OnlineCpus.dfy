/** Reading the kernel's list of online CPUs, such as "0-3,5,8-11". */
module OnlineCpus {
  import opened Wrappers
  import opened Text

  const MAX_UINT16 := 65535

  datatype Segment = Malformed | Interval(lo: nat, hi: nat)

  datatype ListError = EmptyFile | BadSegment

  /** What one comma-separated piece of the list denotes. */
  function SegmentOf(s: string): Segment
  {
    var parts := Split(s, '-');
    if |parts| >= 3 then Malformed
    else if |parts| == 2 then
      match (ParseUint(parts[0], MAX_UINT16), ParseUint(parts[1], MAX_UINT16))
      case (Some(lo), Some(hi)) => if lo > hi then Malformed else Interval(lo, hi)
      case _ => Malformed
    else
      match ParseUint(s, MAX_UINT16)
      case None => Malformed
      case Some(v) => Interval(v, v)
  }

  predicate Contains(s: Segment, cpu: nat)
  {
    s.Interval? && s.lo <= cpu <= s.hi
  }

  /** Scanning left to right: the first piece that matches or is malformed decides. */
  function Scan(pieces: seq<string>, cpu: nat): Result<bool, ListError>
  {
    if pieces == [] then Ok(false)
    else if SegmentOf(pieces[0]).Malformed? then Err(BadSegment)
    else if Contains(SegmentOf(pieces[0]), cpu) then Ok(true)
    else Scan(pieces[1..], cpu)
  }

  function Online(content: string, cpu: nat): Result<bool, ListError>
  {
    if content == "" then Err(EmptyFile) else Scan(Split(TrimSpace(content), ','), cpu)
  }

  method IsCpuOnline(content: string, cpu: nat) returns (r: Result<bool, ListError>)
    ensures r == Online(content, cpu)
  {
    if |content| == 0 {
      return Err(EmptyFile);
    }
    var pieces := Split(TrimSpace(content), ',');
    for i := 0 to |pieces|
      invariant Scan(pieces, cpu) == Scan(pieces[i..], cpu)
    {
      assert pieces[i..][0] == pieces[i] && pieces[i..][1..] == pieces[i + 1..];
      var parts := Split(pieces[i], '-');
      if |parts| >= 3 {
        return Err(BadSegment);
      } else if |parts| == 2 {
        var min := ParseUint(parts[0], MAX_UINT16);
        if min.None? {
          return Err(BadSegment);
        }
        var max := ParseUint(parts[1], MAX_UINT16);
        if max.None? {
          return Err(BadSegment);
        }
        if min.value > max.value {
          return Err(BadSegment);
        }
        if cpu >= min.value && cpu <= max.value {
          return Ok(true);
        }
      } else {
        var value := ParseUint(pieces[i], MAX_UINT16);
        if value.None? {
          return Err(BadSegment);
        }
        if value.value == cpu {
          return Ok(true);
        }
      }
    }
    return Ok(false);
  }

  // ----- Which piece decides -----

  /** Piece i contains the CPU and every piece before it is well formed. */
  predicate FoundAt(pieces: seq<string>, cpu: nat, i: nat)
    requires i < |pieces|
  {
    && Contains(SegmentOf(pieces[i]), cpu)
    && forall j :: 0 <= j < i ==> !SegmentOf(pieces[j]).Malformed?
  }

  /** Piece i is malformed and no piece before it contains the CPU. */
  predicate BrokenAt(pieces: seq<string>, cpu: nat, i: nat)
    requires i < |pieces|
  {
    && SegmentOf(pieces[i]).Malformed?
    && forall j :: 0 <= j < i ==> !Contains(SegmentOf(pieces[j]), cpu)
  }

  ghost predicate Found(pieces: seq<string>, cpu: nat)
  {
    exists i :: 0 <= i < |pieces| && FoundAt(pieces, cpu, i)
  }

  ghost predicate Broken(pieces: seq<string>, cpu: nat)
  {
    exists i :: 0 <= i < |pieces| && BrokenAt(pieces, cpu, i)
  }

  predicate Decisive(pieces: seq<string>, cpu: nat, i: nat)
    requires i < |pieces|
  {
    SegmentOf(pieces[i]).Malformed? || Contains(SegmentOf(pieces[i]), cpu)
  }

  lemma {:induction false} FirstDecisive(pieces: seq<string>, cpu: nat, from: nat) returns (k: nat)
    requires from <= |pieces|
    ensures from <= k <= |pieces|
    ensures forall j :: from <= j < k ==> !Decisive(pieces, cpu, j)
    ensures k < |pieces| ==> Decisive(pieces, cpu, k)
    ensures Scan(pieces[from..], cpu) ==
            if k == |pieces| then Ok(false)
            else if SegmentOf(pieces[k]).Malformed? then Err(BadSegment)
            else Ok(true)
    decreases |pieces| - from
  {
    if from == |pieces| || Decisive(pieces, cpu, from) {
      k := from;
    } else {
      assert pieces[from..][1..] == pieces[from + 1..];
      k := FirstDecisive(pieces, cpu, from + 1);
    }
  }

  lemma ScanDecides(pieces: seq<string>, cpu: nat)
    ensures Scan(pieces, cpu) == Ok(true) <==> Found(pieces, cpu)
    ensures Scan(pieces, cpu).Err? <==> Broken(pieces, cpu)
  {
    var k := FirstDecisive(pieces, cpu, 0);
    assert pieces[0..] == pieces;
    forall j | 0 <= j < k
      ensures !SegmentOf(pieces[j]).Malformed? && !Contains(SegmentOf(pieces[j]), cpu)
    {
      assert !Decisive(pieces, cpu, j);
    }
    if k < |pieces| {
      assert FoundAt(pieces, cpu, k) <==> Contains(SegmentOf(pieces[k]), cpu);
      assert BrokenAt(pieces, cpu, k) <==> SegmentOf(pieces[k]).Malformed?;
    }
    forall i | 0 <= i < |pieces| && (FoundAt(pieces, cpu, i) || BrokenAt(pieces, cpu, i))
      ensures k <= i
    {
      assert Decisive(pieces, cpu, i);
    }
  }

  /**
   The answer is yes exactly when some piece contains the CPU and all earlier ones are well formed, and an
   error exactly when the file is empty or a malformed piece comes before any match.
   */
  lemma OnlineExactly(content: string, cpu: nat)
    ensures Online(content, cpu) == Ok(true) <==> content != "" && Found(Split(TrimSpace(content), ','), cpu)
    ensures Online(content, cpu).Err? <==> content == "" || Broken(Split(TrimSpace(content), ','), cpu)
  {
    ScanDecides(Split(TrimSpace(content), ','), cpu);
  }

  // ----- The texts of pieces -----

  /** The digits of a 16-bit number, leading zeros included. */
  predicate Writes(s: string, n: nat)
  {
    s != "" && AllDigits(s) && Value(s) == n && n <= 65535
  }

  lemma DigitsArePlain(s: string)
    requires AllDigits(s)
    ensures SpaceFree(s) && '-' !in s && ',' !in s
  {
  }

  lemma SegmentOfNumber(s: string, n: nat)
    requires Writes(s, n)
    ensures SegmentOf(s) == Interval(n, n)
  {
    DigitsArePlain(s);
    SplitWhole(s, '-');
  }

  lemma SegmentOfPair(x: string, y: string, lo: nat, hi: nat)
    requires Writes(x, lo) && Writes(y, hi)
    ensures SegmentOf(x + "-" + y) == if lo <= hi then Interval(lo, hi) else Malformed
  {
    DigitsArePlain(x);
    DigitsArePlain(y);
    SplitFirst(x, y, '-');
    SplitWhole(y, '-');
  }

  lemma TextOfSegment(s: string)
    requires SegmentOf(s).Interval?
    ensures var Interval(lo, hi) := SegmentOf(s);
            || (lo == hi && Writes(s, lo))
            || (lo <= hi && exists x, y :: s == x + "-" + y && Writes(x, lo) && Writes(y, hi))
  {
    var parts := Split(s, '-');
    JoinOfSplit(s, '-');
    if |parts| == 2 {
      var x, y := parts[0], parts[1];
      assert Join(parts[1..], '-') == y;
      assert s == x + "-" + y;
      var Interval(lo, hi) := SegmentOf(s);
      assert Writes(x, lo) && Writes(y, hi);
    }
  }

  /** A piece denotes an interval exactly when it is a 16-bit number or two of them, in order, around a hyphen. */
  lemma SegmentExactly(s: string, lo: nat, hi: nat)
    ensures SegmentOf(s) == Interval(lo, hi)
            <==> || (lo == hi && Writes(s, lo))
                 || (lo <= hi && exists x, y :: s == x + "-" + y && Writes(x, lo) && Writes(y, hi))
  {
    if SegmentOf(s) == Interval(lo, hi) {
      TextOfSegment(s);
    }
    if lo == hi && Writes(s, lo) {
      SegmentOfNumber(s, lo);
    }
    if lo <= hi {
      forall x, y | s == x + "-" + y && Writes(x, lo) && Writes(y, hi)
        ensures SegmentOf(s) == Interval(lo, hi)
      {
        SegmentOfPair(x, y, lo, hi);
      }
    }
  }

  // ----- Printed lists -----

  function PrintInterval(lo: nat, hi: nat): string
  {
    if lo == hi then Decimal(lo) else Decimal(lo) + "-" + Decimal(hi)
  }

  lemma PiecesOfInterval(lo: nat, hi: nat)
    ensures Split(PrintInterval(lo, hi), '-') == if lo == hi then [Decimal(lo)] else [Decimal(lo), Decimal(hi)]
  {
    DigitsArePlain(Decimal(lo));
    DigitsArePlain(Decimal(hi));
    if lo == hi {
      SplitWhole(Decimal(lo), '-');
    } else {
      SplitFirst(Decimal(lo), Decimal(hi), '-');
      SplitWhole(Decimal(hi), '-');
    }
  }

  lemma SegmentOfPrinted(lo: nat, hi: nat)
    requires lo <= hi <= MAX_UINT16
    ensures SegmentOf(PrintInterval(lo, hi)) == Interval(lo, hi)
  {
    ValueOfDecimal(lo);
    ValueOfDecimal(hi);
    PiecesOfInterval(lo, hi);
  }

  lemma PrintedIsPlain(lo: nat, hi: nat)
    ensures SpaceFree(PrintInterval(lo, hi)) && ',' !in PrintInterval(lo, hi)
  {
    DigitsArePlain(Decimal(lo));
    DigitsArePlain(Decimal(hi));
  }

  datatype Range = Range(lo: nat, hi: nat)

  predicate IsRange(r: Range)
  {
    r.lo <= r.hi <= MAX_UINT16
  }

  function PrintAll(ranges: seq<Range>): (pieces: seq<string>)
    ensures |pieces| == |ranges|
    ensures forall i :: 0 <= i < |pieces| ==> pieces[i] == PrintInterval(ranges[i].lo, ranges[i].hi)
  {
    seq(|ranges|, i requires 0 <= i < |ranges| => PrintInterval(ranges[i].lo, ranges[i].hi))
  }

  /** The kernel's file: the ranges separated by commas, and a newline. */
  function PrintList(ranges: seq<Range>): string
  {
    Join(PrintAll(ranges), ',') + "\n"
  }

  lemma PiecesOfPrinted(ranges: seq<Range>)
    requires ranges != []
    ensures Split(TrimSpace(PrintList(ranges)), ',') == PrintAll(ranges)
  {
    var pieces := PrintAll(ranges);
    forall i | 0 <= i < |pieces|
      ensures SpaceFree(pieces[i]) && ',' !in pieces[i]
    {
      PrintedIsPlain(ranges[i].lo, ranges[i].hi);
    }
    JoinSpaceFree(pieces, ',');
    SplitOfJoin(pieces, ',');
    var joined := Join(pieces, ',');
    assert joined != "" by {
      assert |pieces[0]| >= 1;
    }
    TrimLine(joined);
  }

  ghost predicate InUnion(ranges: seq<Range>, cpu: nat)
  {
    exists i :: 0 <= i < |ranges| && ranges[i].lo <= cpu <= ranges[i].hi
  }

  lemma ScanOfPrinted(ranges: seq<Range>, cpu: nat)
    requires forall i :: 0 <= i < |ranges| ==> IsRange(ranges[i])
    ensures Scan(PrintAll(ranges), cpu) == Ok(InUnion(ranges, cpu))
  {
    var pieces := PrintAll(ranges);
    forall i | 0 <= i < |pieces|
      ensures SegmentOf(pieces[i]) == Interval(ranges[i].lo, ranges[i].hi)
    {
      SegmentOfPrinted(ranges[i].lo, ranges[i].hi);
    }
    var k := FirstDecisive(pieces, cpu, 0);
    assert pieces[0..] == pieces;
    forall j | 0 <= j < k
      ensures !(ranges[j].lo <= cpu <= ranges[j].hi)
    {
      assert !Decisive(pieces, cpu, j);
    }
  }

  /** On the text printed from any non-empty list of 16-bit ranges the answer is membership in their union. */
  lemma OnlineOnPrintedList(ranges: seq<Range>, cpu: nat)
    requires ranges != [] && forall i :: 0 <= i < |ranges| ==> ranges[i].lo <= ranges[i].hi <= 65535
    ensures Online(PrintList(ranges), cpu) == Ok(InUnion(ranges, cpu))
  {
    PiecesOfPrinted(ranges);
    ScanOfPrinted(ranges, cpu);
  }
}
