/** Removing the swap entries from /etc/fstab. */
module Fstab {
  import opened Wrappers
  import opened Text

  // ----- Lines, as the line scanner delivers them -----

  /** A line without the carriage return that may end it. */
  function DropCR(line: string): string
  {
    if line != "" && line[|line| - 1] == '\r' then line[..|line| - 1] else line
  }

  /** The lines of a text; a final newline does not start another line. */
  function Lines(text: string): seq<string>
    decreases |text|
  {
    if text == "" then []
    else
      var end := Find(text, '\n');
      [DropCR(text[..end])] + (if end == |text| then [] else Lines(text[end + 1..]))
  }

  /** Lines written back, each ended by a newline. */
  function Unlines(lines: seq<string>): string
  {
    if lines == [] then "" else lines[0] + "\n" + Unlines(lines[1..])
  }

  // ----- Entries -----

  datatype Mount = Mount(spec: string, file: string, vfsType: string)

  datatype Parsed = Blank | Entry(mount: Mount) | TooFewFields

  /** How many characters s starts with that are not space. */
  function WordLength(s: string): (n: nat)
    ensures n <= |s|
    ensures n < |s| ==> IsSpace(s[n])
  {
    if s == "" || IsSpace(s[0]) then 0 else 1 + WordLength(s[1..])
  }

  /** The maximal runs of characters that are not space. */
  function Fields(s: string): seq<string>
    decreases |s|
  {
    var t := TrimLeft(s);
    if t == "" then []
    else
      var n := WordLength(t);
      [t[..n]] + Fields(t[n..])
  }

  function ParseFstabLine(line: string): Parsed
  {
    var trimmed := TrimSpace(line);
    if trimmed == "" || trimmed[0] == '#' then Blank
    else
      var fields := Fields(trimmed);
      if |fields| < 3 then TooFewFields else Entry(Mount(fields[0], fields[1], fields[2]))
  }

  // ----- Words and gaps -----

  predicate IsWord(s: string)
  {
    s != "" && SpaceFree(s)
  }

  predicate IsGap(s: string)
  {
    forall i :: 0 <= i < |s| ==> IsSpace(s[i])
  }

  /** The words of an entry and the white space after each; only the last gap may be empty. */
  predicate IsLayout(words: seq<string>, gaps: seq<string>)
  {
    && |words| == |gaps|
    && (forall i :: 0 <= i < |words| ==> IsWord(words[i]) && IsGap(gaps[i]))
    && (forall i :: 0 <= i < |words| - 1 ==> gaps[i] != "")
  }

  function Spread(words: seq<string>, gaps: seq<string>): string
    requires |words| == |gaps|
  {
    if words == [] then "" else words[0] + gaps[0] + Spread(words[1..], gaps[1..])
  }

  lemma {:induction false} TrimLeftGap(gap: string, rest: string)
    requires IsGap(gap)
    ensures TrimLeft(gap + rest) == TrimLeft(rest)
  {
    if gap == "" {
      assert gap + rest == rest;
    } else {
      assert (gap + rest)[1..] == gap[1..] + rest;
      TrimLeftGap(gap[1..], rest);
    }
  }

  lemma {:induction false} WordLengthOf(word: string, rest: string)
    requires SpaceFree(word) && (rest == "" || IsSpace(rest[0]))
    ensures WordLength(word + rest) == |word|
  {
    if word == "" {
      assert word + rest == rest;
    } else {
      assert (word + rest)[1..] == word[1..] + rest;
      WordLengthOf(word[1..], rest);
    }
  }

  lemma FieldsOfGap(gap: string, rest: string)
    requires IsGap(gap)
    ensures Fields(gap + rest) == Fields(rest)
  {
    TrimLeftGap(gap, rest);
  }

  lemma FieldsOfWord(word: string, rest: string)
    requires IsWord(word) && (rest == "" || IsSpace(rest[0]))
    ensures Fields(word + rest) == [word] + Fields(rest)
  {
    var s := word + rest;
    assert s[0] == word[0] && TrimLeft(s) == s;
    WordLengthOf(word, rest);
    assert s[..|word|] == word && s[|word|..] == rest;
  }

  /** Fields finds the words, whatever white space separates them. */
  lemma {:induction false} FieldsOfSpread(words: seq<string>, gaps: seq<string>)
    requires IsLayout(words, gaps)
    ensures Fields(Spread(words, gaps)) == words
  {
    if words != [] {
      var rest := Spread(words[1..], gaps[1..]);
      assert words[0] + gaps[0] + rest == words[0] + (gaps[0] + rest);
      FieldsOfSpread(words[1..], gaps[1..]);
      FieldsOfWord(words[0], gaps[0] + rest);
      FieldsOfGap(gaps[0], rest);
    }
  }

  lemma {:induction false} TrimRightGap(s: string, gap: string)
    requires IsGap(gap)
    ensures TrimRight(s + gap) == TrimRight(s)
  {
    if gap == "" {
      assert s + gap == s;
    } else {
      var init := gap[..|gap| - 1];
      assert (s + gap)[..|s + gap| - 1] == s + init;
      TrimRightGap(s, init);
    }
  }

  lemma Regroup(word: string, gap: string, rest: string, end: string)
    ensures word + gap + (rest + end) == (word + gap + rest) + end
  {
  }

  /** A layout without the gap at its end. */
  lemma {:induction false} SpreadWithoutLastGap(words: seq<string>, gaps: seq<string>)
    requires words != [] && IsLayout(words, gaps)
    ensures var last := |gaps| - 1;
            Spread(words, gaps) == Spread(words, gaps[last := ""]) + gaps[last]
  {
    var last := |gaps| - 1;
    if last == 0 {
      assert Spread(words[1..], gaps[1..]) == "" && Spread(words[1..], gaps[last := ""][1..]) == "";
    } else {
      SpreadWithoutLastGap(words[1..], gaps[1..]);
      assert gaps[last := ""][1..] == gaps[1..][last - 1 := ""];
      Regroup(words[0], gaps[0], Spread(words[1..], gaps[1..][last - 1 := ""]), gaps[last]);
    }
  }

  lemma {:induction false} SpreadEnds(words: seq<string>, gaps: seq<string>)
    requires words != [] && IsLayout(words, gaps) && gaps[|gaps| - 1] == ""
    ensures var s := Spread(words, gaps);
            s != "" && s[0] == words[0][0] && !IsSpace(s[0]) && !IsSpace(s[|s| - 1])
  {
    var rest := Spread(words[1..], gaps[1..]);
    if |words| > 1 {
      SpreadEnds(words[1..], gaps[1..]);
      assert Spread(words, gaps)[|words[0]| + |gaps[0]| + |rest| - 1] == rest[|rest| - 1];
    } else {
      assert rest == "" && Spread(words, gaps) == words[0];
    }
  }

  /**
   How a line parses, by its words: no words or a leading # is blank, fewer than three words is an error, and
   otherwise the first three words are the entry.
   */
  lemma ParseByWords(lead: string, words: seq<string>, gaps: seq<string>)
    requires IsGap(lead) && IsLayout(words, gaps)
    ensures ParseFstabLine(lead + Spread(words, gaps))
            == if words == [] || words[0][0] == '#' then Blank
               else if |words| < 3 then TooFewFields
               else Entry(Mount(words[0], words[1], words[2]))
  {
    TrimLeftGap(lead, Spread(words, gaps));
    if words == [] {
      assert TrimSpace(lead + "") == "";
    } else {
      var last := |gaps| - 1;
      var s := Spread(words, gaps[last := ""]);
      SpreadWithoutLastGap(words, gaps);
      SpreadEnds(words, gaps[last := ""]);
      assert TrimLeft(s + gaps[last]) == s + gaps[last];
      TrimRightGap(s, gaps[last]);
      assert TrimSpace(lead + Spread(words, gaps)) == s;
      FieldsOfSpread(words, gaps[last := ""]);
    }
  }

  const SWAP := "swap"

  predicate IsSwapEntry(p: Parsed)
  {
    p.Entry? && p.mount.vfsType == SWAP
  }

  predicate IsSwap(line: string)
  {
    IsSwapEntry(ParseFstabLine(line))
  }

  predicate IsMalformed(line: string)
  {
    ParseFstabLine(line).TooFewFields?
  }

  // ----- The rewrite -----

  datatype Outcome = Rewritten | SyntaxError(lineNo: nat) | IOError

  type LineParser = string -> Parsed

  /** The lines among the first n that stay. */
  function Kept(parse: LineParser, lines: seq<string>, n: nat): seq<string>
    requires n <= |lines|
  {
    if n == 0 then []
    else Kept(parse, lines, n - 1) + (if IsSwapEntry(parse(lines[n - 1])) then [] else [lines[n - 1]])
  }

  /** The lines that a rewrite leaves. */
  function Left(text: string): seq<string>
  {
    Kept(ParseFstabLine, Lines(text), |Lines(text)|)
  }

  function Rewrite(text: string): string
  {
    Unlines(Left(text))
  }

  predicate AllWellFormed(text: string)
  {
    forall i :: 0 <= i < |Lines(text)| ==> !IsMalformed(Lines(text)[i])
  }

  class File {
    var content: string
    ghost var faulted: bool  // whether any operation on the file has failed

    constructor (content: string)
      ensures this.content == content && !faulted
    {
      this.content, faulted := content, false;
    }

    method Seek() returns (ok: bool)
      modifies this`faulted
      ensures faulted <==> old(faulted) || !ok
    {
      ok := *;
      if !ok {
        faulted := true;
      }
    }

    method Truncate() returns (ok: bool)
      modifies this
      ensures content == if ok then "" else old(content)
      ensures faulted <==> old(faulted) || !ok
    {
      ok := *;
      if !ok {
        faulted := true;
      } else {
        content := "";
      }
    }

    /** Writes to an empty file; a failure may have written any part of the text. */
    method WriteAll(text: string) returns (ok: bool)
      modifies this
      ensures ok ==> content == text
      ensures faulted <==> old(faulted) || !ok
    {
      var n: int := *;
      if 0 <= n < |text| {
        faulted := true;
        content := text[..n];
        return false;
      }
      content := text;
      return true;
    }
  }

  ghost predicate FirstMalformed(parse: LineParser, lines: seq<string>, lineNo: nat)
  {
    && 1 <= lineNo <= |lines| && parse(lines[lineNo - 1]).TooFewFields?
    && forall j :: 0 <= j < lineNo - 1 ==> !parse(lines[j]).TooFewFields?
  }

  lemma {:induction false} UnlinesAppend(lines: seq<string>, line: string)
    ensures Unlines(lines + [line]) == Unlines(lines) + line + "\n"
  {
    if lines == [] {
      assert Unlines([line]) == line + "\n" + Unlines([]);
    } else {
      assert (lines + [line])[1..] == lines[1..] + [line];
      UnlinesAppend(lines[1..], line);
    }
  }

  lemma KeptNext(parse: LineParser, lines: seq<string>, n: nat)
    requires n < |lines|
    ensures Unlines(Kept(parse, lines, n + 1))
            == Unlines(Kept(parse, lines, n)) + if IsSwapEntry(parse(lines[n])) then "" else lines[n] + "\n"
  {
    if IsSwapEntry(parse(lines[n])) {
      assert Kept(parse, lines, n + 1) == Kept(parse, lines, n);
    } else {
      UnlinesAppend(Kept(parse, lines, n), lines[n]);
      assert Kept(parse, lines, n + 1) == Kept(parse, lines, n) + [lines[n]];
    }
  }

  /** Collects the lines to write back, or reports the number of the first malformed one. */
  method FilterLines(parse: LineParser, lines: seq<string>) returns (r: Result<string, nat>)
    ensures r.Ok? ==> (forall j :: 0 <= j < |lines| ==> !parse(lines[j]).TooFewFields?)
                      && r.value == Unlines(Kept(parse, lines, |lines|))
    ensures r.Err? ==> FirstMalformed(parse, lines, r.error)
  {
    var buffer := "";
    for i := 0 to |lines|
      invariant forall j :: 0 <= j < i ==> !parse(lines[j]).TooFewFields?
      invariant buffer == Unlines(Kept(parse, lines, i))
    {
      var entry := parse(lines[i]);
      if entry.TooFewFields? {
        return Err(i + 1);
      }
      KeptNext(parse, lines, i);
      if entry.Blank? || entry.mount.vfsType != SWAP {
        buffer := buffer + lines[i] + "\n";
      }
    }
    return Ok(buffer);
  }

  /**
   Either the file is rewritten without its swap entries, or a malformed entry stops the rewrite before the
   file is touched; only a failing truncate, seek or write can leave it otherwise.
   */
  method DisableSwapOnFstab(file: File) returns (r: Outcome)
    modifies file
    ensures r.Rewritten? ==> AllWellFormed(old(file.content)) && file.content == Rewrite(old(file.content))
    ensures r.SyntaxError? <==> !AllWellFormed(old(file.content))
    ensures old(file.faulted) ==> file.faulted
    ensures !file.faulted ==> !r.IOError?
    ensures r.SyntaxError? ==> file.content == old(file.content) && FirstMalformed(ParseFstabLine, Lines(file.content), r.lineNo)
  {
    var buffer := FilterLines(ParseFstabLine, Lines(file.content));
    if buffer.Err? {
      return SyntaxError(buffer.error);
    }
    var ok := file.Truncate();
    if !ok {
      return IOError;
    }
    ok := file.Seek();
    if !ok {
      return IOError;
    }
    ok := file.WriteAll(buffer.value);
    if !ok {
      return IOError;
    }
    return Rewritten;
  }

  // ----- Which lines stay -----

  /** Whether a line goes, by its words: when the third of at least three is "swap" and it is no comment. */
  lemma SwapByWords(lead: string, words: seq<string>, gaps: seq<string>)
    requires IsGap(lead) && IsLayout(words, gaps)
    ensures IsSwap(lead + Spread(words, gaps)) <==> |words| >= 3 && words[0][0] != '#' && words[2] == "swap"
    ensures IsMalformed(lead + Spread(words, gaps)) <==> 1 <= |words| < 3 && words[0][0] != '#'
  {
    ParseByWords(lead, words, gaps);
  }

  ghost predicate Increasing(positions: seq<nat>, bound: nat)
  {
    && (forall i :: 0 <= i < |positions| ==> positions[i] < bound)
    && (forall i, j :: 0 <= i < j < |positions| ==> positions[i] < positions[j])
  }

  /** The kept lines are those at the positions that hold no swap entry, in their order. */
  lemma {:induction false} KeptExactly(parse: LineParser, lines: seq<string>, n: nat) returns (positions: seq<nat>)
    requires n <= |lines|
    ensures Increasing(positions, n) && |positions| == |Kept(parse, lines, n)|
    ensures forall i :: 0 <= i < |positions| ==> Kept(parse, lines, n)[i] == lines[positions[i]]
    ensures forall k :: 0 <= k < n ==> (k in positions <==> !IsSwapEntry(parse(lines[k])))
  {
    positions := [];
    if n > 0 {
      positions := KeptExactly(parse, lines, n - 1);
      if !IsSwapEntry(parse(lines[n - 1])) {
        positions := positions + [n - 1];
      }
    }
  }

  /** The lines that a rewrite leaves are those that are no swap entries, in their order. */
  lemma LeftExactly(text: string) returns (positions: seq<nat>)
    ensures Increasing(positions, |Lines(text)|) && |positions| == |Left(text)|
    ensures forall i :: 0 <= i < |positions| ==> Left(text)[i] == Lines(text)[positions[i]]
    ensures forall k :: 0 <= k < |Lines(text)| ==> (k in positions <==> !IsSwap(Lines(text)[k]))
  {
    positions := KeptExactly(ParseFstabLine, Lines(text), |Lines(text)|);
  }

  // ----- Scanning what was written -----

  predicate IsLine(line: string)
  {
    '\n' !in line
  }

  predicate EndsInCR(line: string)
  {
    line != "" && line[|line| - 1] == '\r'
  }

  function DropAll(lines: seq<string>): (r: seq<string>)
    ensures |r| == |lines|
    ensures forall i :: 0 <= i < |r| ==> r[i] == DropCR(lines[i])
  {
    seq(|lines|, i requires 0 <= i < |lines| => DropCR(lines[i]))
  }

  lemma FirstLine(line: string, rest: string)
    requires IsLine(line)
    ensures Lines(line + "\n" + rest) == [DropCR(line)] + Lines(rest)
  {
    var text := line + "\n" + rest;
    assert text == line + ['\n'] + rest;
    FindAt(line, '\n', rest);
    assert text[..|line|] == line && text[|line| + 1..] == rest;
  }

  lemma OnlyLine(line: string)
    requires IsLine(line) && line != ""
    ensures Lines(line) == [DropCR(line)]
  {
    FindAbsent(line, '\n');
    assert line[..|line|] == line;
  }

  lemma DropAllNext(lines: seq<string>)
    requires lines != []
    ensures DropAll(lines) == [DropCR(lines[0])] + DropAll(lines[1..])
  {
  }

  lemma UnlinesThen(lines: seq<string>, last: string)
    requires lines != []
    ensures Unlines(lines) + last == lines[0] + "\n" + (Unlines(lines[1..]) + last)
  {
  }

  lemma LastLine(last: string)
    requires IsLine(last)
    ensures Lines(Unlines([]) + last) == DropAll([]) + if last == "" then [] else [DropCR(last)]
  {
    assert Unlines([]) + last == last;
    if last != "" {
      OnlyLine(last);
    }
  }

  /** How a text reads whose lines, but for the last, end in a newline. */
  lemma {:induction false} LinesOfText(lines: seq<string>, last: string)
    requires IsLine(last) && forall i :: 0 <= i < |lines| ==> IsLine(lines[i])
    ensures Lines(Unlines(lines) + last) == DropAll(lines) + if last == "" then [] else [DropCR(last)]
  {
    if lines == [] {
      LastLine(last);
    } else {
      var rest := Unlines(lines[1..]) + last;
      UnlinesThen(lines, last);
      FirstLine(lines[0], rest);
      LinesOfText(lines[1..], last);
      DropAllNext(lines);
    }
  }

  lemma LinesOfUnlines(lines: seq<string>)
    requires forall i :: 0 <= i < |lines| ==> IsLine(lines[i])
    ensures Lines(Unlines(lines)) == DropAll(lines)
  {
    LinesOfText(lines, "");
    assert Unlines(lines) + "" == Unlines(lines);
  }

  lemma {:induction false} LinesAreLines(text: string)
    ensures forall i :: 0 <= i < |Lines(text)| ==> IsLine(Lines(text)[i])
    decreases |text|
  {
    if text != "" {
      var end := Find(text, '\n');
      assert IsLine(DropCR(text[..end]));
      if end < |text| {
        LinesAreLines(text[end + 1..]);
      }
    }
  }

  lemma {:induction false} LinesWithoutCR(text: string)
    requires '\r' !in text
    ensures forall i :: 0 <= i < |Lines(text)| ==> !EndsInCR(Lines(text)[i])
    decreases |text|
  {
    if text != "" {
      var end := Find(text, '\n');
      assert !EndsInCR(DropCR(text[..end]));
      if end < |text| {
        LinesWithoutCR(text[end + 1..]);
      }
    }
  }

  lemma {:induction false} KeptFrom(parse: LineParser, lines: seq<string>, n: nat)
    requires n <= |lines|
    ensures forall line :: line in Kept(parse, lines, n) ==> line in lines && !IsSwapEntry(parse(line))
  {
    if n > 0 {
      KeptFrom(parse, lines, n - 1);
    }
  }

  lemma {:induction false} KeepsAll(parse: LineParser, lines: seq<string>, n: nat)
    requires n <= |lines|
    requires forall i :: 0 <= i < n ==> !IsSwapEntry(parse(lines[i]))
    ensures Kept(parse, lines, n) == lines[..n]
  {
    if n > 0 {
      KeepsAll(parse, lines, n - 1);
    }
  }

  ghost predicate NoLineEndsInCR(lines: seq<string>)
  {
    forall i :: 0 <= i < |lines| ==> !EndsInCR(lines[i])
  }

  lemma {:induction false} TrimLeftBeforeCR(s: string)
    ensures TrimLeft(s + "\r") == if TrimLeft(s) == "" then "" else TrimLeft(s) + "\r"
  {
    if s == "" {
      assert TrimLeft("\r") == TrimLeft("\r"[1..]) == "";
    } else {
      assert (s + "\r")[1..] == s[1..] + "\r" && (s + "\r")[0] == s[0];
      TrimLeftBeforeCR(s[1..]);
    }
  }

  lemma TrimSpaceIgnoresCR(line: string)
    ensures TrimSpace(DropCR(line)) == TrimSpace(line)
  {
    if EndsInCR(line) {
      var s := DropCR(line);
      assert line == s + "\r";
      TrimLeftBeforeCR(s);
      var t := TrimLeft(s);
      if t != "" {
        assert (t + "\r")[..|t + "\r"| - 1] == t;
      }
    }
  }

  /** A carriage return at the end of a line does not change what its entry is. */
  lemma ParseIgnoresCR(line: string)
    ensures ParseFstabLine(DropCR(line)) == ParseFstabLine(line)
  {
    TrimSpaceIgnoresCR(line);
  }

  lemma {:induction false} UnlinesOfDropAll(lines: seq<string>)
    ensures |Unlines(DropAll(lines))| <= |Unlines(lines)|
    ensures |Unlines(DropAll(lines))| == |Unlines(lines)| <==> NoLineEndsInCR(lines)
  {
    if lines != [] {
      UnlinesOfDropAll(lines[1..]);
      assert DropAll(lines)[1..] == DropAll(lines[1..]);
      assert NoLineEndsInCR(lines) <==> !EndsInCR(lines[0]) && NoLineEndsInCR(lines[1..]) by {
        assert forall i :: 1 <= i < |lines| ==> lines[i] == lines[1..][i - 1];
      }
    }
  }

  lemma NothingDropped(lines: seq<string>)
    requires NoLineEndsInCR(lines)
    ensures DropAll(lines) == lines
  {
  }

  lemma LeftAreLines(text: string)
    ensures forall line :: line in Left(text) ==> IsLine(line) && !IsSwap(line) && line in Lines(text)
  {
    LinesAreLines(text);
    KeptFrom(ParseFstabLine, Lines(text), |Lines(text)|);
  }

  /**
   Scanning the rewritten file again gives the original lines in order without the swap entries, less a
   carriage return at the end of a line; none of them is a swap entry.
   */
  lemma RewriteKeepsTheOtherLines(text: string)
    ensures Lines(Rewrite(text)) == DropAll(Left(text))
    ensures NoLineEndsInCR(Left(text)) ==> Lines(Rewrite(text)) == Left(text)
    ensures forall i :: 0 <= i < |Lines(Rewrite(text))| ==> !IsSwap(Lines(Rewrite(text))[i])
    ensures AllWellFormed(text) ==> AllWellFormed(Rewrite(text))
  {
    var left := Left(text);
    LeftAreLines(text);
    LinesOfUnlines(left);
    forall i | 0 <= i < |left|
      ensures !IsSwap(DropCR(left[i]))
      ensures AllWellFormed(text) ==> !IsMalformed(DropCR(left[i]))
    {
      ParseIgnoresCR(left[i]);
      assert left[i] in Lines(text);
    }
  }

  /** A second run writes the same text again exactly when no remaining line ends in a carriage return. */
  lemma RewriteIsIdempotentIff(text: string)
    ensures Rewrite(Rewrite(text)) == Rewrite(text) <==> NoLineEndsInCR(Left(text))
  {
    var left := Left(text);
    RewriteKeepsTheOtherLines(text);
    var again := DropAll(left);
    KeepsAll(ParseFstabLine, again, |again|);
    assert again[..|again|] == again;
    assert Rewrite(Rewrite(text)) == Unlines(again);
    UnlinesOfDropAll(left);
    if NoLineEndsInCR(left) {
      NothingDropped(left);
    }
  }

  /** So on a file without carriage returns the second run is the identity. */
  lemma RewriteIsIdempotentWithoutCR(text: string)
    requires '\r' !in text
    ensures Rewrite(Rewrite(text)) == Rewrite(text)
  {
    LinesWithoutCR(text);
    LeftAreLines(text);
    forall i | 0 <= i < |Left(text)|
      ensures !EndsInCR(Left(text)[i])
    {
      assert Left(text)[i] in Lines(text);
    }
    RewriteIsIdempotentIff(text);
  }

  lemma {:induction false} TrimRightKeepsFirst(s: string)
    requires s != "" && !IsSpace(s[0])
    ensures TrimRight(s) != "" && TrimRight(s)[0] == s[0]
  {
    if IsSpace(s[|s| - 1]) {
      TrimRightKeepsFirst(s[..|s| - 1]);
    }
  }

  lemma CommentIsBlank(line: string)
    requires line != "" && line[0] == '#'
    ensures ParseFstabLine(line) == Blank
  {
    assert TrimLeft(line) == line;
    TrimRightKeepsFirst(line);
  }

  lemma CommentIsKept(line: string)
    requires line != "" && line[0] == '#' && IsLine(line)
    ensures Left(line + "\n") == [DropCR(line)]
  {
    var text, kept := line + "\n", DropCR(line);
    assert text == line + ['\n'] + "";
    FindAt(line, '\n', "");
    assert text[..|line|] == line && text[|line| + 1..] == "";
    assert Lines(text) == [kept] + Lines("") == [kept];
    CommentIsBlank(kept);
    KeepsAll(ParseFstabLine, [kept], 1);
  }

  /** A comment line that ends in two carriage returns loses one more in the second run. */
  lemma SecondRunMayDiffer(text: string)
    requires text == "#\r\r\n"
    ensures Rewrite(Rewrite(text)) != Rewrite(text)
  {
    var line := "#\r\r";
    assert text == line + "\n";
    CommentIsKept(line);
    assert EndsInCR(Left(text)[0]);
    RewriteIsIdempotentIff(text);
  }
}
