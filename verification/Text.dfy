/** String operations shared by the parsers and printers: splitting, joining, white space and decimals. */
module Text {
  import opened Wrappers

  // ----- Splitting and joining -----

  /** All pieces of s between occurrences of sep; never empty. */
  function Split(s: string, sep: char): (parts: seq<string>)
    ensures |parts| >= 1
  {
    if s == "" then [""]
    else
      var rest := Split(s[1..], sep);
      if s[0] == sep then [""] + rest else [[s[0]] + rest[0]] + rest[1..]
  }

  function Join(parts: seq<string>, sep: char): string
  {
    if |parts| == 0 then ""
    else if |parts| == 1 then parts[0]
    else parts[0] + [sep] + Join(parts[1..], sep)
  }

  lemma {:induction false} SplitWhole(p: string, sep: char)
    requires sep !in p
    ensures Split(p, sep) == [p]
  {
    if p != "" {
      assert p == [p[0]] + p[1..];
      SplitWhole(p[1..], sep);
    }
  }

  lemma {:induction false} SplitFirst(p: string, rest: string, sep: char)
    requires sep !in p
    ensures Split(p + [sep] + rest, sep) == [p] + Split(rest, sep)
  {
    var s := p + [sep] + rest;
    if p == "" {
      assert s[1..] == rest;
    } else {
      assert s[1..] == p[1..] + [sep] + rest;
      SplitFirst(p[1..], rest, sep);
      var tail := Split(s[1..], sep);
      assert s[0] == p[0] && p == [p[0]] + tail[0];
      assert tail[1..] == Split(rest, sep);
    }
  }

  lemma {:induction false} SplitOfJoin(parts: seq<string>, sep: char)
    requires |parts| >= 1
    requires forall i :: 0 <= i < |parts| ==> sep !in parts[i]
    ensures Split(Join(parts, sep), sep) == parts
  {
    if |parts| == 1 {
      SplitWhole(parts[0], sep);
    } else {
      SplitFirst(parts[0], Join(parts[1..], sep), sep);
      SplitOfJoin(parts[1..], sep);
    }
  }

  lemma {:induction false} JoinOfSplit(s: string, sep: char)
    ensures Join(Split(s, sep), sep) == s
    ensures forall i :: 0 <= i < |Split(s, sep)| ==> sep !in Split(s, sep)[i]
  {
    if s != "" {
      JoinOfSplit(s[1..], sep);
      var rest := Split(s[1..], sep);
      assert s == [s[0]] + s[1..];
      if s[0] == sep {
        assert Split(s, sep)[1..] == rest;
      } else {
        var parts := Split(s, sep);
        assert parts[0] == [s[0]] + rest[0] && parts[1..] == rest[1..];
      }
    }
  }

  /** Position of the first occurrence of c in s, or |s| when there is none. */
  function Find(s: string, c: char): (i: nat)
    ensures i <= |s|
    ensures i < |s| ==> s[i] == c
    ensures c !in s[..i]
  {
    if s == "" || s[0] == c then 0
    else
      var j := Find(s[1..], c);
      assert s[..j + 1] == [s[0]] + s[1..][..j];
      j + 1
  }

  lemma {:induction false} FindAt(p: string, c: char, rest: string)
    requires c !in p
    ensures Find(p + [c] + rest, c) == |p|
  {
    if p != "" {
      assert (p + [c] + rest)[1..] == p[1..] + [c] + rest;
      FindAt(p[1..], c, rest);
    }
  }

  lemma {:induction false} FindAbsent(s: string, c: char)
    requires c !in s
    ensures Find(s, c) == |s|
  {
    if s != "" {
      FindAbsent(s[1..], c);
    }
  }

  /** Position of the last occurrence of c in s, or -1 when there is none. */
  function LastIndex(s: string, c: char): (i: int)
    ensures -1 <= i < |s|
    ensures i >= 0 ==> s[i] == c
  {
    if s == "" then -1
    else if s[|s| - 1] == c then |s| - 1
    else LastIndex(s[..|s| - 1], c)
  }

  lemma {:induction false} LastIndexAt(p: string, c: char, rest: string)
    requires c !in rest
    ensures LastIndex(p + [c] + rest, c) == |p|
  {
    if rest != "" {
      var init := rest[..|rest| - 1];
      assert (p + [c] + rest)[..|p + [c] + rest| - 1] == p + [c] + init;
      LastIndexAt(p, c, init);
    }
  }

  predicate HasPrefix(s: string, prefix: string)
  {
    prefix <= s
  }

  function TrimSuffix(s: string, suffix: char): string
  {
    if |s| > 0 && s[|s| - 1] == suffix then s[..|s| - 1] else s
  }

  // ----- White space -----

  /** The code points that strings.TrimSpace, strings.Fields and unicode.IsSpace treat as space. */
  predicate IsSpace(c: char)
  {
    c == ' ' || '\t' <= c <= '\r' || c == '\U{0085}' || c == '\U{00A0}' || c == '\U{1680}'
    || '\U{2000}' <= c <= '\U{200A}' || c == '\U{2028}' || c == '\U{2029}'
    || c == '\U{202F}' || c == '\U{205F}' || c == '\U{3000}'
  }

  /** The same by their numbers. */
  lemma SpaceCodes(c: char)
    ensures IsSpace(c)
            <==> var n := c as int;
                 9 <= n <= 13 || n in {32, 133, 160, 5760} || 8192 <= n <= 8202 || n in {8232, 8233, 8239, 8287, 12288}
  {
  }

  function TrimLeft(s: string): (t: string)
    ensures |t| <= |s|
    ensures t == "" || !IsSpace(t[0])
  {
    if s != "" && IsSpace(s[0]) then TrimLeft(s[1..]) else s
  }

  function TrimRight(s: string): (t: string)
    ensures t <= s
    ensures t == "" || !IsSpace(t[|t| - 1])
  {
    if s != "" && IsSpace(s[|s| - 1]) then TrimRight(s[..|s| - 1]) else s
  }

  function TrimSpace(s: string): string
  {
    TrimRight(TrimLeft(s))
  }

  // ----- Decimal numbers -----

  predicate IsDigit(c: char)
  {
    '0' <= c <= '9'
  }

  predicate AllDigits(s: string)
  {
    forall i :: 0 <= i < |s| ==> IsDigit(s[i])
  }

  /** How many digits s starts with. */
  function DigitRun(s: string): (n: nat)
    ensures n <= |s| && AllDigits(s[..n])
    ensures n < |s| ==> !IsDigit(s[n])
  {
    if s == "" || !IsDigit(s[0]) then 0
    else
      var m := DigitRun(s[1..]);
      assert s[..m + 1] == [s[0]] + s[1..][..m];
      m + 1
  }

  lemma {:induction false} DigitRunOf(digits: string, rest: string)
    requires AllDigits(digits) && (rest == "" || !IsDigit(rest[0]))
    ensures DigitRun(digits + rest) == |digits|
  {
    if digits != "" {
      assert (digits + rest)[1..] == digits[1..] + rest;
      DigitRunOf(digits[1..], rest);
    } else {
      assert digits + rest == rest;
    }
  }

  function DigitValue(c: char): (d: nat)
    requires IsDigit(c)
    ensures d < 10
  {
    c as int - '0' as int
  }

  /** The number that a run of decimal digits denotes. */
  function Value(s: string): nat
    requires AllDigits(s)
  {
    if s == "" then 0 else 10 * Value(s[..|s| - 1]) + DigitValue(s[|s| - 1])
  }

  function Decimal(n: nat): (s: string)
    ensures |s| >= 1 && AllDigits(s)
  {
    var last := ["0123456789"[n % 10]];
    if n < 10 then last else Decimal(n / 10) + last
  }

  lemma {:induction false} ValueOfDecimal(n: nat)
    ensures Value(Decimal(n)) == n
  {
    var s := Decimal(n);
    assert DigitValue(s[|s| - 1]) == n % 10;
    if n < 10 {
      assert s[..|s| - 1] == "";
    } else {
      assert s[..|s| - 1] == Decimal(n / 10);
      ValueOfDecimal(n / 10);
    }
  }

  lemma {:induction false} DecimalIsCanonical(n: nat)
    ensures |Decimal(n)| > 1 ==> Decimal(n)[0] != '0'
  {
    if n >= 10 {
      DecimalIsCanonical(n / 10);
      if n / 10 < 10 {
        assert Decimal(n / 10)[0] == "0123456789"[n / 10];
      }
    }
  }

  lemma DigitOfValue(c: char)
    requires IsDigit(c)
    ensures "0123456789"[DigitValue(c)] == c
  {
  }

  lemma {:induction false} ValuePositive(s: string)
    requires s != "" && AllDigits(s) && s[0] != '0'
    ensures Value(s) > 0
  {
    if |s| > 1 {
      ValuePositive(s[..|s| - 1]);
    } else {
      assert s[..|s| - 1] == "";
    }
  }

  lemma DecimalNext(tens: nat, d: nat)
    requires tens > 0 && d < 10
    ensures Decimal(10 * tens + d) == Decimal(tens) + ["0123456789"[d]]
  {
    var n := 10 * tens + d;
    assert n / 10 == tens && n % 10 == d;
  }

  lemma DecimalOfDigit(s: string)
    requires |s| == 1 && AllDigits(s)
    ensures Decimal(Value(s)) == s
  {
    DigitOfValue(s[0]);
    assert s[..0] == "" && Value(s) == DigitValue(s[0]);
  }

  lemma ValueNext(init: string, last: char)
    requires AllDigits(init) && IsDigit(last)
    ensures AllDigits(init + [last]) && Value(init + [last]) == 10 * Value(init) + DigitValue(last)
  {
    assert (init + [last])[..|init|] == init;
  }

  /** A digit run without leading zeros is the decimal of its value. */
  lemma {:induction false} DecimalOfValue(s: string)
    requires s != "" && AllDigits(s) && (s[0] == '0' ==> |s| == 1)
    ensures Decimal(Value(s)) == s
  {
    if |s| == 1 {
      DecimalOfDigit(s);
    } else {
      var init, last := s[..|s| - 1], s[|s| - 1];
      assert s == init + [last];
      DecimalOfValue(init);
      ValuePositive(init);
      ValueNext(init, last);
      DigitOfValue(last);
      DecimalNext(Value(init), DigitValue(last));
    }
  }

  /** strconv.ParseUint in base 10: digits only, not empty, and at most max. */
  function ParseUint(s: string, max: nat): Option<nat>
  {
    if s != "" && AllDigits(s) && Value(s) <= max then Some(Value(s)) else None
  }

  /** strconv.Atoi for a 64-bit int: an optional sign, then digits, within range. */
  function Atoi(s: string): Option<int>
  {
    if s != "" && s[0] == '-' then
      var magnitude := ParseUint(s[1..], 0x8000_0000_0000_0000);
      if magnitude.None? then None else Some(0 as int - magnitude.value as int)
    else
      var magnitude := ParseUint(if s != "" && s[0] == '+' then s[1..] else s, 0x7FFF_FFFF_FFFF_FFFF);
      if magnitude.None? then None else Some(magnitude.value as int)
  }

  lemma AtoiOfDigits(d: string)
    requires d != "" && AllDigits(d)
    ensures Atoi(d) == Atoi("+" + d) == if Value(d) <= 0x7FFF_FFFF_FFFF_FFFF then Some(Value(d) as int) else None
    ensures Atoi("-" + d) == if Value(d) <= 0x8000_0000_0000_0000 then Some(-(Value(d) as int)) else None
  {
    assert ("+" + d)[1..] == d && ("-" + d)[1..] == d;
  }

  /** A text is a 64-bit number exactly when it is a run of digits with or without a sign, and in range. */
  lemma AtoiExactly(s: string, k: int)
    ensures Atoi(s) == Some(k)
            <==> -0x8000_0000_0000_0000 <= k <= 0x7FFF_FFFF_FFFF_FFFF
                 && exists d :: d != "" && AllDigits(d)
                                && (((s == d || s == "+" + d) && Value(d) == k) || (s == "-" + d && Value(d) + k == 0))
  {
    if Atoi(s) == Some(k) {
      var d := if s[0] == '-' || s[0] == '+' then s[1..] else s;
      assert s == d || s == [s[0]] + d;
    }
    if d :| d != "" && AllDigits(d)
            && (((s == d || s == "+" + d) && Value(d) == k) || (s == "-" + d && Value(d) + k == 0)) {
      AtoiOfDigits(d);
    }
  }

  // ----- Trimming text that has no space at its ends -----

  predicate SpaceFree(s: string)
  {
    forall i :: 0 <= i < |s| ==> !IsSpace(s[i])
  }

  lemma TrimLine(s: string)
    requires s != "" && SpaceFree(s)
    ensures TrimSpace(s + "\n") == s
  {
    var line := s + "\n";
    assert line[0] == s[0] && TrimLeft(line) == line;
    assert line[|line| - 1] == '\n' && line[..|line| - 1] == s;
    assert !IsSpace(s[|s| - 1]);
    assert TrimRight(line) == TrimRight(s) == s;
  }

  lemma {:induction false} JoinSpaceFree(parts: seq<string>, sep: char)
    requires !IsSpace(sep) && forall i :: 0 <= i < |parts| ==> SpaceFree(parts[i])
    ensures SpaceFree(Join(parts, sep))
  {
    if |parts| > 1 {
      JoinSpaceFree(parts[1..], sep);
    }
  }
}
