// The text operations the cron parser relies on, as Python 2 performs them on
// byte strings: `str.split(',')`, `str.strip()`, `re.split('\s+', ...)`,
// `int(...)` in base 10, and the three token patterns of cron.py
// (`^\*/(\d{1,2})$`, `^(\d{1,2})-(\d{1,2})$`, `^(\d{1,2})-(\d{1,2})/(\d{1,2})$`),
// whose `$` also matches just before a final newline.
module CronText {
  import opened Wrappers

  /** The characters Python 2 treats as whitespace in `strip`, `int` and `\s`. */
  predicate IsSpace(c: char) {
    c == ' ' || c == '\t' || c == '\n' || c == '\r' || c == '\U{000B}' || c == '\U{000C}'
  }

  predicate IsDigit(c: char) {
    '0' <= c <= '9'
  }

  predicate AllDigits(s: string) {
    forall i :: 0 <= i < |s| ==> IsDigit(s[i])
  }

  // ---------------------------------------------------------------------------
  // str.split(c)

  /** `s.split(c)`: the pieces between occurrences of `c`, never an empty list. */
  function SplitOn(s: string, c: char): (pieces: seq<string>)
    ensures |pieces| >= 1
    ensures forall k :: 0 <= k < |pieces| ==> c !in pieces[k]
  {
    if s == [] then [""]
    else
      var rest := SplitOn(s[1..], c);
      if s[0] == c then [""] + rest
      else [[s[0]] + rest[0]] + rest[1..]
  }

  /** `c.join(pieces)`. */
  function Join(pieces: seq<string>, c: char): string
    requires |pieces| >= 1
  {
    if |pieces| == 1 then pieces[0] else pieces[0] + [c] + Join(pieces[1..], c)
  }

  /** Splitting and joining again gives the original text back. */
  lemma {:induction false} JoinSplit(s: string, c: char)
    ensures Join(SplitOn(s, c), c) == s
  {
    if s != [] {
      JoinSplit(s[1..], c);
      var rest := SplitOn(s[1..], c);
      if s[0] != c && |rest| > 1 {
        assert Join(rest, c) == rest[0] + [c] + Join(rest[1..], c);
        assert [s[0]] + rest[0] + [c] + Join(rest[1..], c) == [s[0]] + Join(rest, c);
      }
    }
  }

  /** A piece free of the separator, followed by the separator, is split off whole. */
  lemma {:induction false} SplitPrefix(a: string, c: char, b: string)
    requires c !in a
    ensures SplitOn(a + [c] + b, c) == [a] + SplitOn(b, c)
  {
    if a != [] {
      assert (a + [c] + b)[0] == a[0];
      assert (a + [c] + b)[1..] == a[1..] + [c] + b;
      SplitPrefix(a[1..], c, b);
      assert [a[0]] + a[1..] == a;
    } else {
      assert (a + [c] + b)[1..] == b;
    }
  }

  lemma {:induction false} SplitWhole(a: string, c: char)
    requires c !in a
    ensures SplitOn(a, c) == [a]
  {
    if a != [] {
      SplitWhole(a[1..], c);
      assert [a[0]] + a[1..] == a;
    }
  }

  /** Joining separator-free pieces and splitting again gives the pieces back. */
  lemma {:induction false} SplitJoin(pieces: seq<string>, c: char)
    requires |pieces| >= 1
    requires forall k :: 0 <= k < |pieces| ==> c !in pieces[k]
    ensures SplitOn(Join(pieces, c), c) == pieces
  {
    if |pieces| == 1 {
      SplitWhole(pieces[0], c);
    } else {
      SplitJoin(pieces[1..], c);
      SplitPrefix(pieces[0], c, Join(pieces[1..], c));
    }
  }

  // ---------------------------------------------------------------------------
  // str.strip() and re.split('\s+', ...)

  function StripLeft(s: string): (r: string)
    ensures |r| <= |s| && r == s[|s| - |r|..]
    ensures r != [] ==> !IsSpace(r[0])
    ensures forall i :: 0 <= i < |s| - |r| ==> IsSpace(s[i])
  {
    if s != [] && IsSpace(s[0]) then StripLeft(s[1..]) else s
  }

  function StripRight(s: string): (r: string)
    ensures |r| <= |s| && r == s[..|r|]
    ensures r != [] ==> !IsSpace(r[|r| - 1])
    ensures forall i :: |r| <= i < |s| ==> IsSpace(s[i])
  {
    if s != [] && IsSpace(s[|s| - 1]) then StripRight(s[..|s| - 1]) else s
  }

  /**
   * `s.strip()`: no whitespace is left at either end (and, by `StripSlice`,
   * only whitespace is cut).
   */
  function Strip(s: string): (r: string)
    ensures r != [] ==> !IsSpace(r[0]) && !IsSpace(r[|r| - 1])
  {
    StripLeft(StripRight(s))
  }

  /** What `Strip` cuts from either end of `s` is whitespace and nothing else. */
  lemma StripSlice(s: string)
    ensures exists lead :: Padded(s, lead, Strip(s))
  {
    var right := StripRight(s);
    var r := StripLeft(right);
    var lead := |right| - |r|;
    assert |right| == lead + |r| <= |s|;
    forall i | 0 <= i < |right| ensures right[i] == s[i] {
      assert right == s[..|right|];
    }
    forall i | 0 <= i < |r| ensures r[i] == s[lead + i] {
      assert r == right[lead..];
    }
    assert r == s[lead..lead + |r|];
    forall i | 0 <= i < lead ensures IsSpace(s[i]) {
      assert IsSpace(right[i]);
    }
    assert Strip(s) == r;
    assert Padded(s, lead, r);
  }

  /** `s` is `r` with `lead` whitespace characters before it and only whitespace after it. */
  predicate Padded(s: string, lead: int, r: string) {
    0 <= lead <= |s| - |r| && r == s[lead..lead + |r|] &&
    (forall i :: 0 <= i < lead ==> IsSpace(s[i])) &&
    (forall i :: lead + |r| <= i < |s| ==> IsSpace(s[i]))
  }

  /** Text with no whitespace at either end is left alone by `strip`. */
  lemma StripUnpadded(s: string)
    requires s != [] && !IsSpace(s[0]) && !IsSpace(s[|s| - 1])
    ensures Strip(s) == s
  {
    assert StripRight(s) == s;
  }

  /**
   * `re.split('\s+', s)`: the pieces between maximal runs of whitespace. Only
   * the first and the last piece can be empty, the first one exactly when
   * `s` starts with whitespace (or is empty).
   */
  function SplitSpace(s: string): (pieces: seq<string>)
    ensures |pieces| >= 1
    ensures forall k, i :: 0 <= k < |pieces| && 0 <= i < |pieces[k]| ==> !IsSpace(pieces[k][i])
    ensures forall k :: 0 < k < |pieces| - 1 ==> pieces[k] != []
    ensures pieces[0] == [] <==> s == [] || IsSpace(s[0])
  {
    if s == [] then [""]
    else if IsSpace(s[0]) then [""] + SplitSpace(StripLeft(s))
    else
      var rest := SplitSpace(s[1..]);
      [[s[0]] + rest[0]] + rest[1..]
  }

  /** The maximal runs of whitespace in `s`, in order: what `re.split('\s+', s)` cuts out. */
  function SpaceRuns(s: string): (runs: seq<string>)
    ensures forall k :: 0 <= k < |runs| ==> runs[k] != []
    ensures forall k, i :: 0 <= k < |runs| && 0 <= i < |runs[k]| ==> IsSpace(runs[k][i])
  {
    if s == [] then []
    else if IsSpace(s[0]) then
      var t := StripLeft(s);
      [s[..|s| - |t|]] + SpaceRuns(t)
    else SpaceRuns(s[1..])
  }

  /** `pieces[0] + runs[0] + pieces[1] + ... + pieces[|pieces| - 1]`. */
  function Interleave(pieces: seq<string>, runs: seq<string>): string
    requires |pieces| == |runs| + 1
  {
    if runs == [] then pieces[0] else pieces[0] + runs[0] + Interleave(pieces[1..], runs[1..])
  }

  /**
   * `re.split('\s+', s)` cuts `s` at its whitespace runs: the pieces and
   * the runs between them, interleaved, give back `s`. With the pieces free
   * of whitespace, the runs nonempty and only the outer pieces possibly
   * empty, this fixes the pieces for every `s`.
   */
  lemma {:induction false} SplitSpaceRuns(s: string)
    ensures |SplitSpace(s)| == |SpaceRuns(s)| + 1
    ensures Interleave(SplitSpace(s), SpaceRuns(s)) == s
  {
    if s != [] {
      if IsSpace(s[0]) {
        SplitSpaceRuns(StripLeft(s));
        LeadingRun(s);
      } else {
        SplitSpaceRuns(s[1..]);
        LeadingChar(s);
      }
    }
  }

  /** The step of `SplitSpaceRuns` for text that starts with whitespace. */
  lemma LeadingRun(s: string)
    requires s != [] && IsSpace(s[0])
    requires |SplitSpace(StripLeft(s))| == |SpaceRuns(StripLeft(s))| + 1
    requires Interleave(SplitSpace(StripLeft(s)), SpaceRuns(StripLeft(s))) == StripLeft(s)
    ensures |SplitSpace(s)| == |SpaceRuns(s)| + 1
    ensures Interleave(SplitSpace(s), SpaceRuns(s)) == s
  {
    var t := StripLeft(s);
    var run := s[..|s| - |t|];
    var pieces, runs := SplitSpace(s), SpaceRuns(s);
    assert pieces == [""] + SplitSpace(t);
    SpaceRunsFront(s);
    assert pieces[1..] == SplitSpace(t) && runs[1..] == SpaceRuns(t);
    assert Interleave(pieces, runs) == pieces[0] + runs[0] + Interleave(pieces[1..], runs[1..]);
    assert pieces[0] + runs[0] == run;
    assert s == run + t;
  }

  /** Text that starts with whitespace starts with its first run. */
  lemma SpaceRunsFront(s: string)
    requires s != [] && IsSpace(s[0])
    ensures SpaceRuns(s) == [s[..|s| - |StripLeft(s)|]] + SpaceRuns(StripLeft(s))
  {
    var t := StripLeft(s);
    assert SpaceRuns(s) == [s[..|s| - |t|]] + SpaceRuns(t);
  }

  /** The step of `SplitSpaceRuns` for text that starts with another character. */
  lemma LeadingChar(s: string)
    requires s != [] && !IsSpace(s[0])
    requires |SplitSpace(s[1..])| == |SpaceRuns(s[1..])| + 1
    requires Interleave(SplitSpace(s[1..]), SpaceRuns(s[1..])) == s[1..]
    ensures |SplitSpace(s)| == |SpaceRuns(s)| + 1
    ensures Interleave(SplitSpace(s), SpaceRuns(s)) == s
  {
    var rest, runs := SplitSpace(s[1..]), SpaceRuns(s[1..]);
    assert SplitSpace(s) == [[s[0]] + rest[0]] + rest[1..];
    assert SpaceRuns(s) == runs;
    InterleaveFront(s[0], rest, runs);
    assert s == [s[0]] + s[1..];
  }

  /** A character glued to the front of the first piece comes first in the interleaving. */
  lemma InterleaveFront(c: char, pieces: seq<string>, runs: seq<string>)
    requires |pieces| == |runs| + 1
    ensures Interleave([[c] + pieces[0]] + pieces[1..], runs) == [c] + Interleave(pieces, runs)
  {
    var glued := [[c] + pieces[0]] + pieces[1..];
    assert glued[0] == [c] + pieces[0];
    if runs != [] {
      assert glued[1..] == pieces[1..];
      var tail := runs[0] + Interleave(pieces[1..], runs[1..]);
      assert Interleave(glued, runs) == glued[0] + tail;
      assert Interleave(pieces, runs) == pieces[0] + tail;
    }
  }

  /** The whitespace-separated fields of a cron line: `re.split('\s+', line.strip())`. */
  function Fields(line: string): seq<string> {
    SplitSpace(Strip(line))
  }

  /** `' '.join(pieces)`. */
  function JoinSpace(pieces: seq<string>): string
    requires |pieces| >= 1
  {
    if |pieces| == 1 then pieces[0] else pieces[0] + " " + JoinSpace(pieces[1..])
  }

  lemma {:induction false} SplitSpaceWord(a: string)
    requires forall i :: 0 <= i < |a| ==> !IsSpace(a[i])
    ensures SplitSpace(a) == [a]
  {
    if a != [] {
      SplitSpaceWord(a[1..]);
      assert [a[0]] + a[1..] == a;
    }
  }

  lemma {:induction false} SplitSpacePrefix(a: string, b: string)
    requires forall i :: 0 <= i < |a| ==> !IsSpace(a[i])
    requires b != [] && !IsSpace(b[0])
    ensures SplitSpace(a + " " + b) == [a] + SplitSpace(b)
  {
    if a != [] {
      assert (a + " " + b)[0] == a[0];
      assert (a + " " + b)[1..] == a[1..] + " " + b;
      SplitSpacePrefix(a[1..], b);
      assert [a[0]] + a[1..] == a;
    } else {
      assert (a + " " + b)[1..] == b;
      assert StripLeft(" " + b) == b;
    }
  }

  /**
   * Nonempty whitespace-free words joined by single spaces split back into
   * exactly those words.
   */
  lemma {:induction false} SplitJoinSpace(words: seq<string>)
    requires |words| >= 1
    requires forall k :: 0 <= k < |words| ==> words[k] != []
    requires forall k, i :: 0 <= k < |words| && 0 <= i < |words[k]| ==> !IsSpace(words[k][i])
    ensures SplitSpace(JoinSpace(words)) == words
  {
    if |words| == 1 {
      SplitSpaceWord(words[0]);
    } else {
      SplitJoinSpace(words[1..]);
      var tail := JoinSpace(words[1..]);
      assert tail == words[1] || tail[..|words[1]|] == words[1];
      assert tail[0] == words[1][0];
      SplitSpacePrefix(words[0], tail);
    }
  }

  /** Words joined by single spaces start with the first word's first character and end with the last word's last. */
  lemma {:induction false} JoinSpaceEdges(words: seq<string>)
    requires |words| >= 1
    requires forall k :: 0 <= k < |words| ==> words[k] != []
    ensures JoinSpace(words) != []
    ensures JoinSpace(words)[0] == words[0][0]
    ensures JoinSpace(words)[|JoinSpace(words)| - 1] == words[|words| - 1][|words[|words| - 1]| - 1]
  {
    if |words| > 1 {
      JoinSpaceEdges(words[1..]);
    }
  }

  /** The fields of nonempty whitespace-free words joined by single spaces are those words. */
  lemma FieldsJoinSpace(words: seq<string>)
    requires |words| >= 1
    requires forall k :: 0 <= k < |words| ==> words[k] != []
    requires forall k, i :: 0 <= k < |words| && 0 <= i < |words[k]| ==> !IsSpace(words[k][i])
    ensures Fields(JoinSpace(words)) == words
  {
    JoinSpaceEdges(words);
    var last := words[|words| - 1];
    assert !IsSpace(last[|last| - 1]);
    StripUnpadded(JoinSpace(words));
    SplitJoinSpace(words);
  }

  /** Joining whitespace-free pieces with a non-space separator leaves no whitespace. */
  lemma {:induction false} JoinNoSpace(pieces: seq<string>, c: char)
    requires |pieces| >= 1 && !IsSpace(c)
    requires forall k, i :: 0 <= k < |pieces| && 0 <= i < |pieces[k]| ==> !IsSpace(pieces[k][i])
    ensures forall i :: 0 <= i < |Join(pieces, c)| ==> !IsSpace(Join(pieces, c)[i])
  {
    if |pieces| > 1 {
      JoinNoSpace(pieces[1..], c);
      var rest := Join(pieces[1..], c);
      var s := pieces[0] + [c] + rest;
      forall i | 0 <= i < |s| ensures !IsSpace(s[i]) {
        if i < |pieces[0]| {
          assert s[i] == pieces[0][i];
        } else if i > |pieces[0]| {
          assert s[i] == rest[i - |pieces[0]| - 1];
        }
      }
    }
  }

  /** A blank line has the single empty field Python's split reports for it. */
  lemma BlankFields(line: string)
    requires forall i :: 0 <= i < |line| ==> IsSpace(line[i])
    ensures Fields(line) == [""]
  {
    assert Strip(line) == [];
  }

  // ---------------------------------------------------------------------------
  // int(s) and the token patterns

  function DigitValue(c: char): int
    requires IsDigit(c)
  {
    (c as int) - ('0' as int)
  }

  /** The value of a string of decimal digits. */
  function DigitsValue(s: string): (n: nat)
    requires AllDigits(s)
  {
    if s == [] then 0 else DigitsValue(s[..|s| - 1]) * 10 + DigitValue(s[|s| - 1])
  }

  /** Python's `str(n)` for a natural number. */
  function Decimal(n: nat): (s: string)
    ensures s != [] && AllDigits(s)
  {
    if n < 10 then [('0' as int + n) as char]
    else Decimal(n / 10) + [('0' as int + n % 10) as char]
  }

  lemma {:induction false} DigitsValueDecimal(n: nat)
    ensures DigitsValue(Decimal(n)) == n
  {
    if n >= 10 {
      DigitsValueDecimal(n / 10);
      var s := Decimal(n);
      assert s[..|s| - 1] == Decimal(n / 10);
    }
  }

  /**
   * Python 2's `int(s)`: surrounding whitespace, an optional sign, more
   * whitespace after the sign (CPython 2 skips it there too), and at least
   * one ASCII digit; None where Python raises ValueError.
   */
  function IntLiteral(s: string): Option<int> {
    var t := Strip(s);
    if t == [] then None
    else
      var negative := t[0] == '-';
      var digits := if t[0] == '-' || t[0] == '+' then StripLeft(t[1..]) else t;
      if digits == [] || !AllDigits(digits) then None
      else
        var v: int := DigitsValue(digits);
        Some(if negative then -v else v)
  }

  /** `int(d)` for a string of digits is the value of the digits. */
  lemma IntLiteralDigits(d: string)
    requires d != [] && AllDigits(d)
    ensures IntLiteral(d) == Some(DigitsValue(d) as int)
  {
    assert IsDigit(d[0]) && IsDigit(d[|d| - 1]);
    StripUnpadded(d);
  }

  /** `int('-' + d)` for a string of digits is minus the value of the digits. */
  lemma IntLiteralNegative(d: string)
    requires d != [] && AllDigits(d)
    ensures IntLiteral("-" + d) == Some(-(DigitsValue(d) as int))
  {
    var s := "-" + d;
    assert !IsSpace(d[0]) && !IsSpace(d[|d| - 1]) by {
      assert IsDigit(d[0]) && IsDigit(d[|d| - 1]);
    }
    assert s[0] == '-' && s[|s| - 1] == d[|d| - 1] && s[1..] == d;
    StripUnpadded(s);
    StripLeftUnpadded(d);
    IntLiteralMinus(s);
  }

  /** `int(s)` for an unpadded `s` of a minus sign and digits. */
  lemma IntLiteralMinus(s: string)
    requires |s| > 1 && Strip(s) == s && s[0] == '-' && StripLeft(s[1..]) == s[1..] && AllDigits(s[1..])
    ensures IntLiteral(s) == Some(-(DigitsValue(s[1..]) as int))
  {
  }

  lemma StripLeftUnpadded(s: string)
    requires s != [] && !IsSpace(s[0])
    ensures StripLeft(s) == s
  {
  }

  /** `int(str(n))` is `n`: every integer parses back from its decimal form. */
  lemma IntLiteralDecimal(n: int)
    ensures IntLiteral(if n < 0 then "-" + Decimal(-n) else Decimal(n)) == Some(n)
  {
    var m: nat := if n < 0 then -n else n;
    if n < 0 {
      IntLiteralNegative(Decimal(m));
    } else {
      IntLiteralDigits(Decimal(m));
    }
    DigitsValueDecimal(m);
  }

  /** Unsigned text with a character that is not a digit inside it is no integer. */
  lemma NotIntLiteral(e: string, i: nat)
    requires i < |e| && !IsSpace(e[0]) && !IsSpace(e[|e| - 1])
    requires e[0] != '-' && e[0] != '+' && !IsDigit(e[i])
    ensures IntLiteral(e) == None
  {
    StripUnpadded(e);
  }

  /** Digits followed by a dash and more text are no integer. */
  lemma DashNotInteger(digits: string, tail: string)
    requires digits != [] && AllDigits(digits) && tail != [] && !IsSpace(tail[|tail| - 1])
    ensures IntLiteral(digits + "-" + tail) == None
  {
    var e := digits + "-" + tail;
    assert IsDigit(digits[0]);
    assert e[0] == digits[0] && e[|e| - 1] == tail[|tail| - 1] && e[|digits|] == '-';
    NotIntLiteral(e, |digits|);
  }

  /** A stepped star is no integer. */
  lemma StarNotInteger(ds: string)
    requires ds != [] && AllDigits(ds)
    ensures IntLiteral("*/" + ds) == None
  {
    var e := "*/" + ds;
    assert IsDigit(ds[|ds| - 1]) && e[|e| - 1] == ds[|ds| - 1];
    NotIntLiteral(e, 0);
  }

  /** A stepped range is no integer. */
  lemma DashSlashNotInteger(da: string, db: string, ds: string)
    requires da != [] && AllDigits(da) && ds != [] && AllDigits(ds)
    ensures IntLiteral(da + "-" + db + "/" + ds) == None
  {
    var e := da + "-" + db + "/" + ds;
    assert IsDigit(da[0]) && IsDigit(ds[|ds| - 1]);
    assert e[0] == da[0] && e[|e| - 1] == ds[|ds| - 1] && e[|da|] == '-';
    NotIntLiteral(e, |da|);
  }

  /** `\d{1,2}`: one or two ASCII digits, with their value. */
  function TwoDigits(s: string): (r: Option<nat>)
    ensures r.Some? <==> 1 <= |s| <= 2 && AllDigits(s)
    ensures r.Some? ==> r.value == DigitsValue(s) && r.value < 100
  {
    if 1 <= |s| <= 2 && AllDigits(s) then
      assert DigitsValue(s) < 100 by {
        assert DigitValue(s[|s| - 1]) <= 9;
        if |s| == 2 {
          assert s[..1][..0] == [];
          assert DigitValue(s[0]) <= 9;
          assert DigitsValue(s[..1]) == DigitValue(s[0]);
        }
      }
      Some(DigitsValue(s))
    else None
  }

  /** A single digit is matched by `\d{1,2}` and denotes its digit value. */
  lemma TwoDigitsSingle(c: char)
    requires IsDigit(c)
    ensures TwoDigits([c]) == Some(DigitValue(c) as nat)
  {
    var s := [c];
    assert AllDigits(s) && s[0] == c;
    assert s[..|s| - 1] == [];
    assert DigitsValue(s) == DigitValue(c);
  }

  /** Two digits are matched by `\d{1,2}` and denote their decimal value. */
  lemma TwoDigitsPair(c: char, d: char)
    requires IsDigit(c) && IsDigit(d)
    ensures TwoDigits([c, d]) == Some((10 * DigitValue(c) + DigitValue(d)) as nat)
  {
    assert [c, d][..1] == [c];
    TwoDigitsSingle(c);
  }

  /** `str(n)` for `n < 100` is matched by `\d{1,2}` and denotes `n`. */
  lemma TwoDigitsDecimal(n: nat)
    requires n < 100
    ensures TwoDigits(Decimal(n)) == Some(n)
  {
    DigitsValueDecimal(n);
    if n >= 10 {
      assert |Decimal(n / 10)| == 1;
    }
  }

  /** The text a `^...$` pattern must match: `$` also matches before a final newline. */
  function Chomp(s: string): (r: string)
    ensures s != [] && s[|s| - 1] == '\n' ==> r + "\n" == s
    ensures s == [] || s[|s| - 1] != '\n' ==> r == s
  {
    if s != [] && s[|s| - 1] == '\n' then s[..|s| - 1] else s
  }

  // `^\*/(?P<step>\d{1,2})$`: the step of a `*/s` token.
  function StepToken(e: string): Option<nat> {
    var parts := SplitOn(Chomp(e), '/');
    if |parts| == 2 && parts[0] == "*" then TwoDigits(parts[1]) else None
  }

  datatype Bounds = Bounds(begin: nat, end: nat)

  /** `^(?P<begin>\d{1,2})-(?P<end>\d{1,2})$` on text already freed of a final newline. */
  function RangeText(t: string): Option<Bounds> {
    var parts := SplitOn(t, '-');
    if |parts| == 2 && TwoDigits(parts[0]).Some? && TwoDigits(parts[1]).Some? then
      Some(Bounds(TwoDigits(parts[0]).value, TwoDigits(parts[1]).value))
    else None
  }

  /** `^(?P<begin>\d{1,2})-(?P<end>\d{1,2})$`. */
  function RangeToken(e: string): Option<Bounds> {
    RangeText(Chomp(e))
  }

  datatype SteppedBounds = SteppedBounds(begin: nat, end: nat, step: nat)

  /** `^(?P<begin>\d{1,2})-(?P<end>\d{1,2})/(?P<step>\d{1,2})$`. */
  function RangeStepToken(e: string): Option<SteppedBounds> {
    var parts := SplitOn(Chomp(e), '/');
    if |parts| == 2 && RangeText(parts[0]).Some? && TwoDigits(parts[1]).Some? then
      var b := RangeText(parts[0]).value;
      Some(SteppedBounds(b.begin, b.end, TwoDigits(parts[1]).value))
    else None
  }

  // ---------------------------------------------------------------------------
  // The token patterns on tokens made of one- or two-digit numbers

  /** One or two digits hold no separator, and start and end with a digit. */
  lemma DigitsNoSeparator(d: string)
    requires TwoDigits(d).Some?
    ensures ',' !in d && '-' !in d && '/' !in d
    ensures d != [] && IsDigit(d[0]) && IsDigit(d[|d| - 1])
  {
    forall i | 0 <= i < |d| ensures d[i] != ',' && d[i] != '-' && d[i] != '/' {
      assert IsDigit(d[i]);
    }
  }

  /** `a-b` matches the range pattern, with the values of `a` and `b` for bounds. */
  lemma RangeTextDigits(da: string, db: string)
    requires TwoDigits(da).Some? && TwoDigits(db).Some?
    ensures RangeText(da + "-" + db) == Some(Bounds(TwoDigits(da).value, TwoDigits(db).value))
  {
    DigitsNoSeparator(da);
    DigitsNoSeparator(db);
    assert da + "-" + db == da + ['-'] + db;
    SplitPrefix(da, '-', db);
    SplitWhole(db, '-');
  }

  /** Text without a slash matches neither stepped pattern. */
  lemma NoSlash(e: string)
    requires '/' !in e
    ensures StepToken(e) == None && RangeStepToken(e) == None
  {
    assert Chomp(e) == e || Chomp(e) + "\n" == e;
    assert '/' !in Chomp(e);
    SplitWhole(Chomp(e), '/');
  }

  /** Text without a dash matches the range pattern nowhere. */
  lemma NoDash(e: string)
    requires '-' !in e
    ensures RangeToken(e) == None
  {
    assert Chomp(e) == e || Chomp(e) + "\n" == e;
    assert '-' !in Chomp(e);
    SplitWhole(Chomp(e), '-');
  }

  /** `this is garbage` matches none of the three token patterns. */
  lemma GarbageUnmatched()
    ensures StepToken("this is garbage") == None && RangeToken("this is garbage") == None
    ensures RangeStepToken("this is garbage") == None
  {
    var e := "this is garbage";
    assert '/' !in e && '-' !in e;
    NoSlash(e);
    NoDash(e);
  }

  /** `1-5/-2` matches none of the three token patterns: a step has no sign. */
  lemma NegativeStepUnmatched()
    ensures StepToken("1-5/-2") == None && RangeToken("1-5/-2") == None
    ensures RangeStepToken("1-5/-2") == None
  {
    var e := "1-5/-2";
    assert Chomp(e) == e;
    assert SplitOn(e, '/') == ["1-5", "-2"] by {
      assert e == "1-5" + ['/'] + "-2";
      SplitPrefix("1-5", '/', "-2");
      SplitWhole("-2", '/');
    }
    assert |SplitOn(e, '-')| == 3 by {
      assert e == "1" + ['-'] + "5/-2";
      assert "5/-2" == "5/" + ['-'] + "2";
      SplitPrefix("1", '-', "5/-2");
      SplitPrefix("5/", '-', "2");
      SplitWhole("2", '-');
    }
    assert TwoDigits("-2") == None by {
      assert !IsDigit("-2"[0]);
    }
  }

  /** A star, a slash and one or two digits match the stepped-star pattern, with that step. */
  lemma StepTokenDigits(d: string)
    requires TwoDigits(d).Some?
    ensures StepToken("*/" + d) == TwoDigits(d)
  {
    var e := "*/" + d;
    DigitsNoSeparator(d);
    assert e[|e| - 1] == d[|d| - 1];
    assert Chomp(e) == e;
    assert e == "*" + ['/'] + d;
    SplitPrefix("*", '/', d);
    SplitWhole(d, '/');
  }

  /** `a-b` matches the range pattern and neither stepped one. */
  lemma RangeTokenDigits(da: string, db: string)
    requires TwoDigits(da).Some? && TwoDigits(db).Some?
    ensures StepToken(da + "-" + db) == None
    ensures RangeToken(da + "-" + db) == Some(Bounds(TwoDigits(da).value, TwoDigits(db).value))
    ensures RangeStepToken(da + "-" + db) == None
  {
    var e := da + "-" + db;
    DigitsNoSeparator(da);
    DigitsNoSeparator(db);
    assert e[|e| - 1] == db[|db| - 1];
    assert Chomp(e) == e;
    NoSlash(e);
    RangeTextDigits(da, db);
  }

  /** `a-b/s` matches only the stepped-range pattern. */
  lemma RangeStepTokenDigits(da: string, db: string, ds: string)
    requires TwoDigits(da).Some? && TwoDigits(db).Some? && TwoDigits(ds).Some?
    ensures StepToken(da + "-" + db + "/" + ds) == None
    ensures RangeToken(da + "-" + db + "/" + ds) == None
    ensures RangeStepToken(da + "-" + db + "/" + ds) ==
      Some(SteppedBounds(TwoDigits(da).value, TwoDigits(db).value, TwoDigits(ds).value))
  {
    var range := da + "-" + db;
    var e := range + "/" + ds;
    DigitsNoSeparator(da);
    DigitsNoSeparator(db);
    DigitsNoSeparator(ds);
    assert Chomp(e) == e by {
      assert e[|e| - 1] == ds[|ds| - 1];
    }
    assert SplitOn(e, '/') == [range, ds] by {
      assert e == range + ['/'] + ds;
      SplitPrefix(range, '/', ds);
      SplitWhole(ds, '/');
    }
    assert StepToken(e) == None by {
      assert range[0] == da[0];
    }
    assert RangeStepToken(e) == Some(SteppedBounds(TwoDigits(da).value, TwoDigits(db).value, TwoDigits(ds).value)) by {
      RangeTextDigits(da, db);
    }
    assert RangeToken(e) == None by {
      var tail := db + "/" + ds;
      assert tail[|db|] == '/';
      assert e == da + "-" + tail;
      RangeStepRejected(da, tail);
    }
  }

  /** A range whose end is not one or two digits does not match the range pattern. */
  lemma RangeStepRejected(da: string, tail: string)
    requires '-' !in da && '-' !in tail && !AllDigits(tail)
    ensures RangeText(da + "-" + tail) == None
  {
    assert da + "-" + tail == da + ['-'] + tail;
    SplitPrefix(da, '-', tail);
    SplitWhole(tail, '-');
  }
}
