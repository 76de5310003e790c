/**
 * `parseCronEntry` and `parseCronLine` of cron.py: one comma-separated field
 * becomes the ascending list of the integers it admits, and a cron line of
 * five whitespace-separated fields becomes one such list per field.
 *
 * Each parser is a method that follows the source step by step, proved equal
 * to a specification function (`EntrySpec`, `LineSpec`) that states what the
 * field means; the lemmas below state the properties of those functions.
 */
module CronParse {
  import opened Wrappers
  import opened CronText

  /** The exceptions the parsers raise, with the message each one carries. */
  datatype CronError =
    | EmptyLine                       // InvalidCronLine: Empty cron line provided
    | WrongFieldCount(count: nat)     // InvalidCronLine: Improper number of elements encountered
    | EmptyEntry                      // InvalidCronEntry: Empty cron entry
    | MinAboveMax                     // ValueError: minimum must be less than or equal to maximum
    | NegativeMin                     // ValueError: minimum must be non-negative
    | InvalidRangeOrStep(token: string) // InvalidCronEntry: Invalid range or step specified
    | InvalidEntry                    // InvalidCronEntry: Invalid cron entry
    | OutOfRange(first: int, last: int, min: int, max: int) // InvalidCronEntry: Value ... out of allowed range

  predicate StrictlyIncreasing(s: seq<int>) {
    forall i, j :: 0 <= i < j < |s| ==> s[i] < s[j]
  }

  predicate WithinBounds(s: seq<int>, lo: int, hi: int) {
    forall i :: 0 <= i < |s| ==> lo <= s[i] <= hi
  }

  // ---------------------------------------------------------------------------
  // list(total); total.sort()

  lemma HasMember(s: set<int>)
    requires s != {}
    ensures exists y :: y in s
  {
    if forall y :: y !in s {
      assert false;
    }
  }

  lemma {:induction false} LeastExists(s: set<int>)
    requires s != {}
    ensures exists m :: m in s && forall x :: x in s ==> m <= x
    decreases s
  {
    HasMember(s);
    var y :| y in s;
    if s != {y} {
      LeastExists(s - {y});
      var m :| m in s - {y} && forall x :: x in s - {y} ==> m <= x;
      var least := if y < m then y else m;
      forall x | x in s ensures least <= x {
        if x != y { assert x in s - {y}; }
      }
    }
  }

  function Least(s: set<int>): (m: int)
    requires s != {}
    ensures m in s && forall x :: x in s ==> m <= x
  {
    LeastExists(s);
    var m :| m in s && forall x :: x in s ==> m <= x;
    m
  }

  /** The elements of a set as an ascending list: what `list(total)` then `sort()` produce. */
  function Ascending(s: set<int>): (r: seq<int>)
    ensures StrictlyIncreasing(r)
    ensures forall x :: x in r <==> x in s
    ensures |r| == |s|
    decreases s
  {
    if s == {} then []
    else
      var m := Least(s);
      var rest := Ascending(s - {m});
      assert forall x :: x in rest ==> m < x;
      [m] + rest
  }

  /** The head of an ascending list of a nonempty set is its least element. */
  lemma AscendingHead(r: seq<int>, s: set<int>)
    requires StrictlyIncreasing(r)
    requires forall x :: x in r <==> x in s
    requires s != {}
    ensures |r| > 0 && r[0] == Least(s)
  {
    var m := Least(s);
    assert m in r;
    var k :| 0 <= k < |r| && r[k] == m;
    if k != 0 {
      assert r[0] in s;
    }
  }

  /** A list whose neighbours ascend is ascending throughout. */
  lemma {:induction false} NeighboursAscending(r: seq<int>)
    requires forall i :: 0 < i < |r| ==> r[i - 1] < r[i]
    ensures StrictlyIncreasing(r)
  {
    if |r| > 1 {
      NeighboursAscending(r[1..]);
      forall j | 0 < j < |r| ensures r[0] < r[j] {
        if j > 1 {
          assert r[1..][0] < r[1..][j - 1];
        }
      }
    }
  }

  /** The tail of an ascending list holds the rest of the set. */
  lemma AscendingTail(r: seq<int>, s: set<int>)
    requires StrictlyIncreasing(r)
    requires forall x :: x in r <==> x in s
    requires |r| > 0
    ensures StrictlyIncreasing(r[1..])
    ensures forall x :: x in r[1..] <==> x in s - {r[0]}
  {
    forall x ensures x in r[1..] <==> x in s - {r[0]} {
      if x in r[1..] {
        var k :| 0 <= k < |r[1..]| && r[1..][k] == x;
        assert r[0] < r[k + 1];
      }
      if x in s - {r[0]} {
        var k :| 0 <= k < |r| && r[k] == x;
        assert r[1..][k - 1] == x;
      }
    }
  }

  lemma AscendingEmpty(r: seq<int>, s: set<int>)
    requires forall x :: x in r <==> x in s
    requires r == []
    ensures s == {}
  {
    forall x ensures x !in s {
      assert x in s ==> x in r;
    }
  }

  /** There is only one ascending list of a given set of elements. */
  lemma {:induction false} AscendingUnique(r: seq<int>, s: set<int>)
    requires StrictlyIncreasing(r)
    requires forall x :: x in r <==> x in s
    ensures r == Ascending(s)
    decreases s
  {
    if r == [] {
      AscendingEmpty(r, s);
    } else {
      assert r[0] in r;
      assert r[0] in s;
      AscendingHead(r, s);
      AscendingTail(r, s);
      var m := r[0];
      var rest, t := r[1..], s - {m};
      assert t < s;
      AscendingUnique(rest, t);
      assert r == [m] + rest;
    }
  }

  // ---------------------------------------------------------------------------
  // One token of a field

  /** The multiples of `step` in `[begin, end)`: stepped tokens align to absolute multiples. */
  function Multiples(begin: int, end: int, step: int): set<int>
    requires step > 0
  {
    set x | begin <= x < end && x % step == 0
  }

  /** `x` is reached from `begin` in whole steps. */
  predicate InStride(x: int, begin: int, step: int)
    requires step > 0
  {
    (x - begin) % step == 0
  }

  /** The values of Python's `range(begin, end, step)`. */
  function PyRange(begin: int, end: int, step: int): set<int>
    requires step > 0
  {
    set x | begin <= x < end && InStride(x, begin, step)
  }

  /** The locals `begin`, `end` (exclusive) and `step` a recognised token sets. */
  datatype Span = Span(begin: int, end: int, step: int)

  /**
   * The span a token describes: a star, a stepped star, `a-b` or `a-b/s`, tried in that
   * order; None for text matching none of them.
   */
  function TokenSpan(e: string, lo: int, hi: int): (r: Option<Span>)
    ensures e == "*" ==> r == Some(Span(lo, hi + 1, 1))
  {
    if e == "*" then Some(Span(lo, hi + 1, 1))
    else if StepToken(e).Some? then Some(Span(lo, hi + 1, StepToken(e).value))
    else if RangeToken(e).Some? then
      Some(Span(RangeToken(e).value.begin, RangeToken(e).value.end + 1, 1))
    else if RangeStepToken(e).Some? then
      var b := RangeStepToken(e).value;
      Some(Span(b.begin, b.end + 1, b.step))
    else None
  }

  /** A star stepped by `ds` (the text `"*" + "/" + ds`, `ds` one or two digits) spans `[min, max + 1)` with that step. */
  lemma StepTokenSpan(ds: string, s: nat, lo: int, hi: int)
    requires TwoDigits(ds) == Some(s)
    ensures TokenSpan("*/" + ds, lo, hi) == Some(Span(lo, hi + 1, s))
  {
    StepTokenDigits(ds);
  }

  /** `'a-b'` is a range: it spans `[a, b + 1)` with step 1. */
  lemma RangeTokenSpan(da: string, db: string, a: nat, b: nat, lo: int, hi: int)
    requires TwoDigits(da) == Some(a) && TwoDigits(db) == Some(b)
    ensures TokenSpan(da + "-" + db, lo, hi) == Some(Span(a, b + 1, 1))
  {
    var e := da + "-" + db;
    DigitsNoSeparator(da);
    assert e[0] == da[0];
    RangeTokenDigits(da, db);
    TokenSpanBranches(e, lo, hi);
  }

  /** `'a-b/s'` is a stepped range: it spans `[a, b + 1)` with step `s`. */
  lemma RangeStepTokenSpan(da: string, db: string, ds: string, a: nat, b: nat, s: nat, lo: int, hi: int)
    requires TwoDigits(da) == Some(a) && TwoDigits(db) == Some(b) && TwoDigits(ds) == Some(s)
    ensures TokenSpan(da + "-" + db + "/" + ds, lo, hi) == Some(Span(a, b + 1, s))
  {
    var e := da + "-" + db + "/" + ds;
    DigitsNoSeparator(da);
    assert e[0] == da[0];
    RangeStepTokenDigits(da, db, ds);
    TokenSpanBranches(e, lo, hi);
  }

  /** The branches of `TokenSpan` for a token other than `'*'`. */
  lemma TokenSpanBranches(e: string, lo: int, hi: int)
    requires e != [] && e[0] != '*'
    ensures StepToken(e).None? && RangeToken(e).Some? ==>
      TokenSpan(e, lo, hi) == Some(Span(RangeToken(e).value.begin, RangeToken(e).value.end + 1, 1))
    ensures StepToken(e).None? && RangeToken(e).None? && RangeStepToken(e).Some? ==>
      TokenSpan(e, lo, hi) ==
        Some(Span(RangeStepToken(e).value.begin, RangeStepToken(e).value.end + 1, RangeStepToken(e).value.step))
  {
    assert e != "*";
  }

  /** The guard a recognised span must pass before it is expanded. */
  predicate Acceptable(sp: Span, lo: int, hi: int) {
    sp.begin < sp.end && sp.step > 0 && sp.begin >= lo && sp.end <= hi + 1
  }

  /**
   * What one token contributes: a plain integer itself (unchecked here), a
   * span the multiples of its step inside it, anything else nothing. A span
   * that fails the guard, or that has no multiple of its step in
   * `[begin, end]` (end included), is an error.
   */
  function TokenValues(e: string, lo: int, hi: int): Result<set<int>, CronError> {
    match IntLiteral(e)
    case Some(n) => Ok({n})
    case None =>
      match TokenSpan(e, lo, hi)
      case None => Ok({})
      case Some(sp) => SpanValues(e, sp, lo, hi)
  }

  /** What a recognised span contributes, or the error it raises. */
  function SpanValues(e: string, sp: Span, lo: int, hi: int): Result<set<int>, CronError> {
    if !Acceptable(sp, lo, hi) then Err(InvalidRangeOrStep(e))
    else if !exists x | sp.begin <= x <= sp.end :: x % sp.step == 0 then Err(InvalidRangeOrStep(e))
    else Ok(Multiples(sp.begin, sp.end, sp.step))
  }

  /** What each token of a field yields, in order. */
  function TokenResults(tokens: seq<string>, lo: int, hi: int): (rs: seq<Result<set<int>, CronError>>)
    ensures |rs| == |tokens|
  {
    seq(|tokens|, k requires 0 <= k < |tokens| => TokenValues(tokens[k], lo, hi))
  }

  /** The union of the tokens' values, or the error of the first failing token. */
  function Union(rs: seq<Result<set<int>, CronError>>): Result<set<int>, CronError> {
    if rs == [] then Ok({})
    else
      var acc :- Union(rs[..|rs| - 1]);
      var v :- rs[|rs| - 1];
      Ok(acc + v)
  }

  /** What `parseCronEntry(entry, lo, hi)` returns or raises. */
  function EntrySpec(entry: string, lo: int, hi: int): Result<seq<int>, CronError> {
    if entry == [] then Err(EmptyEntry)
    else if lo > hi then Err(MinAboveMax)
    else if lo < 0 then Err(NegativeMin)
    else
      var total :- Union(TokenResults(SplitOn(entry, ','), lo, hi));
      Assemble(total, lo, hi)
  }

  /** The collected values sorted, rejected when empty or outside `[lo, hi]` (cron.py:516-539). */
  function Assemble(total: set<int>, lo: int, hi: int): Result<seq<int>, CronError> {
    if total == {} then Err(InvalidEntry)
    else
      var r := Ascending(total);
      if r[0] < lo || r[|r| - 1] > hi then Err(OutOfRange(r[0], r[|r| - 1], lo, hi))
      else Ok(r)
  }

  // ---------------------------------------------------------------------------
  // The parser

  lemma {:induction false} MulAtLeast(a: int, s: int)
    requires a >= 1 && s > 0
    ensures a * s >= s
    decreases a
  {
    if a > 1 {
      MulAtLeast(a - 1, s);
      assert a * s == (a - 1) * s + s;
    }
  }

  /** Euclidean remainders are unique. */
  lemma ModUnique(n: int, s: int, q: int, r: int)
    requires s > 0 && 0 <= r < s && n == q * s + r
    ensures n % s == r
  {
    var q', r' := n / s, n % s;
    assert n == q' * s + r';
    assert (q - q') * s == r' - r;
    if q > q' {
      MulAtLeast(q - q', s);
    } else if q < q' {
      MulAtLeast(q' - q, s);
    }
  }

  /** Counting from a multiple of `step` reaches exactly the multiples of `step`. */
  lemma RangeFromMultiple(begin: int, end: int, step: int)
    requires step > 0 && begin % step == 0
    ensures PyRange(begin, end, step) == Multiples(begin, end, step)
  {
    forall x | begin <= x < end
      ensures (x - begin) % step == 0 <==> x % step == 0
    {
      var k := begin / step;
      assert begin == k * step;
      var q, r := x / step, x % step;
      assert x == q * step + r;
      assert x - begin == (q - k) * step + r;
      ModUnique(x - begin, step, q - k, r);
    }
  }

  lemma {:induction false} UnionErr(rs: seq<Result<set<int>, CronError>>, i: nat)
    requires i <= |rs|
    requires Union(rs[..i]).Err?
    ensures Union(rs) == Union(rs[..i])
    decreases |rs|
  {
    if i < |rs| {
      assert rs[..|rs| - 1][..i] == rs[..i];
      UnionErr(rs[..|rs| - 1], i);
    } else {
      assert rs[..i] == rs;
    }
  }

  /** One more token extends the union, or fails with that token's error. */
  lemma UnionStep(rs: seq<Result<set<int>, CronError>>, i: nat)
    requires i < |rs|
    ensures Union(rs[..i + 1]) ==
      match Union(rs[..i])
      case Err(e) => Err(e)
      case Ok(acc) =>
        match rs[i]
        case Err(e) => Err(e)
        case Ok(v) => Ok(acc + v)
  {
    assert rs[..i + 1][..i] == rs[..i];
  }

  /**
   * Where the alignment loop stops: raising exactly when no multiple of the
   * step lies in `[begin, end]`, and otherwise expanding to the multiples.
   */
  lemma Alignment(start: int, begin: int, end: int, step: int)
    requires step > 0 && start <= begin <= end
    requires forall x :: start <= x < begin ==> x % step != 0
    requires begin % step == 0 || begin == end
    ensures (begin == end && begin % step != 0) <==> !exists x | start <= x <= end :: x % step == 0
    ensures PyRange(begin, end, step) == Multiples(start, end, step)
  {
    if begin < end {
      RangeFromMultiple(begin, end, step);
    }
  }

  /**
   * The body of the token loop of `parseCronEntry` (cron.py:475-528): what
   * one comma-separated token adds to `total`, or the error it raises.
   */
  method TokenStep(e: string, lo: int, hi: int) returns (r: Result<set<int>, CronError>)
    ensures r == TokenValues(e, lo, hi)
  {
    var n := IntLiteral(e);
    if n.Some? {
      return Ok({n.value});
    }
    var span := TokenSpan(e, lo, hi);
    if span.None? {
      return Ok({});
    }
    r := ExpandSpan(e, span.value, lo, hi);
  }

  /** The guard and the alignment loop of cron.py:497-528 for one recognised span. */
  method ExpandSpan(e: string, sp: Span, lo: int, hi: int) returns (r: Result<set<int>, CronError>)
    ensures r == SpanValues(e, sp, lo, hi)
  {
    var begin, end, step := sp.begin, sp.end, sp.step;
    if !(begin < end && step > 0 && begin >= lo && end <= hi + 1) {
      return Err(InvalidRangeOrStep(e));
    }
    // advance to the first multiple of the step, or to the end
    while begin % step != 0 && begin < end
      invariant sp.begin <= begin <= end
      invariant forall x :: sp.begin <= x < begin ==> x % step != 0
      decreases end - begin
    {
      begin := begin + 1;
    }
    Alignment(sp.begin, begin, end, step);
    if begin == end && begin % step != 0 {
      return Err(InvalidRangeOrStep(e));
    }
    return Ok(PyRange(begin, end, step));
  }

  /** `parseCronEntry(entry, min, max)` of cron.py:316-539. */
  method ParseCronEntry(entry: string, lo: int, hi: int) returns (r: Result<seq<int>, CronError>)
    ensures r == EntrySpec(entry, lo, hi)
    ensures r.Ok? ==> |r.value| > 0 && StrictlyIncreasing(r.value) && WithinBounds(r.value, lo, hi)
  {
    if entry == [] {
      return Err(EmptyEntry);
    }
    if lo > hi {
      return Err(MinAboveMax);
    }
    if lo < 0 {
      return Err(NegativeMin);
    }
    var tokens := SplitOn(entry, ',');
    ghost var rs := TokenResults(tokens, lo, hi);
    var total: set<int> := {};
    for i := 0 to |tokens|
      invariant Union(rs[..i]) == Ok(total)
    {
      UnionStep(rs, i);
      var values := TokenStep(tokens[i], lo, hi);
      assert values == rs[i];
      if values.Err? {
        UnionErr(rs, i + 1);
        return Err(values.error);
      }
      total := total + values.value;
    }
    assert rs[..|tokens|] == rs;
    assert EntrySpec(entry, lo, hi) == Assemble(total, lo, hi);
    EntryShape(entry, lo, hi);
    if total == {} {
      return Err(InvalidEntry);
    }
    var sorted := Ascending(total);
    if sorted[0] < lo || sorted[|sorted| - 1] > hi {
      return Err(OutOfRange(sorted[0], sorted[|sorted| - 1], lo, hi));
    }
    return Ok(sorted);
  }

  // ---------------------------------------------------------------------------
  // Properties of a field

  /** A parsed field is a nonempty, strictly ascending list inside `[lo, hi]`. */
  lemma EntryShape(entry: string, lo: int, hi: int)
    ensures EntrySpec(entry, lo, hi).Ok? ==>
      var r := EntrySpec(entry, lo, hi).value;
      |r| > 0 && StrictlyIncreasing(r) && WithinBounds(r, lo, hi)
  {
    if EntrySpec(entry, lo, hi).Ok? {
      var r := EntrySpec(entry, lo, hi).value;
      forall i | 0 <= i < |r| ensures lo <= r[i] <= hi {
        if 0 < i { assert r[0] < r[i]; }
        if i < |r| - 1 { assert r[i] < r[|r| - 1]; }
      }
    }
  }

  /**
   * The tokens are unioned: the field fails with the error of its first
   * failing token, and otherwise holds exactly the values some token yields.
   */
  lemma {:induction false} UnionMeaning(rs: seq<Result<set<int>, CronError>>)
    ensures Union(rs).Ok? <==> forall k :: 0 <= k < |rs| ==> rs[k].Ok?
    ensures Union(rs).Ok? ==>
      forall x :: x in Union(rs).value <==> exists k :: 0 <= k < |rs| && rs[k].Ok? && x in rs[k].value
    ensures Union(rs).Err? ==>
      exists k :: 0 <= k < |rs| && Union(rs) == rs[k] && forall j :: 0 <= j < k ==> rs[j].Ok?
    decreases |rs|
  {
    if rs != [] {
      var init, last := rs[..|rs| - 1], rs[|rs| - 1];
      UnionMeaning(init);
      assert forall j :: 0 <= j < |init| ==> rs[j] == init[j];
      if Union(init).Err? {
        var k :| 0 <= k < |init| && Union(init) == init[k] && forall j :: 0 <= j < k ==> init[j].Ok?;
      } else if last.Err? {
      } else {
        forall x ensures x in Union(rs).value <==> exists k :: 0 <= k < |rs| && rs[k].Ok? && x in rs[k].value {
          if exists k :: 0 <= k < |rs| && rs[k].Ok? && x in rs[k].value {
            var k :| 0 <= k < |rs| && rs[k].Ok? && x in rs[k].value;
            if k < |init| {
              assert init[k] == rs[k];
            }
          }
        }
      }
    }
  }

  /** The integers `lo` to `hi` in order, as Python's `range(lo, hi + 1)`. */
  function Interval(lo: int, hi: int): seq<int>
    requires lo <= hi + 1
  {
    seq(hi - lo + 1, i => lo + i)
  }

  lemma StarNotInt()
    ensures IntLiteral("*") == None
  {
    StripUnpadded("*");
  }

  /** A token that is no integer and spans `[min, max]` with step 1 yields all of it. */
  lemma FullSpanValues(e: string, lo: int, hi: int)
    requires lo <= hi
    requires IntLiteral(e).None? && TokenSpan(e, lo, hi) == Some(Span(lo, hi + 1, 1))
    ensures TokenValues(e, lo, hi) == Ok(Multiples(lo, hi + 1, 1))
  {
    assert lo % 1 == 0;
  }

  /** `'*'` on its own yields every value of `[min, max]`. */
  lemma StarToken(lo: int, hi: int)
    requires lo <= hi
    ensures TokenValues("*", lo, hi) == Ok(Multiples(lo, hi + 1, 1))
  {
    StarNotInt();
    FullSpanValues("*", lo, hi);
  }

  lemma IntervalAscending(lo: int, hi: int)
    requires lo <= hi
    ensures StrictlyIncreasing(Interval(lo, hi))
    ensures forall x :: x in Interval(lo, hi) <==> x in Multiples(lo, hi + 1, 1)
  {
    forall x | lo <= x <= hi ensures x in Interval(lo, hi) {
      assert Interval(lo, hi)[x - lo] == x;
    }
  }

  /** A field whose tokens union to the elements of an ascending list inside the bounds parses to that list. */
  lemma EntryFromUnion(entry: string, lo: int, hi: int, r: seq<int>)
    requires entry != [] && 0 <= lo <= hi
    requires Union(TokenResults(SplitOn(entry, ','), lo, hi)).Ok?
    requires forall x :: x in Union(TokenResults(SplitOn(entry, ','), lo, hi)).value <==> x in r
    requires |r| > 0 && StrictlyIncreasing(r) && lo <= r[0] && r[|r| - 1] <= hi
    ensures EntrySpec(entry, lo, hi) == Ok(r)
  {
    var total := Union(TokenResults(SplitOn(entry, ','), lo, hi)).value;
    assert EntrySpec(entry, lo, hi) == Assemble(total, lo, hi);
    AssembleList(total, lo, hi, r);
  }

  /** A set whose elements are those of an ascending list inside the bounds assembles to that list. */
  lemma AssembleList(total: set<int>, lo: int, hi: int, r: seq<int>)
    requires forall x :: x in total <==> x in r
    requires |r| > 0 && StrictlyIncreasing(r) && lo <= r[0] && r[|r| - 1] <= hi
    ensures Assemble(total, lo, hi) == Ok(r)
  {
    assert r[0] in total;
    AscendingUnique(r, total);
  }

  /** `'*'` yields exactly `[min..max]`. */
  lemma StarEntry(lo: int, hi: int)
    requires 0 <= lo <= hi
    ensures EntrySpec("*", lo, hi) == Ok(Interval(lo, hi))
  {
    SplitWhole("*", ',');
    StarToken(lo, hi);
    FullEntry("*", lo, hi);
  }

  /** A field made of one token that denotes the whole range parses to every value of the range. */
  lemma FullEntry(e: string, lo: int, hi: int)
    requires 0 <= lo <= hi && e != []
    requires SplitOn(e, ',') == [e] && TokenValues(e, lo, hi) == Ok(Multiples(lo, hi + 1, 1))
    ensures EntrySpec(e, lo, hi) == Ok(Interval(lo, hi))
  {
    var all := Multiples(lo, hi + 1, 1);
    var rs := TokenResults(SplitOn(e, ','), lo, hi);
    assert rs[0] == Ok(all);
    assert rs == [Ok(all)];
    UnionSingle(all);
    IntervalAscending(lo, hi);
    var r := Interval(lo, hi);
    assert r[0] == lo && r[|r| - 1] == hi;
    EntryFromUnion(e, lo, hi, r);
  }

  /** The union of one field token is its value set. */
  lemma UnionSingle(v: set<int>)
    ensures Union([Ok(v)]) == Ok(v)
  {
    var rs: seq<Result<set<int>, CronError>> := [Ok(v)];
    assert rs[..0] == [];
    assert {} + v == v;
  }

  /** A field written as the comma-separated decimals of a list: `','.join(map(str, r))`. */
  function Render(r: seq<int>): string
    requires |r| > 0 && forall k :: 0 <= k < |r| ==> r[k] >= 0
  {
    Join(Decimals(r), ',')
  }

  function Decimals(r: seq<int>): (ds: seq<string>)
    requires forall k :: 0 <= k < |r| ==> r[k] >= 0
    ensures |ds| == |r|
  {
    seq(|r|, k requires 0 <= k < |r| => Decimal(r[k]))
  }

  lemma NoCommaInDecimal(n: nat)
    ensures ',' !in Decimal(n)
  {
    var d := Decimal(n);
    forall i | 0 <= i < |d| ensures d[i] != ',' {
      assert IsDigit(d[i]);
    }
  }

  /** The comma-separated decimals split back into the decimals. */
  lemma RenderSplit(r: seq<int>)
    requires |r| > 0 && forall k :: 0 <= k < |r| ==> r[k] >= 0
    ensures SplitOn(Render(r), ',') == Decimals(r)
    ensures Render(r) != []
  {
    var tokens := Decimals(r);
    forall k | 0 <= k < |tokens| ensures ',' !in tokens[k] {
      NoCommaInDecimal(r[k]);
    }
    SplitJoin(tokens, ',');
    assert SplitOn(Render(r), ',')[0] == Decimal(r[0]);
  }

  /** Each decimal token yields its own value. */
  lemma DecimalResults(r: seq<int>, lo: int, hi: int)
    requires forall k :: 0 <= k < |r| ==> r[k] >= 0
    ensures forall k :: 0 <= k < |r| ==> TokenResults(Decimals(r), lo, hi)[k] == Ok({r[k]})
  {
    forall k | 0 <= k < |r| ensures TokenResults(Decimals(r), lo, hi)[k] == Ok({r[k]}) {
      IntLiteralDecimal(r[k]);
    }
  }

  /** The union of singleton results is the set of their values. */
  lemma UnionSingletons(r: seq<int>, rs: seq<Result<set<int>, CronError>>)
    requires |rs| == |r| && forall k :: 0 <= k < |r| ==> rs[k] == Ok({r[k]})
    ensures Union(rs).Ok?
    ensures forall x :: x in Union(rs).value <==> x in r
  {
    UnionMeaning(rs);
    forall x ensures x in Union(rs).value <==> x in r {
      if x in r {
        var k :| 0 <= k < |r| && r[k] == x;
        assert x in rs[k].value;
      }
    }
  }

  /**
   * Parsing is idempotent: a parsed field, written back as comma-separated
   * decimals, parses to itself.
   */
  lemma RenderRoundTrip(r: seq<int>, lo: int, hi: int)
    requires 0 <= lo
    requires |r| > 0 && StrictlyIncreasing(r) && WithinBounds(r, lo, hi)
    ensures EntrySpec(Render(r), lo, hi) == Ok(r)
  {
    RenderSplit(r);
    var rs := TokenResults(Decimals(r), lo, hi);
    DecimalResults(r, lo, hi);
    UnionSingletons(r, rs);
    EntryFromUnion(Render(r), lo, hi, r);
  }

  // ---------------------------------------------------------------------------
  // Fields of one token, and the worked examples of cron.py:325-446

  /** A field without a comma is one token: it yields what the token yields, or fails as the token fails. */
  lemma SingleTokenEntry(e: string, lo: int, hi: int)
    requires e != [] && 0 <= lo <= hi && ',' !in e
    ensures TokenValues(e, lo, hi).Err? ==> EntrySpec(e, lo, hi) == Err(TokenValues(e, lo, hi).error)
    ensures TokenValues(e, lo, hi).Ok? ==> EntrySpec(e, lo, hi) == Assemble(TokenValues(e, lo, hi).value, lo, hi)
  {
    SplitWhole(e, ',');
    var rs := TokenResults(SplitOn(e, ','), lo, hi);
    assert rs == [TokenValues(e, lo, hi)];
    assert rs[..0] == [];
    if TokenValues(e, lo, hi).Ok? {
      UnionSingle(TokenValues(e, lo, hi).value);
    } else {
      assert Union(rs) == Err(TokenValues(e, lo, hi).error);
    }
  }

  /**
   * A one-token field naming an acceptable span parses to the ascending list
   * of the multiples of the step inside the span.
   */
  lemma SpanEntry(e: string, lo: int, hi: int, sp: Span, r: seq<int>)
    requires e != [] && 0 <= lo <= hi && ',' !in e
    requires IntLiteral(e) == None && TokenSpan(e, lo, hi) == Some(sp) && Acceptable(sp, lo, hi)
    requires forall x :: x in Multiples(sp.begin, sp.end, sp.step) <==> x in r
    requires |r| > 0 && StrictlyIncreasing(r) && lo <= r[0] && r[|r| - 1] <= hi
    ensures EntrySpec(e, lo, hi) == Ok(r)
  {
    assert r[0] in Multiples(sp.begin, sp.end, sp.step);
    assert TokenValues(e, lo, hi) == Ok(Multiples(sp.begin, sp.end, sp.step));
    SingleTokenEntry(e, lo, hi);
    AssembleList(Multiples(sp.begin, sp.end, sp.step), lo, hi, r);
  }

  /** A field `'a-b'` with `min <= a <= b <= max` parses to `range(a, b + 1)`. */
  lemma RangeEntry(da: string, db: string, a: nat, b: nat, lo: int, hi: int)
    requires TwoDigits(da) == Some(a) && TwoDigits(db) == Some(b) && 0 <= lo <= a <= b <= hi
    ensures EntrySpec(da + "-" + db, lo, hi) == Ok(Interval(a, b))
  {
    DigitsNoSeparator(da);
    DigitsNoSeparator(db);
    DashNotInteger(da, db);
    RangeTokenSpan(da, db, a, b, lo, hi);
    IntervalAscending(a, b);
    SpanEntry(da + "-" + db, lo, hi, Span(a, b + 1, 1), Interval(a, b));
  }

  /** A field `'a-b'` with `b < a` is rejected: "Invalid range or step specified". */
  lemma ReversedRangeEntry(da: string, db: string, a: nat, b: nat, lo: int, hi: int)
    requires TwoDigits(da) == Some(a) && TwoDigits(db) == Some(b) && b < a && 0 <= lo <= hi
    ensures EntrySpec(da + "-" + db, lo, hi) == Err(InvalidRangeOrStep(da + "-" + db))
  {
    var e := da + "-" + db;
    assert e != [] && ',' !in e && IntLiteral(e) == None && TokenSpan(e, lo, hi) == Some(Span(a, b + 1, 1)) by {
      DigitsNoSeparator(da);
      DigitsNoSeparator(db);
      DashNotInteger(da, db);
      RangeTokenSpan(da, db, a, b, lo, hi);
    }
    assert !Acceptable(Span(a, b + 1, 1), lo, hi);
    assert TokenValues(e, lo, hi) == SpanValues(e, Span(a, b + 1, 1), lo, hi);
    SingleTokenEntry(e, lo, hi);
  }

  /**
   * A field that is a star stepped by `s` parses to the multiples of `s` in
   * `[min, max]`, ascending.
   */
  lemma StepEntry(ds: string, s: nat, lo: int, hi: int, r: seq<int>)
    requires TwoDigits(ds) == Some(s) && s > 0 && 0 <= lo <= hi
    requires forall x :: x in Multiples(lo, hi + 1, s) <==> x in r
    requires |r| > 0 && StrictlyIncreasing(r) && lo <= r[0] && r[|r| - 1] <= hi
    ensures EntrySpec("*/" + ds, lo, hi) == Ok(r)
  {
    DigitsNoSeparator(ds);
    StarNotInteger(ds);
    StepTokenSpan(ds, s, lo, hi);
    SpanEntry("*/" + ds, lo, hi, Span(lo, hi + 1, s), r);
  }

  /**
   * A field `'a-b/s'` inside `[min, max]` parses to the multiples of `s` in
   * `[a, b]`, ascending.
   */
  lemma RangeStepEntry(da: string, db: string, ds: string, a: nat, b: nat, s: nat, lo: int, hi: int, r: seq<int>)
    requires TwoDigits(da) == Some(a) && TwoDigits(db) == Some(b) && TwoDigits(ds) == Some(s)
    requires s > 0 && 0 <= lo <= a <= b <= hi
    requires forall x :: x in Multiples(a, b + 1, s) <==> x in r
    requires |r| > 0 && StrictlyIncreasing(r) && lo <= r[0] && r[|r| - 1] <= hi
    ensures EntrySpec(da + "-" + db + "/" + ds, lo, hi) == Ok(r)
  {
    RangeStepText(da, db, ds, a, b, s, lo, hi);
    SpanEntry(da + "-" + db + "/" + ds, lo, hi, Span(a, b + 1, s), r);
  }

  /** `'a-b/s'` is one token, no integer, and the stepped range from `a` to `b`. */
  lemma RangeStepText(da: string, db: string, ds: string, a: nat, b: nat, s: nat, lo: int, hi: int)
    requires TwoDigits(da) == Some(a) && TwoDigits(db) == Some(b) && TwoDigits(ds) == Some(s)
    ensures var e := da + "-" + db + "/" + ds;
      e != [] && ',' !in e && IntLiteral(e) == None && TokenSpan(e, lo, hi) == Some(Span(a, b + 1, s))
  {
    RangeStepOneToken(da, db, ds);
    DashSlashNotInteger(da, db, ds);
    RangeStepTokenSpan(da, db, ds, a, b, s, lo, hi);
  }

  /** `'a-b/s'` holds no comma. */
  lemma RangeStepOneToken(da: string, db: string, ds: string)
    requires TwoDigits(da).Some? && TwoDigits(db).Some? && TwoDigits(ds).Some?
    ensures ',' !in da + "-" + db + "/" + ds
  {
    DigitsNoSeparator(da);
    DigitsNoSeparator(db);
    DigitsNoSeparator(ds);
  }

  /**
   * A field `'a-b/s'` inside `[min, max]` with no multiple of `s` in
   * `[a, b + 1]` is rejected: "Invalid range or step specified".
   */
  lemma BarrenStepEntry(da: string, db: string, ds: string, a: nat, b: nat, s: nat, lo: int, hi: int)
    requires TwoDigits(da) == Some(a) && TwoDigits(db) == Some(b) && TwoDigits(ds) == Some(s)
    requires s > 0 && 0 <= lo <= a <= b <= hi
    requires forall x :: a <= x <= b + 1 ==> x % s != 0
    ensures EntrySpec(da + "-" + db + "/" + ds, lo, hi) == Err(InvalidRangeOrStep(da + "-" + db + "/" + ds))
  {
    var e := da + "-" + db + "/" + ds;
    RangeStepText(da, db, ds, a, b, s, lo, hi);
    BarrenSpanValues(e, Span(a, b + 1, s), lo, hi);
    SingleTokenEntry(e, lo, hi);
  }

  /** `parseCronEntry('3-5', 0, 12)` is `[3, 4, 5]`. */
  lemma RangeExample()
    ensures EntrySpec("3-5", 0, 12) == Ok([3, 4, 5])
  {
    ThreeToFive();
    RangeEntry("3", "5", 3, 5, 0, 12);
  }

  /** The pieces of the field `3-5`. */
  lemma ThreeToFive()
    ensures "3" + "-" + "5" == "3-5" && TwoDigits("3") == Some(3) && TwoDigits("5") == Some(5)
    ensures Interval(3, 5) == [3, 4, 5]
  {
    TwoDigitsSingle('3');
    TwoDigitsSingle('5');
  }

  /** `parseCronEntry('*' + '/3', 1, 12)` is `[3, 6, 9, 12]`: steps count from 0, not from the minimum. */
  lemma StepExample()
    ensures EntrySpec("*/3", 1, 12) == Ok([3, 6, 9, 12])
  {
    assert "*/" + "3" == "*/3";
    StepEntry("3", 3, 1, 12, [3, 6, 9, 12]);
  }

  /** `parseCronEntry('2-10/3', 0, 12)` is `[3, 6, 9]`: the step aligns to multiples of 3, not to 2. */
  lemma RangeStepExample()
    ensures EntrySpec("2-10/3", 0, 12) == Ok([3, 6, 9])
  {
    assert "2" + "-" + "10" + "/" + "3" == "2-10/3";
    RangeStepEntry("2", "10", "3", 2, 10, 3, 0, 12, [3, 6, 9]);
  }

  /** `parseCronEntry('3-1', 1, 5)` raises "Invalid range or step specified": the range runs backwards. */
  lemma ReversedRangeExample()
    ensures EntrySpec("3-1", 1, 5) == Err(InvalidRangeOrStep("3-1"))
  {
    assert "3" + "-" + "1" == "3-1";
    ReversedRangeEntry("3", "1", 3, 1, 1, 5);
  }

  /** `parseCronEntry('1-5/40', 1, 5)` raises "Invalid range or step specified": no multiple of 40 lies in `[1, 5]`. */
  lemma LargeStepExample()
    ensures EntrySpec("1-5/40", 1, 5) == Err(InvalidRangeOrStep("1-5/40"))
  {
    assert "1" + "-" + "5" + "/" + "40" == "1-5/40";
    BarrenStepEntry("1", "5", "40", 1, 5, 40, 1, 5);
  }

  /** `parseCronEntry('-6', 1, 5)` raises "Value -6--6 out of range [1-5]": a negative integer is taken as a value. */
  lemma NegativeValueExample()
    ensures EntrySpec("-6", 1, 5) == Err(OutOfRange(-6, -6, 1, 5))
  {
    NegativeSix("-6");
    ValueEntry("-6", -6, 1, 5);
  }

  /** `int('-6')` is -6. */
  lemma NegativeSix(e: string)
    requires e == "-6"
    ensures ',' !in e && IntLiteral(e) == Some(-6)
  {
    assert e == "-" + "6";
    TwoDigitsSingle('6');
    IntLiteralNegative("6");
  }

  /**
   * A one-token field that `int()` accepts parses to that one value, or is
   * rejected as out of range: "Value, n-n, out of allowed range".
   */
  lemma ValueEntry(e: string, n: int, lo: int, hi: int)
    requires e != [] && 0 <= lo <= hi && ',' !in e && IntLiteral(e) == Some(n)
    ensures lo <= n <= hi ==> EntrySpec(e, lo, hi) == Ok([n])
    ensures n < lo || hi < n ==> EntrySpec(e, lo, hi) == Err(OutOfRange(n, n, lo, hi))
  {
    assert TokenValues(e, lo, hi) == Ok({n});
    SingleTokenEntry(e, lo, hi);
    SingletonAssembles(n, lo, hi);
  }

  /** One value assembles to itself, or to the out-of-range error that names it twice. */
  lemma SingletonAssembles(n: int, lo: int, hi: int)
    ensures lo <= n <= hi ==> Assemble({n}, lo, hi) == Ok([n])
    ensures n < lo || hi < n ==> Assemble({n}, lo, hi) == Err(OutOfRange(n, n, lo, hi))
  {
    AscendingUnique([n], {n});
    var r := Ascending({n});
    assert r == [n] && r[0] == n && r[|r| - 1] == n;
  }

  /** A one-digit field is that digit, or is rejected as out of range. */
  lemma DigitEntry(e: string, c: char, lo: int, hi: int)
    requires e == [c] && IsDigit(c) && 0 <= lo <= hi
    ensures lo <= DigitValue(c) <= hi ==> EntrySpec(e, lo, hi) == Ok([DigitValue(c)])
    ensures DigitValue(c) < lo || hi < DigitValue(c) ==> EntrySpec(e, lo, hi) == Err(OutOfRange(DigitValue(c), DigitValue(c), lo, hi))
  {
    assert e[..|e| - 1] == [];
    IntLiteralDigits(e);
    ValueEntry(e, DigitValue(c), lo, hi);
  }

  /** `parseCronEntry('0', 0, 12)` is `[0]`. */
  lemma SingleValueExample()
    ensures EntrySpec("0", 0, 12) == Ok([0])
  {
    DigitEntry("0", '0', 0, 12);
  }

  /** `parseCronEntry('0', 1, 5)` and `parseCronEntry('6', 1, 5)` raise "Value, n-n, out of allowed range: 1-5". */
  lemma OutOfRangeExamples()
    ensures EntrySpec("0", 1, 5) == Err(OutOfRange(0, 0, 1, 5))
    ensures EntrySpec("6", 1, 5) == Err(OutOfRange(6, 6, 1, 5))
  {
    DigitEntry("0", '0', 1, 5);
    DigitEntry("6", '6', 1, 5);
  }

  /** `parseCronEntry('*', 0, 3)` is `[0, 1, 2, 3]`. */
  lemma StarExample()
    ensures EntrySpec("*", 0, 3) == Ok([0, 1, 2, 3])
  {
    assert Interval(0, 3) == [0, 1, 2, 3];
    StarEntry(0, 3);
  }

  /** `parseCronEntry('*' + '/3', 0, 12)` is `[0, 3, 6, 9, 12]`. */
  lemma StepFromZeroExample()
    ensures EntrySpec("*/3", 0, 12) == Ok([0, 3, 6, 9, 12])
  {
    assert "*/" + "3" == "*/3";
    StepEntry("3", 3, 0, 12, [0, 3, 6, 9, 12]);
  }

  /** `parseCronEntry('3-9/3', 0, 12)` is `[3, 6, 9]`. */
  lemma AlignedRangeStepExample()
    ensures EntrySpec("3-9/3", 0, 12) == Ok([3, 6, 9])
  {
    assert "3" + "-" + "9" + "/" + "3" == "3-9/3";
    RangeStepEntry("3", "9", "3", 3, 9, 3, 0, 12, [3, 6, 9]);
  }

  /** A field whose tokens each yield a set of values parses to the ascending list of their union. */
  lemma TokensEntry(entry: string, tokens: seq<string>, vals: seq<set<int>>, lo: int, hi: int, r: seq<int>)
    requires entry != [] && 0 <= lo <= hi && SplitOn(entry, ',') == tokens && |vals| == |tokens|
    requires forall k :: 0 <= k < |tokens| ==> TokenValues(tokens[k], lo, hi) == Ok(vals[k])
    requires forall x :: x in r <==> exists k :: 0 <= k < |vals| && x in vals[k]
    requires |r| > 0 && StrictlyIncreasing(r) && lo <= r[0] && r[|r| - 1] <= hi
    ensures EntrySpec(entry, lo, hi) == Ok(r)
  {
    var rs := TokenResults(tokens, lo, hi);
    UnionMeaning(rs);
    assert forall k :: 0 <= k < |rs| ==> rs[k] == Ok(vals[k]);
    EntryFromUnion(entry, lo, hi, r);
  }

  /** A token `'a-b'` with `min <= a <= b <= max` yields the values `a` to `b`. */
  lemma RangeTokenValues(da: string, db: string, a: nat, b: nat, lo: int, hi: int)
    requires TwoDigits(da) == Some(a) && TwoDigits(db) == Some(b) && lo <= a <= b <= hi
    ensures TokenValues(da + "-" + db, lo, hi) == Ok(Multiples(a, b + 1, 1))
  {
    DigitsNoSeparator(db);
    DashNotInteger(da, db);
    RangeTokenSpan(da, db, a, b, lo, hi);
    SpanTokenValues(da + "-" + db, Span(a, b + 1, 1), lo, hi, a);
  }

  /** A recognised span with no multiple of its step in `[begin, end]` is an error. */
  lemma BarrenSpanValues(e: string, sp: Span, lo: int, hi: int)
    requires IntLiteral(e) == None && TokenSpan(e, lo, hi) == Some(sp) && sp.step > 0
    requires forall x :: sp.begin <= x <= sp.end ==> x % sp.step != 0
    ensures TokenValues(e, lo, hi) == Err(InvalidRangeOrStep(e))
  {
    assert TokenValues(e, lo, hi) == SpanValues(e, sp, lo, hi);
  }

  /** A recognised span that passes the guard and holds a multiple of its step yields those multiples. */
  lemma SpanTokenValues(e: string, sp: Span, lo: int, hi: int, w: int)
    requires IntLiteral(e) == None && TokenSpan(e, lo, hi) == Some(sp)
    requires Acceptable(sp, lo, hi) && sp.begin <= w <= sp.end && w % sp.step == 0
    ensures TokenValues(e, lo, hi) == Ok(Multiples(sp.begin, sp.end, sp.step))
  {
    assert TokenValues(e, lo, hi) == SpanValues(e, sp, lo, hi);
  }

  /** A token `'*' + '/s'` yields the multiples of `s` in `[min, max]` when one of them lies in `[min, max + 1]`. */
  lemma StepTokenValues(ds: string, s: nat, lo: int, hi: int, w: int)
    requires TwoDigits(ds) == Some(s) && s > 0 && lo <= hi && lo <= w <= hi + 1 && w % s == 0
    ensures TokenValues("*/" + ds, lo, hi) == Ok(Multiples(lo, hi + 1, s))
  {
    var e := "*/" + ds;
    assert IntLiteral(e) == None && TokenSpan(e, lo, hi) == Some(Span(lo, hi + 1, s)) by {
      StarNotInteger(ds);
      StepTokenSpan(ds, s, lo, hi);
    }
    SpanTokenValues(e, Span(lo, hi + 1, s), lo, hi, w);
  }

  /** A token `'a-b/s'` inside `[min, max]` yields the multiples of `s` in `[a, b]` when one lies in `[a, b + 1]`. */
  lemma RangeStepTokenValues(da: string, db: string, ds: string, a: nat, b: nat, s: nat, lo: int, hi: int, w: int)
    requires TwoDigits(da) == Some(a) && TwoDigits(db) == Some(b) && TwoDigits(ds) == Some(s)
    requires s > 0 && lo <= a <= b <= hi && a <= w <= b + 1 && w % s == 0
    ensures TokenValues(da + "-" + db + "/" + ds, lo, hi) == Ok(Multiples(a, b + 1, s))
  {
    var e := da + "-" + db + "/" + ds;
    assert IntLiteral(e) == None && TokenSpan(e, lo, hi) == Some(Span(a, b + 1, s)) by {
      DashSlashNotInteger(da, db, ds);
      RangeStepTokenSpan(da, db, ds, a, b, s, lo, hi);
    }
    SpanTokenValues(e, Span(a, b + 1, s), lo, hi, w);
  }

  /** `parseCronEntry('1,3,5', 1, 12)` is `[1, 3, 5]`. */
  lemma ValueListExample()
    ensures EntrySpec("1,3,5", 1, 12) == Ok([1, 3, 5])
  {
    assert Render([1, 3, 5]) == "1,3,5";
    RenderRoundTrip([1, 3, 5], 1, 12);
  }

  /** `parseCronEntry('1-3,6-9', 1, 12)` is `[1, 2, 3, 6, 7, 8, 9]`. */
  lemma RangeListExample()
    ensures EntrySpec("1-3,6-9", 1, 12) == Ok([1, 2, 3, 6, 7, 8, 9])
  {
    assert "1-3,6-9" == "1-3" + [','] + "6-9";
    RangeListEntry("1-3", "6-9", [1, 2, 3, 6, 7, 8, 9]);
  }

  /** The two tokens of `'1-3,6-9'`, and the list their values make. */
  lemma RangeListEntry(a: string, b: string, r: seq<int>)
    requires a == "1-3" && b == "6-9" && r == [1, 2, 3, 6, 7, 8, 9]
    ensures EntrySpec(a + [','] + b, 1, 12) == Ok(r)
  {
    RangeListFirst(a);
    RangeListSecond(b);
    RangeListUnion(r);
    TwoTokensEntry(a, b, {1, 2, 3}, {6, 7, 8, 9}, 1, 12, r);
  }

  /** A field of two tokens parses to the ascending list of the union of their values. */
  lemma TwoTokensEntry(a: string, b: string, va: set<int>, vb: set<int>, lo: int, hi: int, r: seq<int>)
    requires ',' !in a && ',' !in b && 0 <= lo <= hi
    requires TokenValues(a, lo, hi) == Ok(va) && TokenValues(b, lo, hi) == Ok(vb)
    requires forall x :: x in r <==> x in va || x in vb
    requires |r| > 0 && StrictlyIncreasing(r) && lo <= r[0] && r[|r| - 1] <= hi
    ensures EntrySpec(a + [','] + b, lo, hi) == Ok(r)
  {
    SplitPrefix(a, ',', b);
    SplitWhole(b, ',');
    var tokens := [a, b];
    var vals := [va, vb];
    forall x ensures x in r <==> exists k :: 0 <= k < |vals| && x in vals[k] {
      if exists k :: 0 <= k < |vals| && x in vals[k] {
        var k :| 0 <= k < |vals| && x in vals[k];
        assert k == 0 || k == 1;
      }
      if x in va { assert x in vals[0]; }
      if x in vb { assert x in vals[1]; }
    }
    forall k | 0 <= k < |tokens| ensures TokenValues(tokens[k], lo, hi) == Ok(vals[k]) {
      assert k == 0 || k == 1;
    }
    TokensEntry(a + [','] + b, tokens, vals, lo, hi, r);
  }

  /** `'1-3'` yields 1 to 3. */
  lemma RangeListFirst(t: string)
    requires t == "1-3"
    ensures ',' !in t && TokenValues(t, 1, 12) == Ok({1, 2, 3})
  {
    assert t == "1" + "-" + "3";
    TwoDigitsSingle('1');
    TwoDigitsSingle('3');
    RangeTokenValues("1", "3", 1, 3, 1, 12);
    RangeListSets();
  }

  /** `'6-9'` yields 6 to 9. */
  lemma RangeListSecond(t: string)
    requires t == "6-9"
    ensures ',' !in t && TokenValues(t, 1, 12) == Ok({6, 7, 8, 9})
  {
    assert t == "6" + "-" + "9";
    TwoDigitsSingle('6');
    TwoDigitsSingle('9');
    RangeTokenValues("6", "9", 6, 9, 1, 12);
    RangeListSets();
  }

  /** The values the ranges `'1-3'` and `'6-9'` select. */
  lemma RangeListSets()
    ensures Multiples(1, 4, 1) == {1, 2, 3} && Multiples(6, 10, 1) == {6, 7, 8, 9}
  {
    forall x | x in {1, 2, 3} ensures x in Multiples(1, 4, 1) {
      assert x % 1 == 0;
    }
    forall x | x in {6, 7, 8, 9} ensures x in Multiples(6, 10, 1) {
      assert x % 1 == 0;
    }
  }

  /** `[1, 2, 3, 6, 7, 8, 9]` is ascending and holds exactly 1 to 3 and 6 to 9. */
  lemma RangeListUnion(r: seq<int>)
    requires r == [1, 2, 3, 6, 7, 8, 9]
    ensures StrictlyIncreasing(r)
    ensures forall x :: x in r <==> x in {1, 2, 3} || x in {6, 7, 8, 9}
  {
    NeighboursAscending(r);
  }

  /**
   * `parseCronEntry('*' + '/5,1,12-14,22-28/3', 1, 30)` is
   * `[1, 5, 10, 12, 13, 14, 15, 20, 24, 25, 27, 30]`: the union of every fifth
   * value, 1, the range 12 to 14, and the multiples of 3 between 22 and 28.
   */
  lemma ComplexExample()
    ensures EntrySpec("*/5,1,12-14,22-28/3", 1, 30) == Ok([1, 5, 10, 12, 13, 14, 15, 20, 24, 25, 27, 30])
  {
    assert "*/5,1,12-14,22-28/3" == "*/5" + [','] + ("1" + [','] + ("12-14" + [','] + "22-28/3"));
    ComplexEntry("*/5", "1", "12-14", "22-28/3", [1, 5, 10, 12, 13, 14, 15, 20, 24, 25, 27, 30]);
  }

  /** The four tokens of the complex field, and the list their values make. */
  lemma ComplexEntry(a: string, b: string, c: string, d: string, r: seq<int>)
    requires a == "*/5" && b == "1" && c == "12-14" && d == "22-28/3"
    requires r == [1, 5, 10, 12, 13, 14, 15, 20, 24, 25, 27, 30]
    ensures EntrySpec(a + [','] + (b + [','] + (c + [','] + d)), 1, 30) == Ok(r)
  {
    ComplexStep(a);
    ComplexValue(b);
    ComplexRange(c);
    ComplexRangeStep(d);
    ComplexList(r);
    FourTokensEntry(a, b, c, d, {5, 10, 15, 20, 25, 30}, {1}, {12, 13, 14}, {24, 27}, 1, 30, r);
  }

  /** The complex field's result list is ascending and holds exactly the tokens' values. */
  lemma ComplexList(r: seq<int>)
    requires r == [1, 5, 10, 12, 13, 14, 15, 20, 24, 25, 27, 30]
    ensures StrictlyIncreasing(r)
    ensures forall x :: x in r <==> x in {5, 10, 15, 20, 25, 30} || x in {1} || x in {12, 13, 14} || x in {24, 27}
  {
    NeighboursAscending(r);
  }

  /** A field of four tokens parses to the ascending list of the union of their values. */
  lemma FourTokensEntry(a: string, b: string, c: string, d: string,
                        va: set<int>, vb: set<int>, vc: set<int>, vd: set<int>, lo: int, hi: int, r: seq<int>)
    requires ',' !in a && ',' !in b && ',' !in c && ',' !in d && 0 <= lo <= hi
    requires TokenValues(a, lo, hi) == Ok(va) && TokenValues(b, lo, hi) == Ok(vb)
    requires TokenValues(c, lo, hi) == Ok(vc) && TokenValues(d, lo, hi) == Ok(vd)
    requires forall x :: x in r <==> x in va || x in vb || x in vc || x in vd
    requires |r| > 0 && StrictlyIncreasing(r) && lo <= r[0] && r[|r| - 1] <= hi
    ensures EntrySpec(a + [','] + (b + [','] + (c + [','] + d)), lo, hi) == Ok(r)
  {
    var entry := a + [','] + (b + [','] + (c + [','] + d));
    SplitFour(a, b, c, d, ',');
    var tokens := [a, b, c, d];
    var vals := [va, vb, vc, vd];
    FourUnion(vals, r);
    forall k | 0 <= k < |tokens| ensures TokenValues(tokens[k], lo, hi) == Ok(vals[k]) {
      assert k == 0 || k == 1 || k == 2 || k == 3;
    }
    TokensEntry(entry, tokens, vals, lo, hi, r);
  }

  /** A value is in the union of four sets exactly when one of them holds it. */
  lemma FourUnion(vals: seq<set<int>>, r: seq<int>)
    requires |vals| == 4
    requires forall x :: x in r <==> x in vals[0] || x in vals[1] || x in vals[2] || x in vals[3]
    ensures forall x :: x in r <==> exists k :: 0 <= k < |vals| && x in vals[k]
  {
    forall x ensures x in r <==> exists k :: 0 <= k < |vals| && x in vals[k] {
      if exists k :: 0 <= k < |vals| && x in vals[k] {
        var k :| 0 <= k < |vals| && x in vals[k];
        assert k == 0 || k == 1 || k == 2 || k == 3;
      }
    }
  }

  /** Four pieces free of the separator, joined by it, split back into those pieces. */
  lemma SplitFour(a: string, b: string, c: string, d: string, sep: char)
    requires sep !in a && sep !in b && sep !in c && sep !in d
    ensures SplitOn(a + [sep] + (b + [sep] + (c + [sep] + d)), sep) == [a, b, c, d]
  {
    SplitWhole(d, sep);
    SplitPrefix(c, sep, d);
    SplitPrefix(b, sep, c + [sep] + d);
    SplitPrefix(a, sep, b + [sep] + (c + [sep] + d));
  }

  /** `'*' + '/5'` in `[1, 30]` yields every fifth value. */
  lemma ComplexStep(t: string)
    requires t == "*/5"
    ensures TokenValues(t, 1, 30) == Ok({5, 10, 15, 20, 25, 30})
  {
    assert "*/5" == "*/" + "5";
    TwoDigitsSingle('5');
    StepTokenValues("5", 5, 1, 30, 5);
    ComplexSets();
  }

  /** `'1'` yields itself. */
  lemma ComplexValue(t: string)
    requires t == "1"
    ensures TokenValues(t, 1, 30) == Ok({1})
  {
    IntLiteralDigits("1");
  }

  /** `'12-14'` yields 12, 13 and 14. */
  lemma ComplexRange(t: string)
    requires t == "12-14"
    ensures TokenValues(t, 1, 30) == Ok({12, 13, 14})
  {
    assert "12-14" == "12" + "-" + "14";
    TwoDigitsPair('1', '2');
    TwoDigitsPair('1', '4');
    RangeTokenValues("12", "14", 12, 14, 1, 30);
    ComplexSets();
  }

  /** `'22-28/3'` yields the multiples of 3 between 22 and 28. */
  lemma ComplexRangeStep(t: string)
    requires t == "22-28/3"
    ensures TokenValues(t, 1, 30) == Ok({24, 27})
  {
    assert "22-28/3" == "22" + "-" + "28" + "/" + "3";
    TwoDigitsPair('2', '2');
    TwoDigitsPair('2', '8');
    TwoDigitsSingle('3');
    RangeStepTokenValues("22", "28", "3", 22, 28, 3, 1, 30, 24);
    ComplexSets();
  }

  /** The multiples the complex field's spans select. */
  lemma ComplexSets()
    ensures Multiples(1, 31, 5) == {5, 10, 15, 20, 25, 30}
    ensures Multiples(12, 15, 1) == {12, 13, 14}
    ensures Multiples(22, 29, 3) == {24, 27}
  {
    forall x | x in Multiples(1, 31, 5) ensures x in {5, 10, 15, 20, 25, 30} {
      assert x == 5 * (x / 5);
    }
    forall x | x in Multiples(12, 15, 1) ensures x in {12, 13, 14} {
    }
    forall x | x in {12, 13, 14} ensures x in Multiples(12, 15, 1) {
      assert x % 1 == 0;
    }
    forall x | x in Multiples(22, 29, 3) ensures x in {24, 27} {
      assert x == 3 * (x / 3);
    }
  }

  /** A one-token field that is neither an integer nor a recognised span yields nothing: "Invalid cron entry". */
  lemma UnrecognisedEntry(e: string, lo: int, hi: int)
    requires e != [] && 0 <= lo <= hi && ',' !in e && IntLiteral(e) == None && TokenSpan(e, lo, hi) == None
    ensures EntrySpec(e, lo, hi) == Err(InvalidEntry)
  {
    SingleTokenEntry(e, lo, hi);
  }

  /** `parseCronEntry('this is garbage', 1, 5)` raises "Invalid cron entry". */
  lemma GarbageExample()
    ensures EntrySpec("this is garbage", 1, 5) == Err(InvalidEntry)
  {
    var e := "this is garbage";
    assert e[0] == 't' && e[|e| - 1] == 'e' && ',' !in e;
    NotIntLiteral(e, 0);
    GarbageUnmatched();
    UnrecognisedEntry(e, 1, 5);
  }

  /** `parseCronEntry('1-5/-2', 1, 5)` raises "Invalid cron entry": a negative step matches no pattern. */
  lemma NegativeStepExample()
    ensures EntrySpec("1-5/-2", 1, 5) == Err(InvalidEntry)
  {
    var e := "1-5/-2";
    assert e[0] == '1' && e[1] == '-' && e[|e| - 1] == '2' && ',' !in e;
    NotIntLiteral(e, 1);
    NegativeStepUnmatched();
    UnrecognisedEntry(e, 1, 5);
  }

  /**
   * The argument checks, in the order cron.py:448-464 makes them: an empty
   * entry, then `min > max`, then a negative minimum.
   */
  lemma ArgumentExamples()
    ensures EntrySpec("", 1, 5) == Err(EmptyEntry)
    ensures EntrySpec("1", 1, 0) == Err(MinAboveMax)
    ensures EntrySpec("1", -100, 100) == Err(NegativeMin)
  {
  }

  // ---------------------------------------------------------------------------
  // A whole line

  /** The dictionary `parseCronLine` returns, one list per key. */
  datatype Entries = Entries(minutes: seq<int>, hours: seq<int>, doms: seq<int>, months: seq<int>, dows: seq<int>)

  /** A field as `parseCronEntry` returns it: nonempty, strictly ascending, inside its bounds. */
  predicate FieldValid(s: seq<int>, lo: int, hi: int) {
    |s| > 0 && StrictlyIncreasing(s) && WithinBounds(s, lo, hi)
  }

  /** The five lists inside the bounds `parseCronLine` gives them. */
  predicate EntriesValid(e: Entries) {
    FieldValid(e.minutes, 0, 59) && FieldValid(e.hours, 0, 23) && FieldValid(e.doms, 1, 31) &&
    FieldValid(e.months, 1, 12) && FieldValid(e.dows, 0, 6)
  }

  /** What `parseCronLine(line)` returns or raises. */
  function LineSpec(line: string): Result<Entries, CronError> {
    if line == [] then Err(EmptyLine)
    else
      var fields := Fields(line);
      if |fields| != 5 then Err(WrongFieldCount(|fields|))
      else
        var minutes :- EntrySpec(fields[0], 0, 59);
        var hours :- EntrySpec(fields[1], 0, 23);
        var doms :- EntrySpec(fields[2], 1, 31);
        var months :- EntrySpec(fields[3], 1, 12);
        var dows :- EntrySpec(fields[4], 0, 6);
        Ok(Entries(minutes, hours, doms, months, dows))
  }

  /** `parseCronLine(line)` of cron.py:258-314. */
  method ParseCronLine(line: string) returns (r: Result<Entries, CronError>)
    ensures r == LineSpec(line)
    ensures r.Ok? ==> EntriesValid(r.value)
  {
    if line == [] {
      return Err(EmptyLine);
    }
    var fields := Fields(line);
    if |fields| != 5 {
      return Err(WrongFieldCount(|fields|));
    }
    var minutes := ParseCronEntry(fields[0], 0, 59);
    if minutes.Err? {
      return Err(minutes.error);
    }
    var hours := ParseCronEntry(fields[1], 0, 23);
    if hours.Err? {
      return Err(hours.error);
    }
    var doms := ParseCronEntry(fields[2], 1, 31);
    if doms.Err? {
      return Err(doms.error);
    }
    var months := ParseCronEntry(fields[3], 1, 12);
    if months.Err? {
      return Err(months.error);
    }
    var dows := ParseCronEntry(fields[4], 0, 6);
    if dows.Err? {
      return Err(dows.error);
    }
    return Ok(Entries(minutes.value, hours.value, doms.value, months.value, dows.value));
  }

  /** A field never fails with a line-level error. */
  lemma EntryErrors(entry: string, lo: int, hi: int)
    ensures EntrySpec(entry, lo, hi).Err? ==>
      !EntrySpec(entry, lo, hi).error.WrongFieldCount? && !EntrySpec(entry, lo, hi).error.EmptyLine?
  {
    if EntrySpec(entry, lo, hi).Err? && entry != [] && 0 <= lo <= hi {
      var rs := TokenResults(SplitOn(entry, ','), lo, hi);
      UnionMeaning(rs);
      if Union(rs).Err? {
        var k :| 0 <= k < |rs| && Union(rs) == rs[k] && forall j :: 0 <= j < k ==> rs[j].Ok?;
        var e := SplitOn(entry, ',')[k];
        assert rs[k] == TokenValues(e, lo, hi);
        TokenError(e, lo, hi);
      }
    }
  }

  /** A token fails only with "Invalid range or step specified". */
  lemma TokenError(e: string, lo: int, hi: int)
    ensures TokenValues(e, lo, hi).Err? ==> TokenValues(e, lo, hi).error == InvalidRangeOrStep(e)
  {
    if IntLiteral(e).None? && TokenSpan(e, lo, hi).Some? {
      assert TokenValues(e, lo, hi) == SpanValues(e, TokenSpan(e, lo, hi).value, lo, hi);
    }
  }

  /**
   * A nonempty line is rejected for its field count exactly when it does not
   * have five whitespace-separated fields.
   */
  lemma FieldCount(line: string)
    requires line != []
    ensures LineSpec(line).Err? && LineSpec(line).error.WrongFieldCount? <==> |Fields(line)| != 5
    ensures |Fields(line)| != 5 ==> LineSpec(line) == Err(WrongFieldCount(|Fields(line)|))
  {
    var fields := Fields(line);
    if |fields| == 5 {
      EntryErrors(fields[0], 0, 59);
      EntryErrors(fields[1], 0, 23);
      EntryErrors(fields[2], 1, 31);
      EntryErrors(fields[3], 1, 12);
      EntryErrors(fields[4], 0, 6);
    }
  }

  /** A blank but nonempty line has one (empty) field, so it is rejected for its field count. */
  lemma BlankLine(line: string)
    requires line != []
    requires forall i :: 0 <= i < |line| ==> IsSpace(line[i])
    ensures LineSpec(line) == Err(WrongFieldCount(1))
  {
    BlankFields(line);
  }

  /** `'* * * * *'` splits into five stars. */
  lemma StarWords()
    ensures SplitSpace("* * * * *") == ["*", "*", "*", "*", "*"]
  {
    var words := ["*", "*", "*", "*", "*"];
    assert JoinSpace(words) == "* * * * *";
    FieldsJoinSpace(words);
  }

  /** `'* * * * *'` yields the full range of every field. */
  lemma StarLine()
    ensures LineSpec("* * * * *") ==
      Ok(Entries(Interval(0, 59), Interval(0, 23), Interval(1, 31), Interval(1, 12), Interval(0, 6)))
  {
    StarWords();
    StarEntry(0, 59);
    StarEntry(0, 23);
    StarEntry(1, 31);
    StarEntry(1, 12);
    StarEntry(0, 6);
  }


  /** Every character of a rendered field is a digit or a comma. */
  lemma RenderNoSpace(r: seq<int>)
    requires |r| > 0 && forall k :: 0 <= k < |r| ==> r[k] >= 0
    ensures forall i :: 0 <= i < |Render(r)| ==> !IsSpace(Render(r)[i])
  {
    var ds := Decimals(r);
    forall k, i | 0 <= k < |ds| && 0 <= i < |ds[k]| ensures !IsSpace(ds[k][i]) {
      assert AllDigits(Decimal(r[k]));
      assert IsDigit(ds[k][i]);
    }
    JoinNoSpace(ds, ',');
  }

  /** A schedule written out as a cron line: the five rendered fields joined by spaces. */
  function RenderLine(e: Entries): string
    requires EntriesValid(e)
  {
    JoinSpace([Render(e.minutes), Render(e.hours), Render(e.doms), Render(e.months), Render(e.dows)])
  }

  /** Parsing a line is idempotent: a parsed line, written back out, parses to itself. */
  lemma LineRoundTrip(e: Entries)
    requires EntriesValid(e)
    ensures LineSpec(RenderLine(e)) == Ok(e)
  {
    var words := [Render(e.minutes), Render(e.hours), Render(e.doms), Render(e.months), Render(e.dows)];
    RenderWord(e.minutes);
    RenderWord(e.hours);
    RenderWord(e.doms);
    RenderWord(e.months);
    RenderWord(e.dows);
    FieldsJoinSpace(words);
    RenderRoundTrip(e.minutes, 0, 59);
    RenderRoundTrip(e.hours, 0, 23);
    RenderRoundTrip(e.doms, 1, 31);
    RenderRoundTrip(e.months, 1, 12);
    RenderRoundTrip(e.dows, 0, 6);
    LineOfFields(RenderLine(e), e);
  }

  /** A rendered field is a non-empty word without white space. */
  lemma RenderWord(r: seq<int>)
    requires |r| > 0 && forall k :: 0 <= k < |r| ==> r[k] >= 0
    ensures Render(r) != [] && forall i :: 0 <= i < |Render(r)| ==> !IsSpace(Render(r)[i])
  {
    RenderSplit(r);
    RenderNoSpace(r);
  }

  /** A line whose five fields parse to the lists of `e` parses to `e`. */
  lemma LineOfFields(line: string, e: Entries)
    requires line != [] && |Fields(line)| == 5
    requires EntrySpec(Fields(line)[0], 0, 59) == Ok(e.minutes) && EntrySpec(Fields(line)[1], 0, 23) == Ok(e.hours)
    requires EntrySpec(Fields(line)[2], 1, 31) == Ok(e.doms) && EntrySpec(Fields(line)[3], 1, 12) == Ok(e.months)
    requires EntrySpec(Fields(line)[4], 0, 6) == Ok(e.dows)
    ensures LineSpec(line) == Ok(e)
  {
  }

}
