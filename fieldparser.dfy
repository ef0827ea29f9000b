/** The field parser of `CronJob.parse` (cronrecon.py): `start_parse` turns one crontab field
    into the sorted list of integers it stands for, and `finish_parse` handles comma lists,
    `A-B` ranges and plain integers. Each is given as a specification function (Resolve,
    Finish) and as a method that builds the list the way the source does, proved equal to it. */
module FieldParser {
  import opened Results
  import opened PyStr

  // The class constants of CronJob; every maximum is exclusive.
  const MinMinute := 0
  const MaxMinute := 60
  const MinHour := 0
  const MaxHour := 24
  const MinDom := 1
  const MaxDom := 32
  const MinMonth := 1
  const MaxMonth := 13
  const MinDow := 0
  const MaxDow := 7

  // Why a crontab line could not be turned into a job: fewer than five fields (IndexError),
  // a range bound or a step that `int()` refuses (ValueError), or a `*/0` step (slice step
  // cannot be zero). A plain value that `int()` refuses is dropped, not an error.
  datatype ParseError = TooFewFields | InvalidLiteral(text: string) | ZeroStep

  /** Python's `range(lo, hi)`. */
  function Range(lo: int, hi: int): (r: seq<int>)
    ensures |r| == if lo < hi then hi - lo else 0
    ensures forall i :: 0 <= i < |r| ==> r[i] == lo + i
  {
    seq(if lo < hi then hi - lo else 0, i => lo + i)
  }

  lemma RangeDrop(lo: int, hi: int, k: nat)
    requires lo + k <= hi
    ensures Range(lo, hi)[k..] == Range(lo + k, hi)
  {
    var a, b := Range(lo, hi)[k..], Range(lo + k, hi);
    assert |a| == |b|;
    forall i | 0 <= i < |a| ensures a[i] == b[i] {
    }
  }

  lemma RangeSnoc(lo: int, hi: int)
    requires lo <= hi
    ensures Range(lo, hi + 1) == Range(lo, hi) + [hi]
  {
    var a, b := Range(lo, hi + 1), Range(lo, hi) + [hi];
    assert |a| == |b|;
    forall i | 0 <= i < |a| ensures a[i] == b[i] {
    }
  }

  /** `range(lo, hi)` holds exactly the integers from lo up to but not including hi, each once,
      in increasing order. */
  lemma RangeMembers(lo: int, hi: int)
    ensures forall x :: x in Range(lo, hi) <==> lo <= x < hi
    ensures forall i, j :: 0 <= i < j < |Range(lo, hi)| ==> Range(lo, hi)[i] < Range(lo, hi)[j]
  {
    forall x | lo <= x < hi ensures x in Range(lo, hi) {
      assert Range(lo, hi)[x - lo] == x;
    }
  }

  /** `xs[::k]` for a positive step: the elements at indices 0, k, 2k, ... */
  function Every(xs: seq<int>, k: int): seq<int>
    requires k > 0
    decreases |xs|
  {
    if |xs| == 0 then [] else [xs[0]] + (if k < |xs| then Every(xs[k..], k) else [])
  }

  /** `xs[::-k]` for a positive k: the elements at indices |xs| - 1, |xs| - 1 - k, ... */
  function EveryBack(xs: seq<int>, k: int): seq<int>
    requires k > 0
    decreases |xs|
  {
    if |xs| == 0 then [] else [xs[|xs| - 1]] + (if k < |xs| then EveryBack(xs[..|xs| - k], k) else [])
  }

  /** Python's extended slice `xs[::k]`; a negative step walks backwards from the last element. */
  function SliceStep(xs: seq<int>, k: int): seq<int>
    requires k != 0
  {
    if k > 0 then Every(xs, k) else EveryBack(xs, -k)
  }

  /** lo, lo + k, lo + 2k, ... while below hi. */
  function Progression(lo: int, hi: int, k: int): seq<int>
    requires k > 0
    decreases hi - lo
  {
    if lo >= hi then [] else [lo] + Progression(lo + k, hi, k)
  }

  /** top, top - k, top - 2k, ... while at least lo. */
  function Countdown(top: int, lo: int, k: int): seq<int>
    requires k > 0
    decreases top - lo + 1
  {
    if top < lo then [] else [top] + Countdown(top - k, lo, k)
  }

  /** The arithmetic progression has the promised shape: element i is lo + i*k, every element
      is below hi, and the next step would reach hi. */
  lemma {:induction false} ProgressionShape(lo: int, hi: int, k: int)
    requires k > 0
    ensures var p := Progression(lo, hi, k);
      (forall i :: 0 <= i < |p| ==> p[i] == lo + i * k && lo <= p[i] < hi) &&
      lo + |p| * k >= hi &&
      (forall i, j :: 0 <= i < j < |p| ==> p[i] < p[j])
    decreases hi - lo
  {
    if lo < hi {
      ProgressionShape(lo + k, hi, k);
      var p, q := Progression(lo, hi, k), Progression(lo + k, hi, k);
      assert p == [lo] + q;
      forall i | 1 <= i < |p| ensures p[i] == lo + i * k && lo <= p[i] {
        assert p[i] == q[i - 1] == lo + k + (i - 1) * k;
      }
      assert lo + |p| * k == lo + k + |q| * k;
    }
  }

  /** The count-down has the promised shape: element i is top - i*k, every element is at
      least lo, and the next step would go below lo. */
  lemma {:induction false} CountdownShape(top: int, lo: int, k: int)
    requires k > 0
    ensures var c := Countdown(top, lo, k);
      (forall i :: 0 <= i < |c| ==> c[i] == top - i * k && lo <= c[i] <= top) &&
      top - |c| * k < lo
    decreases top - lo + 1
  {
    if top >= lo {
      CountdownShape(top - k, lo, k);
      var c, d := Countdown(top, lo, k), Countdown(top - k, lo, k);
      assert c == [top] + d;
      forall i | 1 <= i < |c| ensures c[i] == top - i * k && c[i] <= top {
        assert c[i] == d[i - 1] == top - k - (i - 1) * k;
      }
      assert top - |c| * k == top - k - |d| * k;
    }
  }

  lemma {:induction false} EveryRange(lo: int, hi: int, k: int)
    requires k > 0
    ensures Every(Range(lo, hi), k) == Progression(lo, hi, k)
    decreases hi - lo
  {
    if lo < hi && k < hi - lo {
      RangeDrop(lo, hi, k);
      EveryRange(lo + k, hi, k);
    }
  }

  lemma RangeTake(lo: int, hi: int, k: nat)
    requires lo + k <= hi
    ensures Range(lo, hi)[..hi - lo - k] == Range(lo, hi - k)
  {
    var a, b := Range(lo, hi)[..hi - lo - k], Range(lo, hi - k);
    assert |a| == |b|;
    forall i | 0 <= i < |a| ensures a[i] == b[i] {
    }
  }

  lemma EveryBackUnfold(xs: seq<int>, k: int)
    requires 0 < k < |xs|
    ensures EveryBack(xs, k) == [xs[|xs| - 1]] + EveryBack(xs[..|xs| - k], k)
  {
  }

  lemma {:induction false} EveryBackRange(lo: int, hi: int, k: int)
    requires k > 0
    ensures EveryBack(Range(lo, hi), k) == Countdown(hi - 1, lo, k)
    decreases hi - lo
  {
    if lo < hi {
      if k < hi - lo {
        EveryBackRange(lo, hi - k, k);
        EveryBackRangeStep(lo, hi, k);
      } else {
        EveryBackRangeLast(lo, hi, k);
      }
    } else {
      assert Range(lo, hi) == [];
    }
  }

  /** The count-down of a range is its last element followed by the count-down of the range
      without its last k elements. */
  lemma EveryBackRangeStep(lo: int, hi: int, k: int)
    requires 0 < k < hi - lo
    requires EveryBack(Range(lo, hi - k), k) == Countdown(hi - 1 - k, lo, k)
    ensures EveryBack(Range(lo, hi), k) == Countdown(hi - 1, lo, k)
  {
    var r := Range(lo, hi);
    assert Countdown(hi - 1, lo, k) == [hi - 1] + Countdown(hi - 1 - k, lo, k);
    RangeTake(lo, hi, k);
    assert r[..|r| - k] == Range(lo, hi - k);
    EveryBackUnfold(r, k);
    assert r[|r| - 1] == hi - 1;
  }

  /** A step at least as long as the range picks only its last element. */
  lemma EveryBackRangeLast(lo: int, hi: int, k: int)
    requires lo < hi && k >= hi - lo && k > 0
    ensures EveryBack(Range(lo, hi), k) == Countdown(hi - 1, lo, k)
  {
    var r := Range(lo, hi);
    assert EveryBack(r, k) == [hi - 1];
    assert Countdown(hi - 1 - k, lo, k) == [];
  }

  predicate Sorted(s: seq<int>) {
    forall i, j :: 0 <= i < j < |s| ==> s[i] <= s[j]
  }

  function Insert(x: int, s: seq<int>): seq<int>
    decreases |s|
  {
    if |s| == 0 || x <= s[0] then [x] + s else [s[0]] + Insert(x, s[1..])
  }

  lemma {:induction false} InsertFacts(x: int, s: seq<int>)
    requires Sorted(s)
    ensures var r := Insert(x, s);
      |r| == |s| + 1 && Sorted(r) && multiset(r) == multiset(s) + multiset{x} &&
      (forall i :: 0 <= i < |r| ==> r[i] == x || r[i] in s)
    decreases |s|
  {
    if |s| == 0 || x <= s[0] {
      var r := [x] + s;
      assert Sorted(r) by {
        forall i, j | 0 <= i < j < |r| ensures r[i] <= r[j] {
          assert r[j] == s[j - 1];
          if i > 0 {
            assert r[i] == s[i - 1];
          }
        }
      }
    } else {
      InsertFacts(x, s[1..]);
      InsertStepSorted(x, s);
      InsertStepMembers(x, s);
      InsertStepMultiset(x, s);
    }
  }

  /** Inserting past the head of a sorted list keeps the head in front: the result is
      still sorted. */
  lemma InsertStepSorted(x: int, s: seq<int>)
    requires Sorted(s) && |s| > 0 && x > s[0]
    requires Sorted(Insert(x, s[1..]))
    requires forall i :: 0 <= i < |Insert(x, s[1..])| ==> Insert(x, s[1..])[i] == x || Insert(x, s[1..])[i] in s[1..]
    ensures Sorted(Insert(x, s))
  {
    var t := Insert(x, s[1..]);
    var r := [s[0]] + t;
    assert Insert(x, s) == r;
    forall j | 0 <= j < |t| ensures s[0] <= t[j] {
      if t[j] != x {
        var m :| 0 <= m < |s[1..]| && s[1..][m] == t[j];
        assert s[m + 1] == t[j];
      }
    }
    forall i, j | 0 <= i < j < |r| ensures r[i] <= r[j] {
      assert r[j] == t[j - 1];
      if i > 0 {
        assert r[i] == t[i - 1];
      }
    }
  }

  lemma InsertStepMembers(x: int, s: seq<int>)
    requires |s| > 0 && x > s[0]
    requires forall i :: 0 <= i < |Insert(x, s[1..])| ==> Insert(x, s[1..])[i] == x || Insert(x, s[1..])[i] in s[1..]
    ensures forall i :: 0 <= i < |Insert(x, s)| ==> Insert(x, s)[i] == x || Insert(x, s)[i] in s
  {
    var t := Insert(x, s[1..]);
    var r := [s[0]] + t;
    assert Insert(x, s) == r;
    forall i | 0 <= i < |r| ensures r[i] == x || r[i] in s {
      if i > 0 {
        assert r[i] == t[i - 1];
      }
    }
  }

  lemma InsertStepMultiset(x: int, s: seq<int>)
    requires |s| > 0 && x > s[0]
    requires multiset(Insert(x, s[1..])) == multiset(s[1..]) + multiset{x}
    ensures multiset(Insert(x, s)) == multiset(s) + multiset{x}
  {
    var t := Insert(x, s[1..]);
    assert Insert(x, s) == [s[0]] + t;
    assert s == [s[0]] + s[1..];
  }

  function SortInts(s: seq<int>): seq<int>
    decreases |s|
  {
    if |s| == 0 then [] else Insert(s[0], SortInts(s[1..]))
  }

  lemma {:induction false} SortFacts(s: seq<int>)
    ensures Sorted(SortInts(s)) && multiset(SortInts(s)) == multiset(s)
    decreases |s|
  {
    if |s| > 0 {
      SortFacts(s[1..]);
      InsertFacts(s[0], SortInts(s[1..]));
      assert s == [s[0]] + s[1..];
    }
  }

  lemma SortedHeadIsLeast(a: seq<int>, x: int)
    requires Sorted(a) && x in a
    ensures a[0] <= x
  {
  }

  lemma SortedTail(a: seq<int>)
    requires Sorted(a) && |a| > 0
    ensures Sorted(a[1..])
  {
  }

  lemma TailMultiset(a: seq<int>)
    requires |a| > 0
    ensures multiset(a[1..]) == multiset(a) - multiset{a[0]}
  {
    assert a == [a[0]] + a[1..];
  }

  /** Two sorted sequences with the same elements start with the same element. */
  lemma HeadsMatch(a: seq<int>, b: seq<int>)
    requires Sorted(a) && Sorted(b) && multiset(a) == multiset(b) && |a| > 0
    ensures |b| > 0 && a[0] == b[0]
  {
    assert a[0] in multiset(b);
    assert b[0] in multiset(a);
    SortedHeadIsLeast(a, b[0]);
    SortedHeadIsLeast(b, a[0]);
  }

  /** A sorted sequence is determined by its multiset of elements. */
  lemma {:induction false} SortedUnique(a: seq<int>, b: seq<int>)
    requires Sorted(a) && Sorted(b) && multiset(a) == multiset(b)
    ensures a == b
    decreases |a|
  {
    assert |a| == |multiset(a)| == |multiset(b)| == |b|;
    if |a| > 0 {
      HeadsMatch(a, b);
      TailMultiset(a);
      TailMultiset(b);
      SortedTail(a);
      SortedTail(b);
      SortedUnique(a[1..], b[1..]);
      assert a == [a[0]] + a[1..];
      assert b == [b[0]] + b[1..];
    }
  }

  lemma SortIdentity(s: seq<int>)
    requires Sorted(s)
    ensures SortInts(s) == s
  {
    SortFacts(s);
    SortedUnique(SortInts(s), s);
  }

  /** `range(a, b + 1)`: a through b inclusive, the value of a range piece. Kept as its own
      function so that the proofs about a piece need not unfold `Range`. */
  function Through(a: int, b: int): seq<int> {
    Range(a, b + 1)
  }

  /** finish_parse on a piece without a comma: `A-B` gives A..B inclusive (the first two
      pieces around '-' are read, as `vals[0]` and `vals[1]`), a plain integer gives itself,
      and text `int()` refuses is logged and dropped. Only a bad range bound is an error. */
  function FinishAtom(s: string): Result<seq<int>, ParseError> {
    if '-' in s then
      var vals := Split(s, '-');
      match PyInt(vals[0])
      case None => Err(InvalidLiteral(vals[0]))
      case Some(a) =>
        match PyInt(vals[1])
        case None => Err(InvalidLiteral(vals[1]))
        case Some(b) => Ok(Through(a, b))
    else
      match PyInt(s)
      case None => Ok([])
      case Some(v) => Ok([v])
  }

  /** The comma pieces processed in order; the first piece that fails ends the parse. */
  function FinishAll(pieces: seq<string>): Result<seq<int>, ParseError>
    decreases |pieces|
  {
    if |pieces| == 0 then Ok([])
    else
      match FinishAll(pieces[..|pieces| - 1])
      case Err(e) => Err(e)
      case Ok(v) =>
        match FinishAtom(pieces[|pieces| - 1])
        case Err(e) => Err(e)
        case Ok(w) => Ok(v + w)
  }

  /** The values finish_parse appends for one field. */
  function Finish(s: string): Result<seq<int>, ParseError> {
    if ',' in s then FinishAll(Split(s, ',')) else FinishAtom(s)
  }

  // start_parse: `*` is every value of [lo, hi), `*/N` is `range(lo, hi)[::N]`, anything
  // else goes to finish_parse; the result is sorted.
  function Resolve(field: string, lo: int, hi: int): Result<seq<int>, ParseError> {
    if field == "*" then Ok(SortInts(Range(lo, hi)))
    else if Contains(field, "*/") then
      match PyInt(field[2..])
      case None => Err(InvalidLiteral(field[2..]))
      case Some(k) => Stepped(lo, hi, k)
    else ListValues(field)
  }

  /** `sorted(range(lo, hi)[::k])`; a zero step is an error. */
  function Stepped(lo: int, hi: int, k: int): Result<seq<int>, ParseError> {
    if k == 0 then Err(ZeroStep) else Ok(SortInts(SliceStep(Range(lo, hi), k)))
  }

  /** The finish_parse branch of start_parse. */
  function ListValues(field: string): Result<seq<int>, ParseError> {
    match Finish(field)
    case Err(e) => Err(e)
    case Ok(v) => Ok(SortInts(v))
  }

  /** The list a caller holds after appending the outcome `r` to `prefix`. */
  function Appended(prefix: seq<int>, r: Result<seq<int>, ParseError>): Result<seq<int>, ParseError> {
    match r
    case Ok(v) => Ok(prefix + v)
    case Err(e) => Err(e)
  }

  /** finish_parse(cron_str, cron_list): appends the values of `cronStr` to `cronList`,
      recursing on each comma piece. */
  method FinishParse(cronStr: string, cronList: seq<int>) returns (r: Result<seq<int>, ParseError>)
    ensures r == Appended(cronList, Finish(cronStr))
    decreases |cronStr|, 1
  {
    if ',' in cronStr {
      SplitLengths(cronStr, ',');
      r := FinishPieces(cronStr, Split(cronStr, ','), cronList);
    } else {
      r := FinishAtomParse(cronStr, cronList);
    }
  }

  /** The `for substr in cron_str.split(',')` loop of finish_parse. */
  method FinishPieces(cronStr: string, pieces: seq<string>, cronList: seq<int>) returns (r: Result<seq<int>, ParseError>)
    requires forall k :: 0 <= k < |pieces| ==> |pieces[k]| < |cronStr| && ',' !in pieces[k]
    ensures r == Appended(cronList, FinishAll(pieces))
    decreases |cronStr|, 0
  {
    var list := cronList;
    var i := 0;
    assert pieces[..0] == [] && cronList + [] == cronList;
    while i < |pieces|
      invariant 0 <= i <= |pieces|
      invariant FinishAll(pieces[..i]).Ok?
      invariant list == cronList + FinishAll(pieces[..i]).value
    {
      var next := FinishParse(pieces[i], list);
      PieceStep(pieces, i, cronList, list, next);
      if next.Err? {
        return next;
      }
      list := next.value;
      i := i + 1;
    }
    assert pieces[..i] == pieces;
    return Ok(list);
  }

  /** The branches of finish_parse for text without a comma. */
  method FinishAtomParse(cronStr: string, cronList: seq<int>) returns (r: Result<seq<int>, ParseError>)
    ensures r == Appended(cronList, FinishAtom(cronStr))
  {
    if '-' in cronStr {
      var vals := Split(cronStr, '-');
      var first := PyInt(vals[0]);
      if first.None? {
        return Err(InvalidLiteral(vals[0]));
      }
      var last := PyInt(vals[1]);
      if last.None? {
        return Err(InvalidLiteral(vals[1]));
      }
      var list := AppendRange(cronList, first.value, last.value);
      return Ok(list);
    } else {
      var value := PyInt(cronStr);
      if value.None? {
        // int() raised ValueError: the source logs it and appends nothing.
        assert cronList + [] == cronList;
        return Ok(cronList);
      }
      return Ok(cronList + [value.value]);
    }
  }

  /** One turn of the comma loop: appending the values of piece i keeps the running list
      equal to the values of the first i + 1 pieces, and a failure is the failure of the whole. */
  lemma PieceStep(pieces: seq<string>, i: nat, cronList: seq<int>, list: seq<int>, next: Result<seq<int>, ParseError>)
    requires i < |pieces| && ',' !in pieces[i]
    requires FinishAll(pieces[..i]).Ok? && list == cronList + FinishAll(pieces[..i]).value
    requires next == Appended(list, Finish(pieces[i]))
    ensures next.Err? ==> next == Appended(cronList, FinishAll(pieces))
    ensures next.Ok? ==> FinishAll(pieces[..i + 1]).Ok? && next.value == cronList + FinishAll(pieces[..i + 1]).value
  {
    var prev, atom := FinishAll(pieces[..i]), FinishAtom(pieces[i]);
    assert Finish(pieces[i]) == atom;
    FinishAllSnoc(pieces, i);
    if atom.Err? {
      assert FinishAll(pieces[..i + 1]) == Err(atom.error);
      FinishAllStopsAtError(pieces, i + 1);
    } else {
      assert FinishAll(pieces[..i + 1]) == Ok(prev.value + atom.value);
      assert next.value == list + atom.value;
      ConcatAssoc(cronList, prev.value, atom.value);
    }
  }

  /** Associativity of concatenation, as a lemma so that the loop step uses it once instead of
      leaving the solver to search for it among the unfolded pieces. */
  lemma ConcatAssoc(a: seq<int>, b: seq<int>, c: seq<int>)
    ensures a + b + c == a + (b + c)
  {
  }

  lemma FinishAllSnoc(pieces: seq<string>, i: nat)
    requires i < |pieces|
    ensures FinishAll(pieces[..i + 1]) ==
      match FinishAll(pieces[..i])
      case Err(e) => Err(e)
      case Ok(v) =>
        match FinishAtom(pieces[i])
        case Err(e) => Err(e)
        case Ok(w) => Ok(v + w)
  {
    assert pieces[..i + 1][..i] == pieces[..i];
  }

  /** The `for i in range(a, b + 1): cron_list.append(i)` loop of finish_parse. */
  method AppendRange(cronList: seq<int>, a: int, b: int) returns (list: seq<int>)
    ensures list == cronList + Range(a, b + 1)
  {
    list := cronList;
    var i := a;
    while i < b + 1
      invariant a <= i
      invariant i <= b + 1 || i == a
      invariant list == cronList + Range(a, i)
    {
      RangeSnoc(a, i);
      list := list + [i];
      i := i + 1;
    }
  }

  /** Once a prefix of the pieces fails, every longer prefix fails with the same error. */
  lemma {:induction false} FinishAllStopsAtError(pieces: seq<string>, n: nat)
    requires 0 < n <= |pieces|
    requires FinishAll(pieces[..n]).Err?
    ensures FinishAll(pieces) == FinishAll(pieces[..n])
    decreases |pieces| - n
  {
    if n < |pieces| {
      assert pieces[..n + 1][..n] == pieces[..n];
      FinishAllStopsAtError(pieces, n + 1);
    } else {
      assert pieces[..n] == pieces;
    }
  }

  /** start_parse(field_str, min_value, max_value). */
  method StartParse(fieldStr: string, minValue: int, maxValue: int) returns (r: Result<seq<int>, ParseError>)
    ensures r == Resolve(fieldStr, minValue, maxValue)
  {
    var cronList: seq<int> := [];
    if fieldStr == "*" {
      cronList := Range(minValue, maxValue);
    } else if Contains(fieldStr, "*/") {
      var freq := PyInt(fieldStr[2..]);
      if freq.None? {
        return Err(InvalidLiteral(fieldStr[2..]));
      }
      if freq.value == 0 {
        return Err(ZeroStep);
      }
      cronList := SliceStep(Range(minValue, maxValue), freq.value);
    } else {
      var finished := FinishParse(fieldStr, cronList);
      assert Finish(fieldStr).Ok? ==> [] + Finish(fieldStr).value == Finish(fieldStr).value;
      if finished.Err? {
        return Err(finished.error);
      }
      cronList := finished.value;
    }
    return Ok(SortInts(cronList));
  }

  /** `*` resolves to exactly lo, lo + 1, ..., hi - 1. */
  lemma ResolveStar(lo: int, hi: int)
    ensures Resolve("*", lo, hi) == Ok(Range(lo, hi))
  {
    SortIdentity(Range(lo, hi));
  }

  lemma ResolveIsStep(field: string, lo: int, hi: int)
    requires Contains(field, "*/")
    ensures PyInt(field[2..]).None? ==> Resolve(field, lo, hi) == Err(InvalidLiteral(field[2..]))
    ensures PyInt(field[2..]).Some? ==> Resolve(field, lo, hi) == Stepped(lo, hi, PyInt(field[2..]).value)
  {
    assert field != "*";
  }

  lemma ResolveIsList(field: string, lo: int, hi: int)
    requires field != "*" && !Contains(field, "*/")
    ensures Resolve(field, lo, hi) == ListValues(field)
  {
  }

  lemma StepPositive(lo: int, hi: int, k: int)
    requires k > 0
    ensures Stepped(lo, hi, k) == Ok(Progression(lo, hi, k))
  {
    EveryRange(lo, hi, k);
    ProgressionShape(lo, hi, k);
    SortIdentity(Progression(lo, hi, k));
  }

  lemma StepNegative(lo: int, hi: int, k: int)
    requires k < 0
    ensures Stepped(lo, hi, k) == Ok(SortInts(Countdown(hi - 1, lo, -k)))
  {
    EveryBackRange(lo, hi, -k);
    var e := SliceStep(Range(lo, hi), k);
    assert e == Countdown(hi - 1, lo, -k);
    assert Stepped(lo, hi, k) == Ok(SortInts(e));
  }

  // `*/N`: a text `int()` refuses is an error, so is N == 0; a positive N gives
  // lo, lo + N, lo + 2N, ... strictly below hi; a negative N walks `range(lo, hi)` backwards
  // from hi - 1, and the result is that count-down sorted.
  lemma ResolveStep(field: string, lo: int, hi: int)
    requires Contains(field, "*/")
    ensures PyInt(field[2..]).None? ==> Resolve(field, lo, hi) == Err(InvalidLiteral(field[2..]))
    ensures PyInt(field[2..]) == Some(0) ==> Resolve(field, lo, hi) == Err(ZeroStep)
    ensures PyInt(field[2..]).Some? && PyInt(field[2..]).value > 0 ==>
      Resolve(field, lo, hi) == Ok(Progression(lo, hi, PyInt(field[2..]).value))
    ensures PyInt(field[2..]).Some? && PyInt(field[2..]).value < 0 ==>
      Resolve(field, lo, hi) == Ok(SortInts(Countdown(hi - 1, lo, -PyInt(field[2..]).value)))
  {
    ResolveIsStep(field, lo, hi);
    var p := PyInt(field[2..]);
    if p.Some? && p.value > 0 {
      StepPositive(lo, hi, p.value);
    } else if p.Some? && p.value < 0 {
      StepNegative(lo, hi, p.value);
    }
  }

  lemma StepBounds(lo: int, hi: int, k: int)
    requires k != 0
    ensures forall x :: x in Stepped(lo, hi, k).value ==> lo <= x < hi
  {
    if k > 0 {
      StepPositive(lo, hi, k);
      ProgressionBounds(lo, hi, k);
    } else {
      StepBackBounds(lo, hi, k);
    }
  }

  lemma StepBackBounds(lo: int, hi: int, k: int)
    requires k < 0
    ensures forall x :: x in Stepped(lo, hi, k).value ==> lo <= x < hi
  {
    StepNegative(lo, hi, k);
    SortedCountdownBounds(hi - 1, lo, -k);
  }

  lemma SortedCountdownBounds(top: int, lo: int, k: int)
    requires k > 0
    ensures forall x :: x in SortInts(Countdown(top, lo, k)) ==> lo <= x <= top
  {
    var c := Countdown(top, lo, k);
    SortFacts(c);
    CountdownBounds(top, lo, k, SortInts(c));
  }

  lemma ProgressionBounds(lo: int, hi: int, k: int)
    requires k > 0
    ensures forall x :: x in Progression(lo, hi, k) ==> lo <= x < hi
  {
    var p := Progression(lo, hi, k);
    ProgressionShape(lo, hi, k);
    forall x | x in p ensures lo <= x < hi {
      var i :| 0 <= i < |p| && p[i] == x;
    }
  }

  lemma CountdownBounds(top: int, lo: int, k: int, r: seq<int>)
    requires k > 0 && multiset(r) == multiset(Countdown(top, lo, k))
    ensures forall x :: x in r ==> lo <= x <= top
  {
    var c := Countdown(top, lo, k);
    CountdownShape(top, lo, k);
    forall x | x in r ensures lo <= x <= top {
      assert x in multiset(c);
      var j :| 0 <= j < |c| && c[j] == x;
    }
  }

  /** Wildcard and step expansions stay inside [lo, hi). */
  lemma ResolveWildcardBounds(field: string, lo: int, hi: int)
    requires field == "*" || Contains(field, "*/")
    requires Resolve(field, lo, hi).Ok?
    ensures forall x :: x in Resolve(field, lo, hi).value ==> lo <= x < hi
  {
    if field == "*" {
      ResolveStar(lo, hi);
    } else {
      ResolveIsStep(field, lo, hi);
      StepBounds(lo, hi, PyInt(field[2..]).value);
    }
  }

  lemma AtomRange(field: string)
    requires '-' in field
    ensures var vals := Split(field, '-');
      (PyInt(vals[0]).None? ==> FinishAtom(field) == Err(InvalidLiteral(vals[0]))) &&
      (PyInt(vals[0]).Some? && PyInt(vals[1]).None? ==> FinishAtom(field) == Err(InvalidLiteral(vals[1]))) &&
      (PyInt(vals[0]).Some? && PyInt(vals[1]).Some? ==>
        FinishAtom(field) == Ok(Through(PyInt(vals[0]).value, PyInt(vals[1]).value)))
  {
    var vals := Split(field, '-');
    var a, b := PyInt(vals[0]), PyInt(vals[1]);
    assert FinishAtom(field) ==
      if a.None? then Err(InvalidLiteral(vals[0]))
      else if b.None? then Err(InvalidLiteral(vals[1]))
      else Ok(Through(a.value, b.value));
  }

  /** `A-B` (no comma) resolves to A..B inclusive, empty when A > B, whatever [lo, hi) is;
      a bound `int()` refuses is an error. */
  lemma ResolveRange(field: string, lo: int, hi: int)
    requires !Contains(field, "*/") && ',' !in field && '-' in field
    ensures var vals := Split(field, '-');
      (PyInt(vals[0]).None? ==> Resolve(field, lo, hi) == Err(InvalidLiteral(vals[0]))) &&
      (PyInt(vals[0]).Some? && PyInt(vals[1]).None? ==> Resolve(field, lo, hi) == Err(InvalidLiteral(vals[1]))) &&
      (PyInt(vals[0]).Some? && PyInt(vals[1]).Some? ==>
        Resolve(field, lo, hi) == Ok(Range(PyInt(vals[0]).value, PyInt(vals[1]).value + 1)))
  {
    assert field != "*";
    ResolveIsList(field, lo, hi);
    assert Finish(field) == FinishAtom(field);
    AtomRange(field);
    var atom := FinishAtom(field);
    if atom.Ok? {
      SortIdentity(atom.value);
    }
  }

  lemma AtomInteger(field: string)
    requires '-' !in field
    ensures PyInt(field).Some? ==> FinishAtom(field) == Ok([PyInt(field).value])
    ensures PyInt(field).None? ==> FinishAtom(field) == Ok([])
  {
  }

  /** A plain token resolves to the singleton of its value, never clamped to [lo, hi);
      a token `int()` refuses is dropped and gives the empty list. */
  lemma ResolveInteger(field: string, lo: int, hi: int)
    requires field != "*" && !Contains(field, "*/") && ',' !in field && '-' !in field
    ensures PyInt(field).Some? ==> Resolve(field, lo, hi) == Ok([PyInt(field).value])
    ensures PyInt(field).None? ==> Resolve(field, lo, hi) == Ok([])
  {
    ResolveIsList(field, lo, hi);
    assert Finish(field) == FinishAtom(field);
    AtomInteger(field);
    var v := FinishAtom(field).value;
    SortIdentity(v);
  }

  /** A field written as a decimal number resolves to just that number. */
  lemma ResolveDecimal(n: nat, lo: int, hi: int)
    ensures Resolve(Decimal(n), lo, hi) == Ok([n])
  {
    var d := Decimal(n);
    assert '*' !in d && ',' !in d && '-' !in d by {
      forall i | 0 <= i < |d| ensures d[i] != '*' && d[i] != ',' && d[i] != '-' {
        assert IsDigit(d[i]);
      }
    }
    if Contains(d, "*/") {
      ContainsHead(d, "*/");
      assert false;
    }
    assert d != "*";
    PyIntOfDecimal(n);
    ResolveInteger(d, lo, hi);
  }

  /** The values of one comma piece, or nothing when that piece fails. */
  function AtomValues(piece: string): seq<int> {
    match FinishAtom(piece)
    case Ok(v) => v
    case Err(_) => []
  }

  /** The values of all comma pieces laid end to end, in order. */
  function AllValues(pieces: seq<string>): seq<int>
    decreases |pieces|
  {
    if |pieces| == 0 then [] else AllValues(pieces[..|pieces| - 1]) + AtomValues(pieces[|pieces| - 1])
  }

  /** When the comma loop succeeds, the result is the pieces' values laid end to end, in order. */
  lemma {:induction false} FinishAllValues(pieces: seq<string>)
    ensures FinishAll(pieces).Ok? ==> FinishAll(pieces).value == AllValues(pieces)
    decreases |pieces|
  {
    if |pieces| > 0 && FinishAll(pieces).Ok? {
      var init, last := pieces[..|pieces| - 1], pieces[|pieces| - 1];
      FinishAllValues(init);
      var prev, atom := FinishAll(init), FinishAtom(last);
      assert prev.Ok? && atom.Ok?;
      assert FinishAll(pieces).value == prev.value + atom.value;
      assert AllValues(pieces) == AllValues(init) + AtomValues(last);
    }
  }

  /** When the comma loop succeeds, every piece succeeded. */
  lemma {:induction false} FinishAllPieceOk(pieces: seq<string>, k: int)
    requires FinishAll(pieces).Ok? && 0 <= k < |pieces|
    ensures FinishAtom(pieces[k]).Ok?
    decreases |pieces|
  {
    var init := pieces[..|pieces| - 1];
    if k < |init| {
      assert FinishAll(init).Ok?;
      FinishAllPieceOk(init, k);
      assert init[k] == pieces[k];
    }
  }

  /** When the comma loop fails, its error is that of the first piece that fails. */
  lemma {:induction false} FinishAllError(pieces: seq<string>)
    requires FinishAll(pieces).Err?
    ensures exists k :: 0 <= k < |pieces| && FinishAtom(pieces[k]) == Err(FinishAll(pieces).error) &&
                        (forall j :: 0 <= j < k ==> FinishAtom(pieces[j]).Ok?)
    decreases |pieces|
  {
    var init, last := pieces[..|pieces| - 1], pieces[|pieces| - 1];
    var prev := FinishAll(init);
    if prev.Err? {
      FinishAllError(init);
      var k :| 0 <= k < |init| && FinishAtom(init[k]) == Err(prev.error) &&
        (forall j :: 0 <= j < k ==> FinishAtom(init[j]).Ok?);
      assert FinishAll(pieces) == prev;
      assert pieces[k] == init[k];
      forall j | 0 <= j < k ensures FinishAtom(pieces[j]).Ok? {
        assert pieces[j] == init[j];
      }
    } else {
      var k := |pieces| - 1;
      assert FinishAll(pieces) == FinishAtom(last);
      forall j | 0 <= j < k ensures FinishAtom(pieces[j]).Ok? {
        FinishAllPieceOk(init, j);
        assert pieces[j] == init[j];
      }
    }
  }

  /** The comma loop fails exactly when some piece fails, and then with the error of the first
      piece that fails; otherwise it gives the pieces' values laid end to end. */
  lemma FinishAllOutcome(pieces: seq<string>)
    ensures FinishAll(pieces).Err? <==> exists k :: 0 <= k < |pieces| && FinishAtom(pieces[k]).Err?
    ensures FinishAll(pieces).Err? ==>
      exists k :: 0 <= k < |pieces| && FinishAtom(pieces[k]) == Err(FinishAll(pieces).error) &&
                  (forall j :: 0 <= j < k ==> FinishAtom(pieces[j]).Ok?)
    ensures FinishAll(pieces).Ok? ==> FinishAll(pieces).value == AllValues(pieces)
  {
    if FinishAll(pieces).Err? {
      FinishAllError(pieces);
    } else {
      forall k | 0 <= k < |pieces| ensures FinishAtom(pieces[k]).Ok? {
        FinishAllPieceOk(pieces, k);
      }
      FinishAllValues(pieces);
    }
  }

  lemma ResolveIsComma(field: string, lo: int, hi: int)
    requires ',' in field && !Contains(field, "*/")
    ensures FinishAll(Split(field, ',')).Err? ==> Resolve(field, lo, hi) == Err(FinishAll(Split(field, ',')).error)
    ensures FinishAll(Split(field, ',')).Ok? ==> Resolve(field, lo, hi) == Ok(SortInts(FinishAll(Split(field, ',')).value))
  {
    assert field != "*";
  }

  /** A comma list resolves to the sorted values of its pieces, duplicates kept; it fails
      exactly when one of its pieces fails, and then with the error of the first such piece. */
  lemma ResolveComma(field: string, lo: int, hi: int)
    requires ',' in field && !Contains(field, "*/")
    ensures var pieces := Split(field, ',');
      (Resolve(field, lo, hi).Err? <==> exists k :: 0 <= k < |pieces| && FinishAtom(pieces[k]).Err?) &&
      (Resolve(field, lo, hi).Err? ==>
         exists k :: 0 <= k < |pieces| && FinishAtom(pieces[k]) == Err(Resolve(field, lo, hi).error) &&
                     (forall j :: 0 <= j < k ==> FinishAtom(pieces[j]).Ok?)) &&
      (Resolve(field, lo, hi).Ok? ==>
        Sorted(Resolve(field, lo, hi).value) &&
        multiset(Resolve(field, lo, hi).value) == multiset(AllValues(pieces)))
  {
    var pieces := Split(field, ',');
    ResolveIsComma(field, lo, hi);
    FinishAllOutcome(pieces);
    if FinishAll(pieces).Ok? {
      SortFacts(FinishAll(pieces).value);
    }
  }

  lemma AtomNonNegative(piece: string)
    ensures FinishAtom(piece).Ok? ==> forall x :: x in FinishAtom(piece).value ==> x >= 0
  {
    if '-' in piece {
      var vals := Split(piece, '-');
      PyIntNoMinusNonNegative(vals[0]);
    } else {
      PyIntNoMinusNonNegative(piece);
    }
  }

  lemma {:induction false} AllValuesNonNegative(pieces: seq<string>)
    ensures forall x :: x in AllValues(pieces) ==> x >= 0
    decreases |pieces|
  {
    if |pieces| > 0 {
      AllValuesNonNegative(pieces[..|pieces| - 1]);
      AtomNonNegative(pieces[|pieces| - 1]);
    }
  }

  lemma FinishNonNegative(field: string)
    ensures Finish(field).Ok? ==> forall x :: x in Finish(field).value ==> x >= 0
  {
    if ',' in field {
      FinishAllValues(Split(field, ','));
      AllValuesNonNegative(Split(field, ','));
    } else {
      AtomNonNegative(field);
    }
  }

  /** Sorting keeps exactly the elements it was given. */
  lemma SortKeepsElements(v: seq<int>)
    ensures forall x :: x in SortInts(v) <==> x in v
  {
    SortFacts(v);
    forall x ensures x in SortInts(v) <==> x in v {
      assert x in SortInts(v) <==> x in multiset(SortInts(v));
      assert x in v <==> x in multiset(v);
    }
  }

  /** No field resolves to a negative value when lo is not negative: explicit values cannot
      carry a minus sign, since any '-' makes the token a range. */
  lemma ResolveNonNegative(field: string, lo: int, hi: int)
    requires lo >= 0
    requires Resolve(field, lo, hi).Ok?
    ensures forall x :: x in Resolve(field, lo, hi).value ==> x >= 0
  {
    if field == "*" || Contains(field, "*/") {
      ResolveWildcardBounds(field, lo, hi);
    } else {
      ResolveIsList(field, lo, hi);
      FinishNonNegative(field);
      SortKeepsElements(Finish(field).value);
    }
  }
}
