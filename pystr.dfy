/** The pieces of Python 2 `str` behaviour that the crontab parser relies on:
    substring tests, `split` on one character, `join`, `strip` and `int()` in base 10. */
module PyStr {
  import opened Results

  /** The characters that `str.strip()` and `int()` treat as whitespace. */
  predicate IsSpace(c: char) {
    c == ' ' || c == '\t' || c == '\n' || c == '\r' || c == '\U{0B}' || c == '\U{0C}'
  }

  predicate StartsWith(s: string, prefix: string) {
    |prefix| <= |s| && s[..|prefix|] == prefix
  }

  /** `sub in s` for a substring `sub`. */
  predicate Contains(s: string, sub: string)
    ensures Contains(s, sub) ==> |sub| <= |s|
    decreases |s|
  {
    StartsWith(s, sub) || (|s| > 0 && Contains(s[1..], sub))
  }

  /** `sub` occurs in s starting at index i. */
  predicate OccursAt(s: string, sub: string, i: int) {
    0 <= i && i + |sub| <= |s| && s[i..i + |sub|] == sub
  }

  /** `sub in s` holds exactly when `sub` occurs in s at some index. */
  lemma {:induction false} ContainsAt(s: string, sub: string)
    ensures Contains(s, sub) <==> exists i :: OccursAt(s, sub, i)
    decreases |s|
  {
    if |s| > 0 {
      ContainsAt(s[1..], sub);
      if exists i :: OccursAt(s, sub, i) {
        var i :| OccursAt(s, sub, i);
        if i > 0 {
          assert s[1..][i - 1..i - 1 + |sub|] == sub;
          assert OccursAt(s[1..], sub, i - 1);
        }
      }
      if Contains(s, sub) {
        if StartsWith(s, sub) {
          assert OccursAt(s, sub, 0);
        } else {
          var j :| OccursAt(s[1..], sub, j);
          assert s[j + 1..j + 1 + |sub|] == sub;
          assert OccursAt(s, sub, j + 1);
        }
      }
    } else {
      if exists i :: OccursAt(s, sub, i) {
        assert StartsWith(s, sub);
      }
      if Contains(s, sub) {
        assert OccursAt(s, sub, 0);
      }
    }
  }

  /** A string that contains `sub` contains the first character of `sub`. */
  lemma {:induction false} ContainsHead(s: string, sub: string)
    requires |sub| >= 1 && Contains(s, sub)
    ensures sub[0] in s
    decreases |s|
  {
    if StartsWith(s, sub) {
      assert s[0] == sub[0];
    } else {
      ContainsHead(s[1..], sub);
      assert sub[0] in s[1..];
    }
  }


  /** `s.split(sep)`: the pieces between occurrences of `sep`; n separators give n + 1 pieces. */
  function Split(s: string, sep: char): (r: seq<string>)
    ensures |r| >= 1
    ensures sep !in s ==> r == [s]
    ensures sep in s ==> |r| >= 2
    ensures forall i :: 0 <= i < |r| ==> sep !in r[i]
    decreases |s|
  {
    if |s| == 0 then [""]
    else if s[0] == sep then [""] + Split(s[1..], sep)
    else
      var rest := Split(s[1..], sep);
      assert s == [s[0]] + s[1..];
      [[s[0]] + rest[0]] + rest[1..]
  }

  /** No piece of a split is longer than the string, and each is shorter once the
      separator occurs. */
  lemma {:induction false} SplitLengths(s: string, sep: char)
    ensures forall i :: 0 <= i < |Split(s, sep)| ==> |Split(s, sep)[i]| <= |s|
    ensures sep in s ==> forall i :: 0 <= i < |Split(s, sep)| ==> |Split(s, sep)[i]| < |s|
    decreases |s|
  {
    if |s| > 0 {
      SplitLengths(s[1..], sep);
      var r, rest := Split(s, sep), Split(s[1..], sep);
      if s[0] == sep {
        assert r == [""] + rest;
        forall i | 0 <= i < |r| ensures |r[i]| < |s| {
          if i > 0 {
            assert r[i] == rest[i - 1];
          }
        }
      } else {
        assert r == [[s[0]] + rest[0]] + rest[1..];
        if sep in s {
          assert sep in s[1..];
        }
        forall i | 0 <= i < |r| ensures |r[i]| <= |s| && (sep in s ==> |r[i]| < |s|) {
          if i > 0 {
            assert r[i] == rest[i];
          }
        }
      }
    }
  }

  /** `sep.join(parts)` for a one-character separator. */
  function Join(parts: seq<string>, sep: char): string
    decreases |parts|
  {
    if |parts| == 0 then ""
    else if |parts| == 1 then parts[0]
    else parts[0] + [sep] + Join(parts[1..], sep)
  }

  /** Joining the pieces of a split with the same separator gives the string back. */
  lemma {:induction false} JoinSplit(s: string, sep: char)
    ensures Join(Split(s, sep), sep) == s
    decreases |s|
  {
    if |s| > 0 {
      JoinSplit(s[1..], sep);
      JoinSplitStep(s, sep);
    }
  }

  /** One step of JoinSplit: the first character goes back in front. */
  lemma JoinSplitStep(s: string, sep: char)
    requires |s| > 0 && Join(Split(s[1..], sep), sep) == s[1..]
    ensures Join(Split(s, sep), sep) == s
  {
    var rest := Split(s[1..], sep);
    if s[0] == sep {
      assert Split(s, sep) == [""] + rest;
      assert s == [s[0]] + s[1..];
    } else if |rest| == 1 {
      assert Split(s, sep) == [[s[0]] + rest[0]];
      assert s == [s[0]] + s[1..];
    } else {
      JoinSplitInner(s, sep);
    }
  }

  lemma JoinSplitInner(s: string, sep: char)
    requires |s| > 0 && s[0] != sep && |Split(s[1..], sep)| >= 2
    requires Join(Split(s[1..], sep), sep) == s[1..]
    ensures Join(Split(s, sep), sep) == s
  {
    var rest := Split(s[1..], sep);
    var first := [s[0]] + rest[0];
    var tail := Join(rest[1..], sep);
    assert Split(s, sep) == [first] + rest[1..];
    JoinCons(first, rest[1..], sep);
    assert rest == [rest[0]] + rest[1..];
    JoinCons(rest[0], rest[1..], sep);
    assert s[1..] == rest[0] + [sep] + tail;
    assert first + [sep] + tail == [s[0]] + (rest[0] + [sep] + tail);
    assert s == [s[0]] + s[1..];
  }

  lemma JoinCons(a: string, rest: seq<string>, sep: char)
    requires |rest| >= 1
    ensures Join([a] + rest, sep) == a + [sep] + Join(rest, sep)
  {
    assert ([a] + rest)[1..] == rest;
  }


  /** Splitting a piece free of `sep`, a separator and a rest gives the piece, then the
      pieces of the rest. */
  lemma {:induction false} SplitAppend(a: string, sep: char, rest: string)
    requires sep !in a
    ensures Split(a + [sep] + rest, sep) == [a] + Split(rest, sep)
    decreases |a|
  {
    var s := a + [sep] + rest;
    if |a| == 0 {
      assert s[1..] == rest;
    } else {
      assert s[1..] == a[1..] + [sep] + rest;
      SplitAppend(a[1..], sep, rest);
      var tail := Split(s[1..], sep);
      assert tail == [a[1..]] + Split(rest, sep);
      assert s[0] == a[0] != sep;
      assert Split(s, sep) == [[s[0]] + tail[0]] + tail[1..];
      assert [a[0]] + a[1..] == a;
      assert tail[1..] == Split(rest, sep);
    }
  }

  /** Splitting a join of pieces free of `sep` gives the pieces back. */
  lemma {:induction false} SplitJoin(parts: seq<string>, sep: char)
    requires |parts| >= 1
    requires forall i :: 0 <= i < |parts| ==> sep !in parts[i]
    ensures Split(Join(parts, sep), sep) == parts
    decreases |parts|
  {
    if |parts| > 1 {
      SplitJoin(parts[1..], sep);
      SplitAppend(parts[0], sep, Join(parts[1..], sep));
      assert [parts[0]] + parts[1..] == parts;
    }
  }

  /** `filter(None, parts)`: the parts that are not the empty string, in order. */
  function NonEmpty(parts: seq<string>): (r: seq<string>)
    ensures |r| <= |parts|
    ensures forall i :: 0 <= i < |r| ==> r[i] != "" && r[i] in parts
    decreases |parts|
  {
    if |parts| == 0 then []
    else if parts[0] == "" then NonEmpty(parts[1..])
    else [parts[0]] + NonEmpty(parts[1..])
  }

  /** `filter(None, …)` distributes over concatenation: it keeps each part on its own merits,
      in order. */
  lemma {:induction false} NonEmptyAppend(a: seq<string>, b: seq<string>)
    ensures NonEmpty(a + b) == NonEmpty(a) + NonEmpty(b)
    decreases |a|
  {
    if |a| > 0 {
      assert (a + b)[1..] == a[1..] + b;
      NonEmptyAppend(a[1..], b);
    } else {
      assert a + b == b;
    }
  }

  /** Filtering parts that are all non-empty keeps them all. */
  lemma {:induction false} NonEmptyKeepsAll(parts: seq<string>)
    requires forall i :: 0 <= i < |parts| ==> parts[i] != ""
    ensures NonEmpty(parts) == parts
    decreases |parts|
  {
    if |parts| > 0 {
      NonEmptyKeepsAll(parts[1..]);
      assert [parts[0]] + parts[1..] == parts;
    }
  }

  /** All characters of `s` except `c`, in order. */
  function Without(s: string, c: char): string
    decreases |s|
  {
    if |s| == 0 then "" else (if s[0] == c then "" else [s[0]]) + Without(s[1..], c)
  }

  function Concat(parts: seq<string>): string
    decreases |parts|
  {
    if |parts| == 0 then "" else parts[0] + Concat(parts[1..])
  }

  /** Splitting on `sep` and dropping empty pieces loses exactly the separators:
      the kept pieces, laid end to end, are `s` with every `sep` removed. */
  lemma {:induction false} NonEmptySplitKeepsText(s: string, sep: char)
    ensures Concat(NonEmpty(Split(s, sep))) == Without(s, sep)
  {
    ConcatSplit(s, sep);
    ConcatNonEmpty(Split(s, sep));
  }

  lemma {:induction false} ConcatSplit(s: string, sep: char)
    ensures Concat(Split(s, sep)) == Without(s, sep)
    decreases |s|
  {
    if |s| == 0 {
    } else if s[0] == sep {
      ConcatSplit(s[1..], sep);
      assert Split(s, sep) == [""] + Split(s[1..], sep);
    } else {
      ConcatSplit(s[1..], sep);
      var rest := Split(s[1..], sep);
      var first := [s[0]] + rest[0];
      assert Split(s, sep) == [first] + rest[1..];
      ConcatCons(first, rest[1..]);
      ConcatCons(rest[0], rest[1..]);
      assert rest == [rest[0]] + rest[1..];
      assert Without(s, sep) == [s[0]] + Without(s[1..], sep);
    }
  }

  lemma ConcatCons(a: string, rest: seq<string>)
    ensures Concat([a] + rest) == a + Concat(rest)
  {
    assert ([a] + rest)[1..] == rest;
  }

  lemma {:induction false} ConcatNonEmpty(parts: seq<string>)
    ensures Concat(NonEmpty(parts)) == Concat(parts)
    decreases |parts|
  {
    if |parts| > 0 {
      ConcatNonEmpty(parts[1..]);
      if parts[0] == "" {
        assert Concat(parts) == Concat(parts[1..]);
      }
    }
  }

  /** `s.lstrip()`: `s` without its leading whitespace. */
  function StripLeft(s: string): string
    decreases |s|
  {
    if |s| > 0 && IsSpace(s[0]) then StripLeft(s[1..]) else s
  }

  /** `s.rstrip()`: `s` without its trailing whitespace. */
  function StripRight(s: string): string
    decreases |s|
  {
    if |s| > 0 && IsSpace(s[|s| - 1]) then StripRight(s[..|s| - 1]) else s
  }

  /** `s.strip()`. */
  function Strip(s: string): string {
    StripRight(StripLeft(s))
  }

  lemma {:induction false} StripLeftFacts(s: string)
    ensures var r := StripLeft(s);
      |r| <= |s| && r == s[|s| - |r|..] &&
      (|r| > 0 ==> !IsSpace(r[0])) &&
      (forall i :: 0 <= i < |s| - |r| ==> IsSpace(s[i]))
    decreases |s|
  {
    if |s| > 0 && IsSpace(s[0]) {
      StripLeftFacts(s[1..]);
    }
  }

  lemma {:induction false} StripRightFacts(s: string)
    ensures var r := StripRight(s);
      |r| <= |s| && r == s[..|r|] &&
      (|r| > 0 ==> !IsSpace(r[|r| - 1])) &&
      (forall i :: |r| <= i < |s| ==> IsSpace(s[i]))
    decreases |s|
  {
    if |s| > 0 && IsSpace(s[|s| - 1]) {
      StripRightFacts(s[..|s| - 1]);
    }
  }

  /** The result of `strip()` is a contiguous part of the input, with no whitespace at either end,
      and only whitespace was removed. */
  lemma StripFacts(s: string)
    ensures var i, r := |s| - |StripLeft(s)|, Strip(s);
      0 <= i <= i + |r| <= |s| && r == s[i..i + |r|] &&
      (forall k :: 0 <= k < i ==> IsSpace(s[k])) &&
      (forall k :: i + |r| <= k < |s| ==> IsSpace(s[k])) &&
      (|r| > 0 ==> !IsSpace(r[0]) && !IsSpace(r[|r| - 1]))
  {
    var l := StripLeft(s);
    StripLeftFacts(s);
    var r := StripRight(l);
    StripRightFacts(l);
    var i := |s| - |l|;
    assert l == s[i..];
    assert r == l[..|r|];
    assert l[..|r|] == s[i..i + |r|];
    forall k | i + |r| <= k < |s| ensures IsSpace(s[k]) {
      assert s[k] == l[k - i];
    }
  }

  predicate IsDigit(c: char) {
    '0' <= c <= '9'
  }

  predicate AllDigits(s: string) {
    forall i :: 0 <= i < |s| ==> IsDigit(s[i])
  }

  /** The value of a run of decimal digits, most significant first. */
  function DigitsValue(s: string): nat
    requires AllDigits(s)
    decreases |s|
  {
    if |s| == 0 then 0 else DigitsValue(s[..|s| - 1]) * 10 + (s[|s| - 1] as int - '0' as int)
  }

  /** Python 2 `int(s)`: surrounding whitespace, an optional sign, more whitespace after the sign
      (the C conversion skips it a second time), and at least one decimal digit; anything else
      raises ValueError, given here as None. */
  function PyInt(s: string): Option<int> {
    var t := Strip(s);
    if |t| >= 1 && (t[0] == '+' || t[0] == '-') then
      var u := StripLeft(t[1..]);
      if |u| >= 1 && AllDigits(u) then
        Some(if t[0] == '-' then -(DigitsValue(u) as int) else DigitsValue(u))
      else
        None
    else if |t| >= 1 && AllDigits(t) then
      Some(DigitsValue(t))
    else
      None
  }

  /** A sign, then whitespace, then digits: `int('-\t5') == -5`. */
  lemma PyIntSpaceAfterSign()
    ensures PyInt("-\t5") == Some(-5)
    ensures PyInt(" + 42 ") == Some(42)
    ensures PyInt("+ ") == None
  {
    assert StripLeft("-\t5") == "-\t5";
    assert StripRight("-\t5") == "-\t5";
    assert "-\t5"[1..] == "\t5";
    assert StripLeft("\t5") == "5";
    assert DigitsValue("5") == 5;
    assert StripLeft(" + 42 ") == "+ 42 ";
    assert StripRight("+ 42 ") == "+ 42";
    assert "+ 42"[1..] == " 42";
    assert StripLeft(" 42") == "42";
    assert DigitsValue("42") == 42 by {
      assert "42"[..1] == "4";
    }
    assert StripLeft("+ ") == "+ ";
    assert StripRight("+ ") == "+";
    assert StripLeft("+"[1..]) == "";
  }

  /** Text without a minus sign never parses to a negative number. */
  lemma PyIntNoMinusNonNegative(s: string)
    requires '-' !in s
    ensures PyInt(s).Some? ==> PyInt(s).value >= 0
  {
    StripFacts(s);
    var t := Strip(s);
    if |t| > 0 {
      assert t[0] in s;
    }
  }

  /** The decimal spelling of a natural number, as `str(n)` writes it. */
  function Decimal(n: nat): (r: string)
    ensures |r| >= 1 && AllDigits(r)
    decreases n
  {
    if n < 10 then [('0' as int + n) as char] else Decimal(n / 10) + [('0' as int + n % 10) as char]
  }

  lemma {:induction false} DigitsOfDecimal(n: nat)
    ensures DigitsValue(Decimal(n)) == n
    decreases n
  {
    if n >= 10 {
      DigitsOfDecimal(n / 10);
      var d := Decimal(n);
      assert d[..|d| - 1] == Decimal(n / 10);
    }
  }

  /** `int(str(n)) == n`: parsing is the inverse of decimal printing. */
  lemma PyIntOfDecimal(n: nat)
    ensures PyInt(Decimal(n)) == Some(n)
  {
    var d := Decimal(n);
    DigitsOfDecimal(n);
    assert !IsSpace(d[0]) && !IsSpace(d[|d| - 1]);
    assert StripLeft(d) == d;
    assert StripRight(d) == d;
  }
}
