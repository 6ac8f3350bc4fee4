/**
 * `extractnumber`: the first match of `\d*,?\d*,?\d*,?\d+,?\d+` in a string, with its
 * commas removed. The pattern is run by an explicit backtracking matcher that tries the
 * alternatives in the order Python's engine does (greedy runs, longest first; an optional
 * comma taken before skipped), and the match is the leftmost one, as `re.findall(...)[0]`.
 */
module NumberExtract {
  import opened Wrappers
  import opened Text

  /** One element of the pattern: a digit run of at least `min` digits (`\d*` or `\d+`), or `,?`. */
  datatype Token = Digits(min: nat) | OptComma

  /** `\d*,?\d*,?\d*,?\d+,?\d+` */
  const NumberPattern: seq<Token> :=
    [Digits(0), OptComma, Digits(0), OptComma, Digits(0), OptComma, Digits(1), OptComma, Digits(1)]

  /** `findall(...)[0]` on a list with no element raises IndexError. */
  datatype ExtractError = NoMatch

  predicate IsNumChar(c: char) {
    IsDigit(c) || c == ','
  }

  /** Every character of `s[lo..hi]` is a digit or a comma. */
  predicate NumericSpan(s: string, lo: nat, hi: nat)
    requires lo <= hi <= |s|
  {
    forall k :: lo <= k < hi ==> IsNumChar(s[k])
  }

  /** Length of the maximal run of digits of `s` that starts at `pos`. */
  function DigitRun(s: string, pos: nat): (n: nat)
    requires pos <= |s|
    ensures pos + n <= |s|
    ensures forall k :: pos <= k < pos + n ==> IsDigit(s[k])
    ensures pos + n == |s| || !IsDigit(s[pos + n])
    decreases |s| - pos
  {
    if pos < |s| && IsDigit(s[pos]) then 1 + DigitRun(s, pos + 1) else 0
  }

  /**
   * End of the first match of `p` anchored at `pos`, in backtracking order, or None
   * when no way of matching `p` there exists.
   */
  function MatchAt(p: seq<Token>, s: string, pos: nat): (r: Option<nat>)
    requires pos <= |s|
    ensures r.Some? ==> pos <= r.value <= |s| && NumericSpan(s, pos, r.value)
    decreases |p|, 0, 0
  {
    if |p| == 0 then Some(pos)
    else match p[0]
      case OptComma =>
        if pos < |s| && s[pos] == ',' then
          match MatchAt(p[1..], s, pos + 1)
          case Some(e) => Some(e)
          case None => MatchAt(p[1..], s, pos)
        else MatchAt(p[1..], s, pos)
      case Digits(min) => TryDigits(p[1..], s, pos, DigitRun(s, pos), min)
  }

  /** A digit token that has consumed `k` digits: try the rest, then give back one digit at a time down to `min`. */
  function TryDigits(rest: seq<Token>, s: string, pos: nat, k: nat, min: nat): (r: Option<nat>)
    requires pos + k <= |s|
    requires forall j :: pos <= j < pos + k ==> IsDigit(s[j])
    ensures r.Some? ==> pos <= r.value <= |s| && NumericSpan(s, pos, r.value)
    decreases |rest|, 1, k
  {
    if k < min then None
    else match MatchAt(rest, s, pos + k)
      case Some(e) => Some(e)
      case None => if k == 0 then None else TryDigits(rest, s, pos, k - 1, min)
  }

  /** `s.replace(',', '')`: the same characters but for the commas. */
  function StripCommas(w: string): (r: string)
    ensures |r| <= |w|
    ensures forall k :: 0 <= k < |r| ==> r[k] != ','
    ensures (forall k :: 0 <= k < |w| ==> w[k] != ',') ==> r == w
    ensures multiset(r) == multiset(w)[',' := 0]
  {
    if |w| == 0 then []
    else
      assert w == [w[0]] + w[1..];
      assert multiset(w) == multiset{w[0]} + multiset(w[1..]);
      if w[0] == ',' then StripCommas(w[1..])
      else [w[0]] + StripCommas(w[1..])
  }

  /** Removing commas works piece by piece, so the other characters keep their order. */
  lemma {:induction false} StripCommasAppend(a: string, b: string)
    ensures StripCommas(a + b) == StripCommas(a) + StripCommas(b)
    decreases |a|
  {
    if |a| > 0 {
      assert (a + b)[0] == a[0] && (a + b)[1..] == a[1..] + b;
      StripCommasAppend(a[1..], b);
    } else {
      assert a + b == b;
    }
  }

  /** A single character is dropped if it is a comma and kept otherwise. */
  lemma StripCommasChar(c: char)
    ensures StripCommas([c]) == if c == ',' then [] else [c]
  {
    assert [c][1..] == [];
  }

  /* ---------------------------------------------------------------------------------
   * What a match looks like: it is made of digits and commas, it stops where a digit
   * run stops, and it contains two digits that are adjacent or split by one comma.
   * --------------------------------------------------------------------------------- */

  /** Two digits at `k` that are adjacent (`dd`) or separated by a single comma (`d,d`). */
  predicate PairAt(s: string, k: nat) {
    k + 1 < |s| && IsDigit(s[k]) &&
    (IsDigit(s[k + 1]) || (s[k + 1] == ',' && k + 2 < |s| && IsDigit(s[k + 2])))
  }

  /** Number of characters of the pair at `k`: 2 for `dd`, 3 for `d,d`. */
  function PairSpan(s: string, k: nat): nat
    requires PairAt(s, k)
  {
    if IsDigit(s[k + 1]) then 2 else 3
  }

  predicate HasPair(s: string) {
    exists k: nat :: k < |s| && PairAt(s, k)
  }

  /** The position of the leftmost pair at or after `i`. */
  function FirstPair(s: string, i: nat): (k: nat)
    requires exists k: nat :: i <= k && PairAt(s, k)
    ensures i <= k && PairAt(s, k)
    ensures forall j :: i <= j < k ==> !PairAt(s, j)
    decreases |s| - i
  {
    if PairAt(s, i) then i else FirstPair(s, i + 1)
  }

  lemma {:induction false} TryDigitsChoice(rest: seq<Token>, s: string, pos: nat, k: nat, min: nat, e: nat)
    requires pos + k <= |s|
    requires forall j :: pos <= j < pos + k ==> IsDigit(s[j])
    requires TryDigits(rest, s, pos, k, min) == Some(e)
    ensures exists t :: pos + min <= t <= pos + k && MatchAt(rest, s, t) == Some(e)
    decreases k
  {
    if MatchAt(rest, s, pos + k).None? {
      TryDigitsChoice(rest, s, pos, k - 1, min, e);
    } else {
      assert MatchAt(rest, s, pos + k) == Some(e);
    }
  }

  /** A successful match of `p` passes, at some position, through a successful match of its tail `p[1..]` with the same end. */
  lemma {:induction false} MatchThroughTail(p: seq<Token>, s: string, pos: nat, e: nat)
    requires |p| > 0 && pos <= |s|
    requires MatchAt(p, s, pos) == Some(e)
    ensures exists q :: pos <= q <= e && MatchAt(p[1..], s, q) == Some(e)
  {
    match p[0]
    case OptComma =>
      if pos < |s| && s[pos] == ',' && MatchAt(p[1..], s, pos + 1).Some? {
        assert MatchAt(p[1..], s, pos + 1) == Some(e);
      } else {
        assert MatchAt(p[1..], s, pos) == Some(e);
      }
    case Digits(min) =>
      TryDigitsChoice(p[1..], s, pos, DigitRun(s, pos), min, e);
  }

  /** Same, for the suffix `p[n..]`. */
  lemma {:induction false} MatchThroughSuffix(p: seq<Token>, n: nat, s: string, pos: nat, e: nat)
    requires n <= |p| && pos <= |s|
    requires MatchAt(p, s, pos) == Some(e)
    ensures exists q :: pos <= q <= e && MatchAt(p[n..], s, q) == Some(e)
    decreases n
  {
    if n == 0 {
      assert p[0..] == p;
    } else {
      MatchThroughTail(p, s, pos, e);
      var q :| pos <= q <= e && MatchAt(p[1..], s, q) == Some(e);
      MatchThroughSuffix(p[1..], n - 1, s, q, e);
      assert p[1..][n - 1..] == p[n..];
    }
  }

  /** A trailing `\d+` is greedy with nothing after it: it ends where the digit run ends. */
  lemma LastRunEnds(p: seq<Token>, s: string, q: nat, e: nat)
    requires |p| == 1 && p[0] == Digits(1) && q <= |s|
    requires MatchAt(p, s, q) == Some(e)
    ensures DigitRun(s, q) >= 1 && e == q + DigitRun(s, q)
  {
    var n := DigitRun(s, q);
    assert MatchAt(p, s, q) == TryDigits(p[1..], s, q, n, 1);
    if n >= 1 {
      assert MatchAt(p[1..], s, q + n) == Some(q + n);
    }
  }

  /** A pattern of tokens that may match nothing, ending in `\d+,?\d+`; `NumberPattern` is one. */
  predicate EndsInPair(p: seq<Token>) {
    && |p| >= 3
    && (forall k :: 0 <= k < |p| - 3 ==> p[k] == OptComma || p[k] == Digits(0))
    && p[|p| - 3] == Digits(1) && p[|p| - 2] == OptComma && p[|p| - 1] == Digits(1)
  }

  lemma NumberPatternShape()
    ensures EndsInPair(NumberPattern)
  {
  }

  /** The tail `\d+,?\d+` always matches a pair, and ends where a digit run ends. */
  lemma {:induction false} PairInTail(p: seq<Token>, s: string, q: nat, e: nat)
    requires |p| == 3 && p[0] == Digits(1) && p[1] == OptComma && p[2] == Digits(1)
    requires q <= |s|
    requires MatchAt(p, s, q) == Some(e)
    ensures exists k :: q <= k && PairAt(s, k) && k + PairSpan(s, k) <= e
    ensures e == |s| || !IsDigit(s[e])
  {
    TryDigitsChoice(p[1..], s, q, DigitRun(s, q), 1, e);
    var m :| q + 1 <= m <= q + DigitRun(s, q) && MatchAt(p[1..], s, m) == Some(e);
    assert IsDigit(s[m - 1]);
    CommaThenRun(p[1..], s, m, e);
  }

  /** `,?\d+` matched at `m`, just after a digit: a pair starts at `m - 1` and the match ends where the run ends. */
  lemma {:induction false} CommaThenRun(t: seq<Token>, s: string, m: nat, e: nat)
    requires |t| == 2 && t[0] == OptComma && t[1] == Digits(1)
    requires 1 <= m <= |s| && IsDigit(s[m - 1])
    requires MatchAt(t, s, m) == Some(e)
    ensures PairAt(s, m - 1) && m - 1 + PairSpan(s, m - 1) <= e
    ensures e == |s| || !IsDigit(s[e])
  {
    var last := t[1..];
    assert |last| == 1 && last[0] == Digits(1);
    if m < |s| && s[m] == ',' && MatchAt(last, s, m + 1).Some? {
      assert MatchAt(last, s, m + 1) == Some(e);
      LastRunEnds(last, s, m + 1, e);
    } else {
      assert MatchAt(last, s, m) == Some(e);
      LastRunEnds(last, s, m, e);
    }
  }

  /** Every match of such a pattern contains a pair and ends where a digit run ends. */
  lemma MatchHasPair(p: seq<Token>, s: string, i: nat, e: nat)
    requires EndsInPair(p) && i <= |s|
    requires MatchAt(p, s, i) == Some(e)
    ensures exists k :: i <= k && PairAt(s, k) && k + PairSpan(s, k) <= e
    ensures e == |s| || !IsDigit(s[e])
  {
    MatchThroughSuffix(p, |p| - 3, s, i, e);
    var q :| i <= q <= e && MatchAt(p[|p| - 3..], s, q) == Some(e);
    PairInTail(p[|p| - 3..], s, q, e);
  }

  /* Backtracking is complete: if some choice succeeds, the search succeeds. */

  lemma {:induction false} TryDigitsReaches(rest: seq<Token>, s: string, pos: nat, k: nat, min: nat, j: nat)
    requires pos + k <= |s|
    requires forall t :: pos <= t < pos + k ==> IsDigit(s[t])
    requires min <= j <= k && MatchAt(rest, s, pos + j).Some?
    ensures TryDigits(rest, s, pos, k, min).Some?
    decreases k
  {
    if j < k && MatchAt(rest, s, pos + k).None? {
      TryDigitsReaches(rest, s, pos, k - 1, min, j);
    }
  }

  /** A token that may match nothing (`\d*` or `,?`) lets its tail's success through. */
  lemma SkipToken(p: seq<Token>, s: string, pos: nat)
    requires |p| > 0 && pos <= |s|
    requires p[0] == OptComma || p[0] == Digits(0)
    requires MatchAt(p[1..], s, pos).Some?
    ensures MatchAt(p, s, pos).Some?
  {
    if p[0] == Digits(0) {
      TryDigitsReaches(p[1..], s, pos, DigitRun(s, pos), 0, 0);
    }
  }

  /** `\d+,?\d+` matches at every pair. */
  lemma PairMatchesTail(p: seq<Token>, s: string, k: nat)
    requires |p| == 3 && p[0] == Digits(1) && p[1] == OptComma && p[2] == Digits(1)
    requires PairAt(s, k)
    ensures MatchAt(p, s, k).Some?
  {
    var m := k + 1;
    var last := p[1..][1..];
    assert |last| == 1 && last[0] == Digits(1) && last[1..] == [];
    // the last `\d+` matches at the second digit of the pair
    var second := if IsDigit(s[m]) then m else m + 1;
    assert DigitRun(s, second) >= 1;
    TryDigitsReaches(last[1..], s, second, DigitRun(s, second), 1, DigitRun(s, second));
    assert MatchAt(last, s, second).Some?;
    // `,?` between them
    assert MatchAt(p[1..], s, m).Some?;
    // the first `\d+` takes one digit
    TryDigitsReaches(p[1..], s, k, DigitRun(s, k), 1, 1);
  }

  /** A pattern ending in `\d+,?\d+` matches at every pair. */
  lemma {:induction false} PairMatches(p: seq<Token>, s: string, k: nat)
    requires EndsInPair(p)
    requires PairAt(s, k)
    ensures MatchAt(p, s, k).Some?
    decreases |p|
  {
    if |p| == 3 {
      PairMatchesTail(p, s, k);
    } else {
      assert EndsInPair(p[1..]);
      PairMatches(p[1..], s, k);
      SkipToken(p, s, k);
    }
  }

  /** The leftmost start at or after `i` where the pattern matches, with the end of that match. */
  function FirstMatch(p: seq<Token>, s: string, i: nat): (r: Option<(nat, nat)>)
    requires i <= |s|
    ensures r.Some? ==> i <= r.value.0 <= |s| && MatchAt(p, s, r.value.0) == Some(r.value.1)
    ensures r.Some? ==> forall j :: i <= j < r.value.0 ==> MatchAt(p, s, j).None?
    ensures r.None? ==> forall j :: i <= j <= |s| ==> MatchAt(p, s, j).None?
    decreases |s| - i
  {
    match MatchAt(p, s, i)
    case Some(e) => Some((i, e))
    case None => if i == |s| then None else FirstMatch(p, s, i + 1)
  }

  /**
   * The span `(i, e)` that `findall(...)[0]` returns for a pattern ending in `\d+,?\d+`,
   * or None when the list is empty. There is a match exactly when the string has two
   * digits that are adjacent or separated by one comma; the match is made of digits and
   * commas, begins no later than the leftmost such pair, covers it, and stops where a
   * digit run stops.
   */
  function Span(p: seq<Token>, s: string): (r: Option<(nat, nat)>)
    requires EndsInPair(p)
    ensures r.Some? <==> HasPair(s)
    ensures r.Some? ==> r.value.0 < r.value.1 <= |s| && NumericSpan(s, r.value.0, r.value.1)
    ensures r.Some? ==> r.value.1 == |s| || !IsDigit(s[r.value.1])
    ensures r.Some? ==>
      var k := FirstPair(s, 0);
      r.value.0 <= k && k + PairSpan(s, k) <= r.value.1
  {
    var r := FirstMatch(p, s, 0);
    if r.Some? then
      var (i, e) := r.value;
      MatchHasPair(p, s, i, e);
      var k :| i <= k && PairAt(s, k) && k + PairSpan(s, k) <= e;
      var k0 := FirstPair(s, 0);
      PairMatches(p, s, k0);
      assert i <= k0;
      assert k0 <= k;
      r
    else
      assert !HasPair(s) by {
        if HasPair(s) {
          var k: nat :| k < |s| && PairAt(s, k);
          PairMatches(p, s, k);
        }
      }
      r
  }

  lemma {:induction false} StripKeepsDigits(w: string)
    requires forall k :: 0 <= k < |w| ==> IsNumChar(w[k])
    ensures AllDigits(StripCommas(w))
  {
    if |w| > 0 {
      StripKeepsDigits(w[1..]);
    }
  }

  /** Two digits at positions `a < b` of `w` both survive comma removal. */
  lemma {:induction false} StripKeepsTwo(w: string, a: nat, b: nat)
    requires a < b < |w| && w[a] != ',' && w[b] != ','
    ensures |StripCommas(w)| >= 2
  {
    if a > 0 {
      StripKeepsTwo(w[1..], a - 1, b - 1);
    } else {
      StripKeepsOne(w[1..], b - 1);
    }
  }

  lemma {:induction false} StripKeepsOne(w: string, b: nat)
    requires b < |w| && w[b] != ','
    ensures |StripCommas(w)| >= 1
  {
    if b > 0 && w[0] == ',' {
      StripKeepsOne(w[1..], b - 1);
    }
  }

  /**
   * `extractnumber(s)`: the leftmost match with its commas removed. It fails exactly when
   * `s` has no two digits that are adjacent or separated by a single comma, and otherwise
   * returns at least two characters, all digits.
   */
  function Extract(s: string): (r: Result<string, ExtractError>)
    ensures r.Success? <==> HasPair(s)
    ensures r.Success? ==> AllDigits(r.value) && |r.value| >= 2
    ensures r.Success? ==>
      var (i, e) := Span(NumberPattern, s).value;
      r.value == StripCommas(s[i..e])
  {
    NumberPatternShape();
    match Span(NumberPattern, s)
    case None => Failure(NoMatch)
    case Some((i, e)) =>
      SpanDigits(NumberPattern, s);
      Success(StripCommas(s[i..e]))
  }

  /** The matched text, once its commas are gone, is two or more digits. */
  lemma SpanDigits(p: seq<Token>, s: string)
    requires EndsInPair(p) && Span(p, s).Some?
    ensures var (i, e) := Span(p, s).value;
      AllDigits(StripCommas(s[i..e])) && |StripCommas(s[i..e])| >= 2
  {
    var (i, e) := Span(p, s).value;
    var w := s[i..e];
    StripKeepsDigits(w);
    PairSurvives(s, i, e, FirstPair(s, 0));
  }

  /** A pair inside `s[i..e]` leaves two digits once the commas are gone. */
  lemma PairSurvives(s: string, i: nat, e: nat, k: nat)
    requires PairAt(s, k) && i <= k && k + PairSpan(s, k) <= e <= |s|
    ensures |StripCommas(s[i..e])| >= 2
  {
    var w := s[i..e];
    var last := k + PairSpan(s, k) - 1;
    assert w[k - i] == s[k] && w[last - i] == s[last];
    StripKeepsTwo(w, k - i, last - i);
  }

  /** On a string of two or more digits, extraction is the identity. */
  lemma ExtractDigits(s: string)
    requires AllDigits(s) && |s| >= 2
    ensures Extract(s) == Success(s)
  {
    assert PairAt(s, 0);
    assert FirstPair(s, 0) == 0;
    NumberPatternShape();
    var (i, e) := Span(NumberPattern, s).value;
    assert i == 0;
    assert e == |s|;
    assert s[0..|s|] == s;
  }

  /** `extractnumber` is idempotent wherever it succeeds. */
  lemma ExtractIdempotent(s: string)
    requires Extract(s).Success?
    ensures Extract(Extract(s).value) == Extract(s)
  {
    ExtractDigits(Extract(s).value);
  }

  /**
   * A string that opens with a pair, followed only by digits up to position `n` where the
   * digits and commas stop, is matched from its start up to `n`.
   */
  lemma {:induction false} LeadingNumberSpan(p: seq<Token>, s: string, n: nat)
    requires EndsInPair(p) && PairAt(s, 0) && n <= |s|
    requires n == |s| || !IsNumChar(s[n])
    requires forall k :: PairSpan(s, 0) <= k < n ==> IsDigit(s[k])
    ensures Span(p, s) == Some((0, n))
  {
    assert HasPair(s);
    var k := FirstPair(s, 0);
    assert k == 0;
    var (i, e) := Span(p, s).value;
    assert i == 0 && PairSpan(s, 0) <= e;
  }

  /** Extraction from a string that opens with a number: that number without its commas. */
  lemma {:induction false} ExtractLeading(s: string, n: nat)
    requires PairAt(s, 0) && n <= |s|
    requires n == |s| || !IsNumChar(s[n])
    requires forall k :: PairSpan(s, 0) <= k < n ==> IsDigit(s[k])
    ensures Extract(s) == Success(StripCommas(s[0..n]))
  {
    NumberPatternShape();
    LeadingNumberSpan(NumberPattern, s, n);
  }

  /** Removing the one comma between two comma-free pieces joins the pieces. */
  lemma StripOneComma(a: string, b: string)
    requires ',' !in a && ',' !in b
    ensures StripCommas(a + [','] + b) == a + b
  {
    StripCommasAppend(a + [','], b);
    StripCommasAppend(a, [',']);
    StripCommasChar(',');
  }

  /** `1,234` followed by a space: a pair at the start, digits after it, and the space ends the number. */
  lemma {:induction false} ThousandsText(rest: string)
    ensures var s := "1,234 " + rest;
      && PairAt(s, 0) && PairSpan(s, 0) == 3
      && IsDigit(s[3]) && IsDigit(s[4]) && !IsNumChar(s[5])
      && s[0..5] == s[0..1] + [','] + s[2..5]
      && ',' !in s[0..1] && ',' !in s[2..5]
      && s[0..1] + s[2..5] == "1234"
  {
  }

  /** A count with a thousands separator loses its comma: `1,234 students` gives `1234`. */
  lemma {:induction false} ExtractStudents(rest: string)
    ensures Extract("1,234 " + rest) == Success("1234")
  {
    var s := "1,234 " + rest;
    ThousandsText(rest);
    StripOneComma(s[0..1], s[2..5]);
    ExtractLeading(s, 5);
  }

  /** A string without two close digits gives the error that `IndexError` is in the script. */
  lemma ExtractNoNumber(s: string)
    requires s == "1 like, 2 follow"
    ensures Extract(s) == Failure(NoMatch)
  {
    assert forall k: nat :: k < |s| ==> !PairAt(s, k);
  }
}
