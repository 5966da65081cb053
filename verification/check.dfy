/** The expectation check `check_errors` (runtest.py): each actual error is
    reduced to the first 100 characters of its first traceback entry, the
    shorter of the two lists is padded with a sentinel, and position `i`
    matches when the `i`-th expected string occurs in the `i`-th actual one.
    The lines written to the diagnostic stream are returned as a sequence. */
module Check {
  import opened Text
  import opened Notebook

  /** The `fillvalue` of `zip_longest`. */
  const Sentinel := "-- No Error --"

  /** How much of a traceback entry takes part in the comparison. */
  const SignatureWidth: nat := 100

  /** `"=" * 100`, printed before the header and after the last mismatch. */
  const Bar: string := Repeat('=', 100)

  /** Python's `c * n` for a one-character string `c`. */
  function Repeat(c: char, n: nat): (r: string)
    ensures |r| == n && forall i | 0 <= i < n :: r[i] == c
  {
    seq(n, _ => c)
  }

  function Max(a: nat, b: nat): nat
  {
    if a < b then b else a
  }

  /** The signatures of the actual errors: `str(x['traceback'][0][:100])`
      for each, or `None` when some traceback is empty and indexing it raises
      `IndexError`. */
  function Signatures(actual: seq<Output>): (r: Option<seq<string>>)
    ensures r.Some? <==> forall i | 0 <= i < |actual| :: actual[i].traceback != []
    ensures r.Some? ==>
      |r.value| == |actual| &&
      forall i | 0 <= i < |actual| :: r.value[i] == Truncate(actual[i].traceback[0], SignatureWidth)
  {
    if actual == [] then Some([])
    else if actual[0].traceback == [] then None
    else match Signatures(actual[1..])
      case None => None
      case Some(rest) => Some([Truncate(actual[0].traceback[0], SignatureWidth)] + rest)
  }

  /** Element `i` of `s` once `s` is padded with the sentinel. */
  function PadAt(s: seq<string>, i: nat): string
  {
    if i < |s| then s[i] else Sentinel
  }

  function Rest(s: seq<string>): seq<string>
  {
    if s == [] then [] else s[1..]
  }

  /** `itertools.zip_longest(xs, ys, fillvalue=Sentinel)`. */
  function ZipLongest(xs: seq<string>, ys: seq<string>): (r: seq<(string, string)>)
    ensures |r| == Max(|xs|, |ys|)
    ensures forall i | 0 <= i < |r| :: r[i] == (PadAt(xs, i), PadAt(ys, i))
    decreases |xs| + |ys|
  {
    if xs == [] && ys == [] then []
    else [(PadAt(xs, 0), PadAt(ys, 0))] + ZipLongest(Rest(xs), Rest(ys))
  }

  /** The verdict of the check on signatures: every position below the
      longer length matches once both lists are padded. */
  predicate Matches(expected: seq<string>, sigs: seq<string>)
  {
    forall i | 0 <= i < Max(|expected|, |sigs|) :: Occurs(PadAt(expected, i), PadAt(sigs, i))
  }

  /** A failing position and the two strings compared there. */
  datatype Mismatch = Mismatch(index: nat, expected: string, got: string)

  /** The failing positions among the first `n` pairs, in index order. */
  function Mismatches(pairs: seq<(string, string)>, n: nat): (r: seq<Mismatch>)
    requires n <= |pairs|
    ensures forall k | 0 <= k < |r| ::
      r[k].index < n && (r[k].expected, r[k].got) == pairs[r[k].index] && !Occurs(r[k].expected, r[k].got)
    ensures forall k, l | 0 <= k < l < |r| :: r[k].index < r[l].index
  {
    if n == 0 then []
    else if Occurs(pairs[n - 1].0, pairs[n - 1].1) then Mismatches(pairs, n - 1)
    else Mismatches(pairs, n - 1) + [Mismatch(n - 1, pairs[n - 1].0, pairs[n - 1].1)]
  }

  /** Every failing position below `n` is reported. */
  lemma {:induction false} MismatchesComplete(pairs: seq<(string, string)>, n: nat, j: nat)
    requires j < n <= |pairs| && !Occurs(pairs[j].0, pairs[j].1)
    ensures exists k :: 0 <= k < |Mismatches(pairs, n)| && Mismatches(pairs, n)[k].index == j
  {
    var r := Mismatches(pairs, n);
    if j == n - 1 {
      assert r[|r| - 1].index == j;
    } else {
      MismatchesComplete(pairs, n - 1, j);
      var k :| 0 <= k < |Mismatches(pairs, n - 1)| && Mismatches(pairs, n - 1)[k].index == j;
      assert r[k] == Mismatches(pairs, n - 1)[k];
    }
  }

  /** No mismatch is reported exactly when every pair matches. */
  lemma {:induction false} NoMismatchesIffAllOccur(pairs: seq<(string, string)>, n: nat)
    requires n <= |pairs|
    ensures Mismatches(pairs, n) == [] <==> forall j | 0 <= j < n :: Occurs(pairs[j].0, pairs[j].1)
  {
    if n > 0 {
      NoMismatchesIffAllOccur(pairs, n - 1);
    }
  }

  /** Walking the `zip_longest` pairs finds no mismatch exactly when the
      padded lists match position by position. */
  lemma NoMismatchesIffMatches(expected: seq<string>, sigs: seq<string>)
    ensures AllMismatches(expected, sigs) == [] <==> Matches(expected, sigs)
  {
    var pairs := ZipLongest(expected, sigs);
    NoMismatchesIffAllOccur(pairs, |pairs|);
    if Matches(expected, sigs) {
      forall j | 0 <= j < |pairs| ensures Occurs(pairs[j].0, pairs[j].1) {
        assert pairs[j] == (PadAt(expected, j), PadAt(sigs, j));
      }
    }
  }

  /** `f"Errors detected in {file_name}"` */
  function Header(fileName: string): string
  {
    "Errors detected in " + fileName
  }

  /** `f"No match for {i}-th expected error '{e}' got '{a[:100]}'"` */
  function NoMatchText(m: Mismatch): string
  {
    "No match for " + Decimal(m.index) + "-th expected error '" + m.expected
      + "' got '" + Truncate(m.got, SignatureWidth) + "'"
  }

  /** A line `check_errors` writes to standard error: the bar, the header
      naming the file, or the report of one mismatch. */
  datatype Line = Rule | Heading(fileName: string) | NoMatch(mismatch: Mismatch)

  /** The text of a line. */
  function LineText(l: Line): string
  {
    match l
    case Rule => Bar
    case Heading(fileName) => Header(fileName)
    case NoMatch(m) => NoMatchText(m)
  }

  function Render(ms: seq<Mismatch>): seq<Line>
  {
    seq(|ms|, k requires 0 <= k < |ms| => NoMatch(ms[k]))
  }

  /** What the loop has printed once it has seen the mismatches `ms`: the
      bar and header before the first of them, then one line for each. */
  function Report(fileName: string, ms: seq<Mismatch>): seq<Line>
  {
    if ms == [] then [] else [Rule, Heading(fileName)] + Render(ms)
  }

  /** Everything `check_errors` prints for these signatures. */
  function Diagnostics(fileName: string, expected: seq<string>, sigs: seq<string>): seq<Line>
  {
    Closing(fileName, AllMismatches(expected, sigs))
  }

  /** The failing positions of the whole `zip_longest` walk. */
  function AllMismatches(expected: seq<string>, sigs: seq<string>): seq<Mismatch>
  {
    Mismatches(ZipLongest(expected, sigs), Max(|expected|, |sigs|))
  }

  /** The report followed by the closing bar, when there is a report. */
  function Closing(fileName: string, ms: seq<Mismatch>): seq<Line>
  {
    if ms == [] then [] else Report(fileName, ms) + [Rule]
  }

  /** One more mismatch prints the bar and header first if it is the first
      one, then its own line. */
  lemma ReportStep(fileName: string, before: seq<Mismatch>, m: Mismatch)
    ensures Report(fileName, before + [m]) ==
      (if before == [] then [Rule, Heading(fileName)] else Report(fileName, before)) + [NoMatch(m)]
  {
    assert Render(before + [m]) == Render(before) + [NoMatch(m)];
  }

  /** How a call of `check_errors` ends: it returns a boolean, or indexing an
      empty traceback raises `IndexError` before anything is printed. */
  datatype Checked = Returned(ok: bool) | IndexErrorRaised

  /** The result of `check_errors` as a function of its inputs; the file
      name plays no part in it. */
  function CheckSpec(expected: seq<string>, actual: seq<Output>): (r: Checked)
    ensures r.IndexErrorRaised? <==> exists i :: 0 <= i < |actual| && actual[i].traceback == []
    ensures r.Returned? ==> (r.ok <==> Matches(expected, Signatures(actual).value))
  {
    match Signatures(actual)
    case None => IndexErrorRaised
    case Some(sigs) => Returned(Matches(expected, sigs))
  }

  /** `check_errors(file_name, expected, actual)`: returns the verdict and
      the lines it writes to standard error. */
  method CheckErrors(fileName: string, expected: seq<string>, actual: seq<Output>)
    returns (r: Checked, lines: seq<Line>)
    ensures r.IndexErrorRaised? <==> exists i :: 0 <= i < |actual| && actual[i].traceback == []
    ensures r.Returned? ==> (r.ok <==> Matches(expected, Signatures(actual).value))
    ensures r == CheckSpec(expected, actual)
    ensures lines == if r.Returned? then Diagnostics(fileName, expected, Signatures(actual).value) else []
  {
    var tracebacks := Signatures(actual);
    if tracebacks.None? {
      return IndexErrorRaised, [];
    }
    var pairs := ZipLongest(expected, tracebacks.value);
    var returnValue;
    returnValue, lines := ComparePairs(fileName, pairs);
    NoMismatchesIffMatches(expected, tracebacks.value);
    r := Returned(returnValue);
  }

  /** The `for` loop of `check_errors` over the `zip_longest` pairs: it
      reports every failing pair, the bar and header before the first one
      and a closing bar after the last, and returns whether none failed. */
  method ComparePairs(fileName: string, pairs: seq<(string, string)>)
    returns (returnValue: bool, lines: seq<Line>)
    ensures returnValue <==> forall j | 0 <= j < |pairs| :: Occurs(pairs[j].0, pairs[j].1)
    ensures lines == Closing(fileName, Mismatches(pairs, |pairs|))
  {
    returnValue := true;
    lines := [];
    for i := 0 to |pairs|
      invariant returnValue <==> Mismatches(pairs, i) == []
      invariant lines == Report(fileName, Mismatches(pairs, i))
    {
      var e := pairs[i].0;
      var a := pairs[i].1;
      if !Occurs(e, a) {
        ReportStep(fileName, Mismatches(pairs, i), Mismatch(i, e, a));
        if returnValue {
          lines := lines + [Rule, Heading(fileName)];
        }
        lines := lines + [NoMatch(Mismatch(i, e, a))];
        returnValue := false;
      }
    }
    if !returnValue {
      lines := lines + [Rule];
    }
    NoMismatchesIffAllOccur(pairs, |pairs|);
  }
}

/** Properties of the expectation check. */
module CheckProperties {
  import opened Text
  import opened Notebook
  import opened Check

  /** The lines printed for a non-empty list of mismatches. */
  lemma ClosingShape(fileName: string, ms: seq<Mismatch>)
    requires ms != []
    ensures var lines := Closing(fileName, ms);
      |lines| == |ms| + 3 &&
      lines[0] == Rule && lines[1] == Heading(fileName) && lines[|lines| - 1] == Rule &&
      (forall k | 0 <= k < |ms| :: lines[k + 2] == NoMatch(ms[k])) &&
      (forall k | 0 <= k < |lines| :: lines[k].Heading? <==> k == 1) &&
      (forall k | 0 <= k < |lines| :: lines[k] == Rule <==> k == 0 || k == |lines| - 1)
  {
    var lines := Closing(fileName, ms);
    assert lines == [Rule, Heading(fileName)] + Render(ms) + [Rule];
    forall k | 0 <= k < |ms|
      ensures lines[k + 2] == NoMatch(ms[k])
    {
    }
  }

  /** Lines of different kinds have different texts (they start with `=`,
      `E` and `N`), so the header text is printed exactly where a heading
      line is, and the bar exactly where a rule is. */
  lemma LineTextsDiffer(x: Line, y: Line)
    requires x.Rule? != y.Rule? || x.Heading? != y.Heading?
    ensures LineText(x) != LineText(y)
  {
    assert Bar[0] == '=';
    match x {
      case Rule =>
      case Heading(f) => assert LineText(x)[0] == 'E';
      case NoMatch(m) => assert LineText(x)[0] == 'N';
    }
    match y {
      case Rule =>
      case Heading(f) => assert LineText(y)[0] == 'E';
      case NoMatch(m) => assert LineText(y)[0] == 'N';
    }
  }

  /** The length of the run of digits `s` starts with. */
  function DigitRun(s: string): nat
  {
    if s == [] || !('0' <= s[0] <= '9') then 0 else 1 + DigitRun(s[1..])
  }

  /** Digits followed by a non-digit: the run is exactly the digits. */
  lemma {:induction false} DigitRunOfPrefix(a: string, x: string)
    requires forall i | 0 <= i < |a| :: '0' <= a[i] <= '9'
    requires x != [] && !('0' <= x[0] <= '9')
    ensures DigitRun(a + x) == |a|
  {
    if a == [] {
      assert a + x == x;
    } else {
      assert (a + x)[1..] == a[1..] + x;
      DigitRunOfPrefix(a[1..], x);
    }
  }

  /** A run of digits followed by a non-digit can be read back in only one
      way. */
  lemma DigitsPrefixUnique(a: string, x: string, b: string, y: string)
    requires forall i | 0 <= i < |a| :: '0' <= a[i] <= '9'
    requires forall i | 0 <= i < |b| :: '0' <= b[i] <= '9'
    requires x != [] && !('0' <= x[0] <= '9') && y != [] && !('0' <= y[0] <= '9')
    requires a + x == b + y
    ensures a == b
  {
    DigitRunOfPrefix(a, x);
    DigitRunOfPrefix(b, y);
    assert a == (a + x)[..|a|] && b == (b + y)[..|b|];
  }

  /** Mismatches at different positions are reported by different lines:
      the position can be read back from the text. */
  lemma NoMatchTextsDistinct(m1: Mismatch, m2: Mismatch)
    requires m1.index != m2.index
    ensures NoMatchText(m1) != NoMatchText(m2)
  {
    var d1, x1 := NoMatchTextSplit(m1);
    var d2, x2 := NoMatchTextSplit(m2);
    if NoMatchText(m1) == NoMatchText(m2) {
      assert d1 + x1 == NoMatchText(m1)[13..];
      assert d2 + x2 == NoMatchText(m2)[13..];
      DigitsPrefixUnique(d1, x1, d2, x2);
      DecimalInjective(m1.index, m2.index);
    }
  }

  /** A "No match" line is the fixed opening, the digits of the position,
      and a rest that starts with '-'. */
  lemma NoMatchTextSplit(m: Mismatch) returns (d: string, x: string)
    ensures d == Decimal(m.index) && x != [] && x[0] == '-'
    ensures NoMatchText(m) == "No match for " + (d + x)
  {
    d := Decimal(m.index);
    x := "-th expected error '" + m.expected + "' got '" + Truncate(m.got, SignatureWidth) + "'";
  }

  /** The shape of what `check_errors` prints: nothing on success; otherwise
      a bar, the header, one "No match" line per failing position in index
      order, and a closing bar. The header occurs exactly once and the bar
      exactly twice. */
  lemma DiagnosticsShape(fileName: string, expected: seq<string>, sigs: seq<string>)
    ensures Diagnostics(fileName, expected, sigs) == [] <==> Matches(expected, sigs)
    ensures !Matches(expected, sigs) ==>
      var lines := Diagnostics(fileName, expected, sigs);
      var ms := AllMismatches(expected, sigs);
      |lines| == |ms| + 3 &&
      lines[0] == Rule && lines[1] == Heading(fileName) && lines[|lines| - 1] == Rule &&
      (forall k | 0 <= k < |ms| :: lines[k + 2] == NoMatch(ms[k])) &&
      (forall k | 0 <= k < |lines| :: lines[k].Heading? <==> k == 1) &&
      (forall k | 0 <= k < |lines| :: lines[k] == Rule <==> k == 0 || k == |lines| - 1)
  {
    NoMismatchesIffMatches(expected, sigs);
    if !Matches(expected, sigs) {
      ClosingShape(fileName, AllMismatches(expected, sigs));
    }
  }

  /** Each position below the longer length is reported exactly when the
      padded expected string does not occur in the padded actual one. */
  lemma ReportedIffFails(expected: seq<string>, sigs: seq<string>, j: nat)
    requires j < Max(|expected|, |sigs|)
    ensures (exists k :: 0 <= k < |AllMismatches(expected, sigs)| && AllMismatches(expected, sigs)[k].index == j)
      <==> !Occurs(PadAt(expected, j), PadAt(sigs, j))
  {
    var pairs := ZipLongest(expected, sigs);
    assert pairs[j] == (PadAt(expected, j), PadAt(sigs, j));
    assert AllMismatches(expected, sigs) == Mismatches(pairs, Max(|expected|, |sigs|));
    if !Occurs(PadAt(expected, j), PadAt(sigs, j)) {
      MismatchesComplete(pairs, Max(|expected|, |sigs|), j);
    }
  }

  /** The file name only ever appears in the header: two calls that differ
      in it alone print the same lines everywhere else. */
  lemma FileNameOnlyInHeader(f: string, g: string, expected: seq<string>, sigs: seq<string>)
    ensures var x := Diagnostics(f, expected, sigs);
      var y := Diagnostics(g, expected, sigs);
      |x| == |y| && (x == [] || (x[1] == Heading(f) && y[1] == Heading(g))) &&
      forall k | 0 <= k < |x| && k != 1 :: x[k] == y[k]
  {
    var ms := AllMismatches(expected, sigs);
    if ms != [] {
      assert Diagnostics(f, expected, sigs) == [Rule, Heading(f)] + Render(ms) + [Rule];
      assert Diagnostics(g, expected, sigs) == [Rule, Heading(g)] + Render(ms) + [Rule];
    }
  }

  /** Two empty lists pass and nothing is printed. */
  lemma EmptyListsPass(fileName: string)
    ensures CheckSpec([], []) == Returned(true)
    ensures Diagnostics(fileName, [], []) == []
  {
  }

  /** Lists of equal length pass when each expected string occurs in the
      actual signature at the same position. */
  lemma PairwiseOccurrencePasses(expected: seq<string>, sigs: seq<string>)
    requires |expected| == |sigs|
    requires forall i | 0 <= i < |sigs| :: Occurs(expected[i], sigs[i])
    ensures Matches(expected, sigs)
  {
    forall i | 0 <= i < Max(|expected|, |sigs|)
      ensures Occurs(PadAt(expected, i), PadAt(sigs, i))
    {
      assert PadAt(expected, i) == expected[i] && PadAt(sigs, i) == sigs[i];
    }
  }

  /** Only the first 100 characters of the first traceback entry count: one
      expected error matches one actual error exactly when the expected
      string occurs in that entry ending within its first 100 characters. */
  lemma FirstEntryWindow(e: string, o: Output)
    requires o.traceback != []
    ensures CheckSpec([e], [o]) == Returned(true) <==>
      exists k: nat :: k + |e| <= SignatureWidth && OccursAt(e, o.traceback[0], k)
  {
    OccursInTruncated(e, o.traceback[0], SignatureWidth);
    assert [o][0] == o;
    assert Signatures([o]).value == [Truncate(o.traceback[0], SignatureWidth)];
    assert PadAt([e], 0) == e;
  }

  /** An error where none is expected fails, unless its signature happens to
      contain the sentinel itself. */
  lemma UnexpectedErrorFails(o: Output)
    requires o.traceback != []
    ensures CheckSpec([], [o]) == Returned(true) <==> Occurs(Sentinel, Truncate(o.traceback[0], SignatureWidth))
  {
    assert [o][0] == o;
    assert Signatures([o]).value == [Truncate(o.traceback[0], SignatureWidth)];
    assert PadAt([], 0) == Sentinel;
  }

  /** A missing error passes exactly when the expected string occurs in the
      sentinel. */
  lemma MissingErrorFails(e: string)
    ensures CheckSpec([e], []) == Returned(true) <==> Occurs(e, Sentinel)
  {
    var none: seq<string> := [];
    assert Signatures([]) == Some(none);
    SinglePosition([e], none);
    assert PadAt([e], 0) == e && PadAt(none, 0) == Sentinel;
  }

  /** With one position to compare, matching is one occurrence test. */
  lemma SinglePosition(expected: seq<string>, sigs: seq<string>)
    requires Max(|expected|, |sigs|) == 1
    ensures Matches(expected, sigs) <==> Occurs(PadAt(expected, 0), PadAt(sigs, 0))
  {
  }

  /** A length mismatch is therefore not always a failure: an expected
      "Error" with no actual error passes, because "Error" occurs in
      "-- No Error --". */
  lemma SentinelAbsorbsError()
    ensures CheckSpec(["Error"], []) == Returned(true)
  {
    assert OccursAt("Error", Sentinel, 6);
    OccursIffOffset("Error", Sentinel);
    MissingErrorFails("Error");
  }

  /** More expected strings than signatures pass only if the first unmatched
      expected string occurs in the sentinel. */
  lemma ShortfallNeedsSentinel(expected: seq<string>, sigs: seq<string>)
    requires |sigs| < |expected| && Matches(expected, sigs)
    ensures Occurs(expected[|sigs|], Sentinel)
  {
    assert Occurs(PadAt(expected, |sigs|), PadAt(sigs, |sigs|));
  }

  /** More signatures than expected strings pass only if the first extra
      signature contains the sentinel. */
  lemma ExcessNeedsSentinel(expected: seq<string>, sigs: seq<string>)
    requires |expected| < |sigs| && Matches(expected, sigs)
    ensures Occurs(Sentinel, sigs[|expected|])
  {
    assert Occurs(PadAt(expected, |expected|), PadAt(sigs, |expected|));
  }

  /** Matching is by position: the same actual errors in another order can
      fail where they passed before. */
  lemma OrderMatters()
    ensures Matches(["a", "b"], ["a", "b"])
    ensures !Matches(["a", "b"], ["b", "a"])
  {
    MissingCharNeverOccurs("a", "b", 0);
    assert !Occurs(PadAt(["a", "b"], 0), PadAt(["b", "a"], 0));
    PairwiseOccurrencePasses(["a", "b"], ["a", "b"]);
  }
}
