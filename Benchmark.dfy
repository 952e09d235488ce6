/** The benchmark driver of hometask3.py: parsing `--sizes`, running every
    (case, size, algorithm) point with the insertion-sort cost guard, the
    median-of-repeats measurement, the final ordering of the results and the
    table they are printed in. Clocks and the random generator are parameters. */
module Benchmark {
  import opened Results
  import opened Text
  import opened Sorting
  import opened Generators
  import opened Table

  /** The keys of CASES and ALGS, in their dict order. */
  const Cases: seq<string> := ["random", "sorted", "reversed"]
  const Algorithms: seq<string> := ["Insertion", "Merge", "Timsort sorted", "Timsort sort"]
  const Headers: seq<string> := ["case", "n", "algorithm", "time_s_median"]

  /** The exceptions main can end with: `int()` rejecting a size token
      (ValueError) and `statistics.median([])` (StatisticsError). */
  datatype BenchError = InvalidSize(token: string) | EmptyMedian

  /** One result tuple `(case_name, n, alg_name, t)`. */
  datatype Row = Row(caseName: string, n: int, algorithm: string, time: real)

  /** The median of the times of running an algorithm once on each of the
      given inputs. Clocks are not modelled: this is a parameter. */
  type Measure = (string, seq<seq<int>>) -> real

  /** The command line and the environment of one benchmark run. */
  datatype Setup = Setup(
    sizes: seq<int>,
    repeats: int,
    maxInsertion: int,
    genRandom: int -> seq<int>,
    measure: Measure)

  // ---------------------------------------------------------------------------
  // --sizes
  // ---------------------------------------------------------------------------

  /** A token as main keeps it: not blank, and its own strip. */
  predicate Stripped(t: string) {
    t != [] && Strip(t) == t
  }

  /** A non-empty string with no whitespace at its ends is its own strip. */
  lemma StripNoEnds(s: string)
    requires s != [] && !IsSpace(s[0]) && !IsSpace(s[|s| - 1])
    ensures Strip(s) == s
  {
    StripLjust(s, 0);
    assert Ljust(s, 0) == s;
  }

  /** Stripping a second time changes nothing, and adds no character. */
  lemma StripStripped(p: string)
    requires Strip(p) != []
    ensures Stripped(Strip(p))
    ensures forall ch :: ch in Strip(p) ==> ch in p
  {
    StripNoEnds(Strip(p));
  }

  /** The stripped pieces that are not blank, in order. */
  function NonBlank(pieces: seq<string>): (tokens: seq<string>)
    ensures |tokens| <= |pieces|
    ensures forall i :: 0 <= i < |tokens| ==> Stripped(tokens[i])
  {
    if pieces == [] then []
    else
      var t := Strip(pieces[0]);
      if t == [] then NonBlank(pieces[1..])
      else
        StripStripped(pieces[0]);
        [t] + NonBlank(pieces[1..])
  }

  /** Stripping adds no comma: comma-free pieces give comma-free tokens. */
  lemma {:induction false} NonBlankCommaFree(pieces: seq<string>)
    requires forall j :: 0 <= j < |pieces| ==> ',' !in pieces[j]
    ensures forall i :: 0 <= i < |NonBlank(pieces)| ==> ',' !in NonBlank(pieces)[i]
  {
    if pieces != [] {
      NonBlankCommaFree(pieces[1..]);
      if Strip(pieces[0]) != [] {
        StripStripped(pieces[0]);
      }
    }
  }

  /** One piece gives its strip, or nothing when it is blank. */
  lemma NonBlankOne(p: string)
    ensures NonBlank([p]) == if Strip(p) == [] then [] else [Strip(p)]
  {
    assert [p][1..] == [];
  }

  /** The filter works piece by piece: the tokens of two lists of pieces are
      the tokens of the first, then those of the second. With NonBlankOne
      this keeps every piece that is not blank, stripped, in order. */
  lemma NonBlankAppend(a: seq<string>, b: seq<string>)
    ensures NonBlank(a + b) == NonBlank(a) + NonBlank(b)
  {
    forall p, rest ensures NonBlank([p] + rest) == NonBlank([p]) + NonBlank(rest) {
      NonBlankCons(p, rest);
      NonBlankOne(p);
    }
    AppendOfCons(NonBlank, a, b);
  }

  /** The first piece's token, if any, comes before the others'. */
  lemma NonBlankCons(p: string, rest: seq<string>)
    ensures NonBlank([p] + rest) == (if Strip(p) == [] then [] else [Strip(p)]) + NonBlank(rest)
  {
    assert ([p] + rest)[1..] == rest;
  }

  /** A map on lists that works element by element distributes over `+`. */
  lemma {:induction false} AppendOfCons<T, U>(f: seq<T> -> seq<U>, a: seq<T>, b: seq<T>)
    requires f([]) == []
    requires forall p, rest :: f([p] + rest) == f([p]) + f(rest)
    ensures f(a + b) == f(a) + f(b)
  {
    if a == [] {
      assert a + b == b;
    } else {
      AppendOfCons(f, a[1..], b);
      assert a == [a[0]] + a[1..];
      assert a + b == [a[0]] + (a[1..] + b);
    }
  }

  /** `[s.strip() for s in sizes.split(",") if s.strip()]`: the size tokens,
      blank ones dropped. */
  function SizeTokens(arg: string): (tokens: seq<string>)
    ensures forall i :: 0 <= i < |tokens| ==> Stripped(tokens[i]) && ',' !in tokens[i]
  {
    NonBlankCommaFree(Split(arg, ','));
    NonBlank(Split(arg, ','))
  }

  /** `--sizes` written as comma-separated pieces gives the tokens of those
      pieces: the stripped pieces that are not blank, in order. */
  lemma SizeTokensOfPieces(pieces: seq<string>)
    requires |pieces| >= 1
    requires forall j :: 0 <= j < |pieces| ==> ',' !in pieces[j]
    ensures SizeTokens(Join([','], pieces)) == NonBlank(pieces)
  {
    SplitJoin(pieces, ',');
  }

  /** Token `k` is the first one that is not an integer literal. */
  predicate FirstInvalid(tokens: seq<string>, k: int) {
    && 0 <= k < |tokens|
    && ParseInt(tokens[k]).None?
    && forall i :: 0 <= i < k ==> ParseInt(tokens[i]).Some?
  }

  /** `int(...)` on each token, in order; the first token that is not an
      integer literal raises ValueError. */
  function ParseAll(tokens: seq<string>): (r: Result<seq<int>, BenchError>)
    ensures r.Success? <==> forall i :: 0 <= i < |tokens| ==> ParseInt(tokens[i]).Some?
    ensures r.Success? ==> |r.value| == |tokens|
    ensures r.Success? ==> forall i :: 0 <= i < |tokens| ==> ParseInt(tokens[i]) == Some(r.value[i])
    ensures r.Failure? ==> exists k :: FirstInvalid(tokens, k) && r.error == InvalidSize(tokens[k])
  {
    if tokens == [] then Success([])
    else
      match ParseInt(tokens[0])
      case None => Failure(InvalidSize(tokens[0]))
      case Some(v) =>
        var rest := ParseAll(tokens[1..]);
        if rest.Failure? then
          assert forall i :: 1 <= i < |tokens| ==> tokens[i] == tokens[1..][i - 1];
          Failure(rest.error)
        else
          assert forall i :: 1 <= i < |tokens| ==> tokens[i] == tokens[1..][i - 1];
          Success([v] + rest.value)
  }

  /** Tokens that are all integer literals parse to their values. */
  lemma ParseAllOfLiterals(tokens: seq<string>, values: seq<int>)
    requires |tokens| == |values|
    requires forall i :: 0 <= i < |tokens| ==> ParseInt(tokens[i]) == Some(values[i])
    ensures ParseAll(tokens) == Success(values)
  {
    var r := ParseAll(tokens);
    assert r.Success?;
    assert r.value == values;
  }

  /** The sizes main reads from `--sizes`. */
  function ParseSizes(arg: string): Result<seq<int>, BenchError> {
    ParseAll(SizeTokens(arg))
  }

  lemma {:induction false} NonBlankOfStripped(tokens: seq<string>)
    requires forall i :: 0 <= i < |tokens| ==> Stripped(tokens[i]) && ',' !in tokens[i]
    ensures NonBlank(tokens) == tokens
  {
    if tokens != [] {
      NonBlankOfStripped(tokens[1..]);
    }
  }

  /** Joining tokens with commas and reading them back gives the tokens. */
  lemma SizeTokensOfJoin(tokens: seq<string>)
    requires forall i :: 0 <= i < |tokens| ==> Stripped(tokens[i]) && ',' !in tokens[i]
    ensures SizeTokens(Join([','], tokens)) == tokens
  {
    if tokens == [] {
      assert Split("", ',') == [""];
      assert Strip("") == [];
    } else {
      SplitJoin(tokens, ',');
      NonBlankOfStripped(tokens);
    }
  }

  /** The decimal representations of `sizes`. */
  function SizeStrings(sizes: seq<int>): (r: seq<string>)
    ensures |r| == |sizes|
    ensures forall i :: 0 <= i < |sizes| ==> r[i] == IntToString(sizes[i])
  {
    seq(|sizes|, i requires 0 <= i < |sizes| => IntToString(sizes[i]))
  }

  /** Any list of sizes written the way the default `1000,5000,10000,20000`
      is written parses back to itself. */
  lemma ParseSizesOfJoin(sizes: seq<int>)
    ensures ParseSizes(Join([','], SizeStrings(sizes))) == Success(sizes)
  {
    var tokens := SizeStrings(sizes);
    forall i | 0 <= i < |tokens|
      ensures Stripped(tokens[i]) && ',' !in tokens[i]
      ensures ParseInt(tokens[i]) == Some(sizes[i])
    {
      var t := tokens[i];
      if sizes[i] < 0 {
        assert t == "-" + NatToString(-sizes[i]);
      }
      assert IsDigit(t[|t| - 1]);
      StripNoEnds(t);
      ParseIntOfIntToString(sizes[i]);
    }
    SizeTokensOfJoin(tokens);
    ParseAllOfLiterals(tokens, sizes);
  }

  /** Blank tokens are dropped and the others stripped. */
  lemma SizeTokensDropsBlanks()
    ensures SizeTokens("1000,,5000, ") == ["1000", "5000"]
  {
    var pieces := ["1000", "", "5000", " "];
    SplitExample();
    NonBlankExample(pieces);
  }

  lemma SplitExample()
    ensures Split("1000,,5000, ", ',') == ["1000", "", "5000", " "]
  {
    var pieces := ["1000", "", "5000", " "];
    assert Join([','], pieces) == "1000,,5000, ";
    SplitJoin(pieces, ',');
  }

  lemma NonBlankExample(pieces: seq<string>)
    requires pieces == ["1000", "", "5000", " "]
    ensures NonBlank(pieces) == ["1000", "5000"]
  {
    assert Strip(pieces[3]) == "";
    StripNoEnds(pieces[0]);
    StripNoEnds(pieces[2]);
    assert pieces[1..] == ["", "5000", " "] && pieces[2..] == ["5000", " "] && pieces[3..] == [" "];
    assert NonBlank(pieces[3..]) == [];
    assert NonBlank(pieces[2..]) == ["5000"];
    assert NonBlank(pieces[1..]) == ["5000"];
  }

  /** `--sizes "1000,,5000, "` means the sizes 1000 and 5000. */
  lemma ParseSizesDropsBlanks()
    ensures ParseSizes("1000,,5000, ") == Success([1000, 5000])
  {
    SizeTokensDropsBlanks();
    ParseThousandsList();
  }

  lemma ParseThousandsList()
    ensures ParseAll(["1000", "5000"]) == Success([1000, 5000])
  {
    ParseThousands();
    ParseAllOfLiterals(["1000", "5000"], [1000, 5000]);
  }

  lemma ParseThousands()
    ensures ParseInt("1000") == Some(1000) && ParseInt("5000") == Some(5000)
  {
    ParseDecimal("1000", 1000);
    ParseDecimal("5000", 5000);
  }

  /** `int()` of a four-digit literal ending in three zeros. */
  lemma ParseDecimal(t: string, v: int)
    requires |t| == 4 && IsDigit(t[0]) && t[0] != '0' && t[1..] == "000"
    requires v == (t[0] as int - '0' as int) * 1000
    ensures ParseInt(t) == Some(v)
  {
    assert IsDigitPart(t);
    assert t[..3][..2] == t[..2] && t[..2][..1] == t[..1] && t[..1][..0] == [];
    assert DigitsValue(t[..1]) == t[0] as int - '0' as int;
    assert DigitsValue(t[..2]) == 10 * DigitsValue(t[..1]);
    assert DigitsValue(t[..3]) == 100 * DigitsValue(t[..1]);
  }

  // ---------------------------------------------------------------------------
  // Running one algorithm
  // ---------------------------------------------------------------------------

  /** What running `alg` leaves in its argument: only `Timsort sort` sorts the
      caller's list; the other three copy it or build new lists. */
  function AfterRun(alg: string, s: seq<int>): seq<int> {
    if alg == "Timsort sort" then LibrarySorted(IntLe, s) else s
  }

  /** `ALGS[alg](data)`. */
  method RunAlgorithm(alg: string, data: array<int>)
    requires alg in Algorithms
    modifies data
    ensures data[..] == AfterRun(alg, old(data[..]))
  {
    if alg == "Insertion" {
      var sorted := InsertionSort(IntLe, data);
    } else if alg == "Merge" {
      var sorted := MergeSorted(IntLe, data[..]);
    } else if alg == "Timsort sorted" {
      var sorted := TimsortSorted(IntLe, data);
    } else {
      var sorted := TimsortSort(IntLe, data);
    }
  }

  /** Running an algorithm a second time changes nothing more. */
  lemma AfterRunIdempotent(alg: string, s: seq<int>)
    ensures AfterRun(alg, AfterRun(alg, s)) == AfterRun(alg, s)
  {
    if alg == "Timsort sort" {
      IntLeIsTotalPreorder();
      LibrarySortedIsStableSort(IntLe, s);
      SortingSortedIsIdentity(IntLe, LibrarySorted(IntLe, s));
    }
  }

  /** The inputs the repeats of bench_median see as the code is written:
      every repeat passes the same list, so after the first run each repeat
      sees what the previous run left in it. */
  function InputsAsWritten(alg: string, s: seq<int>, k: int): seq<seq<int>> {
    if k <= 0 then [] else [s] + Repeat(AfterRun(alg, s), k - 1)
  }

  /** bench_median's repeats as written: `fn(data)` on the one list `data`,
      `repeats` times; returns the input each run was given. */
  method BenchInputsAsWritten(alg: string, data: array<int>, repeats: int) returns (seen: seq<seq<int>>)
    requires alg in Algorithms
    modifies data
    ensures seen == InputsAsWritten(alg, old(data[..]), repeats)
    ensures data[..] == if repeats > 0 then AfterRun(alg, old(data[..])) else old(data[..])
  {
    seen := [];
    var k := 0;
    while k < repeats
      invariant k == 0 || 0 < k <= repeats
      invariant seen == InputsAsWritten(alg, old(data[..]), k)
      invariant data[..] == if k > 0 then AfterRun(alg, old(data[..])) else old(data[..])
    {
      seen := seen + [data[..]];
      RunAlgorithm(alg, data);
      AfterRunIdempotent(alg, old(data[..]));
      k := k + 1;
    }
  }

  /** As written, every repeat of `Timsort sort` after the first sorts a list
      that is already sorted; the other algorithms see the data every time. */
  lemma InputsAsWrittenContents(alg: string, s: seq<int>, k: int)
    requires alg in Algorithms
    ensures alg != "Timsort sort" ==> InputsAsWritten(alg, s, k) == Repeat(s, k)
    ensures alg == "Timsort sort" ==> forall i :: 1 <= i < k ==>
      InputsAsWritten(alg, s, k)[i] == LibrarySorted(IntLe, s) && Sorted(IntLe, InputsAsWritten(alg, s, k)[i])
  {
    IntLeIsTotalPreorder();
    LibrarySortedIsStableSort(IntLe, s);
  }

  /** The "reversed" case with n = 2 and 2 repeats: the second run of
      `Timsort sort` is handed `[1, 2]`, not the reversed data. */
  lemma TimsortSortRepeatSeesSortedData()
    ensures InputsAsWritten("Timsort sort", GenReversed(2), 2) == [[2, 1], [1, 2]]
    ensures InputsAsWritten("Timsort sort", GenReversed(2), 2) != Repeat(GenReversed(2), 2)
  {
    ReversedTwoSorted();
    var seen := InputsAsWritten("Timsort sort", GenReversed(2), 2);
    assert seen == [[2, 1]] + Repeat([1, 2], 1);
    assert Repeat([1, 2], 1) == [[1, 2]];
    assert Repeat(GenReversed(2), 2)[1] == [2, 1] != seen[1];
  }

  lemma ReversedTwoSorted()
    ensures GenReversed(2) == [2, 1]
    ensures LibrarySorted(IntLe, GenReversed(2)) == [1, 2]
  {
    SortingGenReversed(2);
    assert Range(1, 3) == [1, 2];
  }

  /** bench_median's repeats, each on its own copy of the data: every run
      sees the dataset as generated. */
  method BenchInputs(alg: string, data: seq<int>, repeats: int) returns (seen: seq<seq<int>>)
    requires alg in Algorithms
    ensures seen == Repeat(data, repeats)
  {
    seen := [];
    var k := 0;
    while k < repeats
      invariant k == 0 || 0 < k <= repeats
      invariant seen == Repeat(data, k)
    {
      var copy := new int[|data|](i requires 0 <= i < |data| => data[i]);
      assert copy[..] == data;
      seen := seen + [copy[..]];
      RunAlgorithm(alg, copy);
      k := k + 1;
    }
  }

  /** bench_median: the median time over `repeats` runs; with no runs,
      `statistics.median([])` raises StatisticsError. */
  method BenchMedian(alg: string, data: seq<int>, repeats: int, measure: Measure) returns (r: Result<real, BenchError>)
    requires alg in Algorithms
    ensures repeats <= 0 ==> r == Failure(EmptyMedian)
    ensures repeats > 0 ==> r == Success(measure(alg, Repeat(data, repeats)))
  {
    var seen := BenchInputs(alg, data, repeats);
    if seen == [] {
      return Failure(EmptyMedian);
    }
    return Success(measure(alg, seen));
  }

  // ---------------------------------------------------------------------------
  // The benchmark matrix
  // ---------------------------------------------------------------------------

  /** `CASES[c](n)`. */
  function Dataset(c: string, n: int, genRandom: int -> seq<int>): seq<int> {
    if c == "sorted" then GenSorted(n)
    else if c == "reversed" then GenReversed(n)
    else genRandom(n)
  }

  /** The cost guard: insertion sort is not run above `--max-insertion`. */
  predicate Skipped(alg: string, n: int, maxInsertion: int) {
    alg == "Insertion" && n > maxInsertion
  }

  /** The median time recorded for one point. */
  function PointTime(c: string, n: int, alg: string, setup: Setup): real {
    setup.measure(alg, Repeat(Dataset(c, n, setup.genRandom), setup.repeats))
  }

  /** The rows one (case, n) point appends, for the algorithms in `algs`. */
  function PointRows(c: string, n: int, algs: seq<string>, setup: Setup): seq<Row> {
    if algs == [] then []
    else
      var alg := algs[|algs| - 1];
      PointRows(c, n, algs[..|algs| - 1], setup)
        + (if Skipped(alg, n, setup.maxInsertion) then [] else [Row(c, n, alg, PointTime(c, n, alg, setup))])
  }

  /** The rows of one case, for the sizes in `sizes`. */
  function CaseRows(c: string, sizes: seq<int>, setup: Setup): seq<Row> {
    if sizes == [] then []
    else CaseRows(c, sizes[..|sizes| - 1], setup) + PointRows(c, sizes[|sizes| - 1], Algorithms, setup)
  }

  /** The rows of the cases in `cases`, in the order main appends them. */
  function Matrix(cases: seq<string>, setup: Setup): seq<Row> {
    if cases == [] then []
    else Matrix(cases[..|cases| - 1], setup) + CaseRows(cases[|cases| - 1], setup.sizes, setup)
  }

  /** A row main can produce: a known case, a requested size, a known
      algorithm the guard lets through, and the median of its runs. */
  predicate Expected(r: Row, setup: Setup) {
    && r.caseName in Cases
    && r.n in setup.sizes
    && r.algorithm in Algorithms
    && !Skipped(r.algorithm, r.n, setup.maxInsertion)
    && r.time == PointTime(r.caseName, r.n, r.algorithm, setup)
  }

  /** The innermost loop of main, over ALGS for one case and size: the
      rows of that point, or StatisticsError from the first algorithm run. */
  method PointResults(c: string, n: int, setup: Setup) returns (r: Result<seq<Row>, BenchError>)
    ensures setup.repeats <= 0 ==> r == Failure(EmptyMedian)
    ensures setup.repeats > 0 ==> r == Success(PointRows(c, n, Algorithms, setup))
  {
    var data := Dataset(c, n, setup.genRandom);
    var rows: seq<Row> := [];
    var ai := 0;
    while ai < |Algorithms|
      invariant 0 <= ai <= |Algorithms|
      invariant rows == PointRows(c, n, Algorithms[..ai], setup)
      invariant setup.repeats <= 0 ==> ai <= 1
    {
      var alg := Algorithms[ai];
      assert Algorithms[..ai + 1][..ai] == Algorithms[..ai];
      if alg == "Insertion" && n > setup.maxInsertion {
        ai := ai + 1;
        continue;
      }
      var t := BenchMedian(alg, data, setup.repeats, setup.measure);
      if t.Failure? {
        return Failure(t.error);
      }
      rows := rows + [Row(c, n, alg, t.value)];
      ai := ai + 1;
    }
    assert Algorithms[..ai] == Algorithms;
    return Success(rows);
  }

  /** The middle loop of main, over the sizes for one case. */
  method CaseResults(c: string, setup: Setup) returns (r: Result<seq<Row>, BenchError>)
    ensures setup.repeats <= 0 && setup.sizes != [] ==> r == Failure(EmptyMedian)
    ensures !(setup.repeats <= 0 && setup.sizes != []) ==> r == Success(CaseRows(c, setup.sizes, setup))
  {
    var rows: seq<Row> := [];
    var si := 0;
    while si < |setup.sizes|
      invariant 0 <= si <= |setup.sizes|
      invariant rows == CaseRows(c, setup.sizes[..si], setup)
      invariant setup.repeats <= 0 ==> si == 0
    {
      var point :- PointResults(c, setup.sizes[si], setup);
      assert setup.sizes[..si + 1][..si] == setup.sizes[..si];
      rows := rows + point;
      si := si + 1;
    }
    assert setup.sizes[..si] == setup.sizes;
    return Success(rows);
  }

  /** main's loops over CASES, sizes and ALGS, collecting the unsorted
      results: StatisticsError when a point is run with no repeats. */
  method CollectResults(setup: Setup) returns (r: Result<seq<Row>, BenchError>)
    ensures setup.repeats <= 0 && setup.sizes != [] ==> r == Failure(EmptyMedian)
    ensures !(setup.repeats <= 0 && setup.sizes != []) ==> r == Success(Matrix(Cases, setup))
  {
    var results: seq<Row> := [];
    var ci := 0;
    while ci < |Cases|
      invariant 0 <= ci <= |Cases|
      invariant results == Matrix(Cases[..ci], setup)
      invariant setup.repeats <= 0 && setup.sizes != [] ==> ci == 0
    {
      var rows :- CaseResults(Cases[ci], setup);
      assert Cases[..ci + 1][..ci] == Cases[..ci];
      results := results + rows;
      ci := ci + 1;
    }
    assert Cases[..ci] == Cases;
    return Success(results);
  }

  lemma {:induction false} PointRowsContents(c: string, n: int, algs: seq<string>, setup: Setup)
    ensures forall r :: r in PointRows(c, n, algs, setup) <==>
      r.caseName == c && r.n == n && r.algorithm in algs && !Skipped(r.algorithm, n, setup.maxInsertion)
      && r.time == PointTime(c, n, r.algorithm, setup)
  {
    if algs != [] {
      PointRowsContents(c, n, algs[..|algs| - 1], setup);
      assert algs == algs[..|algs| - 1] + [algs[|algs| - 1]];
    }
  }

  lemma {:induction false} CaseRowsContents(c: string, sizes: seq<int>, setup: Setup)
    ensures forall r :: r in CaseRows(c, sizes, setup) <==>
      r.caseName == c && r.n in sizes && r.algorithm in Algorithms && !Skipped(r.algorithm, r.n, setup.maxInsertion)
      && r.time == PointTime(c, r.n, r.algorithm, setup)
  {
    if sizes != [] {
      CaseRowsContents(c, sizes[..|sizes| - 1], setup);
      PointRowsContents(c, sizes[|sizes| - 1], Algorithms, setup);
      assert sizes == sizes[..|sizes| - 1] + [sizes[|sizes| - 1]];
    }
  }

  lemma {:induction false} MatrixContents(cases: seq<string>, setup: Setup)
    ensures forall r :: r in Matrix(cases, setup) <==>
      r.caseName in cases && r.n in setup.sizes && r.algorithm in Algorithms
      && !Skipped(r.algorithm, r.n, setup.maxInsertion)
      && r.time == PointTime(r.caseName, r.n, r.algorithm, setup)
  {
    if cases != [] {
      MatrixContents(cases[..|cases| - 1], setup);
      CaseRowsContents(cases[|cases| - 1], setup.sizes, setup);
      assert cases == cases[..|cases| - 1] + [cases[|cases| - 1]];
    }
  }

  /** The filter rule: main produces exactly the expected rows. Insertion
      gets a row for a size only up to `--max-insertion`; every other
      algorithm gets one for every case and size. */
  lemma MatrixRows(setup: Setup)
    ensures forall r :: r in Matrix(Cases, setup) <==> Expected(r, setup)
  {
    MatrixContents(Cases, setup);
  }

  // ---------------------------------------------------------------------------
  // Distinct points
  // ---------------------------------------------------------------------------

  /** No two rows share a (case, n, algorithm) key. */
  predicate DistinctKeys(rows: seq<Row>) {
    forall i, j :: 0 <= i < j < |rows| ==>
      (rows[i].caseName, rows[i].n, rows[i].algorithm) != (rows[j].caseName, rows[j].n, rows[j].algorithm)
  }

  /** Two lists with distinct keys and no key in common concatenate to one. */
  lemma DistinctKeysAppend(a: seq<Row>, b: seq<Row>)
    requires DistinctKeys(a) && DistinctKeys(b)
    requires forall x, y :: x in a && y in b ==> (x.caseName, x.n, x.algorithm) != (y.caseName, y.n, y.algorithm)
    ensures DistinctKeys(a + b)
  {
    var ab := a + b;
    forall i, j | 0 <= i < j < |ab|
      ensures (ab[i].caseName, ab[i].n, ab[i].algorithm) != (ab[j].caseName, ab[j].n, ab[j].algorithm)
    {
      if j < |a| {
        assert ab[i] == a[i] && ab[j] == a[j];
      } else if i >= |a| {
        assert ab[i] == b[i - |a|] && ab[j] == b[j - |a|];
      } else {
        assert ab[i] in a && ab[j] in b;
      }
    }
  }

  /** A list of names without repeats. */
  predicate NoRepeats<T(==)>(s: seq<T>) {
    forall i, j :: 0 <= i < j < |s| ==> s[i] != s[j]
  }

  lemma {:induction false} PointRowsDistinct(c: string, n: int, algs: seq<string>, setup: Setup)
    requires NoRepeats(algs)
    ensures DistinctKeys(PointRows(c, n, algs, setup))
  {
    if algs != [] {
      var init := algs[..|algs| - 1];
      PointRowsDistinct(c, n, init, setup);
      PointRowsContents(c, n, init, setup);
      DistinctKeysAppend(PointRows(c, n, init, setup),
        if Skipped(algs[|algs| - 1], n, setup.maxInsertion) then []
        else [Row(c, n, algs[|algs| - 1], PointTime(c, n, algs[|algs| - 1], setup))]);
    }
  }

  lemma {:induction false} CaseRowsDistinct(c: string, sizes: seq<int>, setup: Setup)
    requires NoRepeats(sizes)
    ensures DistinctKeys(CaseRows(c, sizes, setup))
  {
    if sizes != [] {
      var init, last := sizes[..|sizes| - 1], sizes[|sizes| - 1];
      CaseRowsDistinct(c, init, setup);
      CaseRowsContents(c, init, setup);
      PointRowsDistinct(c, last, Algorithms, setup);
      PointRowsContents(c, last, Algorithms, setup);
      assert last !in init;
      DistinctKeysAppend(CaseRows(c, init, setup), PointRows(c, last, Algorithms, setup));
    }
  }

  lemma {:induction false} MatrixDistinct(cases: seq<string>, setup: Setup)
    requires NoRepeats(cases) && NoRepeats(setup.sizes)
    ensures DistinctKeys(Matrix(cases, setup))
  {
    if cases != [] {
      var init, last := cases[..|cases| - 1], cases[|cases| - 1];
      MatrixDistinct(init, setup);
      MatrixContents(init, setup);
      CaseRowsDistinct(last, setup.sizes, setup);
      CaseRowsContents(last, setup.sizes, setup);
      assert last !in init;
      DistinctKeysAppend(Matrix(init, setup), CaseRows(last, setup.sizes, setup));
    }
  }

  /** Each (case, n, algorithm) point appears at most once, provided the
      sizes themselves are not repeated: main does not remove duplicates. */
  lemma MatrixHasDistinctKeys(setup: Setup)
    requires NoRepeats(setup.sizes)
    ensures DistinctKeys(Matrix(Cases, setup))
  {
    MatrixDistinct(Cases, setup);
  }

  /** The matrix is the rows of "random", then "sorted", then "reversed". */
  lemma MatrixByCase(setup: Setup)
    ensures Matrix(Cases, setup) ==
      CaseRows("random", setup.sizes, setup) + CaseRows("sorted", setup.sizes, setup)
        + CaseRows("reversed", setup.sizes, setup)
  {
    assert Cases[..2][..1] == Cases[..1] == ["random"] && Cases[..1][..0] == [];
    assert Matrix(Cases[..1], setup) == CaseRows("random", setup.sizes, setup);
    assert Matrix(Cases[..2], setup) == Matrix(Cases[..1], setup) + CaseRows("sorted", setup.sizes, setup);
    assert Matrix(Cases, setup) == Matrix(Cases[..2], setup) + CaseRows("reversed", setup.sizes, setup);
  }

  /** Every point that is not skipped has a row for "Merge". */
  lemma MergeRowOfPoint(c: string, n: int, setup: Setup) returns (k: nat)
    ensures k < |PointRows(c, n, Algorithms, setup)|
    ensures PointRows(c, n, Algorithms, setup)[k] == Row(c, n, "Merge", PointTime(c, n, "Merge", setup))
  {
    PointRowsContents(c, n, Algorithms, setup);
    var row := Row(c, n, "Merge", PointTime(c, n, "Merge", setup));
    assert row in PointRows(c, n, Algorithms, setup);
    k :| 0 <= k < |PointRows(c, n, Algorithms, setup)| && PointRows(c, n, Algorithms, setup)[k] == row;
  }

  /** The rows of a case for two lists of sizes, one after the other. */
  lemma {:induction false} CaseRowsAppend(c: string, a: seq<int>, b: seq<int>, setup: Setup)
    ensures CaseRows(c, a + b, setup) == CaseRows(c, a, setup) + CaseRows(c, b, setup)
    decreases |b|
  {
    if b == [] {
      assert a + b == a;
    } else {
      var init := b[..|b| - 1];
      CaseRowsAppend(c, a, init, setup);
      assert (a + b)[..|a + b| - 1] == a + init;
      assert (a + b)[|a + b| - 1] == b[|b| - 1];
    }
  }

  /** The rows of a case around size `j`: those of the sizes before it, the
      point's own, then those of the sizes after it. */
  lemma CaseRowsAround(c: string, sizes: seq<int>, j: nat, setup: Setup)
    requires j < |sizes|
    ensures CaseRows(c, sizes, setup) ==
      CaseRows(c, sizes[..j], setup) + PointRows(c, sizes[j], Algorithms, setup) + CaseRows(c, sizes[j + 1..], setup)
  {
    assert [sizes[j]][..0] == [];
    assert CaseRows(c, [sizes[j]], setup) == PointRows(c, sizes[j], Algorithms, setup);
    CaseRowsAppend(c, sizes[..j], sizes[j..], setup);
    CaseRowsAppend(c, [sizes[j]], sizes[j + 1..], setup);
    assert sizes[..j] + sizes[j..] == sizes;
    assert sizes[j..] == [sizes[j]] + sizes[j + 1..];
  }

  /** A size among the first `j` has its "Merge" row among their rows. */
  lemma MergeRowBefore(c: string, sizes: seq<int>, i: nat, j: nat, setup: Setup) returns (x: nat)
    requires i < j <= |sizes|
    ensures x < |CaseRows(c, sizes[..j], setup)|
    ensures CaseRows(c, sizes[..j], setup)[x] == Row(c, sizes[i], "Merge", PointTime(c, sizes[i], "Merge", setup))
  {
    var row := Row(c, sizes[i], "Merge", PointTime(c, sizes[i], "Merge", setup));
    var before := CaseRows(c, sizes[..j], setup);
    CaseRowsContents(c, sizes[..j], setup);
    assert sizes[..j][i] == sizes[i];
    assert row in before;
    x :| 0 <= x < |before| && before[x] == row;
  }

  /** A size given twice in `--sizes` gives its points twice: main does not
      remove duplicates, so two rows share a (case, n, algorithm) key. */
  lemma RepeatedSizeRepeatsRows(setup: Setup, i: nat, j: nat)
    requires i < j < |setup.sizes| && setup.sizes[i] == setup.sizes[j]
    ensures !DistinctKeys(Matrix(Cases, setup))
  {
    var sizes, n := setup.sizes, setup.sizes[i];
    var before := CaseRows("random", sizes[..j], setup);
    var p := PointRows("random", n, Algorithms, setup);
    var x := MergeRowBefore("random", sizes, i, j, setup);
    var k := MergeRowOfPoint("random", n, setup);
    CaseRowsAround("random", sizes, j, setup);
    MatrixByCase(setup);
    var m := Matrix(Cases, setup);
    assert m[x] == before[x];
    assert m[|before| + k] == p[k];
  }

  // ---------------------------------------------------------------------------
  // Ordering and the report
  // ---------------------------------------------------------------------------

  /** The key `(case, n, algorithm)` of `results.sort`, compared as Python
      compares tuples: the first differing component decides. */
  predicate RowLe(x: Row, y: Row) {
    && StrLe(x.caseName, y.caseName)
    && (x.caseName == y.caseName ==>
          x.n < y.n || (x.n == y.n && StrLe(x.algorithm, y.algorithm)))
  }

  lemma RowLeIsTotalPreorder()
    ensures TotalPreorder(RowLe)
  {
    forall x: Row, y: Row ensures RowLe(x, y) || RowLe(y, x) {
      StrLeTotal(x.caseName, y.caseName);
      StrLeTotal(x.algorithm, y.algorithm);
    }
    forall x: Row, y: Row, z: Row | RowLe(x, y) && RowLe(y, z) ensures RowLe(x, z) {
      StrLeTransitive(x.caseName, y.caseName, z.caseName);
      if x.caseName == z.caseName {
        StrLeAntisymmetric(x.caseName, y.caseName);
        if x.n == y.n == z.n {
          StrLeTransitive(x.algorithm, y.algorithm, z.algorithm);
        }
      }
    }
  }

  /** `results.sort(key=lambda r: (r[0], r[1], r[2]))`. */
  function SortedResults(rows: seq<Row>): (r: seq<Row>)
    ensures |r| == |rows|
    ensures multiset(r) == multiset(rows)
  {
    LibrarySorted(RowLe, rows)
  }

  /** The printed order: by case name, then size, then algorithm name; the
      rows are the collected ones, and rows with equal keys keep their order. */
  lemma SortedResultsOrdered(rows: seq<Row>)
    ensures forall i, j :: 0 <= i < j < |rows| ==> RowLe(SortedResults(rows)[i], SortedResults(rows)[j])
    ensures forall r :: r in SortedResults(rows) <==> r in rows
    ensures Stable(RowLe, rows, SortedResults(rows))
  {
    RowLeIsTotalPreorder();
    LibrarySortedIsStableSort(RowLe, rows);
    var r := SortedResults(rows);
    forall x ensures x in r <==> x in rows {
      assert x in r <==> x in multiset(r);
    }
  }

  /** The order of the whole report: "random" before "reversed" before
      "sorted", sizes ascending within a case. */
  lemma ReportOrder(rows: seq<Row>, i: int, j: int)
    requires 0 <= i < j < |rows|
    ensures var s := SortedResults(rows);
      StrLe(s[i].caseName, s[j].caseName) && (s[i].caseName == s[j].caseName ==> s[i].n <= s[j].n)
  {
    SortedResultsOrdered(rows);
  }

  /** The four cells of a result row. */
  function RowCells(r: Row): (cells: seq<Cell>)
    ensures |cells| == |Headers|
  {
    [Str(r.caseName), Int(r.n), Str(r.algorithm), Float(r.time)]
  }

  function ReportCells(rows: seq<Row>): (cells: seq<seq<Cell>>)
    ensures |cells| == |rows|
    ensures forall i :: 0 <= i < |rows| ==> cells[i] == RowCells(rows[i])
  {
    seq(|rows|, i requires 0 <= i < |rows| => RowCells(rows[i]))
  }

  /** The printed report of main, after its title line. */
  function Report(rows: seq<Row>): string {
    var t := ResultTable(ReportCells(rows), Headers);
    assert t.Success? by {
      TableLinesSucceeds(ReportCells(rows), Headers);
    }
    t.value
  }

  /** main after argument parsing: parse the sizes, collect the results,
      sort them and render the table. */
  method RunBenchmark(sizesArg: string, repeats: int, maxInsertion: int,
                      genRandom: int -> seq<int>, measure: Measure) returns (r: Result<string, BenchError>)
    ensures ParseSizes(sizesArg).Failure? ==> r == Failure(ParseSizes(sizesArg).error)
    ensures ParseSizes(sizesArg).Success? && repeats <= 0 && ParseSizes(sizesArg).value != [] ==>
      r == Failure(EmptyMedian)
    ensures ParseSizes(sizesArg).Success? && !(repeats <= 0 && ParseSizes(sizesArg).value != []) ==>
      r == Success(Report(SortedResults(Matrix(Cases, Setup(ParseSizes(sizesArg).value, repeats, maxInsertion, genRandom, measure)))))
  {
    var sizes :- ParseSizes(sizesArg);
    var setup := Setup(sizes, repeats, maxInsertion, genRandom, measure);
    var results :- CollectResults(setup);
    results := SortedResults(results);
    return Success(Report(results));
  }

  /** A cell text with no whitespace at either end. */
  predicate Trimmed(t: string) {
    t != [] && !IsSpace(t[0]) && !IsSpace(t[|t| - 1])
  }

  /** The case and algorithm names have no whitespace at their ends. */
  lemma NameTrimmed(name: string)
    requires name in Cases || name in Algorithms
    ensures Trimmed(name)
  {}

  /** Neither does a printed integer. */
  lemma IntToStringTrimmed(i: int)
    ensures Trimmed(IntToString(i))
  {
    var t := IntToString(i);
    if i < 0 {
      assert t == "-" + NatToString(-i);
    }
    assert IsDigit(t[|t| - 1]);
  }

  /** What fmt prints for the first three cells of a row. */
  lemma RowCellTexts(r: Row)
    ensures Fmt(RowCells(r)[0]) == r.caseName
    ensures Fmt(RowCells(r)[1]) == IntToString(r.n)
    ensures Fmt(RowCells(r)[2]) == r.algorithm
  {}

  /** A trimmed cell reads back from its column by stripping the padding. */
  lemma ReportCellReadsBack(rows: seq<Row>, i: nat, c: nat, t: string)
    requires i < |rows| && c < |Headers|
    requires Fmt(RowCells(rows[i])[c]) == t && Trimmed(t)
    ensures TableLines(ReportCells(rows), Headers).Success?
    ensures |TableLines(ReportCells(rows), Headers).value| == |rows| + 2
    ensures |TableLines(ReportCells(rows), Headers).value[i + 2]| == LineWidth(ColumnWidths(ReportCells(rows), Headers))
    ensures Strip(CellText(TableLines(ReportCells(rows), Headers).value[i + 2], ColumnWidths(ReportCells(rows), Headers), c)) == t
  {
    RowCell(ReportCells(rows), Headers, i, c);
    StripLjust(t, ColumnWidths(ReportCells(rows), Headers)[c]);
  }

  /** One row of the report reads back: line `i + 2` holds row `i`'s case,
      size and algorithm, each left-justified in its column. */
  lemma ReportRowReadsBack(rows: seq<Row>, i: nat)
    requires i < |rows| && rows[i].caseName in Cases && rows[i].algorithm in Algorithms
    ensures TableLines(ReportCells(rows), Headers).Success?
    ensures |TableLines(ReportCells(rows), Headers).value| == |rows| + 2
    ensures var line := TableLines(ReportCells(rows), Headers).value[i + 2];
      var ws := ColumnWidths(ReportCells(rows), Headers);
      && |line| == LineWidth(ws)
      && Strip(CellText(line, ws, 0)) == rows[i].caseName
      && ParseInt(Strip(CellText(line, ws, 1))) == Some(rows[i].n)
      && Strip(CellText(line, ws, 2)) == rows[i].algorithm
  {
    var r := rows[i];
    NameTrimmed(r.caseName);
    NameTrimmed(r.algorithm);
    IntToStringTrimmed(r.n);
    RowCellTexts(r);
    ReportCellReadsBack(rows, i, 0, r.caseName);
    ReportCellReadsBack(rows, i, 1, IntToString(r.n));
    ReportCellReadsBack(rows, i, 2, r.algorithm);
    ParseIntOfIntToString(r.n);
  }

  /** The printed table: `len(rows) + 2` lines of equal width with their
      `|` aligned, joined by newlines, and every row reads back from it. */
  lemma ReportReadsBack(rows: seq<Row>)
    requires forall i :: 0 <= i < |rows| ==> rows[i].caseName in Cases && rows[i].algorithm in Algorithms
    ensures TableLines(ReportCells(rows), Headers).Success?
    ensures Report(rows) == Join("\n", TableLines(ReportCells(rows), Headers).value)
    ensures |TableLines(ReportCells(rows), Headers).value| == |rows| + 2
    ensures Aligned(TableLines(ReportCells(rows), Headers).value, ColumnWidths(ReportCells(rows), Headers))
    ensures forall i :: 0 <= i < |rows| ==>
      var line := TableLines(ReportCells(rows), Headers).value[i + 2];
      var ws := ColumnWidths(ReportCells(rows), Headers);
      && |line| == LineWidth(ws)
      && Strip(CellText(line, ws, 0)) == rows[i].caseName
      && ParseInt(Strip(CellText(line, ws, 1))) == Some(rows[i].n)
      && Strip(CellText(line, ws, 2)) == rows[i].algorithm
  {
    TableLayout(ReportCells(rows), Headers);
    forall i | 0 <= i < |rows|
      ensures var line := TableLines(ReportCells(rows), Headers).value[i + 2];
        var ws := ColumnWidths(ReportCells(rows), Headers);
        && |line| == LineWidth(ws)
        && Strip(CellText(line, ws, 0)) == rows[i].caseName
        && ParseInt(Strip(CellText(line, ws, 1))) == Some(rows[i].n)
        && Strip(CellText(line, ws, 2)) == rows[i].algorithm
    {
      ReportRowReadsBack(rows, i);
    }
  }
}
