/** The pure and near-pure helpers of src/seg2map/common.py: grouping, nearest-neighbour
    scaling, yearly date ranges, UTM zone codes, list and config-name checks. */
module Common {
  import opened Outcomes
  import opened Text

  // ---------------------------------------------------------------------------
  // group_files

  function Min(a: int, b: int): int {
    if a <= b then a else b
  }

  /** `len(range(0, n, size))` for a positive step: the number of groups. */
  function GroupCount(n: nat, size: nat): nat
    requires size > 0
  {
    (n + size - 1) / size
  }

  /** `a == q * d + r` with `0 <= r < d` determines `a / d == q`. */
  lemma DivisionIsUnique(a: int, d: int, q: int, r: int)
    requires d > 0 && 0 <= r < d && a == q * d + r
    ensures a / d == q && a % d == r
  {
    var t := q - a / d;
    assert t * d == a % d - r;
    if t > 0 {
      assert false;
    } else if t < 0 {
      assert false;
    }
  }

  lemma MulMonotone(a: nat, b: nat, c: nat)
    requires a <= b
    ensures a * c <= b * c
  {
  }

  lemma MulSucc(g: int, size: int)
    ensures (g + 1) * size == g * size + size
  {
  }

  /** ceil(n / size) groups: together they cover n elements, one fewer would not. */
  lemma GroupCountBounds(n: nat, size: nat)
    requires size > 0
    ensures GroupCount(n, size) * size >= n
    ensures GroupCount(n, size) * size < n + size
  {
    var a := n + size - 1;
    var q := a / size;
    assert a == q * size + a % size;
  }

  /** One more block of `size` elements makes one more group. */
  lemma GroupCountStep(n: nat, size: nat)
    requires size > 0
    ensures GroupCount(n + size, size) == GroupCount(n, size) + 1
  {
    var a := n + size - 1;
    DivisionIsUnique(a + size, size, a / size + 1, a % size);
  }

  lemma GroupCountSmall(n: nat, size: nat)
    requires size > 0 && 0 < n <= size
    ensures GroupCount(n, size) == 1
    ensures GroupCount(0, size) == 0
  {
    DivisionIsUnique(n + size - 1, size, 1, n - 1);
    DivisionIsUnique(size - 1, size, 0, size - 1);
  }

  /** Every group starts inside the list. */
  lemma GroupStartInRange(n: nat, size: nat, g: nat)
    requires size > 0 && g < GroupCount(n, size)
    ensures g * size < n
  {
    GroupCountBounds(n, size);
    MulMonotone(g + 1, GroupCount(n, size), size);
    MulSucc(g, size);
  }

  /** The g-th group, `files[g * size : g * size + size]` (a slice clipped at the end). */
  function GroupAt<T>(files: seq<T>, size: nat, g: nat): seq<T>
    requires size > 0 && g < GroupCount(|files|, size)
  {
    GroupStartInRange(|files|, size, g);
    files[g * size..Min(g * size + size, |files|)]
  }

  /** The comprehension `[files[n : n + size] for n in range(0, len(files), size)]`. */
  function Groups<T>(files: seq<T>, size: nat): seq<seq<T>>
    requires size > 0
  {
    seq(GroupCount(|files|, size), g requires 0 <= g < GroupCount(|files|, size) => GroupAt(files, size, g))
  }

  /** `group_files(files, size)`: a zero step makes `range` raise ValueError and a negative
      step gives an empty range. */
  function GroupFiles<T>(files: seq<T>, size: int): (r: Result<seq<seq<T>>>)
    ensures size == 0 <==> r.Failure?
    ensures size < 0 ==> r == Success([])
  {
    if size == 0 then Failure(ValueError("range() arg 3 must not be zero"))
    else if size < 0 then Success([])
    else Success(Groups(files, size))
  }

  function Flatten<T>(groups: seq<seq<T>>): seq<T> {
    if groups == [] then [] else groups[0] + Flatten(groups[1..])
  }

  /** Past the first group, the groups of a list are the groups of its tail. */
  lemma GroupAtShift<T>(files: seq<T>, size: nat, g: nat)
    requires size > 0 && |files| > size && 0 < g < GroupCount(|files|, size)
    ensures GroupCount(|files| - size, size) == GroupCount(|files|, size) - 1
    ensures GroupAt(files, size, g) == GroupAt(files[size..], size, g - 1)
  {
    var n := |files|;
    GroupCountStep(n - size, size);
    GroupStartInRange(n, size, g);
    GroupStartInRange(n - size, size, g - 1);
    var s0, s1 := (g - 1) * size, g * size;
    MulSucc(g - 1, size);
    assert s1 == s0 + size;
    var e0, e1 := Min(s0 + size, n - size), Min(s1 + size, n);
    assert e1 == e0 + size;
    assert GroupAt(files, size, g) == files[s1..e1];
    assert GroupAt(files[size..], size, g - 1) == files[size..][s0..e0];
    assert files[size..][s0..e0] == files[s1..e1];
  }

  /** The groups of a non-empty list are its first `size` elements followed by the groups
      of the rest. */
  lemma GroupsUnfold<T>(files: seq<T>, size: nat)
    requires size > 0 && |files| > 0
    ensures var m := Min(size, |files|);
      Groups(files, size) == [files[..m]] + Groups(files[m..], size)
  {
    var n := |files|;
    var m := Min(size, n);
    var gs := Groups(files, size);
    var rest := Groups(files[m..], size);
    if n <= size {
      GroupCountSmall(n, size);
      assert |rest| == 0;
      assert gs[0] == files[..m];
    } else {
      GroupCountStep(n - size, size);
      forall g | 0 <= g < |gs|
        ensures gs[g] == ([files[..m]] + rest)[g]
      {
        if g > 0 {
          GroupAtShift(files, size, g);
        }
      }
    }
  }

  /** Concatenating the groups gives back the list. */
  lemma {:induction false} GroupsFlatten<T>(files: seq<T>, size: nat)
    requires size > 0
    ensures Flatten(Groups(files, size)) == files
    decreases |files|
  {
    if |files| == 0 {
      GroupCountSmall(size, size);
    } else {
      var m := Min(size, |files|);
      GroupsUnfold(files, size);
      var gs := Groups(files, size);
      assert gs[1..] == Groups(files[m..], size);
      GroupsFlatten(files[m..], size);
      assert files == files[..m] + files[m..];
    }
  }

  /** Group g holds `size` elements when a later group exists, and 1 to `size` otherwise. */
  lemma GroupAtSize<T>(files: seq<T>, size: nat, g: nat)
    requires size > 0 && g < GroupCount(|files|, size)
    ensures g + 1 < GroupCount(|files|, size) ==> |GroupAt(files, size, g)| == size
    ensures 1 <= |GroupAt(files, size, g)| <= size
  {
    var n := |files|;
    var s := g * size;
    GroupStartInRange(n, size, g);
    MulSucc(g, size);
    if g + 1 < GroupCount(n, size) {
      GroupStartInRange(n, size, g + 1);
      assert s + size < n;
    }
  }

  /** Every group except the last holds `size` elements, the last holds 1 to `size`, and
      there are ceil(len(files) / size) groups. */
  lemma GroupSizes<T>(files: seq<T>, size: nat)
    requires size > 0
    ensures var gs := Groups(files, size);
      && |gs| * size >= |files|
      && (|gs| > 0 ==> (|gs| - 1) * size < |files|)
      && (forall g :: 0 <= g < |gs| - 1 ==> |gs[g]| == size)
      && (|gs| > 0 ==> 1 <= |gs[|gs| - 1]| <= size)
  {
    var n := |files|;
    var gs := Groups(files, size);
    var q := |gs|;
    GroupCountBounds(n, size);
    forall g | 0 <= g < q - 1
      ensures |gs[g]| == size
    {
      GroupAtSize(files, size, g);
    }
    if q > 0 {
      GroupAtSize(files, size, q - 1);
      GroupStartInRange(n, size, q - 1);
    }
  }

  // ---------------------------------------------------------------------------
  // scale

  /** A 2-D numpy array: every row has the length of the first. */
  predicate Rectangular(m: seq<seq<int>>) {
    forall i :: 0 <= i < |m| ==> |m[i]| == |m[0]|
  }

  /** `int(src * i / n)`: the source index nearest-neighbour scaling reads for index i. */
  function ScaledIndex(src: nat, i: nat, n: nat): (k: nat)
    requires i < n
    ensures k * n <= src * i < (k + 1) * n
    ensures src > 0 ==> k < src
  {
    var k := src * i / n;
    assert src * i == k * n + (src * i) % n;
    if src > 0 then
      assert k < src by {
        if k >= src {
          MulMonotone(src, k, n);
          assert src * n <= k * n;
          MulStrict(i, n, src);
        }
      }
      k
    else k
  }

  lemma MulStrict(i: nat, n: nat, src: nat)
    requires i < n && src > 0
    ensures src * i < src * n
  {
  }

  /** `scale(matrix, rows, cols)`: `matrix[0]` raises IndexError on an empty matrix, and
      so does `matrix[..][0]` on a matrix of empty rows once an entry is read. */
  function Scale(matrix: seq<seq<int>>, rows: nat, cols: nat): (r: Result<seq<seq<int>>>)
    requires Rectangular(matrix)
    ensures r.Failure? <==> |matrix| == 0 || (rows > 0 && cols > 0 && |matrix[0]| == 0)
    ensures r.Failure? ==> r.error == IndexError
    ensures r.Success? ==> |r.value| == rows && forall i :: 0 <= i < rows ==> |r.value[i]| == cols
  {
    if |matrix| == 0 then Failure(IndexError)
    else if rows > 0 && cols > 0 && |matrix[0]| == 0 then Failure(IndexError)
    else
      var srcRows, srcCols := |matrix|, |matrix[0]|;
      Success(seq(rows, r requires 0 <= r < rows =>
        seq(cols, c requires 0 <= c < cols =>
          matrix[ScaledIndex(srcRows, r, rows)][ScaledIndex(srcCols, c, cols)])))
  }

  /** Entry (r, c) of the result is the source entry at the scaled row and column, and those
      indices are in range; hence every output value occurs in the input. */
  lemma ScaleEntry(matrix: seq<seq<int>>, rows: nat, cols: nat, r: nat, c: nat)
    requires Rectangular(matrix) && Scale(matrix, rows, cols).Success?
    requires r < rows && c < cols
    ensures var sr, sc := ScaledIndex(|matrix|, r, rows), ScaledIndex(|matrix[0]|, c, cols);
      && sr < |matrix| && sc < |matrix[sr]|
      && Scale(matrix, rows, cols).value[r][c] == matrix[sr][sc]
  {
  }

  /** Every value of the scaled matrix occurs in the source matrix. */
  lemma ScaleValuesFromInput(matrix: seq<seq<int>>, rows: nat, cols: nat, r: nat, c: nat)
    requires Rectangular(matrix) && Scale(matrix, rows, cols).Success?
    requires r < rows && c < cols
    ensures exists i, j ::
      0 <= i < |matrix| && 0 <= j < |matrix[i]| && matrix[i][j] == Scale(matrix, rows, cols).value[r][c]
  {
    ScaleEntry(matrix, rows, cols, r, c);
    var sr, sc := ScaledIndex(|matrix|, r, rows), ScaledIndex(|matrix[0]|, c, cols);
    assert matrix[sr][sc] == Scale(matrix, rows, cols).value[r][c];
  }

  /** Scaling to the source's own shape returns the source. */
  lemma ScaleIdentity(matrix: seq<seq<int>>)
    requires Rectangular(matrix) && |matrix| > 0
    ensures Scale(matrix, |matrix|, |matrix[0]|) == Success(matrix)
  {
    var n, m := |matrix|, |matrix[0]|;
    var s := Scale(matrix, n, m).value;
    assert |s| == n;
    forall r | 0 <= r < n
      ensures s[r] == matrix[r]
    {
      assert ScaledIndex(n, r, n) == r by { IndexScalesToItself(n, r); }
      assert |s[r]| == m == |matrix[r]|;
      forall c | 0 <= c < m
        ensures s[r][c] == matrix[r][c]
      {
        IndexScalesToItself(m, c);
      }
    }
    assert s == matrix;
  }

  lemma IndexScalesToItself(n: nat, i: nat)
    requires i < n
    ensures ScaledIndex(n, i, n) == i
  {
    DivisionIsUnique(n * i, n, i, 0);
  }

  // ---------------------------------------------------------------------------
  // get_yearly_ranges

  /** A date as `datetime.strptime(..., '%Y-%m-%d')` parses it (at midnight). */
  datatype Date = Date(year: int, month: int, day: int)

  /** `get_yearly_ranges([start, end])` on already-parsed dates: one (start, end) pair per
      calendar year from the start's year to the end's, clipped to the two dates. */
  method GetYearlyRanges(startDate: Date, endDate: Date) returns (yearRanges: seq<(Date, Date)>)
    ensures |yearRanges| == if startDate.year <= endDate.year then endDate.year - startDate.year + 1 else 0
    ensures |yearRanges| > 0 ==> yearRanges[0].0 == startDate && yearRanges[|yearRanges| - 1].1 == endDate
    ensures forall i :: 0 < i < |yearRanges| ==> yearRanges[i].0 == Date(startDate.year + i, 1, 1)
    ensures forall i :: 0 <= i < |yearRanges| - 1 ==> yearRanges[i].1 == Date(startDate.year + i, 12, 31)
  {
    yearRanges := [];
    var year := startDate.year;
    while year < endDate.year + 1
      invariant startDate.year <= year
      invariant year == startDate.year || year <= endDate.year + 1
      invariant |yearRanges| == year - startDate.year
      invariant |yearRanges| > 0 ==> yearRanges[0].0 == startDate
      invariant forall i :: 0 < i < |yearRanges| ==> yearRanges[i].0 == Date(startDate.year + i, 1, 1)
      invariant forall i :: 0 <= i < |yearRanges| ==>
        yearRanges[i].1 == if startDate.year + i == endDate.year then endDate else Date(startDate.year + i, 12, 31)
      decreases endDate.year + 1 - year
    {
      var yearStart := Date(year, 1, 1);
      var yearEnd := Date(year, 12, 31);
      if year == startDate.year {
        yearStart := startDate;
      }
      if year == endDate.year {
        yearEnd := endDate;
      }
      yearRanges := yearRanges + [(yearStart, yearEnd)];
      year := year + 1;
    }
  }

  // ---------------------------------------------------------------------------
  // convert_wgs_to_utm

  /** `(math.floor((lon + 180) / 6) % 60) + 1`; Python's `%` by a positive divisor is never
      negative, like Dafny's. */
  function UtmBand(lon: real): (band: int)
    ensures 1 <= band <= 60
  {
    ((lon + 180.0) / 6.0).Floor % 60 + 1
  }

  /** `convert_wgs_to_utm(lon, lat)` as written: the padding test `len(utm_band) == "1"`
      compares an int with a str, is never true, and bands 1 to 9 stay one digit long. */
  function ConvertWgsToUtmAsWritten(lon: real, lat: real): (code: string)
    ensures |code| == if UtmBand(lon) < 10 then 4 else 5
    ensures code[..3] == if lat >= 0.0 then "326" else "327"
    ensures AllDigits(code[3..]) && DecimalValue(code[3..]) == UtmBand(lon)
  {
    var utmBand := NatToString(UtmBand(lon));
    NatToStringLength(UtmBand(lon));
    DecimalRoundTrip(UtmBand(lon));
    var code := if lat >= 0.0 then "326" + utmBand else "327" + utmBand;
    assert code[3..] == utmBand;
    code
  }

  /** The zone number padded to two digits. */
  function ZeroPadded(band: nat): (s: string)
    requires 1 <= band <= 60
    ensures |s| == 2 && AllDigits(s) && DecimalValue(s) == band
  {
    var digits := NatToString(band);
    NatToStringLength(band);
    DecimalRoundTrip(band);
    if |digits| == 1 then
      DecimalValueAppend("0", digits);
      "0" + digits
    else digits
  }

  /** `convert_wgs_to_utm` with the padding the test evidently intends: the five-digit EPSG
      code 326zz (north, lat >= 0) or 327zz (south) of UTM zone zz. */
  function ConvertWgsToUtm(lon: real, lat: real): (code: string)
    ensures |code| == 5 && AllDigits(code)
    ensures DecimalValue(code) == (if lat >= 0.0 then 32600 else 32700) + UtmBand(lon)
  {
    var utmBand := ZeroPadded(UtmBand(lon));
    var prefix := if lat >= 0.0 then "326" else "327";
    HemispherePrefixes();
    DecimalValueAppend(prefix, utmBand);
    prefix + utmBand
  }

  lemma HemispherePrefixes()
    ensures AllDigits("326") && DecimalValue("326") == 326
    ensures AllDigits("327") && DecimalValue("327") == 327
    ensures Pow10(2) == 100
  {
    assert "326"[..2] == "32" && "32"[..1] == "3" && "3"[..0] == "";
    assert "327"[..2] == "32";
  }

  /** The hemisphere and zone read back from a corrected code. */
  lemma UtmCodeRoundTrip(lon: real, lat: real)
    ensures var v := DecimalValue(ConvertWgsToUtm(lon, lat));
      && (v / 100 == 326 <==> lat >= 0.0)
      && v % 100 == UtmBand(lon)
  {
    var v := DecimalValue(ConvertWgsToUtm(lon, lat));
    var h := if lat >= 0.0 then 326 else 327;
    DivisionIsUnique(v, 100, h, UtmBand(lon));
  }

  /** From zone 10 on, the code as written and the corrected code agree. */
  lemma UtmAsWrittenAgreesFromZoneTen(lon: real, lat: real)
    requires UtmBand(lon) >= 10
    ensures ConvertWgsToUtmAsWritten(lon, lat) == ConvertWgsToUtm(lon, lat)
  {
    NatToStringLength(UtmBand(lon));
  }

  /** In every zone from 1 to 9 the code as written has four characters, so it is never
      the five-digit EPSG code. */
  lemma UtmAsWrittenShortBelowTen(lon: real, lat: real)
    requires UtmBand(lon) < 10
    ensures |ConvertWgsToUtmAsWritten(lon, lat)| == 4
    ensures ConvertWgsToUtmAsWritten(lon, lat) != ConvertWgsToUtm(lon, lat)
  {
  }

  /** Longitude -177 lies in zone 1: the code as written yields "3261", a four-digit string
      that is not the EPSG code 32601 of zone 1 north. */
  lemma UtmZoneOneUnpadded()
    ensures ConvertWgsToUtmAsWritten(-177.0, 10.0) == "3261"
    ensures ConvertWgsToUtm(-177.0, 10.0) == "32601"
  {
    assert ((-177.0 + 180.0) / 6.0).Floor == 0;
    assert UtmBand(-177.0) == 1;
    assert NatToString(1) == "1";
    NatToStringLength(1);
  }

  // ---------------------------------------------------------------------------
  // is_list_empty

  /** `is_list_empty(main_list)`: every element has length 0 (the loop does not stop early). */
  method IsListEmpty<T>(mainList: seq<seq<T>>) returns (allEmpty: bool)
    ensures allEmpty <==> forall i :: 0 <= i < |mainList| ==> |mainList[i]| == 0
  {
    allEmpty := true;
    for i := 0 to |mainList|
      invariant allEmpty <==> forall j :: 0 <= j < i ==> |mainList[j]| == 0
    {
      if |mainList[i]| != 0 {
        allEmpty := false;
      }
    }
  }

  // ---------------------------------------------------------------------------
  // find_config_json

  /** ".json", in any case, occurs at index j. */
  predicate JsonAt(s: string, j: int) {
    0 <= j && j + 5 <= |s| && Lower(s[j..j + 5]) == ".json"
  }

  /** No newline (the one character `.` does not match) in `s[i:j]`. */
  predicate NoNewline(s: string, i: int, j: int) {
    forall m :: i <= m < j && 0 <= m < |s| ==> s[m] != '\n'
  }

  /** What `re.compile(r"config.*\.json", re.IGNORECASE).match(name)` accepts: the name
      starts with "config" in any case, and further on, after characters that are not a
      newline, comes ".json" in any case. */
  ghost predicate MatchesConfigRegex(name: string) {
    && |name| >= 6 && Lower(name[..6]) == "config"
    && exists j :: 6 <= j && JsonAt(name, j) && NoNewline(name, 6, j)
  }

  /** A left-to-right scan for ".json" from index i, stopping at a newline. */
  function JsonFollows(s: string, i: nat): bool
    decreases |s| - i
  {
    if i + 5 > |s| then false
    else if Lower(s[i..i + 5]) == ".json" then true
    else if s[i] == '\n' then false
    else JsonFollows(s, i + 1)
  }

  function ConfigNameMatches(name: string): bool {
    |name| >= 6 && Lower(name[..6]) == "config" && JsonFollows(name, 6)
  }

  /** The scan finds ".json" at some j >= i with no newline in between. */
  lemma {:induction false} JsonFollowsCorrect(s: string, i: nat)
    ensures JsonFollows(s, i) <==> exists j :: i <= j && JsonAt(s, j) && NoNewline(s, i, j)
    decreases |s| - i
  {
    if i + 5 > |s| {
      forall j | i <= j ensures !JsonAt(s, j) { }
    } else if JsonAt(s, i) {
      assert NoNewline(s, i, i);
    } else if s[i] == '\n' {
      forall j | i <= j && JsonAt(s, j) ensures !NoNewline(s, i, j) {
        assert i < j && s[i] == '\n';
      }
    } else {
      JsonFollowsCorrect(s, i + 1);
      if JsonFollows(s, i + 1) {
        var j :| i + 1 <= j && JsonAt(s, j) && NoNewline(s, i + 1, j);
        assert NoNewline(s, i, j);
      } else {
        forall j | i <= j && JsonAt(s, j) ensures !NoNewline(s, i, j) {
          assert j != i;
          assert !NoNewline(s, i + 1, j);
        }
      }
    }
  }

  /** The executable test agrees with the regular expression. */
  lemma ConfigNameMatchesRegex(name: string)
    ensures ConfigNameMatches(name) <==> MatchesConfigRegex(name)
  {
    if |name| >= 6 {
      JsonFollowsCorrect(name, 6);
    }
  }

  /** `find_config_json(search_path)`, with `names` the directory listing in the order
      `os.listdir` returns it: the first matching name joined to the directory, or
      FileNotFoundError. */
  method FindConfigJson(searchPath: string, names: seq<string>) returns (r: Result<string>)
    ensures r.Success? <==> exists i :: 0 <= i < |names| && MatchesConfigRegex(names[i])
    ensures r.Success? ==> exists k ::
      && 0 <= k < |names| && MatchesConfigRegex(names[k])
      && (forall j :: 0 <= j < k ==> !MatchesConfigRegex(names[j]))
      && r.value == Join(searchPath, names[k])
    ensures r.Failure? ==> r.error == FileNotFoundError(searchPath)
  {
    for i := 0 to |names|
      invariant forall j :: 0 <= j < i ==> !MatchesConfigRegex(names[j])
    {
      ConfigNameMatchesRegex(names[i]);
      if ConfigNameMatches(names[i]) {
        return Success(Join(searchPath, names[i]));
      }
    }
    return Failure(FileNotFoundError(searchPath));
  }
}
