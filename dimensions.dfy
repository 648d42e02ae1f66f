/**
  `parse_dimensions` and the fit, score, verdict and ordering logic of
  `package_matching`: integer boxes of three sides, compared side by side
  after sorting.
 */
module Dimensions {
  import opened Wrappers

  // ---------------------------------------------------------------------
  // Digit runs (`re.findall(r'\d+', s)`)

  predicate IsDigit(c: char) {
    '0' <= c <= '9'
  }

  predicate AllDigits(s: string) {
    forall k :: 0 <= k < |s| ==> IsDigit(s[k])
  }

  /** The length of the run of digits at the front of `s`. */
  function DigitPrefix(s: string): (n: nat)
    ensures n <= |s|
    ensures forall k :: 0 <= k < n ==> IsDigit(s[k])
    ensures n < |s| ==> !IsDigit(s[n])
  {
    if s != [] && IsDigit(s[0]) then 1 + DigitPrefix(s[1..]) else 0
  }

  /** The maximal runs of digits, left to right, as the regular expression
      `\d+` finds them. */
  function DigitRuns(s: string): (r: seq<string>)
    ensures forall k :: 0 <= k < |r| ==> r[k] != [] && AllDigits(r[k])
    decreases |s|
  {
    if s == [] then []
    else if !IsDigit(s[0]) then DigitRuns(s[1..])
    else
      var n := DigitPrefix(s);
      [s[..n]] + DigitRuns(s[n..])
  }

  /** The digits of `s`, in order. */
  function Digits(s: string): string {
    if s == [] then [] else (if IsDigit(s[0]) then [s[0]] else []) + Digits(s[1..])
  }

  function Concat(parts: seq<string>): string {
    if parts == [] then [] else parts[0] + Concat(parts[1..])
  }

  lemma {:induction false} DigitsAppend(a: string, b: string)
    ensures Digits(a + b) == Digits(a) + Digits(b)
    decreases |a|
  {
    if a != [] {
      assert (a + b)[1..] == a[1..] + b;
      DigitsAppend(a[1..], b);
    } else {
      assert a + b == b;
    }
  }

  lemma AllDigitsAreKept(d: string)
    requires AllDigits(d)
    ensures Digits(d) == d
    decreases |d|
  {
    if d != [] {
      AllDigitsAreKept(d[1..]);
    }
  }

  /** No digit is lost and none is reordered: the runs put back together
      are the digits of the string. */
  lemma {:induction false} DigitRunsCoverDigits(s: string)
    ensures Concat(DigitRuns(s)) == Digits(s)
    decreases |s|
  {
    if s != [] {
      if !IsDigit(s[0]) {
        DigitRunsCoverDigits(s[1..]);
      } else {
        var n := DigitPrefix(s);
        assert s == s[..n] + s[n..];
        DigitRunsCoverDigits(s[n..]);
        DigitsAppend(s[..n], s[n..]);
        AllDigitsAreKept(s[..n]);
        assert [s[..n]] + DigitRuns(s[n..]) == DigitRuns(s);
      }
    }
  }

  /** The digit run at the front of `u + w` stops where the one of `u`
      stops, unless it fills `u`. */
  lemma {:induction false} DigitPrefixAppend(u: string, w: string)
    ensures DigitPrefix(u + w) == if DigitPrefix(u) < |u| then DigitPrefix(u) else |u| + DigitPrefix(w)
    decreases |u|
  {
    if u == [] {
      assert u + w == w;
    } else if IsDigit(u[0]) {
      assert (u + w)[1..] == u[1..] + w;
      DigitPrefixAppend(u[1..], w);
    }
  }

  /** A non-digit separates: the runs on each side of it are found
      independently. */
  lemma {:induction false} DigitRunsSeparate(u: string, x: char, v: string)
    requires !IsDigit(x)
    ensures DigitRuns(u + [x] + v) == DigitRuns(u) + DigitRuns(v)
    decreases |u|
  {
    var s := u + [x] + v;
    if u == [] {
      assert s == [x] + v;
      assert s[1..] == v;
    } else if !IsDigit(u[0]) {
      assert s[1..] == u[1..] + [x] + v;
      DigitRunsSeparate(u[1..], x, v);
    } else {
      var n := DigitPrefix(u);
      assert s == u + ([x] + v);
      DigitPrefixAppend(u, [x] + v);
      assert DigitPrefix(s) == n;
      assert s[..n] == u[..n];
      if n < |u| {
        assert s[n..] == u[n..] + [x] + v;
        DigitRunsSeparate(u[n..], x, v);
      } else {
        assert u[..n] == u;
        assert s[n..] == [x] + v;
        assert ([x] + v)[1..] == v;
        assert u[n..] == [];
      }
    }
  }

  /** A string of digits alone is one run. */
  lemma OneRun(d: string)
    requires d != [] && AllDigits(d)
    ensures DigitRuns(d) == [d]
  {
    assert DigitPrefix(d) == |d| by {
      DigitPrefixAppend(d, []);
      assert d + [] == d;
      OneRunPrefix(d);
    }
    assert d[..|d|] == d;
    assert d[|d|..] == [];
  }

  lemma {:induction false} OneRunPrefix(d: string)
    requires AllDigits(d)
    ensures DigitPrefix(d) == |d|
    decreases |d|
  {
    if d != [] {
      OneRunPrefix(d[1..]);
    }
  }

  // ---------------------------------------------------------------------
  // Decimal numerals (`int(x)`)

  /** The value of a numeral, leading zeros allowed: it is zero exactly
      when every digit is `0`. */
  function Value(s: string): (n: nat)
    requires AllDigits(s)
    ensures n == 0 <==> forall k :: 0 <= k < |s| ==> s[k] == '0'
  {
    if s == [] then 0 else 10 * Value(s[..|s| - 1]) + (s[|s| - 1] as int - '0' as int)
  }

  /** The shortest numeral of `n`. */
  function Decimal(n: nat): (r: string)
    ensures r != [] && AllDigits(r)
  {
    var d := ['0' + (n % 10) as char];
    if n < 10 then d else Decimal(n / 10) + d
  }

  lemma {:induction false} ValueOfDecimal(n: nat)
    ensures Value(Decimal(n)) == n
  {
    var d := Decimal(n);
    if n >= 10 {
      ValueOfDecimal(n / 10);
      assert d[..|d| - 1] == Decimal(n / 10);
    }
  }

  /** `parse_dimensions`: the values of the first three digit runs, or
      nothing when there are fewer than three. */
  function ParseDimensions(s: string): (r: Option<seq<nat>>)
    ensures r.Some? <==> |DigitRuns(s)| >= 3
    ensures r.Some? ==> |r.value| == 3
    ensures r.Some? ==> forall k :: 0 <= k < 3 ==> r.value[k] == Value(DigitRuns(s)[k])
  {
    var runs := DigitRuns(s);
    if |runs| >= 3 then Some([Value(runs[0]), Value(runs[1]), Value(runs[2])]) else None
  }

  /** A numeral followed by anything that does not continue it is a run of
      its own. */
  lemma NumeralThen(d: string, tail: string)
    requires d != [] && AllDigits(d)
    requires tail == [] || !IsDigit(tail[0])
    ensures DigitRuns(d + tail) == [d] + DigitRuns(tail)
  {
    OneRun(d);
    if tail == [] {
      assert d + tail == d;
    } else {
      assert d + tail == d + [tail[0]] + tail[1..];
      DigitRunsSeparate(d, tail[0], tail[1..]);
      assert tail == [] + [tail[0]] + tail[1..];
      DigitRunsSeparate([], tail[0], tail[1..]);
    }
  }

  /** A numeral followed by a non-digit is the first run, whatever comes
      after the separator. */
  lemma NumeralSep(d: string, x: char, m: string)
    requires d != [] && AllDigits(d) && !IsDigit(x)
    ensures DigitRuns(d + [x] + m) == [d] + DigitRuns(m)
  {
    OneRun(d);
    DigitRunsSeparate(d, x, m);
  }

  lemma ConsThree<T>(p: T, q: T, r: T, rest: seq<T>)
    ensures [p] + ([q] + ([r] + rest)) == [p, q, r] + rest
  {
  }

  lemma RunsOfWritten(p: string, x: char, q: string, y: char, r: string, tail: string)
    requires p != [] && AllDigits(p) && q != [] && AllDigits(q) && r != [] && AllDigits(r)
    requires !IsDigit(x) && !IsDigit(y)
    requires tail == [] || !IsDigit(tail[0])
    ensures DigitRuns(p + [x] + q + [y] + r + tail) == [p, q, r] + DigitRuns(tail)
  {
    Regroup(p, x, q, y, r, tail);
    NumeralThen(r, tail);
    NumeralSep(q, y, r + tail);
    NumeralSep(p, x, q + [y] + (r + tail));
    ConsThree(p, q, r, DigitRuns(tail));
  }

  /** Three numbers written with any non-digit separators, and any tail
      that does not continue the last numeral, read back as themselves. */
  lemma ParseWrittenDimensions(a: nat, x: char, b: nat, y: char, c: nat, tail: string)
    requires !IsDigit(x) && !IsDigit(y)
    requires tail == [] || !IsDigit(tail[0])
    ensures ParseDimensions(Decimal(a) + [x] + Decimal(b) + [y] + Decimal(c) + tail) == Some([a, b, c])
  {
    RunsOfWritten(Decimal(a), x, Decimal(b), y, Decimal(c), tail);
    ValueOfDecimal(a);
    ValueOfDecimal(b);
    ValueOfDecimal(c);
  }

  lemma Regroup(p: string, x: char, q: string, y: char, r: string, tail: string)
    ensures p + [x] + q + [y] + r + tail == p + [x] + (q + [y] + (r + tail))
  {
  }

  // ---------------------------------------------------------------------
  // Sorting three sides (`sorted(dims)`)

  predicate Ascending3(d: seq<int>)
    requires |d| == 3
  {
    d[0] <= d[1] <= d[2]
  }

  /** The six ways to turn a box of three sides: its sides listed in every
      order. */
  function Orientations(d: seq<int>): seq<seq<int>>
    requires |d| == 3
  {
    [[d[0], d[1], d[2]], [d[0], d[2], d[1]], [d[1], d[0], d[2]],
     [d[1], d[2], d[0]], [d[2], d[0], d[1]], [d[2], d[1], d[0]]]
  }

  /** `sorted` on a list of three integers: the same sides, ascending. */
  function Sort3(d: seq<int>): (r: seq<int>)
    requires |d| == 3
    ensures |r| == 3 && Ascending3(r)
  {
    var a, b, c := d[0], d[1], d[2];
    if a <= b then
      if b <= c then [a, b, c] else if a <= c then [a, c, b] else [c, a, b]
    else
      if a <= c then [b, a, c] else if b <= c then [b, c, a] else [c, b, a]
  }

  /** Sorting only reorders the sides. */
  lemma SortTurns(d: seq<int>)
    requires |d| == 3
    ensures Sort3(d) in Orientations(d)
  {
  }

  /** The ascending order of the sides is the only one: any listing of the
      sides that ascends is the sorted one. */
  lemma SortUnique(d: seq<int>, r: seq<int>)
    requires |d| == 3 && r in Orientations(d) && Ascending3(r)
    ensures r == Sort3(d)
  {
  }

  /** Listing the sides of a box in another order does not change its
      sorted form. */
  lemma SortIgnoresTurn(d: seq<int>, e: seq<int>)
    requires |d| == 3 && e in Orientations(d)
    ensures Sort3(e) == Sort3(d)
  {
  }

  lemma TurnTwice(d: seq<int>, p: seq<int>, o: seq<int>)
    requires |d| == 3 && p in Orientations(d) && o in Orientations(p)
    ensures o in Orientations(d)
  {
  }

  // ---------------------------------------------------------------------
  // Fit, score and verdict

  /** The slack on each side once both boxes are sorted (`diffs`). */
  function Slacks(product: seq<int>, box: seq<int>): (g: seq<int>)
    requires |product| == 3 && |box| == 3
    ensures |g| == 3
  {
    var p, q := Sort3(product), Sort3(box);
    [q[0] - p[0], q[1] - p[1], q[2] - p[2]]
  }

  /** The product goes into the box: no slack is negative. */
  predicate Fits(product: seq<int>, box: seq<int>)
    requires |product| == 3 && |box| == 3
  {
    var g := Slacks(product, box);
    g[0] >= 0 && g[1] >= 0 && g[2] >= 0
  }

  predicate Within(o: seq<int>, box: seq<int>)
    requires |o| == 3 && |box| == 3
  {
    o[0] <= box[0] && o[1] <= box[1] && o[2] <= box[2]
  }

  /** Boxes that lie within one another side by side still do once both
      are sorted. */
  lemma SortMonotone(o: seq<int>, box: seq<int>)
    requires |o| == 3 && |box| == 3 && Within(o, box)
    ensures Within(Sort3(o), Sort3(box))
  {
  }

  /** Sorting both boxes finds a fit exactly when the product, turned some
      way, lies side by side within the box as it is given: comparing the
      sorted sides is the orientation check done once for all six turns. */
  lemma FitsIffSomeOrientation(product: seq<int>, box: seq<int>)
    requires |product| == 3 && |box| == 3
    ensures Fits(product, box) <==>
            exists o :: o in Orientations(product) && Within(o, box)
  {
    if Fits(product, box) {
      var o := OrientationInto(product, box);
    }
    if o :| o in Orientations(product) && Within(o, box) {
      SortMonotone(o, box);
      SortIgnoresTurn(product, o);
    }
  }

  /** The turn of the product that lines its sides up with the box's sides
      in the same rank order. */
  lemma OrientationInto(product: seq<int>, box: seq<int>) returns (o: seq<int>)
    requires |product| == 3 && |box| == 3
    requires Fits(product, box)
    ensures o in Orientations(product) && Within(o, box)
  {
    var a, b, c := box[0], box[1], box[2];
    var p := Sort3(product);
    if a <= b && b <= c { o := [p[0], p[1], p[2]]; }
    else if a <= c && c <= b { o := [p[0], p[2], p[1]]; }
    else if b <= a && a <= c { o := [p[1], p[0], p[2]]; }
    else if b <= c && c <= a { o := [p[2], p[0], p[1]]; }
    else if c <= a && a <= b { o := [p[1], p[2], p[0]]; }
    else { o := [p[2], p[1], p[0]]; }
    assert o in Orientations(p);
    SortTurns(product);
    TurnTwice(product, p, o);
  }

  function Min3(g: seq<int>): (m: int)
    requires |g| == 3
    ensures m in g && forall k :: 0 <= k < 3 ==> m <= g[k]
  {
    if g[0] <= g[1] && g[0] <= g[2] then g[0] else if g[1] <= g[2] then g[1] else g[2]
  }

  function Max3(g: seq<int>): (m: int)
    requires |g| == 3
    ensures m in g && forall k :: 0 <= k < 3 ==> g[k] <= m
  {
    if g[0] >= g[1] && g[0] >= g[2] then g[0] else if g[1] >= g[2] then g[1] else g[2]
  }

  datatype Verdict = Optimal | Check

  /** The rule of thumb on the slacks: a box is judged optimal exactly when
      every side has between 5 and 15 units of slack. */
  function VerdictOf(g: seq<int>): (v: Verdict)
    requires |g| == 3
    ensures v == Optimal <==> forall k :: 0 <= k < 3 ==> 5 <= g[k] <= 15
  {
    if 5 <= Min3(g) && Max3(g) <= 15 then Optimal else Check
  }

  /** A row of the package table: its name and its size text. */
  datatype Package = Package(name: string, size: string)

  /** `match_info`. */
  datatype Match = Match(name: string, size: string, gap: seq<int>, totalGap: int, verdict: Verdict)

  /** The fit test for one package, and the match it contributes: a
      package is kept exactly when its size can be read and the product
      fits. */
  function Evaluate(product: seq<nat>, pkg: Package): (r: Option<Match>)
    requires |product| == 3
    ensures r.Some? <==> ParseDimensions(pkg.size).Some? && Fits(product, ParseDimensions(pkg.size).value)
  {
    match ParseDimensions(pkg.size)
    case None => None
    case Some(box) =>
      if Fits(product, box) then
        var g := Slacks(product, box);
        Some(Match(pkg.name, pkg.size, g, g[0] + g[1] + g[2], VerdictOf(g)))
      else None
  }

  /** A kept package carries its own name and size, three slacks that are
      not negative, their sum as its score, and the verdict of the rule of
      thumb. */
  lemma EvaluateMeaning(product: seq<nat>, pkg: Package)
    requires |product| == 3
    ensures var r := Evaluate(product, pkg);
            r.Some? ==>
              && r.value.name == pkg.name && r.value.size == pkg.size
              && |r.value.gap| == 3
              && (forall k :: 0 <= k < 3 ==> r.value.gap[k] >= 0)
              && r.value.totalGap == r.value.gap[0] + r.value.gap[1] + r.value.gap[2]
              && (r.value.verdict == Optimal <==> forall k :: 0 <= k < 3 ==> 5 <= r.value.gap[k] <= 15)
  {
  }

  /** Slacks, and so the fit, do not depend on the order in which the
      sides of either box are written. */
  lemma SlacksIgnoreOrder(product: seq<int>, product': seq<int>, box: seq<int>, box': seq<int>)
    requires |product| == 3 && |box| == 3
    requires product' in Orientations(product) && box' in Orientations(box)
    ensures Slacks(product', box') == Slacks(product, box)
    ensures Fits(product', box') <==> Fits(product, box)
  {
    SortIgnoresTurn(product, product');
    SortIgnoresTurn(box, box');
  }

  /** Whichever order the product's sides are listed in, every package
      gets the same outcome. */
  lemma EvaluateIgnoresProductOrder(product: seq<nat>, product': seq<nat>, pkg: Package)
    requires |product| == 3 && product' in Orientations(product)
    ensures Evaluate(product', pkg) == Evaluate(product, pkg)
  {
    match ParseDimensions(pkg.size)
    case None =>
    case Some(box) =>
      assert box == Orientations(box)[0];
      SlacksIgnoreOrder(product, product', box, box);
  }

  /** The outcome of the fit test for each package, in package order. */
  function Outcomes(product: seq<nat>, packages: seq<Package>): (os: seq<Option<Match>>)
    requires |product| == 3
    ensures |os| == |packages|
  {
    seq(|packages|, i requires 0 <= i < |packages| => Evaluate(product, packages[i]))
  }

  /** The matches among some outcomes, in order. */
  function Somes(os: seq<Option<Match>>): (r: seq<Match>)
    ensures |r| <= |os|
  {
    if os == [] then []
    else
      var front := Somes(os[..|os| - 1]);
      match os[|os| - 1]
      case None => front
      case Some(m) => front + [m]
  }

  /** The matches of the packages that fit, in package order (the loop
      that appends to `matches`). */
  function Kept(product: seq<nat>, packages: seq<Package>): seq<Match>
    requires |product| == 3
  {
    Somes(Outcomes(product, packages))
  }

  lemma {:induction false} SomesMembers(os: seq<Option<Match>>, m: Match)
    ensures m in Somes(os) <==> Some(m) in os
    decreases |os|
  {
    if os != [] {
      var front := os[..|os| - 1];
      SomesMembers(front, m);
      assert os == front + [os[|os| - 1]];
    }
  }

  /** Exactly the packages that fit contribute a match. */
  lemma KeptMembers(product: seq<nat>, packages: seq<Package>, m: Match)
    requires |product| == 3
    ensures m in Kept(product, packages) <==>
            exists i :: 0 <= i < |packages| && Evaluate(product, packages[i]) == Some(m)
  {
    var os := Outcomes(product, packages);
    SomesMembers(os, m);
    if Some(m) in os {
      var i :| 0 <= i < |os| && os[i] == Some(m);
      assert Evaluate(product, packages[i]) == Some(m);
    }
    if exists i :: 0 <= i < |packages| && Evaluate(product, packages[i]) == Some(m) {
      var i :| 0 <= i < |packages| && Evaluate(product, packages[i]) == Some(m);
      assert os[i] == Some(m);
    }
  }

  /** One more package adds its match, if it has one, at the end. */
  lemma KeptSnoc(product: seq<nat>, packages: seq<Package>, pkg: Package)
    requires |product| == 3
    ensures Kept(product, packages + [pkg])
            == Kept(product, packages) + (match Evaluate(product, pkg) case None => [] case Some(m) => [m])
  {
    var os := Outcomes(product, packages + [pkg]);
    assert os[..|os| - 1] == Outcomes(product, packages);
    assert os[|os| - 1] == Evaluate(product, pkg);
  }

  // ---------------------------------------------------------------------
  // Ordering by score (`matches.sort(key=lambda x: x['Total_Gap'])`)

  predicate ByGap(ms: seq<Match>) {
    forall i, j :: 0 <= i < j < |ms| ==> ms[i].totalGap <= ms[j].totalGap
  }

  /** The matches with score `g`, in order. */
  function WithGap(ms: seq<Match>, g: int): seq<Match> {
    if ms == [] then [] else (if ms[0].totalGap == g then [ms[0]] else []) + WithGap(ms[1..], g)
  }

  /** Put `m` after every match whose score is not above its own. */
  function Insert(sorted: seq<Match>, m: Match): (r: seq<Match>)
    ensures |r| == |sorted| + 1
  {
    if sorted == [] || m.totalGap < sorted[0].totalGap then [m] + sorted
    else [sorted[0]] + Insert(sorted[1..], m)
  }

  /** A stable sort by score (insertion of each match in turn). */
  function SortByGap(ms: seq<Match>): (r: seq<Match>)
    ensures |r| == |ms|
  {
    if ms == [] then [] else Insert(SortByGap(ms[..|ms| - 1]), ms[|ms| - 1])
  }

  lemma {:induction false} InsertPermutes(sorted: seq<Match>, m: Match)
    ensures multiset(Insert(sorted, m)) == multiset(sorted) + multiset{m}
    decreases |sorted|
  {
    if sorted != [] && m.totalGap >= sorted[0].totalGap {
      InsertPermutes(sorted[1..], m);
      assert sorted == [sorted[0]] + sorted[1..];
    }
  }

  lemma {:induction false} InsertSorted(sorted: seq<Match>, m: Match)
    requires ByGap(sorted)
    ensures ByGap(Insert(sorted, m))
    decreases |sorted|
  {
    if sorted != [] && m.totalGap >= sorted[0].totalGap {
      var tail := sorted[1..];
      InsertSorted(tail, m);
      InsertPermutes(tail, m);
      var r := Insert(sorted, m);
      assert r == [sorted[0]] + Insert(tail, m);
      forall j | 0 < j < |r|
        ensures r[0].totalGap <= r[j].totalGap
      {
        var x := r[j];
        assert x in multiset(Insert(tail, m));
        assert x in multiset(tail) || x == m;
      }
    }
  }

  lemma {:induction false} WithGapAppend(a: seq<Match>, b: seq<Match>, g: int)
    ensures WithGap(a + b, g) == WithGap(a, g) + WithGap(b, g)
    decreases |a|
  {
    if a == [] {
      assert a + b == b;
    } else {
      var head := if a[0].totalGap == g then [a[0]] else [];
      assert (a + b)[0] == a[0];
      assert (a + b)[1..] == a[1..] + b;
      WithGapAppend(a[1..], b, g);
      calc {
        WithGap(a + b, g);
        head + WithGap(a[1..] + b, g);
        head + (WithGap(a[1..], g) + WithGap(b, g));
        (head + WithGap(a[1..], g)) + WithGap(b, g);
      }
    }
  }

  lemma {:induction false} NoneBelowFirst(sorted: seq<Match>, g: int)
    requires ByGap(sorted) && sorted != [] && g < sorted[0].totalGap
    ensures WithGap(sorted, g) == []
    decreases |sorted|
  {
    if |sorted| > 1 {
      NoneBelowFirst(sorted[1..], g);
    }
  }

  /** Inserting into a sorted sequence leaves `m` after the matches of the
      same score. */
  lemma {:induction false} InsertStable(sorted: seq<Match>, m: Match, g: int)
    requires ByGap(sorted)
    ensures WithGap(Insert(sorted, m), g) == WithGap(sorted, g) + (if m.totalGap == g then [m] else [])
    decreases |sorted|
  {
    if sorted == [] {
    } else if m.totalGap < sorted[0].totalGap {
      var r := [m] + sorted;
      assert r[1..] == sorted;
      if m.totalGap == g {
        NoneBelowFirst(sorted, g);
      }
    } else {
      var r := Insert(sorted, m);
      assert r[1..] == Insert(sorted[1..], m);
      InsertStable(sorted[1..], m, g);
    }
  }

  lemma {:induction false} SortByGapSorted(ms: seq<Match>)
    ensures ByGap(SortByGap(ms))
    decreases |ms|
  {
    if ms != [] {
      SortByGapSorted(ms[..|ms| - 1]);
      InsertSorted(SortByGap(ms[..|ms| - 1]), ms[|ms| - 1]);
    }
  }

  lemma {:induction false} SortByGapPermutes(ms: seq<Match>)
    ensures multiset(SortByGap(ms)) == multiset(ms)
    decreases |ms|
  {
    if ms != [] {
      var front := ms[..|ms| - 1];
      SortByGapPermutes(front);
      InsertPermutes(SortByGap(front), ms[|ms| - 1]);
      assert ms == front + [ms[|ms| - 1]];
    }
  }

  lemma {:induction false} SortByGapStable(ms: seq<Match>, g: int)
    ensures WithGap(SortByGap(ms), g) == WithGap(ms, g)
    decreases |ms|
  {
    if ms != [] {
      var front := ms[..|ms| - 1];
      var last := ms[|ms| - 1];
      SortByGapStable(front, g);
      SortByGapSorted(front);
      InsertStable(SortByGap(front), last, g);
      assert ms == front + [last];
      WithGapAppend(front, [last], g);
    }
  }

  /** The sort ends ascending, keeps every match, and keeps the matches of
      each score in their original order. */
  lemma SortByGapCorrect(ms: seq<Match>)
    ensures ByGap(SortByGap(ms))
    ensures multiset(SortByGap(ms)) == multiset(ms)
    ensures forall g :: WithGap(SortByGap(ms), g) == WithGap(ms, g)
  {
    SortByGapSorted(ms);
    SortByGapPermutes(ms);
    forall g
      ensures WithGap(SortByGap(ms), g) == WithGap(ms, g)
    {
      SortByGapStable(ms, g);
    }
  }

  // ---------------------------------------------------------------------
  // The whole matching step

  /** What `package_matching` finds: nothing when the product's size cannot
      be read, otherwise the fitting packages ordered by score. */
  function Matching(productDims: string, packages: seq<Package>): (r: Option<seq<Match>>)
    ensures r.None? <==> ParseDimensions(productDims).None?
    ensures r.Some? ==> |r.value| <= |packages|
  {
    match ParseDimensions(productDims)
    case None => None
    case Some(product) => Some(SortByGap(Kept(product, packages)))
  }

  /** `package_matching` from the parsed product size to the sorted list
      of matches. */
  method PackageMatching(productDims: string, packages: seq<Package>) returns (r: Option<seq<Match>>)
    ensures r == Matching(productDims, packages)
  {
    var productParsed := ParseDimensions(productDims);
    if productParsed.None? {
      return None;
    }
    var product := productParsed.value;
    var matches: seq<Match> := [];
    for i := 0 to |packages|
      invariant matches == Kept(product, packages[..i])
    {
      var pkg := packages[i];
      assert packages[..i + 1] == packages[..i] + [pkg];
      KeptSnoc(product, packages[..i], pkg);
      var info := MatchInfo(product, pkg);
      if info.Some? {
        matches := matches + [info.value];
      }
    }
    assert packages[..|packages|] == packages;
    matches := SortByGap(matches);
    r := Some(matches);
  }

  /** The body of the loop of `package_matching` for one package: the
      fit test, and the match it appends when the package fits. */
  method MatchInfo(product: seq<nat>, pkg: Package) returns (info: Option<Match>)
    requires |product| == 3
    ensures info == Evaluate(product, pkg)
  {
    info := None;
    var pkgDims := ParseDimensions(pkg.size);
    if pkgDims.Some? {
      var pSorted := Sort3(product);
      var pkgSorted := Sort3(pkgDims.value);
      var diffs := [pkgSorted[0] - pSorted[0], pkgSorted[1] - pSorted[1], pkgSorted[2] - pSorted[2]];
      if diffs[0] >= 0 && diffs[1] >= 0 && diffs[2] >= 0 {
        var gapScore := diffs[0] + diffs[1] + diffs[2];
        var verdict := if 5 <= Min3(diffs) && Max3(diffs) <= 15 then Optimal else Check;
        info := Some(Match(pkg.name, pkg.size, diffs, gapScore, verdict));
      }
    }
  }

  /** The result of the matching step, as its parts promise: nothing
      exactly when the product size is unreadable; otherwise the fitting
      packages and no others, ascending by score, ties in package order. */
  lemma MatchingCorrect(productDims: string, packages: seq<Package>)
    ensures Matching(productDims, packages).None? <==> |DigitRuns(productDims)| < 3
    ensures Matching(productDims, packages).Some? ==>
              var product := ParseDimensions(productDims).value;
              var r := Matching(productDims, packages).value;
              && ByGap(r)
              && multiset(r) == multiset(Kept(product, packages))
              && (forall g :: WithGap(r, g) == WithGap(Kept(product, packages), g))
  {
    if ParseDimensions(productDims).Some? {
      SortByGapCorrect(Kept(ParseDimensions(productDims).value, packages));
    }
  }

  /** A 41x137x51 product in a 50x140x60 box
      fits with slacks 9, 9 and 3, total 21, which is not optimal. */
  lemma ScenarioFit()
    ensures Fits([41, 137, 51], [50, 140, 60])
    ensures Slacks([41, 137, 51], [50, 140, 60]) == [9, 9, 3]
    ensures VerdictOf([9, 9, 3]) == Check
  {
  }

  /** The size text of that example reads back as its three sides. */
  lemma ScenarioParse()
    ensures ParseDimensions("41x137x51") == Some([41, 137, 51])
  {
    ScenarioRuns();
    ScenarioValues();
  }

  lemma ScenarioValues()
    ensures Value("41") == 41 && Value("51") == 51 && Value("137") == 137
  {
    assert "41"[..1] == "4" && "51"[..1] == "5" && "137"[..2] == "13" && "13"[..1] == "1";
    assert "4"[..0] == "" && "5"[..0] == "" && "1"[..0] == "";
  }

  lemma ScenarioRuns()
    ensures DigitRuns("41x137x51") == ["41", "137", "51"]
  {
    assert "41" + ['x'] + "137" + ['x'] + "51" + "" == "41x137x51";
    RunsOfWritten("41", 'x', "137", 'x', "51", "");
  }
}
