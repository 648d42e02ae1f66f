/**
  The bold-run formatter `process_bold`: a line is split by the regular
  expression `(\*\*.*?\*\*)` (re.split keeps the captured matches), and every
  piece becomes one run of the paragraph, in order.
 */
module Inline {
  import opened Wrappers
  import opened Text

  /** One run of a paragraph: its text and whether it is bold. */
  datatype Run = Run(text: string, bold: bool)

  /** One element of the list re.split returns: text between matches, or a
      whole match, markers included. */
  datatype Segment = Plain(text: string) | Marked(text: string)

  /** A `**` marker starts at position k of t. */
  predicate PairAt(t: string, k: int) {
    0 <= k && k + 2 <= |t| && t[k] == '*' && t[k + 1] == '*'
  }

  /** The lazy `.*?\*\*` tail of a match whose opening marker ends at j: the end
      of the first `**` at or after j, unless a line feed (which `.` does
      not match) comes first. */
  function CloseFrom(t: string, j: nat): (r: Option<nat>)
    requires j <= |t|
    ensures r.Some? ==> j + 2 <= r.value <= |t| && PairAt(t, r.value - 2)
    decreases |t| - j
  {
    if j + 2 > |t| then None
    else if t[j] == '*' && t[j + 1] == '*' then Some(j + 2)
    else if t[j] == '\n' then None
    else CloseFrom(t, j + 1)
  }

  /** The lazy tail stops at the first `**` after j when no line feed comes
      before it, and fails exactly when every later `**` has a line feed
      before it. */
  lemma {:induction false} CloseFromFirst(t: string, j: nat)
    requires j <= |t|
    ensures var r := CloseFrom(t, j);
            && (r.Some? ==> '\n' !in t[j..r.value - 2])
            && (r.Some? ==> forall k :: j <= k < r.value - 2 ==> !PairAt(t, k))
            && (r.None? ==> forall k :: j <= k && PairAt(t, k) ==> '\n' in t[j..k])
    decreases |t| - j
  {
    if j + 2 <= |t| && !(t[j] == '*' && t[j + 1] == '*') && t[j] != '\n' {
      CloseFromFirst(t, j + 1);
      var r := CloseFrom(t, j + 1);
      if r.Some? {
        assert t[j..r.value - 2] == [t[j]] + t[j + 1..r.value - 2];
      }
      forall k | j + 1 <= k <= |t|
        ensures t[j..k] == [t[j]] + t[j + 1..k]
      {
      }
    }
  }

  /** The end of the match of `\*\*.*?\*\*` that starts at position i, if any. */
  function MatchAt(t: string, i: nat): Option<nat>
    requires i <= |t|
  {
    if PairAt(t, i) then CloseFrom(t, i + 2) else None
  }

  /** A match: opening and closing markers, no line feed, and no marker
      starting before the closing one (the lazy quantifier stops at the
      first `**`). */
  predicate WellMarked(m: string) {
    |m| >= 4 && PairAt(m, 0) && PairAt(m, |m| - 2) && '\n' !in m
    && forall k :: 2 <= k < |m| - 2 ==> !PairAt(m, k)
  }

  /** A match found at position i is well formed. */
  lemma MatchWellMarked(t: string, i: nat)
    requires i <= |t| && MatchAt(t, i).Some?
    ensures var e := MatchAt(t, i).value; i + 4 <= e <= |t| && WellMarked(t[i..e])
  {
    var e := MatchAt(t, i).value;
    var m := t[i..e];
    CloseFromFirst(t, i + 2);
    assert e == CloseFrom(t, i + 2).value;
    assert PairAt(m, 0) && PairAt(m, |m| - 2);
    var body := t[i + 2..e - 2];
    forall k | 0 <= k < |m|
      ensures m[k] != '\n'
    {
      if 2 <= k < |m| - 2 {
        assert m[k] == body[k - 2];
      }
    }
    forall k | 2 <= k < |m| - 2
      ensures !PairAt(m, k)
    {
      assert m[k] == t[i + k] && m[k + 1] == t[i + k + 1];
      assert !PairAt(t, i + k);
    }
  }

  /** re.split as a left-to-right scan: `start` is where the current plain
      piece began, `i` the next position at which a match is tried. */
  function Split(t: string, start: nat, i: nat): (r: seq<Segment>)
    requires start <= i <= |t|
    ensures r != [] && r[0].Plain? && r[|r| - 1].Plain?
    decreases |t| - i
  {
    if i == |t| then [Plain(t[start..])]
    else
      match MatchAt(t, i)
      case Some(e) => [Plain(t[start..i]), Marked(t[i..e])] + Split(t, e, e)
      case None => Split(t, start, i + 1)
  }

  /** Pieces that alternate plain, match, ..., plain, every match well
      formed. */
  predicate Shaped(r: seq<Segment>) {
    && |r| % 2 == 1
    && (forall k :: 0 <= k < |r| ==> (r[k].Plain? <==> k % 2 == 0))
    && (forall k :: 0 <= k < |r| && r[k].Marked? ==> WellMarked(r[k].text))
  }

  /** The pieces of the scan alternate plain, match, ..., plain, and every
      match is well formed. */
  lemma {:induction false} SplitShape(t: string, start: nat, i: nat)
    requires start <= i <= |t|
    ensures Shaped(Split(t, start, i))
    decreases |t| - i
  {
    if i < |t| {
      match MatchAt(t, i)
      case Some(e) =>
        MatchWellMarked(t, i);
        SplitShape(t, e, e);
        var rest := Split(t, e, e);
        var r := [Plain(t[start..i]), Marked(t[i..e])] + rest;
        assert Split(t, start, i) == r;
        assert Shaped(rest);
        forall k | 0 <= k < |r|
          ensures (r[k].Plain? <==> k % 2 == 0) && (r[k].Marked? ==> WellMarked(r[k].text))
        {
          if k >= 2 {
            assert r[k] == rest[k - 2];
            assert (k - 2) % 2 == k % 2;
          }
        }
      case None =>
        assert Split(t, start, i) == Split(t, start, i + 1);
        SplitShape(t, start, i + 1);
    }
  }

  /** The lazy tail found inside a slice of the line is found at the same
      place in the whole line. */
  lemma {:induction false} CloseFromSlice(t: string, s: nat, a: nat, j: nat)
    requires s <= a <= |t| && j <= a - s
    ensures CloseFrom(t[s..a], j).Some? ==> CloseFrom(t, s + j) == Some(s + CloseFrom(t[s..a], j).value)
    decreases a - s - j
  {
    var u := t[s..a];
    if j + 2 <= |u| {
      assert u[j] == t[s + j] && u[j + 1] == t[s + j + 1];
      if !(u[j] == '*' && u[j + 1] == '*') && u[j] != '\n' {
        CloseFromSlice(t, s, a, j + 1);
      }
    }
  }

  /** A match inside a slice of the line is a match of the line at the same
      place. */
  lemma MatchInSlice(t: string, s: nat, a: nat, q: nat)
    requires s <= a <= |t| && q <= a - s
    ensures MatchAt(t[s..a], q).Some? ==> MatchAt(t, s + q).Some?
  {
    if PairAt(t[s..a], q) {
      assert t[s..a][q] == t[s + q] && t[s..a][q + 1] == t[s + q + 1];
      CloseFromSlice(t, s, a, q + 2);
    }
  }

  /** A stretch of the line at none of whose positions a match starts holds
      no match of its own. */
  lemma PlainPieceNoMatch(t: string, s: nat, a: nat)
    requires s <= a <= |t|
    requires forall k :: s <= k < a ==> MatchAt(t, k).None?
    ensures forall q :: 0 <= q <= a - s ==> MatchAt(t[s..a], q).None?
  {
    forall q | 0 <= q <= a - s
      ensures MatchAt(t[s..a], q).None?
    {
      MatchInSlice(t, s, a, q);
    }
  }

  /** No plain piece holds a match of its own. */
  predicate PlainPiecesClean(r: seq<Segment>) {
    forall k, q :: 0 <= k < |r| && r[k].Plain? && 0 <= q <= |r[k].text| ==> MatchAt(r[k].text, q).None?
  }

  /** Every plain piece of the scan holds no match: no `**…**` is left
      unformatted. */
  lemma {:induction false} SplitPlainNoMatch(t: string, start: nat, i: nat)
    requires start <= i <= |t|
    requires forall k :: start <= k < i ==> MatchAt(t, k).None?
    ensures PlainPiecesClean(Split(t, start, i))
    decreases |t| - i
  {
    if i == |t| {
      PlainPieceNoMatch(t, start, |t|);
      assert t[start..] == t[start..|t|];
    } else {
      match MatchAt(t, i)
      case Some(e) =>
        MatchWellMarked(t, i);
        PlainPieceNoMatch(t, start, i);
        SplitPlainNoMatch(t, e, e);
        var rest := Split(t, e, e);
        var r := [Plain(t[start..i]), Marked(t[i..e])] + rest;
        assert Split(t, start, i) == r;
        assert PlainPiecesClean(rest);
        forall k, q | 0 <= k < |r| && r[k].Plain? && 0 <= q <= |r[k].text|
          ensures MatchAt(r[k].text, q).None?
        {
          if k >= 2 {
            assert r[k] == rest[k - 2];
          } else {
            assert r[k].text == t[start..i];
          }
        }
      case None =>
        assert Split(t, start, i) == Split(t, start, i + 1);
        SplitPlainNoMatch(t, start, i + 1);
    }
  }

  /** A match anywhere ahead of the scan is found: some piece is a match. */
  lemma {:induction false} MatchFound(t: string, start: nat, i: nat, a: nat)
    requires start <= i <= a < |t| && MatchAt(t, a).Some?
    ensures exists k :: 0 <= k < |Split(t, start, i)| && Split(t, start, i)[k].Marked?
    decreases |t| - i
  {
    match MatchAt(t, i)
    case Some(e) =>
      MatchWellMarked(t, i);
      assert Split(t, start, i)[1] == Marked(t[i..e]);
    case None =>
      assert Split(t, start, i) == Split(t, start, i + 1);
      MatchFound(t, start, i + 1, a);
  }

  /** A piece lies in `t` at `pos`: no match of `t` starts inside a plain
      piece, and a match piece is exactly the match of `t` that starts
      where the piece does. */
  predicate PieceAt(t: string, seg: Segment, pos: nat) {
    && pos + |seg.text| <= |t|
    && (seg.Plain? ==> forall p :: pos <= p < pos + |seg.text| ==> MatchAt(t, p).None?)
    && (seg.Marked? ==> MatchAt(t, pos) == Some(pos + |seg.text|))
  }

  /** The pieces lie one after another in `t` from `pos` on. */
  predicate Placed(t: string, r: seq<Segment>, pos: nat)
    decreases |r|
  {
    r == [] || (PieceAt(t, r[0], pos) && Placed(t, r[1..], pos + |r[0].text|))
  }

  /** The scan always takes the leftmost match: its pieces are placed in
      `t` from `start` on. */
  lemma {:induction false} SplitPlaced(t: string, start: nat, i: nat)
    requires start <= i <= |t|
    requires forall k :: start <= k < i ==> MatchAt(t, k).None?
    ensures Placed(t, Split(t, start, i), start)
    decreases |t| - i
  {
    if i == |t| {
      var r := Split(t, start, i);
      assert r == [Plain(t[start..])];
      assert r[1..] == [];
    } else {
      match MatchAt(t, i)
      case Some(e) =>
        SplitPlaced(t, e, e);
        var rest := Split(t, e, e);
        var r := [Plain(t[start..i]), Marked(t[i..e])] + rest;
        assert Split(t, start, i) == r;
        assert r[1..][1..] == rest;
        assert PieceAt(t, r[1], i);
        assert PieceAt(t, r[0], start);
      case None =>
        assert Split(t, start, i) == Split(t, start, i + 1);
        SplitPlaced(t, start, i + 1);
    }
  }

  /** `re.split(r'(\*\*.*?\*\*)', t)`, each piece tagged with whether it is a
      match. */
  function SplitBold(t: string): seq<Segment> {
    Split(t, 0, 0)
  }

  /** Python's `part[2:-2]`, which is empty when the part is shorter than four. */
  function Inner(part: string): string {
    if |part| >= 4 then part[2..|part| - 2] else ""
  }

  /** The run one piece becomes: a match is bold and loses its markers,
      any other piece is plain and kept verbatim. */
  function SegmentRun(seg: Segment): Run {
    match seg
    case Marked(m) => Run(Inner(m), true)
    case Plain(p) => Run(p, false)
  }

  /** The runs `process_bold` adds for a list of pieces, one per piece. */
  function SegmentRuns(segs: seq<Segment>): seq<Run> {
    seq(|segs|, k requires 0 <= k < |segs| => SegmentRun(segs[k]))
  }

  /** The runs `process_bold(paragraph, t)` adds to the paragraph. */
  function BoldRuns(t: string): seq<Run> {
    SegmentRuns(SplitBold(t))
  }

  /** `process_bold`: one loop iteration per piece of the split, each adding
      one run. */
  method ProcessBold(text: string) returns (runs: seq<Run>)
    ensures runs == BoldRuns(text)
  {
    var parts := SplitBold(text);
    runs := [];
    for k := 0 to |parts|
      invariant |runs| == k
      invariant forall j :: 0 <= j < k ==> runs[j] == SegmentRun(parts[j])
    {
      var part := parts[k];
      if part.Marked? {
        runs := runs + [Run(Inner(part.text), true)];
      } else {
        runs := runs + [Run(part.text, false)];
      }
    }
  }

  /** The text of the pieces, one after another. */
  function Texts(segs: seq<Segment>): string {
    if segs == [] then "" else segs[0].text + Texts(segs[1..])
  }

  /** The markup a list of runs stands for: bold text between `**` markers. */
  function Render(runs: seq<Run>): string {
    if runs == [] then ""
    else (if runs[0].bold then "**" + runs[0].text + "**" else runs[0].text) + Render(runs[1..])
  }

  /** The visible text of a list of runs. */
  function RunsText(runs: seq<Run>): string {
    if runs == [] then "" else runs[0].text + RunsText(runs[1..])
  }

  lemma TextsPair(a: Segment, b: Segment, rest: seq<Segment>)
    ensures Texts([a, b] + rest) == a.text + (b.text + Texts(rest))
  {
    var r := [a, b] + rest;
    assert r[1..][1..] == rest;
  }

  lemma SliceThree(t: string, start: nat, i: nat, e: nat)
    requires start <= i <= e <= |t|
    ensures t[start..] == t[start..i] + (t[i..e] + t[e..])
  {
  }

  /** The pieces of a scan cover the unscanned input exactly, in order. */
  lemma {:induction false} SplitCovers(t: string, start: nat, i: nat)
    requires start <= i <= |t|
    ensures Texts(Split(t, start, i)) == t[start..]
    decreases |t| - i
  {
    if i < |t| {
      match MatchAt(t, i)
      case Some(e) =>
        SplitCovers(t, e, e);
        TextsPair(Plain(t[start..i]), Marked(t[i..e]), Split(t, e, e));
        SliceThree(t, start, i, e);
      case None =>
        SplitCovers(t, start, i + 1);
    }
  }

  /** re.split loses nothing: the pieces put together are the line. */
  lemma SplitBoldCovers(t: string)
    ensures Texts(SplitBold(t)) == t
  {
    SplitCovers(t, 0, 0);
  }

  /** The same, with each piece's place given outright: piece k starts
      where the pieces before it end, `|Texts(r[..k])|` after `pos`. */
  predicate PlacedAtIndex(t: string, r: seq<Segment>, pos: nat) {
    forall k :: 0 <= k < |r| ==> PieceAt(t, r[k], pos + |Texts(r[..k])|)
  }

  lemma {:induction false} PlacedIndexed(t: string, r: seq<Segment>, pos: nat)
    requires Placed(t, r, pos)
    ensures PlacedAtIndex(t, r, pos)
    decreases |r|
  {
    if r != [] {
      var next := pos + |r[0].text|;
      PlacedIndexed(t, r[1..], next);
      forall k | 0 <= k < |r| ensures PieceAt(t, r[k], pos + |Texts(r[..k])|) {
        if k == 0 {
          assert r[..0] == [];
        } else {
          assert r[..k][1..] == r[1..][..k - 1];
          assert pos + |Texts(r[..k])| == next + |Texts(r[1..][..k - 1])|;
          assert r[k] == r[1..][k - 1];
        }
      }
    }
  }

  /** re.split takes the leftmost match every time. Read from the start of
      the line, no match starts inside a plain piece, and each match piece
      is the match that starts where the piece does. */
  lemma SplitBoldLeftmost(t: string)
    ensures PlacedAtIndex(t, SplitBold(t), 0)
  {
    SplitPlaced(t, 0, 0);
    PlacedIndexed(t, SplitBold(t), 0);
  }

  /** Turning pieces into runs and rendering the runs gives the pieces' text
      back, provided every match is well formed. */
  lemma {:induction false} RenderSegmentRuns(segs: seq<Segment>)
    requires forall k :: 0 <= k < |segs| && segs[k].Marked? ==> WellMarked(segs[k].text)
    ensures Render(SegmentRuns(segs)) == Texts(segs)
  {
    if segs != [] {
      assert SegmentRuns(segs)[1..] == SegmentRuns(segs[1..]);
      RenderSegmentRuns(segs[1..]);
      if segs[0].Marked? {
        var m := segs[0].text;
        assert m == m[..2] + m[2..|m| - 2] + m[|m| - 2..];
      }
    }
  }

  /** process_bold is undone by writing each bold run back between `**`
      markers: the runs are the input line, markers of the matched pairs
      removed and nothing else lost. */
  lemma BoldRunsRoundTrip(t: string)
    ensures Render(BoldRuns(t)) == t
  {
    SplitShape(t, 0, 0);
    RenderSegmentRuns(SplitBold(t));
    SplitBoldCovers(t);
  }

  /** A bold run holds the text between the markers of one match, which
      itself holds no `**` and no line feed; runs alternate plain, bold,
      ..., plain. */
  lemma BoldRunShape(t: string, k: nat)
    requires k < |BoldRuns(t)|
    ensures |BoldRuns(t)| % 2 == 1
    ensures BoldRuns(t)[k].bold <==> k % 2 == 1
    ensures BoldRuns(t)[k].bold ==>
              var b := BoldRuns(t)[k].text;
              '\n' !in b && forall j :: 0 <= j < |b| ==> !PairAt(b, j)
  {
    SplitShape(t, 0, 0);
    var segs := SplitBold(t);
    if segs[k].Marked? {
      var m := segs[k].text;
      var b := Inner(m);
      assert b == m[2..|m| - 2];
      forall j | 0 <= j < |b| ensures !PairAt(b, j) {
        if j + 2 <= |b| {
          assert b[j] == m[j + 2] && b[j + 1] == m[j + 3];
          assert !PairAt(m, j + 2);
        }
      }
    }
  }

  /** A line without `**` becomes a single plain run holding it verbatim. */
  lemma {:induction false} NoMarkerPlain(t: string, start: nat, i: nat)
    requires start <= i <= |t|
    requires forall k :: 0 <= k < |t| ==> !PairAt(t, k)
    ensures Split(t, start, i) == [Plain(t[start..])]
    decreases |t| - i
  {
    if i < |t| {
      NoMarkerPlain(t, start, i + 1);
    }
  }

  lemma PlainLineSingleRun(t: string)
    requires forall k :: 0 <= k < |t| ==> !PairAt(t, k)
    ensures BoldRuns(t) == [Run(t, false)]
  {
    NoMarkerPlain(t, 0, 0);
  }

  /** No plain run of a line holds a `**…**` match: every match is
      formatted. */
  lemma PlainRunsHoldNoMatch(t: string)
    ensures forall k, q :: 0 <= k < |BoldRuns(t)| && !BoldRuns(t)[k].bold && 0 <= q <= |BoldRuns(t)[k].text| ==>
              MatchAt(BoldRuns(t)[k].text, q).None?
  {
    SplitPlainNoMatch(t, 0, 0);
    var segs := SplitBold(t);
    var runs := BoldRuns(t);
    forall k, q | 0 <= k < |runs| && !runs[k].bold && 0 <= q <= |runs[k].text|
      ensures MatchAt(runs[k].text, q).None?
    {
      assert segs == Split(t, 0, 0);
      assert runs[k] == SegmentRun(segs[k]);
      assert segs[k].Plain? && runs[k].text == segs[k].text;
    }
  }

  /** Two `**` markers with no line feed in the line give it a bold run. */
  lemma MarkedLineHasBoldRun(t: string, a: nat, b: nat)
    requires a + 2 <= b && PairAt(t, a) && PairAt(t, b)
    requires '\n' !in t
    ensures exists k :: 0 <= k < |BoldRuns(t)| && BoldRuns(t)[k].bold
  {
    MarkersMatch(t, a, b);
    MatchFound(t, 0, 0, a);
    var k :| 0 <= k < |SplitBold(t)| && SplitBold(t)[k].Marked?;
    assert BoldRuns(t)[k].bold;
  }

  // ---------------------------------------------------------------------
  // The classification as the source writes it

  /** The run the source builds from one piece: it tests the piece's TEXT
      with `startswith('**') and endswith('**')` instead of asking whether
      the piece was a match. */
  function AsWrittenRun(part: string): Run {
    if StartsWith(part, "**") && EndsWith(part, "**") then Run(Inner(part), true) else Run(part, false)
  }

  /** process_bold exactly as written: one run per piece of re.split, and
      a run that is not bold is its piece verbatim. */
  function AsWrittenBoldRuns(t: string): (r: seq<Run>)
    ensures |r| == |SplitBold(t)|
    ensures forall k :: 0 <= k < |r| && !r[k].bold ==> r[k].text == SplitBold(t)[k].text
  {
    var parts := SplitBold(t);
    seq(|parts|, k requires 0 <= k < |parts| => AsWrittenRun(parts[k].text))
  }

  /** A lone `**` is not a match, so re.split keeps it as plain text; the
      source's text test still turns it into a bold run with the empty text
      `'**'[2:-2]`, and the two asterisks disappear from the document. */
  lemma LoneMarkerIsSwallowed()
    ensures SplitBold("**") == [Plain("**")]
    ensures AsWrittenBoldRuns("**") == [Run("", true)]
    ensures RunsText(AsWrittenBoldRuns("**")) == ""
    ensures BoldRuns("**") == [Run("**", false)]
  {
    assert !PairAt("**", 1);
    assert CloseFrom("**", 2) == None;
    assert MatchAt("**", 0) == None;
    assert Split("**", 0, 2) == [Plain("**")];
    assert Split("**", 0, 1) == [Plain("**")];
  }

  /** Apart from that case, the source's test agrees with the match test:
      a plain piece that starts and ends with `**` is `**` or `***` (a line
      from a text file holds no line feed). */
  lemma {:induction false} PlainPiecesUnmarked(t: string, start: nat, i: nat)
    requires start <= i <= |t|
    requires '\n' !in t
    requires forall k :: start <= k < i ==> MatchAt(t, k).None?
    ensures forall k :: 0 <= k < |Split(t, start, i)| && Split(t, start, i)[k].Plain? ==>
              var p := Split(t, start, i)[k].text;
              StartsWith(p, "**") && EndsWith(p, "**") ==> p == "**" || p == "***"
    decreases |t| - i
  {
    if i == |t| {
      PlainPieceBound(t, start, |t|);
    } else {
      match MatchAt(t, i)
      case Some(e) =>
        PlainPieceBound(t, start, i);
        PlainPiecesUnmarked(t, e, e);
        var rest := Split(t, e, e);
        var r := [Plain(t[start..i]), Marked(t[i..e])] + rest;
        assert forall k :: 2 <= k < |r| ==> r[k] == rest[k - 2];
      case None =>
        PlainPiecesUnmarked(t, start, i + 1);
    }
  }

  /** One plain piece t[start..end], scanned without a match. */
  lemma PlainPieceBound(t: string, start: nat, end: nat)
    requires start <= end <= |t|
    requires '\n' !in t
    requires forall k :: start <= k < end ==> MatchAt(t, k).None?
    ensures var p := t[start..end];
            StartsWith(p, "**") && EndsWith(p, "**") ==> p == "**" || p == "***"
  {
    var p := t[start..end];
    if StartsWith(p, "**") && EndsWith(p, "**") && |p| >= 4 {
      MarkersMatch(t, start, end - 2);
    }
  }

  /** Two markers with no line feed between them make a match at the first. */
  lemma MarkersMatch(t: string, a: nat, b: nat)
    requires a + 2 <= b && PairAt(t, a) && PairAt(t, b)
    requires '\n' !in t
    ensures MatchAt(t, a).Some?
  {
    CloseFromFirst(t, a + 2);
    assert '\n' !in t[a + 2..b] by {
      forall k | a + 2 <= k < b ensures t[k] != '\n' {
        assert t[k] in t;
      }
    }
  }

  /** Where no plain piece is `**` or `***`, process_bold as written gives
      the same runs as the corrected BoldRuns. */
  lemma AsWrittenAgrees(t: string)
    requires '\n' !in t
    requires forall k :: 0 <= k < |SplitBold(t)| ==> SplitBold(t)[k] != Plain("**") && SplitBold(t)[k] != Plain("***")
    ensures AsWrittenBoldRuns(t) == BoldRuns(t)
  {
    PlainPiecesUnmarked(t, 0, 0);
    SplitShape(t, 0, 0);
    var parts := SplitBold(t);
    forall k | 0 <= k < |parts| ensures AsWrittenRun(parts[k].text) == SegmentRun(parts[k]) {
      if parts[k].Marked? {
        var m := parts[k].text;
        assert m[..2] == "**" && m[|m| - 2..] == "**";
      }
    }
  }
}
