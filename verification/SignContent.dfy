/** The splice loop of DocumentSegment.get_sign_content: spans found in the original text are
    replaced one after another with a running offset. The spans and their signed URLs are
    given; the regular expressions that find them and the signing are not modelled. */
module SignContent {
  import opened Sequences

  datatype Span = Span(start: nat, end: nat, url: string)

  /** Python's text[:i] and text[i:], negative indices included. */
  function SliceTo(s: string, i: int): string {
    if i >= |s| then s else if i >= 0 then s[..i] else if i + |s| > 0 then s[..i + |s|] else []
  }

  function SliceFrom(s: string, i: int): string {
    if i >= |s| then [] else if i >= 0 then s[i..] else if i + |s| > 0 then s[i + |s|..] else s
  }

  /** At every index the two slices make up the text; below zero it counts from the end. */
  lemma SlicesJoin(s: string, i: int)
    ensures SliceTo(s, i) + SliceFrom(s, i) == s
    ensures var at := if i < 0 then |s| + i else i;
            |SliceTo(s, i)| == if at < 0 then 0 else if at > |s| then |s| else at
  {
  }

  function Growth(span: Span): int {
    |span.url| - (span.end - span.start)
  }

  function TotalGrowth(spans: seq<Span>): int {
    if spans == [] then 0 else TotalGrowth(spans[..|spans| - 1]) + Growth(spans[|spans| - 1])
  }

  function Splice(text: string, span: Span, offset: int): string {
    SliceTo(text, span.start + offset) + span.url + SliceFrom(text, span.end + offset)
  }

  /** What the loop computes. */
  function Spliced(text: string, spans: seq<Span>): string {
    if spans == [] then text
    else Splice(Spliced(text, spans[..|spans| - 1]), spans[|spans| - 1], TotalGrowth(spans[..|spans| - 1]))
  }

  lemma SplicedStep(text: string, spans: seq<Span>, i: nat)
    requires i < |spans|
    ensures Spliced(text, spans[..i + 1]) == Splice(Spliced(text, spans[..i]), spans[i], TotalGrowth(spans[..i]))
    ensures TotalGrowth(spans[..i + 1]) == TotalGrowth(spans[..i]) + Growth(spans[i])
  {
    assert spans[..i + 1][..i] == spans[..i];
  }

  method SpliceAll(text: string, spans: seq<Span>) returns (r: string)
    ensures r == Spliced(text, spans)
  {
    r := text;
    var offset := 0;
    for i := 0 to |spans|
      invariant r == Spliced(text, spans[..i]) && offset == TotalGrowth(spans[..i])
    {
      var span := spans[i];
      SplicedStep(text, spans, i);
      r := SliceTo(r, span.start + offset) + span.url + SliceFrom(r, span.end + offset);
      offset := offset + |span.url| - (span.end - span.start);
    }
    assert spans[..|spans|] == spans;
  }

  // --- What it should compute -----------------------------------------------

  /** Disjoint spans of a text of n characters, from left to right. */
  predicate Ascending(spans: seq<Span>, n: nat) {
    && (forall i :: 0 <= i < |spans| ==> spans[i].start <= spans[i].end <= n)
    && (forall i, j :: 0 <= i < j < |spans| ==> spans[i].end <= spans[j].start)
  }

  function EndOf(spans: seq<Span>): nat {
    if spans == [] then 0 else spans[|spans| - 1].end
  }

  /** Gaps and replacements in turn, up to the end of the last span. */
  function Pieces(text: string, spans: seq<Span>): string
    requires Ascending(spans, |text|)
  {
    if spans == [] then []
    else
      var init, last := spans[..|spans| - 1], spans[|spans| - 1];
      Pieces(text, init) + text[EndOf(init)..last.start] + last.url
  }

  function Replaced(text: string, spans: seq<Span>): string
    requires Ascending(spans, |text|)
  {
    Pieces(text, spans) + text[EndOf(spans)..]
  }

  lemma {:induction false} PiecesLength(text: string, spans: seq<Span>)
    requires Ascending(spans, |text|)
    ensures |Pieces(text, spans)| == EndOf(spans) + TotalGrowth(spans) && EndOf(spans) <= |text|
  {
    if spans == [] {
    } else {
      PiecesLength(text, spans[..|spans| - 1]);
    }
  }

  /** A splice beyond everything done so far. */
  lemma SpliceAfter(text: string, done: string, e: nat, span: Span, offset: int)
    requires e <= span.start <= span.end <= |text| && |done| == e + offset
    ensures Splice(done + text[e..], span, offset) == done + text[e..span.start] + span.url + text[span.end..]
  {
    var before := done + text[e..];
    assert before[..span.start + offset] == done + text[e..span.start];
    assert before[span.end + offset..] == text[span.end..];
  }

  /** On spans from left to right the running offset is right, whatever the replacements. */
  lemma {:induction false} AscendingIsRight(text: string, spans: seq<Span>)
    requires Ascending(spans, |text|)
    ensures Spliced(text, spans) == Replaced(text, spans)
  {
    if spans == [] {
      assert text[0..] == text;
    } else {
      var init, last := spans[..|spans| - 1], spans[|spans| - 1];
      AscendingIsRight(text, init);
      PiecesLength(text, init);
      SpliceAfter(text, Pieces(text, init), EndOf(init), last, TotalGrowth(init));
    }
  }

  /** What follows the end e of one span, up to the end of the text. */
  function After(text: string, e: nat, spans: seq<Span>): string
    requires Ascending(spans, |text|) && e <= (if spans == [] then |text| else spans[0].start)
    decreases |spans|
  {
    if spans == [] then text[e..]
    else text[e..spans[0].start] + spans[0].url + After(text, spans[0].end, spans[1..])
  }

  lemma PartsAscend(x: seq<Span>, y: seq<Span>, n: nat)
    requires Ascending(x + y, n)
    ensures Ascending(x, n) && Ascending(y, n) && EndOf(x) <= (if y == [] then n else y[0].start)
  {
    var z := x + y;
    assert forall i :: 0 <= i < |x| ==> z[i] == x[i];
    assert forall j :: 0 <= j < |y| ==> z[|x| + j] == y[j];
  }

  /** The right answer, cut between any two spans. */
  lemma {:induction false} ReplacedSplits(text: string, x: seq<Span>, y: seq<Span>)
    requires Ascending(x + y, |text|)
    ensures Ascending(x, |text|) && Ascending(y, |text|)
    ensures EndOf(x) <= (if y == [] then |text| else y[0].start)
    ensures Replaced(text, x + y) == Pieces(text, x) + After(text, EndOf(x), y)
    decreases |y|
  {
    PartsAscend(x, y, |text|);
    if y == [] {
      assert x + y == x;
    } else {
      var x', y' := x + [y[0]], y[1..];
      assert x + y == x' + y';
      ReplacedSplits(text, x', y');
      assert x'[..|x|] == x;
      var gap, url, rest := text[EndOf(x)..y[0].start], y[0].url, After(text, y[0].end, y');
      Associates(Pieces(text, x), gap, url);
      Associates(Pieces(text, x), gap + url, rest);
    }
  }

  // --- Cuts and the growth they cause -----------------------------------------

  /** A span without its replacement. */
  datatype Cut = Cut(start: nat, end: nat)

  function Filled(cuts: seq<Cut>, url: Cut -> string): (r: seq<Span>)
    ensures |r| == |cuts|
    ensures forall i :: 0 <= i < |r| ==> r[i] == Span(cuts[i].start, cuts[i].end, url(cuts[i]))
  {
    seq(|cuts|, i requires 0 <= i < |cuts| => Span(cuts[i].start, cuts[i].end, url(cuts[i])))
  }

  predicate LeftToRight(cuts: seq<Cut>, n: nat) {
    && (forall i :: 0 <= i < |cuts| ==> cuts[i].start < cuts[i].end <= n)
    && (forall i, j :: 0 <= i < j < |cuts| ==> cuts[i].end <= cuts[j].start)
  }

  ghost predicate Fits(url: Cut -> string, size: Cut -> nat) {
    forall c: Cut :: |url(c)| == size(c)
  }

  function GrowthOf(size: Cut -> nat): Cut -> int {
    (c: Cut) => size(c) - (c.end - c.start)
  }

  /** Growth of the cuts to the left of z, and of those to its right. */
  function LeftOf(z: Cut, size: Cut -> nat): Cut -> int {
    (c: Cut) => if c.start < z.start then size(c) - (c.end - c.start) else 0
  }

  function RightOf(z: Cut, size: Cut -> nat): Cut -> int {
    (c: Cut) => if c.start > z.start then size(c) - (c.end - c.start) else 0
  }

  function Sum(cuts: seq<Cut>, f: Cut -> int): int {
    if cuts == [] then 0 else Sum(cuts[..|cuts| - 1], f) + f(cuts[|cuts| - 1])
  }

  function SumGrowth(cuts: seq<Cut>, size: Cut -> nat): int {
    Sum(cuts, GrowthOf(size))
  }

  lemma {:induction false} SumSame(cuts: seq<Cut>, f: Cut -> int, g: Cut -> int)
    requires forall i :: 0 <= i < |cuts| ==> f(cuts[i]) == g(cuts[i])
    ensures Sum(cuts, f) == Sum(cuts, g)
  {
    if cuts == [] {
    } else {
      SumSame(cuts[..|cuts| - 1], f, g);
    }
  }

  lemma {:induction false} SumAdds(cuts: seq<Cut>, f: Cut -> int, g: Cut -> int, h: Cut -> int)
    requires forall i :: 0 <= i < |cuts| ==> h(cuts[i]) == f(cuts[i]) + g(cuts[i])
    ensures Sum(cuts, h) == Sum(cuts, f) + Sum(cuts, g)
  {
    if cuts == [] {
    } else {
      SumAdds(cuts[..|cuts| - 1], f, g, h);
    }
  }

  lemma {:induction false} SumZero(cuts: seq<Cut>, f: Cut -> int)
    requires forall i :: 0 <= i < |cuts| ==> f(cuts[i]) == 0
    ensures Sum(cuts, f) == 0
  {
    if cuts == [] {
    } else {
      SumZero(cuts[..|cuts| - 1], f);
    }
  }

  lemma {:induction false} SumNonNegative(cuts: seq<Cut>, f: Cut -> int)
    requires forall i :: 0 <= i < |cuts| ==> f(cuts[i]) >= 0
    ensures Sum(cuts, f) >= 0
  {
    if cuts == [] {
    } else {
      SumNonNegative(cuts[..|cuts| - 1], f);
    }
  }

  lemma {:induction false} SumPositive(cuts: seq<Cut>, f: Cut -> int, k: nat)
    requires (forall i :: 0 <= i < |cuts| ==> f(cuts[i]) >= 0) && k < |cuts| && f(cuts[k]) > 0
    ensures Sum(cuts, f) > 0
  {
    var n := |cuts| - 1;
    if k == n {
      SumNonNegative(cuts[..n], f);
    } else {
      SumPositive(cuts[..n], f, k);
    }
  }

  lemma {:induction false} SumSplits(a: seq<Cut>, b: seq<Cut>, f: Cut -> int)
    ensures Sum(a + b, f) == Sum(a, f) + Sum(b, f)
  {
    if b == [] {
      assert a + b == a;
    } else {
      SumSplits(a, b[..|b| - 1], f);
      assert (a + b)[..|a + b| - 1] == a + b[..|b| - 1];
    }
  }

  lemma SameCuts(cuts: seq<Cut>, sorted: seq<Cut>)
    requires multiset(cuts) == multiset(sorted)
    ensures |cuts| == |sorted| && forall c :: c in cuts <==> c in sorted
  {
    assert |multiset(cuts)| == |multiset(sorted)|;
    forall c ensures c in cuts <==> c in sorted {
      assert c in multiset(cuts) <==> c in multiset(sorted);
    }
  }

  /** Taking the element at i out of a sequence takes one copy of it out of the multiset. */
  lemma WithoutIs(b: seq<Cut>, i: nat)
    requires i < |b|
    ensures multiset(b[..i] + b[i + 1..]) == multiset(b) - multiset{b[i]}
  {
    assert b == b[..i] + [b[i]] + b[i + 1..];
    assert multiset(b) == multiset(b[..i]) + multiset{b[i]} + multiset(b[i + 1..]);
  }

  lemma InitIs(b: seq<Cut>)
    requires b != []
    ensures multiset(b[..|b| - 1]) == multiset(b) - multiset{b[|b| - 1]} && b == b[..|b| - 1] + [b[|b| - 1]]
  {
    WithoutIs(b, |b| - 1);
    assert b[..|b| - 1] + b[|b|..] == b[..|b| - 1];
  }

  lemma Around(b: seq<Cut>, i: nat)
    requires i < |b|
    ensures b == b[..i] + [b[i]] + b[i + 1..]
  {
  }

  lemma SumMiddle(x: seq<Cut>, y: seq<Cut>, z: seq<Cut>, f: Cut -> int)
    ensures Sum(x + y + z, f) == Sum(x + z, f) + Sum(y, f)
  {
    SumSplits(x + y, z, f);
    SumSplits(x, y, f);
    SumSplits(x, z, f);
  }

  lemma SumWithout(b: seq<Cut>, i: nat, f: Cut -> int)
    requires i < |b|
    ensures Sum(b, f) == Sum(b[..i] + b[i + 1..], f) + Sum([b[i]], f)
  {
    Around(b, i);
    SumMiddle(b[..i], [b[i]], b[i + 1..], f);
  }

  lemma {:induction false} SumPermutes(a: seq<Cut>, b: seq<Cut>, f: Cut -> int)
    requires multiset(a) == multiset(b)
    ensures Sum(a, f) == Sum(b, f)
    decreases |a|
  {
    SameCuts(a, b);
    if a == [] {
    } else {
      var k := |a| - 1;
      assert a[k] in b;
      var i :| 0 <= i < |b| && b[i] == a[k];
      InitIs(a);
      WithoutIs(b, i);
      assert a[..k] + a[k + 1..] == a[..k];
      SumPermutes(a[..k], b[..i] + b[i + 1..], f);
      SumWithout(a, k, f);
      SumWithout(b, i, f);
    }
  }

  lemma {:induction false} FilledGrowth(cuts: seq<Cut>, url: Cut -> string, size: Cut -> nat)
    requires Fits(url, size)
    ensures TotalGrowth(Filled(cuts, url)) == SumGrowth(cuts, size)
  {
    if cuts == [] {
    } else {
      FilledGrowth(cuts[..|cuts| - 1], url, size);
      assert Filled(cuts, url)[..|cuts| - 1] == Filled(cuts[..|cuts| - 1], url);
    }
  }

  /** One round of the loop, in terms of cuts. */
  lemma LastSplice(text: string, cuts: seq<Cut>, url: Cut -> string, size: Cut -> nat)
    requires cuts != [] && Fits(url, size)
    ensures Spliced(text, Filled(cuts, url))
         == Splice(Spliced(text, Filled(cuts[..|cuts| - 1], url)), Filled(cuts, url)[|cuts| - 1],
                   SumGrowth(cuts[..|cuts| - 1], size))
  {
    FilledGrowth(cuts[..|cuts| - 1], url, size);
    assert Filled(cuts, url)[..|cuts| - 1] == Filled(cuts[..|cuts| - 1], url);
  }

  // --- When the order does not show -------------------------------------------

  predicate BalancedAt(cuts: seq<Cut>, size: Cut -> nat, k: nat)
    requires k < |cuts|
  {
    Sum(cuts[..k], RightOf(cuts[k], size)) == 0
  }

  /** The growths of the cuts already spliced to the right of the next one cancel out, always. */
  ghost predicate Balanced(cuts: seq<Cut>, size: Cut -> nat) {
    forall k :: 0 <= k < |cuts| ==> BalancedAt(cuts, size, k)
  }

  predicate NotNegativeAt(cuts: seq<Cut>, size: Cut -> nat, k: nat)
    requires k < |cuts|
  {
    cuts[k].start + SumGrowth(cuts[..k], size) >= 0
  }

  /** No start index of the loop falls below zero, where Python would count from the end. */
  ghost predicate NeverNegative(cuts: seq<Cut>, size: Cut -> nat) {
    forall k :: 0 <= k < |cuts| ==> NotNegativeAt(cuts, size, k)
  }

  /** The list is the cuts of a text in some order. */
  ghost predicate Lists(cuts: seq<Cut>, sorted: seq<Cut>, n: nat) {
    LeftToRight(sorted, n) && multiset(cuts) == multiset(sorted)
  }

  function Without(sorted: seq<Cut>, i: nat): seq<Cut>
    requires i < |sorted|
  {
    sorted[..i] + sorted[i + 1..]
  }

  lemma PlaceOf(cuts: seq<Cut>, sorted: seq<Cut>) returns (i: nat)
    requires multiset(cuts) == multiset(sorted) && cuts != []
    ensures |cuts| == |sorted| && i < |sorted| && sorted[i] == cuts[|cuts| - 1]
    ensures multiset(cuts[..|cuts| - 1]) == multiset(Without(sorted, i))
  {
    SameCuts(cuts, sorted);
    assert cuts[|cuts| - 1] in sorted;
    i :| 0 <= i < |sorted| && sorted[i] == cuts[|cuts| - 1];
    InitIs(cuts);
    WithoutIs(sorted, i);
  }

  lemma WithoutLeftToRight(sorted: seq<Cut>, i: nat, n: nat)
    requires LeftToRight(sorted, n) && i < |sorted|
    ensures LeftToRight(Without(sorted, i), n)
    ensures forall j :: 0 <= j < |Without(sorted, i)| ==>
              Without(sorted, i)[j].start != sorted[i].start
              && (j < i <==> Without(sorted, i)[j].start < sorted[i].start)
  {
  }

  lemma LeftPart(sorted: seq<Cut>, i: nat, size: Cut -> nat, n: nat)
    requires LeftToRight(sorted, n) && i < |sorted|
    ensures Sum(Without(sorted, i), LeftOf(sorted[i], size)) == SumGrowth(sorted[..i], size)
  {
    var f := LeftOf(sorted[i], size);
    SumSplits(sorted[..i], sorted[i + 1..], f);
    SumSame(sorted[..i], f, GrowthOf(size));
    SumZero(sorted[i + 1..], f);
  }

  /** The offset at the last cut: what belongs to its left, and what was spliced to its right. */
  lemma LastOffset(cuts: seq<Cut>, sorted: seq<Cut>, i: nat, size: Cut -> nat, n: nat)
    requires Lists(cuts, sorted, n) && cuts != [] && i < |sorted| && sorted[i] == cuts[|cuts| - 1]
    requires multiset(cuts[..|cuts| - 1]) == multiset(Without(sorted, i))
    ensures SumGrowth(cuts[..|cuts| - 1], size) ==
            SumGrowth(sorted[..i], size) + Sum(cuts[..|cuts| - 1], RightOf(sorted[i], size))
  {
    var init, z, rest := cuts[..|cuts| - 1], sorted[i], Without(sorted, i);
    WithoutLeftToRight(sorted, i, n);
    SumPermutes(init, rest, GrowthOf(size));
    SumPermutes(init, rest, RightOf(z, size));
    SumAdds(rest, LeftOf(z, size), RightOf(z, size), GrowthOf(size));
    LeftPart(sorted, i, size, n);
  }

  lemma PrefixEnds(sorted: seq<Cut>, i: nat, url: Cut -> string, n: nat)
    requires LeftToRight(sorted, n) && i < |sorted|
    ensures Ascending(Filled(sorted[..i], url), n) && EndOf(Filled(sorted[..i], url)) <= sorted[i].start
  {
  }

  /** The right answer up to the i-th cut, and from its end on. */
  function UpTo(text: string, sorted: seq<Cut>, i: nat, url: Cut -> string): string
    requires LeftToRight(sorted, |text|) && i < |sorted|
  {
    var before := Filled(sorted[..i], url);
    PrefixEnds(sorted, i, url, |text|);
    Pieces(text, before) + text[EndOf(before)..sorted[i].start]
  }

  lemma SuffixStarts(sorted: seq<Cut>, i: nat, url: Cut -> string, n: nat)
    requires LeftToRight(sorted, n) && i < |sorted|
    ensures var rest := Filled(sorted[i + 1..], url);
            Ascending(rest, n) && sorted[i].end <= (if rest == [] then n else rest[0].start)
  {
  }

  function Behind(text: string, sorted: seq<Cut>, i: nat, url: Cut -> string): string
    requires LeftToRight(sorted, |text|) && i < |sorted|
  {
    SuffixStarts(sorted, i, url, |text|);
    After(text, sorted[i].end, Filled(sorted[i + 1..], url))
  }

  lemma FilledJoin(a: seq<Cut>, b: seq<Cut>, url: Cut -> string)
    ensures Filled(a + b, url) == Filled(a, url) + Filled(b, url)
  {
  }

  lemma WithCut(text: string, sorted: seq<Cut>, i: nat, url: Cut -> string)
    requires LeftToRight(sorted, |text|) && i < |sorted|
    ensures Replaced(text, Filled(sorted, url)) ==
            UpTo(text, sorted, i, url) + url(sorted[i]) + Behind(text, sorted, i, url)
  {
    var z, before, rest := sorted[i], Filled(sorted[..i], url), Filled(sorted[i + 1..], url);
    PrefixEnds(sorted, i, url, |text|);
    SuffixStarts(sorted, i, url, |text|);
    Around(sorted, i);
    FilledJoin(sorted[..i] + [z], sorted[i + 1..], url);
    FilledJoin(sorted[..i], [z], url);
    var upTo := Filled(sorted[..i] + [z], url);
    ReplacedSplits(text, upTo, rest);
    assert upTo[..i] == before && upTo[i] == Span(z.start, z.end, url(z));
  }

  lemma AfterSkips(text: string, e: nat, m: nat, spans: seq<Span>)
    requires Ascending(spans, |text|) && e <= m <= (if spans == [] then |text| else spans[0].start)
    ensures After(text, e, spans) == text[e..m] + After(text, m, spans)
  {
    if spans == [] {
      assert text[e..] == text[e..m] + text[m..];
    } else {
      var next := spans[0].start;
      assert text[e..next] == text[e..m] + text[m..next];
      var url, rest := spans[0].url, After(text, spans[0].end, spans[1..]);
      Associates(text[e..m], text[m..next], url);
      Associates(text[e..m], text[m..next] + url, rest);
    }
  }

  lemma WithoutCut(text: string, sorted: seq<Cut>, i: nat, url: Cut -> string)
    requires LeftToRight(sorted, |text|) && i < |sorted| && LeftToRight(Without(sorted, i), |text|)
    ensures Replaced(text, Filled(Without(sorted, i), url)) ==
            UpTo(text, sorted, i, url) + text[sorted[i].start..sorted[i].end] + Behind(text, sorted, i, url)
  {
    var z, before, rest := sorted[i], Filled(sorted[..i], url), Filled(sorted[i + 1..], url);
    PrefixEnds(sorted, i, url, |text|);
    SuffixStarts(sorted, i, url, |text|);
    FilledJoin(sorted[..i], sorted[i + 1..], url);
    ReplacedSplits(text, before, rest);
    var e := EndOf(before);
    assert After(text, e, rest) == text[e..z.start] + (text[z.start..z.end] + After(text, z.end, rest)) by {
      AfterSkips(text, e, z.start, rest);
      AfterSkips(text, z.start, z.end, rest);
    }
    var gap, cut, behind := text[e..z.start], text[z.start..z.end], After(text, z.end, rest);
    Associates(Pieces(text, before), gap, cut + behind);
    Associates(Pieces(text, before) + gap, cut, behind);
  }

  /** The right answer around the i-th cut, with it and without it. */
  lemma RightAround(text: string, sorted: seq<Cut>, i: nat, url: Cut -> string, size: Cut -> nat)
    requires LeftToRight(sorted, |text|) && i < |sorted| && Fits(url, size)
    ensures LeftToRight(Without(sorted, i), |text|)
    ensures var z, x, y := sorted[i], UpTo(text, sorted, i, url), Behind(text, sorted, i, url);
            && Replaced(text, Filled(sorted, url)) == x + url(z) + y
            && Replaced(text, Filled(Without(sorted, i), url)) == x + text[z.start..z.end] + y
            && |x| == z.start + SumGrowth(sorted[..i], size)
  {
    WithoutLeftToRight(sorted, i, |text|);
    var z, before, rest := sorted[i], Filled(sorted[..i], url), Filled(sorted[i + 1..], url);
    PrefixEnds(sorted, i, url, |text|);
    SuffixStarts(sorted, i, url, |text|);
    PiecesLength(text, before);
    FilledGrowth(sorted[..i], url, size);
    WithCut(text, sorted, i, url);
    WithoutCut(text, sorted, i, url);
  }

  lemma SpliceMiddle(x: string, mid: string, y: string, span: Span, offset: int)
    requires span.start + offset == |x| && span.end + offset == |x| + |mid|
    ensures Splice(x + mid + y, span, offset) == x + span.url + y
  {
    var text := x + mid + y;
    assert SliceTo(text, span.start + offset) == x;
    assert SliceFrom(text, span.end + offset) == y;
  }

  lemma InitBalanced(cuts: seq<Cut>, size: Cut -> nat)
    requires cuts != []
    ensures Balanced(cuts, size) <==>
            Balanced(cuts[..|cuts| - 1], size) && BalancedAt(cuts, size, |cuts| - 1)
  {
    var n := |cuts| - 1;
    forall k | 0 <= k < n ensures BalancedAt(cuts, size, k) <==> BalancedAt(cuts[..n], size, k) {
      assert cuts[..n][..k] == cuts[..k];
    }
  }

  lemma InitNotNegative(cuts: seq<Cut>, size: Cut -> nat)
    requires cuts != [] && NeverNegative(cuts, size)
    ensures NeverNegative(cuts[..|cuts| - 1], size)
  {
    var n := |cuts| - 1;
    forall k | 0 <= k < n ensures NotNegativeAt(cuts[..n], size, k) {
      assert NotNegativeAt(cuts, size, k) && cuts[..n][..k] == cuts[..k];
    }
  }

  /** A balanced list is spliced right, whatever the text, the replacements and their sizes. */
  lemma {:induction false} BalancedIsRight(text: string, cuts: seq<Cut>, sorted: seq<Cut>, url: Cut -> string,
                                           size: Cut -> nat)
    requires Lists(cuts, sorted, |text|) && Balanced(cuts, size) && Fits(url, size)
    ensures Spliced(text, Filled(cuts, url)) == Replaced(text, Filled(sorted, url))
    decreases |cuts|
  {
    SameCuts(cuts, sorted);
    if cuts == [] {
      assert text[0..] == text;
    } else {
      var i := PlaceOf(cuts, sorted);
      var init, z := cuts[..|cuts| - 1], sorted[i];
      InitBalanced(cuts, size);
      WithoutLeftToRight(sorted, i, |text|);
      BalancedIsRight(text, init, Without(sorted, i), url, size);
      RightAround(text, sorted, i, url, size);
      LastOffset(cuts, sorted, i, size, |text|);
      LastSplice(text, cuts, url, size);
      SpliceMiddle(UpTo(text, sorted, i, url), text[z.start..z.end], Behind(text, sorted, i, url),
                   Span(z.start, z.end, url(z)), SumGrowth(init, size));
    }
  }

  // --- When it does -----------------------------------------------------------

  const PLAIN := 'a'
  const MARK := 'X'

  function Repeat(c: char, n: nat): (r: string) {
    seq(n, _ => c)
  }

  /** The replacement of one cut is all one character; everything else is plain. */
  function Marked(cut: Cut, with: char, size: Cut -> nat): Cut -> string {
    (c: Cut) => Repeat(if c == cut then with else PLAIN, size(c))
  }

  lemma MarkedFits(cut: Cut, with: char, size: Cut -> nat)
    ensures Fits(Marked(cut, with, size), size)
  {
  }

  function Got(text: string, cuts: seq<Cut>, cut: Cut, with: char, size: Cut -> nat): string {
    Spliced(text, Filled(cuts, Marked(cut, with, size)))
  }

  function Right(text: string, sorted: seq<Cut>, cut: Cut, with: char, size: Cut -> nat): string
    requires LeftToRight(sorted, |text|)
  {
    Replaced(text, Filled(sorted, Marked(cut, with, size)))
  }

  /** Two replacements of one cut that the right answer tells apart at q. */
  predicate RightShows(text: string, sorted: seq<Cut>, size: Cut -> nat, cut: Cut, q: nat)
    requires LeftToRight(sorted, |text|)
  {
    && q < |Right(text, sorted, cut, MARK, size)| == |Right(text, sorted, cut, PLAIN, size)|
    && Right(text, sorted, cut, MARK, size)[q] != Right(text, sorted, cut, PLAIN, size)[q]
  }

  /** And that the loop's output does not. */
  predicate GotHides(text: string, cuts: seq<Cut>, size: Cut -> nat, cut: Cut, q: nat) {
    && q < |Got(text, cuts, cut, MARK, size)| == |Got(text, cuts, cut, PLAIN, size)|
    && Got(text, cuts, cut, MARK, size)[q] == Got(text, cuts, cut, PLAIN, size)[q]
  }

  /** Two replacements of one cut that should differ at q, and do not in what the loop makes. */
  ghost predicate Misplaced(text: string, cuts: seq<Cut>, sorted: seq<Cut>, size: Cut -> nat, cut: Cut, q: nat)
    requires LeftToRight(sorted, |text|)
  {
    RightShows(text, sorted, size, cut, q) && GotHides(text, cuts, size, cut, q)
  }

  /** Without negative indices every slice of the loop stays inside the text. */
  lemma {:induction false} SplicedLength(text: string, cuts: seq<Cut>, url: Cut -> string, size: Cut -> nat)
    requires NeverNegative(cuts, size) && Fits(url, size)
    requires forall i :: 0 <= i < |cuts| ==> cuts[i].start < cuts[i].end <= |text|
    ensures |Spliced(text, Filled(cuts, url))| == |text| + SumGrowth(cuts, size)
  {
    if cuts == [] {
    } else {
      var n := |cuts| - 1;
      InitNotNegative(cuts, size);
      assert NotNegativeAt(cuts, size, n);
      SplicedLength(text, cuts[..n], url, size);
      LastSplice(text, cuts, url, size);
    }
  }

  lemma {:induction false} ReplacedLength(text: string, sorted: seq<Cut>, url: Cut -> string, size: Cut -> nat)
    requires LeftToRight(sorted, |text|) && Fits(url, size)
    ensures |Replaced(text, Filled(sorted, url))| == |text| + SumGrowth(sorted, size)
  {
    PiecesLength(text, Filled(sorted, url));
    FilledGrowth(sorted, url, size);
  }

  lemma AllInside(cuts: seq<Cut>, sorted: seq<Cut>, n: nat)
    requires Lists(cuts, sorted, n)
    ensures forall i :: 0 <= i < |cuts| ==> cuts[i].start < cuts[i].end <= n
  {
    SameCuts(cuts, sorted);
    forall i | 0 <= i < |cuts| ensures cuts[i].start < cuts[i].end <= n {
      assert cuts[i] in sorted;
    }
  }

  /** Both sides have the length they should have. */
  lemma Lengths(text: string, cuts: seq<Cut>, sorted: seq<Cut>, cut: Cut, with: char, size: Cut -> nat)
    requires Lists(cuts, sorted, |text|) && NeverNegative(cuts, size)
    ensures |Got(text, cuts, cut, with, size)| == |Right(text, sorted, cut, with, size)|
         == |text| + SumGrowth(sorted, size)
  {
    MarkedFits(cut, with, size);
    AllInside(cuts, sorted, |text|);
    SplicedLength(text, cuts, Marked(cut, with, size), size);
    ReplacedLength(text, sorted, Marked(cut, with, size), size);
    SumPermutes(cuts, sorted, GrowthOf(size));
  }

  /** A splice changes nothing before its place, and only moves what follows the part it takes out. */
  lemma SpliceKeeps(text: string, span: Span, offset: int, q: nat)
    requires 0 <= span.start + offset <= span.end + offset <= |text|
    ensures |Splice(text, span, offset)| == |text| + Growth(span)
    ensures q < span.start + offset ==> Splice(text, span, offset)[q] == text[q]
    ensures span.end + offset <= q < |text| ==> Splice(text, span, offset)[q + Growth(span)] == text[q]
  {
  }

  lemma JoinAt(x: string, mid: string, y: string, q: nat)
    requires q < |x + mid + y|
    ensures (x + mid + y)[q] ==
            if q < |x| then x[q] else if q < |x| + |mid| then mid[q - |x|] else y[q - |x| - |mid|]
  {
  }

  /** Two joined texts that differ only beside their common middle go on doing so with another. */
  lemma OtherMiddle(x: string, y: string, x': string, y': string, mid: string, u: string, q: nat) returns (r: nat)
    requires |x| == |x'| && |y| == |y'| && q < |x + mid + y| && (x + mid + y)[q] != (x' + mid + y')[q]
    ensures r < |x + u + y| == |x' + u + y'| && (x + u + y)[r] != (x' + u + y')[r]
    ensures if q < |x| then r == q else q >= |x| + |mid| && r == q - |mid| + |u|
  {
    JoinAt(x, mid, y, q);
    JoinAt(x', mid, y', q);
    r := if q < |x| then q else q - |mid| + |u|;
    JoinAt(x, u, y, r);
    JoinAt(x', u, y', r);
  }

  /** Two texts that agree at q still do, at the same or the shifted place, after a splice. */
  lemma SplicesAgree(p: string, p': string, span: Span, offset: int, q: nat)
    requires |p| == |p'| && q < |p| && p[q] == p'[q]
    requires 0 <= span.start + offset <= span.end + offset <= |p|
    requires q < span.start + offset || span.end + offset <= q
    ensures |Splice(p, span, offset)| == |Splice(p', span, offset)| == |p| + Growth(span)
    ensures var r := if q < span.start + offset then q else q + Growth(span);
            && 0 <= r < |p| + Growth(span)
            && Splice(p, span, offset)[r] == Splice(p', span, offset)[r]
  {
    SpliceKeeps(p, span, offset, q);
    SpliceKeeps(p', span, offset, q);
  }

  lemma NotAmongFirst(cuts: seq<Cut>, sorted: seq<Cut>, i: nat, n: nat)
    requires Lists(cuts, sorted, n) && cuts != [] && i < |sorted| && sorted[i] == cuts[|cuts| - 1]
    requires multiset(cuts[..|cuts| - 1]) == multiset(Without(sorted, i))
    ensures cuts[|cuts| - 1] !in cuts[..|cuts| - 1]
  {
    WithoutLeftToRight(sorted, i, n);
    SameCuts(cuts[..|cuts| - 1], Without(sorted, i));
  }

  /** Where the replacement of a cut belongs, its characters are. */
  lemma RightHasMark(text: string, sorted: seq<Cut>, i: nat, with: char, size: Cut -> nat, q: int)
    requires LeftToRight(sorted, |text|) && i < |sorted|
    requires var place := sorted[i].start + SumGrowth(sorted[..i], size); place <= q < place + size(sorted[i])
    ensures 0 <= q < |Right(text, sorted, sorted[i], with, size)|
    ensures Right(text, sorted, sorted[i], with, size)[q] == with
  {
    var url := Marked(sorted[i], with, size);
    MarkedFits(sorted[i], with, size);
    RightAround(text, sorted, i, url, size);
    var x, y := UpTo(text, sorted, i, url), Behind(text, sorted, i, url);
    assert (x + url(sorted[i]) + y)[q] == url(sorted[i])[q - |x|];
  }

  /** The last splice does not write at q. */
  predicate Misses(cuts: seq<Cut>, size: Cut -> nat, q: nat)
    requires cuts != []
  {
    var z, offset := cuts[|cuts| - 1], SumGrowth(cuts[..|cuts| - 1], size);
    q < z.start + offset || q >= z.start + offset + size(z)
  }

  /** Outside the part it writes, a splice does not depend on what it writes. */
  lemma SpliceOutside(text: string, span: Span, other: string, offset: int, q: nat)
    requires |other| == |span.url| && 0 <= span.start + offset <= span.end + offset <= |text|
    requires q < |Splice(text, span, offset)|
    requires q < span.start + offset || q >= span.start + offset + |span.url|
    ensures q < |Splice(text, span.(url := other), offset)|
    ensures Splice(text, span, offset)[q] == Splice(text, span.(url := other), offset)[q]
  {
  }

  lemma LastFits(text: string, cuts: seq<Cut>, sorted: seq<Cut>, cut: Cut, with: char, size: Cut -> nat)
    requires Lists(cuts, sorted, |text|) && NeverNegative(cuts, size) && cuts != []
    ensures var z, offset := cuts[|cuts| - 1], SumGrowth(cuts[..|cuts| - 1], size);
            0 <= z.start + offset <= z.end + offset <= |Got(text, cuts[..|cuts| - 1], cut, with, size)|
  {
    AllInside(cuts, sorted, |text|);
    InitNotNegative(cuts, size);
    assert NotNegativeAt(cuts, size, |cuts| - 1);
    MarkedFits(cut, with, size);
    SplicedLength(text, cuts[..|cuts| - 1], Marked(cut, with, size), size);
  }

  lemma MissedIsSame(text: string, cuts: seq<Cut>, sorted: seq<Cut>, size: Cut -> nat, q: nat)
    requires Lists(cuts, sorted, |text|) && NeverNegative(cuts, size) && cuts != [] && Misses(cuts, size, q)
    requires cuts[|cuts| - 1] !in cuts[..|cuts| - 1]
    requires q < |Got(text, cuts, cuts[|cuts| - 1], MARK, size)| == |Got(text, cuts, cuts[|cuts| - 1], PLAIN, size)|
    ensures Got(text, cuts, cuts[|cuts| - 1], MARK, size)[q] == Got(text, cuts, cuts[|cuts| - 1], PLAIN, size)[q]
  {
    var n := |cuts| - 1;
    var z, init, offset := cuts[n], cuts[..n], SumGrowth(cuts[..n], size);
    var mark, plain := Marked(z, MARK, size), Marked(z, PLAIN, size);
    assert Filled(init, mark) == Filled(init, plain);
    MarkedFits(z, MARK, size);
    MarkedFits(z, PLAIN, size);
    LastSplice(text, cuts, mark, size);
    LastSplice(text, cuts, plain, size);
    LastFits(text, cuts, sorted, z, MARK, size);
    SpliceOutside(Spliced(text, Filled(init, mark)), Span(z.start, z.end, mark(z)), plain(z), offset, q);
  }

  /** A cut that is last in the list and not balanced lands beside its place. */
  lemma LandsBeside(text: string, cuts: seq<Cut>, sorted: seq<Cut>, i: nat, size: Cut -> nat) returns (q: nat)
    requires Lists(cuts, sorted, |text|) && NeverNegative(cuts, size)
    requires cuts != [] && i < |sorted| && sorted[i] == cuts[|cuts| - 1] && size(sorted[i]) >= 1
    requires multiset(cuts[..|cuts| - 1]) == multiset(Without(sorted, i))
    requires !BalancedAt(cuts, size, |cuts| - 1)
    ensures Misplaced(text, cuts, sorted, size, sorted[i], q)
  {
    var n := |cuts| - 1;
    var z, init := sorted[i], cuts[..n];
    var place, offset := z.start + SumGrowth(sorted[..i], size), SumGrowth(init, size);
    LastOffset(cuts, sorted, i, size, |text|);
    var at := if z.start + offset > place then place else place + size(z) - 1;
    RightHasMark(text, sorted, i, MARK, size, at);
    RightHasMark(text, sorted, i, PLAIN, size, at);
    q := at;
    Lengths(text, cuts, sorted, z, MARK, size);
    Lengths(text, cuts, sorted, z, PLAIN, size);
    assert Misses(cuts, size, q) by {
      assert q < z.start + offset || q >= z.start + offset + size(z);
    }
    NotAmongFirst(cuts, sorted, i, |text|);
    MissedIsSame(text, cuts, sorted, size, q);
  }

  /** Where a position ends up when n characters take the place of len characters at place. */
  function Moved(q: nat, place: int, len: nat, n: nat): int {
    if q < place then q else q - len + n
  }

  /** What the right answer shows without the last cut, it shows with it. */
  lemma RightStillShows(text: string, sorted: seq<Cut>, i: nat, cut: Cut, size: Cut -> nat, q: nat) returns (r: nat)
    requires LeftToRight(sorted, |text|) && i < |sorted| && cut != sorted[i] && LeftToRight(Without(sorted, i), |text|)
    requires RightShows(text, Without(sorted, i), size, cut, q)
    ensures RightShows(text, sorted, size, cut, r)
    ensures var z, place := sorted[i], sorted[i].start + SumGrowth(sorted[..i], size);
            && (q < place || place + (z.end - z.start) <= q)
            && r == Moved(q, place, z.end - z.start, size(z))
  {
    var z, mark, plain := sorted[i], Marked(cut, MARK, size), Marked(cut, PLAIN, size);
    MarkedFits(cut, MARK, size);
    MarkedFits(cut, PLAIN, size);
    RightAround(text, sorted, i, mark, size);
    RightAround(text, sorted, i, plain, size);
    assert mark(z) == plain(z);
    var x, y := UpTo(text, sorted, i, mark), Behind(text, sorted, i, mark);
    var x', y' := UpTo(text, sorted, i, plain), Behind(text, sorted, i, plain);
    assert |x + text[z.start..z.end] + y| == |x' + text[z.start..z.end] + y'|;
    r := OtherMiddle(x, y, x', y', text[z.start..z.end], mark(z), q);
  }

  /** What the loop hides before the last splice, it hides after. */
  lemma GotStillHides(text: string, cuts: seq<Cut>, cut: Cut, size: Cut -> nat, place: int, q: nat, r: nat)
    requires cuts != [] && cut != cuts[|cuts| - 1]
    requires GotHides(text, cuts[..|cuts| - 1], size, cut, q)
    requires place == cuts[|cuts| - 1].start + SumGrowth(cuts[..|cuts| - 1], size)
    requires var z := cuts[|cuts| - 1];
             && 0 <= place <= place + (z.end - z.start) <= |Got(text, cuts[..|cuts| - 1], cut, MARK, size)|
             && (q < place || place + (z.end - z.start) <= q)
             && r == Moved(q, place, z.end - z.start, size(z))
    ensures GotHides(text, cuts, size, cut, r)
  {
    var init, z := cuts[..|cuts| - 1], cuts[|cuts| - 1];
    var mark, plain := Marked(cut, MARK, size), Marked(cut, PLAIN, size);
    MarkedFits(cut, MARK, size);
    MarkedFits(cut, PLAIN, size);
    LastSplice(text, cuts, mark, size);
    LastSplice(text, cuts, plain, size);
    assert mark(z) == plain(z);
    SplicesAgree(Got(text, init, cut, MARK, size), Got(text, init, cut, PLAIN, size), Span(z.start, z.end, mark(z)),
                 SumGrowth(init, size), q);
  }

  /** A misplacement among the first cuts stays when the last one is spliced right. */
  lemma StaysMisplaced(text: string, cuts: seq<Cut>, sorted: seq<Cut>, i: nat, size: Cut -> nat, cut: Cut, q: nat)
      returns (r: nat)
    requires Lists(cuts, sorted, |text|) && NeverNegative(cuts, size)
    requires cuts != [] && i < |sorted| && sorted[i] == cuts[|cuts| - 1] && cut != sorted[i]
    requires multiset(cuts[..|cuts| - 1]) == multiset(Without(sorted, i)) && LeftToRight(Without(sorted, i), |text|)
    requires BalancedAt(cuts, size, |cuts| - 1)
    requires Misplaced(text, cuts[..|cuts| - 1], Without(sorted, i), size, cut, q)
    ensures Misplaced(text, cuts, sorted, size, cut, r)
  {
    var place := sorted[i].start + SumGrowth(sorted[..i], size);
    r := RightStillShows(text, sorted, i, cut, size, q);
    assert place == cuts[|cuts| - 1].start + SumGrowth(cuts[..|cuts| - 1], size) by {
      LastOffset(cuts, sorted, i, size, |text|);
    }
    LastFits(text, cuts, sorted, cut, MARK, size);
    GotStillHides(text, cuts, cut, size, place, q, r);
  }

  lemma {:induction false} UnbalancedShows(text: string, cuts: seq<Cut>, sorted: seq<Cut>, size: Cut -> nat)
      returns (cut: Cut, q: nat)
    requires Lists(cuts, sorted, |text|) && NeverNegative(cuts, size) && !Balanced(cuts, size)
    requires forall i :: 0 <= i < |sorted| ==> size(sorted[i]) >= 1
    ensures cut in cuts && Misplaced(text, cuts, sorted, size, cut, q)
    decreases |cuts|
  {
    assert cuts != [];
    var n := |cuts| - 1;
    var i := PlaceOf(cuts, sorted);
    if !BalancedAt(cuts, size, n) {
      cut := sorted[i];
      q := LandsBeside(text, cuts, sorted, i, size);
    } else {
      InitBalanced(cuts, size);
      InitNotNegative(cuts, size);
      WithoutLeftToRight(sorted, i, |text|);
      NotAmongFirst(cuts, sorted, i, |text|);
      cut, q := UnbalancedShows(text, cuts[..n], Without(sorted, i), size);
      q := StaysMisplaced(text, cuts, sorted, i, size, cut, q);
    }
  }

  /** The loop is right on a text and replacements: the order of the list does not show. */
  ghost predicate RightOn(text: string, cuts: seq<Cut>, sorted: seq<Cut>, url: Cut -> string)
    requires LeftToRight(sorted, |text|)
  {
    Spliced(text, Filled(cuts, url)) == Replaced(text, Filled(sorted, url))
  }

  /** On any one text, for disjoint cuts in any order and non-empty replacements of given sizes
      that never drive an index below zero: the loop is right for all of them exactly when the
      growths of the cuts spliced too early, to the right of the next one, always cancel out. */
  lemma RightExactlyWhenBalanced(text: string, cuts: seq<Cut>, sorted: seq<Cut>, size: Cut -> nat)
    requires Lists(cuts, sorted, |text|) && NeverNegative(cuts, size)
    requires forall i :: 0 <= i < |sorted| ==> size(sorted[i]) >= 1
    ensures Balanced(cuts, size) <==>
            forall url: Cut -> string | Fits(url, size) :: RightOn(text, cuts, sorted, url)
  {
    if Balanced(cuts, size) {
      forall url: Cut -> string | Fits(url, size) ensures RightOn(text, cuts, sorted, url) {
        BalancedIsRight(text, cuts, sorted, url, size);
      }
    } else {
      var cut, q := UnbalancedShows(text, cuts, sorted, size);
      MarkedFits(cut, MARK, size);
      MarkedFits(cut, PLAIN, size);
      assert !RightOn(text, cuts, sorted, Marked(cut, MARK, size))
          || !RightOn(text, cuts, sorted, Marked(cut, PLAIN, size));
    }
  }

  // --- Signed links -------------------------------------------------------------

  /** No replacement is shorter than its link. */
  predicate NonShrinking(cuts: seq<Cut>, size: Cut -> nat) {
    forall i :: 0 <= i < |cuts| ==> cuts[i].end - cuts[i].start <= size(cuts[i])
  }

  /** Only a link whose replacement has its length comes before a link further to the left. */
  ghost predicate InOrder(cuts: seq<Cut>, size: Cut -> nat) {
    forall j, k :: 0 <= j < k < |cuts| && cuts[j].start > cuts[k].start ==>
      size(cuts[j]) == cuts[j].end - cuts[j].start
  }

  lemma InOrderIsBalanced(cuts: seq<Cut>, size: Cut -> nat)
    requires NonShrinking(cuts, size)
    ensures InOrder(cuts, size) <==> Balanced(cuts, size)
  {
    if InOrder(cuts, size) {
      forall k | 0 <= k < |cuts| ensures BalancedAt(cuts, size, k) {
        SumZero(cuts[..k], RightOf(cuts[k], size));
      }
    }
    if Balanced(cuts, size) {
      forall j, k | 0 <= j < k < |cuts| && cuts[j].start > cuts[k].start
        ensures size(cuts[j]) == cuts[j].end - cuts[j].start
      {
        assert BalancedAt(cuts, size, k) && cuts[..k][j] == cuts[j];
        if size(cuts[j]) > cuts[j].end - cuts[j].start {
          SumPositive(cuts[..k], RightOf(cuts[k], size), j);
        }
      }
    }
  }

  lemma NonShrinkingNeverNegative(cuts: seq<Cut>, size: Cut -> nat)
    requires NonShrinking(cuts, size)
    ensures NeverNegative(cuts, size)
  {
    forall k | 0 <= k < |cuts| ensures NotNegativeAt(cuts, size, k) {
      SumNonNegative(cuts[..k], GrowthOf(size));
    }
  }

  lemma PermutedNonShrinking(cuts: seq<Cut>, sorted: seq<Cut>, size: Cut -> nat)
    requires multiset(cuts) == multiset(sorted) && NonShrinking(sorted, size)
    ensures NonShrinking(cuts, size)
  {
    SameCuts(cuts, sorted);
    forall i | 0 <= i < |cuts| ensures cuts[i].end - cuts[i].start <= size(cuts[i]) {
      assert cuts[i] in sorted;
    }
  }

  /** On any one text, for replacements that never shrink a link: the loop is right for all of
      them exactly when no link that grows is listed before one to its left. */
  lemma RightExactlyInOrder(text: string, cuts: seq<Cut>, sorted: seq<Cut>, size: Cut -> nat)
    requires Lists(cuts, sorted, |text|) && NonShrinking(sorted, size)
    ensures InOrder(cuts, size) <==>
            forall url: Cut -> string | Fits(url, size) :: RightOn(text, cuts, sorted, url)
  {
    PermutedNonShrinking(cuts, sorted, size);
    NonShrinkingNeverNegative(cuts, size);
    InOrderIsBalanced(cuts, size);
    RightExactlyWhenBalanced(text, cuts, sorted, size);
  }

  predicate Before(a: seq<Cut>, b: seq<Cut>) {
    forall i, j :: 0 <= i < |a| && 0 <= j < |b| ==> a[i].end <= b[j].start
  }

  lemma JoinAscends(n: nat, a: seq<Cut>, b: seq<Cut>)
    ensures LeftToRight(a + b, n) <==> LeftToRight(a, n) && LeftToRight(b, n) && Before(a, b)
  {
    var c := a + b;
    assert forall i :: 0 <= i < |a| ==> c[i] == a[i];
    assert forall j :: 0 <= j < |b| ==> c[|a| + j] == b[j];
    if LeftToRight(c, n) {
      forall i, j | 0 <= i < j < |b| ensures b[i].end <= b[j].start {
        assert c[|a| + i].end <= c[|a| + j].start;
      }
      forall i, j | 0 <= i < |a| && 0 <= j < |b| ensures a[i].end <= b[j].start {
        assert c[i].end <= c[|a| + j].start;
      }
    }
  }

  lemma PassesAscend(n: nat, images: seq<Cut>, files: seq<Cut>, tools: seq<Cut>)
    requires LeftToRight(images, n) && LeftToRight(files, n) && LeftToRight(tools, n)
    ensures LeftToRight(images + files + tools, n)
       <==> Before(images, files) && Before(images, tools) && Before(files, tools)
  {
    JoinAscends(n, images + files, tools);
    JoinAscends(n, images, files);
    var c := images + files;
    assert forall i :: 0 <= i < |images| ==> c[i] == images[i];
    assert forall j :: 0 <= j < |files| ==> c[|images| + j] == files[j];
  }

  lemma NothingBehind(cuts: seq<Cut>, sorted: seq<Cut>, i: nat)
    requires cuts != [] && i < |sorted| && multiset(cuts[..|cuts| - 1]) == multiset(Without(sorted, i))
    requires forall j :: 0 <= j < |cuts| ==> cuts[j].start <= cuts[|cuts| - 1].start
    ensures forall j :: 0 <= j < |Without(sorted, i)| ==> Without(sorted, i)[j].start <= cuts[|cuts| - 1].start
  {
    SameCuts(cuts[..|cuts| - 1], Without(sorted, i));
    forall j | 0 <= j < |Without(sorted, i)| ensures Without(sorted, i)[j].start <= cuts[|cuts| - 1].start {
      assert Without(sorted, i)[j] in cuts[..|cuts| - 1];
    }
  }

  /** Without a link listed before one to its left, the list runs from left to right. */
  lemma {:induction false} NoInversions(cuts: seq<Cut>, sorted: seq<Cut>, n: nat)
    requires Lists(cuts, sorted, n)
    requires forall j, k :: 0 <= j < k < |cuts| ==> cuts[j].start <= cuts[k].start
    ensures cuts == sorted
    decreases |cuts|
  {
    SameCuts(cuts, sorted);
    if cuts == [] {
    } else {
      var i := PlaceOf(cuts, sorted);
      var k := |cuts| - 1;
      WithoutLeftToRight(sorted, i, n);
      NothingBehind(cuts, sorted, i);
      assert k > 0 ==> Without(sorted, i)[k - 1].start < sorted[i].start;
      assert Without(sorted, i) == sorted[..k];
      NoInversions(cuts[..k], sorted[..k], n);
      InitIs(cuts);
      InitIs(sorted);
    }
  }

  /** The three passes each scan from left to right, and the loop runs over one after the other.
      When every replacement is longer than its link, it is right on a text for all of them exactly
      when all the links of each pass lie to the left of those of the later passes. */
  lemma RightExactlyWhenPassesFollow(text: string, images: seq<Cut>, files: seq<Cut>, tools: seq<Cut>,
                                     sorted: seq<Cut>, size: Cut -> nat)
    requires LeftToRight(images, |text|) && LeftToRight(files, |text|) && LeftToRight(tools, |text|)
    requires Lists(images + files + tools, sorted, |text|)
    requires forall i :: 0 <= i < |sorted| ==> sorted[i].end - sorted[i].start < size(sorted[i])
    ensures (Before(images, files) && Before(images, tools) && Before(files, tools)) <==>
            forall url: Cut -> string | Fits(url, size) :: RightOn(text, images + files + tools, sorted, url)
  {
    var cuts := images + files + tools;
    RightExactlyInOrder(text, cuts, sorted, size);
    PassesAscend(|text|, images, files, tools);
    SameCuts(cuts, sorted);
    forall i | 0 <= i < |cuts| ensures cuts[i].end - cuts[i].start < size(cuts[i]) {
      assert cuts[i] in sorted;
    }
    if InOrder(cuts, size) {
      NoInversions(cuts, sorted, |text|);
    }
  }

  lemma SplicedTwo(text: string, first: Span, second: Span)
    ensures Spliced(text, [first, second]) == Splice(Splice(text, first, 0), second, Growth(first))
  {
    var spans := [first, second];
    assert spans[..1] == [first] && [first][..0] == [];
    assert TotalGrowth([first]) == Growth(first);
    assert Spliced(text, [first]) == Splice(text, first, 0);
  }

  /** Two splices that both write behind q. */
  lemma TwoLeaveAlone(text: string, first: Span, second: Span, q: nat)
    requires q < first.start <= first.end <= |text| && second.start <= second.end <= |text|
    requires q < second.start + Growth(first)
    ensures q < |Spliced(text, [first, second])| && Spliced(text, [first, second])[q] == text[q]
  {
    SplicedTwo(text, first, second);
    SpliceKeeps(text, first, 0, q);
    SpliceKeeps(Splice(text, first, 0), second, Growth(first), q);
  }

  lemma CharacterAt(a: string, c: char, b: string)
    ensures (a + [c] + b)[|a|] == c && |a + [c] + b| == |a| + 1 + |b|
  {
  }

  lemma Differ(text: string, first: Span, second: Span, q: nat, right: string, rest: string)
    requires q < first.start <= first.end <= |text| && second.start <= second.end <= |text|
    requires q < second.start + Growth(first) && q < |right| && right[q] != text[q]
    ensures Spliced(text, [first, second]) != right + rest
  {
    TwoLeaveAlone(text, first, second, q);
    assert (right + rest)[q] == right[q];
  }

  /** A link that grows by more than the link before it is long, and is spliced first. */
  lemma EarlierIsSpoilt(a: string, b: string, signedA: string, signedB: string)
    requires |signedB| > |a| + |b| && |signedA| > |a| && signedA[|a|] != ' '
    ensures Spliced(a + " " + b, [Span(|a| + 1, |a| + 1 + |b|, signedB), Span(0, |a|, signedA)])
         != signedA + " " + signedB
  {
    var text := a + " " + b;
    CharacterAt(a, ' ', b);
    assert |text| == |a| + 1 + |b| && text[|a|] == ' ';
    Differ(text, Span(|a| + 1, |a| + 1 + |b|, signedB), Span(0, |a|, signedA), |a|, signedA, " " + signedB);
    Associates(signedA, " ", signedB);
  }

  /** A text that the code really receives: a tool link before an image preview. The preview is
      found and spliced first, and with any signature of 18 characters or more the text is spoilt. */
  lemma ToolBeforeImageIsSpoilt(signature: string, other: string)
    requires |signature| >= 18
    ensures var tool, image := "/files/tools/a.png", "/files/b/image-preview";
            var text := tool + " " + image;
            var signedTool, signedImage := tool + "?" + other, image + "?" + signature;
            && text[0..18] == tool && text[19..41] == image
            && Spliced(text, [Span(19, 41, signedImage), Span(0, 18, signedTool)]) != signedTool + " " + signedImage
  {
    var tool, image := "/files/tools/a.png", "/files/b/image-preview";
    var text := tool + " " + image;
    var signedTool, signedImage := tool + "?" + other, image + "?" + signature;
    EarlierIsSpoilt(tool, image, signedTool, signedImage);
  }

  lemma SumOfOne(c: Cut, f: Cut -> int)
    ensures Sum([c], f) == f(c)
  {
    assert [c][..0] == [];
  }

  lemma WrappedIsUnbalanced(size: Cut -> nat)
    requires size(Cut(2, 6)) == 1
    ensures !Balanced([Cut(2, 6), Cut(0, 2)], size)
  {
    var cuts, f := [Cut(2, 6), Cut(0, 2)], RightOf(Cut(0, 2), size);
    SumOfOne(Cut(2, 6), f);
    assert cuts[..1] == [Cut(2, 6)];
    assert !BalancedAt(cuts, size, 1);
  }

  lemma WrappedSplices(text: string, u: string, v: string)
    requires |text| == 6 && |u| == 1 == |v|
    ensures Spliced(text, [Span(2, 6, u), Span(0, 2, v)]) == v + u
  {
    SplicedTwo(text, Span(2, 6, u), Span(0, 2, v));
    var once := Splice(text, Span(2, 6, u), 0);
    assert once == text[..2] + u;
    assert SliceTo(once, -3) == [] && SliceFrom(once, -1) == u;
  }

  lemma TwoReplaced(text: string, u: string, v: string)
    requires |text| == 6
    ensures Replaced(text, [Span(0, 2, v), Span(2, 6, u)]) == v + u
  {
    var spans := [Span(0, 2, v), Span(2, 6, u)];
    assert spans[..1] == [Span(0, 2, v)] && [Span(0, 2, v)][..0] == [];
    assert Pieces(text, [Span(0, 2, v)]) == text[0..0] + v;
    assert Pieces(text, spans) == v + text[2..2] + u;
  }

  lemma WrappedIsRight(text: string, url: Cut -> string)
    requires |text| == 6 && |url(Cut(2, 6))| == 1 == |url(Cut(0, 2))|
    requires LeftToRight([Cut(0, 2), Cut(2, 6)], 6)
    ensures RightOn(text, [Cut(2, 6), Cut(0, 2)], [Cut(0, 2), Cut(2, 6)], url)
  {
    var u, v := url(Cut(2, 6)), url(Cut(0, 2));
    WrappedSplices(text, u, v);
    TwoReplaced(text, u, v);
    assert Filled([Cut(2, 6), Cut(0, 2)], url) == [Span(2, 6, u), Span(0, 2, v)];
    assert Filled([Cut(0, 2), Cut(2, 6)], url) == [Span(0, 2, v), Span(2, 6, u)];
  }

  /** Below zero Python counts from the end, and an unbalanced list may come out right after all. */
  lemma WrappingCanBeRight(text: string, url: Cut -> string, size: Cut -> nat)
    requires |text| == 6 && Fits(url, size) && size(Cut(2, 6)) == 1 == size(Cut(0, 2))
    ensures var cuts, sorted := [Cut(2, 6), Cut(0, 2)], [Cut(0, 2), Cut(2, 6)];
            Lists(cuts, sorted, 6) && !Balanced(cuts, size) && RightOn(text, cuts, sorted, url)
  {
    var cuts, sorted := [Cut(2, 6), Cut(0, 2)], [Cut(0, 2), Cut(2, 6)];
    assert multiset(cuts) == multiset(sorted);
    WrappedIsUnbalanced(size);
    WrappedIsRight(text, url);
  }
}
