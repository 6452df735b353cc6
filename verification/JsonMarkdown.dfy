/** parse_json_markdown: find the JSON block in a text written by a language model. */
module JsonMarkdown {
  import opened Wrappers

  // --- Python's string methods ----------------------------------------------

  predicate At(s: string, p: string, i: nat) {
    i + |p| <= |s| && s[i..i + |p|] == p
  }

  predicate Occurs(s: string, p: string) {
    exists i: nat | i <= |s| :: At(s, p, i)
  }

  /** s.find(p, i) */
  function Find(s: string, p: string, i: nat): (r: int)
    requires i <= |s|
    ensures r == -1 ==> forall k: nat :: i <= k ==> !At(s, p, k)
    ensures r != -1 ==> i <= r && At(s, p, r) && forall k: nat :: i <= k < r ==> !At(s, p, k)
    decreases |s| - i
  {
    if At(s, p, i) then i
    else if i == |s| then -1
    else Find(s, p, i + 1)
  }

  /** s.rfind(p, i), with every occurrence after hi already excluded. */
  function FindLast(s: string, p: string, i: nat, hi: nat): (r: int)
    requires forall k: nat :: hi < k ==> !At(s, p, k)
    ensures r == -1 ==> forall k: nat :: i <= k ==> !At(s, p, k)
    ensures r != -1 ==> i <= r && At(s, p, r) && forall k: nat :: r < k ==> !At(s, p, k)
    decreases hi
  {
    if hi < i then -1
    else if At(s, p, hi) then hi
    else if hi == 0 then -1
    else FindLast(s, p, i, hi - 1)
  }

  function RFind(s: string, p: string, i: nat): (r: int)
    ensures r == -1 ==> forall k: nat :: i <= k ==> !At(s, p, k)
    ensures r != -1 ==> i <= r && At(s, p, r) && forall k: nat :: r < k ==> !At(s, p, k)
  {
    FindLast(s, p, i, |s|)
  }

  /** str.isspace for one character. */
  predicate IsSpace(c: char) {
    var n := c as int;
    || 9 <= n <= 13 || 28 <= n <= 32 || n == 0x85 || n == 0xA0 || n == 0x1680
    || 0x2000 <= n <= 0x200A || n == 0x2028 || n == 0x2029 || n == 0x202F || n == 0x205F || n == 0x3000
  }

  predicate Blank(s: string) {
    forall i :: 0 <= i < |s| ==> IsSpace(s[i])
  }

  function LStrip(s: string): string {
    if s != [] && IsSpace(s[0]) then LStrip(s[1..]) else s
  }

  function RStrip(s: string): string {
    if s != [] && IsSpace(s[|s| - 1]) then RStrip(s[..|s| - 1]) else s
  }

  /** s.strip() */
  function Strip(s: string): string {
    RStrip(LStrip(s))
  }

  // --- The parser -----------------------------------------------------------

  const STARTS: seq<string> := ["```json", "```", "``", "`", "{", "["]
  const ENDS: seq<string> := ["```", "``", "`", "}", "]"]

  /** Where the content begins: after the first kind of fence that occurs, or at a bracket. */
  function Opening(s: string, starts: seq<string>): (r: Option<nat>)
    ensures r.Some? ==> r.value <= |s|
  {
    if starts == [] then None
    else
      var i := Find(s, starts[0], 0);
      if i == -1 then Opening(s, starts[1..])
      else Some(if starts[0] == "{" || starts[0] == "[" then i else i + |starts[0]|)
  }

  function Closing(s: string, start: nat, ends: seq<string>): (r: Option<nat>)
    ensures r.Some? ==> r.value <= |s|
  {
    if ends == [] then None
    else
      var i := RFind(s, ends[0], start);
      if i == -1 then Closing(s, start, ends[1..])
      else Some(if ends[0] == "}" || ends[0] == "]" then i + 1 else i)
  }

  function Start(s: string): (r: Option<nat>)
    ensures r.Some? ==> r.value <= |s|
  {
    Opening(s, STARTS)
  }

  function End(s: string, start: nat): (r: Option<nat>)
    ensures r.Some? ==> r.value <= |s|
  {
    Closing(s, start, ENDS)
  }

  /** What is taken out of a text without blanks around it. */
  function Block(s: string): Option<string> {
    var start := Start(s);
    if start.None? then None
    else
      var end := End(s, start.value);
      if end.Some? && start.value < end.value then Some(Strip(s[start.value..end.value])) else None
  }

  /** The text handed to the JSON parser. */
  function Extract(text: string): Option<string> {
    Block(Strip(text))
  }

  lemma AtFirst(s: string, p: string, i: nat)
    requires At(s, p, i)
    ensures p != [] ==> i < |s| && s[i] == p[0]
  {
    if p != [] { assert s[i..i + |p|][0] == s[i]; }
  }

  lemma StartsWithFirst(s: string, k: nat, i: nat)
    requires k < |STARTS| && At(s, STARTS[k], i)
    ensures i < |s|
    ensures s[i] == '{' || s[i] == '[' <==> STARTS[k] == "{" || STARTS[k] == "["
  {
    AtFirst(s, STARTS[k], i);
    assert k == 0 || k == 1 || k == 2 || k == 3 || k == 4 || k == 5;
  }

  /** The first search loop. */
  method SearchStart(s: string) returns (startIndex: int)
    ensures startIndex == match Start(s) { case Some(i) => i as int case None => -1 }
  {
    startIndex := 0;
    var k := 0;
    while k < |STARTS|
      invariant k <= |STARTS|
      invariant Start(s) == Opening(s, STARTS[k..])
      invariant k > 0 ==> startIndex == -1
    {
      assert STARTS[k..][0] == STARTS[k] && STARTS[k..][1..] == STARTS[k + 1..];
      startIndex := Find(s, STARTS[k], 0);
      if startIndex != -1 {
        StartsWithFirst(s, k, startIndex);
        if s[startIndex] != '{' && s[startIndex] != '[' {
          startIndex := startIndex + |STARTS[k]|;
        }
        return;
      }
      k := k + 1;
    }
  }

  lemma EndsWithFirst(s: string, k: nat, i: nat)
    requires k < |ENDS| && At(s, ENDS[k], i)
    ensures i < |s|
    ensures s[i] == '}' || s[i] == ']' <==> ENDS[k] == "}" || ENDS[k] == "]"
  {
    AtFirst(s, ENDS[k], i);
    assert k == 0 || k == 1 || k == 2 || k == 3 || k == 4;
  }

  /** The second search loop. */
  method SearchEnd(s: string, startIndex: nat) returns (endIndex: int)
    ensures endIndex == match End(s, startIndex) { case Some(i) => i as int case None => -1 }
  {
    endIndex := -1;
    var k := 0;
    while k < |ENDS|
      invariant k <= |ENDS|
      invariant End(s, startIndex) == Closing(s, startIndex, ENDS[k..])
      invariant endIndex == -1
    {
      assert ENDS[k..][0] == ENDS[k] && ENDS[k..][1..] == ENDS[k + 1..];
      endIndex := RFind(s, ENDS[k], startIndex);
      if endIndex != -1 {
        EndsWithFirst(s, k, endIndex);
        if s[endIndex] == '}' || s[endIndex] == ']' {
          endIndex := endIndex + 1;
        }
        return;
      }
      k := k + 1;
    }
  }

  datatype ParseError = NoBlock | JsonError

  /** The parser, with json.loads given. */
  method ParseJsonMarkdown<J>(text: string, loads: string -> Option<J>) returns (r: Result<J, ParseError>)
    ensures Extract(text).None? ==> r == Err(NoBlock)
    ensures Extract(text).Some? ==>
              r == match loads(Extract(text).value) { case Some(v) => Ok(v) case None => Err(JsonError) }
  {
    var s := Strip(text);
    var startIndex := SearchStart(s);
    var endIndex := -1;
    if startIndex != -1 {
      endIndex := SearchEnd(s, startIndex);
    }
    if startIndex != -1 && endIndex != -1 && startIndex < endIndex {
      var v := loads(Strip(s[startIndex..endIndex]));
      r := if v.Some? then Ok(v.value) else Err(JsonError);
    } else {
      r := Err(NoBlock);
    }
  }

  // --- What stripping keeps -------------------------------------------------

  predicate Trimmed(s: string) {
    s != [] && !IsSpace(s[0]) && !IsSpace(s[|s| - 1])
  }

  lemma {:induction false} LStripBlank(w: string, s: string)
    requires Blank(w) && s != [] && !IsSpace(s[0])
    ensures LStrip(w + s) == s
  {
    if w == [] {
      assert w + s == s;
    } else {
      assert (w + s)[1..] == w[1..] + s && (w + s)[0] == w[0];
      LStripBlank(w[1..], s);
    }
  }

  lemma {:induction false} RStripBlank(s: string, w: string)
    requires Blank(w) && s != [] && !IsSpace(s[|s| - 1])
    ensures RStrip(s + w) == s
  {
    if w == [] {
      assert s + w == s;
    } else {
      assert (s + w)[..|s + w| - 1] == s + w[..|w| - 1] && (s + w)[|s + w| - 1] == w[|w| - 1];
      RStripBlank(s, w[..|w| - 1]);
    }
  }

  lemma StripBlanks(w: string, s: string, v: string)
    requires Blank(w) && Blank(v) && Trimmed(s)
    ensures Strip(w + s + v) == s
  {
    assert w + s + v == w + (s + v);
    LStripBlank(w, s + v);
    RStripBlank(s, v);
  }

  lemma StripTrimmed(s: string)
    requires Trimmed(s)
    ensures Strip(s) == s
  {
    StripBlanks([], s, []);
    assert [] + s + [] == s;
  }

  /** What LStrip takes off is blank. */
  lemma {:induction false} LStripSplits(s: string) returns (w: string)
    ensures Blank(w) && s == w + LStrip(s)
    ensures LStrip(s) != [] ==> !IsSpace(LStrip(s)[0])
  {
    if s != [] && IsSpace(s[0]) {
      var v := LStripSplits(s[1..]);
      w := [s[0]] + v;
    } else {
      w := [];
    }
  }

  lemma {:induction false} RStripSplits(s: string) returns (w: string)
    ensures Blank(w) && s == RStrip(s) + w
    ensures RStrip(s) != [] ==> !IsSpace(RStrip(s)[|RStrip(s)| - 1])
  {
    if s != [] && IsSpace(s[|s| - 1]) {
      var v := RStripSplits(s[..|s| - 1]);
      w := v + [s[|s| - 1]];
    } else {
      w := [];
    }
  }

  /** Stripping keeps everything between two characters that are not spaces. */
  lemma StripKeeps(s: string, i: nat, j: nat)
    requires i <= j < |s| && !IsSpace(s[i]) && !IsSpace(s[j])
    ensures |Strip(s)| >= j - i + 1
  {
    var w := LStripSplits(s);
    assert |w| <= i;
    var l := LStrip(s);
    var v := RStripSplits(l);
    assert l[j - |w|] == s[j];
    assert |RStrip(l)| > j - |w|;
  }

  // --- Fenced JSON ----------------------------------------------------------

  const FENCE: string := "```json"
  const CLOSE: string := "```"

  lemma {:induction false} LStripBefore(p: string, s: string)
    requires s != [] && !IsSpace(s[0])
    ensures LStrip(p + s) == LStrip(p) + s
  {
    if p == [] {
      assert p + s == s;
    } else {
      assert (p + s)[1..] == p[1..] + s && (p + s)[0] == p[0];
      LStripBefore(p[1..], s);
    }
  }

  lemma {:induction false} RStripAfter(s: string, p: string)
    requires s != [] && !IsSpace(s[|s| - 1])
    ensures RStrip(s + p) == s + RStrip(p)
  {
    if p == [] {
      assert s + p == s;
    } else {
      assert (s + p)[..|s + p| - 1] == s + p[..|p| - 1] && (s + p)[|s + p| - 1] == p[|p| - 1];
      RStripAfter(s, p[..|p| - 1]);
    }
  }

  predicate OpensWithTick(s: string) {
    s != [] && s[0] == '`'
  }

  predicate EndsWithTick(s: string) {
    s != [] && s[|s| - 1] == '`'
  }

  lemma AtFence(s: string, i: nat)
    requires At(s, FENCE, i)
    ensures i + 7 <= |s| && s[i] == s[i + 1] == s[i + 2] == '`' && s[i + 3] == 'j'
    ensures s[i + 4] == 's' && s[i + 5] == 'o' && s[i + 6] == 'n'
  {
    var t := s[i..i + |FENCE|];
    assert t[0] == s[i] && t[1] == s[i + 1] && t[2] == s[i + 2] && t[3] == s[i + 3];
    assert t[4] == s[i + 4] && t[5] == s[i + 5] && t[6] == s[i + 6];
  }

  lemma FencesDoNotOverlap(s: string, i: nat, j: nat)
    requires At(s, FENCE, i) && At(s, FENCE, j) && i < j
    ensures i + 7 <= j
  {
    AtFence(s, i);
    AtFence(s, j);
    var d := j - i;
    assert d != 1 && d != 2 by { assert s[i + 3] == 'j'; }
    assert d != 3 && d != 4 && d != 5 && d != 6;
  }

  /** A run of backticks. */
  function Ticks(n: nat): (t: string)
    ensures |t| == n
  {
    seq(n, _ => '`')
  }

  lemma AtTicks(s: string, n: nat, i: nat)
    ensures At(s, Ticks(n), i) <==> i + n <= |s| && forall k :: i <= k < i + n ==> s[k] == '`'
  {
    if i + n <= |s| {
      var t := s[i..i + n];
      forall k | i <= k < i + n ensures t[k - i] == s[k] {}
      if forall k :: i <= k < i + n ==> s[k] == '`' {
        assert forall k :: 0 <= k < n ==> t[k] == s[i + k] == Ticks(n)[k];
        assert t == Ticks(n);
      }
      if t == Ticks(n) {
        assert forall k :: i <= k < i + n ==> s[k] == Ticks(n)[k - i];
      }
    }
  }

  /** An opening fence never overlaps another one, so the first is the given one unless there
      is one in front of it. */
  lemma FirstFence(p: string, rest: string) returns (f: nat)
    ensures Find(p + FENCE + rest, FENCE, 0) == f && f <= |p|
    ensures f == |p| <==> !Occurs(p, FENCE)
    ensures f < |p| ==> f + 7 <= |p|
  {
    var s := p + FENCE + rest;
    assert s[|p|..|p| + 7] == FENCE;
    assert At(s, FENCE, |p|);
    var r := Find(s, FENCE, 0);
    assert r != -1;
    f := r;
    if f < |p| {
      FencesDoNotOverlap(s, f, |p|);
      assert p[f..f + 7] == s[f..f + 7];
      assert At(p, FENCE, f);
    } else {
      forall i: nat ensures !At(p, FENCE, i) {
        if At(p, FENCE, i) {
          assert s[i..i + 7] == p[i..i + 7];
          assert At(s, FENCE, i);
        }
      }
    }
  }

  /** The first run of n backticks is the given one unless one starts in front of it. */
  lemma FirstTicks(p: string, n: nat, rest: string) returns (f: nat)
    requires n >= 1
    ensures Find(p + Ticks(n) + rest, Ticks(n), 0) == f && f <= |p|
    ensures f == |p| <==> !Occurs(p, Ticks(n)) && !EndsWithTick(p)
  {
    var s := p + Ticks(n) + rest;
    AtTicks(s, n, |p|);
    var r := Find(s, Ticks(n), 0);
    assert r != -1;
    f := r;
    AtTicks(s, n, f);
    if f < |p| && f + n <= |p| {
      AtTicks(p, n, f);
      assert Occurs(p, Ticks(n));
    } else if f < |p| {
      assert s[|p| - 1] == '`';
    } else {
      forall i: nat ensures !At(p, Ticks(n), i) {
        AtTicks(p, n, i);
        AtTicks(s, n, i);
      }
      if p != [] { AtTicks(s, n, |p| - 1); }
    }
  }

  /** The last run of n backticks is the given one unless one ends behind it. */
  lemma LastClose(body: string, n: nat, q: string, start: nat) returns (g: nat)
    requires start <= |body| && n >= 1
    ensures RFind(body + Ticks(n) + q, Ticks(n), start) == g && |body| <= g && g + n <= |body| + n + |q|
    ensures g == |body| <==> !OpensWithTick(q) && !Occurs(q, Ticks(n))
  {
    var s := body + Ticks(n) + q;
    AtTicks(s, n, |body|);
    var r := RFind(s, Ticks(n), start);
    assert r != -1 && |body| <= r;
    g := r;
    AtTicks(s, n, g);
    if OpensWithTick(q) { AtTicks(s, n, |body| + 1); }
    if Occurs(q, Ticks(n)) {
      var i: nat :| i <= |q| && At(q, Ticks(n), i);
      AtTicks(q, n, i);
      AtTicks(s, n, |body| + n + i);
    }
    if g >= |body| + n {
      AtTicks(q, n, g - |body| - n);
      assert Occurs(q, Ticks(n));
    } else if g > |body| {
      assert s[|body| + n] == q[0];
    }
  }

  lemma FenceOpens(s: string, f: nat)
    requires Find(s, FENCE, 0) == f && f + 7 <= |s|
    ensures Start(s) == Some(f + 7)
  {
    assert STARTS[0] == FENCE;
  }

  lemma FenceIsTicks(s: string, i: nat)
    ensures At(s, FENCE, i) ==> At(s, Ticks(3), i)
  {
    if At(s, FENCE, i) {
      AtFence(s, i);
      AtTicks(s, 3, i);
    }
  }

  lemma FewerTicks(s: string, m: nat, n: nat)
    requires m <= n && !Occurs(s, Ticks(m))
    ensures !Occurs(s, Ticks(n)) && forall i: nat :: !At(s, Ticks(n), i)
  {
    forall i: nat ensures !At(s, Ticks(n), i) {
      AtTicks(s, n, i);
      AtTicks(s, m, i);
    }
  }

  /** No fence that the parser prefers to n backticks. */
  predicate NoLongerFence(s: string, n: nat) {
    if n >= 3 then !Occurs(s, "```json") else !Occurs(s, Ticks(n + 1))
  }

  lemma LongerFencesAbsent(s: string, n: nat, m: nat)
    requires 1 <= n < m <= 3 && NoLongerFence(s, n)
    ensures Find(s, Ticks(m), 0) == -1 && forall i: nat :: RFind(s, Ticks(m), i) == -1
    ensures Find(s, FENCE, 0) == -1
  {
    FewerTicks(s, n + 1, m);
    FewerTicks(s, n + 1, 3);
    forall i: nat {
      FenceIsTicks(s, i);
    }
  }

  lemma FenceStrings()
    ensures STARTS[0] == FENCE && STARTS[1] == Ticks(3) && STARTS[2] == Ticks(2) && STARTS[3] == Ticks(1)
    ensures ENDS[0] == Ticks(3) && ENDS[1] == Ticks(2) && ENDS[2] == Ticks(1)
  {
  }

  /** The first of them that occurs decides. */
  lemma {:induction false} OpeningFirst(s: string, starts: seq<string>, k: nat)
    requires k <= |starts| && forall i :: 0 <= i < k ==> Find(s, starts[i], 0) == -1
    ensures Opening(s, starts) == Opening(s, starts[k..])
    ensures k < |starts| && Find(s, starts[k], 0) != -1 && starts[k] != [] && starts[k][0] == '`' ==>
              Opening(s, starts) == Some(Find(s, starts[k], 0) + |starts[k]|)
  {
    if k == 0 {
      assert starts[0..] == starts;
    } else {
      OpeningFirst(s, starts[1..], k - 1);
      assert starts[1..][k - 1..] == starts[k..];
    }
  }

  lemma {:induction false} ClosingFirst(s: string, start: nat, ends: seq<string>, k: nat)
    requires k <= |ends| && forall i :: 0 <= i < k ==> RFind(s, ends[i], start) == -1
    ensures Closing(s, start, ends) == Closing(s, start, ends[k..])
    ensures k < |ends| && RFind(s, ends[k], start) != -1 && ends[k] != [] && ends[k][0] == '`' ==>
              Closing(s, start, ends) == Some(RFind(s, ends[k], start))
  {
    if k == 0 {
      assert ends[0..] == ends;
    } else {
      ClosingFirst(s, start, ends[1..], k - 1);
      assert ends[1..][k - 1..] == ends[k..];
    }
  }

  lemma AtOccurs(s: string, x: string, i: nat)
    ensures At(s, x, i) ==> Occurs(s, x)
  {
    if At(s, x, i) {
      assert i <= |s|;
    }
  }

  lemma NotFound(s: string, x: string)
    requires !Occurs(s, x)
    ensures Find(s, x, 0) == -1
  {
    forall i: nat {
      AtOccurs(s, x, i);
    }
  }

  lemma PreferredAbsent(s: string, n: nat, i: nat)
    requires 1 <= n <= 3 && i < 4 - n && NoLongerFence(s, n)
    ensures Find(s, STARTS[i], 0) == -1
  {
    FenceStrings();
    if n == 3 {
      NotFound(s, "```json");
    } else {
      LongerFencesAbsent(s, n, if i == 0 then 3 else 4 - i);
    }
  }

  lemma TicksOpen(s: string, n: nat, f: nat, a: nat)
    requires 1 <= n <= 3 && Find(s, Ticks(n), 0) == f && a == f + n && NoLongerFence(s, n)
    ensures Start(s) == Some(a)
  {
    forall i | 0 <= i < 4 - n ensures Find(s, STARTS[i], 0) == -1 {
      PreferredAbsent(s, n, i);
    }
    FenceStrings();
    OpeningFirst(s, STARTS, 4 - n);
    assert STARTS[4 - n] == Ticks(n);
  }

  lemma TicksClose(s: string, start: nat, n: nat, g: nat)
    requires 1 <= n <= 3 && RFind(s, Ticks(n), start) == g && (n < 3 ==> NoLongerFence(s, n))
    ensures End(s, start) == Some(g)
  {
    FenceStrings();
    forall i | 0 <= i < 3 - n ensures RFind(s, ENDS[i], start) == -1 {
      LongerFencesAbsent(s, n, 3 - i);
    }
    ClosingFirst(s, start, ENDS, 3 - n);
    assert ENDS[3 - n] == Ticks(n);
  }

  lemma ExtractAt(s: string, a: nat, g: nat)
    requires Start(s) == Some(a) && End(s, a) == Some(g) && a < g
    ensures g <= |s| && Block(s) == Some(Strip(s[a..g]))
  {
  }

  lemma TicksExtract(s: string, n: nat, f: nat, a: nat, g: nat)
    requires 1 <= n <= 3 && NoLongerFence(s, n) && a == f + n && a < g
    requires Find(s, Ticks(n), 0) == f && RFind(s, Ticks(n), a) == g
    ensures g <= |s| && Block(s) == Some(Strip(s[a..g]))
  {
    assert Start(s) == Some(a) by { TicksOpen(s, n, f, a); }
    assert End(s, a) == Some(g) by { TicksClose(s, a, n, g); }
    ExtractAt(s, a, g);
  }

  /** Stripping a slice keeps what lies between two of its characters that are not spaces. */
  lemma SliceKeeps(s: string, a: nat, b: nat, i: nat, k: nat)
    requires a <= i <= k < b <= |s| && !IsSpace(s[i]) && !IsSpace(s[k])
    ensures |Strip(s[a..b])| >= k - i + 1
  {
    var t := s[a..b];
    assert t[i - a] == s[i] && t[k - a] == s[k];
    StripKeeps(t, i - a, k - a);
  }

  /** A slice that reaches a backtick on either side of a text holds more than the text. */
  lemma SliceIsLonger(h: string, w: string, j: string, v: string, t: string, a: nat, g: nat, s: string)
    requires s == h + (w + j + v) + t && Trimmed(j)
    requires a <= |h| && |h| + |w + j + v| <= g <= |s|
    requires (exists i :: a <= i < |h| && !IsSpace(h[i])) || (|h| + |w + j + v| < g && !IsSpace(t[0]))
    ensures |Strip(s[a..g])| > |j|
  {
    var start := |h| + |w|;
    assert s[start] == j[0] && s[start + |j| - 1] == j[|j| - 1];
    if i :| a <= i < |h| && !IsSpace(h[i]) {
      assert s[i] == h[i];
      SliceKeeps(s, a, g, i, start + |j| - 1);
    } else {
      assert s[|h| + |w + j + v|] == t[0];
      SliceKeeps(s, a, g, start, |h| + |w + j + v|);
    }
  }

  /** What is extracted is the body exactly if it begins and ends where the body does. */
  lemma ExactSlice(s: string, h: string, w: string, j: string, v: string, t: string, a: nat, g: nat)
    requires Blank(w) && Blank(v) && Trimmed(j) && s == h + (w + j + v) + t
    requires h != [] && !IsSpace(h[|h| - 1]) && t != [] && !IsSpace(t[0])
    requires a <= |h| && |h| + |w + j + v| <= g <= |s| && Block(s) == Some(Strip(s[a..g]))
    ensures Block(s) == Some(j) <==> a == |h| && g == |h| + |w + j + v|
  {
    if a == |h| && g == |h| + |w + j + v| {
      assert s[a..g] == w + j + v;
      StripBlanks(w, j, v);
    } else {
      SliceIsLonger(h, w, j, v, t, a, g, s);
    }
  }

  /** The stripped text. */
  lemma FencedCore(p: string, w: string, j: string, v: string, q: string, s: string)
    requires Blank(w) && Blank(v) && Trimmed(j)
    requires s == p + FENCE + (w + j + v) + CLOSE + q
    ensures Block(s) == Some(j) <==> !Occurs(p, FENCE) && !OpensWithTick(q) && !Occurs(q, CLOSE)
  {
    var mid, h, t := w + j + v, p + FENCE, CLOSE + q;
    assert CLOSE == Ticks(3) && t[0] == '`' && h[|h| - 1] == 'n';
    assert s == p + FENCE + (mid + CLOSE + q) == h + mid + t == (h + mid) + CLOSE + q;
    var f := FirstFence(p, mid + CLOSE + q);
    var g := LastClose(h + mid, 3, q, f + 7);
    FenceOpens(s, f);
    TicksClose(s, f + 7, 3, g);
    ExtractAt(s, f + 7, g);
    ExactSlice(s, h, w, j, v, t, f + 7, g);
  }

  lemma TicksEdges(p: string, n: nat, q: string)
    requires n >= 1
    ensures var h, t := p + Ticks(n), Ticks(n) + q;
            h != [] && !IsSpace(h[|h| - 1]) && t != [] && !IsSpace(t[0])
  {
    var h, t := p + Ticks(n), Ticks(n) + q;
    assert h[|h| - 1] == '`' && t[0] == '`';
  }

  /** The same between two runs of backticks. */
  lemma TickedCore(n: nat, p: string, w: string, j: string, v: string, q: string, s: string)
    requires 1 <= n <= 3 && Blank(w) && Blank(v) && Trimmed(j) && NoLongerFence(s, n)
    requires s == p + Ticks(n) + (w + j + v) + Ticks(n) + q
    ensures Block(s) == Some(j) <==>
            && !Occurs(p, Ticks(n)) && !EndsWithTick(p)
            && !OpensWithTick(q) && !Occurs(q, Ticks(n))
  {
    var mid, h, t := w + j + v, p + Ticks(n), Ticks(n) + q;
    TicksEdges(p, n, q);
    assert s == p + Ticks(n) + (mid + t) && mid + t == mid + Ticks(n) + q;
    assert s == h + mid + t && s == (h + mid) + Ticks(n) + q;
    var f := FirstTicks(p, n, mid + t);
    var a := f + n;
    var g := LastClose(h + mid, n, q, a);
    TicksExtract(s, n, f, a, g);
    ExactSlice(s, h, w, j, v, t, a, g);
  }

  predicate NoSpaces(x: string) {
    x != [] && forall i :: 0 <= i < |x| ==> !IsSpace(x[i])
  }

  lemma BlankAround(w: string, s: string, v: string, i: nat)
    requires Blank(w) && Blank(v) && i < |w + s + v|
    ensures i < |w| || |w| + |s| <= i ==> IsSpace((w + s + v)[i])
  {
    if i < |w| {
      assert (w + s + v)[i] == w[i];
    } else if |w| + |s| <= i {
      assert (w + s + v)[i] == v[i - |w| - |s|];
    }
  }

  lemma AtWithin(w: string, s: string, v: string, x: string, i: nat)
    requires Blank(w) && Blank(v) && NoSpaces(x)
    ensures At(w + s + v, x, i) <==> |w| <= i && At(s, x, i - |w|)
  {
    var t := w + s + v;
    if At(t, x, i) {
      assert t[i] == x[0] && t[i + |x| - 1] == x[|x| - 1] by {
        assert t[i..i + |x|][0] == t[i] && t[i..i + |x|][|x| - 1] == t[i + |x| - 1];
      }
      BlankAround(w, s, v, i);
      BlankAround(w, s, v, i + |x| - 1);
      assert s[i - |w|..i - |w| + |x|] == t[i..i + |x|];
    }
    if |w| <= i && At(s, x, i - |w|) {
      assert s[i - |w|..i - |w| + |x|] == t[i..i + |x|];
    }
  }

  /** Blanks around a text neither make nor break an occurrence. */
  lemma OccursWithin(w: string, s: string, v: string, x: string)
    requires Blank(w) && Blank(v) && NoSpaces(x)
    ensures Occurs(w + s + v, x) <==> Occurs(s, x)
  {
    var t := w + s + v;
    if Occurs(t, x) {
      var i: nat :| i <= |t| && At(t, x, i);
      AtWithin(w, s, v, x, i);
    }
    if Occurs(s, x) {
      var i: nat :| i <= |s| && At(s, x, i);
      AtWithin(w, s, v, x, |w| + i);
    }
  }

  lemma PrefixStripped(prefix: string, x: string)
    requires NoSpaces(x)
    ensures Occurs(LStrip(prefix), x) <==> Occurs(prefix, x)
    ensures EndsWithTick(LStrip(prefix)) <==> EndsWithTick(prefix)
  {
    var w := LStripSplits(prefix);
    OccursWithin(w, LStrip(prefix), [], x);
    assert w + LStrip(prefix) + [] == prefix;
  }

  lemma SuffixStripped(suffix: string, x: string)
    requires NoSpaces(x)
    ensures Occurs(RStrip(suffix), x) <==> Occurs(suffix, x)
    ensures OpensWithTick(RStrip(suffix)) <==> OpensWithTick(suffix)
  {
    var v := RStripSplits(suffix);
    OccursWithin([], RStrip(suffix), v, x);
    assert [] + RStrip(suffix) + v == suffix;
  }

  lemma StripAround(prefix: string, core: string, suffix: string)
    requires Trimmed(core)
    ensures Strip(prefix + core + suffix) == LStrip(prefix) + core + RStrip(suffix)
  {
    assert prefix + core + suffix == prefix + (core + suffix);
    LStripBefore(prefix, core + suffix);
    assert LStrip(prefix) + (core + suffix) == (LStrip(prefix) + core) + suffix;
    RStripAfter(LStrip(prefix) + core, suffix);
  }

  lemma FenceHasNoSpaces()
    ensures NoSpaces(FENCE) && NoSpaces("```json") && forall n: nat :: n >= 1 ==> NoSpaces(Ticks(n))
  {
  }

  /** A trimmed JSON text in a ```json fence is recovered verbatim exactly when no earlier
      fence precedes it and no backticks that could close it follow. What it contains itself,
      backticks included, does not matter. */
  lemma FencedJsonIsRecovered(prefix: string, w: string, j: string, v: string, suffix: string)
    requires Blank(w) && Blank(v) && Trimmed(j)
    ensures Extract(prefix + FENCE + (w + j + v) + CLOSE + suffix) == Some(j)
       <==> !Occurs(prefix, FENCE) && !OpensWithTick(suffix) && !Occurs(suffix, CLOSE)
  {
    var core := FENCE + (w + j + v) + CLOSE;
    var text := prefix + FENCE + (w + j + v) + CLOSE + suffix;
    assert text == prefix + core + suffix;
    var p, q := LStrip(prefix), RStrip(suffix);
    StripAround(prefix, core, suffix);
    var s := p + FENCE + (w + j + v) + CLOSE + q;
    assert s == p + core + q;
    FencedCore(p, w, j, v, q, s);
    FenceHasNoSpaces();
    PrefixStripped(prefix, FENCE);
    assert CLOSE == Ticks(3);
    SuffixStripped(suffix, Ticks(3));
  }

  lemma FiveParts(a: string, b: string, c: string, d: string, e: string)
    ensures (a + b) + c + (d + e) == a + (b + c + d) + e
  {
  }

  lemma NoLongerFenceStripped(prefix: string, core: string, suffix: string, n: nat)
    requires NoLongerFence(prefix + core + suffix, n)
    ensures NoLongerFence(LStrip(prefix) + core + RStrip(suffix), n)
  {
    var b := LStripSplits(prefix);
    var e := RStripSplits(suffix);
    FiveParts(b, LStrip(prefix), core, RStrip(suffix), e);
    FenceHasNoSpaces();
    OccursWithin(b, LStrip(prefix) + core + RStrip(suffix), e, if n >= 3 then "```json" else Ticks(n + 1));
  }

  /** In a text without a longer fence (without "```json" for three backticks), a trimmed JSON text
      between two runs of one, two or three backticks is recovered verbatim exactly when neither
      side has another such run or adds a backtick to the fence. */
  lemma TickedJsonIsRecovered(n: nat, prefix: string, w: string, j: string, v: string, suffix: string)
    requires 1 <= n <= 3 && Blank(w) && Blank(v) && Trimmed(j)
    requires NoLongerFence(prefix + Ticks(n) + (w + j + v) + Ticks(n) + suffix, n)
    ensures Extract(prefix + Ticks(n) + (w + j + v) + Ticks(n) + suffix) == Some(j) <==>
            && !Occurs(prefix, Ticks(n)) && !EndsWithTick(prefix)
            && !OpensWithTick(suffix) && !Occurs(suffix, Ticks(n))
  {
    var core := Ticks(n) + (w + j + v) + Ticks(n);
    var text := prefix + Ticks(n) + (w + j + v) + Ticks(n) + suffix;
    assert text == prefix + core + suffix;
    var p, q := LStrip(prefix), RStrip(suffix);
    StripAround(prefix, core, suffix);
    var s := p + Ticks(n) + (w + j + v) + Ticks(n) + q;
    assert s == p + core + q;
    FenceHasNoSpaces();
    NoLongerFenceStripped(prefix, core, suffix, n);
    TickedCore(n, p, w, j, v, q, s);
    PrefixStripped(prefix, Ticks(n));
    SuffixStripped(suffix, Ticks(n));
  }

  /** Between fences that touch there is nothing, not even an empty block. */
  lemma TouchingFencesHoldNothing()
    ensures Extract("```json```") == None
  {
    var s := "```json```";
    assert s == [] + FENCE + Ticks(3) && s == FENCE + Ticks(3) + [];
    StripTrimmed(s);
    var f := FirstFence([], Ticks(3));
    assert !Occurs([], FENCE);
    FenceOpens(s, f);
    var g := LastClose(FENCE, 3, [], 7);
    TicksClose(s, 7, 3, g);
  }

  /** All the characters that Python calls spaces, the blanks of JSON among them. */
  lemma SpacesAre(c: char)
    ensures IsSpace(c) <==>
            c in " \t\n\U{0B}\U{0C}\r\U{1C}\U{1D}\U{1E}\U{1F}\U{85}\U{A0}\U{1680}"
               + "\U{2000}\U{2001}\U{2002}\U{2003}\U{2004}\U{2005}\U{2006}\U{2007}\U{2008}\U{2009}\U{200A}"
               + "\U{2028}\U{2029}\U{202F}\U{205F}\U{3000}"
  {
  }

  // --- Bare JSON ------------------------------------------------------------

  lemma NoTickNoFence(s: string, p: string)
    requires '`' !in s && p != [] && p[0] == '`'
    ensures Find(s, p, 0) == -1 && forall i: nat :: RFind(s, p, i) == -1
  {
    forall i: nat ensures !At(s, p, i) {
      if At(s, p, i) {
        AtFirst(s, p, i);
        assert false;
      }
    }
  }

  lemma AtChar(s: string, c: char, i: nat)
    ensures At(s, [c], i) <==> i < |s| && s[i] == c
  {
    if i < |s| { assert s[i..i + 1] == [s[i]]; }
  }

  predicate Absent(s: string, c: char, lo: nat, hi: nat)
    requires hi <= |s|
  {
    forall k :: lo <= k < hi ==> s[k] != c
  }

  lemma FindChar(s: string, c: char)
    ensures var r := Find(s, [c], 0);
      if r == -1 then Absent(s, c, 0, |s|) else r < |s| && s[r] == c && Absent(s, c, 0, r)
  {
    forall k: nat { AtChar(s, c, k); }
  }

  lemma RFindChar(s: string, c: char, i: nat)
    ensures var r := RFind(s, [c], i);
      if r == -1 then Absent(s, c, i, |s|) else i <= r < |s| && s[r] == c && Absent(s, c, r + 1, |s|)
  {
    forall k: nat { AtChar(s, c, k); }
  }

  /** The first opening brace, or the first opening bracket of a text without braces. */
  predicate OpensAt(s: string, a: nat) {
    a < |s| && if s[a] == '{' then Absent(s, '{', 0, a)
               else s[a] == '[' && Absent(s, '{', 0, |s|) && Absent(s, '[', 0, a)
  }

  /** The last closing brace, or the last closing bracket where no closing brace follows a. */
  predicate ClosesAt(s: string, a: nat, b: nat) {
    a <= b < |s| && if s[b] == '}' then Absent(s, '}', b + 1, |s|)
                    else s[b] == ']' && Absent(s, '}', a, |s|) && Absent(s, ']', b + 1, |s|)
  }

  lemma OpeningBraces(s: string)
    ensures var i, k := Find(s, "{", 0), Find(s, "[", 0);
            Opening(s, ["{", "["]) == if i != -1 then Some(i) else if k != -1 then Some(k) else None
  {
    var last := ["["];
    assert ["{", "["][1..] == last && last[1..] == [];
    assert Opening(s, last) == if Find(s, "[", 0) != -1 then Some(Find(s, "[", 0)) else None;
  }

  lemma ClosingBraces(s: string, a: nat)
    ensures var i, k := RFind(s, "}", a), RFind(s, "]", a);
            Closing(s, a, ["}", "]"]) == if i != -1 then Some(i + 1) else if k != -1 then Some(k + 1) else None
  {
    var last := ["]"];
    assert ["}", "]"][1..] == last && last[1..] == [];
    assert Closing(s, a, last) == if RFind(s, "]", a) != -1 then Some(RFind(s, "]", a) + 1) else None;
  }

  lemma OpensIs(s: string, a: nat)
    requires '`' !in s
    ensures OpensAt(s, a) <==> Start(s) == Some(a)
  {
    NoTickNoFence(s, STARTS[0]);
    NoTickNoFence(s, STARTS[1]);
    NoTickNoFence(s, STARTS[2]);
    NoTickNoFence(s, STARTS[3]);
    OpeningFirst(s, STARTS, 4);
    assert STARTS[4..] == ["{", "["];
    OpeningBraces(s);
    FindChar(s, '{');
    FindChar(s, '[');
    assert "{" == ['{'] && "[" == ['['];
  }

  lemma ClosesIs(s: string, a: nat, b: nat)
    requires '`' !in s
    ensures ClosesAt(s, a, b) <==> End(s, a) == Some(b + 1)
  {
    NoTickNoFence(s, ENDS[0]);
    NoTickNoFence(s, ENDS[1]);
    NoTickNoFence(s, ENDS[2]);
    ClosingFirst(s, a, ENDS, 3);
    assert ENDS[3..] == ["}", "]"];
    ClosingBraces(s, a);
    RFindChar(s, '}', a);
    RFindChar(s, ']', a);
    assert "}" == ['}'] && "]" == [']'];
  }

  lemma EndsTrim(s: string, a: nat, b: nat)
    requires OpensAt(s, a) && ClosesAt(s, a, b)
    ensures Strip(s[a..b + 1]) == s[a..b + 1]
  {
    var t := s[a..b + 1];
    assert t[0] == s[a] && t[|t| - 1] == s[b];
    StripTrimmed(t);
  }

  lemma BareCore(s: string, a: nat, b: nat)
    requires '`' !in s && OpensAt(s, a) && ClosesAt(s, a, b)
    ensures Block(s) == Some(s[a..b + 1])
  {
    OpensIs(s, a);
    ClosesIs(s, a, b);
    ExtractAt(s, a, b + 1);
    EndsTrim(s, a, b);
  }

  lemma StripSplits(text: string) returns (w: string, v: string)
    ensures Blank(w) && Blank(v) && text == w + Strip(text) + v
  {
    w := LStripSplits(text);
    v := RStripSplits(LStrip(text));
  }

  lemma AbsentShifts(w: string, s: string, v: string, c: char, lo: nat, hi: nat)
    requires Blank(w) && Blank(v) && !IsSpace(c) && lo <= hi <= |s|
    ensures Absent(s, c, lo, hi) <==> Absent(w + s + v, c, |w| + lo, |w| + hi)
    ensures Absent(s, c, 0, hi) <==> Absent(w + s + v, c, 0, |w| + hi)
    ensures Absent(s, c, lo, |s|) <==> Absent(w + s + v, c, |w| + lo, |w + s + v|)
    ensures Absent(s, c, 0, |s|) <==> Absent(w + s + v, c, 0, |w + s + v|)
  {
    var t := w + s + v;
    forall k | 0 <= k < |s| ensures t[|w| + k] == s[k] {}
    forall k | 0 <= k < |t| ensures t[k] == c ==> |w| <= k < |w| + |s| && s[k - |w|] == c {
      if k < |w| { assert t[k] == w[k]; } else if k >= |w| + |s| { assert t[k] == v[k - |w| - |s|]; }
    }
  }

  lemma Shifts(w: string, s: string, v: string, a: nat, b: nat)
    requires Blank(w) && Blank(v) && a <= b < |w + s + v|
    ensures OpensAt(w + s + v, a) <==> |w| <= a && OpensAt(s, a - |w|)
    ensures |w| <= a ==> (ClosesAt(w + s + v, a, b) <==> ClosesAt(s, a - |w|, b - |w|))
  {
    var t := w + s + v;
    if a < |w| {
      assert t[a] == w[a];
    } else {
      if a < |w| + |s| {
        AbsentShifts(w, s, v, '{', 0, a - |w|);
        AbsentShifts(w, s, v, '[', 0, a - |w|);
        AbsentShifts(w, s, v, '}', a - |w|, |s|);
      } else {
        assert t[a] == v[a - |w| - |s|];
      }
      if b < |w| + |s| {
        AbsentShifts(w, s, v, '}', b + 1 - |w|, |s|);
        AbsentShifts(w, s, v, ']', b + 1 - |w|, |s|);
      } else {
        assert t[b] == v[b - |w| - |s|];
      }
    }
  }

  lemma SliceWithin(w: string, s: string, v: string, a: nat, b: nat)
    requires |w| <= a <= b < |w| + |s|
    ensures (w + s + v)[a..b + 1] == s[a - |w|..b - |w| + 1]
  {
  }

  lemma BareIsFound(text: string, a: nat, b: nat)
    requires '`' !in text && OpensAt(text, a) && ClosesAt(text, a, b)
    ensures Extract(text) == Some(text[a..b + 1])
  {
    var w, v := StripSplits(text);
    var s := Strip(text);
    Shifts(w, s, v, a, b);
    BareCore(s, a - |w|, b - |w|);
    SliceWithin(w, s, v, a, b);
  }

  lemma BareWhere(text: string) returns (a: nat, b: nat)
    requires '`' !in text && Extract(text).Some?
    ensures OpensAt(text, a) && ClosesAt(text, a, b)
  {
    var w, v := StripSplits(text);
    var s := Strip(text);
    var start := Start(s).value;
    var end := End(s, start).value;
    assert OpensAt(s, start) by { OpensIs(s, start); }
    assert ClosesAt(s, start, end - 1) by { ClosesIs(s, start, end - 1); }
    a, b := |w| + start, |w| + (end - 1);
    Shifts(w, s, v, a, b);
  }

  /** Without backticks the text from the first opening to the last closing character is taken,
      braces before brackets; without them nothing is found. */
  lemma BareJson(text: string, r: string)
    requires '`' !in text
    ensures Extract(text) == Some(r)
       <==> exists a: nat, b: nat :: OpensAt(text, a) && ClosesAt(text, a, b) && r == text[a..b + 1]
  {
    if Extract(text).Some? {
      var a, b := BareWhere(text);
      BareIsFound(text, a, b);
    }
    forall a: nat, b: nat | OpensAt(text, a) && ClosesAt(text, a, b) ensures Extract(text) == Some(text[a..b + 1]) {
      BareIsFound(text, a, b);
    }
  }

  /** A bare JSON array is recovered whole exactly when no brace occurs in it. */
  lemma BareArray(m: string)
    requires '`' !in m
    ensures Extract("[" + m + "]") == Some("[" + m + "]") <==> '{' !in m && '}' !in m
  {
    var t := "[" + m + "]";
    assert forall i :: 0 <= i < |m| ==> t[i + 1] == m[i];
    if '{' !in m && '}' !in m {
      BareIsFound(t, 0, |t| - 1);
      assert t[0..|t|] == t;
    } else if Extract(t).Some? {
      var a, b := BareWhere(t);
      BareIsFound(t, a, b);
      assert a != 0 || b != |t| - 1;
    }
  }
}
