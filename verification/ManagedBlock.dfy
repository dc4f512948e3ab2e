/**
 The block pua keeps up to date inside AGENTS.md (internal/app/init.go), as a
 lens on the file's text. The laws hold for any pair of markers of the shape
 pua uses; PuaBlockLaws states them for pua's own.
 */
module ManagedBlock {
  import opened Basics

  const START := "<!-- managed by pua cli -->"
  const END := "<!-- end of pua cli prompt -->"

  // ---------- strings.Index and strings.Count ----------

  predicate Occurs(s: string, m: string, i: int) {
    0 <= i && i + |m| <= |s| && s[i..i + |m|] == m
  }

  function IndexFrom(s: string, m: string, i: nat): (r: int)
    requires i <= |s|
    ensures r == -1 || (i <= r && Occurs(s, m, r))
    ensures forall k :: i <= k && (r == -1 || k < r) ==> !Occurs(s, m, k)
    decreases |s| - i
  {
    if Occurs(s, m, i) then i else if i == |s| then -1 else IndexFrom(s, m, i + 1)
  }

  function Index(s: string, m: string): int { IndexFrom(s, m, 0) }

  /** Occurrences from `i` on that do not overlap. */
  function CountFrom(s: string, m: string, i: nat): nat
    requires i <= |s| && m != ""
    decreases |s| - i
  {
    var k := IndexFrom(s, m, i);
    if k == -1 then 0 else 1 + CountFrom(s, m, k + |m|)
  }

  function Count(s: string, m: string): nat
    requires m != ""
  {
    CountFrom(s, m, 0)
  }

  // ---------- markers ----------

  /** '<' only opens a marker, '>' only closes it, and it stays on one line. */
  predicate IsMarker(m: string) {
    && |m| > 5 && m[0] == '<' && m[|m| - 1] == '>'
    && (forall i :: 0 < i < |m| ==> m[i] != '<')
    && (forall i :: 0 <= i < |m| - 1 ==> m[i] != '>')
    && '\n' !in m
  }

  datatype Markers = Markers(open: string, close: string) {
    predicate Valid() {
      IsMarker(open) && IsMarker(close) && open[5] != close[5]
    }
  }

  const PUA := Markers(START, END)

  lemma StartIsMarker()
    ensures IsMarker(START) && START[5] == 'm'
  {
  }

  lemma EndIsMarker()
    ensures IsMarker(END) && END[5] == 'e'
  {
  }

  lemma PuaMarkersAreValid()
    ensures PUA.Valid()
    ensures PUA == Markers("<!-- managed by pua cli -->", "<!-- end of pua cli prompt -->")
  {
    StartIsMarker();
    EndIsMarker();
  }

  // ---------- the editor ----------

  datatype Bounds = Absent | Block(start: nat, end: nat) | Malformed

  function FindBlock(p: Markers, content: string): (b: Bounds)
    requires p.Valid()
    ensures b.Block? ==> b.start < b.end <= |content|
  {
    var starts, ends := Count(content, p.open), Count(content, p.close);
    if starts == 0 && ends == 0 then Absent
    else if starts != 1 || ends != 1 then Malformed
    else
      var i, j := Index(content, p.open), Index(content, p.close);
      if i < 0 || j < i then Malformed else Block(i, j + |p.close|)
  }

  function TrimEnd(s: string): string {
    if s != "" && s[|s| - 1] in " \t\r\n" then TrimEnd(s[..|s| - 1]) else s
  }

  function Upsert(p: Markers, content: string, block: string): Option<string>
    requires p.Valid()
  {
    match FindBlock(p, content)
    case Malformed => None
    case Block(start, end) => Some(content[..start] + block + content[end..])
    case Absent =>
      var kept := TrimEnd(content);
      Some(if kept == "" then block + "\n" else kept + "\n\n" + block + "\n")
  }

  function PromptBlock(p: Markers, prompt: string): string { p.open + "\n" + prompt + p.close }

  // ---------- markers do not overlap ----------

  lemma OccursAt(s: string, m: string, i: int)
    requires Occurs(s, m, i)
    ensures forall y :: i <= y < i + |m| ==> s[y] == m[y - i]
  {
    assert forall y :: i <= y < i + |m| ==> s[y] == s[i..i + |m|][y - i];
  }

  lemma Apart(s: string, m: string, n: string, i: int, j: int)
    requires IsMarker(m) && IsMarker(n) && Occurs(s, m, i) && Occurs(s, n, j) && i < j
    ensures i + |m| <= j
  {
    OccursAt(s, m, i);
    OccursAt(s, n, j);
    assert s[j] == n[0];
  }

  lemma Distinguished(p: Markers, s: string, i: int)
    requires p.Valid()
    ensures !(Occurs(s, p.open, i) && Occurs(s, p.close, i))
  {
    forall m | Occurs(s, m, i) && |m| > 5 ensures s[i + 5] == m[5] {
      OccursAt(s, m, i);
    }
  }

  predicate Nowhere(s: string, m: string) { forall i :: 0 <= i <= |s| ==> !Occurs(s, m, i) }

  predicate OnlyAt(s: string, m: string, k: int) {
    Occurs(s, m, k) && forall i :: 0 <= i <= |s| && i != k ==> !Occurs(s, m, i)
  }

  /** Neither marker occurs. */
  predicate Unmarked(p: Markers, s: string) { Nowhere(s, p.open) && Nowhere(s, p.close) }

  /** Exactly one start marker, before exactly one end marker. */
  predicate MarkedAt(p: Markers, s: string, start: int, close: int) {
    OnlyAt(s, p.open, start) && OnlyAt(s, p.close, close) && start < close
  }

  lemma CountIsOne(s: string, m: string)
    requires IsMarker(m)
    ensures Count(s, m) == 0 <==> Nowhere(s, m)
    ensures Count(s, m) == 1 <==> OnlyAt(s, m, Index(s, m))
  {
    var k := Index(s, m);
    if k != -1 {
      assert Count(s, m) == 1 + CountFrom(s, m, k + |m|);
      var l := IndexFrom(s, m, k + |m|);
      assert CountFrom(s, m, k + |m|) == 0 <==> l == -1;
      if l == -1 {
        forall i | 0 <= i <= |s| && i != k ensures !Occurs(s, m, i) {
          if Occurs(s, m, i) && i > k {
            Apart(s, m, m, k, i);
          }
        }
      }
    }
  }

  /** The bounds, without counting: nothing managed, or one start marker before one end marker, or an error. */
  lemma FindBlockMeans(p: Markers, content: string)
    requires p.Valid()
    ensures FindBlock(p, content) == Absent <==> Unmarked(p, content)
    ensures forall start: nat, close: nat ::
              FindBlock(p, content) == Block(start, close + |p.close|) <==> MarkedAt(p, content, start, close)
    ensures FindBlock(p, content).Block? ==> FindBlock(p, content).end >= |p.close|
  {
    CountIsOne(content, p.open);
    CountIsOne(content, p.close);
    Distinguished(p, content, Index(content, p.open));
    var i, j := Index(content, p.open), Index(content, p.close);
    assert forall k :: OnlyAt(content, p.open, k) ==> k == i;
    assert forall k :: OnlyAt(content, p.close, k) ==> k == j;
  }

  // ---------- joints ----------

  /** Where two texts meet so that no marker can span the joint. */
  predicate SafeJoint(a: string, b: string) {
    || a == "" || b == "" || b[0] == '<' || a[|a| - 1] == '>' || b[0] == '\n' || a[|a| - 1] == '\n'
  }

  /** No marker occurrence is created across a safe joint, and none is lost. */
  lemma NoneAcrossJoint(a: string, b: string, m: string, i: int)
    requires IsMarker(m) && SafeJoint(a, b)
    ensures Occurs(a + b, m, i) <==> Occurs(a, m, i) || Occurs(b, m, i - |a|)
  {
    var s := a + b;
    if 0 <= i && i + |m| <= |a| {
      assert s[..|a|] == a;
      SliceOfSlice(s, 0, |a|, i, i + |m|);
    } else if |a| <= i && i + |m| <= |s| {
      assert s[|a|..|s|] == b;
      SliceOfSlice(s, |a|, |s|, i - |a|, i - |a| + |m|);
    } else {
      Crossing(a, b, m, i);
    }
  }

  lemma Crossing(a: string, b: string, m: string, i: int)
    requires IsMarker(m) && SafeJoint(a, b) && (i < 0 || i + |m| > |a| > i || i + |m| > |a + b|)
    ensures !Occurs(a + b, m, i)
  {
    if 0 <= i < |a| < i + |m| <= |a + b| {
      assert (a + b)[|a|] == b[0] && (a + b)[|a| - 1] == a[|a| - 1];
      assert forall y :: i <= y < i + |m| ==> (a + b)[i..i + |m|][y - i] == (a + b)[y];
    }
  }

  lemma NowhereJoined(a: string, b: string, m: string)
    requires IsMarker(m) && SafeJoint(a, b) && Nowhere(a, m) && Nowhere(b, m)
    ensures Nowhere(a + b, m)
  {
    forall i | 0 <= i <= |a + b| ensures !Occurs(a + b, m, i) {
      NoneAcrossJoint(a, b, m, i);
    }
  }

  lemma OnlyInSecond(a: string, b: string, m: string, k: int)
    requires IsMarker(m) && SafeJoint(a, b) && Nowhere(a, m) && OnlyAt(b, m, k)
    ensures OnlyAt(a + b, m, |a| + k)
  {
    NoneAcrossJoint(a, b, m, |a| + k);
    forall i | 0 <= i <= |a + b| && i != |a| + k ensures !Occurs(a + b, m, i) {
      NoneAcrossJoint(a, b, m, i);
    }
  }

  lemma OnlyInFirst(a: string, b: string, m: string, k: int)
    requires IsMarker(m) && SafeJoint(a, b) && Nowhere(b, m) && OnlyAt(a, m, k)
    ensures OnlyAt(a + b, m, k)
  {
    NoneAcrossJoint(a, b, m, k);
    forall i | 0 <= i <= |a + b| && i != k ensures !Occurs(a + b, m, i) {
      NoneAcrossJoint(a, b, m, i);
    }
  }

  // ---------- well-formed blocks ----------

  /** Begins with its only start marker and ends with its only end marker. */
  predicate IsBlock(p: Markers, b: string) {
    MarkedAt(p, b, 0, |b| - |p.close|)
  }

  lemma BlockEdges(p: Markers, b: string)
    requires p.Valid() && IsBlock(p, b)
    ensures b[0] == '<' && b[|b| - 1] == '>'
  {
    OccursAt(b, p.open, 0);
    OccursAt(b, p.close, |b| - |p.close|);
  }

  lemma MarkersStandAlone(p: Markers)
    requires p.Valid()
    ensures OnlyAt(p.open, p.open, 0) && OnlyAt(p.close, p.close, 0)
    ensures Nowhere(p.open, p.close) && Nowhere(p.close, p.open)
  {
    forall m, n, i | (m == p.open || m == p.close) && (n == p.open || n == p.close) && 0 < i
      ensures !Occurs(m, n, i)
    {
      if Occurs(m, n, i) { OccursAt(m, n, i); }
    }
    Distinguished(p, p.open, 0);
    Distinguished(p, p.close, 0);
    assert Occurs(p.open, p.open, 0) && Occurs(p.close, p.close, 0);
  }

  /** A prompt without markers makes a well-formed block. */
  lemma PromptBlockIsBlock(p: Markers, prompt: string)
    requires p.Valid() && Unmarked(p, prompt)
    ensures IsBlock(p, PromptBlock(p, prompt))
  {
    MarkersStandAlone(p);
    var text := "\n" + prompt;
    NowhereJoined("\n", prompt, p.open);
    NowhereJoined("\n", prompt, p.close);
    OnlyInFirst(p.open, text, p.open, 0);
    NowhereJoined(p.open, text, p.close);
    var head := p.open + text;
    OnlyInFirst(head, p.close, p.open, 0);
    OnlyInSecond(head, p.close, p.close, 0);
    assert PromptBlock(p, prompt) == head + p.close;
  }

  // ---------- the lens ----------

  /** What a put makes of a text whose context holds no marker. */
  lemma PutBetween(p: Markers, before: string, b: string, after: string)
    requires p.Valid() && IsBlock(p, b) && Unmarked(p, before) && Unmarked(p, after)
    ensures FindBlock(p, before + b + after) == Block(|before|, |before| + |b|)
  {
    BlockEdges(p, b);
    var start := |before|;
    var close := |before| + |b| - |p.close|;
    assert SafeJoint(before + b, after) by {
      assert (before + b)[|before + b| - 1] == '>';
    }
    assert MarkedAt(p, before + b + after, start, close) by {
      OnlyInSecond(before, b, p.open, 0);
      OnlyInSecond(before, b, p.close, |b| - |p.close|);
      OnlyInFirst(before + b, after, p.open, start);
      OnlyInFirst(before + b, after, p.close, close);
    }
    FindBlockMeans(p, before + b + after);
  }

  /** A slice of a text holds only markers the text holds. */
  lemma SliceOccurs(s: string, lo: nat, hi: nat, m: string, i: int)
    requires lo <= hi <= |s|
    ensures Occurs(s[lo..hi], m, i) <==> 0 <= i && lo + i + |m| <= hi && Occurs(s, m, lo + i)
  {
    if 0 <= i && lo + i + |m| <= hi {
      SliceOfSlice(s, lo, hi, i, i + |m|);
    }
  }

  lemma NowhereInSlice(s: string, lo: nat, hi: nat, m: string, k: int)
    requires lo <= hi <= |s| && OnlyAt(s, m, k) && (k < lo || k + |m| > hi)
    ensures Nowhere(s[lo..hi], m)
  {
    forall i | 0 <= i <= hi - lo ensures !Occurs(s[lo..hi], m, i) {
      SliceOccurs(s, lo, hi, m, i);
    }
  }

  lemma OnlyInSlice(s: string, lo: nat, hi: nat, m: string, k: int)
    requires lo <= hi <= |s| && OnlyAt(s, m, k) && lo <= k && k + |m| <= hi
    ensures OnlyAt(s[lo..hi], m, k - lo)
  {
    SliceOccurs(s, lo, hi, m, k - lo);
    forall i | 0 <= i <= hi - lo && i != k - lo ensures !Occurs(s[lo..hi], m, i) {
      SliceOccurs(s, lo, hi, m, i);
    }
  }

  /** Around a found block there is no marker, and the found block is well formed. */
  lemma FoundBlock(p: Markers, content: string)
    requires p.Valid() && FindBlock(p, content).Block?
    ensures var f := FindBlock(p, content);
            IsBlock(p, content[f.start..f.end]) && Unmarked(p, content[..f.start]) && Unmarked(p, content[f.end..])
  {
    var f := FindBlock(p, content);
    var close := f.end - |p.close|;
    assert MarkedAt(p, content, f.start, close) by {
      FindBlockMeans(p, content);
      assert f == Block(f.start, close + |p.close|);
    }
    SplitAtBlock(p, content, f.start, close);
  }

  lemma SplitAtBlock(p: Markers, content: string, start: nat, close: nat)
    requires p.Valid() && MarkedAt(p, content, start, close)
    ensures var end := close + |p.close|;
            IsBlock(p, content[start..end]) && Unmarked(p, content[..start]) && Unmarked(p, content[end..])
  {
    var end := close + |p.close|;
    Apart(content, p.open, p.close, start, close);
    OnlyInSlice(content, start, end, p.open, start);
    OnlyInSlice(content, start, end, p.close, close);
    assert content[0..start] == content[..start] && content[end..|content|] == content[end..];
    NowhereInSlice(content, 0, start, p.open, start);
    NowhereInSlice(content, 0, start, p.close, close);
    NowhereInSlice(content, end, |content|, p.open, start);
    NowhereInSlice(content, end, |content|, p.close, close);
  }

  /** The text around the block after a put: what was outside it, or the trimmed text and line breaks. */
  function Around(p: Markers, content: string): (string, string)
    requires p.Valid()
  {
    match FindBlock(p, content)
    case Block(start, end) => (content[..start], content[end..])
    case _ => var kept := TrimEnd(content); (if kept == "" then "" else kept + "\n\n", "\n")
  }

  lemma UnmarkedPrefix(p: Markers, s: string, t: string)
    requires p.Valid() && t <= s && Unmarked(p, s)
    ensures Unmarked(p, t) && Unmarked(p, t + "\n\n") && Unmarked(p, "\n") && Unmarked(p, "")
  {
    assert t == s[0..|t|];
    forall m, i | m == p.open || m == p.close ensures !Occurs(t, m, i) {
      SliceOccurs(s, 0, |t|, m, i);
    }
    NowhereJoined(t, "\n\n", p.open);
    NowhereJoined(t, "\n\n", p.close);
  }

  lemma AroundIsUnmarked(p: Markers, content: string, b: string)
    requires p.Valid() && !FindBlock(p, content).Malformed?
    ensures Unmarked(p, Around(p, content).0) && Unmarked(p, Around(p, content).1)
    ensures Upsert(p, content, b) == Some(Around(p, content).0 + b + Around(p, content).1)
  {
    if FindBlock(p, content).Block? {
      FoundBlock(p, content);
    } else {
      FindBlockMeans(p, content);
      TrimEndDropsPadding(content);
      UnmarkedPrefix(p, content, TrimEnd(content));
      assert "" + b + "\n" == b + "\n";
    }
  }

  /** A put fails exactly when the markers are neither both absent nor one start before one end. */
  lemma PutFailsIff(p: Markers, content: string, b: string)
    requires p.Valid()
    ensures Upsert(p, content, b).None? <==>
            !Unmarked(p, content) && !exists i, j :: MarkedAt(p, content, i, j)
  {
    FindBlockMeans(p, content);
    if i, j :| MarkedAt(p, content, i, j) {
      assert FindBlock(p, content) == Block(i, j + |p.close|);
    }
    var f := FindBlock(p, content);
    if f.Block? {
      assert f == Block(f.start, (f.end - |p.close|) + |p.close|);
      assert MarkedAt(p, content, f.start, f.end - |p.close|);
    }
  }

  /** Put then get: the bounds found afterwards select exactly what was put, if and only if it is a well-formed block. */
  lemma PutGetIff(p: Markers, content: string, b: string)
    requires p.Valid() && Upsert(p, content, b).Some?
    ensures var u := Upsert(p, content, b).value;
            var f := FindBlock(p, u);
            (f.Block? && f.start == |Around(p, content).0| && u[f.start..f.end] == b) <==> IsBlock(p, b)
  {
    AroundIsUnmarked(p, content, b);
    var u := Upsert(p, content, b).value;
    if IsBlock(p, b) {
      PutBetween(p, Around(p, content).0, b, Around(p, content).1);
    }
    if FindBlock(p, u).Block? {
      FoundBlock(p, u);
    }
  }

  /** A put of a block leaves everything outside a found block alone. */
  lemma PutKeepsOutside(p: Markers, content: string, b: string)
    requires p.Valid() && IsBlock(p, b) && FindBlock(p, content).Block?
    ensures var f := FindBlock(p, content);
            var u := Upsert(p, content, b);
            u.Some? && var g := FindBlock(p, u.value);
                       g.Block? && u.value[..g.start] == content[..f.start] && u.value[g.end..] == content[f.end..]
  {
    AroundIsUnmarked(p, content, b);
    PutBetween(p, Around(p, content).0, b, Around(p, content).1);
  }

  predicate IsPadding(s: string) { forall i :: 0 <= i < |s| ==> s[i] in " \t\r\n" }

  lemma {:induction false} TrimEndDropsPadding(s: string)
    ensures TrimEnd(s) <= s && IsPadding(s[|TrimEnd(s)|..])
    ensures TrimEnd(s) == "" || TrimEnd(s)[|TrimEnd(s)| - 1] !in " \t\r\n"
  {
    if s != "" && s[|s| - 1] in " \t\r\n" {
      var front := s[..|s| - 1];
      TrimEndDropsPadding(front);
      assert s[|TrimEnd(s)|..] == front[|TrimEnd(s)|..] + [s[|s| - 1]];
    }
  }

  /** What the first put leaves in front of the block: all of the text but trailing padding, and a blank line. */
  predicate KeepsText(content: string, front: string) {
    if IsPadding(content) then front == ""
    else
      && |front| >= 3 && front[|front| - 2..] == "\n\n"
      && front[..|front| - 2] <= content && IsPadding(content[|front| - 2..])
      && front[|front| - 3] !in " \t\r\n"
  }

  lemma FrontKeepsText(p: Markers, content: string)
    requires p.Valid() && FindBlock(p, content).Absent?
    ensures KeepsText(content, Around(p, content).0)
  {
    var kept := TrimEnd(content);
    TrimEndDropsPadding(content);
    if kept == "" {
      assert content[|kept|..] == content;
    } else {
      var front := kept + "\n\n";
      assert front[..|kept|] == kept && front[|kept|..] == "\n\n";
      assert content[|kept| - 1] == kept[|kept| - 1];
    }
  }

  lemma FirstPutKeepsText(p: Markers, content: string, b: string)
    requires p.Valid() && IsBlock(p, b) && FindBlock(p, content).Absent?
    ensures var u := Upsert(p, content, b);
            u.Some? && var g := FindBlock(p, u.value);
                       g.Block? && KeepsText(content, u.value[..g.start]) && u.value[g.end..] == "\n"
  {
    AroundIsUnmarked(p, content, b);
    var (before, after) := Around(p, content);
    PutBetween(p, before, b, after);
    FrontKeepsText(p, content);
    assert (before + b + after)[..|before|] == before && (before + b + after)[|before| + |b|..] == after;
  }

  /** Get then put is the identity. */
  lemma GetPut(p: Markers, content: string)
    requires p.Valid() && FindBlock(p, content).Block?
    ensures var f := FindBlock(p, content); Upsert(p, content, content[f.start..f.end]) == Some(content)
  {
    var f := FindBlock(p, content);
    assert content[..f.start] + content[f.start..f.end] + content[f.end..] == content;
  }

  /** A second put overrides the first. */
  lemma PutPut(p: Markers, content: string, a: string, b: string)
    requires p.Valid() && IsBlock(p, a) && Upsert(p, content, a).Some?
    ensures Upsert(p, Upsert(p, content, a).value, b) == Upsert(p, content, b)
  {
    AroundIsUnmarked(p, content, a);
    AroundIsUnmarked(p, content, b);
    var (before, after) := Around(p, content);
    PutBetween(p, before, a, after);
    var u := before + a + after;
    assert u[..|before|] == before && u[|before| + |a|..] == after;
  }

  /** The laws for pua's own markers and a prompt that does not contain them. */
  lemma PuaBlockLaws(content: string, prompt: string, later: string)
    requires PUA.Valid() && Unmarked(PUA, prompt)
    requires Upsert(PUA, content, PromptBlock(PUA, prompt)).Some?
    ensures var b := PromptBlock(PUA, prompt);
            var u := Upsert(PUA, content, b).value;
            var f := FindBlock(PUA, u);
            && f.Block? && u[f.start..f.end] == b
            && Upsert(PUA, u, b) == Some(u)
            && Upsert(PUA, u, PromptBlock(PUA, later)) == Upsert(PUA, content, PromptBlock(PUA, later))
  {
    var b := PromptBlock(PUA, prompt);
    PromptBlockIsBlock(PUA, prompt);
    PutGetIff(PUA, content, b);
    GetPut(PUA, Upsert(PUA, content, b).value);
    PutPut(PUA, content, b, PromptBlock(PUA, later));
  }
}
