/** The highlight strategy: escaped text with mark tags around the merged intervals, and its decoder. */
module Highlighting {
  import opened Vocabulary
  import opened Intervals
  import opened NaiveSearch
  import opened SearchMeaning
  import opened Masking

  const OPEN: string := "<mark>"
  const CLOSE: string := "</mark>"

  /** The five HTML escapes of the Go library. */
  function Escape(c: char): string {
    if c == '<' then "&lt;"
    else if c == '>' then "&gt;"
    else if c == '&' then "&amp;"
    else if c == '\'' then "&#39;"
    else if c == '"' then "&#34;"
    else [c]
  }

  predicate Special(c: char) {
    c in {'<', '>', '&', '\'', '"'}
  }

  function EscapeAll(s: Runes): string {
    if s == [] then "" else Escape(s[0]) + EscapeAll(s[1..])
  }

  /** The runes from `a` up to `b`, as far as there are any. */
  function Slice(s: Runes, a: nat, b: int): Runes {
    if a < b && a < |s| then s[a..if b < |s| then b else |s|] else []
  }

  /** What is written from position `idx` on. */
  function Render(target: Runes, idx: nat, ivs: seq<Interval>): string
    requires forall iv <- ivs :: 0 <= iv.start && 0 <= iv.end
    decreases |ivs|
  {
    if ivs == [] then EscapeAll(Slice(target, idx, |target|)) else
      EscapeAll(Slice(target, idx, ivs[0].start))
      + (OPEN + (EscapeAll(Slice(target, ivs[0].start, ivs[0].end))
      + (CLOSE + Render(target, ivs[0].end, ivs[1..]))))
  }

  lemma {:induction false} EscapeConcat(a: Runes, b: Runes)
    ensures EscapeAll(a + b) == EscapeAll(a) + EscapeAll(b)
  {
    if a == [] {
      assert a + b == b;
    } else {
      assert (a + b)[0] == a[0] && (a + b)[1..] == a[1..] + b;
      EscapeConcat(a[1..], b);
    }
  }

  lemma SliceStep(s: Runes, a: nat, i: int)
    requires a <= i < |s|
    ensures EscapeAll(Slice(s, a, i + 1)) == EscapeAll(Slice(s, a, i)) + Escape(s[i])
  {
    assert Slice(s, a, i + 1) == Slice(s, a, i) + [s[i]];
    EscapeConcat(Slice(s, a, i), [s[i]]);
    assert EscapeAll([s[i]]) == Escape(s[i]) + EscapeAll([]);
  }

  lemma SliceInside(s: Runes, a: nat, b: nat)
    requires a <= b <= |s|
    ensures Slice(s, a, b) == s[a..b]
  {
  }

  lemma SliceEmpty(s: Runes, a: nat)
    ensures EscapeAll(Slice(s, a, a)) == []
  {
  }

  lemma SliceEnd(s: Runes, a: nat, i: int, b: int)
    requires a <= i && (i == a || i <= b)
    requires i >= b || i >= |s|
    ensures Slice(s, a, b) == Slice(s, a, i)
  {
  }

  /** Writes the runes from `from` while they are before `to` and inside the text. */
  method WriteEscaped(target: Runes, from: nat, to: int) returns (out: string)
    ensures out == EscapeAll(Slice(target, from, to))
  {
    hide EscapeAll, Slice, Escape;
    SliceEmpty(target, from);
    out := "";
    var i := from;
    while i < to && i < |target|
      invariant from <= i && (i == from || (i <= |target| && i <= to))
      invariant out == EscapeAll(Slice(target, from, i))
      decreases |target| - i
    {
      SliceStep(target, from, i);
      out := out + Escape(target[i]);
      i := i + 1;
    }
    SliceEnd(target, from, i, to);
  }

  predicate IsRendered(out: string, target: Runes, ivs: seq<Interval>) {
    && (forall iv <- ivs :: 0 <= iv.start && 0 <= iv.end)
    && out == Render(target, 0, ivs)
  }

  /** The sort may break ties in any way; for nonempty matches that makes no difference. */
  method HighlightMatches(original: Runes, normalized: Runes, matches: seq<MatchItem>)
      returns (out: string)
    requires forall m <- matches :: 0 <= m.position && 0 <= m.endPos
    ensures matches == [] ==> out == original
    ensures matches != [] ==>
      exists sorted ::
        && SortedCopy(matches, sorted) && sorted != []
        && IsRendered(out, Target(original, normalized), Merge(sorted))
    ensures matches != [] && AllNonempty(matches) ==>
      IsRendered(out, Target(original, normalized), UnionOf(matches))
  {
    if |matches| == 0 {
      return original;
    }
    var intervals, sorted := MergeIntervals(matches);
    SameMembers(matches, sorted);
    MergeNonnegative(sorted);
    if AllNonempty(matches) {
      UnionIsCanonical(matches, intervals);
    }
    ghost var ivs := intervals;
    var target := normalized;
    if |original| == |normalized| {
      target := original;
    }
    out := "";
    var idx := 0;
    for x := 0 to |intervals|
      invariant 0 <= idx
      invariant out + Render(target, idx, ivs[x..]) == Render(target, 0, ivs)
    {
      var iv := intervals[x];
      assert iv in ivs && ivs[x..][1..] == ivs[x + 1..];
      ghost var before := out;
      var plain := WriteEscaped(target, idx, iv.start);
      var marked := WriteEscaped(target, iv.start, iv.end);
      out := out + plain + OPEN + marked + CLOSE;
      RenderStep(before, target, idx, ivs[x..]);
      idx := iv.end;
    }
    var rest := WriteEscaped(target, idx, |target|);
    out := out + rest;
  }

  lemma Prefixed(z: string, a: string, b: string, c: string, d: string, e: string)
    ensures z + (a + b + c + d + e) == z + a + b + c + d + e
  {
  }

  lemma Regroup(a: string, b: string, c: string, d: string, e: string)
    ensures a + (b + (c + (d + e))) == a + b + c + (d + e) == a + b + c + d + e
  {
  }

  /** What is printed first, and what follows. */
  lemma RenderFirst(target: Runes, idx: nat, ivs: seq<Interval>)
    requires ivs != [] && forall iv <- ivs :: 0 <= iv.start && 0 <= iv.end
    ensures Render(target, idx, ivs)
         == EscapeAll(Slice(target, idx, ivs[0].start))
            + (OPEN + (EscapeAll(Slice(target, ivs[0].start, ivs[0].end))
                       + (CLOSE + Render(target, ivs[0].end, ivs[1..]))))
  {
    hide EscapeAll, Slice;
  }

  lemma RenderStep(before: string, target: Runes, idx: nat, ivs: seq<Interval>)
    requires ivs != [] && forall iv <- ivs :: 0 <= iv.start && 0 <= iv.end
    ensures before + Render(target, idx, ivs)
         == before + EscapeAll(Slice(target, idx, ivs[0].start)) + OPEN
            + EscapeAll(Slice(target, ivs[0].start, ivs[0].end)) + CLOSE + Render(target, ivs[0].end, ivs[1..])
  {
    hide EscapeAll, Slice, Render;
    var a, c, e := EscapeAll(Slice(target, idx, ivs[0].start)), EscapeAll(Slice(target, ivs[0].start, ivs[0].end)),
                   Render(target, ivs[0].end, ivs[1..]);
    RenderFirst(target, idx, ivs);
    Regroup(a, OPEN, c, CLOSE, e);
    Prefixed(before, a, OPEN, c, CLOSE, e);
  }

  lemma {:induction false} MergeNonnegative(sorted: seq<MatchItem>)
    requires sorted != [] && forall m <- sorted :: 0 <= m.position && 0 <= m.endPos
    ensures forall iv <- Merge(sorted) :: 0 <= iv.start && 0 <= iv.end
  {
    if |sorted| > 1 {
      MergeNonnegative(Init(sorted));
    }
  }

  // ---- The decoder ----

  datatype Marked = Marked(runes: Runes, ivs: seq<Interval>)

  function Prepend(c: char, d: Option<Marked>): Option<Marked> {
    if d.None? then None else Some(Marked([c] + d.value.runes, d.value.ivs))
  }

  /** Reads tags as brackets and undoes the escapes; `pos` counts the runes read so far and `open`
      is the position of the bracket that is open. */
  function Decode(s: string, pos: nat, open: Option<nat>): Option<Marked> {
    if s == [] then
      if open.None? then Some(Marked([], [])) else None
    else if OPEN <= s then
      if open.None? then Decode(s[6..], pos, Some(pos)) else None
    else if CLOSE <= s then
      if open.None? then None else
        var d := Decode(s[7..], pos, None);
        if d.None? then None else Some(Marked(d.value.runes, [Interval(open.value, pos)] + d.value.ivs))
    else if "&lt;" <= s then Prepend('<', Decode(s[4..], pos + 1, open))
    else if "&gt;" <= s then Prepend('>', Decode(s[4..], pos + 1, open))
    else if "&amp;" <= s then Prepend('&', Decode(s[5..], pos + 1, open))
    else if "&#39;" <= s then Prepend('\'', Decode(s[5..], pos + 1, open))
    else if "&#34;" <= s then Prepend('"', Decode(s[5..], pos + 1, open))
    else if Special(s[0]) then None
    else Prepend(s[0], Decode(s[1..], pos + 1, open))
  }

  lemma DecodeEscape(c: char, rest: string, pos: nat, open: Option<nat>)
    ensures Decode(Escape(c) + rest, pos, open) == Prepend(c, Decode(rest, pos + 1, open))
  {
    var s := Escape(c) + rest;
    assert s[|Escape(c)|..] == rest;
    assert s[0] == Escape(c)[0];
    if Special(c) {
      assert s[0] == '&' && s[1] == Escape(c)[1] && s[2] == Escape(c)[2] && s[3] == Escape(c)[3];
    }
  }

  lemma DecodeOpen(rest: string, pos: nat)
    ensures Decode(OPEN + rest, pos, None) == Decode(rest, pos, Some(pos))
  {
    assert (OPEN + rest)[6..] == rest;
  }

  lemma DecodeClose(rest: string, pos: nat, start: nat)
    ensures Decode(CLOSE + rest, pos, Some(start))
         == var d := Decode(rest, pos, None);
            if d.None? then None else Some(Marked(d.value.runes, [Interval(start, pos)] + d.value.ivs))
  {
    assert (CLOSE + rest)[7..] == rest;
    assert (CLOSE + rest)[1] == '/';
  }

  lemma {:induction false} DecodeEscaped(r: Runes, rest: string, pos: nat, open: Option<nat>)
    ensures Decode(EscapeAll(r) + rest, pos, open)
         == var d := Decode(rest, pos + |r|, open);
            if d.None? then None else Some(Marked(r + d.value.runes, d.value.ivs))
  {
    hide Decode, Escape;
    if r == [] {
      assert EscapeAll(r) + rest == rest;
      var d := Decode(rest, pos, open);
      assert d.Some? ==> r + d.value.runes == d.value.runes;
    } else {
      assert EscapeAll(r) + rest == Escape(r[0]) + (EscapeAll(r[1..]) + rest);
      DecodeEscape(r[0], EscapeAll(r[1..]) + rest, pos, open);
      DecodeEscaped(r[1..], rest, pos + 1, open);
      var d := Decode(rest, pos + |r|, open);
      assert d.Some? ==> [r[0]] + (r[1..] + d.value.runes) == r + d.value.runes;
    }
  }

  /** Separated intervals inside a text of length `n`. */
  ghost predicate Within(ivs: seq<Interval>, idx: nat, n: nat) {
    Separated(ivs) && forall iv <- ivs :: idx <= iv.start && iv.end <= n
  }

  lemma DecodeRest(target: Runes, idx: nat)
    requires idx <= |target|
    ensures Decode(Render(target, idx, []), idx, None) == Some(Marked(target[idx..], []))
  {
    hide EscapeAll, Decode, Slice;
    SliceInside(target, idx, |target|);
    assert target[idx..|target|] == target[idx..];
    DecodeEscaped(target[idx..], "", idx, None);
    DecodeNothing(|target|);
    assert EscapeAll(target[idx..]) + "" == EscapeAll(target[idx..]);
    assert target[idx..] + [] == target[idx..];
  }

  lemma WithinTail(ivs: seq<Interval>, idx: nat, n: nat)
    requires Within(ivs, idx, n) && ivs != []
    ensures idx <= ivs[0].start <= ivs[0].end <= n && Within(ivs[1..], ivs[0].end, n)
  {
  }

  lemma WithinNonnegative(ivs: seq<Interval>, idx: nat, n: nat)
    requires Within(ivs, idx, n)
    ensures forall iv <- ivs :: 0 <= iv.start && 0 <= iv.end
  {
  }

  lemma {:induction false} DecodeRender(target: Runes, idx: nat, ivs: seq<Interval>)
    requires idx <= |target| && Within(ivs, idx, |target|)
    ensures forall iv <- ivs :: 0 <= iv.start && 0 <= iv.end
    ensures Decode(Render(target, idx, ivs), idx, None) == Some(Marked(target[idx..], ivs))
    decreases |ivs|
  {
    hide EscapeAll, Decode, Slice, Within;
    WithinNonnegative(ivs, idx, |target|);
    if ivs == [] {
      DecodeRest(target, idx);
    } else {
      var iv, tail := ivs[0], ivs[1..];
      WithinTail(ivs, idx, |target|);
      DecodeRender(target, iv.end, tail);
      SliceInside(target, idx, iv.start);
      SliceInside(target, iv.start, iv.end);
      DecodeMark(target[idx..iv.start], target[iv.start..iv.end], Render(target, iv.end, tail), idx);
      assert target[idx..iv.start] + (target[iv.start..iv.end] + target[iv.end..]) == target[idx..];
      assert [iv] + tail == ivs;
    }
  }

  lemma DecodeNothing(pos: nat)
    ensures Decode("", pos, None) == Some(Marked([], []))
  {
  }

  /** Plain text, then one marked stretch, then the rest. */
  lemma DecodeMark(plain: Runes, marked: Runes, rest: string, idx: nat)
    ensures Decode(EscapeAll(plain) + (OPEN + (EscapeAll(marked) + (CLOSE + rest))), idx, None)
         == var start := idx + |plain|;
            var d := Decode(rest, start + |marked|, None);
            if d.None? then None else
              Some(Marked(plain + (marked + d.value.runes), [Interval(start, start + |marked|)] + d.value.ivs))
  {
    hide EscapeAll, Decode;
    var start := idx + |plain|;
    DecodeClose(rest, start + |marked|, start);
    DecodeEscaped(marked, CLOSE + rest, start, Some(start));
    DecodeOpen(EscapeAll(marked) + (CLOSE + rest), start);
    DecodeEscaped(plain, OPEN + (EscapeAll(marked) + (CLOSE + rest)), idx, None);
  }

  // ---- Main results ----

  /** The merged intervals of automaton hits lie inside the text. */
  lemma HitsWithin(words: seq<Word>, text: Runes, ivs: seq<Interval>)
    requires Canonical(ivs, Search(words, text))
    ensures Within(ivs, 0, |text|)
  {
    EndsWithin(words, text);
    forall iv | iv in ivs ensures 0 <= iv.start && iv.end <= |text| {
      assert Covered(Search(words, text), iv.start) && Covered(Search(words, text), iv.end - 1) by {
        assert CoveredBy(ivs, iv.start) && CoveredBy(ivs, iv.end - 1);
      }
    }
  }

  /** Decoding a highlighted text gives back the text and the merged intervals, and these cover
      exactly the positions that the replace strategy masks. */
  lemma HighlightRoundTrip(words: seq<Word>, original: Runes, normalized: Runes, ivs: seq<Interval>)
    requires Canonical(ivs, Search(words, normalized))
    ensures Within(ivs, 0, |normalized|)
    ensures Decode(Render(Target(original, normalized), 0, ivs), 0, None)
         == Some(Marked(Target(original, normalized), ivs))
    ensures forall p, mask | 0 <= p < |normalized| ::
              Masked(Target(original, normalized), Search(words, normalized), mask)[p]
              == if CoveredBy(ivs, p) then mask else Target(original, normalized)[p]
  {
    HitsWithin(words, normalized, ivs);
    var target := Target(original, normalized);
    DecodeRender(target, 0, ivs);
    assert target[0..] == target;
  }

  /** So the printer is injective on texts with hits. */
  lemma HighlightInjective(t1: Runes, ivs1: seq<Interval>, t2: Runes, ivs2: seq<Interval>)
    requires Within(ivs1, 0, |t1|) && Within(ivs2, 0, |t2|)
    requires Render(t1, 0, ivs1) == Render(t2, 0, ivs2)
    ensures t1 == t2 && ivs1 == ivs2
  {
    DecodeRender(t1, 0, ivs1);
    DecodeRender(t2, 0, ivs2);
    assert t1[0..] == t1 && t2[0..] == t2;
  }

  /** Decoding never lengthens, and shortens whatever contains a special rune. */
  lemma {:induction false} DecodeLength(s: string, pos: nat, open: Option<nat>)
    ensures Decode(s, pos, open).Some? ==> |Decode(s, pos, open).value.runes| <= |s|
    ensures Decode(s, pos, open).Some? && (exists c <- s :: Special(c)) ==>
              |Decode(s, pos, open).value.runes| < |s|
    decreases |s|
  {
    if s == [] {
    } else if OPEN <= s {
      DecodeLength(s[6..], pos, Some(pos));
    } else if CLOSE <= s {
      DecodeLength(s[7..], pos, None);
    } else if "&lt;" <= s || "&gt;" <= s {
      DecodeLength(s[4..], pos + 1, open);
    } else if "&amp;" <= s || "&#39;" <= s || "&#34;" <= s {
      DecodeLength(s[5..], pos + 1, open);
    } else {
      DecodeLength(s[1..], pos + 1, open);
      assert s == [s[0]] + s[1..];
    }
  }

  lemma {:induction false} DecodePlain(s: string, pos: nat)
    requires forall c <- s :: !Special(c)
    ensures Decode(s, pos, None) == Some(Marked(s, []))
  {
    if s != [] {
      assert s[0] in s && s == [s[0]] + s[1..];
      DecodePlain(s[1..], pos + 1);
    }
  }

  /** A text without hits is returned as it is, unescaped: it reads back as itself exactly when it
      contains none of the five special runes. */
  lemma UnescapedWithoutHits(original: Runes)
    ensures Decode(original, 0, None) == Some(Marked(original, [])) <==> forall c <- original :: !Special(c)
  {
    DecodeLength(original, 0, None);
    if forall c <- original :: !Special(c) {
      DecodePlain(original, 0);
    }
  }

  // ---- Nothing but tags is raw ----

  /** Apart from the two tags there is no raw rune that HTML gives a meaning to. */
  predicate OnlyTags(s: string)
    decreases |s|
  {
    if s == "" then true
    else if "<mark>" <= s then OnlyTags(s[6..])
    else if "</mark>" <= s then OnlyTags(s[7..])
    else s[0] !in {'<', '>', '"', '\''} && OnlyTags(s[1..])
  }

  lemma {:induction false} PlainBefore(a: string, rest: string)
    requires forall c <- a :: c !in {'<', '>', '"', '\''}
    requires OnlyTags(rest)
    ensures OnlyTags(a + rest)
    decreases |a|
  {
    if a == [] {
      assert a + rest == rest;
    } else {
      assert (a + rest)[0] == a[0] && a[0] in a && (a + rest)[1..] == a[1..] + rest;
      assert forall c <- a[1..] :: c in a;
      PlainBefore(a[1..], rest);
    }
  }

  lemma {:induction false} EscapedIsPlain(s: Runes)
    ensures forall c <- EscapeAll(s) :: c !in {'<', '>', '"', '\''}
  {
    if s != [] {
      EscapedIsPlain(s[1..]);
      assert forall c <- Escape(s[0]) :: c !in {'<', '>', '"', '\''};
    }
  }

  lemma TagBefore(rest: string)
    requires OnlyTags(rest)
    ensures OnlyTags("<mark>" + rest) && OnlyTags("</mark>" + rest)
  {
    assert ("<mark>" + rest)[6..] == rest && ("</mark>" + rest)[7..] == rest;
    assert ("</mark>" + rest)[1] == '/';
  }

  /** Highlighted output is safe to show, whatever the text was. */
  lemma {:induction false} RenderIsSafe(target: Runes, idx: nat, ivs: seq<Interval>)
    requires forall iv <- ivs :: 0 <= iv.start && 0 <= iv.end
    ensures OnlyTags(Render(target, idx, ivs))
    decreases |ivs|
  {
    hide OnlyTags, EscapeAll, Slice;
    if ivs == [] {
      var rest := EscapeAll(Slice(target, idx, |target|));
      EscapedIsPlain(Slice(target, idx, |target|));
      assert OnlyTags("") by { NothingIsSafe(); }
      PlainBefore(rest, "");
      assert rest + "" == rest;
    } else {
      RenderIsSafe(target, ivs[0].end, ivs[1..]);
      var after := Render(target, ivs[0].end, ivs[1..]);
      TagBefore(after);
      EscapedIsPlain(Slice(target, ivs[0].start, ivs[0].end));
      var marked := EscapeAll(Slice(target, ivs[0].start, ivs[0].end)) + (CLOSE + after);
      PlainBefore(EscapeAll(Slice(target, ivs[0].start, ivs[0].end)), CLOSE + after);
      TagBefore(marked);
      EscapedIsPlain(Slice(target, idx, ivs[0].start));
      PlainBefore(EscapeAll(Slice(target, idx, ivs[0].start)), OPEN + marked);
    }
  }

  lemma NothingIsSafe()
    ensures OnlyTags("")
  {
  }
}
