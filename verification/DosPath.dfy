/** Reducing a DOS path: dos_clean_name edits a string in place to remove ".."
    elements (client/client.c), with the string helpers it is made of. */
module DosPath {
  import opened CStrings
  import opened Options

  // ---- strings ----

  predicate OccursAt(text: string, pattern: string, p: nat) {
    p + |pattern| <= |text| && text[p..p + |pattern|] == pattern
  }

  /** strstr from position `from` on: the first occurrence, or -1. */
  function Find(text: string, pattern: string, from: nat): (r: int)
    requires from <= |text|
    ensures r == -1 || (from <= r && OccursAt(text, pattern, r))
    ensures forall q :: from <= q < (if r == -1 then |text| else r) ==> !OccursAt(text, pattern, q)
    decreases |text| - from
  {
    if OccursAt(text, pattern, from) then from
    else if from == |text| then -1
    else Find(text, pattern, from + 1)
  }

  /** strrchr: the last occurrence, or -1. */
  function FindLast(text: string, c: char): (r: int)
    ensures r == -1 || (0 <= r < |text| && text[r] == c)
    ensures forall q :: r < q < |text| ==> text[q] != c
  {
    if text == "" then -1
    else if text[|text| - 1] == c then |text| - 1
    else FindLast(text[..|text| - 1], c)
  }

  /** Replace from left to right, going on behind what was inserted. */
  function ReplaceAll(text: string, pattern: string, insert: string): string
    requires pattern != ""
    decreases |text|
  {
    var p := Find(text, pattern, 0);
    if p == -1 then text
    else text[..p] + insert + ReplaceAll(text[p + |pattern|..], pattern, insert)
  }

  /** The same as long as there is room: `spare` is by how much the limit for the
      string and its terminator exceeds the length of the string. */
  function Substitute(text: string, pattern: string, insert: string, spare: int): string
    requires pattern != ""
    decreases |text|
  {
    var p := Find(text, pattern, 0);
    var growth := |insert| - |pattern|;
    if p == -1 || growth >= spare then text
    else text[..p] + insert + Substitute(text[p + |pattern|..], pattern, insert, spare - growth)
  }

  /** all_string_sub; a limit of 0 means that the string may not grow. */
  function AllStringSub(text: string, pattern: string, insert: string, limit: nat): string {
    if pattern == "" then text
    else Substitute(text, pattern, insert, if limit == 0 then 1 else limit - |text|)
  }

  /** An insert that is not longer than the pattern is always put in. */
  lemma {:induction false} SubstituteAll(text: string, pattern: string, insert: string, spare: int)
    requires pattern != "" && |insert| <= |pattern| && 0 < spare
    ensures Substitute(text, pattern, insert, spare) == ReplaceAll(text, pattern, insert)
    decreases |text|
  {
    var p := Find(text, pattern, 0);
    if p != -1 {
      SubstituteAll(text[p + |pattern|..], pattern, insert, spare - (|insert| - |pattern|));
    }
  }

  /** The limit is respected: whatever is put in, the string and its terminator
      fit, if they did before; and with limit 0 the string does not grow. */
  lemma {:induction false} SubstituteFits(text: string, pattern: string, insert: string, spare: int)
    requires pattern != "" && 0 < spare
    ensures |Substitute(text, pattern, insert, spare)| < |text| + spare
    decreases |text|
  {
    hide Find, OccursAt, Substitute;
    SubstituteUnfolds(text, pattern, insert, spare);
    var p := Find(text, pattern, 0);
    var growth := |insert| - |pattern|;
    if p != -1 && growth < spare {
      FoundAt(text, pattern, 0);
      SubstituteFits(text[p + |pattern|..], pattern, insert, spare - growth);
    }
  }

  /** trim_string at the back. */
  function TrimBack(text: string, back: string): string
    requires back != ""
    decreases |text|
  {
    if |text| >= |back| && text[|text| - |back|..] == back then TrimBack(text[..|text| - |back|], back) else text
  }

  function Repeated(back: string, k: nat): string {
    if k == 0 then "" else Repeated(back, k - 1) + back
  }

  predicate EndsWith(text: string, back: string) {
    |text| >= |back| && text[|text| - |back|..] == back
  }

  /** What has been trimmed is the suffix, over and over, until it was gone. */
  lemma {:induction false} TrimmedIsRepeated(text: string, back: string) returns (k: nat)
    requires back != ""
    ensures text == TrimBack(text, back) + Repeated(back, k) && !EndsWith(TrimBack(text, back), back)
    decreases |text|
  {
    k := 0;
    if EndsWith(text, back) {
      var front := text[..|text| - |back|];
      TrimUnfolds(text, back);
      hide TrimBack, Repeated;
      k := TrimmedIsRepeated(front, back);
      assert text == front + back;
      RepeatedMore(TrimBack(front, back), back, k);
      k := k + 1;
    }
  }

  lemma TrimUnfolds(text: string, back: string)
    requires back != "" && EndsWith(text, back)
    ensures TrimBack(text, back) == TrimBack(text[..|text| - |back|], back)
  {
  }

  lemma RepeatedMore(front: string, back: string, k: nat)
    ensures front + Repeated(back, k) + back == front + Repeated(back, k + 1)
  {
  }

  const DOT_DOT: string := [BACKSLASH, '.', '.', BACKSLASH]

  /** One round of the ".." loop: `p` is where "\\..\\" was found. */
  function CutDotDot(text: string, p: nat): string
    requires OccursAt(text, DOT_DOT, p)
  {
    var r := FindLast(text[..p], BACKSLASH);
    if r == -1 then text[..p] else text[..r] + text[p + 3..]
  }

  function ReduceDotDot(text: string): string
    decreases |text|
  {
    var p := Find(text, DOT_DOT, 0);
    if p == -1 then text else ReduceDotDot(CutDotDot(text, p))
  }

  /** What dos_clean_name makes of a string. */
  function CleanName(text: string): string {
    var single := AllStringSub(text, [BACKSLASH, BACKSLASH], [BACKSLASH], 0);
    var reduced := ReduceDotDot(single);
    var trimmed := TrimBack(reduced, [BACKSLASH, '.', '.']);
    AllStringSub(trimmed, [BACKSLASH, '.', BACKSLASH], [BACKSLASH], 0)
  }

  // ---- paths ----

  /** An absolute path with a separator in front of every component and at the end. */
  function Render(comps: seq<string>): string {
    if comps == [] then [BACKSLASH] else [BACKSLASH] + comps[0] + Render(comps[1..])
  }

  /** Components as the separators of a path make them. */
  predicate Separated(comps: seq<string>) {
    forall i :: 0 <= i < |comps| ==> BACKSLASH !in comps[i]
  }

  /** Resolution of ".." with a stack; climbing above the root is an error. */
  function Resolve(stack: seq<string>, comps: seq<string>): Option<seq<string>>
    decreases |comps|
  {
    if comps == [] then Some(stack)
    else if comps[0] == ".." then (if stack == [] then None else Resolve(stack[..|stack| - 1], comps[1..]))
    else Resolve(stack + [comps[0]], comps[1..])
  }

  /** A component between two separators. */
  function Between(c: string): string {
    [BACKSLASH] + c + [BACKSLASH]
  }

  /** The first character where two strings without separators end tells them
      apart; if both are followed by a separator they are equal. */
  lemma SameComponent(a: string, b: string, s: string, t: string)
    requires BACKSLASH !in a && BACKSLASH !in b
    requires a + [BACKSLASH] + s == b + [BACKSLASH] + t
    ensures a == b
  {
    var x, y := a + [BACKSLASH] + s, b + [BACKSLASH] + t;
    assert x[|a|] == BACKSLASH && y[|b|] == BACKSLASH;
    assert forall i :: 0 <= i < |a| ==> x[i] == a[i];
    assert forall i :: 0 <= i < |b| ==> y[i] == b[i];
    assert |a| == |b|;
    assert a == x[..|a|] && b == y[..|b|];
  }

  lemma RenderStarts(comps: seq<string>)
    ensures |Render(comps)| > 0 && Render(comps)[0] == BACKSLASH
    ensures Render(comps)[|Render(comps)| - 1] == BACKSLASH
  {
  }

  lemma OccursAtStart(x: string, rest: string, c: string)
    requires BACKSLASH !in x && BACKSLASH !in c
    requires |rest| > 0 && rest[0] == BACKSLASH
    ensures OccursAt([BACKSLASH] + x + rest, Between(c), 0) <==> x == c
  {
    var text, pat := [BACKSLASH] + x + rest, Between(c);
    assert text[1..] == x + [BACKSLASH] + rest[1..];
    if OccursAt(text, pat, 0) {
      assert text == pat + text[|pat|..];
      assert text[1..] == c + [BACKSLASH] + text[|pat|..];
      SameComponent(x, c, rest[1..], text[|pat|..]);
    }
    if x == c {
      assert text[..|pat|] == pat;
    }
  }

  lemma OccursNotInside(x: string, rest: string, c: string, p: nat)
    requires BACKSLASH !in x && 0 < p <= |x|
    ensures !OccursAt([BACKSLASH] + x + rest, Between(c), p)
  {
    var text, pat := [BACKSLASH] + x + rest, Between(c);
    assert text[p] == x[p - 1];
    assert p + |pat| <= |text| ==> text[p..p + |pat|][0] == text[p];
  }

  lemma OccursLater(x: string, rest: string, pat: string, p: nat)
    requires p >= 1 + |x|
    ensures OccursAt([BACKSLASH] + x + rest, pat, p) <==> OccursAt(rest, pat, p - 1 - |x|)
  {
    var text, q := [BACKSLASH] + x + rest, p - 1 - |x|;
    if p + |pat| <= |text| {
      assert text[p..p + |pat|] == rest[q..q + |pat|];
    }
  }

  /** Where a component occurs in a path, going by the first component. */
  lemma OccursInRender(comps: seq<string>, c: string, p: nat)
    requires comps != [] && BACKSLASH !in comps[0] && BACKSLASH !in c
    ensures OccursAt(Render(comps), Between(c), p) <==>
            || (p == 0 && comps[0] == c)
            || (p >= 1 + |comps[0]| && OccursAt(Render(comps[1..]), Between(c), p - 1 - |comps[0]|))
  {
    var x, rest := comps[0], Render(comps[1..]);
    assert Render(comps) == [BACKSLASH] + x + rest;
    RenderStarts(comps[1..]);
    hide Render, OccursAt, Between;
    if p == 0 {
      OccursAtStart(x, rest, c);
    } else if p <= |x| {
      OccursNotInside(x, rest, c, p);
    } else {
      OccursLater(x, rest, Between(c), p);
    }
  }

  /** Position of the separator in front of the first component `c`, or -1. */
  function OffsetOf(comps: seq<string>, c: string): int {
    if comps == [] then -1
    else if comps[0] == c then 0
    else
      var o := OffsetOf(comps[1..], c);
      if o == -1 then -1 else o + 1 + |comps[0]|
  }

  ghost predicate IsFirst(text: string, pattern: string, r: int) {
    if r == -1 then forall q: nat :: !OccursAt(text, pattern, q)
    else 0 <= r && OccursAt(text, pattern, r) && forall q: nat :: q < r ==> !OccursAt(text, pattern, q)
  }

  lemma {:induction false} OffsetIsFirst(comps: seq<string>, c: string)
    requires forall i :: 0 <= i < |comps| ==> BACKSLASH !in comps[i]
    requires BACKSLASH !in c
    ensures OffsetOf(comps, c) >= -1
    ensures IsFirst(Render(comps), Between(c), OffsetOf(comps, c))
  {
    if comps != [] {
      OffsetIsFirst(comps[1..], c);
      var r := OffsetOf(comps, c);
      hide Render, OccursAt, Between;
      forall q: nat
        ensures OccursAt(Render(comps), Between(c), q) <==>
                || (q == 0 && comps[0] == c)
                || (q >= 1 + |comps[0]| && OccursAt(Render(comps[1..]), Between(c), q - 1 - |comps[0]|))
      {
        OccursInRender(comps, c, q);
      }
    }
  }

  lemma FindIsFirst(text: string, pattern: string)
    requires pattern != ""
    ensures IsFirst(text, pattern, Find(text, pattern, 0))
  {
  }

  /** strstr finds the first such component. */
  lemma FindComponent(comps: seq<string>, c: string)
    requires forall i :: 0 <= i < |comps| ==> BACKSLASH !in comps[i]
    requires BACKSLASH !in c
    ensures Find(Render(comps), Between(c), 0) == OffsetOf(comps, c)
  {
    OffsetIsFirst(comps, c);
    FindIsFirst(Render(comps), Between(c));
  }

  // ---- the reduction on paths ----

  /** The path without its final separator. */
  function Open(comps: seq<string>): string {
    if comps == [] then "" else [BACKSLASH] + comps[0] + Open(comps[1..])
  }

  lemma {:induction false} RenderOpen(a: seq<string>, b: seq<string>)
    ensures Render(a + b) == Open(a) + Render(b)
  {
    if a == [] {
      assert a + b == b;
    } else {
      assert (a + b)[1..] == a[1..] + b;
      RenderOpen(a[1..], b);
    }
  }

  lemma {:induction false} OpenConcat(a: seq<string>, b: seq<string>)
    ensures Open(a + b) == Open(a) + Open(b)
  {
    if a == [] {
      assert a + b == b;
    } else {
      assert (a + b)[1..] == a[1..] + b;
      OpenConcat(a[1..], b);
    }
  }

  lemma {:induction false} OffsetAfter(a: seq<string>, c: string, b: seq<string>)
    requires c !in a
    ensures OffsetOf(a + [c] + b, c) == |Open(a)|
  {
    if a == [] {
      assert a + [c] + b == [c] + b;
    } else {
      assert (a + [c] + b)[1..] == a[1..] + [c] + b;
      OffsetAfter(a[1..], c, b);
    }
  }

  lemma {:induction false} OffsetNone(comps: seq<string>, c: string)
    requires c !in comps
    ensures OffsetOf(comps, c) == -1
  {
    if comps != [] {
      OffsetNone(comps[1..], c);
    }
  }

  lemma OpenSnoc(a: seq<string>, x: string)
    ensures Open(a + [x]) == Open(a) + ([BACKSLASH] + x)
  {
    OpenConcat(a, [x]);
    assert Open([x]) == [BACKSLASH] + x + Open([]);
  }

  lemma LastInText(head: string, x: string)
    requires BACKSLASH !in x
    ensures FindLast(head + ([BACKSLASH] + x), BACKSLASH) == |head|
  {
    hide FindLast;
    var text := head + ([BACKSLASH] + x);
    var r := FindLast(text, BACKSLASH);
    assert text[|head|] == BACKSLASH;
    forall q | |head| < q < |text|
      ensures text[q] != BACKSLASH
    {
      assert text[q] == x[q - |head| - 1];
    }
  }

  const DOTS: string := [BACKSLASH, '.', '.']

  /** Cutting in plain text: `head`, a component, the dots, and the rest. */
  lemma CutText(head: string, x: string, tail: string)
    requires BACKSLASH !in x && tail != "" && tail[0] == BACKSLASH
    ensures var front := head + ([BACKSLASH] + x);
            var text := front + (DOTS + tail);
            && OccursAt(text, DOT_DOT, |front|) && FindLast(text[..|front|], BACKSLASH) != -1
            && CutDotDot(text, |front|) == head + tail
  {
    LastInText(head, x);
    hide FindLast;
    var front := head + ([BACKSLASH] + x);
    var text, p := front + (DOTS + tail), |front|;
    assert DOT_DOT == DOTS + [tail[0]];
    assert text[p..p + 4] == DOTS + [tail[0]];
    assert text[..p] == front;
    assert text[p + 3..] == tail;
    assert text[..|head|] == head;
  }

  /** One round of the loop takes away a component and the ".." behind it; what
      follows the last separator stays. */
  lemma CutStep(a: seq<string>, x: string, b: seq<string>, last: string)
    requires BACKSLASH !in x && BACKSLASH !in last
    ensures var text := Render(a + [x] + [".."] + b) + last;
            var p := |Open(a + [x])|;
            && OccursAt(text, DOT_DOT, p)
            && CutDotDot(text, p) == Render(a + b) + last
  {
    var text, p := Render(a + [x] + [".."] + b), |Open(a + [x])|;
    CutPair(a, x, b);
    assert Between("..") == DOT_DOT;
    OccursBefore(text, last, "..", p);
    CutBefore(text, last, p);
  }

  lemma CutPair(a: seq<string>, x: string, b: seq<string>)
    requires BACKSLASH !in x
    ensures var text := Render(a + [x] + [".."] + b);
            var p := |Open(a + [x])|;
            && OccursAt(text, DOT_DOT, p) && FindLast(text[..p], BACKSLASH) != -1
            && CutDotDot(text, p) == Render(a + b)
  {
    RenderDots(b);
    RenderStarts(b);
    hide Render, Open, OccursAt, CutDotDot;
    assert a + [x] + [".."] + b == (a + [x]) + ([".."] + b);
    RenderOpen(a + [x], [".."] + b);
    OpenSnoc(a, x);
    RenderOpen(a, b);
    CutText(Open(a), x, Render(b));
  }

  lemma RenderDots(b: seq<string>)
    ensures Render([".."] + b) == DOTS + Render(b)
  {
    assert ([".."] + b)[1..] == b;
    assert [BACKSLASH] + ".." == DOTS;
  }

  /** A ".." with nothing in front of it wipes out the whole path. */
  lemma CutAtRoot(b: seq<string>)
    ensures OccursAt(Render([".."] + b), DOT_DOT, 0)
    ensures CutDotDot(Render([".."] + b), 0) == ""
  {
    var text, tail := Render([".."] + b), Render(b);
    assert ([".."] + b)[1..] == b;
    RenderStarts(b);
    assert text == [BACKSLASH] + ".." + tail;
    assert text[0..4] == DOT_DOT;
    assert text[..0] == "";
  }

  lemma {:induction false} ResolveStep(stack: seq<string>, a: seq<string>, x: string, b: seq<string>)
    requires ".." !in a && x != ".."
    ensures Resolve(stack, a + [x] + [".."] + b) == Resolve(stack, a + b)
    decreases |a|
  {
    if a == [] {
      assert a + [x] + [".."] + b == [x] + ([".."] + b) && a + b == b;
      assert ([x] + ([".."] + b))[1..] == [".."] + b;
      assert ([".."] + b)[1..] == b;
      assert (stack + [x])[..|stack|] == stack;
    } else {
      var rest := a[1..];
      assert (a + [x] + [".."] + b)[1..] == rest + [x] + [".."] + b;
      assert (a + b)[1..] == rest + b;
      ResolveStep(stack + [a[0]], rest, x, b);
    }
  }

  lemma {:induction false} ResolvePlain(stack: seq<string>, comps: seq<string>)
    requires ".." !in comps
    ensures Resolve(stack, comps) == Some(stack + comps)
    decreases |comps|
  {
    if comps == [] {
      assert stack + comps == stack;
    } else {
      ResolvePlain(stack + [comps[0]], comps[1..]);
      assert stack + [comps[0]] + comps[1..] == stack + comps;
    }
  }

  /** The part of a path in front of its first component `c`. */
  lemma SplitAtFirst(comps: seq<string>, c: string) returns (front: seq<string>, back: seq<string>)
    requires c in comps
    ensures comps == front + [c] + back && c !in front
  {
    var i := 0;
    while comps[i] != c
      invariant 0 <= i < |comps|
      invariant c !in comps[..i]
      invariant c in comps[i..]
      decreases |comps| - i
    {
      assert comps[i..] == [comps[i]] + comps[i + 1..];
      assert comps[..i + 1] == comps[..i] + [comps[i]];
      i := i + 1;
    }
    front, back := comps[..i], comps[i + 1..];
  }

  /** What ends in a separator does not occur across a text without one. */
  lemma OccursBefore(t: string, x: string, c: string, q: nat)
    requires BACKSLASH !in x
    ensures OccursAt(t + x, Between(c), q) <==> OccursAt(t, Between(c), q)
  {
    var pat, all := Between(c), t + x;
    if q + |pat| <= |t| {
      assert all[q..q + |pat|] == t[q..q + |pat|];
    } else if q + |pat| <= |all| {
      var last := q + |pat| - 1;
      assert all[q..q + |pat|][|pat| - 1] == all[last] == x[last - |t|];
      assert x[last - |t|] in x && pat[|pat| - 1] == BACKSLASH;
    }
  }

  lemma FindBefore(t: string, x: string, c: string)
    requires BACKSLASH !in x
    ensures Find(t + x, Between(c), 0) == Find(t, Between(c), 0)
  {
    FindIsFirst(t, Between(c));
    FindIsFirst(t + x, Between(c));
    hide OccursAt, Between;
    forall q: nat
      ensures OccursAt(t + x, Between(c), q) <==> OccursAt(t, Between(c), q)
    {
      OccursBefore(t, x, c, q);
    }
  }

  /** A cut that finds a separator keeps what follows the last one. */
  lemma CutBefore(t: string, x: string, p: nat)
    requires OccursAt(t, DOT_DOT, p) && OccursAt(t + x, DOT_DOT, p)
    ensures CutDotDot(t + x, p) == CutDotDot(t, p) + if FindLast(t[..p], BACKSLASH) == -1 then "" else x
  {
    hide FindLast;
    var r := FindLast(t[..p], BACKSLASH);
    assert (t + x)[..p] == t[..p];
    if r != -1 {
      assert (t + x)[..r] == t[..r];
      assert (t + x)[p + 3..] == t[p + 3..] + x;
    }
  }

  /** The loop resolves every ".." of a path that stays below the root, and turns
      a path that climbs above the root into the empty string; `x` is what follows
      the last separator. */
  lemma {:induction false} ReduceResolves(comps: seq<string>, x: string)
    requires Separated(comps) && BACKSLASH !in x
    ensures ReduceDotDot(Render(comps) + x) == match Resolve([], comps)
                                               case Some(r) => Render(r) + x
                                               case None => ""
    ensures Resolve([], comps).Some? ==> Separated(Resolve([], comps).value)
    decreases |comps|
  {
    FindComponent(comps, "..");
    FindBefore(Render(comps), x, "..");
    assert Between("..") == DOT_DOT;
    if ".." !in comps {
      OffsetNone(comps, "..");
      ResolvePlain([], comps);
      assert [] + comps == comps;
    } else {
      var front, back := SplitAtFirst(comps, "..");
      OffsetAfter(front, "..", back);
      if front == [] {
        assert comps == [".."] + back;
        CutAtRoot(back);
        assert (Render(comps) + x)[..0] == "";
        assert Find("", DOT_DOT, 0) == -1;
      } else {
        var a, y := front[..|front| - 1], front[|front| - 1];
        assert front == a + [y];
        assert y in front;
        SeparatedParts(a, y, back);
        CutStep(a, y, back, x);
        ResolveStep([], a, y, back);
        ReduceResolves(a + back, x);
      }
    }
  }

  lemma SeparatedParts(a: seq<string>, x: string, b: seq<string>)
    requires Separated(a + [x] + [".."] + b)
    ensures Separated(a + b) && BACKSLASH !in x
  {
    var all := a + [x] + [".."] + b;
    assert all[|a|] == x;
    forall i | 0 <= i < |a + b|
      ensures (a + b)[i] == all[if i < |a| then i else i + 2]
    {
    }
  }

  // ---- superfluous components ----

  /** What substitution makes of the components `c`: the first one goes, and the
      component behind it stays even if it is another `c`, since the separator
      between the two has been used up. */
  function Thin(comps: seq<string>, c: string): seq<string> {
    if comps == [] then []
    else if comps[0] != c then [comps[0]] + Thin(comps[1..], c)
    else if |comps| == 1 then []
    else [comps[1]] + Thin(comps[2..], c)
  }

  lemma {:induction false} ThinNone(comps: seq<string>, c: string)
    requires c !in comps
    ensures Thin(comps, c) == comps
  {
    if comps != [] {
      ThinNone(comps[1..], c);
    }
  }

  lemma {:induction false} ThinAt(front: seq<string>, c: string, back: seq<string>)
    requires c !in front
    ensures Thin(front + [c] + back, c) == front + if back == [] then [] else [back[0]] + Thin(back[1..], c)
  {
    if front == [] {
      assert front + [c] + back == [c] + back;
      assert back != [] ==> ([c] + back)[1] == back[0] && ([c] + back)[2..] == back[1..];
    } else {
      assert (front + [c] + back)[1..] == front[1..] + [c] + back;
      ThinAt(front[1..], c, back);
    }
  }

  lemma {:induction false} ThinSeparated(comps: seq<string>, c: string)
    requires Separated(comps)
    ensures Separated(Thin(comps, c))
  {
    if comps != [] {
      if comps[0] != c {
        ThinSeparated(comps[1..], c);
      } else if |comps| > 1 {
        ThinSeparated(comps[2..], c);
      }
    }
  }

  lemma FindSkip(text: string, pattern: string, k: nat)
    requires k <= |text| && pattern != ""
    requires forall q: nat :: q < k ==> !OccursAt(text, pattern, q)
    ensures Find(text, pattern, 0) == Find(text, pattern, k)
  {
    var a, b := Find(text, pattern, 0), Find(text, pattern, k);
    assert !OccursAt(text, pattern, |text|);
  }

  lemma FindAfter(x: string, text: string, c: string)
    requires BACKSLASH !in x
    ensures Find(x + text, Between(c), 0)
            == if Find(text, Between(c), 0) == -1 then -1 else |x| + Find(text, Between(c), 0)
  {
    var pat, all := Between(c), x + text;
    forall q: nat | q < |x|
      ensures !OccursAt(all, pat, q)
    {
      assert all[q] == x[q];
      assert q + |pat| <= |all| ==> all[q..q + |pat|][0] == all[q];
    }
    FindSkip(all, pat, |x|);
    FindShift(all, pat, |x|, |x|);
    assert all[|x|..] == text;
  }

  lemma ReplaceUnfolds(text: string, pattern: string, insert: string)
    requires pattern != ""
    ensures var p := Find(text, pattern, 0);
            ReplaceAll(text, pattern, insert)
            == if p == -1 then text else text[..p] + insert + ReplaceAll(text[p + |pattern|..], pattern, insert)
  {
  }

  /** Substitution goes past a beginning that has no separator. */
  lemma ReplaceAfter(x: string, text: string, c: string, insert: string)
    requires BACKSLASH !in x
    ensures ReplaceAll(x + text, Between(c), insert) == x + ReplaceAll(text, Between(c), insert)
  {
    hide Find, ReplaceAll, OccursAt;
    var pat, all := Between(c), x + text;
    FindAfter(x, text, c);
    ReplaceUnfolds(text, pat, insert);
    ReplaceUnfolds(all, pat, insert);
    var p := Find(text, pat, 0);
    if p != -1 {
      FoundAt(text, pat, 0);
      assert all[..|x| + p] == x + text[..p];
      assert all[|x| + p + |pat|..] == text[p + |pat|..];
    }
  }

  /** Substituting a separator for a component between two of them, on paths. */
  lemma {:induction false} ReplaceThins(comps: seq<string>, c: string)
    requires Separated(comps) && BACKSLASH !in c
    ensures ReplaceAll(Render(comps), Between(c), [BACKSLASH]) == Render(Thin(comps, c))
    decreases |comps|
  {
    FindComponent(comps, c);
    hide Render, Open, ReplaceAll, Find, Thin, OccursAt, Between, OffsetOf;
    if c !in comps {
      OffsetNone(comps, c);
      ThinNone(comps, c);
      ReplaceNothing(Render(comps), c);
    } else {
      var front, back := SplitAtFirst(comps, c);
      OffsetAfter(front, c, back);
      ReplaceFirst(front, c, back);
      if back == [] {
        ThinsLast(front, c);
      } else {
        assert forall i :: 0 <= i < |back| ==> back[i] == comps[|front| + 1 + i];
        ReplaceThins(back[1..], c);
        ThinsMore(front, c, back);
      }
    }
  }

  lemma ThinsLast(front: seq<string>, c: string)
    requires c !in front
    ensures Open(front) + [BACKSLASH] + ReplaceAll("", Between(c), [BACKSLASH]) == Render(Thin(front + [c] + [], c))
  {
    ThinAt(front, c, []);
    FindInNothing(c);
    ReplaceNothing("", c);
    RenderOpen(front, []);
    assert front + [] == front;
  }

  lemma ThinsMore(front: seq<string>, c: string, back: seq<string>)
    requires c !in front && back != [] && BACKSLASH !in back[0]
    requires ReplaceAll(Render(back[1..]), Between(c), [BACKSLASH]) == Render(Thin(back[1..], c))
    ensures Open(front) + [BACKSLASH] + ReplaceAll(back[0] + Render(back[1..]), Between(c), [BACKSLASH])
            == Render(Thin(front + [c] + back, c))
  {
    hide Render, Open, ReplaceAll, Thin, Between;
    var more := Thin(back[1..], c);
    ThinAt(front, c, back);
    ReplaceAfter(back[0], Render(back[1..]), c, [BACKSLASH]);
    RenderOpen(front, [back[0]] + more);
    RenderCons(back[0], more);
    assert Open(front) + [BACKSLASH] + (back[0] + Render(more)) == Open(front) + ([BACKSLASH] + back[0] + Render(more));
  }

  lemma ReplaceNothing(text: string, c: string)
    requires Find(text, Between(c), 0) == -1
    ensures ReplaceAll(text, Between(c), [BACKSLASH]) == text
  {
  }

  lemma FindInNothing(c: string)
    ensures Find("", Between(c), 0) == -1
  {
  }

  lemma RenderCons(c: string, back: seq<string>)
    ensures Render([]) == [BACKSLASH]
    ensures Render([c] + back) == [BACKSLASH] + c + Render(back)
    ensures Render(back)[1..] == if back == [] then "" else back[0] + Render(back[1..])
  {
    assert ([c] + back)[1..] == back;
  }

  /** The first substitution on a path. */
  lemma ReplaceFirst(front: seq<string>, c: string, back: seq<string>)
    requires Find(Render(front + [c] + back), Between(c), 0) == |Open(front)|
    ensures ReplaceAll(Render(front + [c] + back), Between(c), [BACKSLASH])
            == Open(front) + [BACKSLASH]
               + ReplaceAll(if back == [] then "" else back[0] + Render(back[1..]), Between(c), [BACKSLASH])
  {
    hide Find, Open, Render, ReplaceAll, OccursAt;
    var text, p := Render(front + [c] + back), |Open(front)|;
    assert front + [c] + back == front + ([c] + back);
    RenderOpen(front, [c] + back);
    RenderCons(c, back);
    RenderStarts(back);
    assert text == Open(front) + ([BACKSLASH] + c + Render(back));
    assert text[..p] == Open(front);
    assert text[p + |Between(c)|..] == Render(back)[1..];
    ReplaceUnfolds(text, Between(c), [BACKSLASH]);
  }

  /** Substitution does not reach beyond the last separator. */
  lemma {:induction false} ReplaceBefore(t: string, x: string, c: string)
    requires BACKSLASH !in x
    ensures ReplaceAll(t + x, Between(c), [BACKSLASH]) == ReplaceAll(t, Between(c), [BACKSLASH]) + x
    decreases |t|
  {
    hide Find, ReplaceAll, OccursAt;
    var pat, p := Between(c), Find(t, Between(c), 0);
    FindBefore(t, x, c);
    ReplaceUnfolds(t, pat, [BACKSLASH]);
    ReplaceUnfolds(t + x, pat, [BACKSLASH]);
    if p != -1 {
      FoundAt(t, pat, 0);
      ReplaceBefore(t[p + |pat|..], x, c);
      assert (t + x)[..p] == t[..p];
      assert (t + x)[p + |pat|..] == t[p + |pat|..] + x;
    }
  }

  /** Substitution of a component on a path and what follows its last separator. */
  lemma SubThins(comps: seq<string>, x: string, c: string)
    requires Separated(comps) && BACKSLASH !in x && BACKSLASH !in c
    ensures AllStringSub(Render(comps) + x, Between(c), [BACKSLASH], 0) == Render(Thin(comps, c)) + x
  {
    SubstituteAll(Render(comps) + x, Between(c), [BACKSLASH], 1);
    ReplaceBefore(Render(comps), x, c);
    ReplaceThins(comps, c);
  }

  lemma DotsAtEnd(head: string, x: string)
    requires BACKSLASH !in x
    ensures var text := head + [BACKSLASH] + x;
            |text| >= 3 && text[|text| - 3..] == DOTS <==> x == ".."
  {
    var text := head + [BACKSLASH] + x;
    var n := |text|;
    assert text[|head|] == BACKSLASH;
    assert forall i :: |head| < i < n ==> text[i] == x[i - |head| - 1];
    if n >= 3 {
      var end := text[n - 3..];
      assert end[0] == text[n - 3] && end[1] == text[n - 2] && end[2] == text[n - 1];
      if end == DOTS {
        assert x == [text[n - 2], text[n - 1]];
      }
      if x == ".." {
        assert end == [BACKSLASH] + x;
      }
    }
  }

  /** Only a last component ".." is trimmed. */
  lemma TrimLast(head: string, x: string)
    requires BACKSLASH !in x
    ensures TrimBack(head + [BACKSLASH] + x, DOTS) == if x == ".." then TrimBack(head, DOTS) else head + [BACKSLASH] + x
  {
    var text := head + [BACKSLASH] + x;
    DotsAtEnd(head, x);
    if x == ".." {
      assert text[..|text| - 3] == head;
    }
  }

  /** A path without its final separator, and with its superfluous "." thinned. */
  function Closed(r: seq<string>): string {
    if r == [] then "" else Render(Thin(r[..|r| - 1], ".")) + r[|r| - 1]
  }

  lemma OpenLast(front: seq<string>, y: string)
    ensures Open(front + [y]) == Open(front) + [BACKSLASH] + y
    ensures Open(front + [y]) == Render(front) + y
  {
    hide Render, Open;
    OpenSnoc(front, y);
    RenderOpen(front, []);
    RenderCons("", []);
    assert front + [] == front;
    assert Open(front) + ([BACKSLASH] + y) == Open(front) + [BACKSLASH] + y;
  }

  lemma OpenIsTrimmed(r: seq<string>)
    requires Separated(r) && ".." !in r
    ensures TrimBack(Open(r), DOTS) == Open(r)
    ensures AllStringSub(Open(r), Between("."), [BACKSLASH], 0) == Closed(r)
  {
    hide Render, Open, TrimBack, AllStringSub, Between, Thin;
    if r == [] {
      TrimNothing();
    } else {
      var front, y := r[..|r| - 1], r[|r| - 1];
      assert r == front + [y] && y in r;
      OpenLast(front, y);
      TrimLast(Open(front), y);
      SubThins(front, y, ".");
    }
  }

  /** What dos_clean_name makes of an absolute path: of the components in front of
      the last separator, and of what follows it. */
  function Cleaned(front: seq<string>, x: string): string {
    match Resolve([], Thin(front, ""))
    case None => ""
    case Some(r) => if x == ".." then Closed(r) else Render(Thin(r, ".")) + x
  }

  lemma CleanAbsolute(front: seq<string>, x: string)
    requires Separated(front) && BACKSLASH !in x
    ensures CleanName(Render(front) + x) == Cleaned(front, x)
  {
    assert Between("") == [BACKSLASH, BACKSLASH] && Between(".") == [BACKSLASH, '.', BACKSLASH];
    var thin := Thin(front, "");
    SubThins(front, x, "");
    ThinSeparated(front, "");
    ReduceResolves(thin, x);
    hide Render, Thin, ReduceDotDot, Resolve, TrimBack, AllStringSub, Between, Open, Closed;
    match Resolve([], thin)
    case None =>
      TrimNothing();
    case Some(r) =>
      RenderOpen(r, []);
      RenderCons("", []);
      assert r + [] == r;
      TrimLast(Open(r), x);
      if x == ".." {
        ResolveLeaves([], thin);
        OpenIsTrimmed(r);
      } else {
        SubThins(r, x, ".");
      }
  }

  lemma TrimNothing()
    ensures Open([]) == "" && TrimBack("", DOTS) == ""
    ensures AllStringSub("", Between("."), [BACKSLASH], 0) == ""
  {
    assert Find("", Between("."), 0) == -1;
  }

  /** No ".." is left. */
  lemma {:induction false} ResolveLeaves(stack: seq<string>, comps: seq<string>)
    requires ".." !in stack
    ensures Resolve(stack, comps).Some? ==> ".." !in Resolve(stack, comps).value
    decreases |comps|
  {
    if comps != [] {
      if comps[0] != ".." {
        ResolveLeaves(stack + [comps[0]], comps[1..]);
      } else if stack != [] {
        ResolveLeaves(stack[..|stack| - 1], comps[1..]);
      }
    }
  }

  /** What precedes the first separator of a relative path stays as it is, and the
      rest is cleaned by itself. */
  lemma CleanRelative(x: string, t: string)
    requires BACKSLASH !in x
    ensures CleanName(x + t) == x + CleanName(t)
  {
    var doubled, dotted := [BACKSLASH, BACKSLASH], [BACKSLASH, '.', BACKSLASH];
    assert Between("") == doubled && Between(".") == dotted;
    var single := AllStringSub(t, doubled, [BACKSLASH], 0);
    var reduced := ReduceDotDot(single);
    var trimmed := TrimBack(reduced, DOTS);
    hide AllStringSub, ReduceDotDot, TrimBack, Between;
    SubAfter(x, t, "");
    ReduceAfter(x, single);
    TrimAfter(x, reduced);
    SubAfter(x, trimmed, ".");
  }

  lemma SubAfter(x: string, t: string, c: string)
    requires BACKSLASH !in x
    ensures AllStringSub(x + t, Between(c), [BACKSLASH], 0) == x + AllStringSub(t, Between(c), [BACKSLASH], 0)
  {
    SubstituteAll(t, Between(c), [BACKSLASH], 1);
    SubstituteAll(x + t, Between(c), [BACKSLASH], 1);
    ReplaceAfter(x, t, c, [BACKSLASH]);
  }

  lemma FindLastAfter(x: string, t: string)
    requires BACKSLASH !in x
    ensures FindLast(x + t, BACKSLASH) == if FindLast(t, BACKSLASH) == -1 then -1 else |x| + FindLast(t, BACKSLASH)
  {
    hide FindLast;
    var all, r, s := x + t, FindLast(x + t, BACKSLASH), FindLast(t, BACKSLASH);
    assert forall q :: 0 <= q < |t| ==> all[|x| + q] == t[q];
    assert forall q :: 0 <= q < |x| ==> all[q] == x[q];
    if s != -1 {
      assert all[|x| + s] == BACKSLASH;
    }
    if r != -1 {
      assert r >= |x|;
      assert t[r - |x|] == BACKSLASH;
    }
  }

  lemma CutAfter(x: string, t: string, p: nat)
    requires BACKSLASH !in x && OccursAt(t, DOT_DOT, p) && OccursAt(x + t, DOT_DOT, |x| + p)
    ensures CutDotDot(x + t, |x| + p) == x + CutDotDot(t, p)
  {
    hide FindLast;
    assert (x + t)[..|x| + p] == x + t[..p];
    FindLastAfter(x, t[..p]);
    var r := FindLast(t[..p], BACKSLASH);
    if r != -1 {
      assert (x + t)[..|x| + r] == x + t[..r];
      assert (x + t)[|x| + p + 3..] == t[p + 3..];
    }
  }

  lemma {:induction false} ReduceAfter(x: string, t: string)
    requires BACKSLASH !in x
    ensures ReduceDotDot(x + t) == x + ReduceDotDot(t)
    decreases |t|
  {
    hide Find, OccursAt, CutDotDot;
    assert Between("..") == DOT_DOT;
    FindAfter(x, t, "..");
    var p := Find(t, DOT_DOT, 0);
    if p != -1 {
      FoundAt(t, DOT_DOT, 0);
      FoundAt(x + t, DOT_DOT, 0);
      CutAfter(x, t, p);
      CutShortens(t, p);
      ReduceAfter(x, CutDotDot(t, p));
    }
  }

  lemma CutShortens(t: string, p: nat)
    requires OccursAt(t, DOT_DOT, p)
    ensures |CutDotDot(t, p)| < |t|
  {
  }

  lemma {:induction false} TrimAfter(x: string, t: string)
    requires BACKSLASH !in x
    ensures TrimBack(x + t, DOTS) == x + TrimBack(t, DOTS)
    decreases |t|
  {
    var all := x + t;
    var n := |all|;
    if |t| >= 3 {
      assert all[n - 3..] == t[|t| - 3..];
      assert all[..n - 3] == x + t[..|t| - 3];
      if t[|t| - 3..] == DOTS {
        TrimAfter(x, t[..|t| - 3]);
      }
    } else if n >= 3 {
      assert all[n - 3..][0] == all[n - 3] == x[n - 3];
    }
  }

  /** The same for a path that ends in a separator. */
  lemma CleanNameIs(comps: seq<string>)
    requires Separated(comps)
    ensures CleanName(Render(comps)) == match Resolve([], Thin(comps, ""))
                                        case Some(r) => Render(Thin(r, "."))
                                        case None => ""
  {
    hide CleanName;
    CleanAbsolute(comps, "");
    assert Render(comps) + "" == Render(comps);
    match Resolve([], Thin(comps, ""))
    case None =>
    case Some(r) =>
      assert Render(Thin(r, ".")) + "" == Render(Thin(r, "."));
  }

  /** Every string that starts with a separator is such a path. */
  lemma EveryAbsolutePath(text: string) returns (front: seq<string>, x: string)
    requires text != "" && text[0] == BACKSLASH
    ensures Separated(front) && BACKSLASH !in x && text == Render(front) + x
  {
    hide FindLast, Render;
    var r := FindLast(text, BACKSLASH);
    x := text[r + 1..];
    front := EveryPathRenders(text[..r + 1]);
    forall i | 0 <= i < |x|
      ensures x[i] != BACKSLASH
    {
      assert x[i] == text[r + 1 + i];
    }
  }

  lemma {:induction false} EveryPathRenders(text: string) returns (comps: seq<string>)
    requires text != "" && text[0] == BACKSLASH == text[|text| - 1]
    ensures Separated(comps) && Render(comps) == text
    decreases |text|
  {
    if |text| == 1 {
      comps := [];
    } else {
      hide Render;
      var r, x := LastComponent(text);
      var front := EveryPathRenders(text[..r + 1]);
      comps := front + [x];
      RenderSnoc(front, x);
      assert text == text[..r + 1] + x + [BACKSLASH];
    }
  }

  lemma LastComponent(text: string) returns (r: nat, x: string)
    requires |text| > 1 && text[0] == BACKSLASH == text[|text| - 1]
    ensures r < |text| - 1 && text[r] == BACKSLASH
    ensures x == text[r + 1..|text| - 1] && BACKSLASH !in x
  {
    hide FindLast;
    var body := text[..|text| - 1];
    assert body[0] == BACKSLASH;
    r := FindLast(body, BACKSLASH);
    x := text[r + 1..|text| - 1];
    forall i | 0 <= i < |x|
      ensures x[i] != BACKSLASH
    {
      assert x[i] == body[r + 1 + i];
    }
  }

  lemma RenderSnoc(front: seq<string>, x: string)
    ensures Render(front + [x]) == Render(front) + x + [BACKSLASH]
  {
    hide Render, Open;
    RenderOpen(front, []);
    RenderOpen(front, [x]);
    RenderCons(x, []);
    assert front + [] == front && [x] + [] == [x];
    assert Open(front) + ([BACKSLASH] + x + [BACKSLASH]) == Open(front) + [BACKSLASH] + x + [BACKSLASH];
  }

  // ---- in place ----

  /** The array holds the C string `text`. */
  ghost predicate Holds(s: array<char>, text: string)
    reads s
  {
    NUL !in text && |text| < s.Length && s[..|text|] == text && s[|text|] == NUL
  }

  method Length(s: array<char>, ghost text: string) returns (n: nat)
    requires Holds(s, text)
    ensures n == |text|
  {
    n := Strlen(s, 0, |text|);
    assert n == |text|;
  }

  /** strstr on the rest of the string from position `from` on. */
  method Strstr(s: array<char>, ghost text: string, from: nat, pattern: string) returns (r: int)
    requires Holds(s, text) && from <= |text| && pattern != ""
    ensures r == Find(text, pattern, from)
  {
    var n := Length(s, text);
    var i := from;
    while i + |pattern| <= n
      invariant from <= i <= n
      invariant Find(text, pattern, from) == Find(text, pattern, i)
    {
      assert s[i..i + |pattern|] == s[..n][i..i + |pattern|];
      if s[i..i + |pattern|] == pattern {
        return i;
      }
      i := i + 1;
    }
    return -1;
  }

  /** strrchr */
  method Strrchr(s: array<char>, ghost text: string, c: char) returns (r: int)
    requires Holds(s, text)
    ensures r == FindLast(text, c)
  {
    var n: int := Length(s, text);
    r := n - 1;
    assert text[..n] == text;
    while r >= 0 && s[r] != c
      invariant -1 <= r < n
      invariant FindLast(text, c) == FindLast(text[..r + 1], c)
    {
      assert text[..r + 1][..r] == text[..r];
      assert s[r] == s[..n][r] == text[r];
      r := r - 1;
    }
    if r >= 0 {
      assert s[r] == s[..n][r] == text[r];
    }
  }

  /** memmove */
  method MoveChars(s: array<char>, dst: nat, src: nat, n: nat)
    requires dst + n <= s.Length && src + n <= s.Length
    modifies s
    ensures s[..] == old(s[..dst]) + old(s[src..src + n]) + old(s[dst + n..])
  {
    forall i | 0 <= i < n {
      s[dst + i] := s[src + i];
    }
  }

  /** memcpy of a string constant */
  method CopyChars(s: array<char>, dst: nat, chars: string)
    requires dst + |chars| <= s.Length
    modifies s
    ensures s[..] == old(s[..])[..dst] + chars + old(s[..])[dst + |chars|..]
  {
    forall i | 0 <= i < |chars| {
      s[dst + i] := chars[i];
    }
  }

  /** memmove of `n` characters from `src` to behind the insert, and memcpy of the
      insert to `p`. */
  method ReplaceChars(s: array<char>, p: nat, src: nat, n: nat, insert: string)
    requires p <= src && src + n <= s.Length && p + |insert| + n <= s.Length
    modifies s
    ensures s[..] == old(s[..p]) + insert + old(s[src..src + n]) + old(s[p + |insert| + n..])
  {
    ghost var a, mid, rest := s[..p + |insert|], s[src..src + n], s[p + |insert| + n..];
    assert a[..p] == s[..p];
    MoveChars(s, p + |insert|, src, n);
    Spliced(a, p, mid, rest);
    CopyChars(s, p, insert);
    assert a[..p] + insert + (mid + rest) == a[..p] + insert + mid + rest;
  }

  lemma Spliced(a: string, p: nat, mid: string, rest: string)
    requires p <= |a|
    ensures (a + mid + rest)[..p] == a[..p]
    ensures (a + mid + rest)[|a|..] == mid + rest
  {
  }

  /** What an array holds that starts with a string and its terminator. */
  lemma HoldsStart(s: array<char>, text: string, rest: string)
    requires NUL !in text && s[..] == text + [NUL] + rest
    ensures Holds(s, text)
  {
    assert s[..|text|] == s[..][..|text|];
    assert s[|text|] == s[..][|text|];
  }

  /** The loop of dos_clean_name over "\\..\\". */
  method ReduceInPlace(s: array<char>, ghost text: string)
    requires Holds(s, text)
    modifies s
    ensures Holds(s, ReduceDotDot(text))
  {
    ghost var t := text;
    var p := Strstr(s, t, 0, DOT_DOT);
    while p != -1
      invariant Holds(s, t) && p == Find(t, DOT_DOT, 0)
      invariant ReduceDotDot(t) == ReduceDotDot(text)
      decreases |t|
    {
      CutInPlace(s, t, p);
      t := CutDotDot(t, p);
      p := Strstr(s, t, 0, DOT_DOT);
    }
  }

  /** One round: end the string at `p`, find the separator before it and move
      what follows the dots down to there. */
  method CutInPlace(s: array<char>, ghost text: string, p: nat)
    requires Holds(s, text) && OccursAt(text, DOT_DOT, p)
    modifies s
    ensures Holds(s, CutDotDot(text, p))
  {
    hide FindLast;
    ghost var head, tail := text[..p], text[p + 3..];
    TerminateAt(s, text, p);
    var r := Strrchr(s, head, BACKSLASH);
    if r != -1 {
      HeldTail(s, head, r);
      assert head[..r] == text[..r];
      hide Holds, OccursAt;
      MoveTail(s, r, p + 3, text[..r], tail);
    }
  }

  /** Put a terminator at `p`; what follows stays. */
  method TerminateAt(s: array<char>, ghost text: string, p: nat)
    requires Holds(s, text) && p < |text|
    modifies s
    ensures Holds(s, text[..p]) && |text| < s.Length && s[|text|] == NUL && NUL !in text
    ensures forall i :: p < i <= |text| ==> s[i..|text|] == text[i..]
  {
    HeldTail(s, text, p);
    s[p] := NUL;
    assert s[..p] == text[..p];
    forall i | p < i <= |text|
      ensures s[i..|text|] == text[i..]
    {
      assert forall k :: i <= k < |text| ==> s[k] == old(s[..|text|])[k];
    }
  }

  /** memmove of the string that starts at `src`, terminator included, to `dst`. */
  method MoveTail(s: array<char>, dst: nat, src: nat, ghost head: string, ghost tail: string)
    requires src + |tail| < s.Length && dst + |tail| < s.Length
    requires NUL !in head && NUL !in tail && |head| == dst && s[..dst] == head
    requires s[src..src + |tail|] == tail && s[src + |tail|] == NUL
    modifies s
    ensures Holds(s, head + tail)
  {
    var n := LengthAt(s, src, tail);
    hide Holds;
    ghost var rest := s[dst + n + 1..];
    MoveChars(s, dst, src, n + 1);
    Joined(s, head, "", tail, rest);
    assert head + "" == head;
  }

  /** strlen of the string `tail` that starts at `at`. */
  method LengthAt(s: array<char>, at: nat, ghost tail: string) returns (n: nat)
    requires at + |tail| < s.Length && NUL !in tail
    requires s[at..at + |tail|] == tail && s[at + |tail|] == NUL
    ensures n == |tail| && s[at..at + n + 1] == tail + [NUL]
  {
    n := Strlen(s, at, at + |tail|);
    assert forall i :: at <= i < at + |tail| ==> s[i] in s[at..at + |tail|];
  }

  lemma HeldTail(s: array<char>, text: string, from: nat)
    requires Holds(s, text) && from <= |text|
    ensures s[from..|text|] == text[from..] && NUL !in text[from..]
    ensures s[..from] == text[..from] && NUL !in text[..from]
  {
    assert s[from..|text|] == s[..|text|][from..];
    assert s[..from] == s[..|text|][..from];
  }

  /** trim_string, at the back. */
  method TrimInPlace(s: array<char>, ghost text: string, back: string)
    requires Holds(s, text) && back != ""
    modifies s
    ensures Holds(s, TrimBack(text, back))
  {
    ghost var t := text;
    var n: nat := Length(s, t);
    while n >= |back| && s[n - |back|..n] == back
      invariant Holds(s, t) && n == |t| && TrimBack(t, back) == TrimBack(text, back)
    {
      HeldTail(s, t, n - |back|);
      s[n - |back|] := NUL;
      t := t[..n - |back|];
      n := n - |back|;
      assert s[..n] == t;
    }
    if n >= |back| {
      HeldTail(s, t, n - |back|);
    }
  }

  /** all_string_sub. The caller's limit counts bytes of the array. */
  method SubstituteInPlace(s: array<char>, ghost text: string, pattern: string, insert: string, limit: nat)
    requires Holds(s, text) && NUL !in insert && limit <= s.Length
    modifies s
    ensures Holds(s, AllStringSub(text, pattern, insert, limit))
  {
    if pattern == "" {
      return;
    }
    HoldsEnd(s, text);
    hide Holds, Find, OccursAt, Substitute, Substituting;
    var ls := Length(s, text);
    var len := if limit == 0 then ls + 1 else limit;
    ghost var t := text;
    ghost var goal := Substitute(text, pattern, insert, len - |text|);
    var pos: nat := 0;
    SubstitutingStart(text, pattern, insert, len);
    var p := Strstr(s, t, 0, pattern);
    while p != -1
      invariant Holds(s, t) && ls == |t| && pos <= |t| && p == Find(t, pattern, pos)
      invariant Substituting(t, pos, pattern, insert, len, goal)
      decreases |t| - pos
    {
      SubstitutingStep(t, pos, p, pattern, insert, len, goal);
      if ls + (|insert| - |pattern|) >= len {
        return;
      }
      SubstituteOne(s, t, p, pattern, insert);
      t := t[..p] + insert + t[p + |pattern|..];
      ls := ls + |insert| - |pattern|;
      pos := p + |insert|;
      p := Strstr(s, t, pos, pattern);
    }
    SubstitutingEnd(t, pos, pattern, insert, len, goal);
  }

  lemma FoundAt(text: string, pattern: string, from: nat)
    requires from <= |text| && Find(text, pattern, from) != -1
    ensures var p := Find(text, pattern, from);
            from <= p && p + |pattern| <= |text| && OccursAt(text, pattern, p)
  {
  }

  /** memmove and memcpy of one substitution. */
  method SubstituteOne(s: array<char>, ghost text: string, p: nat, pattern: string, insert: string)
    requires Holds(s, text) && OccursAt(text, pattern, p) && NUL !in insert
    requires |text| + |insert| - |pattern| < s.Length
    modifies s
    ensures Holds(s, text[..p] + insert + text[p + |pattern|..])
  {
    ghost var head, tail := text[..p], text[p + |pattern|..];
    HeldParts(s, text, p, p + |pattern|);
    HoldsEnd(s, text);
    var q := p + |pattern|;
    ReplaceText(s, p, q, head, tail, insert);
  }

  /** The same on an array that holds `head` and, at `q`, `tail`. */
  method ReplaceText(s: array<char>, p: nat, q: nat, ghost head: string, ghost tail: string, insert: string)
    requires p <= q && q + |tail| < s.Length && p + |insert| + |tail| < s.Length
    requires NUL !in head && NUL !in tail && NUL !in insert && |head| == p && s[..p] == head
    requires s[q..q + |tail| + 1] == tail + [NUL]
    modifies s
    ensures Holds(s, head + insert + tail)
  {
    assert s[q + |tail|] == s[q..q + |tail| + 1][|tail|];
    assert s[q..q + |tail|] == s[q..q + |tail| + 1][..|tail|];
    var n := LengthAt(s, q, tail);
    hide Holds;
    ghost var rest := s[p + |insert| + n + 1..];
    ReplaceChars(s, p, q, n + 1, insert);
    Joined(s, head, insert, tail, rest);
  }

  lemma Joined(s: array<char>, head: string, insert: string, tail: string, rest: string)
    requires NUL !in head && NUL !in insert && NUL !in tail
    requires s[..] == head + insert + (tail + [NUL]) + rest
    ensures Holds(s, head + insert + tail)
  {
    assert head + insert + (tail + [NUL]) + rest == (head + insert + tail) + [NUL] + rest;
    HoldsStart(s, head + insert + tail, rest);
  }

  lemma HeldParts(s: array<char>, text: string, p: nat, q: nat)
    requires Holds(s, text) && p <= q <= |text|
    ensures |text| < s.Length && s[..p] == text[..p] && s[q..|text| + 1] == text[q..] + [NUL]
    ensures NUL !in text[..p] && NUL !in text[q..]
  {
    HeldTail(s, text, p);
    HeldTail(s, text, q);
  }

  lemma HoldsEnd(s: array<char>, text: string)
    requires Holds(s, text)
    ensures |text| < s.Length && s[|text|] == NUL
  {
  }

  lemma {:induction false} FindShift(text: string, pattern: string, pos: nat, from: nat)
    requires pos <= from <= |text| && pattern != ""
    ensures Find(text[pos..], pattern, from - pos)
            == if Find(text, pattern, from) == -1 then -1 else Find(text, pattern, from) - pos
    decreases |text| - from
  {
    if from + |pattern| <= |text| {
      assert text[pos..][from - pos..from - pos + |pattern|] == text[from..from + |pattern|];
    }
    if !OccursAt(text, pattern, from) && from < |text| {
      FindShift(text, pattern, pos, from + 1);
    }
  }

  lemma SubstituteStep(t: string, pos: nat, p: nat, pattern: string, insert: string, spare: int)
    requires pos <= |t| && pattern != "" && p == Find(t, pattern, pos)
    ensures var t' := t[..p] + insert + t[p + |pattern|..];
            var pos' := p + |insert|;
            var growth := |insert| - |pattern|;
            t[..pos] + Substitute(t[pos..], pattern, insert, spare)
            == if growth >= spare then t[..pos] + t[pos..]
               else t'[..pos'] + Substitute(t'[pos'..], pattern, insert, spare - growth)
  {
    hide Substitute, Find;
    FindShift(t, pattern, pos, pos);
    SubstituteUnfolds(t[pos..], pattern, insert, spare);
    assert t[pos..][p - pos + |pattern|..] == t[p + |pattern|..];
    Regroup(t, pos, p, p + |pattern|, insert,
            Substitute(t[p + |pattern|..], pattern, insert, spare - (|insert| - |pattern|)));
  }

  /** The string is `t`, and what is behind `pos` has yet to be substituted. */
  ghost predicate Substituting(t: string, pos: nat, pattern: string, insert: string, len: int, goal: string)
    requires pattern != ""
  {
    pos <= |t| && t[..pos] + Substitute(t[pos..], pattern, insert, len - |t|) == goal
  }

  lemma SubstitutingStart(t: string, pattern: string, insert: string, len: int)
    requires pattern != ""
    ensures Substituting(t, 0, pattern, insert, len, Substitute(t, pattern, insert, len - |t|))
  {
    assert t[0..] == t && t[..0] == "";
  }

  lemma SubstitutingStep(t: string, pos: nat, p: nat, pattern: string, insert: string, len: int, goal: string)
    requires pattern != "" && Substituting(t, pos, pattern, insert, len, goal) && p == Find(t, pattern, pos)
    ensures pos <= p && p + |pattern| <= |t| && OccursAt(t, pattern, p)
    ensures |t| + |insert| - |pattern| >= len ==> goal == t
    ensures |t| + |insert| - |pattern| < len ==>
              Substituting(t[..p] + insert + t[p + |pattern|..], p + |insert|, pattern, insert, len, goal)
  {
    hide Substitute, Find, OccursAt;
    FoundAt(t, pattern, pos);
    SubstituteStep(t, pos, p, pattern, insert, len - |t|);
    assert t[..pos] + t[pos..] == t;
  }

  lemma SubstitutingEnd(t: string, pos: nat, pattern: string, insert: string, len: int, goal: string)
    requires pattern != "" && Substituting(t, pos, pattern, insert, len, goal) && Find(t, pattern, pos) == -1
    ensures goal == t
  {
    hide Find, OccursAt, Substitute;
    SubstituteDone(t, pos, pattern, insert, len - |t|);
  }

  lemma Regroup(t: string, pos: nat, p: nat, after: nat, insert: string, last: string)
    requires pos <= p <= after <= |t|
    ensures var t' := t[..p] + insert + t[after..];
            var pos' := p + |insert|;
            && t'[pos'..] == t[after..]
            && t'[..pos'] + last == t[..pos] + (t[pos..][..p - pos] + insert + last)
  {
    assert t[..p] == t[..pos] + t[pos..][..p - pos];
    assert (t[..p] + insert + t[after..])[..p + |insert|] == t[..p] + insert;
  }

  lemma SubstituteUnfolds(text: string, pattern: string, insert: string, spare: int)
    requires pattern != ""
    ensures var p := Find(text, pattern, 0);
            var growth := |insert| - |pattern|;
            Substitute(text, pattern, insert, spare)
            == if p == -1 || growth >= spare then text
               else text[..p] + insert + Substitute(text[p + |pattern|..], pattern, insert, spare - growth)
  {
  }

  lemma SubstituteDone(t: string, pos: nat, pattern: string, insert: string, spare: int)
    requires pos <= |t| && pattern != "" && Find(t, pattern, pos) == -1
    ensures t[..pos] + Substitute(t[pos..], pattern, insert, spare) == t
  {
    hide Find, OccursAt, Substitute;
    FindShift(t, pattern, pos, pos);
    SubstituteUnfolds(t[pos..], pattern, insert, spare);
  }

  /** dos_clean_name */
  method DosCleanName(s: array<char>, ghost text: string)
    requires Holds(s, text)
    modifies s
    ensures Holds(s, CleanName(text))
  {
    hide Holds, AllStringSub, ReduceDotDot, TrimBack;
    SubstituteInPlace(s, text, [BACKSLASH, BACKSLASH], [BACKSLASH], 0);
    ghost var single := AllStringSub(text, [BACKSLASH, BACKSLASH], [BACKSLASH], 0);
    ReduceInPlace(s, single);
    ghost var reduced := ReduceDotDot(single);
    TrimInPlace(s, reduced, [BACKSLASH, '.', '.']);
    SubstituteInPlace(s, TrimBack(reduced, [BACKSLASH, '.', '.']), [BACKSLASH, '.', BACKSLASH], [BACKSLASH], 0);
  }
}
