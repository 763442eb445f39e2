/** What a cleaned DOS path should be, and exactly when dos_clean_name gives it
    (client/client.c). */
module PathMeaning {
  import opened CStrings
  import opened Options
  import opened DosPath

  /** The components that are not `c`. */
  function Without(comps: seq<string>, c: string): seq<string> {
    if comps == [] then []
    else if comps[0] == c then Without(comps[1..], c)
    else [comps[0]] + Without(comps[1..], c)
  }

  function Count(comps: seq<string>, c: string): nat {
    if comps == [] then 0 else (if comps[0] == c then 1 else 0) + Count(comps[1..], c)
  }

  /** The components that mean something: neither empty nor ".". */
  function Proper(comps: seq<string>): seq<string> {
    Without(Without(comps, ""), ".")
  }

  /** The path that is meant: its proper components with every ".." resolved. */
  function Meant(comps: seq<string>): string {
    match Resolve([], Proper(comps))
    case Some(r) => Render(r)
    case None => ""
  }

  /** Two components `c` side by side; two empty ones are three separators in a row. */
  predicate Adjacent(comps: seq<string>, c: string) {
    exists i :: 0 <= i < |comps| - 1 && comps[i] == c == comps[i + 1]
  }

  /** When cleaning gives what is meant: the path climbs above the root even with
      its superfluous components taken for levels; or there are no three
      separators in a row, no "." has been taken for the level that a ".." leaves,
      and of those that stay no two are side by side. */
  predicate CleansWell(comps: seq<string>) {
    match Resolve([], Thin(comps, ""))
    case None => true
    case Some(r) => !Adjacent(comps, "") && Count(r, ".") == Count(comps, ".") && !Adjacent(r, ".")
  }

  // ---- counting ----

  lemma {:induction false} WithoutCount(comps: seq<string>, c: string)
    ensures |Without(comps, c)| + Count(comps, c) == |comps|
    ensures c !in comps <==> Count(comps, c) == 0
    ensures c !in comps ==> Without(comps, c) == comps
  {
    if comps != [] {
      WithoutCount(comps[1..], c);
      assert c in comps <==> comps[0] == c || c in comps[1..];
    }
  }

  lemma {:induction false} WithoutKeeps(comps: seq<string>, c: string, d: string)
    requires c != d
    ensures Count(Without(comps, c), d) == Count(comps, d)
  {
    if comps != [] {
      WithoutKeeps(comps[1..], c, d);
      if comps[0] != c {
        assert Without(comps, c)[1..] == Without(comps[1..], c);
      }
    }
  }

  lemma {:induction false} CountSnoc(comps: seq<string>, x: string, c: string)
    ensures Count(comps + [x], c) == Count(comps, c) + if x == c then 1 else 0
    ensures Without(comps + [x], c) == if x == c then Without(comps, c) else Without(comps, c) + [x]
  {
    if comps == [] {
      assert comps + [x] == [x] && [x][1..] == [];
    } else {
      assert (comps + [x])[1..] == comps[1..] + [x];
      CountSnoc(comps[1..], x, c);
    }
  }

  lemma {:induction false} ThinWithout(comps: seq<string>, c: string)
    ensures Without(Thin(comps, c), c) == Without(comps, c)
    decreases |comps|
  {
    if comps != [] {
      if comps[0] != c {
        ThinWithout(comps[1..], c);
      } else if |comps| > 1 {
        ThinWithout(comps[2..], c);
        assert comps[1..][1..] == comps[2..];
      }
    }
  }

  /** Every other component survives the thinning. */
  lemma ThinKeeps(comps: seq<string>, c: string, d: string)
    requires c != d
    ensures Count(Thin(comps, c), d) == Count(comps, d)
  {
    ThinWithout(comps, c);
    WithoutKeeps(comps, c, d);
    WithoutKeeps(Thin(comps, c), c, d);
  }

  /** Thinning removes a component altogether exactly if no two are side by side. */
  lemma {:induction false} ThinLeaves(comps: seq<string>, c: string)
    ensures c in Thin(comps, c) <==> Adjacent(comps, c)
    decreases |comps|
  {
    if comps != [] {
      var rest := comps[1..];
      ThinLeaves(rest, c);
      AdjacentCons(comps, c);
      if comps[0] == c && |comps| > 1 && comps[1] != c {
        assert Thin(rest, c) == [rest[0]] + Thin(rest[1..], c);
        assert rest[1..] == comps[2..];
      }
    }
  }

  lemma AdjacentCons(comps: seq<string>, c: string)
    requires comps != []
    ensures Adjacent(comps, c) <==> (|comps| > 1 && comps[0] == c == comps[1]) || Adjacent(comps[1..], c)
  {
    var rest := comps[1..];
    if Adjacent(rest, c) {
      var i :| 0 <= i < |rest| - 1 && rest[i] == c == rest[i + 1];
      assert comps[i + 1] == c == comps[i + 2];
    }
    if Adjacent(comps, c) {
      var i :| 0 <= i < |comps| - 1 && comps[i] == c == comps[i + 1];
      assert i > 0 ==> rest[i - 1] == c == rest[i];
    }
  }

  /** How much thinning can remove, and when it removes that much. */
  lemma ThinShortens(comps: seq<string>, c: string)
    ensures |comps| <= |Thin(comps, c)| + Count(comps, c)
    ensures |comps| == |Thin(comps, c)| + Count(comps, c) <==> !Adjacent(comps, c)
    ensures !Adjacent(comps, c) ==> Thin(comps, c) == Without(comps, c)
  {
    ThinWithout(comps, c);
    WithoutCount(comps, c);
    WithoutCount(Thin(comps, c), c);
    ThinLeaves(comps, c);
  }

  lemma ProperCount(comps: seq<string>)
    ensures |Proper(comps)| + Count(comps, "") + Count(comps, ".") == |comps|
  {
    WithoutCount(comps, "");
    WithoutCount(Without(comps, ""), ".");
    WithoutKeeps(comps, "", ".");
  }

  lemma ProperCons(comps: seq<string>)
    requires comps != []
    ensures Proper(comps) == if comps[0] == "" || comps[0] == "." then Proper(comps[1..])
                             else [comps[0]] + Proper(comps[1..])
  {
    if comps[0] != "" {
      assert Without(comps, "")[1..] == Without(comps[1..], "");
    }
  }

  // ---- superfluous components as levels ----

  /** A superfluous component that is still there counts as a level: it takes a
      ".." to get rid of it, so that the path ends up deeper than it should. */
  lemma {:induction false} JunkIsALevel(s: seq<string>, t: seq<string>, comps: seq<string>)
    requires |t| <= |s|
    ensures Resolve(s, comps).None? ==> Resolve(t, Proper(comps)).None?
    ensures Resolve(s, comps).Some? && Resolve(t, Proper(comps)).Some? ==>
              |Resolve(s, comps).value| - |s| + |Proper(comps)|
              == |Resolve(t, Proper(comps)).value| - |t| + |comps|
    decreases |comps|
  {
    if comps != [] {
      var rest := comps[1..];
      ProperCons(comps);
      hide Proper;
      if comps[0] == "" || comps[0] == "." {
        JunkIsALevel(s + [comps[0]], t, rest);
      } else {
        assert Proper(comps)[0] == comps[0] && Proper(comps)[1..] == Proper(rest);
        if comps[0] != ".." {
          JunkIsALevel(s + [comps[0]], t + [comps[0]], rest);
        } else if t != [] {
          JunkIsALevel(s[..|s| - 1], t[..|t| - 1], rest);
        }
      }
    }
  }

  /** Resolution adds no component. */
  lemma {:induction false} ResolveCount(stack: seq<string>, comps: seq<string>, c: string)
    ensures Resolve(stack, comps).Some? ==> Count(Resolve(stack, comps).value, c) <= Count(stack, c) + Count(comps, c)
    decreases |comps|
  {
    if comps != [] {
      if comps[0] != ".." {
        CountSnoc(stack, comps[0], c);
        ResolveCount(stack + [comps[0]], comps[1..], c);
      } else if stack != [] {
        var n := |stack| - 1;
        assert stack == stack[..n] + [stack[n]];
        CountSnoc(stack[..n], stack[n], c);
        ResolveCount(stack[..n], comps[1..], c);
      }
    }
  }

  /** If no "." is ever taken for the level that a ".." leaves, the dots do not
      matter to the resolution. */
  lemma {:induction false} DotsStay(stack: seq<string>, comps: seq<string>)
    requires Resolve(stack, comps).Some?
    requires Count(Resolve(stack, comps).value, ".") == Count(stack, ".") + Count(comps, ".")
    ensures Resolve(Without(stack, "."), Without(comps, ".")) == Some(Without(Resolve(stack, comps).value, "."))
    decreases |comps|
  {
    if comps != [] {
      var x, rest := comps[0], comps[1..];
      if x != "." {
        assert Without(comps, ".")[1..] == Without(rest, ".");
      }
      if x != ".." {
        CountSnoc(stack, x, ".");
        DotsStay(stack + [x], rest);
      } else {
        var n := |stack| - 1;
        assert stack == stack[..n] + [stack[n]];
        CountSnoc(stack[..n], stack[n], ".");
        ResolveCount(stack[..n], rest, ".");
        DotsStay(stack[..n], rest);
        assert Without(stack, ".")[..|Without(stack, ".")| - 1] == Without(stack[..n], ".");
      }
    }
  }

  // ---- when cleaning gives what is meant ----

  lemma {:induction false} WithoutSeparated(comps: seq<string>, c: string)
    requires Separated(comps)
    ensures Separated(Without(comps, c))
  {
    if comps != [] {
      WithoutSeparated(comps[1..], c);
    }
  }

  lemma {:induction false} RenderInjective(a: seq<string>, b: seq<string>)
    requires Separated(a) && Separated(b) && Render(a) == Render(b)
    ensures a == b
  {
    if a != [] && b != [] {
      SameFirst(a[0], b[0], Render(a[1..]), Render(b[1..]), a[1..], b[1..]);
      RenderInjective(a[1..], b[1..]);
      assert a == [a[0]] + a[1..] && b == [b[0]] + b[1..];
    } else if a != [] {
      RenderStarts(a[1..]);
    } else if b != [] {
      RenderStarts(b[1..]);
    }
  }

  lemma SameFirst(x: string, y: string, s: string, t: string, a: seq<string>, b: seq<string>)
    requires BACKSLASH !in x && BACKSLASH !in y && s == Render(a) && t == Render(b)
    requires [BACKSLASH] + x + s == [BACKSLASH] + y + t
    ensures x == y && s == t
  {
    RenderStarts(a);
    RenderStarts(b);
    hide Render;
    var whole := [BACKSLASH] + x + s;
    assert whole[1..] == x + [BACKSLASH] + s[1..];
    assert whole[1..] == y + [BACKSLASH] + t[1..];
    SameComponent(x, y, s[1..], t[1..]);
    assert s == whole[1 + |x|..] && t == whole[1 + |y|..];
  }

  /** The components that cleaning leaves are those that are meant exactly if
      nothing superfluous was taken for a level and all of it goes in the end. */
  lemma ThinnedIsMeant(comps: seq<string>)
    requires Resolve([], Thin(comps, "")).Some?
    ensures Resolve([], Proper(comps)) == Some(Thin(Resolve([], Thin(comps, "")).value, ".")) <==> CleansWell(comps)
  {
    var a := Thin(comps, "");
    var r := Resolve([], a).value;
    ThinWithout(comps, "");
    ThinKeeps(comps, "", ".");
    ThinLeaves(comps, "");
    JunkIsALevel([], [], a);
    ProperCount(a);
    WithoutCount(a, "");
    ThinShortens(r, ".");
    ResolveCount([], a, ".");
    hide Thin, Resolve, Without, Count, Adjacent;
    assert Proper(a) == Proper(comps);
    assert Count([], ".") == 0 by { WithoutCount([], "."); }
    if CleansWell(comps) {
      DotsStay([], a);
      assert Without([], ".") == [] by { WithoutCount([], "."); }
    }
  }

  /** For every absolute path that ends in a separator: the cleaned name is the one
      that is meant exactly if it cleans well. */
  lemma CleanNameMeets(comps: seq<string>)
    requires Separated(comps)
    ensures CleanName(Render(comps)) == Meant(comps) <==> CleansWell(comps)
  {
    var thin := Thin(comps, "");
    CleanNameIs(comps);
    ThinWithout(comps, "");
    JunkIsALevel([], [], thin);
    assert Proper(thin) == Proper(comps);
    if Resolve([], thin).Some? {
      var r := Resolve([], thin).value;
      ThinnedIsMeant(comps);
      SeparatedResults(comps);
      hide Render, CleanName, Thin, Resolve, Proper, CleansWell;
      RenderStarts(Thin(r, "."));
      var meant := Resolve([], Proper(comps));
      if meant.Some? && Render(meant.value) == Render(Thin(r, ".")) {
        RenderInjective(meant.value, Thin(r, "."));
      }
    }
  }

  lemma SeparatedResults(comps: seq<string>)
    requires Separated(comps)
    ensures var r := Resolve([], Thin(comps, ""));
            r.Some? ==> Separated(Thin(r.value, "."))
    ensures Resolve([], Proper(comps)).Some? ==> Separated(Resolve([], Proper(comps)).value)
  {
    var r := Resolve([], Thin(comps, ""));
    hide Separated, Thin, Without;
    ThinSeparated(comps, "");
    ReduceResolves(Thin(comps, ""), "");
    WithoutSeparated(comps, "");
    WithoutSeparated(Without(comps, ""), ".");
    ReduceResolves(Proper(comps), "");
    if r.Some? {
      ThinSeparated(r.value, ".");
    }
  }

  /** The same for a path with a name behind its last separator. */
  lemma CleanFileMeets(comps: seq<string>, x: string)
    requires Separated(comps) && BACKSLASH !in x && x != "." && x != ".."
    ensures var meant := match Resolve([], Proper(comps))
                         case Some(r) => Render(r) + x
                         case None => "";
            CleanName(Render(comps) + x) == meant <==> CleansWell(comps)
  {
    CleanNameMeets(comps);
    CleanNameIs(comps);
    CleanAbsolute(comps, x);
    hide Render, CleanName, Thin, Proper, CleansWell;
    var actual, meant := Resolve([], Thin(comps, "")), Resolve([], Proper(comps));
    if actual.Some? {
      RenderStarts(Thin(actual.value, "."));
      if meant.Some? {
        SameFront(Render(Thin(actual.value, ".")), Render(meant.value), x);
      }
    }
    if meant.Some? {
      RenderStarts(meant.value);
    }
  }

  lemma SameFront(s: string, t: string, x: string)
    ensures s + x == t + x <==> s == t
  {
    if s + x == t + x {
      assert s == (s + x)[..|s|] && t == (t + x)[..|t|];
    }
  }

  lemma {:induction false} ResolveConcat(stack: seq<string>, a: seq<string>, b: seq<string>)
    ensures Resolve(stack, a + b) == match Resolve(stack, a)
                                     case Some(r) => Resolve(r, b)
                                     case None => None
    decreases |a|
  {
    if a == [] {
      assert a + b == b;
    } else {
      assert (a + b)[1..] == a[1..] + b;
      if a[0] != ".." {
        ResolveConcat(stack + [a[0]], a[1..], b);
      } else if stack != [] {
        ResolveConcat(stack[..|stack| - 1], a[1..], b);
      }
    }
  }

  /** Without superfluous components there is nothing to thin. */
  lemma NothingToThin(comps: seq<string>)
    requires "" !in comps && "." !in comps
    ensures Thin(comps, "") == comps
    ensures Resolve([], comps).Some? ==> "." !in Resolve([], comps).value
  {
    ThinNone(comps, "");
    ResolveCount([], comps, ".");
    WithoutCount(comps, ".");
    if Resolve([], comps).Some? {
      WithoutCount(Resolve([], comps).value, ".");
    }
  }

  /** A ".." at the very end is cut off and not resolved: the result is the path
      that was to be left. That is right only if there was nothing to leave. */
  lemma FinalDotDot(comps: seq<string>)
    requires Separated(comps) && "" !in comps && "." !in comps
    ensures var meant := match Resolve([], comps + [".."])
                         case Some(r) => Open(r)
                         case None => "";
            CleanName(Render(comps) + "..") == meant <==>
            Resolve([], comps) == None || Resolve([], comps) == Some([])
  {
    hide CleanName, Open, Render, Thin;
    CleanAbsolute(comps, "..");
    NothingToThin(comps);
    ResolveConcat([], comps, [".."]);
    var r := Resolve([], comps);
    if r.Some? && r.value != [] {
      LastStays(r.value);
      assert [".."][1..] == [];
      assert Resolve(r.value, [".."]) == Some(r.value[..|r.value| - 1]);
    }
  }

  lemma LastStays(r: seq<string>)
    requires r != [] && "." !in r
    ensures Closed(r) == Open(r) && |Open(r)| > |Open(r[..|r| - 1])|
  {
    hide Render, Open, Thin;
    var front, y := r[..|r| - 1], r[|r| - 1];
    assert r == front + [y];
    ThinNone(front, ".");
    OpenLast(front, y);
  }

  /** For an absolute path that ends in a separator and has no empty and no "."
      component, cleaning is stack-based resolution of ".."; the result is empty
      exactly if the path climbs above the root. */
  lemma CleanNameResolves(comps: seq<string>)
    requires Separated(comps) && "" !in comps && "." !in comps
    ensures CleanName(Render(comps)) == match Resolve([], comps)
                                        case Some(r) => Render(r)
                                        case None => ""
    ensures CleanName(Render(comps)) == "" <==> Resolve([], comps).None?
  {
    CleanNameIs(comps);
    NothingToThin(comps);
    if Resolve([], comps).Some? {
      var r := Resolve([], comps).value;
      ThinNone(r, ".");
      RenderStarts(r);
    }
  }

  // ---- paths that do not clean well ----

  /** Three separators become two. */
  lemma TripleBecomesDouble()
    ensures CleanName([BACKSLASH, BACKSLASH, BACKSLASH]) == [BACKSLASH, BACKSLASH] != Meant(["", ""])
  {
    TripleIsTriple();
    var triple: seq<string> := ["", ""];
    assert Adjacent(triple, "") by { assert triple[0] == "" == triple[1]; }
    assert Thin(triple, "") == [""];
    hide CleanName, Meant, Render, Resolve, Thin, Count, Adjacent, Without;
    ResolvePlain([], [""]);
    ThinNone([""], ".");
    assert [] + [""] == [""];
    CleanNameMeets(triple);
    CleanNameIs(triple);
  }

  lemma TripleIsTriple()
    ensures Render(["", ""]) == [BACKSLASH, BACKSLASH, BACKSLASH] && Render([""]) == [BACKSLASH, BACKSLASH]
  {
  }

  /** An ordinary component. */
  predicate IsName(a: string) {
    a != "" && a != "." && a != ".." && BACKSLASH !in a
  }

  /** A "." in front of a ".." is taken for the level that it leaves. */
  lemma DotIsALevel(a: string)
    requires IsName(a)
    ensures CleanName(Render([a, ".", ".."])) == Render([a]) != Meant([a, ".", ".."])
  {
    var path := [a, ".", ".."];
    hide CleanName, Meant, Render, Resolve, Thin, Count, Adjacent, Without;
    ThinNone(path, "");
    assert path == [a] + ["."] + [".."] + [] && [a] + [] == [a] && [] + [a] == [a];
    ResolveStep([], [a], ".", []);
    ResolvePlain([], [a]);
    ThinNone([a], ".");
    WithoutCount([a], ".");
    WithoutCount(path, ".");
    assert path[1] == ".";
    CleanNameIs(path);
    CleanNameMeets(path);
  }

  /** Of two "." side by side one stays. */
  lemma DotStays(a: string, b: string)
    requires IsName(a) && IsName(b)
    ensures CleanName(Render([a, ".", ".", b])) == Render([a, ".", b]) != Meant([a, ".", ".", b])
  {
    var path := [a, ".", ".", b];
    assert Adjacent(path, ".") by { assert path[1] == "." == path[2]; }
    hide CleanName, Meant, Render, Resolve, Thin, Count, Adjacent, Without;
    ThinNone(path, "");
    ResolvePlain([], path);
    assert [] + path == path;
    ThinDots(a, b);
    CleanNameIs(path);
    CleanNameMeets(path);
  }

  lemma ThinDots(a: string, b: string)
    requires IsName(a) && IsName(b)
    ensures Thin([a, ".", ".", b], ".") == [a, ".", b]
  {
    hide Thin;
    ThinAt([a], ".", [".", b]);
    assert [a] + ["."] + [".", b] == [a, ".", ".", b];
    assert [".", b][1..] == [b];
    ThinNone([b], ".");
    assert [a] + (["."] + [b]) == [a, ".", b];
  }
}
