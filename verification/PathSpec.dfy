/** POSIX paths as lists of components, and what their normal form should be (src/fs.c).
    A path is the characters of the C string before its terminator. */
module PathSpec {

  predicate IsSep(c: char) {
    c == '/'
  }

  predicate IsAbs(path: string) {
    path != [] && IsSep(path[0])
  }

  // ---- Components

  /** Length of the component at the start of `s`. */
  function SegLen(s: string): (n: nat)
    ensures n <= |s|
    ensures forall i :: 0 <= i < n ==> !IsSep(s[i])
    ensures n < |s| ==> IsSep(s[n])
  {
    if s == [] || IsSep(s[0]) then 0 else 1 + SegLen(s[1..])
  }

  /** The non-empty stretches between separators. */
  function Components(s: string): seq<string>
    decreases |s|
  {
    if s == [] then []
    else if IsSep(s[0]) then Components(s[1..])
    else [s[..SegLen(s)]] + Components(s[SegLen(s)..])
  }

  predicate IsComponent(c: string) {
    c != [] && forall i :: 0 <= i < |c| ==> !IsSep(c[i])
  }

  predicate IsName(c: string) {
    IsComponent(c) && c != "." && c != ".."
  }

  predicate AllComponents(cs: seq<string>) {
    forall i :: 0 <= i < |cs| ==> IsComponent(cs[i])
  }

  predicate AllNames(cs: seq<string>) {
    forall i :: 0 <= i < |cs| ==> IsName(cs[i])
  }

  lemma {:induction false} ComponentsValid(s: string)
    ensures AllComponents(Components(s))
    decreases |s|
  {
    if s != [] {
      if IsSep(s[0]) {
        ComponentsValid(s[1..]);
      } else {
        ComponentsValid(s[SegLen(s)..]);
      }
    }
  }

  lemma {:induction false} SegLenIs(s: string, n: nat)
    requires n <= |s| && (forall i :: 0 <= i < n ==> !IsSep(s[i])) && (n < |s| ==> IsSep(s[n]))
    ensures SegLen(s) == n
  {
    if n > 0 {
      SegLenIs(s[1..], n - 1);
    }
  }

  /** A separator splits the components. */
  lemma {:induction false} ComponentsSplit(a: string, b: string)
    ensures Components(a + "/" + b) == Components(a) + Components(b)
    decreases |a|
  {
    var s := a + "/" + b;
    if a == [] {
      assert s[1..] == b;
    } else if IsSep(a[0]) {
      assert s[1..] == a[1..] + "/" + b;
      ComponentsSplit(a[1..], b);
    } else {
      var n := SegLen(a);
      SegLenIs(s, n);
      assert s[..n] == a[..n] && s[n..] == a[n..] + "/" + b;
      ComponentsSplit(a[n..], b);
    }
  }

  lemma ComponentsSingle(c: string)
    requires IsComponent(c)
    ensures Components(c) == [c]
  {
    SegLenIs(c, |c|);
    assert c[..|c|] == c && c[|c|..] == [];
  }

  // ---- Rendering

  function Join(cs: seq<string>): string {
    if cs == [] then []
    else Join(cs[..|cs| - 1]) + (if |cs| == 1 then [] else "/") + cs[|cs| - 1]
  }

  function Root(abs: bool): string {
    if abs then "/" else ""
  }

  function Render(abs: bool, cs: seq<string>): string {
    Root(abs) + Join(cs)
  }

  lemma RenderSnoc(abs: bool, cs: seq<string>, c: string)
    ensures Render(abs, cs + [c]) == Render(abs, cs) + (if cs == [] then [] else "/") + c
  {
    assert (cs + [c])[..|cs|] == cs;
  }

  lemma {:induction false} RenderPrefix(abs: bool, cs: seq<string>, k: nat)
    requires k <= |cs|
    ensures Render(abs, cs[..k]) <= Render(abs, cs)
  {
    if k < |cs| {
      var init := cs[..|cs| - 1];
      RenderPrefix(abs, init, k);
      assert init[..k] == cs[..k] && cs == init + [cs[|cs| - 1]];
      RenderSnoc(abs, init, cs[|cs| - 1]);
    } else {
      assert cs[..k] == cs;
    }
  }

  /** A rendering is empty or ends in a separator only where no component has been written. */
  lemma RenderEnd(abs: bool, cs: seq<string>)
    requires AllComponents(cs)
    ensures var t := Render(abs, cs); (t != [] && !IsSep(t[|t| - 1])) <==> cs != []
  {
    if cs != [] {
      var init, c := cs[..|cs| - 1], cs[|cs| - 1];
      assert cs == init + [c];
      RenderSnoc(abs, init, c);
      assert IsComponent(c);
    }
  }

  /** Parsing a rendering gives the components back. */
  lemma {:induction false} ComponentsOfRender(abs: bool, cs: seq<string>)
    requires AllComponents(cs)
    ensures Components(Render(abs, cs)) == cs
    ensures IsAbs(Render(abs, cs)) == abs
  {
    if cs != [] {
      var init, c := cs[..|cs| - 1], cs[|cs| - 1];
      assert cs == init + [c];
      RenderSnoc(abs, init, c);
      ComponentsOfRender(abs, init);
      assert IsComponent(c);
      ComponentsSingle(c);
      if init != [] {
        RenderEnd(abs, init);
        ComponentsSplit(Render(abs, init), c);
      } else if abs {
        assert Render(abs, cs)[1..] == c;
      } else {
        assert Render(abs, cs) == c;
      }
    } else if abs {
      assert Render(abs, cs)[1..] == [];
    }
  }

  /** What each component contributes at most. */
  function Width(cs: seq<string>): nat {
    if cs == [] then 0 else Width(cs[..|cs| - 1]) + |cs[|cs| - 1]| + 1
  }

  lemma {:induction false} WidthConcat(a: seq<string>, b: seq<string>)
    ensures Width(a + b) == Width(a) + Width(b)
    decreases |b|
  {
    if b == [] {
      assert a + b == a;
    } else {
      assert (a + b)[..|a + b| - 1] == a + b[..|b| - 1];
      WidthConcat(a, b[..|b| - 1]);
    }
  }

  lemma {:induction false} RenderWidth(abs: bool, cs: seq<string>)
    ensures |Render(abs, cs)| == |Root(abs)| + (if cs == [] then 0 else Width(cs) - 1)
  {
    if cs != [] {
      var init := cs[..|cs| - 1];
      assert cs == init + [cs[|cs| - 1]];
      RenderWidth(abs, init);
      RenderSnoc(abs, init, cs[|cs| - 1]);
    }
  }

  lemma {:induction false} ComponentsWidth(s: string)
    ensures Width(Components(s)) <= |s| + 1
    ensures IsAbs(s) || s == [] ==> Width(Components(s)) <= |s|
    decreases |s|
  {
    if s != [] {
      if IsSep(s[0]) {
        ComponentsWidth(s[1..]);
      } else {
        var n := SegLen(s);
        ComponentsWidth(s[n..]);
        WidthConcat([s[..n]], Components(s[n..]));
        assert Width([s[..n]]) == n + 1 by {
          assert [s[..n]][..0] == [];
        }
      }
    }
  }

  // ---- The reference: reduce the list of components

  /** Leading `..`s that nothing cancels, then names. */
  datatype Reduced = Reduced(ups: nat, names: seq<string>)

  function ReduceStep(abs: bool, r: Reduced, c: string): Reduced {
    if c == "." then r
    else if c == ".." then
      if r.names != [] then r.(names := r.names[..|r.names| - 1])
      else if abs then r
      else r.(ups := r.ups + 1)
    else r.(names := r.names + [c])
  }

  function Reduce(abs: bool, cs: seq<string>): Reduced {
    if cs == [] then Reduced(0, [])
    else ReduceStep(abs, Reduce(abs, cs[..|cs| - 1]), cs[|cs| - 1])
  }

  function Ups(n: nat): (u: seq<string>)
    ensures |u| == n && forall i :: 0 <= i < n ==> u[i] == ".."
  {
    if n == 0 then [] else Ups(n - 1) + [".."]
  }

  /** Drop empty and `.` components, let `..` cancel the name before it, drop `..` at an absolute
      root; an empty relative result is `.`. */
  function Normal(path: string): string {
    var r := Reduce(IsAbs(path), Components(path));
    var t := Render(IsAbs(path), Ups(r.ups) + r.names);
    if t == [] then "." else t
  }

  lemma ReduceSnoc(abs: bool, cs: seq<string>, c: string)
    ensures Reduce(abs, cs + [c]) == ReduceStep(abs, Reduce(abs, cs), c)
  {
    assert (cs + [c])[..|cs|] == cs;
  }

  lemma {:induction false} SameFrom(abs: bool, a: seq<string>, a': seq<string>, b: seq<string>)
    requires Reduce(abs, a) == Reduce(abs, a')
    ensures Reduce(abs, a + b) == Reduce(abs, a' + b)
    decreases |b|
  {
    if b == [] {
      assert a + b == a && a' + b == a';
    } else {
      var init, c := b[..|b| - 1], b[|b| - 1];
      SameFrom(abs, a, a', init);
      assert a + b == a + init + [c] && a' + b == a' + init + [c];
      ReduceSnoc(abs, a + init, c);
      ReduceSnoc(abs, a' + init, c);
    }
  }

  /** Anywhere in a path a `.` can be left out, and a name together with a `..` behind it. */
  lemma ReduceDrops(abs: bool, a: seq<string>, c: string, b: seq<string>)
    requires IsName(c)
    ensures Reduce(abs, a + ["."] + b) == Reduce(abs, a + b)
    ensures Reduce(abs, a + [c] + [".."] + b) == Reduce(abs, a + b)
  {
    ReduceSnoc(abs, a, ".");
    SameFrom(abs, a + ["."], a, b);
    ReduceSnoc(abs, a, c);
    ReduceSnoc(abs, a + [c], "..");
    SameFrom(abs, a + [c] + [".."], a, b);
  }

  /** At an absolute root a `..` can be left out. */
  lemma ReduceRoot(b: seq<string>)
    ensures Reduce(true, [".."] + b) == Reduce(true, b)
  {
    assert [] + [".."] == [".."] && [] + b == b;
    ReduceSnoc(true, [], "..");
    SameFrom(true, [".."], [], b);
  }

  lemma {:induction false} ReduceUps(ups: nat)
    ensures Reduce(false, Ups(ups)) == Reduced(ups, [])
  {
    if ups > 0 {
      ReduceUps(ups - 1);
      ReduceSnoc(false, Ups(ups - 1), "..");
    }
  }

  lemma NameStep(abs: bool, r: Reduced, c: string)
    requires IsName(c)
    ensures ReduceStep(abs, r, c) == Reduced(r.ups, r.names + [c])
  {
  }

  lemma {:induction false} ReduceNames(abs: bool, a: seq<string>, r: Reduced, names: seq<string>)
    requires r == Reduce(abs, a) && AllNames(names)
    ensures Reduce(abs, a + names) == Reduced(r.ups, r.names + names)
    decreases |names|
  {
    if names == [] {
      assert a + names == a && r.names + names == r.names;
    } else {
      var init, c := names[..|names| - 1], names[|names| - 1];
      ReduceNames(abs, a, r, init);
      assert a + names == a + init + [c] && r.names + names == r.names + init + [c];
      ReduceSnoc(abs, a + init, c);
      NameStep(abs, Reduced(r.ups, r.names + init), c);
    }
  }

  /** What nothing can be left out of is its own reduction: names, in a relative path behind any
      number of `..`s. */
  lemma ReduceKeeps(abs: bool, ups: nat, names: seq<string>)
    requires AllNames(names) && (abs ==> ups == 0)
    ensures Reduce(abs, Ups(ups) + names) == Reduced(ups, names)
  {
    if !abs {
      ReduceUps(ups);
    }
    ReduceNames(abs, Ups(ups), Reduced(ups, []), names);
    assert [] + names == names;
  }

  lemma {:induction false} ReducedShape(abs: bool, cs: seq<string>)
    requires AllComponents(cs)
    ensures AllNames(Reduce(abs, cs).names)
    ensures abs ==> Reduce(abs, cs).ups == 0
  {
    if cs != [] {
      ReducedShape(abs, cs[..|cs| - 1]);
      assert IsComponent(cs[|cs| - 1]);
    }
  }
}

/** What the cursor loop of `cpr_normalize_path` computes, on component lists. */
module PathCode {
  import opened PathSpec

  const LEVELS: nat := 256

  /** The components written so far: `ups` times `..`, then names. `marked` says that the last `..`
      still has a saved cursor. Saved cursors cover the marked `..`, if any, and then the names, but
      only the first 256 of them. */
  datatype Code = Code(ups: nat, marked: bool, names: seq<string>)

  function Mark(s: Code): nat {
    if s.marked then 1 else 0
  }

  function Saved(s: Code): nat {
    var n := Mark(s) + |s.names|;
    if n < LEVELS then n else LEVELS
  }

  /** A `..` returns to the last saved cursor. For a name that is where the name began; for a marked
      `..` it is where that `..` ended, so nothing is removed. */
  function Pop(s: Code): Code
    requires Saved(s) > 0
  {
    if s.names == [] then s.(marked := false)
    else s.(names := s.names[..Saved(s) - Mark(s) - 1])
  }

  function CodeStep(abs: bool, s: Code, c: string): Code {
    if c == "." then s
    else if c == ".." then
      if Saved(s) > 0 then Pop(s)
      else if abs then s
      else Code(s.ups + 1, true, [])
    else s.(names := s.names + [c])
  }

  function CodeRun(abs: bool, cs: seq<string>): Code {
    if cs == [] then Code(0, false, [])
    else CodeStep(abs, CodeRun(abs, cs[..|cs| - 1]), cs[|cs| - 1])
  }

  function Written(s: Code): seq<string> {
    Ups(s.ups) + s.names
  }

  /** The final test: an empty result, or a relative result that is one separator of either
      platform, gets a `.` appended. */
  function Finish(abs: bool, t: string): string {
    if !abs && (t == "" || t == "/" || t == "\\") then t + "." else t
  }

  /** The string `cpr_normalize_path` produces. */
  function CodeText(path: string): string {
    Finish(IsAbs(path), Render(IsAbs(path), Written(CodeRun(IsAbs(path), Components(path)))))
  }

  lemma {:induction false} CodeShape(abs: bool, cs: seq<string>)
    requires AllComponents(cs)
    ensures var s := CodeRun(abs, cs);
            && AllNames(s.names) && AllComponents(Written(s))
            && (abs ==> s.ups == 0) && (s.marked ==> s.ups > 0)
  {
    if cs != [] {
      CodeShape(abs, cs[..|cs| - 1]);
      assert IsComponent(cs[|cs| - 1]);
    }
  }

  lemma WrittenSnoc(s: Code, c: string)
    ensures Written(s.(names := s.names + [c])) == Written(s) + [c]
  {
  }

  lemma WrittenPop(s: Code)
    requires Saved(s) > 0
    ensures Written(Pop(s)) <= Written(s)
  {
  }

  // ---- Length

  lemma {:induction false} PrefixWidth(cs: seq<string>, k: nat)
    requires k <= |cs|
    ensures Width(cs[..k]) <= Width(cs)
  {
    assert cs == cs[..k] + cs[k..];
    WidthConcat(cs[..k], cs[k..]);
  }

  lemma {:induction false} WrittenWidth(abs: bool, cs: seq<string>)
    ensures Width(Written(CodeRun(abs, cs))) <= Width(cs)
  {
    if cs != [] {
      var init, c := cs[..|cs| - 1], cs[|cs| - 1];
      var s := CodeRun(abs, init);
      WrittenWidth(abs, init);
      if c == ".." {
        if Saved(s) > 0 {
          WrittenPop(s);
          var w, w' := Written(s), Written(Pop(s));
          assert w' == w[..|w'|];
          PrefixWidth(w, |w'|);
        } else if !abs {
          assert Written(CodeStep(abs, s, c)) == Written(s) + [".."];
          assert (Written(s) + [".."])[..|Written(s)|] == Written(s);
        }
      } else if c != "." {
        WrittenSnoc(s, c);
        assert (Written(s) + [c])[..|Written(s)|] == Written(s);
      }
    }
  }

  /** The output is no longer than the input, after any number of components. */
  lemma OutputFits(path: string, k: nat)
    requires k <= |Components(path)|
    ensures |Render(IsAbs(path), Written(CodeRun(IsAbs(path), Components(path)[..k])))| <= |path|
  {
    var abs, cs := IsAbs(path), Components(path);
    WrittenWidth(abs, cs[..k]);
    PrefixWidth(cs, k);
    ComponentsWidth(path);
    RenderWidth(abs, Written(CodeRun(abs, cs[..k])));
  }

  /** The cursor never overtakes the input: what the first `p` characters give fits in `p` characters. */
  lemma CursorBound(path: string, p: nat)
    requires 0 < p <= |path|
    ensures |Render(IsAbs(path), Written(CodeRun(IsAbs(path), Components(path[..p]))))| <= p
  {
    var cs := Components(path[..p]);
    OutputFits(path[..p], |cs|);
    assert cs[..|cs|] == cs;
  }
}
