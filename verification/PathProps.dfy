/** When normalization meets its reference, and what it always guarantees (src/fs.c). */
module PathProps {
  import opened PathSpec
  import opened PathCode

  // ---- The final test

  /** The text of the components written, by cases: a relative result that is empty, or is a single
      backslash, gets a `.`. */
  function TextOf(abs: bool, w: seq<string>): string {
    if !abs && w == [] then "."
    else if !abs && w == ["\\"] then "\\."
    else Render(abs, w)
  }

  lemma FinishIs(abs: bool, w: seq<string>)
    requires AllComponents(w)
    ensures Finish(abs, Render(abs, w)) == TextOf(abs, w)
  {
    if !abs {
      assert Render(false, w) == "" <==> w == [] by { RenderEnd(false, w); }
      assert Render(false, w) != "/" by { RenderEnd(false, w); }
      BackslashOnly(w);
    }
  }

  lemma BackslashOnly(w: seq<string>)
    requires AllComponents(w)
    ensures Render(false, w) == "\\" <==> w == ["\\"]
  {
    ComponentsOfRender(false, w);
    ComponentsSingle("\\");
    RenderOne("\\");
  }

  lemma RenderOne(c: string)
    ensures Render(false, [c]) == c
  {
    assert [c][..|[c]| - 1] == [];
    assert Join([c]) == Join([]) + [] + c;
  }

  lemma CodeTextIs(path: string)
    ensures CodeText(path) == TextOf(IsAbs(path), Written(CodeRun(IsAbs(path), Components(path))))
  {
    ComponentsValid(path);
    CodeShape(IsAbs(path), Components(path));
    FinishIs(IsAbs(path), Written(CodeRun(IsAbs(path), Components(path))));
  }

  // ---- The memory of the saved cursors

  /** How many names a `..` can cancel from: the saved cursors, less that of a marked `..`. */
  function Room(r: Reduced): nat {
    LEVELS - r.ups % 2
  }

  /** The reduction with the memory the saved cursors have: when more components are open than
      cursors are saved, a `..` also drops the names that have none. */
  function LimitedStep(abs: bool, r: Reduced, c: string): Reduced {
    if c == "." then r
    else if c == ".." then
      if r.names == [] then (if abs then r else r.(ups := r.ups + 1))
      else if |r.names| > Room(r) then r.(names := r.names[..Room(r) - 1])
      else r.(names := r.names[..|r.names| - 1])
    else r.(names := r.names + [c])
  }

  function Limited(abs: bool, cs: seq<string>): Reduced {
    if cs == [] then Reduced(0, []) else LimitedStep(abs, Limited(abs, cs[..|cs| - 1]), cs[|cs| - 1])
  }

  lemma {:induction false} LimitedShape(abs: bool, cs: seq<string>)
    requires AllComponents(cs)
    ensures AllNames(Limited(abs, cs).names)
  {
    if cs != [] {
      LimitedShape(abs, cs[..|cs| - 1]);
      assert IsComponent(cs[|cs| - 1]);
    }
  }

  /** The code keeps the names, and one of every two unmatched `..`s; the mark is the odd one. */
  predicate Halved(s: Code, r: Reduced) {
    s.names == r.names && r.ups + Mark(s) == 2 * s.ups
  }

  lemma HalvedMark(s: Code, r: Reduced)
    requires Halved(s, r)
    ensures Mark(s) == r.ups % 2 && s == Code((r.ups + 1) / 2, r.ups % 2 == 1, r.names)
  {
  }

  lemma HalvedStep(abs: bool, s: Code, r: Reduced, c: string)
    requires Halved(s, r) && Mark(s) == r.ups % 2 && (abs ==> r.ups == 0)
    ensures Halved(CodeStep(abs, s, c), LimitedStep(abs, r, c))
  {
  }

  /** On paths of any depth the code halves the limited reduction. */
  lemma {:induction false} CodeTracks(abs: bool, cs: seq<string>)
    ensures Halved(CodeRun(abs, cs), Limited(abs, cs))
    ensures abs ==> Limited(abs, cs).ups == 0
  {
    if cs != [] {
      var init := cs[..|cs| - 1];
      CodeTracks(abs, init);
      HalvedMark(CodeRun(abs, init), Limited(abs, init));
      HalvedStep(abs, CodeRun(abs, init), Limited(abs, init), cs[|cs| - 1]);
    }
  }

  /** The code's state, from the limited reduction. */
  lemma CodeIs(abs: bool, cs: seq<string>)
    ensures var l := Limited(abs, cs);
            CodeRun(abs, cs) == Code((l.ups + 1) / 2, l.ups % 2 == 1, l.names) && (abs ==> l.ups == 0)
  {
    var s, l := CodeRun(abs, cs), Limited(abs, cs);
    assert Halved(s, l) && (abs ==> l.ups == 0) by { CodeTracks(abs, cs); }
    HalvedMark(s, l);
  }

  // ---- Counting lost names

  /** How many more `..`s there are than names. */
  function Excess(cs: seq<string>): int {
    if cs == [] then 0
    else
      var c := cs[|cs| - 1];
      Excess(cs[..|cs| - 1]) + if c == "." then 0 else if c == ".." then 1 else -1
  }

  /** Names that have no cursor when a relative path meets the `..` `c`. */
  function LostBy(r: Reduced, c: string): nat {
    if c == ".." && |r.names| > Room(r) then |r.names| - Room(r) else 0
  }

  /** Names a relative path loses on the way. */
  function Lost(cs: seq<string>): nat {
    if cs == [] then 0 else Lost(cs[..|cs| - 1]) + LostBy(Limited(false, cs[..|cs| - 1]), cs[|cs| - 1])
  }

  lemma {:induction false} NetLimited(cs: seq<string>)
    ensures var l := Limited(false, cs); l.ups - |l.names| == Excess(cs) + Lost(cs)
  {
    if cs != [] {
      NetLimited(cs[..|cs| - 1]);
    }
  }

  lemma {:induction false} NetReduced(cs: seq<string>)
    ensures var r := Reduce(false, cs); r.ups - |r.names| == Excess(cs)
  {
    if cs != [] {
      NetReduced(cs[..|cs| - 1]);
    }
  }

  /** No beginning of the path has more than `m` `..`s beyond its names, lost names counting as
      cancelled. */
  ghost predicate UpsAtMost(cs: seq<string>, m: nat) {
    forall i: nat :: i <= |cs| ==> Excess(cs[..i]) + Lost(cs[..i]) <= m
  }

  lemma UpsAtMostStep(cs: seq<string>, c: string, m: nat)
    ensures UpsAtMost(cs + [c], m) <==> UpsAtMost(cs, m) && Excess(cs + [c]) + Lost(cs + [c]) <= m
  {
    var cs' := cs + [c];
    assert cs'[..|cs'|] == cs';
    forall i: nat | i <= |cs|
      ensures cs'[..i] == cs[..i]
    {
    }
  }

  lemma {:induction false} LimitedUpsIff(cs: seq<string>, m: nat)
    ensures Limited(false, cs).ups <= m <==> UpsAtMost(cs, m)
  {
    NetLimited(cs);
    if cs == [] {
      assert cs[..0] == [];
    } else {
      var init, c := cs[..|cs| - 1], cs[|cs| - 1];
      LimitedUpsIff(init, m);
      UpsAtMostStep(init, c, m);
      assert init + [c] == cs;
    }
  }

  /** No `..` is met while more components are open than cursors can be saved. */
  ghost predicate NeverOverfull(cs: seq<string>) {
    forall i :: 0 <= i < |cs| && cs[i] == ".." ==>
      var r := Reduce(false, cs[..i]); |r.names| + r.ups % 2 <= LEVELS
  }

  lemma NeverOverfullStep(cs: seq<string>, c: string)
    ensures NeverOverfull(cs + [c]) <==>
            NeverOverfull(cs) && (c == ".." ==> var r := Reduce(false, cs); |r.names| + r.ups % 2 <= LEVELS)
  {
    var cs' := cs + [c];
    assert cs'[..|cs|] == cs;
    forall i | 0 <= i < |cs|
      ensures cs'[..i] == cs[..i] && cs'[i] == cs[i]
    {
    }
    if NeverOverfull(cs') {
      assert c == ".." ==> cs'[|cs|] == "..";
      forall i | 0 <= i < |cs| && cs[i] == ".."
        ensures var r := Reduce(false, cs[..i]); |r.names| + r.ups % 2 <= LEVELS
      {
        assert cs'[i] == "..";
      }
    }
  }

  lemma LosesNothingIff(r: Reduced, c: string)
    ensures LostBy(r, c) == 0 <==> (c == ".." ==> |r.names| + r.ups % 2 <= LEVELS)
    ensures LostBy(r, c) == 0 ==> LimitedStep(false, r, c) == ReduceStep(false, r, c)
  {
  }

  /** That is exactly when no names are lost, and then nothing but what `..` cancels is dropped. */
  lemma {:induction false} NothingLostIff(cs: seq<string>)
    ensures NeverOverfull(cs) <==> Lost(cs) == 0
    ensures NeverOverfull(cs) ==> Limited(false, cs) == Reduce(false, cs)
  {
    if cs != [] {
      var init, c := cs[..|cs| - 1], cs[|cs| - 1];
      NothingLostIff(init);
      NeverOverfullStep(init, c);
      LosesNothingIff(Limited(false, init), c);
      assert init + [c] == cs;
    }
  }

  // ---- Against the reference: relative paths

  /** Names open after the first `k` components. */
  ghost function Depth(abs: bool, cs: seq<string>, k: nat): nat
    requires k <= |cs|
  {
    |Reduce(abs, cs[..k]).names|
  }

  /** The `..` at `i` is met with more components open than cursors, and the path does not come back
      to where it has no names after it. */
  ghost predicate GoneAt(cs: seq<string>, i: nat)
    requires i < |cs|
  {
    LostBy(Limited(false, cs[..i]), cs[i]) > 0 && OpenSince(cs, i)
  }

  ghost predicate OpenSince(cs: seq<string>, i: nat) {
    forall j :: i < j <= |cs| ==> Depth(false, cs, j) > 0
  }

  /** Names are lost for good. */
  ghost predicate LosesForGood(cs: seq<string>) {
    exists i :: 0 <= i < |cs| && GoneAt(cs, i)
  }

  lemma DepthStep(abs: bool, cs: seq<string>, c: string)
    ensures forall k: nat :: k <= |cs| ==> Depth(abs, cs + [c], k) == Depth(abs, cs, k)
    ensures Depth(abs, cs + [c], |cs| + 1) == |Reduce(abs, cs + [c]).names|
  {
    var cs' := cs + [c];
    assert cs'[..|cs'|] == cs';
    forall k: nat | k <= |cs|
      ensures Depth(abs, cs', k) == Depth(abs, cs, k)
    {
      assert cs'[..k] == cs[..k];
    }
  }

  lemma OpenSinceStep(cs: seq<string>, c: string, i: nat)
    requires i <= |cs|
    ensures OpenSince(cs + [c], i) <==> OpenSince(cs, i) && Depth(false, cs + [c], |cs| + 1) > 0
  {
    DepthStep(false, cs, c);
  }

  lemma GoneAtStep(cs: seq<string>, c: string, i: nat)
    requires i < |cs|
    ensures GoneAt(cs + [c], i) <==> GoneAt(cs, i) && Depth(false, cs + [c], |cs| + 1) > 0
  {
    OpenSinceStep(cs, c, i);
    assert (cs + [c])[..i] == cs[..i];
  }

  lemma GoneAtLast(cs: seq<string>, c: string)
    ensures GoneAt(cs + [c], |cs|) <==> LostBy(Limited(false, cs), c) > 0 && Depth(false, cs + [c], |cs| + 1) > 0
  {
    OpenSinceStep(cs, c, |cs|);
    assert (cs + [c])[..|cs|] == cs;
  }

  lemma LosesForGoodStep(cs: seq<string>, c: string)
    ensures LosesForGood(cs + [c]) <==>
            && Depth(false, cs + [c], |cs| + 1) > 0
            && (LosesForGood(cs) || LostBy(Limited(false, cs), c) > 0)
  {
    var cs' := cs + [c];
    GoneAtLast(cs, c);
    forall i: nat | i < |cs|
      ensures GoneAt(cs', i) <==> GoneAt(cs, i) && Depth(false, cs', |cs| + 1) > 0
    {
      GoneAtStep(cs, c, i);
    }
  }

  /** The limited reduction has at most the names of the reference, and fewer exactly when names are
      lost for good. */
  lemma {:induction false} NamesTrack(cs: seq<string>)
    ensures var l, r := Limited(false, cs), Reduce(false, cs);
            && |l.names| <= |r.names|
            && (LosesForGood(cs) <==> |l.names| < |r.names|)
            && (!LosesForGood(cs) <==> l.names == r.names)
  {
    if cs != [] {
      var init, c := cs[..|cs| - 1], cs[|cs| - 1];
      NamesTrack(init);
      LosesForGoodStep(init, c);
      DepthStep(false, init, c);
      assert init + [c] == cs;
    }
  }

  lemma HalfIs(k: nat, lost: nat)
    ensures (k + lost + 1) / 2 == k <==> lost == k || lost + 1 == k
  {
  }

  /** On a relative path of any depth, the result is the reference exactly when no names are lost for
      good, the names lost on the way are as many as the `..`s left unmatched or one less, and what is
      left is not a single backslash. */
  lemma RelativeNormalIff(path: string)
    requires !IsAbs(path)
    ensures var cs, r := Components(path), Reduce(false, Components(path));
            CodeText(path) == Normal(path)
            <==> && !LosesForGood(cs)
                 && (Lost(cs) == r.ups || Lost(cs) + 1 == r.ups)
                 && !(r.ups == 0 && r.names == ["\\"])
  {
    var cs := Components(path);
    var l, r := Limited(false, cs), Reduce(false, cs);
    LimitedTexts(path, l, r);
    NamesTrack(cs);
    NetLimited(cs);
    NetReduced(cs);
    HalfIs(r.ups, Lost(cs));
  }

  lemma LimitedTexts(path: string, l: Reduced, r: Reduced)
    requires !IsAbs(path) && l == Limited(false, Components(path)) && r == Reduce(false, Components(path))
    ensures CodeText(path) == Normal(path)
            <==> (l.ups + 1) / 2 == r.ups && l.names == r.names && !(r.ups == 0 && r.names == ["\\"])
  {
    var cs := Components(path);
    assert AllNames(l.names) && AllNames(r.names) by {
      ComponentsValid(path);
      ReducedShape(false, cs);
      LimitedShape(false, cs);
    }
    assert |l.names| == |r.names| ==> l.names == r.names by { NamesTrack(cs); }
    assert Written(CodeRun(false, cs)) == Ups((l.ups + 1) / 2) + l.names by { CodeIs(false, cs); }
    CodeTextIs(path);
    RelativeTexts((l.ups + 1) / 2, l.names, r.ups, r.names);
  }

  /** Within the depth limit that is when at most one `..` is left unmatched, and no lone backslash. */
  lemma ShallowNormalIff(path: string)
    requires !IsAbs(path) && NeverOverfull(Components(path))
    ensures var r := Reduce(false, Components(path));
            CodeText(path) == Normal(path) <==> r.ups <= 1 && !(r.ups == 0 && r.names == ["\\"])
  {
    NothingLostIff(Components(path));
    NamesTrack(Components(path));
    RelativeNormalIff(path);
  }

  /** Without unmatched `..`s it is when the depth limit is kept, and no lone backslash. */
  lemma MatchedNormalIff(path: string)
    requires !IsAbs(path) && Reduce(false, Components(path)).ups == 0
    ensures CodeText(path) == Normal(path)
            <==> NeverOverfull(Components(path)) && Reduce(false, Components(path)).names != ["\\"]
  {
    NothingLostIff(Components(path));
    NamesTrack(Components(path));
    RelativeNormalIff(path);
  }

  lemma UpsWidth(a: nat, names: seq<string>)
    ensures Width(Ups(a) + names) == 3 * a + Width(names)
  {
    WidthConcat(Ups(a), names);
    UpsOnlyWidth(a);
  }

  lemma {:induction false} UpsOnlyWidth(a: nat)
    ensures Width(Ups(a)) == 3 * a
  {
    if a > 0 {
      UpsOnlyWidth(a - 1);
      assert Ups(a)[..a - 1] == Ups(a - 1);
    }
  }

  lemma RelativeLength(a: nat, names: seq<string>)
    ensures |Render(false, Ups(a) + names)| == if a == 0 && names == [] then 0 else 3 * a + Width(names) - 1
  {
    UpsWidth(a, names);
    RenderWidth(false, Ups(a) + names);
  }

  lemma UpsThenNames(a: nat, names: seq<string>)
    requires AllNames(names)
    ensures AllComponents(Ups(a) + names)
    ensures Ups(a) + names == [] <==> a == 0 && names == []
    ensures a > 0 ==> (Ups(a) + names)[0] == ".."
    ensures Ups(0) + names == names
  {
    assert IsComponent("..");
  }

  lemma UpsEnd(a: nat, names: seq<string>)
    requires AllNames(names)
    ensures forall i :: 0 <= i < a ==> (Ups(a) + names)[i] == ".."
    ensures forall i :: 0 <= i < |names| ==> (Ups(a) + names)[a + i] == names[i]
    ensures |names| > 0 ==> (Ups(a) + names)[a] != ".."
    ensures "." !in Ups(a) + names
  {
    assert |names| > 0 ==> IsName(names[0]);
  }

  lemma SameUps(a: nat, names: seq<string>, b: nat, names': seq<string>)
    requires AllNames(names) && AllNames(names') && Ups(a) + names == Ups(b) + names'
    ensures a == b && names == names'
  {
    UpsEnd(a, names);
    UpsEnd(b, names');
    assert a == b;
    assert (Ups(a) + names)[a..] == names && (Ups(b) + names')[a..] == names';
  }

  lemma SameRendering(a: nat, names: seq<string>, b: nat, names': seq<string>)
    requires AllNames(names) && AllNames(names')
    ensures Render(false, Ups(a) + names) == Render(false, Ups(b) + names') <==> a == b && names == names'
  {
    UpsThenNames(a, names);
    UpsThenNames(b, names');
    ComponentsOfRender(false, Ups(a) + names);
    ComponentsOfRender(false, Ups(b) + names');
    if Ups(a) + names == Ups(b) + names' {
      SameUps(a, names, b, names');
    }
  }

  lemma DotIsNoRendering(a: nat, names: seq<string>)
    requires AllNames(names)
    ensures Render(false, Ups(a) + names) != "."
  {
    var w := Ups(a) + names;
    assert w != ["."] by { UpsEnd(a, names); assert "." in ["."]; }
    assert AllComponents(w) by { UpsThenNames(a, names); }
    ComponentsOfRender(false, w);
    ComponentsSingle(".");
  }

  /** The text of `a` times `..` and `names`, against the reference text of `b` times and `names'`. */
  lemma RelativeTexts(a: nat, names: seq<string>, b: nat, names': seq<string>)
    requires AllNames(names) && AllNames(names')
    requires a == 0 && |names'| == |names| ==> names' == names
    ensures var t := Render(false, Ups(b) + names');
            TextOf(false, Ups(a) + names) == (if t == [] then "." else t)
            <==> a == b && names == names' && !(b == 0 && names' == ["\\"])
  {
    var w, w' := Ups(a) + names, Ups(b) + names';
    UpsThenNames(a, names);
    UpsThenNames(b, names');
    RenderEnd(false, w');
    if w == [] {
      DotIsNoRendering(b, names');
    } else if w == ["\\"] {
      BackslashTexts(a, names, b, names');
    } else {
      SameRendering(a, names, b, names');
      DotIsNoRendering(a, names);
    }
  }

  lemma BackslashTexts(a: nat, names: seq<string>, b: nat, names': seq<string>)
    requires AllNames(names) && AllNames(names') && Ups(a) + names == ["\\"]
    requires a == 0 && |names'| == |names| ==> names' == names
    ensures a == 0 && names == ["\\"]
    ensures Render(false, Ups(b) + names') != "\\."
  {
    UpsThenNames(a, names);
    BackslashDot();
    assert IsName("\\.");
    SameRendering(0, ["\\."], b, names');
    assert a == 0;
  }

  lemma HalvedUps(k: nat, names: seq<string>)
    ensures Render(false, Ups((k + 1) / 2) + names) == Render(false, Ups(k) + names) <==> k <= 1
  {
    RelativeLength((k + 1) / 2, names);
    RelativeLength(k, names);
    if k <= 1 {
      assert (k + 1) / 2 == k;
    }
  }

  lemma {:induction false} UpsRun(n: nat)
    ensures CodeRun(false, Ups(n)) == Code((n + 1) / 2, n % 2 == 1, [])
    ensures Reduce(false, Ups(n)) == Reduced(n, [])
  {
    if n > 0 {
      UpsRun(n - 1);
      assert Ups(n)[..n - 1] == Ups(n - 1);
      UpStep((n - 1 + 1) / 2, (n - 1) % 2 == 1);
      Halves(n);
    }
  }

  lemma UpStep(ups: nat, marked: bool)
    ensures CodeStep(false, Code(ups, marked, []), "..") == Code(if marked then ups else ups + 1, !marked, [])
  {
  }

  lemma Halves(n: nat)
    requires n > 0
    ensures (n + 1) / 2 == (if (n - 1) % 2 == 1 then n / 2 else n / 2 + 1)
    ensures n % 2 == 1 <==> (n - 1) % 2 != 1
  {
  }

  /** A path of `n` unmatched `..`s comes out with half of them, rounded up. */
  lemma UnmatchedUpsHalve(n: nat)
    requires n > 0
    ensures var path := Render(false, Ups(n));
            CodeText(path) == Render(false, Ups((n + 1) / 2)) && Normal(path) == path
  {
    var m := (n + 1) / 2;
    UpsRun(n);
    assert IsComponent("..");
    ComponentsOfRender(false, Ups(n));
    CodeTextIs(Render(false, Ups(n)));
    RelativeLength(n, []);
    assert Ups(m) + [] == Ups(m) && Ups(n) + [] == Ups(n);
    assert Ups(m)[0] == "..";
  }

  /** `../..` becomes `..`. */
  lemma DotDotWitness(path: string)
    requires path == "../.."
    ensures CodeText(path) == ".." && Normal(path) == path
  {
    TwoUps(2);
    UnmatchedUpsHalve(2);
  }

  lemma TwoUps(n: nat)
    requires n == 2
    ensures Render(false, Ups(n)) == "../.." && Render(false, Ups(n - 1)) == ".."
  {
    RenderUps(n - 2);
    RenderUps(n - 1);
  }

  lemma RenderUps(n: nat)
    ensures Render(false, Ups(n + 1)) == if n == 0 then ".." else Render(false, Ups(n)) + "/" + ".."
  {
    assert Ups(n + 1) == Ups(n) + [".."];
    RenderSnoc(false, Ups(n), "..");
  }

  // ---- Against the reference: absolute paths

  /** The `..` at `i` is met with more than 256 names open, and the path does not come back to the
      root after it. */
  ghost predicate LossAt(cs: seq<string>, i: nat)
    requires i < |cs|
  {
    cs[i] == ".." && Depth(true, cs, i) > LEVELS && forall j :: i < j <= |cs| ==> Depth(true, cs, j) > 0
  }

  ghost predicate LosesNames(cs: seq<string>) {
    exists i :: 0 <= i < |cs| && LossAt(cs, i)
  }

  lemma LossAtStep(cs: seq<string>, c: string, i: nat)
    requires i < |cs|
    ensures LossAt(cs + [c], i) <==> LossAt(cs, i) && Depth(true, cs + [c], |cs| + 1) > 0
  {
    DepthStep(true, cs, c);
  }

  lemma LosesNamesStep(cs: seq<string>, c: string)
    ensures LosesNames(cs + [c]) <==>
            && Depth(true, cs + [c], |cs| + 1) > 0
            && (LosesNames(cs) || (c == ".." && Depth(true, cs, |cs|) > LEVELS))
  {
    var cs' := cs + [c];
    assert cs'[..|cs|] == cs[..|cs|];
    assert LossAt(cs', |cs|) <==> c == ".." && Depth(true, cs, |cs|) > LEVELS && Depth(true, cs', |cs| + 1) > 0;
    forall i: nat | i < |cs|
      ensures LossAt(cs', i) <==> LossAt(cs, i) && Depth(true, cs', |cs| + 1) > 0
    {
      LossAtStep(cs, c, i);
    }
  }

  /** The code's names are never more than the reference's, and differ exactly when names were lost. */
  lemma {:induction false} AbsoluteTracks(cs: seq<string>)
    ensures var s, r := CodeRun(true, cs), Reduce(true, cs);
            && s.ups == 0 && !s.marked && r.ups == 0
            && |s.names| <= |r.names|
            && (LosesNames(cs) <==> |s.names| < |r.names|)
            && (!LosesNames(cs) <==> s.names == r.names)
  {
    if cs != [] {
      var init, c := cs[..|cs| - 1], cs[|cs| - 1];
      AbsoluteTracks(init);
      LosesNamesStep(init, c);
      assert init + [c] == cs && cs[..|cs|] == cs && init[..|init|] == init;
    }
  }

  /** On absolute paths the limited reduction is the reference exactly when no names are lost. */
  lemma LimitedAbsoluteIff(cs: seq<string>)
    ensures Limited(true, cs) == Reduce(true, cs) <==> !LosesNames(cs)
  {
    AbsoluteTracks(cs);
    CodeIs(true, cs);
  }

  /** On absolute paths of any depth, the result is the reference exactly when no names are lost. */
  lemma AbsoluteNormalIff(path: string)
    requires IsAbs(path)
    ensures CodeText(path) == Normal(path) <==> !LosesNames(Components(path))
  {
    var cs := Components(path);
    var s, r := CodeRun(true, cs), Reduce(true, cs);
    AbsoluteTracks(cs);
    ComponentsValid(path);
    ReducedShape(true, cs);
    CodeShape(true, cs);
    assert Written(s) == s.names && Ups(r.ups) + r.names == r.names;
    ComponentsOfRender(true, s.names);
    ComponentsOfRender(true, r.names);
  }

  lemma DeepCode(abs: bool, names: seq<string>)
    requires AllNames(names) && |names| > LEVELS
    ensures CodeRun(abs, names + [".."]) == Code(0, false, names[..LEVELS - 1])
  {
    assert CodeRun(abs, names) == Code(0, false, names) by {
      NamesRun(abs, Code(0, false, []), [], names);
      assert [] + names == names;
    }
    RunSnoc(abs, names, "..");
  }

  lemma DeepReduce(abs: bool, names: seq<string>)
    requires AllNames(names) && names != []
    ensures Reduce(abs, names + [".."]) == Reduced(0, names[..|names| - 1])
  {
    ReduceKeeps(abs, 0, names);
    assert Ups(0) + names == names;
    ReduceSnoc(abs, names, "..");
  }

  lemma DeepText(path: string, names: seq<string>)
    requires AllNames(names) && |names| > LEVELS && Components(path) == names + [".."]
    ensures CodeText(path) == Render(IsAbs(path), names[..LEVELS - 1])
  {
    var kept := names[..LEVELS - 1];
    DeepCode(IsAbs(path), names);
    CodeTextIs(path);
    assert Ups(0) + kept == kept;
  }

  lemma DeepNormal(path: string, names: seq<string>)
    requires AllNames(names) && |names| > 1 && Components(path) == names + [".."]
    ensures Normal(path) == Render(IsAbs(path), names[..|names| - 1])
  {
    var right := names[..|names| - 1];
    DeepReduce(IsAbs(path), names);
    RenderEnd(IsAbs(path), right);
    assert Ups(0) + right == right;
  }

  /** Every path of more than 256 names and one `..` loses names: only 255 are left. */
  lemma DeepPathLoses(abs: bool, names: seq<string>)
    requires AllNames(names) && |names| > 256
    ensures var path := Render(abs, names + [".."]);
            && IsAbs(path) == abs
            && CodeText(path) == Render(abs, names[..255])
            && Normal(path) == Render(abs, names[..|names| - 1])
            && CodeText(path) != Normal(path)
  {
    var path := Render(abs, names + [".."]);
    assert AllComponents(names + [".."]) by { assert IsComponent(".."); }
    ComponentsOfRender(abs, names + [".."]);
    DeepText(path, names);
    DeepNormal(path, names);
    ComponentsOfRender(abs, names[..LEVELS - 1]);
    ComponentsOfRender(abs, names[..|names| - 1]);
  }

  /** Such paths exist, for every length. */
  lemma DeepPathWitness(abs: bool, n: nat)
    requires n > 256
    ensures var path := Render(abs, seq(n, _ => "a") + [".."]); IsAbs(path) == abs && CodeText(path) != Normal(path)
  {
    assert IsName("a");
    DeepPathLoses(abs, seq(n, _ => "a"));
  }

  // ---- What every result guarantees

  /** Optional root, then `..`s only if relative, then names; or the lone `.`. */
  ghost predicate Canonical(t: string) {
    || t == "."
    || exists abs: bool, ups: nat, names: seq<string> :: IsRendering(t, abs, ups, names)
  }

  ghost predicate IsRendering(t: string, abs: bool, ups: nat, names: seq<string>) {
    t != [] && t == Render(abs, Ups(ups) + names) && AllNames(names) && (abs ==> ups == 0)
  }

  /** A result ends up in canonical form for every input, and is absolute exactly when the input is. */
  lemma ResultIsCanonical(path: string)
    ensures Canonical(CodeText(path)) && IsAbs(CodeText(path)) == IsAbs(path)
  {
    var abs, cs := IsAbs(path), Components(path);
    var s := CodeRun(abs, cs);
    ComponentsValid(path);
    CodeShape(abs, cs);
    CodeTextIs(path);
    ComponentsOfRender(abs, Written(s));
    RenderEnd(abs, Written(s));
    if !abs && Written(s) == ["\\"] {
      BackslashDot();
      assert IsRendering(CodeText(path), false, 0, ["\\."]);
    } else if abs || Written(s) != [] {
      assert IsRendering(CodeText(path), abs, s.ups, s.names);
    }
  }

  lemma BackslashDot()
    ensures Render(false, Ups(0) + ["\\."]) == "\\."
  {
    assert ["\\."][..0] == [];
    assert Ups(0) + ["\\."] == ["\\."];
  }

  /** The result is at most as long as the input, or one character for the empty input, except
      that the path `\` becomes two characters long. */
  lemma ResultLength(path: string)
    ensures |CodeText(path)| > (if path == [] then 1 else |path|) <==> path == "\\"
  {
    var abs, cs := IsAbs(path), Components(path);
    var w := Written(CodeRun(abs, cs));
    OutputFits(path, |cs|);
    assert cs[..|cs|] == cs;
    CodeTextIs(path);
    if !abs && w == ["\\"] {
      OnlyBackslash(path);
    } else if path == "\\" {
      OneComponent(path);
    }
  }

  /** Only the path `\` itself is one character long and reduces to it. */
  lemma OnlyBackslash(path: string)
    requires !IsAbs(path) && Written(CodeRun(false, Components(path))) == ["\\"]
    ensures |path| <= 1 <==> path == "\\"
  {
    if |path| == 1 {
      OneComponent(path);
    }
  }

  lemma OneComponent(path: string)
    requires |path| == 1 && !IsAbs(path)
    ensures Written(CodeRun(false, Components(path))) == if path == "." then [] else [path]
  {
    ComponentsSingle(path);
    assert Components(path) == [path] && [path][..0] == [];
    assert CodeRun(false, [path]) == CodeStep(false, Code(0, false, []), path);
    assert path != "..";
    assert Ups(0) + [path] == [path] && [] + [path] == [path];
  }

  lemma {:induction false} NamesRun(abs: bool, s: Code, ups: seq<string>, names: seq<string>)
    requires s == CodeRun(abs, ups) && AllNames(names)
    ensures CodeRun(abs, ups + names) == s.(names := s.names + names)
    decreases |names|
  {
    if names == [] {
      assert ups + names == ups;
    } else {
      var init, c := names[..|names| - 1], names[|names| - 1];
      NamesRun(abs, s, ups, init);
      assert IsName(c);
      RunSnoc(abs, ups + init, c);
      assert ups + names == ups + init + [c] && s.names + names == s.names + init + [c];
    }
  }

  lemma RunSnoc(abs: bool, cs: seq<string>, c: string)
    ensures CodeRun(abs, cs + [c]) == CodeStep(abs, CodeRun(abs, cs), c)
  {
    assert (cs + [c])[..|cs|] == cs;
  }

  /** Normalizing again changes nothing on absolute paths of any depth, and on relative paths exactly
      when at most two `..`s are left unmatched, lost names counting as cancelled. */
  lemma IdempotentIff(path: string)
    ensures IsAbs(path) ==> CodeText(CodeText(path)) == CodeText(path)
    ensures !IsAbs(path) ==>
              (CodeText(CodeText(path)) == CodeText(path) <==> UpsAtMost(Components(path), 2))
    ensures !IsAbs(path) && NeverOverfull(Components(path)) ==>
              (CodeText(CodeText(path)) == CodeText(path) <==> Reduce(false, Components(path)).ups <= 2)
  {
    var abs, cs := IsAbs(path), Components(path);
    ComponentsValid(path);
    CodeShape(abs, cs);
    CodeTextIs(path);
    RerunResult(abs, CodeRun(abs, cs));
    if !abs {
      CodeIs(false, cs);
      LimitedUpsIff(cs, 2);
      NothingLostIff(cs);
    }
  }

  /** `../../..` becomes `../..`, and that becomes `..`. */
  lemma NotIdempotentWitness(path: string)
    requires path == "../../.."
    ensures CodeText(path) == "../.." && CodeText(CodeText(path)) == ".."
  {
    ThreeUps(3);
    UnmatchedUpsHalve(3);
    UnmatchedUpsHalve(2);
  }

  lemma ThreeUps(n: nat)
    requires n == 3
    ensures Render(false, Ups(n)) == "../../.." && Render(false, Ups(n - 1)) == "../.." && Render(false, Ups(n - 2)) == ".."
  {
    TwoUps(n - 1);
    RenderUps(n - 1);
    assert "../.." + "/" + ".." == "../../..";
  }

  lemma RerunResult(abs: bool, s: Code)
    requires AllNames(s.names) && AllComponents(Written(s)) && (abs ==> s.ups == 0)
    ensures var t := TextOf(abs, Written(s)); CodeText(t) == t <==> s.ups <= 1
  {
    if !abs && Written(s) == [] {
      NameStable(".");
    } else if !abs && Written(s) == ["\\"] {
      NameStable("\\.");
      assert Written(s)[0] != "..";
    } else {
      RerunRendering(abs, s);
    }
  }

  /** A single component other than `..` and a backslash comes out unchanged. */
  lemma NameStable(c: string)
    requires IsComponent(c) && c != ".." && c != "\\"
    ensures CodeText(c) == c
  {
    ComponentsSingle(c);
    CodeTextIs(c);
    RenderOne(c);
    assert [c][..0] == [];
    assert CodeRun(false, [c]) == CodeStep(false, Code(0, false, []), c);
    assert Ups(0) + [c] == [c] && [] + [c] == [c];
  }

  lemma RerunRendering(abs: bool, s: Code)
    requires AllNames(s.names) && AllComponents(Written(s)) && (abs ==> s.ups == 0)
    requires abs || (Written(s) != [] && Written(s) != ["\\"])
    ensures var t := Render(abs, Written(s)); CodeText(t) == t <==> s.ups <= 1
  {
    ComponentsOfRender(abs, Written(s));
    CodeTextIs(Render(abs, Written(s)));
    if abs {
      NamesRun(true, Code(0, false, []), [], s.names);
      assert Written(s) == s.names && [] + s.names == s.names;
    } else {
      RerunWritten(s);
      HalvedUps(s.ups, s.names);
    }
  }

  lemma RerunWritten(s: Code)
    requires AllNames(s.names) && Written(s) != [] && Written(s) != ["\\"]
    ensures var w := Ups((s.ups + 1) / 2) + s.names;
            Written(CodeRun(false, Written(s))) == w && w != [] && w != ["\\"]
  {
    UpsRun(s.ups);
    NamesRun(false, CodeRun(false, Ups(s.ups)), Ups(s.ups), s.names);
    assert [] + s.names == s.names;
    if s.ups > 0 {
      assert (Ups((s.ups + 1) / 2) + s.names)[0] == "..";
    }
  }
}
