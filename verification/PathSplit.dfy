/** Splitting a path and joining it again (src/fs.c). */
module PathSplit {
  import opened Options
  import opened PathSpec
  import opened PathCode
  import opened PathProps

  /** The last separator among the first `n` characters. */
  function LastSep(path: string, n: nat): (last: Option<nat>)
    requires n <= |path|
    ensures last.None? ==> forall j :: 0 <= j < n ==> !IsSep(path[j])
    ensures last.Some? ==> last.value < n && IsSep(path[last.value])
    ensures last.Some? ==> forall j :: last.value < j < n ==> !IsSep(path[j])
  {
    if n == 0 then None
    else if IsSep(path[n - 1]) then Some(n - 1)
    else LastSep(path, n - 1)
  }

  function AfterSep(path: string, n: nat): (i: nat)
    requires n <= |path|
    ensures i <= n
  {
    match LastSep(path, n)
    case None => 0
    case Some(k) => k + 1
  }

  /** Where the base name starts: a trailing separator does not end a component. */
  function BaseStart(path: string): (i: nat)
    ensures i <= |path|
  {
    AfterSep(path, if path == [] then 0 else |path| - 1)
  }

  function Dirname(path: string): string {
    match LastSep(path, |path|)
    case None => "."
    case Some(k) => path[..if k == 0 then 1 else k]
  }

  function JoinPaths(base: string, part: string): string {
    if IsAbs(part) then part
    else if base != [] && !IsSep(base[|base| - 1]) && part != [] then base + "/" + part
    else base + part
  }

  predicate EndsInSep(path: string) {
    path != [] && IsSep(path[|path| - 1])
  }

  // ---- What the two halves and the join are

  predicate NoSep(s: string) {
    forall i :: 0 <= i < |s| ==> s[i] != '/'
  }

  lemma LastSepAt(path: string, n: nat, k: nat)
    requires k < n <= |path| && path[k] == '/' && forall j :: k < j < n ==> path[j] != '/'
    ensures LastSep(path, n) == Some(k)
  {
  }

  lemma NoLastSep(path: string, n: nat)
    requires n <= |path| && forall j :: 0 <= j < n ==> path[j] != '/'
    ensures LastSep(path, n) == None
  {
  }

  /** The directory of a path is what stands before its last separator, the root if that is nothing,
      and `.` without a separator. */
  lemma DirnameIs(dir: string, base: string)
    requires NoSep(base)
    ensures Dirname(base) == "."
    ensures Dirname(dir + "/" + base) == if dir == "" then "/" else dir
  {
    var path := dir + "/" + base;
    NoLastSep(base, |base|);
    LastSepAt(path, |path|, |dir|);
    assert path[..|dir|] == dir && path[..1] == [path[0]];
  }

  /** The base name is what stands behind the last separator, whether or not another one ends the path. */
  lemma BasenameIs(dir: string, base: string)
    requires NoSep(base) && base != []
    ensures base[BaseStart(base)..] == base
    ensures var path := dir + "/" + base; path[BaseStart(path)..] == base
    ensures var path := dir + "/" + base + "/"; path[BaseStart(path)..] == base + "/"
  {
    var path := dir + "/" + base;
    NoLastSep(base, |base| - 1);
    LastSepAt(path, |path| - 1, |dir|);
    assert path[|dir| + 1..] == base;
    LastSepAt(path + "/", |path|, |dir|);
    assert (path + "/")[|dir| + 1..] == base + "/";
  }

  /** An absolute part replaces the base; otherwise exactly one separator stands between two parts,
      unless the base brings it, and none is added to an empty one. */
  lemma JoinIs(base: string, part: string)
    ensures part != [] && part[0] == '/' ==> JoinPaths(base, part) == part
    ensures part == [] ==> JoinPaths(base, part) == base
    ensures base == [] ==> JoinPaths(base, part) == part
    ensures part != [] && part[0] != '/' && base != [] ==>
              JoinPaths(base, part) == if base[|base| - 1] == '/' then base + part else base + "/" + part
  {
    assert base + [] == base && [] + part == part;
  }

  // ---- Same components, same result

  lemma {:induction false} DotRun(abs: bool, cs: seq<string>)
    ensures CodeRun(abs, ["."] + cs) == CodeRun(abs, cs)
  {
    if cs == [] {
      assert ["."] + cs == ["."] && ["."][..0] == [];
    } else {
      var init, c := cs[..|cs| - 1], cs[|cs| - 1];
      DotRun(abs, init);
      assert ["."] + cs == ["."] + init + [c] && cs == init + [c];
      RunSnoc(abs, ["."] + init, c);
    }
  }

  lemma SameText(p: string, q: string)
    requires IsAbs(p) == IsAbs(q)
    requires Components(p) == Components(q) || Components(p) == ["."] + Components(q)
    ensures CodeText(p) == CodeText(q)
  {
    DotRun(IsAbs(q), Components(q));
  }

  // ---- The round trip

  lemma NoSepRejoins(path: string)
    requires path != [] && LastSep(path, |path|).None?
    ensures CodeText(JoinPaths(".", path)) == CodeText(path)
  {
    ComponentsSplit(".", path);
    ComponentsSingle(".");
    SameText("." + "/" + path, path);
  }

  lemma DoubleSep(a: string, b: string)
    ensures Components(a + "/" + ("/" + b)) == Components(a + "/" + b)
  {
    ComponentsSplit(a, "/" + b);
    ComponentsSplit(a, b);
    assert ("/" + b)[1..] == b;
  }

  lemma EndingInSepRejoins(a: string, part: string)
    requires part != [] && !IsSep(part[0])
    ensures CodeText(JoinPaths(a + "/", part)) == CodeText(a + "/" + "/" + part)
  {
    assert a + "/" + "/" + part == a + "/" + ("/" + part);
    DoubleSep(a, part);
    SameText(a + "/" + part, a + "/" + ("/" + part));
  }

  lemma PartsRejoin(dir: string, part: string)
    requires part != [] && !IsSep(part[0])
    ensures CodeText(JoinPaths(if dir == [] then "/" else dir, part)) == CodeText(dir + "/" + part)
  {
    if dir == [] {
      assert dir + "/" + part == "/" + part;
    } else if IsSep(dir[|dir| - 1]) {
      var a := dir[..|dir| - 1];
      assert dir == a + "/";
      EndingInSepRejoins(a, part);
    }
  }

  lemma CutAt(path: string, k: nat)
    requires k < |path| && IsSep(path[k])
    ensures path == path[..k] + "/" + path[k + 1..]
  {
  }

  /** A path with a separator that does not end in one: what comes before and after the last. */
  lemma CutAtSep(path: string, k: nat)
    requires path != [] && !EndsInSep(path) && LastSep(path, |path|) == Some(k)
    ensures BaseStart(path) == k + 1 && k + 1 < |path| && !IsSep(path[k + 1])
    ensures Dirname(path) == (if path[..k] == [] then "/" else path[..k])
  {
    if k == 0 {
      assert path[..1] == [path[0]];
    }
  }

  /** Joining the two halves of a path that does not end in a separator, and normalizing, gives what
      normalizing the path gives. */
  lemma SplitThenJoin(path: string)
    requires !EndsInSep(path)
    ensures CodeText(JoinPaths(Dirname(path), path[BaseStart(path)..])) == CodeText(path)
  {
    if path == [] {
      ComponentsSingle(".");
      SameText(".", path);
    } else if LastSep(path, |path|).None? {
      assert BaseStart(path) == 0 && path[0..] == path;
      NoSepRejoins(path);
    } else {
      var k := LastSep(path, |path|).value;
      CutAtSep(path, k);
      CutAt(path, k);
      PartsRejoin(path[..k], path[k + 1..]);
    }
  }

  /** The base name of a path not ending in a separator is one component. */
  lemma BaseIsComponent(path: string)
    requires path != [] && !EndsInSep(path)
    ensures IsComponent(path[AfterSep(path, |path|)..])
  {
    var i := AfterSep(path, |path|);
    assert i < |path|;
    assert forall j :: 0 <= j < |path| - i ==> path[i..][j] == path[i + j];
  }

  lemma TrailingSplit(path: string)
    requires path != [] && !EndsInSep(path)
    ensures var p := path + "/";
            Dirname(p) == path && p[BaseStart(p)..] == path[AfterSep(path, |path|)..] + "/"
  {
    LastSepExtends(path, "/", |path|);
    var p := path + "/";
    assert LastSep(p, |p|) == Some(|path|) && p[..|path|] == path;
  }

  lemma TrailingComponents(s: string)
    ensures Components(s + "/") == Components(s)
  {
    ComponentsSplit(s, []);
    assert s + "/" + [] == s + "/";
  }

  lemma TrailingSepRepeats(path: string)
    requires path != [] && !EndsInSep(path)
    ensures var p, base := path + "/", path[AfterSep(path, |path|)..];
            var joined := JoinPaths(Dirname(p), p[BaseStart(p)..]);
            && Components(p) == Components(path) && Components(joined) == Components(path) + [base]
            && IsAbs(p) == IsAbs(path) == IsAbs(joined) && IsComponent(base)
  {
    var base := path[AfterSep(path, |path|)..];
    TrailingSplit(path);
    BaseIsComponent(path);
    TrailingComponents(path);
    TrailingComponents(base);
    ComponentsSingle(base);
    ComponentsSplit(path, base + "/");
    assert !IsAbs(base + "/") && path + "/" + (base + "/") == JoinPaths(path, base + "/");
  }

  lemma {:induction false} LastSepExtends(path: string, more: string, n: nat)
    requires n <= |path|
    ensures LastSep(path + more, n) == LastSep(path, n)
  {
    if n > 0 {
      LastSepExtends(path, more, n - 1);
    }
  }

  // ---- Paths ending in a separator

  /** The components a text shows. */
  lemma ComponentsOfText(abs: bool, w: seq<string>)
    requires AllComponents(w)
    ensures Components(TextOf(abs, w)) ==
            if !abs && w == [] then ["."] else if !abs && w == ["\\"] then ["\\."] else w
  {
    if !abs && w == [] {
      ComponentsSingle(".");
    } else if !abs && w == ["\\"] {
      ComponentsSingle("\\.");
    } else {
      ComponentsOfRender(abs, w);
    }
  }

  lemma TextsDiffer(abs: bool, w: seq<string>, w': seq<string>)
    requires AllComponents(w) && AllComponents(w') && |w| != |w'|
    requires "." !in w && "." !in w'
    ensures TextOf(abs, w) != TextOf(abs, w')
  {
    ComponentsOfText(abs, w);
    ComponentsOfText(abs, w');
    assert "." in ["."];
  }

  /** A further component `c` leaves the text as it is exactly when it is `.`, or a `..` that finds no
      name and is dropped: at an absolute root, or behind a marked `..`. */
  lemma SameStepIff(abs: bool, s: Code, c: string)
    requires AllNames(s.names) && AllComponents(Written(s)) && IsComponent(c)
    ensures TextOf(abs, Written(CodeStep(abs, s, c))) == TextOf(abs, Written(s))
            <==> c == "." || (c == ".." && s.names == [] && (abs || s.marked))
  {
    var s' := CodeStep(abs, s, c);
    if Written(s') != Written(s) {
      UpsEnd(s.ups, s.names);
      assert AllNames(s'.names) && |Written(s')| != |Written(s)|;
      UpsEnd(s'.ups, s'.names);
      UpsThenNames(s'.ups, s'.names);
      TextsDiffer(abs, Written(s'), Written(s));
    }
  }

  lemma OneSepIff(path: string)
    requires path != [] && !EndsInSep(path)
    ensures var p, base := path + "/", path[AfterSep(path, |path|)..];
            var s := CodeRun(IsAbs(path), Components(path));
            CodeText(JoinPaths(Dirname(p), p[BaseStart(p)..])) == CodeText(p)
            <==> base == "." || (base == ".." && s.names == [] && (IsAbs(path) || s.marked))
  {
    var p, base, abs, cs := path + "/", path[AfterSep(path, |path|)..], IsAbs(path), Components(path);
    TrailingSepRepeats(path);
    ComponentsValid(path);
    CodeShape(abs, cs);
    RunSnoc(abs, cs, base);
    SameStepIff(abs, CodeRun(abs, cs), base);
    CodeTextIs(p);
    CodeTextIs(JoinPaths(Dirname(p), p[BaseStart(p)..]));
  }

  /** Two separators at the end, or the root alone: the base name is a separator, so it is all the
      join keeps. */
  lemma BareSepJoins(path: string)
    requires path == [] || EndsInSep(path)
    ensures var p := path + "/"; JoinPaths(Dirname(p), p[BaseStart(p)..]) == "/"
  {
    var p := path + "/";
    assert p[|path|..] == "/";
    assert BaseStart(p) == |path|;
  }

  lemma RootText()
    ensures CodeText("/") == "/"
  {
    CodeTextIs("/");
    assert "/"[1..] == [];
  }

  lemma RootIff(p: string)
    ensures CodeText(p) == "/" <==> IsAbs(p) && CodeRun(true, Components(p)).names == []
  {
    var abs, cs := IsAbs(p), Components(p);
    var s := CodeRun(abs, cs);
    ResultIsCanonical(p);
    ComponentsValid(p);
    CodeShape(abs, cs);
    CodeTextIs(p);
    if abs {
      assert Written(s) == s.names;
      ComponentsOfRender(true, s.names);
      assert "/"[1..] == [];
    }
  }

  /** Whether a path survives splitting, joining and normalizing: always without a separator at the
      end; with one, exactly when its last component is `.`, or a `..` that finds no name and is
      dropped; with more, or for the root, exactly when the path leads to the root. */
  predicate SurvivesSplit(p: string) {
    var abs, l := IsAbs(p), Limited(IsAbs(p), Components(p));
    if !EndsInSep(p) then true
    else
      var q := p[..|p| - 1];
      if q == [] || EndsInSep(q) then abs && l.names == []
      else
        var base := q[AfterSep(q, |q|)..];
        base == "." || (base == ".." && l.names == [] && (abs || l.ups % 2 == 1))
  }

  /** Over every path: joining its two halves and normalizing gives what normalizing the path gives
      exactly when the path survives in that sense. */
  lemma SplitThenJoinIff(p: string)
    ensures CodeText(JoinPaths(Dirname(p), p[BaseStart(p)..])) == CodeText(p) <==> SurvivesSplit(p)
  {
    if !EndsInSep(p) {
      SplitThenJoin(p);
    } else {
      var q := p[..|p| - 1];
      assert p == q + "/";
      CodeIs(IsAbs(p), Components(p));
      if q == [] || EndsInSep(q) {
        BareSepJoins(q);
        RootText();
        RootIff(p);
      } else {
        OneSepIff(q);
        TrailingSepRepeats(q);
      }
    }
  }

  /** For `a//` the halves are `a/` and `/`, and joining them leads to the root. */
  lemma TwoSepsWitness(p: string)
    requires p == "a//"
    ensures CodeText(p) == "a" && CodeText(JoinPaths(Dirname(p), p[BaseStart(p)..])) == "/"
  {
    assert p == "a/" + "/" && "a" + "/" == "a/";
    BareSepJoins("a/");
    RootText();
    NameStable("a");
    TrailingComponents("a");
    TrailingComponents("a/");
    SameText(p, "a");
  }
}
