/** The path functions on character buffers (src/fs.c, POSIX branches). */
module Path {
  import opened Options
  import opened PathSpec
  import opened PathCode
  import opened PathProps
  import opened PathSplit

  /** WritesPastEnd: the source would write its terminator outside the buffer. */
  datatype Status = Done | Invalid | Overflow | WritesPastEnd

  /** `buf` holds the C string `t`. */
  ghost predicate Holds(buf: array<char>, t: string)
    reads buf
  {
    |t| < buf.Length && buf[..|t|] == t && buf[|t|] == '\0'
  }

  // ---- Normalization

  /** Where saved cursor `k` points: before name `k - Mark(s)`, or after the marked `..`. */
  ghost function CursorAt(abs: bool, s: Code, k: nat): nat
    requires k < Saved(s)
  {
    |Render(abs, Ups(s.ups) + s.names[..if k < Mark(s) then 0 else k - Mark(s)])|
  }

  ghost predicate Cursors(ends: seq<nat>, abs: bool, s: Code) {
    |ends| == Saved(s) && forall k: nat :: k < |ends| ==> ends[k] == CursorAt(abs, s, k)
  }

  lemma PopRendering(abs: bool, s: Code)
    requires Saved(s) > 0
    ensures CursorAt(abs, s, Saved(s) - 1) == |Render(abs, Written(Pop(s)))|
    ensures Render(abs, Written(Pop(s))) <= Render(abs, Written(s))
  {
    WrittenPop(s);
    var w, w' := Written(s), Written(Pop(s));
    assert w' == w[..|w'|];
    RenderPrefix(abs, w, |w'|);
    if s.names == [] {
      assert s.names[..0] == [];
    }
  }

  lemma PopKeepsCursor(abs: bool, s: Code, k: nat)
    requires Saved(s) > 0 && k < Saved(s) - 1
    ensures Saved(Pop(s)) == Saved(s) - 1 && CursorAt(abs, Pop(s), k) == CursorAt(abs, s, k)
  {
    var j := if k < Mark(s) then 0 else k - Mark(s);
    assert s.names != [] && Pop(s).names[..j] == s.names[..j];
  }

  lemma CursorsBelow(ends: seq<nat>, abs: bool, s: Code)
    requires Saved(s) > 0 && |ends| == Saved(s) - 1
    requires forall k: nat :: k < |ends| ==> ends[k] == CursorAt(abs, s, k)
    ensures Cursors(ends, abs, Pop(s))
  {
    forall k: nat | k < |ends|
      ensures ends[k] == CursorAt(abs, Pop(s), k)
    {
      PopKeepsCursor(abs, s, k);
    }
  }

  lemma CursorsPop(ends: seq<nat>, abs: bool, s: Code)
    requires Cursors(ends, abs, s) && Saved(s) > 0
    ensures Cursors(ends[..|ends| - 1], abs, Pop(s))
    ensures var end, t := ends[|ends| - 1], Render(abs, Written(s));
            end <= |t| && t[..end] == Render(abs, Written(Pop(s)))
  {
    var n := |ends| - 1;
    assert ends[n] == CursorAt(abs, s, n);
    PopRendering(abs, s);
    var below := ends[..n];
    assert forall k: nat :: k < n ==> below[k] == ends[k];
    CursorsBelow(below, abs, s);
  }

  lemma CursorsPush(ends: seq<nat>, abs: bool, s: Code, c: string)
    requires Cursors(ends, abs, s)
    ensures var s' := s.(names := s.names + [c]);
            Cursors(ends + if |ends| < LEVELS then [|Render(abs, Written(s))|] else [], abs, s')
  {
    var s' := s.(names := s.names + [c]);
    assert ends + [] == ends;
    assert s'.names[..|s.names|] == s.names;
    forall k: nat | k < |ends|
      ensures ends[k] == CursorAt(abs, s', k)
    {
      assert ends[k] == CursorAt(abs, s, k);
      var j := if k < Mark(s) then 0 else k - Mark(s);
      assert s'.names[..j] == s.names[..j];
    }
  }

  /** memcpy into the buffer. */
  method Copy(buf: array<char>, at: nat, c: string)
    requires at + |c| <= buf.Length
    modifies buf
    ensures buf[..at + |c|] == old(buf[..at]) + c
    ensures forall i :: at + |c| <= i < buf.Length ==> buf[i] == old(buf[i])
  {
    for j := 0 to |c|
      invariant buf[..at + j] == old(buf[..at]) + c[..j]
      invariant forall i :: at + j <= i < buf.Length ==> buf[i] == old(buf[i])
    {
      buf[at + j] := c[j];
    }
  }

  /** Writes a separator if one is needed, and then the component. */
  method AppendComponent(buf: array<char>, out: nat, c: string, ghost abs: bool, ghost w: seq<string>) returns (end: nat)
    requires AllComponents(w) && IsComponent(c)
    requires out <= buf.Length && buf[..out] == Render(abs, w)
    requires |Render(abs, w + [c])| <= buf.Length
    modifies buf
    ensures end == |Render(abs, w + [c])| && buf[..end] == Render(abs, w + [c])
  {
    RenderSnoc(abs, w, c);
    RenderEnd(abs, w);
    ghost var t, sep := Render(abs, w), if w == [] then "" else "/";
    assert out > 0 ==> buf[out - 1] == t[out - 1];
    end := out;
    if end != 0 && !IsSep(buf[end - 1]) {
      Copy(buf, end, "/");
      end := end + 1;
    }
    assert buf[..end] == t + sep;
    Copy(buf, end, c);
    end := end + |c|;
  }

  /** `if (ncomp < 256) comp_ends[ncomp++] = end` */
  method SaveCursor(compEnds: array<nat>, ncomp: nat, end: nat) returns (ncomp': nat)
    requires compEnds.Length == LEVELS && ncomp <= LEVELS
    modifies compEnds
    ensures ncomp' <= LEVELS
    ensures compEnds[..ncomp'] == old(compEnds[..ncomp]) + if ncomp < LEVELS then [end] else []
  {
    ncomp' := ncomp;
    if ncomp < LEVELS {
      compEnds[ncomp] := end;
      ncomp' := ncomp + 1;
    }
  }

  /** `out = comp_ends[--ncomp]` */
  method PopCursor(compEnds: array<nat>, ncomp: nat, ghost abs: bool, ghost s: Code) returns (out: nat, ncomp': nat)
    requires 0 < ncomp <= compEnds.Length && Cursors(compEnds[..ncomp], abs, s)
    ensures ncomp' == ncomp - 1 && Cursors(compEnds[..ncomp'], abs, Pop(s))
    ensures var t := Render(abs, Written(s)); out <= |t| && t[..out] == Render(abs, Written(Pop(s)))
  {
    ncomp' := ncomp - 1;
    out := compEnds[ncomp'];
    CursorsPop(compEnds[..ncomp], abs, s);
    assert compEnds[..ncomp][..ncomp'] == compEnds[..ncomp'];
  }

  lemma FirstCursor(abs: bool, s: Code, end: nat)
    requires Saved(s) == 0 && !abs
    requires end == |Render(abs, Written(CodeStep(abs, s, "..")))|
    ensures Written(CodeStep(abs, s, "..")) == Written(s) + [".."]
    ensures Cursors([end], abs, CodeStep(abs, s, ".."))
  {
    var s' := CodeStep(abs, s, "..");
    assert Ups(s'.ups) + s'.names[..0] == Written(s');
  }

  /** The branch for `..`. */
  method WriteDotDot(buf: array<char>, compEnds: array<nat>, out: nat, ncomp: nat, isAbs: bool, ghost s: Code)
    returns (out': nat, ncomp': nat)
    requires compEnds.Length == LEVELS && ncomp <= LEVELS && AllComponents(Written(s))
    requires out <= buf.Length && buf[..out] == Render(isAbs, Written(s))
    requires Cursors(compEnds[..ncomp], isAbs, s)
    requires |Render(isAbs, Written(CodeStep(isAbs, s, "..")))| <= buf.Length
    modifies buf, compEnds
    ensures out' <= buf.Length && ncomp' <= LEVELS
    ensures buf[..out'] == Render(isAbs, Written(CodeStep(isAbs, s, "..")))
    ensures Cursors(compEnds[..ncomp'], isAbs, CodeStep(isAbs, s, ".."))
  {
    out', ncomp' := out, ncomp;
    if ncomp > 0 {
      out', ncomp' := PopCursor(compEnds, ncomp, isAbs, s);
      assert buf[..out][..out'] == buf[..out'];
    } else if !isAbs {
      FirstCursor(isAbs, s, |Render(isAbs, Written(CodeStep(isAbs, s, "..")))|);
      assert IsComponent("..");
      out' := AppendComponent(buf, out, "..", isAbs, Written(s));
      ncomp' := SaveCursor(compEnds, ncomp, out');
      assert compEnds[..ncomp'] == [out'];
    }
  }

  /** The branch for a name. */
  method WriteName(buf: array<char>, compEnds: array<nat>, out: nat, ncomp: nat, isAbs: bool, c: string, ghost s: Code)
    returns (out': nat, ncomp': nat)
    requires compEnds.Length == LEVELS && ncomp <= LEVELS && AllComponents(Written(s)) && IsName(c)
    requires out <= buf.Length && buf[..out] == Render(isAbs, Written(s))
    requires Cursors(compEnds[..ncomp], isAbs, s)
    requires |Render(isAbs, Written(CodeStep(isAbs, s, c)))| <= buf.Length
    modifies buf, compEnds
    ensures out' <= buf.Length && ncomp' <= LEVELS
    ensures buf[..out'] == Render(isAbs, Written(CodeStep(isAbs, s, c)))
    ensures Cursors(compEnds[..ncomp'], isAbs, CodeStep(isAbs, s, c))
  {
    CursorsPush(compEnds[..ncomp], isAbs, s, c);
    WrittenSnoc(s, c);
    out' := AppendComponent(buf, out, c, isAbs, Written(s));
    ncomp' := SaveCursor(compEnds, ncomp, out);
  }

  /** One turn of the loop, for component `c`. */
  method WriteComponent(buf: array<char>, compEnds: array<nat>, out: nat, ncomp: nat, isAbs: bool, c: string, ghost s: Code)
    returns (out': nat, ncomp': nat)
    requires compEnds.Length == LEVELS && ncomp <= LEVELS && AllComponents(Written(s)) && IsComponent(c)
    requires out <= buf.Length && buf[..out] == Render(isAbs, Written(s))
    requires Cursors(compEnds[..ncomp], isAbs, s)
    requires |Render(isAbs, Written(CodeStep(isAbs, s, c)))| <= buf.Length
    modifies buf, compEnds
    ensures out' <= buf.Length && ncomp' <= LEVELS
    ensures buf[..out'] == Render(isAbs, Written(CodeStep(isAbs, s, c)))
    ensures Cursors(compEnds[..ncomp'], isAbs, CodeStep(isAbs, s, c))
  {
    if c == "." {
      out', ncomp' := out, ncomp; // skipped
    } else if c == ".." {
      out', ncomp' := WriteDotDot(buf, compEnds, out, ncomp, isAbs, s);
    } else {
      out', ncomp' := WriteName(buf, compEnds, out, ncomp, isAbs, c, s);
    }
  }

  method SkipSeps(path: string, from: nat) returns (p: nat)
    requires from <= |path|
    ensures from <= p <= |path| && (p < |path| ==> !IsSep(path[p]))
    ensures Components(path[p..]) == Components(path[from..])
  {
    p := from;
    while p < |path| && IsSep(path[p])
      invariant from <= p <= |path|
      invariant Components(path[p..]) == Components(path[from..])
    {
      assert path[p..][1..] == path[p + 1..];
      p := p + 1;
    }
  }

  method ScanComponent(path: string, start: nat) returns (p: nat)
    requires start < |path| && !IsSep(path[start])
    ensures start < p <= |path|
    ensures IsComponent(path[start..p])
    ensures Components(path[start..]) == [path[start..p]] + Components(path[p..])
  {
    p := start;
    while p < |path| && !IsSep(path[p])
      invariant start <= p <= |path|
      invariant forall i :: start <= i < p ==> !IsSep(path[i])
    {
      p := p + 1;
    }
    var s := path[start..];
    SegLenIs(s, p - start);
    assert s[..p - start] == path[start..p] && s[p - start..] == path[p..];
  }

  /** The buffer receives `CodeText(path)` for every path and every buffer that passes the size
      check, with one exception: the path `\` and a buffer of exactly two bytes. */
  method NormalizePath(buf: array<char>, path: string) returns (status: Status)
    modifies buf
    ensures status == Invalid <==> buf.Length == 0
    ensures status == Overflow <==> 0 < buf.Length < (if path == [] then 2 else |path| + 1)
    ensures status == WritesPastEnd <==> path == "\\" && buf.Length == 2
    ensures status == Done ==> Holds(buf, CodeText(path))
  {
    if buf.Length == 0 {
      return Invalid;
    }
    var minOut := if |path| == 0 then 2 else |path| + 1;
    if minOut > buf.Length {
      return Overflow;
    }
    var isAbs := IsAbs(path);
    var out, p := 0, 0;
    if isAbs {
      Copy(buf, 0, "/");
      out := 1;
      p := SkipSeps(path, 0);
    }
    assert path[0..] == path;
    out := WriteComponents(buf, out, path, p, isAbs);
    out := AppendDot(buf, out, isAbs);
    assert buf[..out] == CodeText(path);
    ResultLength(path);
    if out >= buf.Length {
      OnlyPastEnd(path, buf.Length);
      return WritesPastEnd;
    }
    buf[out] := '\0';
    return Done;
  }

  lemma OnlyPastEnd(path: string, size: nat)
    requires size > |path| && size >= 2 && |CodeText(path)| >= size
    ensures path == "\\" && size == 2
  {
    ResultLength(path);
    BackslashLength();
  }

  lemma BackslashLength()
    ensures |CodeText("\\")| == 2
  {
    CodeTextIs("\\");
    OneComponent("\\");
  }

  /** The final test. */
  method AppendDot(buf: array<char>, out: nat, isAbs: bool) returns (end: nat)
    requires out <= buf.Length && buf.Length >= 2
    modifies buf
    ensures end <= buf.Length && buf[..end] == Finish(isAbs, old(buf[..out]))
  {
    end := out;
    if out == 0 || (out == 1 && (buf[0] == '/' || buf[0] == '\\')) {
      if !isAbs {
        Copy(buf, out, ".");
        end := out + 1;
      }
    }
  }

  /** The loop over components. */
  method WriteComponents(buf: array<char>, startOut: nat, path: string, start: nat, isAbs: bool) returns (out: nat)
    requires buf.Length > |path| && start <= |path| && isAbs == IsAbs(path)
    requires start < |path| ==> !IsSep(path[start])
    requires startOut <= buf.Length && buf[..startOut] == Root(isAbs)
    requires Components(path[start..]) == Components(path)
    modifies buf
    ensures out <= |path| && buf[..out] == Render(isAbs, Written(CodeRun(isAbs, Components(path))))
  {
    var compEnds := new nat[LEVELS](_ => 0);
    var p: nat, ncomp: nat := start, 0;
    out := startOut;
    ghost var cs := Components(path);
    ghost var k: nat := 0;
    ghost var s := Code(0, false, []);
    assert Written(s) == [];
    while p < |path|
      invariant p <= |path| && (p < |path| ==> !IsSep(path[p]))
      invariant k <= |cs| && Components(path[p..]) == cs[k..] && s == CodeRun(isAbs, cs[..k])
      invariant compEnds.Length == LEVELS && ncomp <= LEVELS && out <= buf.Length
      invariant buf[..out] == Render(isAbs, Written(s))
      invariant Cursors(compEnds[..ncomp], isAbs, s)
      decreases |path| - p
    {
      var q := ScanComponent(path, p);
      var c := path[p..q];
      TurnFits(path, k, c, path[q..]);
      out, ncomp := WriteComponent(buf, compEnds, out, ncomp, isAbs, c, s);
      s, k := CodeStep(isAbs, s, c), k + 1;
      p := SkipSeps(path, q);
    }
    assert path[p..] == [] && cs[..k] == cs;
    OutputFits(path, k);
  }

  /** What the turn for component `k` may rely on. */
  lemma TurnFits(path: string, k: nat, c: string, rest: string)
    requires k <= |Components(path)| && Components(path)[k..] == [c] + Components(rest)
    ensures var abs, cs := IsAbs(path), Components(path);
            var s := CodeRun(abs, cs[..k]);
            && k < |cs| && cs[k + 1..] == Components(rest)
            && AllComponents(Written(s))
            && CodeRun(abs, cs[..k + 1]) == CodeStep(abs, s, c)
            && |Render(abs, Written(CodeStep(abs, s, c)))| <= |path|
  {
    var abs, cs := IsAbs(path), Components(path);
    assert cs[k..][0] == cs[k] && cs[k..][1..] == cs[k + 1..];
    assert cs[..k + 1] == cs[..k] + [c];
    RunSnoc(abs, cs[..k], c);
    OutputFits(path, k + 1);
    ComponentsValid(path);
    CodeShape(abs, cs[..k]);
  }

  // ---- Splitting and joining

  method Basename(path: string) returns (last: nat)
    ensures last == BaseStart(path)
  {
    last := 0;
    var p: nat := 0;
    while p < |path|
      invariant p <= |path|
      invariant last == AfterSep(path, if p == |path| && p > 0 then p - 1 else p)
    {
      if IsSep(path[p]) && p + 1 < |path| {
        last := p + 1;
      }
      p := p + 1;
    }
  }

  method DirnameInto(buf: array<char>, path: string) returns (status: Status)
    modifies buf
    ensures status == Invalid <==> buf.Length == 0
    ensures status == Overflow <==> 0 < buf.Length <= |Dirname(path)|
    ensures status != WritesPastEnd
    ensures status == Done ==> Holds(buf, Dirname(path))
    ensures status != Done ==> buf[..] == old(buf[..])
  {
    if buf.Length == 0 {
      return Invalid;
    }
    var lastSep: Option<nat> := None;
    for p := 0 to |path|
      invariant lastSep == LastSep(path, p)
    {
      if IsSep(path[p]) {
        lastSep := Some(p);
      }
    }
    if lastSep.None? {
      if buf.Length < 2 {
        return Overflow;
      }
      buf[0] := '.';
      buf[1] := '\0';
      return Done;
    }
    var len := if lastSep.value == 0 then 1 else lastSep.value;
    if len + 1 > buf.Length {
      return Overflow;
    }
    Copy(buf, 0, path[..len]);
    buf[len] := '\0';
    return Done;
  }

  method JoinInto(buf: array<char>, base: string, part: string) returns (status: Status)
    modifies buf
    ensures status == Invalid <==> buf.Length == 0
    ensures status == Overflow <==> 0 < buf.Length <= |JoinPaths(base, part)|
    ensures status != WritesPastEnd
    ensures status == Done ==> Holds(buf, JoinPaths(base, part))
    ensures status != Done ==> buf[..] == old(buf[..])
  {
    if buf.Length == 0 {
      return Invalid;
    }
    if IsAbs(part) {
      if |part| + 1 > buf.Length {
        return Overflow;
      }
      Copy(buf, 0, part);
      buf[|part|] := '\0';
      return Done;
    }
    var needSep := |base| > 0 && !IsSep(base[|base| - 1]) && |part| > 0;
    var needed := |base| + (if needSep then 1 else 0) + |part| + 1;
    if needed > buf.Length {
      return Overflow;
    }
    Copy(buf, 0, base);
    var blen := |base|;
    if needSep {
      Copy(buf, blen, "/");
      blen := blen + 1;
    }
    Copy(buf, blen, part);
    buf[blen + |part|] := '\0';
    return Done;
  }
}
