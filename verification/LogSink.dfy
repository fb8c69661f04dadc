/** The file sink: when it rotates, and what its files hold after any run of writes (src/log.c). */
module LogSink {
  import opened Options
  import opened LogFiles

  datatype RollMode = RollNone | RollSize | RollDaily | RollHourly

  datatype Config = Config(path: string, mode: RollMode, maxBytes: nat, maxFiles: int)

  /** One call of the sink: the formatted record, the local day of the year and hour of its time, and
      whether the current file can be reopened if this call rotates. */
  datatype Call = Call(day: int, hour: int, text: Text, reopens: bool)

  /** `open` says that the sink holds an open file. */
  datatype Sink = Sink(files: Files, open: bool, size: nat, day: int, hour: int)

  function Content(fs: Files, path: string, i: nat): Text {
    match Slot(fs, path, i)
    case None => []
    case Some(text) => text
  }

  /** A sink whose file was opened successfully, for appending or for overwriting. */
  function Opened(cfg: Config, fs: Files, append: bool, day: int, hour: int): Sink {
    var text := if append then Content(fs, cfg.path, 0) else [];
    Sink(fs[cfg.path := text], true, |text|, day, hour)
  }

  /** Whether the call rotates first. */
  predicate Rolls(cfg: Config, s: Sink, c: Call) {
    match cfg.mode
    case RollNone => false
    case RollSize => cfg.maxBytes > 0 && s.size >= cfg.maxBytes
    case RollDaily => c.day != s.day
    case RollHourly => c.hour != s.hour
  }

  function Rotate(cfg: Config, s: Sink, reopens: bool): Sink {
    Sink(Rotated(s.files, cfg.path, cfg.maxFiles, reopens), reopens, 0, s.day, s.hour)
  }

  function MaybeRotate(cfg: Config, s: Sink, c: Call): Sink {
    if Rolls(cfg, s, c) then
      var r := Rotate(cfg, s, c.reopens);
      r.(day := if cfg.mode.RollDaily? then c.day else r.day, hour := if cfg.mode.RollHourly? then c.hour else r.hour)
    else s
  }

  /** Appends to the open file. */
  function Append(cfg: Config, s: Sink, text: Text): Sink {
    if s.open then s.(files := s.files[cfg.path := Content(s.files, cfg.path, 0) + text], size := s.size + |text|) else s
  }

  function Write(cfg: Config, s: Sink, c: Call): Sink {
    Append(cfg, MaybeRotate(cfg, s, c), c.text)
  }

  function Run(cfg: Config, s: Sink, calls: seq<Call>): Sink {
    if calls == [] then s else Write(cfg, Run(cfg, s, calls[..|calls| - 1]), calls[|calls| - 1])
  }

  // ---- The stream, cut at rotations

  type Chunk = seq<Call>

  function Flat(chunk: Chunk): Text {
    if chunk == [] then [] else Flat(chunk[..|chunk| - 1]) + chunk[|chunk| - 1].text
  }

  /** The calls of all chunks, one after another. */
  function Records(chunks: seq<Chunk>): Chunk {
    if chunks == [] then [] else Records(chunks[..|chunks| - 1]) + chunks[|chunks| - 1]
  }

  /** The calls, grouped by the file each wrote to: `done` has been rotated away, `cur` is the current file. */
  datatype Cuts = Cuts(done: seq<Chunk>, cur: Chunk)

  /** `first` is what the file holds when the sink opens it: for appending, calls of earlier runs,
      each with the day and hour it was made at; nothing for overwriting. */
  predicate Opening(cfg: Config, fs: Files, append: bool, first: Chunk) {
    if append then Flat(first) == Content(fs, cfg.path, 0) else first == []
  }

  function CutsOf(cfg: Config, s: Sink, first: Chunk, calls: seq<Call>): Cuts {
    if calls == [] then Cuts([], first)
    else
      var init, c := calls[..|calls| - 1], calls[|calls| - 1];
      var cuts := CutsOf(cfg, s, first, init);
      if Rolls(cfg, Run(cfg, s, init), c) then Cuts(cuts.done + [cuts.cur], [c])
      else Cuts(cuts.done, cuts.cur + [c])
  }

  lemma FlatSnoc(chunk: Chunk, c: Call)
    ensures Flat(chunk + [c]) == Flat(chunk) + c.text
  {
    assert (chunk + [c])[..|chunk|] == chunk;
  }

  lemma {:induction false} FlatConcat(a: Chunk, b: Chunk)
    ensures Flat(a + b) == Flat(a) + Flat(b)
    decreases |b|
  {
    if b == [] {
      assert a + b == a;
    } else {
      var init, c := b[..|b| - 1], b[|b| - 1];
      FlatConcat(a, init);
      assert a + b == a + init + [c];
      FlatSnoc(a + init, c);
      Assoc(Flat(a), Flat(init), c.text);
    }
  }

  lemma Assoc(a: Text, b: Text, c: Text)
    ensures a + (b + c) == (a + b) + c
  {
  }

  lemma RecordsSnoc(chunks: seq<Chunk>, chunk: Chunk)
    ensures Records(chunks + [chunk]) == Records(chunks) + chunk
  {
    assert (chunks + [chunk])[..|chunks|] == chunks;
  }

  /** The chunks' calls are the calls of the stream: each record is in exactly one, whole and in order. */
  lemma {:induction false} CutsAreStream(cfg: Config, s: Sink, first: Chunk, calls: seq<Call>)
    ensures var cuts := CutsOf(cfg, s, first, calls);
            Records(cuts.done) + cuts.cur == first + calls
  {
    if calls != [] {
      var init, c := calls[..|calls| - 1], calls[|calls| - 1];
      var cuts := CutsOf(cfg, s, first, init);
      CutsAreStream(cfg, s, first, init);
      RecordsSnoc(cuts.done, cuts.cur);
      assert first + calls == first + init + [c];
      assert Records(cuts.done) + (cuts.cur + [c]) == Records(cuts.done) + cuts.cur + [c];
    }
  }

  // ---- What the files hold

  /** Archives kept: the limit, or 1000 where the source says unlimited. */
  function Keep(maxFiles: int): nat {
    Top(maxFiles) + 1
  }

  ghost predicate NoArchives(fs: Files, cfg: Config) {
    forall i: nat :: 1 <= i <= Keep(cfg.maxFiles) ==> Slot(fs, cfg.path, i) == None
  }

  /** Every call that rotates can reopen the file. */
  ghost predicate RollsReopen(cfg: Config, s: Sink, calls: seq<Call>) {
    forall i :: 0 <= i < |calls| ==> ReopensAt(cfg, s, calls, i)
  }

  ghost predicate ReopensAt(cfg: Config, s: Sink, calls: seq<Call>, i: nat)
    requires i < |calls|
  {
    Rolls(cfg, Run(cfg, s, calls[..i]), calls[i]) ==> calls[i].reopens
  }

  lemma RollsReopenStep(cfg: Config, s: Sink, calls: seq<Call>)
    requires calls != []
    ensures var init, c := calls[..|calls| - 1], calls[|calls| - 1];
            RollsReopen(cfg, s, calls) <==>
            RollsReopen(cfg, s, init) && (Rolls(cfg, Run(cfg, s, init), c) ==> c.reopens)
  {
    var n := |calls| - 1;
    assert ReopensAt(cfg, s, calls, n) <==> (Rolls(cfg, Run(cfg, s, calls[..n]), calls[n]) ==> calls[n].reopens);
    forall i | 0 <= i < n
      ensures ReopensAt(cfg, s, calls, i) <==> ReopensAt(cfg, s, calls[..n], i)
    {
      assert calls[..n][..i] == calls[..i];
    }
  }

  function ExpectedSlot(cuts: Cuts, i: nat): Option<Text> {
    if i == 0 then Some(Flat(cuts.cur))
    else if i <= |cuts.done| then Some(Flat(cuts.done[|cuts.done| - i]))
    else None
  }

  /** The current file holds the current chunk, archive `i` the chunk rotated away `i` rotations ago. */
  ghost predicate Holds(cfg: Config, s: Sink, cuts: Cuts) {
    && s.open
    && s.size == |Flat(cuts.cur)|
    && forall i: nat :: i <= Keep(cfg.maxFiles) ==> Slot(s.files, cfg.path, i) == ExpectedSlot(cuts, i)
  }

  lemma AppendHolds(cfg: Config, s: Sink, cuts: Cuts, c: Call)
    requires Holds(cfg, s, cuts)
    ensures Holds(cfg, Append(cfg, s, c.text), Cuts(cuts.done, cuts.cur + [c]))
  {
    FlatSnoc(cuts.cur, c);
    assert Slot(s.files, cfg.path, 0) == ExpectedSlot(cuts, 0);
    var s' := Append(cfg, s, c.text);
    forall i: nat | i <= Keep(cfg.maxFiles)
      ensures Slot(s'.files, cfg.path, i) == ExpectedSlot(Cuts(cuts.done, cuts.cur + [c]), i)
    {
      assert Slot(s.files, cfg.path, i) == ExpectedSlot(cuts, i);
      ReopenSlot(s.files, cfg.path, Content(s.files, cfg.path, 0) + c.text, i);
    }
  }

  lemma RotateSlot(cfg: Config, s: Sink, cuts: Cuts, i: nat)
    requires Holds(cfg, s, cuts) && i <= Keep(cfg.maxFiles)
    ensures Slot(Rotate(cfg, s, true).files, cfg.path, i) == ExpectedSlot(Cuts(cuts.done + [cuts.cur], []), i)
  {
    RotatedSlot(s.files, cfg.path, cfg.maxFiles, true, i);
    if i > 0 {
      ShiftedIs(s.files, cfg.path, cfg.maxFiles, i);
      assert Slot(s.files, cfg.path, i - 1) == ExpectedSlot(cuts, i - 1);
      assert Slot(s.files, cfg.path, i) == ExpectedSlot(cuts, i);
    }
  }

  lemma RotateHolds(cfg: Config, s: Sink, cuts: Cuts)
    requires Holds(cfg, s, cuts)
    ensures Holds(cfg, Rotate(cfg, s, true), Cuts(cuts.done + [cuts.cur], []))
  {
    forall i: nat | i <= Keep(cfg.maxFiles)
      ensures Slot(Rotate(cfg, s, true).files, cfg.path, i) == ExpectedSlot(Cuts(cuts.done + [cuts.cur], []), i)
    {
      RotateSlot(cfg, s, cuts, i);
    }
  }

  lemma WriteHolds(cfg: Config, s: Sink, cuts: Cuts, c: Call)
    requires Holds(cfg, s, cuts) && (Rolls(cfg, s, c) ==> c.reopens)
    ensures Holds(cfg, Write(cfg, s, c),
                  if Rolls(cfg, s, c) then Cuts(cuts.done + [cuts.cur], [c]) else Cuts(cuts.done, cuts.cur + [c]))
  {
    if Rolls(cfg, s, c) {
      RotateHolds(cfg, s, cuts);
      assert Holds(cfg, MaybeRotate(cfg, s, c), Cuts(cuts.done + [cuts.cur], []));
      AppendHolds(cfg, MaybeRotate(cfg, s, c), Cuts(cuts.done + [cuts.cur], []), c);
      assert [] + [c] == [c];
    } else {
      AppendHolds(cfg, s, cuts, c);
    }
  }

  /** From a state its files account for, any run of writes leads to one. */
  lemma {:induction false} RunHolds(cfg: Config, s: Sink, first: Chunk, calls: seq<Call>)
    requires Holds(cfg, s, Cuts([], first)) && RollsReopen(cfg, s, calls)
    ensures Holds(cfg, Run(cfg, s, calls), CutsOf(cfg, s, first, calls))
  {
    if calls != [] {
      var init := calls[..|calls| - 1];
      RollsReopenStep(cfg, s, calls);
      RunHolds(cfg, s, first, init);
      WriteHolds(cfg, Run(cfg, s, init), CutsOf(cfg, s, first, init), calls[|calls| - 1]);
    }
  }

  lemma OpenedHolds(cfg: Config, fs: Files, append: bool, day: int, hour: int, first: Chunk)
    requires NoArchives(fs, cfg) && Opening(cfg, fs, append, first)
    ensures Holds(cfg, Opened(cfg, fs, append, day, hour), Cuts([], first))
  {
    forall i: nat | i <= Keep(cfg.maxFiles)
      ensures Slot(fs[cfg.path := Flat(first)], cfg.path, i) == ExpectedSlot(Cuts([], first), i)
    {
      ReopenSlot(fs, cfg.path, Flat(first), i);
    }
  }

  /** Archives `n` down to 1, and then the current file. */
  function Retained(fs: Files, path: string, n: nat): Text {
    if n == 0 then Content(fs, path, 0) else Content(fs, path, n) + Retained(fs, path, n - 1)
  }

  /** The calls in the file of slot `n`. */
  function InSlot(cuts: Cuts, n: nat): Chunk {
    if n == 0 then cuts.cur else if n <= |cuts.done| then cuts.done[|cuts.done| - n] else []
  }

  /** The calls in the last `n` chunks rotated away and in the current one. */
  function Kept(cuts: Cuts, n: nat): Chunk {
    if n == 0 then cuts.cur else InSlot(cuts, n) + Kept(cuts, n - 1)
  }

  lemma ContentIs(cfg: Config, s: Sink, cuts: Cuts, n: nat)
    requires Holds(cfg, s, cuts) && n <= Keep(cfg.maxFiles)
    ensures Content(s.files, cfg.path, n) == Flat(InSlot(cuts, n))
  {
    assert Slot(s.files, cfg.path, n) == ExpectedSlot(cuts, n);
  }

  lemma {:induction false} RetainedIs(cfg: Config, s: Sink, cuts: Cuts, n: nat)
    requires Holds(cfg, s, cuts) && n <= Keep(cfg.maxFiles)
    ensures Retained(s.files, cfg.path, n) == Flat(Kept(cuts, n))
  {
    ContentIs(cfg, s, cuts, n);
    if n > 0 {
      RetainedIs(cfg, s, cuts, n - 1);
      FlatConcat(InSlot(cuts, n), Kept(cuts, n - 1));
      assert [] + Kept(cuts, n - 1) == Kept(cuts, n - 1);
    }
  }

  /** The chunks rotated out of the last of `n` archives. */
  function Gone(cuts: Cuts, n: nat): seq<Chunk> {
    if n >= |cuts.done| then [] else cuts.done[..|cuts.done| - n]
  }

  lemma {:induction false} GoneAndKept(cuts: Cuts, n: nat)
    ensures Records(Gone(cuts, n)) + Kept(cuts, n) == Records(cuts.done) + cuts.cur
  {
    if n == 0 {
      assert cuts.done[..|cuts.done|] == cuts.done;
    } else {
      GoneAndKept(cuts, n - 1);
      if n <= |cuts.done| {
        GoneStep(cuts, n, |cuts.done| - n);
      } else {
        assert [] + Kept(cuts, n - 1) == Kept(cuts, n - 1);
      }
    }
  }

  lemma GoneStep(cuts: Cuts, n: nat, k: nat)
    requires 0 < n && n + k == |cuts.done|
    ensures Records(Gone(cuts, n)) + Kept(cuts, n) == Records(Gone(cuts, n - 1)) + Kept(cuts, n - 1)
  {
    assert cuts.done[..k + 1] == cuts.done[..k] + [cuts.done[k]];
    RecordsSnoc(cuts.done[..k], cuts.done[k]);
    assert Gone(cuts, n) == cuts.done[..k] && Gone(cuts, n - 1) == cuts.done[..k + 1];
    Regroup(Records(cuts.done[..k]), cuts.done[k], Kept(cuts, n - 1));
  }

  lemma Regroup(a: Chunk, b: Chunk, c: Chunk)
    ensures a + (b + c) == (a + b) + c
  {
  }

  /** After any run of a sink opened without archives, archives and current file together hold the
      records from number `k` on, where `k` is the end of a file rotated away; all of them until one
      rotation more than archives are kept. */
  lemma RetainedIsSuffix(cfg: Config, fs: Files, append: bool, day: int, hour: int, first: Chunk, calls: seq<Call>, keep: nat)
    requires NoArchives(fs, cfg) && Opening(cfg, fs, append, first)
    requires RollsReopen(cfg, Opened(cfg, fs, append, day, hour), calls) && keep == Keep(cfg.maxFiles)
    ensures var start := Opened(cfg, fs, append, day, hour);
            var s, cuts := Run(cfg, start, calls), CutsOf(cfg, start, first, calls);
            var k := |Records(Gone(cuts, keep))|;
            && Holds(cfg, s, cuts)
            && k <= |first + calls|
            && Retained(s.files, cfg.path, keep) == Flat((first + calls)[k..])
            && (|cuts.done| <= keep ==> k == 0)
  {
    var start := Opened(cfg, fs, append, day, hour);
    var s, cuts := Run(cfg, start, calls), CutsOf(cfg, start, first, calls);
    OpenedHolds(cfg, fs, append, day, hour, first);
    RunHolds(cfg, start, first, calls);
    CutsAreStream(cfg, start, first, calls);
    GoneAndKept(cuts, keep);
    RetainedIs(cfg, s, cuts, keep);
    Behind(Records(Gone(cuts, keep)), Kept(cuts, keep));
  }

  lemma Behind(a: Chunk, b: Chunk)
    ensures (a + b)[|a|..] == b
  {
  }

  // ---- Where the cuts fall

  /** The size the sink keeps is the length of the current file, whatever archives there were. */
  ghost predicate CurrentHolds(cfg: Config, s: Sink, cur: Chunk) {
    s.open && s.size == |Flat(cur)| && Slot(s.files, cfg.path, 0) == Some(Flat(cur))
  }

  lemma WriteCurrent(cfg: Config, s: Sink, cur: Chunk, c: Call)
    requires CurrentHolds(cfg, s, cur) && (Rolls(cfg, s, c) ==> c.reopens)
    ensures CurrentHolds(cfg, Write(cfg, s, c), if Rolls(cfg, s, c) then [c] else cur + [c])
  {
    var s' := MaybeRotate(cfg, s, c);
    RotatedSlot(s.files, cfg.path, cfg.maxFiles, true, 0);
    FlatSnoc(cur, c);
    FlatSnoc([], c);
    assert [] + [c] == [c];
    ReopenSlot(s'.files, cfg.path, Content(s'.files, cfg.path, 0) + c.text, 0);
  }

  lemma {:induction false} RunCurrent(cfg: Config, s: Sink, first: Chunk, calls: seq<Call>)
    requires CurrentHolds(cfg, s, first) && RollsReopen(cfg, s, calls)
    ensures CurrentHolds(cfg, Run(cfg, s, calls), CutsOf(cfg, s, first, calls).cur)
  {
    if calls != [] {
      var init := calls[..|calls| - 1];
      RollsReopenStep(cfg, s, calls);
      RunCurrent(cfg, s, first, init);
      WriteCurrent(cfg, Run(cfg, s, init), CutsOf(cfg, s, first, init).cur, calls[|calls| - 1]);
    }
  }

  lemma OpenedCurrent(cfg: Config, fs: Files, append: bool, day: int, hour: int, first: Chunk)
    requires Opening(cfg, fs, append, first)
    ensures CurrentHolds(cfg, Opened(cfg, fs, append, day, hour), first)
  {
  }

  /** The limit was not reached before the chunk's last call. */
  predicate Filling(chunk: Chunk, maxBytes: nat) {
    chunk == [] || |Flat(chunk[..|chunk| - 1])| < maxBytes
  }

  /** In size mode every file rotated away is full, and was not before its last record; only what was
      in the first file before may have been too much already. */
  lemma {:induction false} SizeCuts(cfg: Config, s: Sink, first: Chunk, calls: seq<Call>)
    requires cfg.mode.RollSize? && cfg.maxBytes > 0
    requires CurrentHolds(cfg, s, first) && RollsReopen(cfg, s, calls)
    ensures var cuts := CutsOf(cfg, s, first, calls);
            && (forall k :: 0 <= k < |cuts.done| ==> |Flat(cuts.done[k])| >= cfg.maxBytes)
            && (forall k :: 0 <= k < |cuts.done| && (k > 0 || Filling(first, cfg.maxBytes)) ==> Filling(cuts.done[k], cfg.maxBytes))
            && (cuts.done != [] || Filling(first, cfg.maxBytes) ==> Filling(cuts.cur, cfg.maxBytes))
  {
    if calls != [] {
      var init, c := calls[..|calls| - 1], calls[|calls| - 1];
      var cuts := CutsOf(cfg, s, first, init);
      RollsReopenStep(cfg, s, calls);
      SizeCuts(cfg, s, first, init);
      RunCurrent(cfg, s, first, init);
      assert (cuts.cur + [c])[..|cuts.cur|] == cuts.cur;
      assert [c][..0] == [];
    }
  }

  lemma {:induction false} FullChunksCount(done: seq<Chunk>)
    requires forall k :: 0 <= k < |done| ==> |Flat(done[k])| > 0
    ensures |Flat(Records(done))| >= |done|
  {
    if done != [] {
      FullChunksCount(done[..|done| - 1]);
      FlatConcat(Records(done[..|done| - 1]), done[|done| - 1]);
    }
  }

  /** What is no longer in any file then has bytes. */
  lemma GoneHasBytes(cfg: Config, s: Sink, first: Chunk, calls: seq<Call>, keep: nat)
    requires cfg.mode.RollSize? && cfg.maxBytes > 0
    requires CurrentHolds(cfg, s, first) && RollsReopen(cfg, s, calls)
    requires |CutsOf(cfg, s, first, calls).done| > keep
    ensures |Flat(Records(Gone(CutsOf(cfg, s, first, calls), keep)))| > 0
  {
    SizeCuts(cfg, s, first, calls);
    FullChunksCount(Gone(CutsOf(cfg, s, first, calls), keep));
  }

  lemma GoneIsFirst(cfg: Config, s: Sink, first: Chunk, calls: seq<Call>, keep: nat)
    ensures var gone, stream := Records(Gone(CutsOf(cfg, s, first, calls), keep)), first + calls;
            |gone| <= |stream| && stream[..|gone|] == gone
  {
    CutsAreStream(cfg, s, first, calls);
    GoneAndKept(CutsOf(cfg, s, first, calls), keep);
  }

  /** In size mode the files still hold the whole stream exactly until one rotation more than archives
      are kept; so also for a sink documented as unlimited, which keeps 1000. */
  lemma WholeStreamIff(cfg: Config, fs: Files, append: bool, day: int, hour: int, first: Chunk, calls: seq<Call>, keep: nat)
    requires cfg.mode.RollSize? && cfg.maxBytes > 0
    requires NoArchives(fs, cfg) && Opening(cfg, fs, append, first)
    requires RollsReopen(cfg, Opened(cfg, fs, append, day, hour), calls) && keep == Keep(cfg.maxFiles)
    ensures var start := Opened(cfg, fs, append, day, hour);
            Retained(Run(cfg, start, calls).files, cfg.path, keep) == Flat(first + calls)
            <==> |CutsOf(cfg, start, first, calls).done| <= keep
  {
    var start := Opened(cfg, fs, append, day, hour);
    RetainedIsSuffix(cfg, fs, append, day, hour, first, calls, keep);
    if |CutsOf(cfg, start, first, calls).done| > keep {
      var gone := Records(Gone(CutsOf(cfg, start, first, calls), keep));
      OpenedCurrent(cfg, fs, append, day, hour, first);
      GoneHasBytes(cfg, start, first, calls, keep);
      GoneIsFirst(cfg, start, first, calls, keep);
      RestDiffers(first + calls, |gone|);
    }
  }

  lemma RestDiffers(stream: Chunk, k: nat)
    requires k <= |stream| && |Flat(stream[..k])| > 0
    ensures Flat(stream[k..]) != Flat(stream)
  {
    assert stream == stream[..k] + stream[k..];
    FlatConcat(stream[..k], stream[k..]);
  }

  predicate NoRolling(cfg: Config) {
    cfg.mode.RollNone? || (cfg.mode.RollSize? && cfg.maxBytes == 0)
  }

  /** Without a rolling mode, or in size mode without a size, every record stays in one file. */
  lemma {:induction false} NoRollingCuts(cfg: Config, s: Sink, first: Chunk, calls: seq<Call>)
    requires NoRolling(cfg)
    ensures CutsOf(cfg, s, first, calls) == Cuts([], first + calls)
  {
    if calls == [] {
      assert first + calls == first;
    } else {
      NoRollingCuts(cfg, s, first, calls[..|calls| - 1]);
      assert first + calls == first + calls[..|calls| - 1] + [calls[|calls| - 1]];
    }
  }

  /** That file then holds them all, and no other file changes. */
  lemma {:induction false} NoRollingFiles(cfg: Config, s: Sink, first: Chunk, calls: seq<Call>)
    requires NoRolling(cfg) && CurrentHolds(cfg, s, first)
    ensures Run(cfg, s, calls).files == s.files[cfg.path := Flat(first + calls)]
    ensures Run(cfg, s, calls).open
  {
    if calls == [] {
      assert first + calls == first;
    } else {
      var init, c := calls[..|calls| - 1], calls[|calls| - 1];
      NoRollingFiles(cfg, s, first, init);
      assert first + calls == first + init + [c];
      FlatSnoc(first + init, c);
    }
  }

  function Key(cfg: Config, c: Call): int {
    if cfg.mode.RollDaily? then c.day else c.hour
  }

  function SinkKey(cfg: Config, s: Sink): int {
    if cfg.mode.RollDaily? then s.day else s.hour
  }

  predicate AllAt(cfg: Config, chunk: Chunk, key: int) {
    forall i :: 0 <= i < |chunk| ==> Key(cfg, chunk[i]) == key
  }

  /** One key throughout. */
  predicate OneKey(cfg: Config, chunk: Chunk) {
    chunk == [] || AllAt(cfg, chunk, Key(cfg, chunk[0]))
  }

  function NextChunk(cuts: Cuts, k: nat): Chunk
    requires k < |cuts.done|
  {
    if k + 1 < |cuts.done| then cuts.done[k + 1] else cuts.cur
  }

  /** The key under which the sink wrote chunk `k`; `key` is the one it opened with. */
  function ChunkKey(cfg: Config, cuts: Cuts, k: nat, key: int): int
    requires k < |cuts.done|
  {
    if k == 0 || cuts.done[k] == [] then key else Key(cfg, cuts.done[k][0])
  }

  /** Every file but the first is of one key, and each starts with a record of another key than the
      file before. */
  ghost predicate CutByKey(cfg: Config, s: Sink, cuts: Cuts, key: int) {
    && (forall k :: 1 <= k < |cuts.done| ==> cuts.done[k] != [] && OneKey(cfg, cuts.done[k]))
    && (forall k :: 0 <= k < |cuts.done| ==>
          NextChunk(cuts, k) != [] && Key(cfg, NextChunk(cuts, k)[0]) != ChunkKey(cfg, cuts, k, key))
    && (if cuts.done == [] then SinkKey(cfg, s) == key else cuts.cur != [] && AllAt(cfg, cuts.cur, SinkKey(cfg, s)))
  }

  lemma StepCutByKey(cfg: Config, s: Sink, cuts: Cuts, c: Call, key: int)
    requires cfg.mode.RollDaily? || cfg.mode.RollHourly?
    requires CutByKey(cfg, s, cuts, key)
    ensures CutByKey(cfg, Write(cfg, s, c),
                     if Rolls(cfg, s, c) then Cuts(cuts.done + [cuts.cur], [c]) else Cuts(cuts.done, cuts.cur + [c]), key)
  {
    var cuts' := if Rolls(cfg, s, c) then Cuts(cuts.done + [cuts.cur], [c]) else Cuts(cuts.done, cuts.cur + [c]);
    forall k | 0 <= k < |cuts'.done|
      ensures NextChunk(cuts', k) != [] && Key(cfg, NextChunk(cuts', k)[0]) != ChunkKey(cfg, cuts', k, key)
    {
      if k < |cuts.done| {
        assert NextChunk(cuts, k) != [] && NextChunk(cuts', k)[0] == NextChunk(cuts, k)[0];
        assert ChunkKey(cfg, cuts', k, key) == ChunkKey(cfg, cuts, k, key);
      }
    }
  }

  /** In the daily and hourly modes every file after the first holds records of one day (or hour of the
      day) only, and successive files of different ones. */
  lemma {:induction false} TimedCuts(cfg: Config, s: Sink, first: Chunk, calls: seq<Call>)
    requires cfg.mode.RollDaily? || cfg.mode.RollHourly?
    ensures CutByKey(cfg, Run(cfg, s, calls), CutsOf(cfg, s, first, calls), SinkKey(cfg, s))
  {
    if calls != [] {
      var init := calls[..|calls| - 1];
      TimedCuts(cfg, s, first, init);
      StepCutByKey(cfg, Run(cfg, s, init), CutsOf(cfg, s, first, init), calls[|calls| - 1], SinkKey(cfg, s));
    }
  }

  /** The file the sink opened. */
  function FirstFile(cuts: Cuts): Chunk {
    if cuts.done == [] then cuts.cur else cuts.done[0]
  }

  /** To what it held, the sink adds calls with the key it opened with, and adds any exactly when the
      first call has that key. */
  ghost predicate Extended(cfg: Config, first: Chunk, calls: seq<Call>, cuts: Cuts, key: int) {
    var file := FirstFile(cuts);
    && first <= file
    && AllAt(cfg, file[|first|..], key)
    && (|file| == |first| <==> calls == [] || Key(cfg, calls[0]) != key)
    && (calls == [] ==> cuts.done == [])
    && (cuts.done == [] ==> |file| == |first| + |calls|)
  }

  lemma ExtendStep(cfg: Config, first: Chunk, calls: seq<Call>, cuts: Cuts, c: Call, key: int)
    requires Extended(cfg, first, calls, cuts, key)
    requires cuts.done == [] ==> Key(cfg, c) == key
    ensures Extended(cfg, first, calls + [c], Cuts(cuts.done, cuts.cur + [c]), key)
  {
    assert (calls + [c])[0] == if calls == [] then c else calls[0];
    if cuts.done == [] {
      assert (cuts.cur + [c])[|first|..] == cuts.cur[|first|..] + [c];
    }
  }

  lemma RollStep(cfg: Config, first: Chunk, calls: seq<Call>, cuts: Cuts, c: Call, key: int)
    requires Extended(cfg, first, calls, cuts, key)
    requires cuts.done == [] ==> Key(cfg, c) != key
    ensures Extended(cfg, first, calls + [c], Cuts(cuts.done + [cuts.cur], [c]), key)
  {
    assert (calls + [c])[0] == if calls == [] then c else calls[0];
  }

  lemma {:induction false} FirstFileIs(cfg: Config, s: Sink, first: Chunk, calls: seq<Call>)
    requires cfg.mode.RollDaily? || cfg.mode.RollHourly?
    ensures Extended(cfg, first, calls, CutsOf(cfg, s, first, calls), SinkKey(cfg, s))
  {
    if calls != [] {
      var init, c := calls[..|calls| - 1], calls[|calls| - 1];
      FirstFileIs(cfg, s, first, init);
      TimedCuts(cfg, s, first, init);
      assert calls == init + [c];
      if Rolls(cfg, Run(cfg, s, init), c) {
        RollStep(cfg, first, init, CutsOf(cfg, s, first, init), c, SinkKey(cfg, s));
      } else {
        ExtendStep(cfg, first, init, CutsOf(cfg, s, first, init), c, SinkKey(cfg, s));
      }
    }
  }

  /** In the daily and hourly modes every file, the first included, is of one key exactly when what the
      sink found in its file is, and is also of the key it opened with unless the first call rotates.
      The source takes that key from the time of opening, not from the file. */
  lemma EveryFileOneKeyIff(cfg: Config, s: Sink, first: Chunk, calls: seq<Call>)
    requires cfg.mode.RollDaily? || cfg.mode.RollHourly?
    ensures var cuts := CutsOf(cfg, s, first, calls);
            (forall k :: 0 <= k < |cuts.done| ==> OneKey(cfg, cuts.done[k])) && OneKey(cfg, cuts.cur)
            <==> && OneKey(cfg, first)
                 && (first == [] || calls == [] || Key(cfg, calls[0]) != SinkKey(cfg, s) || Key(cfg, first[0]) == SinkKey(cfg, s))
  {
    var cuts := CutsOf(cfg, s, first, calls);
    TimedCuts(cfg, s, first, calls);
    FirstFileIs(cfg, s, first, calls);
    ExtendsOneKey(cfg, first, FirstFile(cuts), SinkKey(cfg, s));
    assert cuts.done != [] ==> OneKey(cfg, cuts.cur);
  }

  lemma ExtendsOneKey(cfg: Config, first: Chunk, file: Chunk, key: int)
    requires first <= file && AllAt(cfg, file[|first|..], key)
    ensures OneKey(cfg, file) <==> OneKey(cfg, first) && (first == [] || |file| == |first| || Key(cfg, first[0]) == key)
  {
    var more := file[|first|..];
    assert file == first + more;
    if more == [] {
      assert file == first;
    } else if first != [] {
      assert Key(cfg, more[0]) == key && file[|first|] == more[0] && file[0] == first[0];
      assert OneKey(cfg, file) ==> forall i :: 0 <= i < |first| ==> Key(cfg, file[i]) == Key(cfg, first[i]);
    } else {
      assert file == more;
    }
  }

  /** So an appending daily sink puts a record of its day behind whatever older records it found. */
  lemma AppendMixesDays(cfg: Config, fs: Files, day: int, hour: int, c: Call)
    requires cfg.mode.RollDaily? && c.day == day
    ensures Write(cfg, Opened(cfg, fs, true, day, hour), c).files == fs[cfg.path := Content(fs, cfg.path, 0) + c.text]
  {
  }

  // ---- The hourly mode and the date

  predicate OneDay(chunk: Chunk) {
    forall i :: 0 <= i < |chunk| ==> chunk[i].day == chunk[0].day
  }

  predicate EveryFileOneDay(cuts: Cuts) {
    (forall k :: 0 <= k < |cuts.done| ==> OneDay(cuts.done[k])) && OneDay(cuts.cur)
  }

  /** Successive calls with the same hour are of the same day, and so is a first call with the hour of
      opening, and what was found in the file. */
  predicate HoursTellDays(first: Chunk, calls: seq<Call>, hour: int) {
    && (first != [] && calls != [] && calls[0].hour == hour ==> first[0].day == calls[0].day)
    && (forall i :: 0 < i < |calls| && calls[i - 1].hour == calls[i].hour ==> calls[i - 1].day == calls[i].day)
  }

  lemma HoursTellDaysStep(first: Chunk, calls: seq<Call>, c: Call, hour: int)
    requires calls != []
    ensures var last := calls[|calls| - 1];
            HoursTellDays(first, calls + [c], hour) <==>
            HoursTellDays(first, calls, hour) && (last.hour == c.hour ==> last.day == c.day)
  {
    var calls' := calls + [c];
    assert calls'[0] == calls[0] && calls'[|calls|] == c && calls'[|calls| - 1] == calls[|calls| - 1];
    if HoursTellDays(first, calls', hour) {
      forall i | 0 < i < |calls| && calls[i - 1].hour == calls[i].hour
        ensures calls[i - 1].day == calls[i].day
      {
        assert calls'[i - 1] == calls[i - 1] && calls'[i] == calls[i];
      }
    }
  }

  lemma OneDaySnoc(chunk: Chunk, c: Call)
    ensures OneDay(chunk + [c]) <==> OneDay(chunk) && (chunk != [] ==> chunk[|chunk| - 1].day == c.day)
  {
    var chunk' := chunk + [c];
    assert chunk'[|chunk|] == c;
    if OneDay(chunk') {
      forall i | 0 <= i < |chunk|
        ensures chunk[i].day == chunk[0].day
      {
        assert chunk'[i] == chunk[i];
      }
    }
  }

  /** Where a run of the hourly mode stands: the last call is the last record of the current file, and
      its hour is the sink's. */
  predicate AtLast(s: Sink, cuts: Cuts, calls: seq<Call>) {
    && calls != [] && cuts.cur != []
    && cuts.cur[|cuts.cur| - 1] == calls[|calls| - 1] && s.hour == calls[|calls| - 1].hour
  }

  lemma {:induction false} RunAtLast(cfg: Config, s: Sink, first: Chunk, calls: seq<Call>)
    requires cfg.mode.RollHourly? && calls != []
    ensures AtLast(Run(cfg, s, calls), CutsOf(cfg, s, first, calls), calls)
  {
    var init := calls[..|calls| - 1];
    if init != [] {
      RunAtLast(cfg, s, first, init);
    }
  }

  lemma RotateOneDay(cuts: Cuts, c: Call)
    ensures EveryFileOneDay(Cuts(cuts.done + [cuts.cur], [c])) <==> EveryFileOneDay(cuts)
  {
    var done := cuts.done + [cuts.cur];
    assert done[|cuts.done|] == cuts.cur;
    if forall k :: 0 <= k < |done| ==> OneDay(done[k]) {
      forall k | 0 <= k < |cuts.done|
        ensures OneDay(cuts.done[k])
      {
        assert done[k] == cuts.done[k];
      }
    }
  }

  /** Whether every file is of one day is told by the hours. */
  predicate DaysTold(cfg: Config, s: Sink, first: Chunk, calls: seq<Call>) {
    EveryFileOneDay(CutsOf(cfg, s, first, calls)) <==> OneDay(first) && HoursTellDays(first, calls, s.hour)
  }

  lemma FirstCallDay(cfg: Config, s: Sink, first: Chunk, c: Call)
    requires cfg.mode.RollHourly?
    ensures DaysTold(cfg, s, first, [c])
  {
    assert [c][..0] == [];
    assert CutsOf(cfg, s, first, []) == Cuts([], first) && Run(cfg, s, []) == s;
    if c.hour != s.hour {
      RotateOneDay(Cuts([], first), c);
    } else {
      OneDaySnoc(first, c);
    }
  }

  lemma LaterCallDay(cfg: Config, s: Sink, first: Chunk, calls: seq<Call>, c: Call)
    requires cfg.mode.RollHourly? && calls != []
    ensures EveryFileOneDay(CutsOf(cfg, s, first, calls + [c])) <==>
            && EveryFileOneDay(CutsOf(cfg, s, first, calls))
            && (calls[|calls| - 1].hour == c.hour ==> calls[|calls| - 1].day == c.day)
  {
    var cuts := CutsOf(cfg, s, first, calls);
    assert (calls + [c])[..|calls|] == calls;
    RunAtLast(cfg, s, first, calls);
    if Rolls(cfg, Run(cfg, s, calls), c) {
      RotateOneDay(cuts, c);
    } else {
      OneDaySnoc(cuts.cur, c);
    }
  }

  lemma DaysToldStep(cfg: Config, s: Sink, first: Chunk, calls: seq<Call>, c: Call)
    requires cfg.mode.RollHourly? && calls != [] && DaysTold(cfg, s, first, calls)
    ensures DaysTold(cfg, s, first, calls + [c])
  {
    LaterCallDay(cfg, s, first, calls, c);
    HoursTellDaysStep(first, calls, c, s.hour);
  }

  lemma {:induction false} AllDaysTold(cfg: Config, s: Sink, first: Chunk, calls: seq<Call>)
    requires cfg.mode.RollHourly?
    ensures DaysTold(cfg, s, first, calls)
  {
    if |calls| == 1 {
      FirstCallDay(cfg, s, first, calls[0]);
      assert calls == [calls[0]];
    } else if |calls| > 1 {
      var init, c := calls[..|calls| - 1], calls[|calls| - 1];
      AllDaysTold(cfg, s, first, init);
      DaysToldStep(cfg, s, first, init, c);
      assert calls == init + [c];
    }
  }

  /** The hourly mode looks at the hour alone. So every file is of one day exactly when what the sink
      found in its file is, and successive records with the same hour are always of the same day. */
  lemma HourlyFilesOneDayIff(cfg: Config, s: Sink, first: Chunk, calls: seq<Call>)
    requires cfg.mode.RollHourly?
    ensures EveryFileOneDay(CutsOf(cfg, s, first, calls)) <==> OneDay(first) && HoursTellDays(first, calls, s.hour)
  {
    AllDaysTold(cfg, s, first, calls);
  }

  /** Two records of the same hour on different days end up in one file. */
  lemma HourlyMixesDays(cfg: Config, fs: Files, day: int, hour: int, a: Call, b: Call)
    requires cfg.mode.RollHourly? && a.hour == hour == b.hour
    ensures Write(cfg, Write(cfg, Opened(cfg, fs, false, day, hour), a), b).files == fs[cfg.path := a.text + b.text]
  {
    assert [] + a.text == a.text;
  }

  // ---- A failed reopening

  /** In size mode a rotation that cannot reopen the file is the sink's last: no later call writes or
      rotates, whether or not the file could be opened again. */
  lemma {:induction false} FailedReopenIsFinal(cfg: Config, s: Sink, c: Call, later: seq<Call>)
    requires cfg.mode.RollSize? && Rolls(cfg, s, c) && !c.reopens
    ensures Run(cfg, Write(cfg, s, c), later) == Write(cfg, s, c)
  {
    if later != [] {
      FailedReopenIsFinal(cfg, s, c, later[..|later| - 1]);
    }
  }

  /** So in size mode the sink is open after a run exactly when every call that rotated could reopen. */
  lemma {:induction false} SizeOpenIff(cfg: Config, s: Sink, calls: seq<Call>)
    requires cfg.mode.RollSize? && s.open
    ensures Run(cfg, s, calls).open <==> RollsReopen(cfg, s, calls)
    ensures !Run(cfg, s, calls).open ==> Run(cfg, s, calls).size == 0
  {
    if calls != [] {
      SizeOpenIff(cfg, s, calls[..|calls| - 1]);
      RollsReopenStep(cfg, s, calls);
    }
  }

  /** In the daily and hourly modes it is silent only as long as the day (or hour) stays the same. */
  lemma {:induction false} SilentUntilNextKey(cfg: Config, s: Sink, calls: seq<Call>)
    requires (cfg.mode.RollDaily? || cfg.mode.RollHourly?) && !s.open
    requires AllAt(cfg, calls, SinkKey(cfg, s))
    ensures Run(cfg, s, calls) == s
  {
    if calls != [] {
      SilentUntilNextKey(cfg, s, calls[..|calls| - 1]);
    }
  }

  /** The first call with another one rotates, and if it can reopen the file the sink goes on with it. */
  lemma ResumesAtNextKey(cfg: Config, s: Sink, c: Call)
    requires (cfg.mode.RollDaily? || cfg.mode.RollHourly?) && Key(cfg, c) != SinkKey(cfg, s)
    ensures var s' := Write(cfg, s, c);
            && s'.open == c.reopens && SinkKey(cfg, s') == Key(cfg, c)
            && (c.reopens ==> CurrentHolds(cfg, s', [c]))
  {
    FlatSnoc([], c);
    assert [] + [c] == [c] && [] + c.text == c.text;
  }
}

/** The sink as the object it is in the source, with the file system it writes to as a field. */
module LogSinkObject {
  import opened LogFiles
  import Spec = LogSink

  class CprFileSink {
    const path: string
    const rollMode: Spec.RollMode
    const maxBytes: nat
    const maxFiles: int
    var file: bool // whether it holds an open file
    var currentSize: nat
    var currentDay: int
    var currentHour: int
    var files: Files

    function Settings(): Spec.Config {
      Spec.Config(path, rollMode, maxBytes, maxFiles)
    }

    function Value(): Spec.Sink
      reads this
    {
      Spec.Sink(files, file, currentSize, currentDay, currentHour)
    }

    /** `cpr_log_file_sink`, when the file opens; `day` and `hour` are of the current local time. */
    constructor (cfg: Spec.Config, append: bool, fs: Files, day: int, hour: int)
      ensures Settings() == cfg
      ensures Value() == Spec.Opened(cfg, fs, append, day, hour)
    {
      path, rollMode, maxBytes, maxFiles := cfg.path, cfg.mode, cfg.maxBytes, cfg.maxFiles;
      file := true;
      files := if append && cfg.path in fs then fs else fs[cfg.path := []];
      currentSize := 0;
      currentDay, currentHour := day, hour;
      new;
      if append {
        currentSize := |files[path]|;
        assert cfg.path in fs ==> fs[cfg.path := fs[cfg.path]] == fs;
      }
    }

    method Rotate(reopens: bool)
      modifies this
      ensures Value() == Spec.Rotate(Settings(), old(Value()), reopens)
    {
      file := false;
      if maxFiles > 0 {
        files := Remove(files, SlotName(path, maxFiles));
      }
      var top := if maxFiles > 0 then maxFiles - 1 else UNLIMITED_TOP;
      var i: nat := top;
      ghost var dropped := files;
      while i >= 1
        invariant ShiftSlots(files, path, i) == ShiftSlots(dropped, path, top)
        invariant !file && currentDay == old(currentDay) && currentHour == old(currentHour)
      {
        files := Rename(files, SlotName(path, i), SlotName(path, i + 1));
        i := i - 1;
      }
      files := Rename(files, path, SlotName(path, 1));
      if reopens {
        files := files[path := []];
        file := true;
      }
      currentSize := 0;
    }

    method MaybeRotate(msg: Spec.Call)
      modifies this
      ensures Value() == Spec.MaybeRotate(Settings(), old(Value()), msg)
    {
      if rollMode.RollSize? {
        if maxBytes > 0 && currentSize >= maxBytes {
          Rotate(msg.reopens);
        }
      } else if rollMode.RollDaily? || rollMode.RollHourly? {
        if rollMode.RollDaily? && msg.day != currentDay {
          Rotate(msg.reopens);
          currentDay := msg.day;
        } else if rollMode.RollHourly? && msg.hour != currentHour {
          Rotate(msg.reopens);
          currentHour := msg.hour;
        }
      }
    }

    method Write(msg: Spec.Call)
      modifies this
      ensures Value() == Spec.Write(Settings(), old(Value()), msg)
    {
      MaybeRotate(msg);
      if !file {
        return;
      }
      files := files[path := Spec.Content(files, path, 0) + msg.text];
      currentSize := currentSize + |msg.text|;
    }
  }
}
