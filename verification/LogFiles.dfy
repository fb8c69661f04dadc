/** The files of a log sink: a current file and numbered archives (src/log.c). */
module LogFiles {
  import opened Bits
  import opened Options

  type Text = seq<byte>

  /** File names and contents. */
  type Files = map<string, Text>

  // ---- Names

  function Digit(d: nat): char
    requires d < 10
  {
    ('0' as int + d) as char
  }

  /** `%d` of a non-negative number. */
  function Decimal(n: nat): (s: string)
    ensures s != []
  {
    if n < 10 then [Digit(n)] else Decimal(n / 10) + [Digit(n % 10)]
  }

  lemma DigitInjective(d: nat, e: nat)
    requires d < 10 && e < 10 && Digit(d) == Digit(e)
    ensures d == e
  {
    assert ('0' as int + d) as char as int == '0' as int + d;
    assert ('0' as int + e) as char as int == '0' as int + e;
  }

  lemma {:induction false} DecimalInjective(m: nat, n: nat)
    requires Decimal(m) == Decimal(n)
    ensures m == n
  {
    var s := Decimal(m);
    assert s[|s| - 1] == Digit(m % 10);
    assert s[|s| - 1] == Digit(n % 10);
    DigitInjective(m % 10, n % 10);
    if m >= 10 && n >= 10 {
      assert Decimal(m / 10) == s[..|s| - 1] == Decimal(n / 10);
      DecimalInjective(m / 10, n / 10);
    }
  }

  /** Slot 0 is the current file, slot `i` the archive `<path>.<i>`. */
  function SlotName(path: string, i: nat): string {
    if i == 0 then path else path + "." + Decimal(i)
  }

  /** The number a string of digits stands for. */
  function ValueOf(s: string): int {
    if s == [] then 0 else 10 * ValueOf(s[..|s| - 1]) + (s[|s| - 1] as int - '0' as int)
  }

  predicate IsNumeral(s: string) {
    s != [] && (forall i :: 0 <= i < |s| ==> '0' <= s[i] <= '9') && (|s| > 1 ==> s[0] != '0')
  }

  lemma {:induction false} DecimalIsNumeral(n: nat)
    ensures IsNumeral(Decimal(n)) && ValueOf(Decimal(n)) == n
    ensures n > 0 ==> Decimal(n)[0] != '0'
  {
    var s := Decimal(n);
    if n < 10 {
      assert s[..0] == [];
    } else {
      DecimalIsNumeral(n / 10);
      assert s[..|s| - 1] == Decimal(n / 10);
    }
  }

  /** The current file has the sink's path as its name, archive `i` that path, a dot and `i` in decimal. */
  lemma SlotNameIs(path: string, i: nat)
    ensures SlotName(path, 0) == path
    ensures i > 0 ==>
              var s := SlotName(path, i);
              |s| > |path| && s[..|path|] == path && s[|path|] == '.'
              && IsNumeral(s[|path| + 1..]) && ValueOf(s[|path| + 1..]) == i
  {
    DecimalIsNumeral(i);
    if i > 0 {
      assert SlotName(path, i)[|path| + 1..] == Decimal(i);
    }
  }

  lemma SlotNamesDiffer(path: string, i: nat, j: nat)
    requires i != j
    ensures SlotName(path, i) != SlotName(path, j)
  {
    if SlotName(path, i) == SlotName(path, j) && i != 0 && j != 0 {
      var s := SlotName(path, i);
      assert Decimal(i) == s[|path| + 1..] == Decimal(j);
      DecimalInjective(i, j);
    }
  }

  function Slot(fs: Files, path: string, i: nat): Option<Text> {
    if SlotName(path, i) in fs then Some(fs[SlotName(path, i)]) else None
  }

  /** Not a name of the family. */
  ghost predicate Outside(path: string, name: string) {
    forall i: nat :: name != SlotName(path, i)
  }

  ghost predicate SameAt(fs: Files, fs': Files, name: string) {
    (name in fs' <==> name in fs) && (name in fs ==> fs'[name] == fs[name])
  }

  // ---- Operations of the file system

  /** Replaces the target; a missing source changes nothing. */
  function Rename(fs: Files, from: string, to: string): Files {
    if from in fs then (fs - {from})[to := fs[from]] else fs
  }

  function Remove(fs: Files, name: string): Files {
    fs - {name}
  }

  lemma RenameSlot(fs: Files, path: string, i: nat, j: nat)
    ensures Slot(Rename(fs, SlotName(path, i), SlotName(path, i + 1)), path, j) ==
            if j == i then None
            else if j == i + 1 && Slot(fs, path, i).Some? then Slot(fs, path, i)
            else Slot(fs, path, j)
  {
    SlotNamesDiffer(path, i, i + 1);
    if j != i {
      SlotNamesDiffer(path, i, j);
    }
    if j != i + 1 {
      SlotNamesDiffer(path, i + 1, j);
    }
  }

  // ---- One rotation

  /** The highest slot the loop renames when no limit is set. */
  const UNLIMITED_TOP: nat := 999

  function Top(maxFiles: int): nat {
    if maxFiles > 0 then maxFiles - 1 else UNLIMITED_TOP
  }

  /** The loop: rename slot `top` to `top + 1`, and so on down to slot 1. */
  function ShiftSlots(fs: Files, path: string, top: nat): Files
    decreases top
  {
    if top == 0 then fs
    else ShiftSlots(Rename(fs, SlotName(path, top), SlotName(path, top + 1)), path, top - 1)
  }

  function DropOldest(fs: Files, path: string, maxFiles: int): Files {
    if maxFiles > 0 then Remove(fs, SlotName(path, maxFiles)) else fs
  }

  function Shifted(fs: Files, path: string, maxFiles: int): Files {
    Rename(ShiftSlots(DropOldest(fs, path, maxFiles), path, Top(maxFiles)), path, SlotName(path, 1))
  }

  /** The file system after `cpr__file_rotate`; `reopens` says whether the new current file opens. */
  function Rotated(fs: Files, path: string, maxFiles: int, reopens: bool): Files {
    var shifted := Shifted(fs, path, maxFiles);
    if reopens then shifted[path := []] else shifted
  }

  lemma {:induction false} ShiftedSlot(fs: Files, path: string, top: nat, j: nat)
    ensures Slot(ShiftSlots(fs, path, top), path, j) ==
            if top == 0 || j == 0 || j > top + 1 then Slot(fs, path, j)
            else if j == 1 then None
            else if j == top + 1 && Slot(fs, path, top).None? then Slot(fs, path, j)
            else Slot(fs, path, j - 1)
    decreases top
  {
    if top > 0 {
      var fs' := Rename(fs, SlotName(path, top), SlotName(path, top + 1));
      ShiftedSlot(fs', path, top - 1, j);
      RenameSlot(fs, path, top, j);
      if j > 0 {
        RenameSlot(fs, path, top, j - 1);
      }
    }
  }

  lemma DropOldestSlot(fs: Files, path: string, maxFiles: int, j: nat)
    ensures Slot(DropOldest(fs, path, maxFiles), path, j) ==
            if maxFiles > 0 && j == maxFiles then None else Slot(fs, path, j)
  {
    if maxFiles > 0 && j != maxFiles {
      SlotNamesDiffer(path, maxFiles, j);
    }
  }

  lemma ShiftAndArchive(fs: Files, path: string, top: nat, j: nat)
    requires j > 0
    ensures Slot(Rename(ShiftSlots(fs, path, top), path, SlotName(path, 1)), path, j) ==
            if j > top + 1 || (j == top + 1 && Slot(fs, path, top).None?) then Slot(fs, path, j)
            else Slot(fs, path, j - 1)
  {
    ShiftedSlot(fs, path, top, j);
    ShiftedSlot(fs, path, top, 0);
    RenameSlot(ShiftSlots(fs, path, top), path, 0, j);
  }

  /** Slot `j` after the renames, in terms of the slots before. */
  lemma ShiftedIs(fs: Files, path: string, maxFiles: int, j: nat)
    requires j > 0
    ensures Slot(Shifted(fs, path, maxFiles), path, j) ==
            if j > Top(maxFiles) + 1 then Slot(fs, path, j)
            else if j == Top(maxFiles) + 1 && maxFiles <= 0 && Slot(fs, path, j - 1).None? then Slot(fs, path, j)
            else Slot(fs, path, j - 1)
  {
    DropOldestSlot(fs, path, maxFiles, j);
    DropOldestSlot(fs, path, maxFiles, j - 1);
    ShiftAndArchive(DropOldest(fs, path, maxFiles), path, Top(maxFiles), j);
  }

  lemma ReopenSlot(fs: Files, path: string, text: Text, j: nat)
    ensures Slot(fs[path := text], path, j) == if j == 0 then Some(text) else Slot(fs, path, j)
  {
    if j != 0 {
      SlotNamesDiffer(path, 0, j);
    }
  }

  /** With a limit, one rotation moves every slot up by one, whatever archives are missing: an absent
      slot stays absent, the oldest archive goes, higher numbers stay. */
  lemma RotationShifts(fs: Files, path: string, maxFiles: int, reopens: bool, j: nat)
    requires maxFiles > 0
    ensures var after := Rotated(fs, path, maxFiles, reopens);
            Slot(after, path, j) ==
            if j == 0 then (if reopens then Some([]) else None)
            else if j <= maxFiles then Slot(fs, path, j - 1)
            else Slot(fs, path, j)
  {
    RotatedSlot(fs, path, maxFiles, reopens, j);
    if j > 0 {
      ShiftedIs(fs, path, maxFiles, j);
    }
  }

  lemma RotatedSlot(fs: Files, path: string, maxFiles: int, reopens: bool, j: nat)
    ensures Slot(Rotated(fs, path, maxFiles, reopens), path, j) ==
            if j == 0 then (if reopens then Some([]) else None)
            else Slot(Shifted(fs, path, maxFiles), path, j)
  {
    ReopenSlot(Shifted(fs, path, maxFiles), path, [], j);
    RenameSlot(ShiftSlots(DropOldest(fs, path, maxFiles), path, Top(maxFiles)), path, 0, 0);
  }

  /** Without a limit, the same shift reaches slot 1000 and no further. */
  lemma UnlimitedShifts(fs: Files, path: string, maxFiles: int, reopens: bool, j: nat, last: nat)
    requires maxFiles <= 0 && last == 1000
    ensures var after := Rotated(fs, path, maxFiles, reopens);
            Slot(after, path, j) ==
            if j == 0 then (if reopens then Some([]) else None)
            else if j < last || (j == last && Slot(fs, path, last - 1).Some?) then Slot(fs, path, j - 1)
            else Slot(fs, path, j)
  {
    RotatedSlot(fs, path, maxFiles, reopens, j);
    if j > 0 {
      ShiftedIs(fs, path, maxFiles, j);
    }
  }

  lemma {:induction false} ShiftOutside(fs: Files, path: string, top: nat, name: string)
    requires Outside(path, name)
    ensures SameAt(fs, ShiftSlots(fs, path, top), name)
    decreases top
  {
    if top > 0 {
      assert name != SlotName(path, top) && name != SlotName(path, top + 1);
      ShiftOutside(Rename(fs, SlotName(path, top), SlotName(path, top + 1)), path, top - 1, name);
    }
  }

  /** Files outside the family are untouched. */
  lemma RotationOutside(fs: Files, path: string, maxFiles: int, reopens: bool, name: string)
    requires Outside(path, name)
    ensures SameAt(fs, Rotated(fs, path, maxFiles, reopens), name)
  {
    var dropped := DropOldest(fs, path, maxFiles);
    assert name != SlotName(path, 0) && name != SlotName(path, 1);
    assert maxFiles > 0 ==> name != SlotName(path, maxFiles);
    ShiftOutside(dropped, path, Top(maxFiles), name);
  }

  /** So an "unlimited" sink keeps the archive in slot 1000 exactly when slot 999 is empty or the same. */
  lemma UnlimitedKeepsLastIff(fs: Files, path: string, maxFiles: int, reopens: bool, last: nat)
    requires maxFiles <= 0 && last == 1000
    requires Slot(fs, path, last).Some?
    ensures var after := Rotated(fs, path, maxFiles, reopens);
            && Slot(after, path, last + 1) == Slot(fs, path, last + 1)
            && (Slot(after, path, last) == Slot(fs, path, last)
                <==> Slot(fs, path, last - 1).None? || Slot(fs, path, last - 1) == Slot(fs, path, last))
  {
    UnlimitedShifts(fs, path, maxFiles, reopens, last, last);
    UnlimitedShifts(fs, path, maxFiles, reopens, last + 1, last);
  }
}
