/**
  `MyLogger::checkMaxSize`: a log file that has grown too large is renamed to the first free number or, when all numbers
  are taken, to the last one after the others have moved down by one.
 */
module LogRotation {

  /** The log file, or the same path with a number behind it. */
  datatype Name = Live | Old(number: nat)

  type Files = map<Name, string>

  const WORD := 0x1_0000_0000

  /** `rename`: the target is replaced; without a source nothing happens. */
  function Rename(files: Files, from: Name, to: Name): (r: Files)
    requires from != to
    ensures from !in r && (from !in files ==> r == files)
    ensures from in files ==> to in r && r[to] == files[from]
    ensures forall name :: name != from && name != to ==> Unchanged(files, r, name)
  {
    if from in files then (files - {from})[to := files[from]] else files
  }

  lemma FlatMore(logs: seq<string>, log: string)
    ensures Flat(logs + [log]) + "" == Flat(logs) + log
  {
    assert (logs + [log])[..|logs|] == logs;
  }

  /** What the log file holds; one that is not there yet holds nothing. */
  function Current(files: Files): string {
    if Live in files then files[Live] else ""
  }

  function Flat(logs: seq<string>): string {
    if logs == [] then "" else Flat(logs[..|logs| - 1]) + logs[|logs| - 1]
  }

  ghost predicate Unchanged(files: Files, files': Files, name: Name) {
    (name in files <==> name in files') && (name in files ==> files[name] == files'[name])
  }

  /** The numbered files are exactly the last `min(n, limit)` of the `n` rotated logs, oldest at 0. */
  ghost predicate Newest(files: Files, rotated: seq<string>, limit: nat) {
    var n := |rotated|;
    var m := if n < limit then n else limit;
    && (forall i: nat :: Old(i) in files ==> i < m)
    && (forall i: nat :: i < m ==> Old(i) in files && files[Old(i)] == rotated[n - m + i])
  }

  /** With no numbers to use, the last log goes where 0 - 1 points to. */
  ghost predicate NewestOnly(files: Files, rotated: seq<string>) {
    var n := |rotated|;
    && (forall i: nat :: Old(i) in files ==> n > 0 && i == 0xFFFF_FFFF)
    && (n > 0 ==> Old(0xFFFF_FFFF) in files && files[Old(0xFFFF_FFFF)] == rotated[n - 1])
  }

  ghost predicate Kept(files: Files, rotated: seq<string>, limit: nat) {
    if limit == 0 then NewestOnly(files, rotated) else Newest(files, rotated, limit)
  }

  /** The log file itself does not matter. */
  lemma KeptBeside(files: Files, rotated: seq<string>, limit: nat)
    requires Kept(files, rotated, limit)
    ensures Kept(files[Live := ""], rotated, limit)
  {
  }

  /** One more log, while there is a free number. */
  lemma NewestGrows(files: Files, rotated: seq<string>, limit: nat, i: nat)
    requires Newest(files, rotated, limit) && Live in files && i < limit && Old(i) !in files
    requires forall j :: 0 <= j < i ==> Old(j) in files
    ensures Newest(Rename(files, Live, Old(i)), rotated + [files[Live]], limit)
  {
    assert i > 0 ==> Old(i - 1) in files;
    assert i == |rotated|;
  }

  /** One more log, without any number to use. */
  lemma OnlyNewest(files: Files, rotated: seq<string>)
    requires NewestOnly(files, rotated) && Live in files
    ensures NewestOnly(Rename(files, Live, Old(WORD - 1)), rotated + [files[Live]])
  {
  }

  /** One more log, when there is none. */
  lemma NewestShifts(files: Files, shifted: Files, rotated: seq<string>, limit: nat)
    requires Newest(files, rotated, limit) && Live in files && 0 < limit
    requires forall j :: 0 <= j < limit ==> Old(j) in files
    requires Shifting(files, shifted, limit, limit)
    ensures Live in shifted && shifted[Live] == files[Live]
    ensures Newest(Rename(shifted, Live, Old(limit - 1)), rotated + [files[Live]], limit)
  {
    var n, after, logs := |rotated|, Rename(shifted, Live, Old(limit - 1)), rotated + [files[Live]];
    assert Unchanged(files, shifted, Live);
    assert n >= limit by { assert Old(limit - 1) in files; }
    forall i: nat | i < limit ensures Old(i) in after && after[Old(i)] == logs[n + 1 - limit + i] {
      if i < limit - 1 {
        assert Lowered(files, shifted, i);
        assert files[Old(i + 1)] == rotated[n - limit + (i + 1)];
      }
    }
    forall i: nat | Old(i) in after ensures i < limit {
      assert i >= limit ==> Unchanged(files, shifted, Old(i));
    }
  }

  /** Before the rename from `i`: the files below have moved down, those from `i` on have not. */
  ghost predicate Shifting(before: Files, files: Files, limit: nat, i: nat) {
    && 1 <= i <= limit
    && (forall j :: 0 <= j < i - 1 ==> Lowered(before, files, j))
    && (forall j :: i <= j < limit ==> Old(j) in before && Unchanged(before, files, Old(j)))
    && (forall name: Name :: name.Live? || name.number >= limit ==> Unchanged(before, files, name))
  }

  ghost predicate Lowered(before: Files, files: Files, j: nat) {
    Old(j) in files && Old(j + 1) in before && files[Old(j)] == before[Old(j + 1)]
  }

  lemma ShiftsOne(before: Files, files: Files, limit: nat, i: nat)
    requires Shifting(before, files, limit, i) && i < limit
    ensures Shifting(before, Rename(files, Old(i), Old(i - 1)), limit, i + 1)
  {
    var after := Rename(files, Old(i), Old(i - 1));
    assert Unchanged(before, files, Old(i));
    forall j | 0 <= j < i ensures Lowered(before, after, j) {
      if j < i - 1 { assert Lowered(before, files, j); }
    }
    forall j | i + 1 <= j < limit ensures Unchanged(before, after, Old(j)) { assert Unchanged(before, files, Old(j)); }
    forall name: Name | name.Live? || name.number >= limit ensures Unchanged(before, after, name) {
      assert Unchanged(before, files, name);
    }
  }

  class Logger {
    const maxIndex: nat
    const maxFileSize: nat
    var files: Files

    /** History: the logs that were rotated away, and all text ever written. */
    ghost var rotated: seq<string>
    ghost var written: string

    ghost predicate Valid()
      reads this
    {
      && maxIndex < WORD
      && Kept(files, rotated, maxIndex)
      && written == Flat(rotated) + Current(files)
    }

    constructor (index: nat, size: nat)
      requires index < WORD
      ensures Valid() && maxIndex == index && maxFileSize == size && rotated == [] && written == ""
    {
      maxIndex, maxFileSize, files, rotated, written := index, size, map[], [], "";
    }

    method Write(text: string)
      requires Valid()
      modifies this`files, this`written
      ensures Valid() && written == old(written) + text && files == old(files)[Live := Current(old(files)) + text]
    {
      assert Flat(rotated) + (Current(files) + text) == (Flat(rotated) + Current(files)) + text;
      files := files[Live := Current(files) + text];
      written := written + text;
    }

    /** The first number without a file, or `maxIndex`. */
    method FirstFree() returns (i: nat)
      ensures i <= maxIndex && (forall j :: 0 <= j < i ==> Old(j) in files) && (i < maxIndex ==> Old(i) !in files)
    {
      i := 0;
      while i < maxIndex
        invariant i <= maxIndex && forall j :: 0 <= j < i ==> Old(j) in files
      {
        if Old(i) !in files { return; }
        i := i + 1;
      }
    }

    /** Every numbered file takes the place of the one below it, and the lowest is lost. */
    method ShiftDown()
      requires 0 < maxIndex && forall j :: 0 <= j < maxIndex ==> Old(j) in files
      modifies this`files
      ensures Shifting(old(files), files, maxIndex, maxIndex)
    {
      var i := 1;
      while i < maxIndex
        invariant Shifting(old(files), files, maxIndex, i)
      {
        ShiftsOne(old(files), files, maxIndex, i);
        files := Rename(files, Old(i), Old(i - 1));
        i := i + 1;
      }
    }

    /** The log file is renamed; what it held is added to the history. */
    method Rotate()
      requires Valid() && Live in files
      modifies this`files, this`rotated
      ensures rotated == old(rotated) + [old(files)[Live]] && Live !in files
      ensures Kept(files, rotated, maxIndex)
    {
      ghost var live := files[Live];
      var i := FirstFree();
      if i < maxIndex {
        NewestGrows(files, rotated, maxIndex, i);
        files := Rename(files, Live, Old(i));
      } else if maxIndex > 0 {
        ghost var before := files;
        ShiftDown();
        NewestShifts(before, files, rotated, maxIndex);
        files := Rename(files, Live, Old(maxIndex - 1));
      } else {
        OnlyNewest(files, rotated);
        files := Rename(files, Live, Old((maxIndex - 1) % WORD));
      }
      rotated := rotated + [live];
    }

    /** `checkMaxSize`; the size is read into 32 bits, and a log file that is not there is left so. */
    method CheckMaxSize()
      requires Valid()
      modifies this`files, this`rotated
      ensures Valid() && written == old(written)
      ensures TooLarge(old(files), maxFileSize) ==>
        rotated == old(rotated) + [old(files)[Live]] && Live in files && files[Live] == ""
      ensures !TooLarge(old(files), maxFileSize) ==> rotated == old(rotated) && files == old(files)
    {
      if Live !in files { return; }
      var size := |files[Live]| % WORD;
      if size >= maxFileSize {
        ghost var logs, live := rotated, files[Live];
        Rotate();
        FlatMore(logs, live);
        KeptBeside(files, rotated, maxIndex);
        files := files[Live := ""];
      }
    }
  }

  predicate TooLarge(files: Files, limit: nat) {
    Live in files && |files[Live]| % 0x1_0000_0000 >= limit
  }
}
