/**
  Poco's `ArchiveByTimestampStrategy`: a log file is renamed to its path with a timestamp behind it and, should that
  name be taken, the files of that name are numbered.
 */
module NumberedArchive {

  /** The log file, the name with the timestamp, that name with a number behind it, and any other file. */
  datatype Name = Log | Stamped | Numbered(number: nat) | Other(path: string)

  type Files = map<Name, string>

  /** The name of a file once `archiveByNumber` is done; `n` is the first free number. */
  function Moved(name: Name, n: nat): Name {
    match name
    case Stamped => Numbered(0)
    case Numbered(i) => if i < n then Numbered(i + 1) else name
    case _ => name
  }

  lemma MovedApart(a: Name, b: Name, n: nat)
    requires a != b && a != Numbered(n) && b != Numbered(n)
    ensures Moved(a, n) != Moved(b, n)
  {
  }

  ghost predicate FirstFree(files: Files, n: nat) {
    Numbered(n) !in files && forall i :: 0 <= i < n ==> Numbered(i) in files
  }

  /** Every file is where it belongs with its contents, and there are no others. */
  ghost predicate AllMoved(before: Files, after: Files, n: nat) {
    && (forall name: Name :: name in before ==> Moved(name, n) in after && after[Moved(name, n)] == before[name])
    && (forall name: Name :: name in after ==> exists was :: was in before && Moved(was, n) == name)
  }

  ghost predicate Unchanged(before: Files, after: Files, name: Name) {
    (name in before <==> name in after) && (name in before ==> before[name] == after[name])
  }

  /** Half way: the numbers from `n` on have moved up by one, up to the first free one, and those below have not. */
  ghost predicate Stage(before: Files, files: Files, n: int, first: nat) {
    && -1 <= n <= first && Stamped in before
    && (n >= 0 ==> Numbered(n) !in files && Stamped in files && files[Stamped] == before[Stamped])
    && (n == -1 ==> Stamped !in files && Numbered(0) in files && files[Numbered(0)] == before[Stamped])
    && (forall i :: 0 <= i < n ==> Unchanged(before, files, Numbered(i)))
    && (forall i :: n < i <= first && i > 0 ==> Climbed(before, files, i))
    && (forall name: Name :: Aside(name, first) ==> Unchanged(before, files, name))
  }

  ghost predicate Climbed(before: Files, files: Files, i: int) {
    i > 0 && Numbered(i) in files && Numbered(i - 1) in before && files[Numbered(i)] == before[Numbered(i - 1)]
  }

  predicate Aside(name: Name, first: nat) {
    name.Log? || name.Other? || (name.Numbered? && name.number > first)
  }

  /** The file that is moved at stage `n`. */
  function Source(n: nat): Name {
    if n == 0 then Stamped else Numbered(n - 1)
  }

  lemma StageStep(before: Files, files: Files, n: nat, first: nat)
    requires Stage(before, files, n, first) && FirstFree(before, first)
    ensures Source(n) in files && Numbered(n) !in files
    ensures Stage(before, (files - {Source(n)})[Numbered(n) := files[Source(n)]], n - 1, first)
  {
    assert n > 0 ==> Unchanged(before, files, Numbered(n - 1));
    var after := (files - {Source(n)})[Numbered(n) := files[Source(n)]];
    forall i | 0 <= i < n - 1 ensures Unchanged(before, after, Numbered(i)) {
      assert Unchanged(before, files, Numbered(i));
    }
    forall i | n - 1 < i <= first && i > 0 ensures Climbed(before, after, i) {
      if i > n { assert Climbed(before, files, i); }
    }
    forall name: Name | Aside(name, first) ensures Unchanged(before, after, name) {
      assert Unchanged(before, files, name);
    }
  }

  lemma StageDone(before: Files, files: Files, first: nat)
    requires Stage(before, files, -1, first) && FirstFree(before, first)
    ensures AllMoved(before, files, first)
  {
    forall name | name in before ensures Moved(name, first) in files && files[Moved(name, first)] == before[name] {
      if name.Numbered? && name.number < first {
        assert Climbed(before, files, name.number + 1);
      } else if !name.Stamped? {
        assert Aside(name, first);
        assert Unchanged(before, files, name);
      }
    }
    forall name | name in files ensures exists was :: was in before && Moved(was, first) == name {
      if name.Numbered? && name.number <= first {
        if name.number > 0 { assert Climbed(before, files, name.number); }
        assert Source(name.number) in before && Moved(Source(name.number), first) == name;
      } else {
        assert Aside(name, first);
        assert Unchanged(before, files, name);
        assert Moved(name, first) == name;
      }
    }
  }

  lemma {:induction false} NumbersFit(files: Files, n: nat)
    requires forall i :: 0 <= i < n ==> Numbered(i) in files
    ensures n <= |files|
  {
    if n > 0 { NumbersFit(files - {Numbered(n - 1)}, n - 1); }
  }

  class Archive {
    var files: Files

    method FirstFreeNumber() returns (n: nat)
      ensures FirstFree(files, n)
    {
      n := 0;
      while Numbered(n) in files
        invariant forall i :: 0 <= i < n ==> Numbered(i) in files
        decreases |files| - n
      {
        NumbersFit(files, n + 1);
        n := n + 1;
      }
      NumbersFit(files, n);
    }

    /** `moveFile`; its target must not be there. */
    method MoveFile(from: Name, to: Name)
      requires from in files && to !in files
      modifies this
      ensures files == (old(files) - {from})[to := old(files)[from]]
    {
      files := (files - {from})[to := files[from]];
    }

    /** `archiveByNumber`: no move hits an existing file, and the newest ends up at number 0. */
    method ArchiveByNumber()
      requires Stamped in files
      modifies this
      ensures exists n :: FirstFree(old(files), n) && AllMoved(old(files), files, n)
      ensures Stamped !in files && Numbered(0) in files && files[Numbered(0)] == old(files)[Stamped]
    {
      ghost var before := files;
      var first := FirstFreeNumber();
      var n: int := first;
      while n >= 0
        invariant Stage(before, files, n, first)
      {
        StageStep(before, files, n, first);
        MoveFile(if n > 0 then Numbered(n - 1) else Stamped, Numbered(n));
        n := n - 1;
      }
      StageDone(before, files, first);
    }

    /** `archive`: the log file is only renamed when the stamped name is free; otherwise it stays and goes on. */
    method ArchiveLog()
      requires Log in files
      modifies this
      ensures Log in files <==> Stamped in old(files)
      ensures Stamped !in old(files) ==> files == (old(files) - {Log})[Stamped := old(files)[Log]]
      ensures Stamped in old(files) ==> files[Log] == old(files)[Log]
      ensures Stamped in old(files) ==> exists n :: FirstFree(old(files), n) && AllMoved(old(files), files, n)
    {
      if Stamped in files {
        ghost var before := files;
        ArchiveByNumber();
        ghost var n :| FirstFree(before, n) && AllMoved(before, files, n);
        assert Moved(Log, n) == Log;
      } else {
        MoveFile(Log, Stamped);
      }
    }
  }
}
