/** Choosing the newest dated snapshot folder of the source data. */
module DataFolder {
  import opened Wrappers
  import opened Text
  import opened BuildTypes

  /** One entry of a directory listing. */
  datatype DirEntry = DirEntry(name: string, isDir: bool)

  /** The name matches `^\d{4}-\d{2}-\d{2}$` (ASCII digits only). */
  predicate IsDateName(s: string) {
    |s| == 10 && s[4] == '-' && s[7] == '-'
    && IsDigit(s[0]) && IsDigit(s[1]) && IsDigit(s[2]) && IsDigit(s[3])
    && IsDigit(s[5]) && IsDigit(s[6]) && IsDigit(s[8]) && IsDigit(s[9])
  }

  predicate IsDatedFolder(e: DirEntry) {
    e.isDir && IsDateName(e.name)
  }

  /** The names of the dated folders, in listing order. */
  function DatedFolders(entries: seq<DirEntry>): (r: seq<string>)
    ensures forall n :: n in r <==> DirEntry(n, true) in entries && IsDateName(n)
  {
    if entries == [] then []
    else
      var last := entries[|entries| - 1];
      assert entries == entries[..|entries| - 1] + [last];
      DatedFolders(entries[..|entries| - 1]) + (if IsDatedFolder(last) then [last.name] else [])
  }

  /** The last element of `names` in ordinal order (what `sort()` puts last). */
  function Greatest(names: seq<string>): (r: string)
    requires names != []
    ensures r in names
    ensures forall n :: n in names ==> LexLe(n, r)
  {
    if |names| == 1 then
      LexLeReflexive(names[0]);
      names[0]
    else
      var m := Greatest(names[..|names| - 1]);
      var last := names[|names| - 1];
      assert names == names[..|names| - 1] + [last];
      LexLeTotal(m, last);
      LexLeReflexive(last);
      if LexLe(m, last) then
        assert forall n :: n in names[..|names| - 1] ==> LexLe(n, last) by {
          forall n | n in names[..|names| - 1] ensures LexLe(n, last) {
            LexLeTransitive(n, m, last);
          }
        }
        last
      else
        m
  }

  /**
   * `findLatestDataFolder`: the dated directory that sorts last, or an error
   * when the listing has none.
   */
  function FindLatestDataFolder(entries: seq<DirEntry>): Result<string, BuildError> {
    var folders := DatedFolders(entries);
    if folders == [] then Failure(NoDatedFolder) else Success(Greatest(folders))
  }

  /**
   * The chosen folder is a directory entry with a date name that is not before
   * any other such entry; the choice fails exactly when there is none.
   */
  lemma LatestFolderIsGreatest(entries: seq<DirEntry>)
    ensures FindLatestDataFolder(entries).Failure? <==> forall e :: e in entries ==> !IsDatedFolder(e)
    ensures FindLatestDataFolder(entries).Failure? ==> FindLatestDataFolder(entries).error == NoDatedFolder
    ensures FindLatestDataFolder(entries).Success? ==>
      var r := FindLatestDataFolder(entries).value;
      DirEntry(r, true) in entries && IsDateName(r)
      && forall e :: e in entries && IsDatedFolder(e) ==> LexLe(e.name, r)
  {
    var folders := DatedFolders(entries);
    forall e | e in entries && IsDatedFolder(e) ensures e.name in folders {
      assert e == DirEntry(e.name, true);
    }
    if folders != [] {
      assert folders[0] in folders;
    }
  }

  /** Files and non-matching names are ignored: `2024-05-05` wins. */
  lemma LatestFolderExample(es: seq<DirEntry>)
    requires es == [
      DirEntry("2023-01-01", true), DirEntry("2024-05-05", true), DirEntry("2024-05-04", true),
      DirEntry("2025-01-01", false), DirEntry("2099-1-1", true)]
    ensures FindLatestDataFolder(es) == Success("2024-05-05")
  {
    var x := "2024-05-05";
    assert es[1] == DirEntry(x, true);
    ExampleDate(x);
    forall e | e in es && IsDatedFolder(e) ensures LexLe(e.name, x) {
      assert e == DirEntry(e.name, true);
      ExampleCandidates(es, e.name);
      ExampleDatesOrdered();
      LexLeTotal(x, e.name);
      LexLeReflexive(x);
    }
    LatestIsMaximum(es, x);
  }

  lemma ExampleDate(x: string)
    requires x == "2024-05-05"
    ensures IsDateName(x)
  {
  }

  /** A dated directory that no other dated directory sorts after is the one chosen. */
  lemma LatestIsMaximum(es: seq<DirEntry>, x: string)
    requires DirEntry(x, true) in es && IsDateName(x)
    requires forall e :: e in es && IsDatedFolder(e) ==> LexLe(e.name, x)
    ensures FindLatestDataFolder(es) == Success(x)
  {
    LatestFolderIsGreatest(es);
    assert IsDatedFolder(DirEntry(x, true));
    var r := FindLatestDataFolder(es).value;
    assert IsDatedFolder(DirEntry(r, true));
    LexLeAntisymmetric(r, x);
  }

  /** Only the three dated directories of the example can be chosen. */
  lemma ExampleCandidates(es: seq<DirEntry>, r: string)
    requires es == [
      DirEntry("2023-01-01", true), DirEntry("2024-05-05", true), DirEntry("2024-05-04", true),
      DirEntry("2025-01-01", false), DirEntry("2099-1-1", true)]
    requires DirEntry(r, true) in es && IsDateName(r)
    ensures r == "2023-01-01" || r == "2024-05-05" || r == "2024-05-04"
  {
    var i :| 0 <= i < |es| && es[i] == DirEntry(r, true);
  }

  lemma ExampleDatesOrdered()
    ensures !LexLe("2024-05-05", "2023-01-01") && !LexLe("2024-05-05", "2024-05-04")
  {
    assert !LexLe("2024-05-05", "2023-01-01");
    assert !LexLe("2024-05-05", "2024-05-04");
  }
}
