/**
 * Listing preparation (src/main.rs, "Data initialization"): turning the
 * filesystem's listing of a directory into a directory record, and building
 * the stack of records from the filesystem root down to the invoked
 * directory.
 *
 * The filesystem is not modelled: a listing is given as the directory's own
 * file name (absent for the root) and its children as (name, is-directory,
 * attribute bits) triples, in the order the filesystem enumerates them.
 */
module Listing {
  import opened Types
  import Constants

  /** One child as the filesystem reports it. */
  datatype RawEntry = RawEntry(name: string, isDir: bool, attributes: bv32)

  /** One directory as the filesystem reports it. */
  datatype DirListing = DirListing(fileName: Option<string>, entries: seq<RawEntry>)

  /** An entry is hidden exactly when the hidden attribute bit is set. */
  function ToEntry(raw: RawEntry): (e: Entry)
    ensures e.name == raw.name && e.isDir == raw.isDir
    ensures e.isHidden <==> raw.attributes & 0x2 == 0x2
  {
    Entry(raw.name, raw.isDir, raw.attributes & Constants.FILE_ATTRIBUTE_HIDDEN != 0)
  }

  function ToEntries(raws: seq<RawEntry>): (es: seq<Entry>)
    ensures |es| == |raws|
    ensures forall i :: 0 <= i < |raws| ==> es[i] == ToEntry(raws[i])
  {
    seq(|raws|, i requires 0 <= i < |raws| => ToEntry(raws[i]))
  }

  /** A directory without a file name (the root) is named "/". */
  function DirName(fileName: Option<string>): (name: string)
    ensures fileName.Some? ==> name == fileName.value
    ensures fileName.None? ==> name == "/"
  {
    match fileName
    case Some(n) => n
    case None => "/"
  }

  /** The entries whose `isDir` is `wantDir`, in their original order. */
  function Filter(s: seq<Entry>, wantDir: bool): (r: seq<Entry>)
  {
    if s == [] then []
    else if s[0].isDir == wantDir then [s[0]] + Filter(s[1..], wantDir)
    else Filter(s[1..], wantDir)
  }

  /** No file entry comes before a directory entry. */
  predicate DirsFirstOrdered(s: seq<Entry>)
  {
    forall i, j :: 0 <= i < j < |s| && s[j].isDir ==> s[i].isDir
  }

  /** Filtering keeps only entries of the wanted kind. */
  lemma {:induction false} FilterKind(s: seq<Entry>, wantDir: bool)
    ensures |Filter(s, wantDir)| <= |s|
    ensures forall i :: 0 <= i < |Filter(s, wantDir)| ==> Filter(s, wantDir)[i].isDir == wantDir
  {
    if s != [] {
      FilterKind(s[1..], wantDir);
    }
  }

  lemma {:induction false} FilterConcat(a: seq<Entry>, b: seq<Entry>, wantDir: bool)
    ensures Filter(a + b, wantDir) == Filter(a, wantDir) + Filter(b, wantDir)
  {
    if a == [] {
      assert a + b == b;
    } else {
      assert (a + b)[1..] == a[1..] + b;
      FilterConcat(a[1..], b, wantDir);
    }
  }

  /** Filtering a sequence whose entries all have the wanted kind changes nothing; the other kind leaves nothing. */
  lemma {:induction false} FilterUniform(s: seq<Entry>, kind: bool, wantDir: bool)
    requires forall i :: 0 <= i < |s| ==> s[i].isDir == kind
    ensures Filter(s, wantDir) == if kind == wantDir then s else []
  {
    if s != [] {
      FilterUniform(s[1..], kind, wantDir);
      if kind == wantDir {
        assert [s[0]] + s[1..] == s;
      }
    }
  }

  lemma {:induction false} FilterMultiset(s: seq<Entry>)
    ensures multiset(Filter(s, true)) + multiset(Filter(s, false)) == multiset(s)
  {
    if s != [] {
      FilterMultiset(s[1..]);
      assert s == [s[0]] + s[1..];
    }
  }

  /** A dirs-first sequence is its directories followed by its files. */
  lemma {:induction false} OrderedSplits(r: seq<Entry>)
    requires DirsFirstOrdered(r)
    ensures r == Filter(r, true) + Filter(r, false)
  {
    if r != [] {
      assert DirsFirstOrdered(r[1..]) by {
        forall i, j | 0 <= i < j < |r[1..]| && r[1..][j].isDir
          ensures r[1..][i].isDir
        {
          assert r[i + 1] == r[1..][i] && r[j + 1] == r[1..][j];
        }
      }
      OrderedSplits(r[1..]);
      if !r[0].isDir {
        assert forall i :: 0 <= i < |r| ==> !r[i].isDir;
        FilterUniform(r, false, true);
        FilterUniform(r, false, false);
      }
    }
  }

  /**
   * The listing order after `sort_by(|l, r| r.is_dir.cmp(&l.is_dir))`:
   * the directories, then the files.
   */
  function SortDirsFirst(s: seq<Entry>): seq<Entry>
  {
    Filter(s, true) + Filter(s, false)
  }

  /**
   * `SortDirsFirst` is what a stable sort on the kind produces: no file
   * before a directory, a permutation of the input, and each kind in
   * enumeration order (there is no alphabetical order).
   */
  lemma SortDirsFirstIsStableSort(s: seq<Entry>)
    ensures var r := SortDirsFirst(s);
      && DirsFirstOrdered(r)
      && multiset(r) == multiset(s)
      && Filter(r, true) == Filter(s, true) && Filter(r, false) == Filter(s, false)
  {
    var dirs := Filter(s, true);
    var files := Filter(s, false);
    FilterMultiset(s);
    FilterKind(s, true);
    FilterKind(s, false);
    FilterConcat(dirs, files, true);
    FilterConcat(dirs, files, false);
    FilterUniform(dirs, true, true);
    FilterUniform(dirs, true, false);
    FilterUniform(files, false, true);
    FilterUniform(files, false, false);
  }

  /**
   * A stable sort by kind has exactly one possible result: any dirs-first
   * order that keeps each kind's enumeration order equals `SortDirsFirst`.
   */
  lemma SortDirsFirstUnique(s: seq<Entry>, r: seq<Entry>)
    requires DirsFirstOrdered(r)
    requires Filter(r, true) == Filter(s, true) && Filter(r, false) == Filter(s, false)
    ensures r == SortDirsFirst(s)
  {
    OrderedSplits(r);
  }

  /** `position`: the first index whose entry has the given name, if any. */
  function Position(es: seq<Entry>, target: string): (r: Option<nat>)
    ensures r.Some? ==> r.value < |es| && es[r.value].name == target &&
                        forall j :: 0 <= j < r.value ==> es[j].name != target
    ensures r.None? ==> forall j :: 0 <= j < |es| ==> es[j].name != target
  {
    if es == [] then None
    else if es[0].name == target then Some(0)
    else
      match Position(es[1..], target)
      case None => None
      case Some(k) => Some(k + 1)
  }

  predicate HasName(raws: seq<RawEntry>, target: string)
  {
    exists i :: 0 <= i < |raws| && raws[i].name == target
  }

  /** A name present in the raw listing is found after the sort. */
  lemma SortedHasName(raws: seq<RawEntry>, target: string)
    requires HasName(raws, target)
    ensures Position(SortDirsFirst(ToEntries(raws)), target).Some?
  {
    var i :| 0 <= i < |raws| && raws[i].name == target;
    var es := ToEntries(raws);
    var sorted := SortDirsFirst(es);
    SortDirsFirstIsStableSort(es);
    assert es[i] in multiset(es);
    assert es[i] in multiset(sorted);
    var k :| 0 <= k < |sorted| && sorted[k] == es[i];
  }

  /**
   * The record `read_dir` builds. It panics (so the caller must rule out)
   * on an empty listing (`unwrap` of the longest name) and on a hint that
   * names no entry (`expect`).
   */
  function ReadSnapshot(listing: DirListing, nextDir: Option<string>): (d: Snapshot)
    requires |listing.entries| > 0
    requires nextDir.Some? ==> HasName(listing.entries, nextDir.value)
    ensures d.WellFormed()
    ensures d.name == DirName(listing.fileName)
    ensures d.contents == SortDirsFirst(ToEntries(listing.entries))
    ensures nextDir.None? ==> d.selectedIdx == 0
    ensures nextDir.Some? ==>
      d.selectedIdx < |d.contents| && d.contents[d.selectedIdx].name == nextDir.value &&
      forall j :: 0 <= j < d.selectedIdx ==> d.contents[j].name != nextDir.value
  {
    var contents := SortDirsFirst(ToEntries(listing.entries));
    assert |contents| > 0 by {
      SortDirsFirstIsStableSort(ToEntries(listing.entries));
      assert |multiset(contents)| == |contents| && |multiset(ToEntries(listing.entries))| == |listing.entries|;
    }
    var selectedIdx: nat :=
      if nextDir.None? then 0
      else (SortedHasName(listing.entries, nextDir.value); Position(contents, nextDir.value).value);
    Snapshot(DirName(listing.fileName), contents, selectedIdx, LongestNameLen(contents))
  }

  /** `read_dir`: builds the record for one listing, pre-selecting the hinted name. */
  method ReadDir(listing: DirListing, nextDir: Option<string>) returns (d: Directory)
    requires |listing.entries| > 0
    requires nextDir.Some? ==> HasName(listing.entries, nextDir.value)
    ensures fresh(d)
    ensures d.View() == ReadSnapshot(listing, nextDir)
  {
    var dirEntries := ToEntries(listing.entries);
    dirEntries := SortDirsFirst(dirEntries);
    var selectedIdx := 0;
    match nextDir {
      case Some(target) =>
        SortedHasName(listing.entries, target);
        selectedIdx := Position(dirEntries, target).value;
      case None =>
    }
    d := new Directory(DirName(listing.fileName), dirEntries, selectedIdx);
  }

  /**
   * The selection link between neighbouring records of a stack: each
   * record's cursor is on the entry named like the next record.
   */
  predicate Linked(stack: seq<Snapshot>)
  {
    forall i :: 0 <= i < |stack| - 1 ==>
      stack[i].selectedIdx < |stack[i].contents| &&
      stack[i].contents[stack[i].selectedIdx].name == stack[i + 1].name
  }

  /** A stack as the program keeps it: never empty, every record well formed, neighbours linked. */
  predicate ValidStack(stack: seq<Snapshot>)
  {
    |stack| >= 1 && (forall k :: 0 <= k < |stack| ==> stack[k].WellFormed()) && Linked(stack)
  }

  /**
   * What `init_directories` needs from the filesystem so that no `expect`
   * or `unwrap` panics: `ancestors` lists the invoked directory first and
   * the root last (the order of `Path::ancestors`); every listing is
   * non-empty and every directory's parent lists it by name.
   */
  predicate Consistent(ancestors: seq<DirListing>)
  {
    (forall i :: 0 <= i < |ancestors| ==> |ancestors[i].entries| > 0) &&
    (forall i :: 1 <= i < |ancestors| ==> HasName(ancestors[i].entries, DirName(ancestors[i - 1].fileName)))
  }

  /** The hint passed when reading `ancestors[i]`: the name of the directory read just before it. */
  function Hint(ancestors: seq<DirListing>, i: nat): Option<string>
    requires i < |ancestors|
  {
    if i == 0 then None else Some(DirName(ancestors[i - 1].fileName))
  }

  /**
   * The records read from the first `i` ancestors, pushed to the front one
   * by one, so the latest read comes first.
   */
  function Built(ancestors: seq<DirListing>, i: nat): (stack: seq<Snapshot>)
    requires Consistent(ancestors) && i <= |ancestors|
    ensures |stack| == i
  {
    if i == 0 then []
    else [ReadSnapshot(ancestors[i - 1], Hint(ancestors, i - 1))] + Built(ancestors, i - 1)
  }

  /** The stack `init_directories` returns. */
  function AncestorStack(ancestors: seq<DirListing>): (stack: seq<Snapshot>)
    requires Consistent(ancestors)
    ensures |stack| == |ancestors|
  {
    Built(ancestors, |ancestors|)
  }

  /** Pushing a record whose cursor is on the current top's name keeps a stack valid. */
  lemma PushValid(head: Snapshot, rest: seq<Snapshot>)
    requires ValidStack(rest) && head.WellFormed()
    requires head.selectedIdx < |head.contents| && head.contents[head.selectedIdx].name == rest[0].name
    ensures ValidStack([head] + rest)
  {
    var stack := [head] + rest;
    forall k | 0 <= k < |stack|
      ensures stack[k].WellFormed()
      ensures k < |stack| - 1 ==>
        stack[k].selectedIdx < |stack[k].contents| &&
        stack[k].contents[stack[k].selectedIdx].name == stack[k + 1].name
    {
      if k > 0 {
        assert stack[k] == rest[k - 1];
        if k < |stack| - 1 {
          assert stack[k + 1] == rest[k];
        }
      }
    }
  }

  /**
   * Every stack built from a prefix of the ancestors is valid: each record
   * well formed, each parent's cursor on the child that follows it, the
   * latest record read first and its cursor at 0 when it was read with no hint.
   */
  lemma {:induction false} BuiltValid(ancestors: seq<DirListing>, i: nat)
    requires Consistent(ancestors) && 1 <= i <= |ancestors|
    ensures var stack := Built(ancestors, i);
      && ValidStack(stack)
      && stack[0].name == DirName(ancestors[i - 1].fileName)
      && stack[i - 1].name == DirName(ancestors[0].fileName)
      && stack[i - 1].selectedIdx == 0
  {
    var head := ReadSnapshot(ancestors[i - 1], Hint(ancestors, i - 1));
    if i > 1 {
      var rest := Built(ancestors, i - 1);
      BuiltValid(ancestors, i - 1);
      assert Built(ancestors, i) == [head] + rest;
      assert Hint(ancestors, i - 1) == Some(rest[0].name);
      PushValid(head, rest);
    }
  }

  /**
   * The stack built from all ancestors: the root first, the invoked
   * directory last with its cursor at 0, every parent's cursor on the child
   * that follows it.
   */
  lemma AncestorStackValid(ancestors: seq<DirListing>)
    requires Consistent(ancestors) && |ancestors| >= 1
    ensures var stack := AncestorStack(ancestors);
      && ValidStack(stack)
      && stack[0].name == DirName(ancestors[|ancestors| - 1].fileName)
      && stack[|stack| - 1].name == DirName(ancestors[0].fileName)
      && stack[|stack| - 1].selectedIdx == 0
  {
    BuiltValid(ancestors, |ancestors|);
  }

  /**
   * One turn of the `init_directories` loop: reads `ancestors[i]`, hinting
   * the name of the record at the front, and pushes the result to the front.
   */
  method PushAncestor(ancestors: seq<DirListing>, i: nat, dirs: seq<Directory>) returns (res: seq<Directory>)
    requires Consistent(ancestors) && i < |ancestors|
    requires Views(dirs) == Built(ancestors, i) && Distinct(dirs)
    ensures |res| == i + 1 && res[1..] == dirs && fresh(res[0])
    ensures Distinct(res) && Views(res) == Built(ancestors, i + 1)
  {
    var nextName := if |dirs| == 0 then None else Some(dirs[0].name);
    assert nextName == Hint(ancestors, i) by {
      if |dirs| > 0 {
        ViewsAt(dirs, 0);
      }
    }
    ghost var before := Views(dirs);
    var dir := ReadDir(ancestors[i], nextName);
    assert Views(dirs) == before;
    DistinctCons(dir, dirs);
    res := [dir] + dirs;
    ViewsCons(dir, dirs);
    assert res[1..] == dirs;
  }

  /** `init_directories`: reads every ancestor, pushing each record to the front. */
  method InitDirectories(ancestors: seq<DirListing>) returns (dirs: seq<Directory>)
    requires Consistent(ancestors)
    ensures |dirs| == |ancestors|
    ensures fresh(set d | d in dirs)
    ensures Distinct(dirs)
    ensures Views(dirs) == AncestorStack(ancestors)
  {
    dirs := [];
    for i := 0 to |ancestors|
      invariant |dirs| == i
      invariant fresh(set d | d in dirs)
      invariant Distinct(dirs)
      invariant Views(dirs) == Built(ancestors, i)
    {
      dirs := PushAncestor(ancestors, i, dirs);
    }
  }
}
