/** `rename_with_date`: one pass over a snapshot of a directory's entries,
    yielding one result per file and skipping sub-directories. The media type
    selects the extension table and the date extractor, so the same walk is
    the image walk and the video walk. */
module Walker {
  import opened Wrappers
  import opened Metadata
  import opened Files
  import opened Extensions
  import opened Rename
  import opened Calendar
  import DateText

  /** `Result`: the original path, the path afterwards, and whether it moved. */
  datatype RenameResult = RenameResult(oldName: Path, newName: Path, success: bool)

  /** An error that escaped `extract_creation_date` for the named entry. */
  datatype Aborted = Aborted(name: string, error: HardError)

  /** What the walk yielded before it ended, the directory afterwards, and the
      error that ended it early, if any. */
  datatype Walk = Walk(results: seq<RenameResult>, entries: Directory, aborted: Option<Aborted>)

  /** What processing one entry amounts to. */
  datatype Step =
    | Skip
    | Emit(result: RenameResult, entries: Directory)
    | Abort(error: HardError)

  /** Errors `iterdir` raises before anything is yielded. */
  datatype WalkError = FileNotFoundError | NotADirectoryError

  /** What the walked path turns out to be. */
  datatype Target =
    | Missing
    | NotDirectory
    | Listed(entries: Directory, listing: seq<string>)

  function Failed(path: Path): RenameResult {
    RenameResult(path, path, false)
  }

  predicate Distinct(names: seq<string>) {
    forall i, j :: 0 <= i < j < |names| ==> names[i] != names[j]
  }

  /** A snapshot listing names every entry of the directory exactly once. */
  predicate IsListingOf(names: seq<string>, entries: Directory) {
    Distinct(names) && (forall n :: n in names ==> n in entries) && (forall n :: n in entries ==> n in names)
  }

  /** One iteration of the loop body of `rename_with_date`. */
  function ProcessEntry(m: Media, dir: string, entries: Directory, name: string, prefix: string, suffix: string)
    : (s: Step)
    requires name in entries
    ensures s.Skip? <==> entries[name].Folder?
    ensures s.Abort? <==>
      && entries[name].File?
      && IsSupported(TableOf(m), StripDots(Suffix(name)))
      && ExtractCreationDate(m, entries[name].exif, entries[name].mediaInfo).Raised?
    ensures s.Abort? ==> ExtractCreationDate(m, entries[name].exif, entries[name].mediaInfo) == Raised(s.error)
    ensures entries[name].File? && !IsSupported(TableOf(m), StripDots(Suffix(name))) ==>
      s == Emit(Failed(Path(dir, name)), entries)
    ensures entries[name].File? && ExtractCreationDate(m, entries[name].exif, entries[name].mediaInfo).NotFound? ==>
      s == Emit(Failed(Path(dir, name)), entries)
    ensures s.Emit? ==> s.result.oldName == Path(dir, name) && s.result.newName.dir == dir
    ensures s.Emit? && !s.result.success ==> s.result.newName == s.result.oldName && s.entries == entries
    ensures s.Emit? && s.result.success ==> Moved(entries, name, s.result.newName.name, s.entries)
    ensures s.Emit? ==> |s.entries| == |entries|
  {
    var path := Path(dir, name);
    match Instance(path, entries[name].Folder?)
    case Failure(_) => Skip
    case Success(info) =>
      if !IsSupported(TableOf(m), info.extension) then
        Emit(Failed(path), entries)
      else
        var entry := entries[name];
        match ExtractCreationDate(m, entry.exif, entry.mediaInfo)
        case Raised(error) => Abort(error)
        case NotFound => Emit(Failed(path), entries)
        case Found(date) =>
          var renamed := RenameFile(m, entries, info.(dateCreated := Some(date)), prefix, suffix);
          match renamed.outcome
          case Success(newInfo) => Emit(RenameResult(path, newInfo.path, true), renamed.entries)
          case Failure(_) => Emit(Failed(path), entries)
  }

  /** The walk over the remaining listed names. */
  function WalkEntries(m: Media, dir: string, entries: Directory, names: seq<string>, prefix: string, suffix: string)
    : (w: Walk)
    requires Distinct(names)
    requires forall n :: n in names ==> n in entries
    ensures |w.entries| == |entries|
    decreases |names|
  {
    if names == [] then
      Walk([], entries, None)
    else
      TailOfListing(entries, names);
      match ProcessEntry(m, dir, entries, names[0], prefix, suffix)
      case Skip => WalkEntries(m, dir, entries, names[1..], prefix, suffix)
      case Abort(error) => Walk([], entries, Some(Aborted(names[0], error)))
      case Emit(result, next) =>
        var rest := WalkEntries(m, dir, next, names[1..], prefix, suffix);
        rest.(results := [result] + rest.results)
  }

  /** `rename_with_date(directory, prefix, suffix)`: a path that is missing or
      not a directory fails before any result; a directory is walked in the
      order of its listing. */
  function RenameWithDate(m: Media, dir: string, target: Target, prefix: string, suffix: string)
    : (r: Result<Walk, WalkError>)
    requires target.Listed? ==> IsListingOf(target.listing, target.entries)
    ensures r.Success? <==> target.Listed?
    ensures target == Missing ==> r == Failure(FileNotFoundError)
    ensures target == NotDirectory ==> r == Failure(NotADirectoryError)
  {
    match target
    case Missing => Failure(FileNotFoundError)
    case NotDirectory => Failure(NotADirectoryError)
    case Listed(entries, listing) => Success(WalkEntries(m, dir, entries, listing, prefix, suffix))
  }

  /** Every result stays in the walked directory, and every failed result
      reports the file under its old name. */
  lemma {:induction false} WalkResultsShape(m: Media, dir: string, entries: Directory, names: seq<string>, prefix: string, suffix: string)
    requires Distinct(names)
    requires forall n :: n in names ==> n in entries
    ensures var w := WalkEntries(m, dir, entries, names, prefix, suffix);
      && (forall r :: r in w.results ==> r.oldName.dir == dir && r.newName.dir == dir)
      && (forall r :: r in w.results && !r.success ==> r.newName == r.oldName)
    decreases |names|
  {
    if names != [] {
      var s := ProcessEntry(m, dir, entries, names[0], prefix, suffix);
      if s.Skip? {
        WalkSkip(m, dir, entries, names, prefix, suffix);
        WalkResultsShape(m, dir, entries, names[1..], prefix, suffix);
      } else if s.Emit? {
        WalkEmit(m, dir, entries, names, prefix, suffix);
        WalkResultsShape(m, dir, s.entries, names[1..], prefix, suffix);
      }
    }
  }

  /** The paths of the listed names that are files, in listing order. */
  function FilePaths(dir: string, entries: Directory, names: seq<string>): seq<Path>
    requires forall n :: n in names ==> n in entries
  {
    if names == [] then []
    else (if entries[names[0]].Folder? then [] else [Path(dir, names[0])]) + FilePaths(dir, entries, names[1..])
  }

  function OldNames(results: seq<RenameResult>): seq<Path> {
    if results == [] then [] else [results[0].oldName] + OldNames(results[1..])
  }

  lemma TailOfListing(entries: Directory, names: seq<string>)
    requires names != []
    requires Distinct(names)
    requires forall n :: n in names ==> n in entries
    ensures Distinct(names[1..])
    ensures forall n :: n in names[1..] ==> n in entries && n != names[0]
  {
    forall n | n in names[1..] ensures n != names[0] {
      var i :| 0 <= i < |names[1..]| && names[1..][i] == n;
      assert names[i + 1] == n;
    }
  }

  /** Processing one entry leaves every other listed entry where it was. */
  lemma StepFrames(m: Media, dir: string, entries: Directory, names: seq<string>, prefix: string, suffix: string)
    requires names != []
    requires Distinct(names)
    requires forall n :: n in names ==> n in entries
    requires ProcessEntry(m, dir, entries, names[0], prefix, suffix).Emit?
    ensures var next := ProcessEntry(m, dir, entries, names[0], prefix, suffix).entries;
      forall n :: n in names[1..] ==> n in next && next[n] == entries[n]
  {
    TailOfListing(entries, names);
  }

  lemma {:induction false} FilePathsFrame(dir: string, a: Directory, b: Directory, names: seq<string>)
    requires forall n :: n in names ==> n in a && n in b && a[n] == b[n]
    ensures FilePaths(dir, a, names) == FilePaths(dir, b, names)
    decreases |names|
  {
    if names != [] {
      FilePathsFrame(dir, a, b, names[1..]);
    }
  }

  lemma {:induction false} OldNamesAppend(xs: seq<RenameResult>, ys: seq<RenameResult>)
    ensures OldNames(xs + ys) == OldNames(xs) + OldNames(ys)
    decreases |xs|
  {
    if xs == [] {
      assert xs + ys == ys;
    } else {
      assert (xs + ys)[1..] == xs[1..] + ys;
      OldNamesAppend(xs[1..], ys);
    }
  }

  /** Every listed file, and nothing else, gets exactly one result, in listing
      order; a failure does not stop the walk. Only an escaping extraction
      error ends it early, and then right at the entry that raised it. */
  lemma {:induction false} WalkFollowsListing(m: Media, dir: string, entries: Directory, names: seq<string>, prefix: string, suffix: string)
    requires Distinct(names)
    requires forall n :: n in names ==> n in entries
    ensures var w := WalkEntries(m, dir, entries, names, prefix, suffix);
      && (w.aborted.None? ==> OldNames(w.results) == FilePaths(dir, entries, names))
      && (w.aborted.Some? ==> OldNames(w.results) + [Path(dir, w.aborted.value.name)] <= FilePaths(dir, entries, names))
      && (w.aborted.Some? ==>
            var a := w.aborted.value;
            && a.name in names && entries[a.name].File?
            && IsSupported(TableOf(m), StripDots(Suffix(a.name)))
            && ExtractCreationDate(m, entries[a.name].exif, entries[a.name].mediaInfo) == Raised(a.error))
    decreases |names|
  {
    if names != [] {
      TailOfListing(entries, names);
      var s := ProcessEntry(m, dir, entries, names[0], prefix, suffix);
      if s.Skip? {
        WalkFollowsListing(m, dir, entries, names[1..], prefix, suffix);
      } else if s.Emit? {
        StepFrames(m, dir, entries, names, prefix, suffix);
        FilePathsFrame(dir, entries, s.entries, names[1..]);
        WalkFollowsListing(m, dir, s.entries, names[1..], prefix, suffix);
        WalkEmit(m, dir, entries, names, prefix, suffix);
        ConsFollowsListing(dir, s.result, WalkEntries(m, dir, s.entries, names[1..], prefix, suffix),
                           WalkEntries(m, dir, entries, names, prefix, suffix),
                           FilePaths(dir, entries, names[1..]), FilePaths(dir, entries, names));
      }
    }
  }

  /** Putting one result for the next listed file in front of a walk that
      follows the rest of the listing gives a walk that follows the listing. */
  lemma ConsFollowsListing(dir: string, r: RenameResult, rest: Walk, w: Walk, tail: seq<Path>, paths: seq<Path>)
    requires w.results == [r] + rest.results && w.aborted == rest.aborted
    requires paths == [r.oldName] + tail
    requires rest.aborted.None? ==> OldNames(rest.results) == tail
    requires rest.aborted.Some? ==> OldNames(rest.results) + [Path(dir, rest.aborted.value.name)] <= tail
    ensures w.aborted.None? ==> OldNames(w.results) == paths
    ensures w.aborted.Some? ==> OldNames(w.results) + [Path(dir, w.aborted.value.name)] <= paths
  {
    OldNamesAppend([r], rest.results);
    assert OldNames([r]) == [r.oldName];
  }

  /** A listed entry that is a file has its path among the listing's file paths. */
  lemma {:induction false} FilePathsHas(dir: string, entries: Directory, names: seq<string>, n: string)
    requires forall k :: k in names ==> k in entries
    requires n in names && entries[n].File?
    ensures Path(dir, n) in FilePaths(dir, entries, names)
    decreases |names|
  {
    if names[0] != n {
      assert n in names[1..];
      FilePathsHas(dir, entries, names[1..], n);
    }
  }

  /** Renaming a whole directory that no extraction error cuts short yields
      one result per listed file, in listing order, so every file of the
      directory gets one. */
  lemma RenameWithDateCoversDirectory(m: Media, dir: string, entries: Directory, listing: seq<string>,
                                      prefix: string, suffix: string)
    requires IsListingOf(listing, entries)
    ensures var r := RenameWithDate(m, dir, Listed(entries, listing), prefix, suffix);
      && r.Success?
      && (r.value.aborted.None? ==>
            && OldNames(r.value.results) == FilePaths(dir, entries, listing)
            && forall n :: n in entries && entries[n].File? ==> Path(dir, n) in OldNames(r.value.results))
  {
    WalkFollowsListing(m, dir, entries, listing, prefix, suffix);
    forall n | n in entries && entries[n].File? ensures Path(dir, n) in FilePaths(dir, entries, listing) {
      FilePathsHas(dir, entries, listing, n);
    }
  }

  /** The walk at an entry it skips goes straight on to the next one. */
  lemma WalkSkip(m: Media, dir: string, entries: Directory, names: seq<string>, prefix: string, suffix: string)
    requires names != [] && Distinct(names)
    requires forall n :: n in names ==> n in entries
    requires ProcessEntry(m, dir, entries, names[0], prefix, suffix).Skip?
    ensures Distinct(names[1..])
    ensures forall n :: n in names[1..] ==> n in entries && n != names[0]
    ensures WalkEntries(m, dir, entries, names, prefix, suffix) == WalkEntries(m, dir, entries, names[1..], prefix, suffix)
  {
    TailOfListing(entries, names);
  }

  /** The walk at an entry that yields a result: that result first, then the
      walk over the rest of the listing in the directory as it now is. */
  lemma WalkEmit(m: Media, dir: string, entries: Directory, names: seq<string>, prefix: string, suffix: string)
    requires names != [] && Distinct(names)
    requires forall n :: n in names ==> n in entries
    requires ProcessEntry(m, dir, entries, names[0], prefix, suffix).Emit?
    ensures var s := ProcessEntry(m, dir, entries, names[0], prefix, suffix);
      && Distinct(names[1..])
      && (forall n :: n in names[1..] ==> n in s.entries && s.entries[n] == entries[n] && n != names[0])
      && WalkEntries(m, dir, entries, names, prefix, suffix) == WalkEntries(m, dir, s.entries, names[1..], prefix, suffix).(
           results := [s.result] + WalkEntries(m, dir, s.entries, names[1..], prefix, suffix).results)
  {
    TailOfListing(entries, names);
    StepFrames(m, dir, entries, names, prefix, suffix);
  }

  /** An entry the walk never reaches, and that no earlier move lands on,
      keeps its name and contents. */
  lemma {:induction false} WalkKeepsUnlisted(m: Media, dir: string, entries: Directory, names: seq<string>, prefix: string, suffix: string, k: string)
    requires Distinct(names)
    requires forall n :: n in names ==> n in entries
    requires k in entries && k !in names
    ensures var w := WalkEntries(m, dir, entries, names, prefix, suffix);
      k in w.entries && w.entries[k] == entries[k]
    decreases |names|
  {
    if names != [] {
      var s := ProcessEntry(m, dir, entries, names[0], prefix, suffix);
      assert k !in names[1..] && k != names[0] by {
        assert forall n :: n in names[1..] ==> n in names;
      }
      if s.Skip? {
        WalkSkip(m, dir, entries, names, prefix, suffix);
        WalkKeepsUnlisted(m, dir, entries, names[1..], prefix, suffix, k);
      } else if s.Emit? {
        WalkEmit(m, dir, entries, names, prefix, suffix);
        WalkKeepsUnlisted(m, dir, s.entries, names[1..], prefix, suffix, k);
      }
    }
  }

  /** Every result is about one of the listed names. */
  lemma {:induction false} WalkOldNamesListed(m: Media, dir: string, entries: Directory, names: seq<string>, prefix: string, suffix: string)
    requires Distinct(names)
    requires forall n :: n in names ==> n in entries
    ensures forall r :: r in WalkEntries(m, dir, entries, names, prefix, suffix).results ==> r.oldName.name in names
    decreases |names|
  {
    if names != [] {
      var s := ProcessEntry(m, dir, entries, names[0], prefix, suffix);
      assert forall n :: n in names[1..] ==> n in names;
      if s.Skip? {
        WalkSkip(m, dir, entries, names, prefix, suffix);
        WalkOldNamesListed(m, dir, entries, names[1..], prefix, suffix);
      } else if s.Emit? {
        WalkEmit(m, dir, entries, names, prefix, suffix);
        WalkOldNamesListed(m, dir, s.entries, names[1..], prefix, suffix);
      }
    }
  }

  /** Every failed result names a file that is still there, unchanged. */
  predicate FailedInPlace(results: seq<RenameResult>, before: Directory, after: Directory) {
    forall r :: r in results && !r.success ==>
      r.oldName.name in before && r.oldName.name in after && after[r.oldName.name] == before[r.oldName.name]
  }

  /** Every successful result names a file found under its new name with the
      contents it had under its old one. */
  predicate MovedInPlace(results: seq<RenameResult>, before: Directory, after: Directory) {
    forall r :: r in results && r.success ==>
      r.oldName.name in before && r.newName.name in after && after[r.newName.name] == before[r.oldName.name]
  }

  lemma InPlaceCons(r: RenameResult, rs: seq<RenameResult>, before: Directory, next: Directory,
                    after: Directory, tail: seq<string>)
    requires forall x :: x in rs ==> x.oldName.name in tail
    requires forall n :: n in tail ==> n in before && n in next && next[n] == before[n]
    requires FailedInPlace(rs, next, after) && MovedInPlace(rs, next, after)
    requires !r.success ==> r.oldName.name in before && r.oldName.name in after && after[r.oldName.name] == before[r.oldName.name]
    requires r.success ==> r.oldName.name in before && r.newName.name in after && after[r.newName.name] == before[r.oldName.name]
    ensures FailedInPlace([r] + rs, before, after) && MovedInPlace([r] + rs, before, after)
  {
    assert forall x :: x in [r] + rs ==> x == r || x in rs;
  }

  /** A file whose rename failed is still there under its old name,
      unchanged; a file that was renamed is found under its new name with its
      contents. */
  lemma {:induction false} WalkInPlace(m: Media, dir: string, entries: Directory, names: seq<string>, prefix: string, suffix: string)
    requires Distinct(names)
    requires forall n :: n in names ==> n in entries
    ensures var w := WalkEntries(m, dir, entries, names, prefix, suffix);
      FailedInPlace(w.results, entries, w.entries) && MovedInPlace(w.results, entries, w.entries)
    decreases |names|
  {
    if names != [] {
      var s := ProcessEntry(m, dir, entries, names[0], prefix, suffix);
      if s.Skip? {
        WalkSkip(m, dir, entries, names, prefix, suffix);
        WalkInPlace(m, dir, entries, names[1..], prefix, suffix);
      } else if s.Emit? {
        WalkEmit(m, dir, entries, names, prefix, suffix);
        var rest := WalkEntries(m, dir, s.entries, names[1..], prefix, suffix);
        WalkInPlace(m, dir, s.entries, names[1..], prefix, suffix);
        WalkOldNamesListed(m, dir, s.entries, names[1..], prefix, suffix);
        var kept := if s.result.success then s.result.newName.name else names[0];
        assert kept in s.entries && kept !in names[1..];
        WalkKeepsUnlisted(m, dir, s.entries, names[1..], prefix, suffix, kept);
        InPlaceCons(s.result, rest.results, entries, s.entries, rest.entries, names[1..]);
      }
    }
  }

  /** No rename of the walk lands on a name that was present when the walk
      began and that the walk never reaches. */
  lemma {:induction false} WalkTargetsAvoid(m: Media, dir: string, entries: Directory, names: seq<string>, prefix: string, suffix: string, k: string)
    requires Distinct(names)
    requires forall n :: n in names ==> n in entries
    requires k in entries && k !in names
    ensures forall r :: r in WalkEntries(m, dir, entries, names, prefix, suffix).results && r.success ==> r.newName.name != k
    decreases |names|
  {
    if names != [] {
      var s := ProcessEntry(m, dir, entries, names[0], prefix, suffix);
      assert k !in names[1..] && k != names[0] by {
        assert forall n :: n in names[1..] ==> n in names;
      }
      if s.Skip? {
        WalkSkip(m, dir, entries, names, prefix, suffix);
        WalkTargetsAvoid(m, dir, entries, names[1..], prefix, suffix, k);
      } else if s.Emit? {
        WalkEmit(m, dir, entries, names, prefix, suffix);
        WalkTargetsAvoid(m, dir, s.entries, names[1..], prefix, suffix, k);
      }
    }
  }

  /** No two successful results name the same target. */
  predicate TargetsDistinct(results: seq<RenameResult>) {
    forall i, j :: 0 <= i < j < |results| && results[i].success && results[j].success ==>
      results[i].newName != results[j].newName
  }

  lemma TargetsDistinctCons(r: RenameResult, rs: seq<RenameResult>)
    requires TargetsDistinct(rs)
    requires r.success ==> forall x :: x in rs && x.success ==> x.newName.name != r.newName.name
    ensures TargetsDistinct([r] + rs)
  {
    var all := [r] + rs;
    forall i, j | 0 <= i < j < |all| && all[i].success && all[j].success
      ensures all[i].newName != all[j].newName
    {
      if i == 0 {
        assert all[j] == rs[j - 1] && rs[j - 1] in rs;
      } else {
        assert all[i] == rs[i - 1] && all[j] == rs[j - 1];
      }
    }
  }

  /** No file is overwritten during the walk: two successful renames never
      share a target. */
  lemma {:induction false} WalkTargetsDistinct(m: Media, dir: string, entries: Directory, names: seq<string>, prefix: string, suffix: string)
    requires Distinct(names)
    requires forall n :: n in names ==> n in entries
    ensures TargetsDistinct(WalkEntries(m, dir, entries, names, prefix, suffix).results)
    decreases |names|
  {
    if names != [] {
      var s := ProcessEntry(m, dir, entries, names[0], prefix, suffix);
      if s.Skip? {
        WalkSkip(m, dir, entries, names, prefix, suffix);
        WalkTargetsDistinct(m, dir, entries, names[1..], prefix, suffix);
      } else if s.Emit? {
        WalkEmit(m, dir, entries, names, prefix, suffix);
        WalkTargetsDistinct(m, dir, s.entries, names[1..], prefix, suffix);
        if s.result.success {
          assert s.result.newName.name !in names[1..];
          WalkTargetsAvoid(m, dir, s.entries, names[1..], prefix, suffix, s.result.newName.name);
        }
        TargetsDistinctCons(s.result, WalkEntries(m, dir, s.entries, names[1..], prefix, suffix).results);
      }
    }
  }

  /** Processing a supported file whose date is found: it moves to the
      planned name unless that name is taken or the move is refused, in which
      case it yields a failed result and the directory is left as it was. */
  lemma DatedFileStep(m: Media, dir: string, entries: Directory, base: string, ext: string,
                      date: Timestamp, prefix: string, suffix: string)
    requires base != [] && ext != [] && '.' !in ext && IsSupported(TableOf(m), ext)
    requires base + "." + ext in entries
    requires var f := entries[base + "." + ext];
      f.File? && ExtractCreationDate(m, f.exif, f.mediaInfo) == Found(date)
    ensures var name := base + "." + ext;
      var target := prefix + DateText.Stamp(date) + suffix + "." + Normalize(TableOf(m), ext);
      ProcessEntry(m, dir, entries, name, prefix, suffix)
      == if target in entries || entries[name].renameRefused then Emit(Failed(Path(dir, name)), entries)
         else Emit(RenameResult(Path(dir, name), Path(dir, target), true), (entries - {name})[target := entries[name]])
  {
    var name := base + "." + ext;
    ClassifyJoined(dir, base, ext);
    PlannedName(TableOf(m), FileInformation(Path(dir, name), dir, base, ext, Some(date)), prefix, suffix);
  }

  lemma JoinedDistinct(baseA: string, baseB: string, ext: string)
    requires baseA != baseB
    ensures baseA + "." + ext != baseB + "." + ext
  {
    var a, b := baseA + "." + ext, baseB + "." + ext;
    if |a| == |b| {
      assert a[..|baseA|] == baseA && b[..|baseB|] == baseB;
    }
  }

  /** A walk over one file that yields a result. */
  lemma WalkOne(m: Media, dir: string, entries: Directory, a: string, prefix: string, suffix: string,
                first: RenameResult, after: Directory)
    requires a in entries
    requires ProcessEntry(m, dir, entries, a, prefix, suffix) == Emit(first, after)
    ensures Distinct([a])
    ensures WalkEntries(m, dir, entries, [a], prefix, suffix) == Walk([first], after, None)
  {
    assert [a][1..] == [];
    assert WalkEntries(m, dir, after, [], prefix, suffix) == Walk([], after, None);
  }

  /** A walk over two files that both yield a result. */
  lemma WalkTwo(m: Media, dir: string, entries: Directory, a: string, b: string, prefix: string, suffix: string,
                first: RenameResult, between: Directory, second: RenameResult, after: Directory)
    requires a != b && a in entries && b in entries
    requires ProcessEntry(m, dir, entries, a, prefix, suffix) == Emit(first, between)
    requires b in between && ProcessEntry(m, dir, between, b, prefix, suffix) == Emit(second, after)
    ensures Distinct([a, b])
    ensures WalkEntries(m, dir, entries, [a, b], prefix, suffix) == Walk([first, second], after, None)
  {
    assert [a, b][1..] == [b];
    WalkOne(m, dir, between, b, prefix, suffix, second, after);
    assert [first] + [second] == [first, second];
  }

  /** Two supported files in one directory carrying the same date, and so
      planned under the same name that nothing holds yet: walking just those
      two, the first is renamed and the second is refused and stays where it
      was. */
  lemma SameStampCollide(m: Media, dir: string, entries: Directory, baseA: string, baseB: string, ext: string,
                         date: Timestamp, prefix: string, suffix: string, a: string, b: string, target: string)
    requires baseA != [] && baseB != [] && baseA != baseB
    requires ext != [] && '.' !in ext && IsSupported(TableOf(m), ext)
    requires a == baseA + "." + ext && b == baseB + "." + ext
    requires a in entries && b in entries
    requires entries[a].File? && entries[b].File? && !entries[a].renameRefused
    requires ExtractCreationDate(m, entries[a].exif, entries[a].mediaInfo) == Found(date)
    requires ExtractCreationDate(m, entries[b].exif, entries[b].mediaInfo) == Found(date)
    requires target == prefix + DateText.Stamp(date) + suffix + "." + Normalize(TableOf(m), ext)
    requires target !in entries
    ensures var moved := (entries - {a})[target := entries[a]];
      && Distinct([a, b])
      && WalkEntries(m, dir, entries, [a, b], prefix, suffix)
         == Walk([RenameResult(Path(dir, a), Path(dir, target), true), Failed(Path(dir, b))], moved, None)
      && b in moved && moved[b] == entries[b]
  {
    JoinedDistinct(baseA, baseB, ext);
    var moved := (entries - {a})[target := entries[a]];
    MovesFirst(m, dir, entries, baseA, ext, date, prefix, suffix, target, moved);
    assert b in moved && moved[b] == entries[b] && target in moved;
    RefusesSecond(m, dir, moved, baseB, ext, date, prefix, suffix, target);
    WalkTwo(m, dir, entries, a, b, prefix, suffix,
            RenameResult(Path(dir, a), Path(dir, target), true), moved, Failed(Path(dir, b)), moved);
  }

  lemma MovesFirst(m: Media, dir: string, entries: Directory, base: string, ext: string,
                   date: Timestamp, prefix: string, suffix: string, target: string, moved: Directory)
    requires base != [] && ext != [] && '.' !in ext && IsSupported(TableOf(m), ext)
    requires base + "." + ext in entries
    requires var f := entries[base + "." + ext];
      f.File? && !f.renameRefused && ExtractCreationDate(m, f.exif, f.mediaInfo) == Found(date)
    requires target == prefix + DateText.Stamp(date) + suffix + "." + Normalize(TableOf(m), ext)
    requires target !in entries
    requires moved == (entries - {base + "." + ext})[target := entries[base + "." + ext]]
    ensures ProcessEntry(m, dir, entries, base + "." + ext, prefix, suffix)
         == Emit(RenameResult(Path(dir, base + "." + ext), Path(dir, target), true), moved)
  {
    DatedFileStep(m, dir, entries, base, ext, date, prefix, suffix);
  }

  lemma RefusesSecond(m: Media, dir: string, entries: Directory, base: string, ext: string,
                      date: Timestamp, prefix: string, suffix: string, target: string)
    requires base != [] && ext != [] && '.' !in ext && IsSupported(TableOf(m), ext)
    requires base + "." + ext in entries
    requires var f := entries[base + "." + ext];
      f.File? && ExtractCreationDate(m, f.exif, f.mediaInfo) == Found(date)
    requires target == prefix + DateText.Stamp(date) + suffix + "." + Normalize(TableOf(m), ext)
    requires target in entries
    ensures ProcessEntry(m, dir, entries, base + "." + ext, prefix, suffix) == Emit(Failed(Path(dir, base + "." + ext)), entries)
  {
    DatedFileStep(m, dir, entries, base, ext, date, prefix, suffix);
  }

  /** A listing in which no file has a supported extension: every file yields
      a failed result, nothing ends the walk early and nothing is renamed. */
  lemma {:induction false} WalkUnsupported(m: Media, dir: string, entries: Directory, names: seq<string>, prefix: string, suffix: string)
    requires Distinct(names)
    requires forall n :: n in names ==> n in entries
    requires forall n :: n in names && entries[n].File? ==> !IsSupported(TableOf(m), StripDots(Suffix(n)))
    ensures var w := WalkEntries(m, dir, entries, names, prefix, suffix);
      && w.aborted.None? && w.entries == entries
      && (forall r :: r in w.results ==> !r.success)
    decreases |names|
  {
    if names != [] {
      var s := ProcessEntry(m, dir, entries, names[0], prefix, suffix);
      if s.Skip? {
        WalkSkip(m, dir, entries, names, prefix, suffix);
      } else {
        assert s.Emit?;
        WalkEmit(m, dir, entries, names, prefix, suffix);
      }
      assert forall n :: n in names[1..] ==> n in names;
      WalkUnsupported(m, dir, entries, names[1..], prefix, suffix);
    }
  }

  /** `name` is a file the walk renames to `target`: its extension is
      supported, its date is found, the move is not refused, and `target` is
      `<prefix><stamp><suffix>.<canonical extension>`. */
  predicate RenamesTo(m: Media, entries: Directory, name: string, prefix: string, suffix: string, target: string) {
    && name in entries
    && entries[name].File?
    && !entries[name].renameRefused
    && IsSupported(TableOf(m), StripDots(Suffix(name)))
    && var x := ExtractCreationDate(m, entries[name].exif, entries[name].mediaInfo);
       && x.Found?
       && target == prefix + DateText.Stamp(x.date) + suffix + "." + Normalize(TableOf(m), StripDots(Suffix(name)))
  }

  /** A file planned under a free name is moved there. */
  lemma RenamedStep(m: Media, dir: string, entries: Directory, name: string, prefix: string, suffix: string, target: string)
    requires RenamesTo(m, entries, name, prefix, suffix, target)
    requires target !in entries
    ensures ProcessEntry(m, dir, entries, name, prefix, suffix)
         == Emit(RenameResult(Path(dir, name), Path(dir, target), true), (entries - {name})[target := entries[name]])
  {
  }

  /** The results of a walk in which every listed file is renamed: the
      first file's result, then those of the rest, name for name. */
  lemma RenamedCons(dir: string, names: seq<string>, targets: seq<string>, rs: seq<RenameResult>)
    requires names != [] && |targets| == |names| && |rs| == |names| - 1
    requires forall i :: 0 <= i < |rs| ==> rs[i] == RenameResult(Path(dir, names[1..][i]), Path(dir, targets[1..][i]), true)
    ensures var all := [RenameResult(Path(dir, names[0]), Path(dir, targets[0]), true)] + rs;
      forall i :: 0 <= i < |names| ==> all[i] == RenameResult(Path(dir, names[i]), Path(dir, targets[i]), true)
  {
  }

  /** Every listed file is renamed to the target at its position, and the
      targets are pairwise different names nothing holds yet. */
  predicate AllRenamed(m: Media, entries: Directory, names: seq<string>, prefix: string, suffix: string,
                       targets: seq<string>) {
    && |targets| == |names|
    && Distinct(targets)
    && (forall i :: 0 <= i < |names| ==> RenamesTo(m, entries, names[i], prefix, suffix, targets[i]))
    && (forall i :: 0 <= i < |targets| ==> targets[i] !in entries)
  }

  /** The walk at a file that is renamed: its result first, then the walk
      over the rest of the listing in the directory after the move. */
  lemma WalkRenamedHead(m: Media, dir: string, entries: Directory, names: seq<string>,
                        prefix: string, suffix: string, targets: seq<string>, next: Directory)
    requires names != [] && Distinct(names)
    requires forall n :: n in names ==> n in entries
    requires AllRenamed(m, entries, names, prefix, suffix, targets)
    requires next == (entries - {names[0]})[targets[0] := entries[names[0]]]
    ensures Distinct(names[1..])
    ensures forall n :: n in names[1..] ==> n in next && next[n] == entries[n]
    ensures WalkEntries(m, dir, entries, names, prefix, suffix)
         == WalkEntries(m, dir, next, names[1..], prefix, suffix).(
              results := [RenameResult(Path(dir, names[0]), Path(dir, targets[0]), true)]
                         + WalkEntries(m, dir, next, names[1..], prefix, suffix).results)
  {
    RenamedStep(m, dir, entries, names[0], prefix, suffix, targets[0]);
    WalkEmit(m, dir, entries, names, prefix, suffix);
  }

  /** Whether a file is renamed, and to what, depends on its own entry only. */
  lemma RenamesToSameEntry(m: Media, entries: Directory, next: Directory, name: string,
                           prefix: string, suffix: string, target: string)
    requires RenamesTo(m, entries, name, prefix, suffix, target)
    requires name in next && next[name] == entries[name]
    ensures RenamesTo(m, next, name, prefix, suffix, target)
  {
  }

  /** Dropping the first name keeps a sequence's names pairwise different. */
  lemma DistinctTail(names: seq<string>)
    requires names != [] && Distinct(names)
    ensures Distinct(names[1..])
    ensures forall n :: n in names[1..] ==> n != names[0]
  {
    forall i, j | 0 <= i < j < |names| - 1 ensures names[1..][i] != names[1..][j] {
      assert names[i + 1] != names[j + 1];
    }
    forall n | n in names[1..] ensures n != names[0] {
      var i :| 0 <= i < |names[1..]| && names[1..][i] == n;
      assert names[i + 1] == n;
    }
  }

  /** The rest of a listing is renamed as before in a directory that keeps
      the entries of its names. */
  lemma TailRenames(m: Media, entries: Directory, next: Directory, names: seq<string>,
                    prefix: string, suffix: string, targets: seq<string>)
    requires names != [] && |targets| == |names|
    requires forall i :: 0 <= i < |names| ==> RenamesTo(m, entries, names[i], prefix, suffix, targets[i])
    requires forall n :: n in names[1..] ==> n in entries && n in next && next[n] == entries[n]
    ensures forall i :: 0 <= i < |names| - 1 ==> RenamesTo(m, next, names[1..][i], prefix, suffix, targets[1..][i])
  {
    forall i | 0 <= i < |names| - 1
      ensures RenamesTo(m, next, names[1..][i], prefix, suffix, targets[1..][i])
    {
      assert names[1..][i] == names[i + 1] && targets[1..][i] == targets[i + 1];
      assert names[i + 1] in names[1..];
      RenamesToSameEntry(m, entries, next, names[i + 1], prefix, suffix, targets[i + 1]);
    }
  }

  /** Moving a file to the first of pairwise different free names leaves the
      others free. */
  lemma TailTargetsFree(entries: Directory, next: Directory, name: string, targets: seq<string>)
    requires targets != [] && Distinct(targets)
    requires forall i :: 0 <= i < |targets| ==> targets[i] !in entries
    requires name in entries
    requires next == (entries - {name})[targets[0] := entries[name]]
    ensures Distinct(targets[1..])
    ensures forall i :: 0 <= i < |targets| - 1 ==> targets[1..][i] !in next
  {
    DistinctTail(targets);
    forall i | 0 <= i < |targets| - 1 ensures targets[1..][i] !in next {
      assert targets[1..][i] == targets[i + 1] && targets[i + 1] !in entries;
      assert targets[i + 1] in targets[1..];
    }
  }

  /** After the first file of such a listing moves, the rest of the listing
      still meets the conditions in the directory as it now is. */
  lemma RenamedTail(m: Media, entries: Directory, names: seq<string>, prefix: string, suffix: string,
                    targets: seq<string>, next: Directory)
    requires names != [] && Distinct(names)
    requires forall n :: n in names ==> n in entries
    requires AllRenamed(m, entries, names, prefix, suffix, targets)
    requires next == (entries - {names[0]})[targets[0] := entries[names[0]]]
    ensures forall n :: n in names[1..] ==> n in next
    ensures AllRenamed(m, next, names[1..], prefix, suffix, targets[1..])
  {
    TailOfListing(entries, names);
    TailTargetsFree(entries, next, names[0], targets);
    TailRenames(m, entries, next, names, prefix, suffix, targets);
  }

  /** A listing of files that all have a supported extension, a date and a
      movable entry, planned under pairwise different names nothing holds
      yet: the walk ends normally and renames every file to its planned
      name, in listing order. */
  lemma {:induction false} WalkAllRenamed(m: Media, dir: string, entries: Directory, names: seq<string>,
                                          prefix: string, suffix: string, targets: seq<string>)
    requires Distinct(names)
    requires forall n :: n in names ==> n in entries
    requires AllRenamed(m, entries, names, prefix, suffix, targets)
    ensures var w := WalkEntries(m, dir, entries, names, prefix, suffix);
      && w.aborted.None?
      && |w.results| == |names|
      && forall i :: 0 <= i < |names| ==> w.results[i] == RenameResult(Path(dir, names[i]), Path(dir, targets[i]), true)
    decreases |names|
  {
    if names != [] {
      var next := (entries - {names[0]})[targets[0] := entries[names[0]]];
      WalkRenamedHead(m, dir, entries, names, prefix, suffix, targets, next);
      RenamedTail(m, entries, names, prefix, suffix, targets, next);
      WalkAllRenamed(m, dir, next, names[1..], prefix, suffix, targets[1..]);
      RenamedCons(dir, names, targets, WalkEntries(m, dir, next, names[1..], prefix, suffix).results);
    }
  }
}
