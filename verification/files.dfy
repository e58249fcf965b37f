/** `FileInformation`: classifying a directory entry into stem and extension,
    and planning the timestamped name it is to be renamed to. */
module Files {
  import opened Wrappers
  import opened Calendar
  import opened DateText
  import opened Extensions

  /** A path as its parent directory and final component. */
  datatype Path = Path(dir: string, name: string)

  datatype FileInformation = FileInformation(
    path: Path,
    dir: string,
    name: string,
    extension: string,
    dateCreated: Option<Timestamp>)

  /** The `RuntimeError` `FileInformation.instance` raises for a directory. */
  datatype ClassifyError = NotAFile

  /** `str.rfind`: the index of the last `c`, or -1. */
  function LastIndexOf(s: string, c: char): (i: int)
    ensures -1 <= i < |s|
    ensures i >= 0 ==> s[i] == c
    ensures forall j :: i < j < |s| ==> s[j] != c
  {
    if s == [] then -1
    else if s[|s| - 1] == c then |s| - 1
    else LastIndexOf(s[..|s| - 1], c)
  }

  /** `PurePath.suffix`: from the last dot, unless that dot starts or ends the name. */
  function Suffix(name: string): string {
    var i := LastIndexOf(name, '.');
    if 0 < i < |name| - 1 then name[i..] else ""
  }

  /** `PurePath.stem`: the name without its suffix. */
  function Stem(name: string): string {
    var i := LastIndexOf(name, '.');
    if 0 < i < |name| - 1 then name[..i] else name
  }

  function TrimLeadingDots(s: string): string {
    if s != [] && s[0] == '.' then TrimLeadingDots(s[1..]) else s
  }

  function TrimTrailingDots(s: string): string {
    if s != [] && s[|s| - 1] == '.' then TrimTrailingDots(s[..|s| - 1]) else s
  }

  /** `str.strip('.')`. */
  function StripDots(s: string): string {
    TrimTrailingDots(TrimLeadingDots(s))
  }

  /** `FileInformation.instance`: a directory is refused; a file is split into
      parent, stem and dot-less extension, with no creation date yet. Stem,
      a dot and the extension spell the file name again; a name whose only dot
      leads it (a hidden file such as `.jpg`) has no extension. */
  function Instance(path: Path, isDirectory: bool): (r: Result<FileInformation, ClassifyError>)
    ensures r.Failure? <==> isDirectory
    ensures r.Success? ==> r.value.path == path && r.value.dir == path.dir && r.value.dateCreated == None
    ensures r.Success? ==> '.' !in r.value.extension
    ensures r.Success? ==> path.name == r.value.name + (if r.value.extension == [] then [] else "." + r.value.extension)
    ensures r.Success? && r.value.extension != [] ==> r.value.name != []
  {
    if isDirectory then
      Failure(NotAFile)
    else
      var name := path.name;
      var i := LastIndexOf(name, '.');
      assert 0 < i < |name| - 1 ==> StripDots(Suffix(name)) == name[i + 1..] by {
        if 0 < i < |name| - 1 {
          assert name[i..][1..] == name[i + 1..];
          assert TrimLeadingDots(name[i..]) == name[i + 1..];
        }
      }
      assert 0 < i < |name| - 1 ==> name == name[..i] + "." + name[i + 1..] && |Stem(name)| == i;
      Success(FileInformation(path, path.dir, Stem(name), StripDots(Suffix(name)), None))
  }

  /** `create_renamed_file_information`: same directory, name
      `<prefix><stamp><suffix>`, canonical extension, date carried over. */
  function CreateRenamedFileInformation(t: Table, info: FileInformation, prefix: string, suffix: string)
    : (r: FileInformation)
    requires info.dateCreated.Some?
    requires IsSupported(t, info.extension)
    ensures r.path.dir == info.path.dir && r.dir == info.dir
    ensures r.dateCreated == info.dateCreated
  {
    var name := prefix + Stamp(info.dateCreated.value) + suffix;
    var extension := Normalize(t, info.extension);
    FileInformation(Path(info.path.dir, name + "." + extension), info.dir, name, extension, info.dateCreated)
  }

  /** Classifying `<base>.<ext>`, for a non-empty base and a non-empty
      extension without dots, gives back that base and extension. */
  lemma ClassifyJoined(dir: string, base: string, ext: string)
    requires base != [] && ext != [] && '.' !in ext
    ensures Instance(Path(dir, base + "." + ext), false)
         == Success(FileInformation(Path(dir, base + "." + ext), dir, base, ext, None))
  {
    var name := base + "." + ext;
    assert name[|base|] == '.';
    forall j | |base| < j < |name| ensures name[j] != '.' {
      assert name[j] == ext[j - |base| - 1];
    }
    LastIndexOfIs(name, '.', |base|);
    assert name[..|base|] == base;
    assert name[|base|..][1..] == ext;
    assert TrimLeadingDots(name[|base|..]) == ext;
  }

  /** A hidden file `.<ext>` whose only dot is its first character has no
      extension: its stem is the whole name. */
  lemma HiddenNameHasNoExtension(dir: string, ext: string)
    requires '.' !in ext
    ensures Instance(Path(dir, "." + ext), false).Success?
    ensures Instance(Path(dir, "." + ext), false).value.extension == []
    ensures Instance(Path(dir, "." + ext), false).value.name == "." + ext
  {
  }

  /** The planned file name is `<prefix><stamp><suffix>.<canonical extension>`,
      and classifying it gives back exactly that name and extension: the plan
      is a file name the classifier reads the way the planner meant it. */
  lemma PlannedName(t: Table, info: FileInformation, prefix: string, suffix: string)
    requires info.dir == info.path.dir
    requires info.dateCreated.Some?
    requires IsSupported(t, info.extension)
    ensures var r := CreateRenamedFileInformation(t, info, prefix, suffix);
      && r.path.name == prefix + Stamp(info.dateCreated.value) + suffix + "." + Normalize(t, info.extension)
      && Instance(r.path, false) == Success(r.(dateCreated := None))
      && IsSupported(t, r.extension) && Normalize(t, r.extension) == r.extension
  {
    var base := prefix + Stamp(info.dateCreated.value) + suffix;
    var r := CreateRenamedFileInformation(t, info, prefix, suffix);
    assert r == FileInformation(Path(info.dir, base + "." + r.extension), info.dir, base, r.extension, info.dateCreated);
    ClassifyJoined(info.path.dir, base, Normalize(t, info.extension));
    NormalizeIdempotent(t, info.extension);
  }

  lemma LastIndexOfIs(s: string, c: char, i: int)
    requires 0 <= i < |s| && s[i] == c
    requires forall j :: i < j < |s| ==> s[j] != c
    ensures LastIndexOf(s, c) == i
  {
  }

  lemma PlannedPathOf(t: Table, info: FileInformation, prefix: string, suffix: string, stamp: string, ext: string)
    requires info.dateCreated.Some?
    requires IsSupported(t, info.extension)
    requires Stamp(info.dateCreated.value) == stamp && Normalize(t, info.extension) == ext
    ensures CreateRenamedFileInformation(t, info, prefix, suffix).path == Path(info.path.dir, prefix + stamp + suffix + "." + ext)
  {
  }

  /** The sample photograph dated 2025-11-09 16:38:56, with prefix `prefix_`
      and suffix `_suffix`, is planned as `prefix_20251109T163856_suffix.jpg`. */
  lemma SamplePlannedName(info: FileInformation)
    requires info.dateCreated == Some(DateTime(2025, 11, 9, 16, 38, 56))
    requires info.extension == "JPG"
    ensures IsSupported(ImageTable, info.extension)
    ensures CreateRenamedFileInformation(ImageTable, info, "prefix_", "_suffix").path
         == Path(info.path.dir, "prefix_20251109T163856_suffix.jpg")
  {
    ImageNormalization();
    SampleStamp(info.dateCreated.value);
    PlannedPathOf(ImageTable, info, "prefix_", "_suffix", "20251109T163856", "jpg");
    SampleFileName();
  }

  lemma SampleFileName()
    ensures "prefix_" + "20251109T163856" + "_suffix" + "." + "jpg" == "prefix_20251109T163856_suffix.jpg"
  {
  }
}
