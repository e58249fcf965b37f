/** `rename_file`: moving one entry of a directory to its planned name, never
    over an existing entry. The directory is a map from entry names to
    entries; each file carries its metadata readings. */
module Rename {
  import opened Wrappers
  import opened Metadata
  import opened Files
  import opened Extensions

  datatype Entry =
    | Folder
    | File(exif: ExifReading, mediaInfo: MediaInfoReading, renameRefused: bool)
      // `renameRefused`: the operating system rejects moving this file

  type Directory = map<string, Entry>

  /** `FileExistsError`, or any other exception `Path.rename` raises. */
  datatype RenameError = FileExists | RenameFailed

  datatype Renamed = Renamed(outcome: Result<FileInformation, RenameError>, entries: Directory)

  /** `after` is `before` with the entry at `source` moved to the fresh name
      `target`, and nothing else changed. */
  ghost predicate Moved(before: Directory, source: string, target: string, after: Directory) {
    && source in before && target !in before
    && target in after && source !in after
    && after[target] == before[source]
    && (forall k :: k != source && k != target ==> (k in after <==> k in before))
    && (forall k :: k in before && k != source ==> after[k] == before[k])
  }

  lemma MovedSize(before: Directory, source: string, target: string, after: Directory)
    requires Moved(before, source, target, after)
    ensures |after| == |before|
  {
    assert after.Keys == before.Keys - {source} + {target};
  }

  /** Refuses when the planned name is taken, leaving the directory as it
      was; otherwise moves the file there and reports its new information. */
  function RenameFile(m: Media, entries: Directory, info: FileInformation, prefix: string, suffix: string)
    : (r: Renamed)
    requires info.dateCreated.Some?
    requires IsSupported(TableOf(m), info.extension)
    ensures var planned := CreateRenamedFileInformation(TableOf(m), info, prefix, suffix);
      && (planned.path.name in entries ==> r.outcome == Failure(FileExists))
      && (r.outcome.Failure? ==> r.entries == entries)
      && (r.outcome.Success? <==>
            && planned.path.name !in entries
            && info.path.name in entries
            && !(entries[info.path.name].File? && entries[info.path.name].renameRefused))
      && (r.outcome.Success? ==>
            && r.outcome.value == planned
            && Moved(entries, info.path.name, planned.path.name, r.entries)
            && |r.entries| == |entries|)
  {
    var planned := CreateRenamedFileInformation(TableOf(m), info, prefix, suffix);
    var source := info.path.name;
    var target := planned.path.name;
    if target in entries then
      Renamed(Failure(FileExists), entries)
    else if source !in entries || (entries[source].File? && entries[source].renameRefused) then
      Renamed(Failure(RenameFailed), entries)
    else
      var after := (entries - {source})[target := entries[source]];
      MovedSize(entries, source, target, after);
      Renamed(Success(planned), after)
  }
}
