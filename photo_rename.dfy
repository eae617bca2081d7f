/** run: one pass over a directory's listing, renaming each camera still to
    the first free name of its capture second and each companion movie to
    the first free name of the still before it.

    The directory is the set of paths that exist in it.  The pieces of the
    outside world the program consults are inputs: the capture date stored
    in each still (absent when it cannot be read) and the names whose
    rename the operating system refuses. */
module PhotoRename {
  import opened Options
  import opened FileNames
  import opened Listing
  import opened Resolver
  import DateFormat

  /** The arguments of run and the outside world it consults. */
  datatype Env = Env(
    directory: string,
    dryRun: bool,
    earliestValidDate: Option<int>,
    exif: map<string, int>,   // capture moment of each still, by name
    refused: set<string>)     // names whose renameTo fails

  /** The last still seen: its parsed name, capture moment and new name. */
  datatype RenameInfo = RenameInfo(fileName: FileName, date: int, newName: string)

  /** What run reports for one listed name. */
  datatype Decision =
    | Photo(name: string, date: int, valid: bool, newName: string, moved: bool)
    | Video(name: string, date: int, newName: string, moved: bool)
    | OrphanMovie(name: string)
    | NotSupported(name: string)

  /** The exceptions that end a run early. */
  datatype Failure =
    | ListFailed(error: ListError)   // listFiles threw
    | DateMissing(name: string)      // a still without a readable date reached formatter.format

  /** The loop's state: the directory, previousImage, and the report so far. */
  datatype State = State(files: set<string>, previousImage: Option<RenameInfo>, log: seq<Decision>)

  datatype Outcome = Outcome(files: set<string>, log: seq<Decision>, failure: Option<Failure>)

  // ---------------------------------------------------------------------
  // The per-file operations

  /** validateDate: a date is valid when present and not before the earliest
      valid date, if one was given (equal counts as valid). */
  function ValidateDate(date: Option<int>, earliestValidDate: Option<int>): (valid: bool)
    ensures valid <==> date.Some? && (earliestValidDate.None? || earliestValidDate.value <= date.value)
  {
    if date.None? then false
    else if earliestValidDate.Some? && date.value < earliestValidDate.value then false
    else true
  }

  /** move: nothing in a dry run; otherwise renameTo, which succeeds when the
      file is still there and the system does not refuse it.  The result is
      whether it moved, and the directory afterwards. */
  function Move(files: set<string>, f: FileName, newName: string, dryRun: bool, refused: set<string>): (r: (bool, set<string>))
    ensures r.0 <==> !dryRun && f.file in files && f.name !in refused
    ensures !r.0 ==> r.1 == files
    ensures r.0 ==> NewPath(f, newName) in r.1 && r.1 - {NewPath(f, newName)} == files - {f.file, NewPath(f, newName)}
    ensures r.0 && NewPath(f, newName) !in files ==> |r.1| == |files|
  {
    if dryRun || f.file !in files || f.name in refused then (false, files)
    else
      var after := files - {f.file} + {NewPath(f, newName)};
      assert files == (files - {f.file}) + {f.file};
      (true, after)
  }

  /** The capture moment readDateFromFile yields for a listed name. */
  function ReadDate(env: Env, name: string): Option<int> {
    if name in env.exif then Some(env.exif[name]) else None
  }

  /** The parsed form of a listed name, as run builds it. */
  function EntryName(env: Env, name: string): FileName {
    ParseFileName(Glue(env.directory, name, None))
  }

  /** One iteration of run's loop.  It fails exactly on a still whose date
      cannot be read; otherwise it adds one entry to the report, and only a
      still changes previousImage. */
  function Step(env: Env, st: State, name: string): (r: Result<State, Failure>)
    ensures r.Err? <==> IsImageName(EntryName(env, name).name) && name !in env.exif
    ensures r.Err? ==> r.error == DateMissing(name)
    ensures r.Ok? ==> |r.value.log| == |st.log| + 1 && r.value.log[..|st.log|] == st.log
    ensures r.Ok? && !IsImageName(EntryName(env, name).name) ==> r.value.previousImage == st.previousImage
  {
    var fileName := EntryName(env, name);
    match Classify(fileName.name)
    case Image =>
      var date := ReadDate(env, name);
      var valid := ValidateDate(date, env.earliestValidDate);
      if date.None? then Err(DateMissing(name))
      else
        var newName := FreeName(fileName, date.value, st.files);
        var (moved, files) := Move(st.files, fileName, newName, env.dryRun, env.refused);
        Ok(State(files, Some(RenameInfo(fileName, date.value, newName)),
                 st.log + [Photo(name, date.value, valid, newName, moved)]))
    case Movie =>
      if st.previousImage.Some? then
        var previous := st.previousImage.value;
        var newName := FreeName(fileName, previous.date, st.files);
        var (moved, files) := Move(st.files, fileName, newName, env.dryRun, env.refused);
        Ok(State(files, st.previousImage, st.log + [Video(name, previous.date, newName, moved)]))
      else
        Ok(st.(log := st.log + [OrphanMovie(name)]))
    case Unsupported =>
      Ok(st.(log := st.log + [NotSupported(name)]))
  }

  /** The loop over the remaining names; a failure stops it where it is.
      The report keeps what came before and gains one entry per name treated:
      one per name when the loop completes, fewer when it stops early. */
  function RunEntries(env: Env, names: seq<string>, st: State): (r: Outcome)
    ensures |st.log| <= |r.log| && r.log[..|st.log|] == st.log
    ensures r.failure.None? ==> |r.log| == |st.log| + |names|
    ensures r.failure.Some? ==> |r.log| < |st.log| + |names|
    decreases |names|
  {
    if |names| == 0 then Outcome(st.files, st.log, None)
    else
      match Step(env, st, names[0])
      case Err(e) => Outcome(st.files, st.log, Some(e))
      case Ok(next) => RunEntries(env, names[1..], next)
  }

  /** The paths in the directory before the run: every entry, directories included. */
  function InitialFiles(directory: string, entries: seq<DirEntry>): set<string> {
    set e | e in entries :: Glue(directory, e.name, None)
  }

  /** run, as a function of its arguments and the listing File.listFiles
      returns (None for null).  A run that completes has reported once for
      every listed regular file. */
  function RunSpec(env: Env, listing: Option<seq<DirEntry>>): (r: Outcome)
    ensures r.failure.None? ==> ListFiles(listing).Ok? && |r.log| == |ListFiles(listing).value|
    ensures ListFiles(listing).Err? ==> r.log == [] && r.failure == Some(ListFailed(ListFiles(listing).error))
  {
    match ListFiles(listing)
    case Err(e) => Outcome({}, [], Some(ListFailed(e)))
    case Ok(names) => RunEntries(env, names, State(InitialFiles(env.directory, listing.value), None, []))
  }

  /** run: list the directory, then treat each name in order. */
  method Run(env: Env, listing: Option<seq<DirEntry>>) returns (outcome: Outcome)
    ensures outcome == RunSpec(env, listing)
  {
    var listed := ListFiles(listing);
    if listed.Err? {
      return Outcome({}, [], Some(ListFailed(listed.error)));
    }
    var names := listed.value;
    var files := InitialFiles(env.directory, listing.value);
    var previousImage: Option<RenameInfo> := None;
    var log: seq<Decision> := [];
    var i := 0;
    while i < |names|
      invariant 0 <= i <= |names|
      invariant RunEntries(env, names[i..], State(files, previousImage, log)) == RunSpec(env, listing)
    {
      var file := names[i];
      assert names[i..][0] == file && names[i..][1..] == names[i + 1..];
      var fileName := ParseFileName(Glue(env.directory, file, None));
      var category := Classify(fileName.name);
      if category == Image {
        var dateFromExif := ReadDate(env, file);
        var valid := ValidateDate(dateFromExif, env.earliestValidDate);
        if dateFromExif.None? {
          return Outcome(files, log, Some(DateMissing(file)));
        }
        var newName := GetFirstFreeName(fileName, dateFromExif.value, files);
        previousImage := Some(RenameInfo(fileName, dateFromExif.value, newName));
        var (moved, after) := Move(files, fileName, newName, env.dryRun, env.refused);
        files := after;
        log := log + [Photo(file, dateFromExif.value, valid, newName, moved)];
      } else if category == Movie {
        if previousImage.Some? {
          var newName := GetFirstFreeName(fileName, previousImage.value.date, files);
          var (moved, after) := Move(files, fileName, newName, env.dryRun, env.refused);
          files := after;
          log := log + [Video(file, previousImage.value.date, newName, moved)];
        } else {
          log := log + [OrphanMovie(file)];
        }
      } else {
        log := log + [NotSupported(file)];
      }
      i := i + 1;
    }
    return Outcome(files, log, None);
  }
}
