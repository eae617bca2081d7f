/** What a run does to the directory and what it reports, stated over the
    model of run: one iteration at a time, then over a whole listing. */
module RunProperties {
  import opened Options
  import opened FileNames
  import opened Listing
  import opened Resolver
  import opened PhotoRename
  import DateFormat

  // ---------------------------------------------------------------------
  // One iteration

  /** A listed name without a separator parses back to the directory and itself. */
  lemma EntryNameOf(env: Env, name: string)
    requires Separator !in name
    ensures EntryName(env, name).file == Glue(env.directory, name, None)
    ensures EntryName(env, name).path == env.directory
    ensures EntryName(env, name).name == name
    ensures '.' in name ==> EntryName(env, name).extension == ExtensionOf(name)
  {
    ParseGlued(env.directory, name);
  }

  /** A listed camera file parses to the directory, its name, and the
      extension after the name's last dot. */
  lemma CameraEntry(env: Env, name: string)
    requires Separator !in name && (IsImageName(name) || IsMovieName(name))
    ensures EntryName(env, name) ==
      FileName(Glue(env.directory, name, None), env.directory, name, StemOf(name), ExtensionOf(name))
  {
    EntryNameOf(env, name);
    CameraNameHasDot(name);
  }

  /** No name the renamer tries for a camera file is that file's own path. */
  lemma CameraFileNeverCandidate(env: Env, name: string)
    requires Separator !in name && (IsImageName(name) || IsMovieName(name))
    ensures forall t :: EntryName(env, name).file != NewPath(EntryName(env, name), DateFormat.FormatSeconds(t))
  {
    var f := EntryName(env, name);
    CameraEntry(env, name);
    forall t
      ensures f.file != NewPath(f, DateFormat.FormatSeconds(t))
    {
      CameraPathNotRendered(env.directory, name, t, f.extension);
    }
  }

  /** A still with a date is renamed to the first free name of its second
      and becomes previousImage. */
  lemma ImageStep(env: Env, st: State, name: string)
    requires IsImageName(EntryName(env, name).name) && name in env.exif
    ensures Step(env, st, name).Ok?
    ensures var f := EntryName(env, name);
      var newName := FreeName(f, env.exif[name], st.files);
      && Step(env, st, name).value.previousImage == Some(RenameInfo(f, env.exif[name], newName))
      && Step(env, st, name).value.files == Move(st.files, f, newName, env.dryRun, env.refused).1
  {
  }

  /** A still whose date is before the earliest valid date is still renamed
      and still becomes previousImage: validateDate's verdict only reaches
      the report. */
  lemma InvalidImageStillRenamed(env: Env, st: State, name: string)
    requires Separator !in name && IsImageName(name) && name in env.exif
    requires env.earliestValidDate.Some? && env.exif[name] < env.earliestValidDate.value
    requires !env.dryRun && Glue(env.directory, name, None) in st.files && name !in env.refused
    ensures Step(env, st, name).Ok?
    ensures var next := Step(env, st, name).value;
      && next.previousImage.Some? && next.previousImage.value.date == env.exif[name]
      && next.log == st.log + [Photo(name, env.exif[name], false, next.previousImage.value.newName, true)]
      && Glue(env.directory, name, None) !in next.files
      && NewPath(EntryName(env, name), next.previousImage.value.newName) in next.files
  {
    var f := EntryName(env, name);
    EntryNameOf(env, name);
    var n := FreeName(f, env.exif[name], st.files);
    DateFormat.FormatSecondsInjective();
    CameraPathNotRendered(env.directory, name, FreeSecond(f, env.exif[name], st.files), f.extension);
  }

  /** A still without a readable date ends the run where it stands. */
  lemma MissingDateAborts(env: Env, names: seq<string>, st: State)
    requires |names| > 0 && IsImageName(EntryName(env, names[0]).name) && names[0] !in env.exif
    ensures RunEntries(env, names, st) == Outcome(st.files, st.log, Some(DateMissing(names[0])))
  {
  }

  /** Any movie while previousImage is set is renamed to the first free name
      of that still's second, with its own extension; the directory is what
      move leaves, and previousImage stays as it was. */
  lemma MovieStep(env: Env, st: State, name: string)
    requires IsMovieName(EntryName(env, name).name) && st.previousImage.Some?
    ensures Step(env, st, name).Ok?
    ensures var f := EntryName(env, name);
      var p := st.previousImage.value;
      var n := FreeName(f, p.date, st.files);
      var (moved, files) := Move(st.files, f, n, env.dryRun, env.refused);
      Step(env, st, name).value == State(files, st.previousImage, st.log + [Video(name, p.date, n, moved)])
  {
    ImageMovieDisjoint(EntryName(env, name).name);
  }

  /** A movie right after a still takes the still's capture moment, is
      renamed from that moment's second on, and leaves previousImage alone. */
  lemma MovieFollowsImage(env: Env, st: State, image: string, movie: string)
    requires IsImageName(EntryName(env, image).name) && image in env.exif
    requires IsMovieName(EntryName(env, movie).name)
    ensures Step(env, st, image).Ok?
    ensures var next := Step(env, st, image).value;
      var f := EntryName(env, movie);
      var n := FreeName(f, env.exif[image], next.files);
      var (moved, files) := Move(next.files, f, n, env.dryRun, env.refused);
      && next.previousImage.Some? && next.previousImage.value.date == env.exif[image]
      && Step(env, next, movie).Ok?
      && Step(env, next, movie).value == State(files, next.previousImage, next.log + [Video(movie, env.exif[image], n, moved)])
  {
    ImageStep(env, st, image);
    MovieStep(env, Step(env, st, image).value, movie);
  }

  /** previousImage is the last still treated, not the entry listed just
      before the movie: a name that matches neither pattern between them (a
      HEIC still, say) is skipped, and the movie still takes the earlier
      still's moment. */
  lemma MovieAfterSkippedName(env: Env, st: State, image: string, other: string, movie: string)
    requires IsImageName(EntryName(env, image).name) && image in env.exif
    requires !IsImageName(EntryName(env, other).name) && !IsMovieName(EntryName(env, other).name)
    requires IsMovieName(EntryName(env, movie).name)
    ensures Step(env, st, image).Ok?
    ensures Step(env, Step(env, st, image).value, other).Ok?
    ensures var mid := Step(env, Step(env, st, image).value, other).value;
      && Step(env, mid, movie).Ok?
      && Step(env, mid, movie).value.log[|mid.log|].Video?
      && Step(env, mid, movie).value.log[|mid.log|].date == env.exif[image]
  {
    ImageStep(env, st, image);
    var next := Step(env, st, image).value;
    SkippedNameKeepsState(env, next, other);
    MovieStep(env, Step(env, next, other).value, movie);
  }

  /** A movie with no still before it, and a name that is neither, change
      neither the directory nor previousImage. */
  lemma SkippedNameKeepsState(env: Env, st: State, name: string)
    requires !IsImageName(EntryName(env, name).name)
    requires !IsMovieName(EntryName(env, name).name) || st.previousImage.None?
    ensures Step(env, st, name).Ok?
    ensures Step(env, st, name).value.files == st.files
    ensures Step(env, st, name).value.previousImage == st.previousImage
    ensures Step(env, st, name).value.log ==
      st.log + [if IsMovieName(EntryName(env, name).name) then OrphanMovie(name) else NotSupported(name)]
  {
  }

  /** No iteration adds or removes a path: a rename targets a free path. */
  lemma StepKeepsCount(env: Env, st: State, name: string)
    requires Step(env, st, name).Ok?
    ensures |Step(env, st, name).value.files| == |st.files|
  {
    var f := EntryName(env, name);
    if IsImageName(f.name) {
      var n := FreeName(f, env.exif[name], st.files);
      assert NewPath(f, n) !in st.files;
    } else if IsMovieName(f.name) && st.previousImage.Some? {
      var n := FreeName(f, st.previousImage.value.date, st.files);
      assert NewPath(f, n) !in st.files;
    }
  }

  /** Two stills of the same second with the same extension, in a dry run:
      nothing is renamed, so the second is offered the first one's name. */
  lemma DryRunBurstSameName(env: Env, st: State, a: string, b: string)
    requires env.dryRun
    requires Separator !in a && Separator !in b && IsImageName(a) && IsImageName(b)
    requires a in env.exif && b in env.exif
    requires env.exif[a] / DateFormat.MillisPerSecond == env.exif[b] / DateFormat.MillisPerSecond
    requires ExtensionOf(a) == ExtensionOf(b)
    ensures Step(env, st, a).Ok?
    ensures var next := Step(env, st, a).value;
      && Step(env, next, b).Ok?
      && next.previousImage.Some? && Step(env, next, b).value.previousImage.Some?
      && Step(env, next, b).value.previousImage.value.newName == next.previousImage.value.newName
  {
    CameraEntry(env, a);
    CameraEntry(env, b);
    FreeNameSameSlot(EntryName(env, a), EntryName(env, b), env.exif[a], env.exif[b], st.files);
    ImageStep(env, st, a);
    ImageStep(env, Step(env, st, a).value, b);
  }

  /** The same burst when renaming for real: the first still's new path now
      exists, so the second one settles on a strictly later second and a
      different name. */
  lemma ExecuteBurstLater(env: Env, st: State, a: string, b: string)
    requires !env.dryRun
    requires Separator !in a && Separator !in b && IsImageName(a) && IsImageName(b)
    requires a in env.exif && b in env.exif
    requires env.exif[a] / DateFormat.MillisPerSecond == env.exif[b] / DateFormat.MillisPerSecond
    requires ExtensionOf(a) == ExtensionOf(b)
    requires Glue(env.directory, a, None) in st.files && a !in env.refused
    ensures Step(env, st, a).Ok?
    ensures var next := Step(env, st, a).value;
      && Step(env, next, b).Ok?
      && next.previousImage.Some? && Step(env, next, b).value.previousImage.Some?
      && Step(env, next, b).value.previousImage.value.newName != next.previousImage.value.newName
  {
    var fa := EntryName(env, a);
    var fb := EntryName(env, b);
    CameraEntry(env, a);
    CameraEntry(env, b);
    CameraFileNeverCandidate(env, a);
    ImageStep(env, st, a);
    var next := Step(env, st, a).value;
    ImageStep(env, next, b);
    var na := FreeName(fa, env.exif[a], st.files);
    assert next.files == st.files - {fa.file} + {NewPath(fa, na)};
    FreeNameAfterRename(fa, fb, env.exif[a], env.exif[b], st.files);
  }

  // ---------------------------------------------------------------------
  // A whole listing

  /** A dry run leaves the directory as it found it. */
  lemma {:induction false} DryRunLeavesDirectory(env: Env, names: seq<string>, st: State)
    requires env.dryRun
    ensures RunEntries(env, names, st).files == st.files
    decreases |names|
  {
    if |names| > 0 && Step(env, st, names[0]).Ok? {
      DryRunLeavesDirectory(env, names[1..], Step(env, st, names[0]).value);
    }
  }

  /** A run never changes how many paths the directory holds: nothing is
      overwritten and nothing is lost. */
  lemma {:induction false} RunKeepsFileCount(env: Env, names: seq<string>, st: State)
    ensures |RunEntries(env, names, st).files| == |st.files|
    decreases |names|
  {
    if |names| > 0 && Step(env, st, names[0]).Ok? {
      StepKeepsCount(env, st, names[0]);
      RunKeepsFileCount(env, names[1..], Step(env, st, names[0]).value);
    }
  }

  /** The earliest valid date steers nothing: with any other earliest date
      the run renames the same files to the same names and fails alike. */
  lemma {:induction false} ValidationDoesNotSteer(env: Env, earliest: Option<int>, names: seq<string>, st: State, st': State)
    requires st.files == st'.files && st.previousImage == st'.previousImage
    ensures RunEntries(env, names, st).files == RunEntries(env.(earliestValidDate := earliest), names, st').files
    ensures RunEntries(env, names, st).failure == RunEntries(env.(earliestValidDate := earliest), names, st').failure
    decreases |names|
  {
    var env' := env.(earliestValidDate := earliest);
    if |names| > 0 {
      var r := Step(env, st, names[0]);
      var r' := Step(env', st', names[0]);
      StepIgnoresEarliest(env, earliest, st, st', names[0]);
      if r.Ok? {
        ValidationDoesNotSteer(env, earliest, names[1..], r.value, r'.value);
      }
    }
  }

  /** One iteration under another earliest date: the same success or
      failure, the same directory, the same previousImage. */
  lemma StepIgnoresEarliest(env: Env, earliest: Option<int>, st: State, st': State, name: string)
    requires st.files == st'.files && st.previousImage == st'.previousImage
    ensures var r := Step(env, st, name);
      var r' := Step(env.(earliestValidDate := earliest), st', name);
      && (r.Ok? <==> r'.Ok?)
      && (r.Err? ==> r == r')
      && (r.Ok? ==> r.value.files == r'.value.files && r.value.previousImage == r'.value.previousImage)
  {
    var env' := env.(earliestValidDate := earliest);
    assert EntryName(env', name) == EntryName(env, name);
    assert ReadDate(env', name) == ReadDate(env, name);
  }

  /** A run ends early only on a still whose date cannot be read. */
  lemma {:induction false} OnlyMissingDatesFail(env: Env, names: seq<string>, st: State)
    ensures RunEntries(env, names, st).failure.Some? ==>
      exists k :: 0 <= k < |names|
        && RunEntries(env, names, st).failure == Some(DateMissing(names[k]))
        && IsImageName(EntryName(env, names[k]).name)
        && names[k] !in env.exif
    decreases |names|
  {
    if |names| > 0 {
      var r := Step(env, st, names[0]);
      if r.Ok? {
        var rest := names[1..];
        OnlyMissingDatesFail(env, rest, r.value);
        var out := RunEntries(env, rest, r.value);
        assert RunEntries(env, names, st) == out;
        if out.failure.Some? {
          var k :| 0 <= k < |rest|
            && out.failure == Some(DateMissing(rest[k]))
            && IsImageName(EntryName(env, rest[k]).name)
            && rest[k] !in env.exif;
          assert rest[k] == names[k + 1];
        }
      } else {
        assert RunEntries(env, names, st).failure == Some(DateMissing(names[0]));
      }
    }
  }

  /** A listing of names that are neither stills nor movies, such as the
      names a run produces, leaves the directory alone and completes. */
  lemma {:induction false} NothingToRename(env: Env, names: seq<string>, st: State)
    requires forall k :: 0 <= k < |names| ==> Separator !in names[k] && Classify(names[k]) == Unsupported
    ensures RunEntries(env, names, st).files == st.files
    ensures RunEntries(env, names, st).failure.None?
    ensures |RunEntries(env, names, st).log| == |st.log| + |names|
    decreases |names|
  {
    if |names| > 0 {
      EntryNameOf(env, names[0]);
      SkippedNameKeepsState(env, st, names[0]);
      NothingToRename(env, names[1..], Step(env, st, names[0]).value);
    }
  }

  /** A name the program gives a file is left alone by the next run. */
  lemma RenamedNameUnsupported(env: Env, second: int, extension: string)
    requires Separator !in DateFormat.FormatSeconds(second) + "." + extension
    ensures Classify(EntryName(env, DateFormat.FormatSeconds(second) + "." + extension).name) == Unsupported
  {
    EntryNameOf(env, DateFormat.FormatSeconds(second) + "." + extension);
    CanonicalNameUnsupported(second, extension);
  }

  // ---------------------------------------------------------------------
  // run itself

  /** run fails before renaming anything exactly when the listing is null or empty. */
  lemma RunListingFailure(env: Env, listing: Option<seq<DirEntry>>)
    ensures RunSpec(env, listing).failure == Some(ListFailed(InvalidDirectory)) <==> listing.None?
    ensures RunSpec(env, listing).failure == Some(ListFailed(EmptyDirectory)) <==> listing.Some? && |listing.value| == 0
    ensures listing.None? ==> RunSpec(env, listing).log == []
  {
    if listing.Some? && |listing.value| > 0 {
      var names := ListFiles(listing).value;
      OnlyMissingDatesFail(env, names, State(InitialFiles(env.directory, listing.value), None, []));
    }
  }

  /** A dry run of a listable directory leaves every path where it was, and
      a real run keeps the number of paths. */
  lemma RunDirectory(env: Env, entries: seq<DirEntry>)
    ensures env.dryRun ==> RunSpec(env, Some(entries)).files == InitialFiles(env.directory, entries)
    ensures |RunSpec(env, Some(entries)).files| == |InitialFiles(env.directory, entries)|
  {
    var start := State(InitialFiles(env.directory, entries), None, []);
    if |entries| > 0 {
      var names := ListFiles(Some(entries)).value;
      if env.dryRun {
        DryRunLeavesDirectory(env, names, start);
      }
      RunKeepsFileCount(env, names, start);
    } else {
      assert InitialFiles(env.directory, entries) == {};
    }
  }
}
