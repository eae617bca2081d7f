# iphone-photo-rename, modelled in Dafny

`IPhonePhotoRename` renames the files an iPhone leaves in a directory. A
still named `IMG_<digits>.JPEG` gets the name `yyyy-MM-dd HH.mm.ss` of the
second it was taken, read from its EXIF data. A movie named
`IMG_<digits>.MOV` gets the first free name, with its own extension, from the
moment of the last still processed before it. Entries that match neither
pattern do not count, so a HEIC file between a still and its movie is
passed over. When a name is already taken, the program tries the next second, and the next, until
the path is free. A dry run computes and reports the names but moves nothing.

This project models that core and proves properties of it:

- `options.dfy`: module `Options`. `Option` and `Result`, which stand for
  Java's null, `Optional` and thrown exceptions.
- `date_format.dfy`: module `DateFormat`. The one date pattern
  `yyyy-MM-dd HH.mm.ss` as a concrete renderer and parser over local
  milliseconds, on the proleptic Gregorian calendar. The proofs show that
  format-then-parse truncates a moment to its whole second, and that the
  renderer is injective.
- `file_names.dfy`: module `FileNames`. `FileName`, `glue`, `parseFileName`,
  the stem and extension split, and the two camera-name patterns.
- `listing.dfy`: module `Listing`. `listFiles`: its two errors, the filter
  that drops directories, and the ascending sort.
- `resolver.dfy`: module `Resolver`. `newPath` and `getFirstFreeName`.
  `getFirstFreeName` is an imperative loop, proved against the function
  `FirstFreeSecond`, which gives the least free second. The search is
  proved for any injective renderer.
- `photo_rename.dfy`: module `PhotoRename`. `validateDate`, `move`, and
  `run`. `run` is a method with a loop, proved equal to the function
  `RunSpec` built from one loop iteration, `Step`.
- `run_properties.dfy`: module `RunProperties`. What a run does: per file,
  over bursts of stills, and over a whole listing.

The directory is modelled as the set of paths that exist in it. These
parts of the outside world are inputs (`PhotoRename.Env`):
- the EXIF capture moment of each still, a map from name to local
  milliseconds;
- the names whose `renameTo` the system refuses;
- what `File.listFiles` returns, where `None` stands for `null`.

The code differs from the behaviour one might expect. The model follows
the code:
- `validateDate`'s result is discarded (line 59). A still dated before the
  earliest valid date is still renamed and still becomes `previousImage`
  (`RunProperties.InvalidImageStillRenamed`, `RunProperties.ValidationDoesNotSteer`).
- A still without a readable date is not skipped. `getFirstFreeName` is
  called with `null`, and the run ends with an exception
  (`RunProperties.MissingDateAborts`).
- A dry run never adds the paths it would have created. Two stills of the
  same second therefore get the same name in a dry run
  (`RunProperties.DryRunBurstSameName`) but different names in a real run
  (`RunProperties.ExecuteBurstLater`).
- A movie is paired with the last still processed, not with the entry
  listed just before it (`RunProperties.MovieAfterSkippedName`).
- The stem is taken from the bare name. The extension is taken from the
  whole path, in its original case. For a listed name that holds a dot,
  both are the name's own (`FileNames.ParseGlued`).

## Model

| member | source | states |
|---|---|---|
| DateFormat.Fields | src/main/java/org/hawrylak/iphonephotorename/IPhonePhotoRename.java:29 | the calendar fields of a local second are a valid date and time that denote that second again |
| DateFormat.DecodeDigits | src/main/java/org/hawrylak/iphonephotorename/IPhonePhotoRename.java:29 | a zero-padded decimal field reads back as the number written |
| DateFormat.ParseYearText | src/main/java/org/hawrylak/iphonephotorename/IPhonePhotoRename.java:29 | the `yyyy` field, with its sign, parses back to the year |
| DateFormat.ParseFormatFields | src/main/java/org/hawrylak/iphonephotorename/IPhonePhotoRename.java:29 | parsing the rendered text of valid fields gives those fields back |
| DateFormat.Format | src/main/java/org/hawrylak/iphonephotorename/IPhonePhotoRename.java:94 | `formatter.format`: parsing the rendered text gives back the moment truncated to its whole second |
| DateFormat.Parse | src/main/java/org/hawrylak/iphonephotorename/IPhonePhotoRename.java:94 | `formatter.parse` of a text in the pattern always yields a whole second, with no milliseconds |
| DateFormat.ParseFormatSeconds | src/main/java/org/hawrylak/iphonephotorename/IPhonePhotoRename.java:152-154 | parsing the name of a second gives that second's moment |
| DateFormat.FormatWholeSecond | src/main/java/org/hawrylak/iphonephotorename/IPhonePhotoRename.java:98-100 | rendering a whole-second moment renders that second, so stepping the moment by 1000 ms steps the name by one second |
| DateFormat.FormatSecondsInjective | src/main/java/org/hawrylak/iphonephotorename/IPhonePhotoRename.java:152-154 | distinct seconds get distinct names |
| DateFormat.FormatSeconds | src/main/java/org/hawrylak/iphonephotorename/IPhonePhotoRename.java:152-154 | `generateNewName`: a generated name has more than 15 characters and starts with a digit or a minus sign, never a letter |
| FileNames.LastIndexOf | src/main/java/org/hawrylak/iphonephotorename/IPhonePhotoRename.java:159 | `lastIndexOf` is absent exactly when the character is absent; otherwise it is a position of that character with none after it |
| FileNames.LastIndexOfAppend | src/main/java/org/hawrylak/iphonephotorename/IPhonePhotoRename.java:145-150 | the last occurrence in a concatenation lies in the second part when that part has one, and is the first part's otherwise |
| FileNames.StemOf | src/main/java/org/hawrylak/iphonephotorename/IPhonePhotoRename.java:156-160 | `getFileNameWithoutExtension` is present exactly when the name holds a dot, and is then the part of the name before its last dot |
| FileNames.ExtensionOf | src/main/java/org/hawrylak/iphonephotorename/IPhonePhotoRename.java:162-166 | `getFileNameExtension` is present exactly when the name holds a dot, and is then the dot-free part of the name after its last dot |
| FileNames.SplitName | src/main/java/org/hawrylak/iphonephotorename/IPhonePhotoRename.java:156-166 | stem and extension are both present exactly when the name holds a dot; then stem + "." + extension is the name, and the extension holds no dot |
| FileNames.Glue | src/main/java/org/hawrylak/iphonephotorename/IPhonePhotoRename.java:126-128 | when neither name nor extension holds a separator, the glued separator is the path's last one and the directory is split off again; the name follows it when there is no extension; a dot-free extension reads back as the path's extension |
| FileNames.LastSeparatorOfGlued | src/main/java/org/hawrylak/iphonephotorename/IPhonePhotoRename.java:126-128 | in `directory/name` with a separator-free name, the last separator is the glued one |
| FileNames.ExtensionOfGlued | src/main/java/org/hawrylak/iphonephotorename/IPhonePhotoRename.java:148 | for a name with a dot, the extension of the whole path is the name's extension, whatever dots the directory holds |
| FileNames.ParseGlued | src/main/java/org/hawrylak/iphonephotorename/IPhonePhotoRename.java:145-150 | parsing a glued directory entry gives back the path, the directory and the name, with the stem taken from the name and the extension from the whole path |
| FileNames.GlueParsed | src/main/java/org/hawrylak/iphonephotorename/IPhonePhotoRename.java:145-150 | `parseFileName` keeps the path, its name holds no separator, and gluing the parent and the name together gives the path back |
| FileNames.SupportedNameExact | src/main/java/org/hawrylak/iphonephotorename/IPhonePhotoRename.java:86-88 | `isSupportedFileName` accepts a name exactly when its lower-case form is `img_`, one or more digits, a dot and the pattern's extension |
| FileNames.ToLower | src/main/java/org/hawrylak/iphonephotorename/IPhonePhotoRename.java:87 | lower-casing keeps the length |
| FileNames.CameraPatternExact | src/main/java/org/hawrylak/iphonephotorename/IPhonePhotoRename.java:30-31 | a string matches `^img_\d+\.<ext>$` exactly when it is `img_`, one or more digits, a dot and the extension |
| FileNames.ImageMovieDisjoint | src/main/java/org/hawrylak/iphonephotorename/IPhonePhotoRename.java:30-31 | no name is both a still and a movie |
| FileNames.Classify | src/main/java/org/hawrylak/iphonephotorename/IPhonePhotoRename.java:57-73 | the branch `run` takes is the image branch exactly for still names, the movie branch exactly for movie names, and the skip branch for the rest |
| FileNames.CameraExtension | src/main/java/org/hawrylak/iphonephotorename/IPhonePhotoRename.java:86-88 | a camera name's extension, taken after its last dot, is the pattern's extension in whatever letter case the name uses |
| FileNames.CameraNameHasDot | src/main/java/org/hawrylak/iphonephotorename/IPhonePhotoRename.java:30-31 | every still or movie name holds a dot |
| FileNames.CameraPathNotRendered | src/main/java/org/hawrylak/iphonephotorename/IPhonePhotoRename.java:105-107 | a camera file's path is never a path built from a generated name in the same directory |
| FileNames.CanonicalNameUnsupported | src/main/java/org/hawrylak/iphonephotorename/IPhonePhotoRename.java:86-88 | a generated name with any extension matches neither pattern |
| Listing.LexLe | src/main/java/org/hawrylak/iphonephotorename/IPhonePhotoRename.java:141 | `compareTo <= 0`: a prefix orders first, and a string orders after each of its proper prefixes |
| Listing.LexLeFirstDifference | src/main/java/org/hawrylak/iphonephotorename/IPhonePhotoRename.java:141 | past a common prefix, the first differing character decides the order |
| Listing.LexLeReflexive | src/main/java/org/hawrylak/iphonephotorename/IPhonePhotoRename.java:141 | the name order is reflexive |
| Listing.LexLeTotal | src/main/java/org/hawrylak/iphonephotorename/IPhonePhotoRename.java:141 | the name order is total |
| Listing.LexLeTransitive | src/main/java/org/hawrylak/iphonephotorename/IPhonePhotoRename.java:141 | the name order is transitive |
| Listing.LexLeAntisymmetric | src/main/java/org/hawrylak/iphonephotorename/IPhonePhotoRename.java:141 | names ordered both ways are equal |
| Listing.Insert | src/main/java/org/hawrylak/iphonephotorename/IPhonePhotoRename.java:141 | inserting into an ascending sequence keeps it ascending and adds exactly the one name |
| Listing.Sort | src/main/java/org/hawrylak/iphonephotorename/IPhonePhotoRename.java:141 | the result is ascending and a permutation of the input |
| Listing.SortUnique | src/main/java/org/hawrylak/iphonephotorename/IPhonePhotoRename.java:141 | two ascending arrangements of the same names are equal, so the sorted order is fully determined |
| Listing.RegularFileNames | src/main/java/org/hawrylak/iphonephotorename/IPhonePhotoRename.java:139-140 | a name is kept exactly when it belongs to an entry that is not a directory |
| Listing.ListFiles | src/main/java/org/hawrylak/iphonephotorename/IPhonePhotoRename.java:130-143 | null gives the invalid-directory error and only null does; no entries gives the empty-directory error and only that does; otherwise the result is ascending, holds exactly the names of the non-directory entries, and is a permutation of them |
| Listing.OnlySubdirectories | src/main/java/org/hawrylak/iphonephotorename/IPhonePhotoRename.java:135-139 | the emptiness test runs before directories are filtered out, so a listing of only subdirectories is no error and yields no names |
| Resolver.NewPath | src/main/java/org/hawrylak/iphonephotorename/IPhonePhotoRename.java:105-107 | the target path lies in the file's own directory and keeps the file's dot-free extension |
| Resolver.NewPathInjective | src/main/java/org/hawrylak/iphonephotorename/IPhonePhotoRename.java:105-107 | different new names give different target paths for the same file |
| Resolver.CandidatePathInjective | src/main/java/org/hawrylak/iphonephotorename/IPhonePhotoRename.java:98-101 | under an injective renderer, different seconds are tried under different paths |
| Resolver.TakenShrinks | src/main/java/org/hawrylak/iphonephotorename/IPhonePhotoRename.java:98-101 | stepping past a taken candidate strictly shrinks the finite set of taken candidates still ahead, so the search ends |
| Resolver.FirstFreeSecond | src/main/java/org/hawrylak/iphonephotorename/IPhonePhotoRename.java:90-103 | the search returns a second no earlier than the start whose path is free, and every earlier second from the start on is taken |
| Resolver.FreeName | src/main/java/org/hawrylak/iphonephotorename/IPhonePhotoRename.java:90-103 | the chosen name's target path does not exist |
| Resolver.FirstFreeSecondSameSlot | src/main/java/org/hawrylak/iphonephotorename/IPhonePhotoRename.java:105-107 | the search depends only on the file's directory and extension |
| Resolver.FreeNameSameSlot | src/main/java/org/hawrylak/iphonephotorename/IPhonePhotoRename.java:90-107 | two files with the same directory and extension, dated within the same second, are offered the same name |
| Resolver.FirstFreeSecondPastTaken | src/main/java/org/hawrylak/iphonephotorename/IPhonePhotoRename.java:98-101 | once every candidate up to the chosen one exists, a new search from the same second lands strictly later |
| Resolver.FreeNameAfterRename | src/main/java/org/hawrylak/iphonephotorename/IPhonePhotoRename.java:82-83 | after a file is renamed to its free name, a file with the same directory, extension and second gets a strictly later second and a different name |
| Resolver.GetFirstFreeName | src/main/java/org/hawrylak/iphonephotorename/IPhonePhotoRename.java:90-103 | the loop (format-then-parse, then render and step one second while the path exists) terminates and returns exactly the name of the least free second from the moment's own second on |
| PhotoRename.ValidateDate | src/main/java/org/hawrylak/iphonephotorename/IPhonePhotoRename.java:114-124 | valid exactly when a date is present and no earliest date is given or the date is not before it, so a date equal to the earliest is valid |
| PhotoRename.Move | src/main/java/org/hawrylak/iphonephotorename/IPhonePhotoRename.java:78-84 | moved exactly when not a dry run, the file exists and the rename is not refused; if not moved the directory is unchanged; if moved the target exists and nothing else changes besides the source; a move to a free path keeps the number of paths |
| PhotoRename.Step | src/main/java/org/hawrylak/iphonephotorename/IPhonePhotoRename.java:55-75 | one iteration fails exactly on a still without a date, with that name; otherwise it adds exactly one report entry after the earlier ones, and only a still changes `previousImage` |
| PhotoRename.RunEntries | src/main/java/org/hawrylak/iphonephotorename/IPhonePhotoRename.java:54-75 | the loop keeps the earlier report and adds one entry per name treated: one per name when it completes, fewer when it stops at a failure |
| PhotoRename.RunSpec | src/main/java/org/hawrylak/iphonephotorename/IPhonePhotoRename.java:52-76 | a failed listing ends the run with an empty report; a run that completes has reported once for every listed regular file |
| PhotoRename.Run | src/main/java/org/hawrylak/iphonephotorename/IPhonePhotoRename.java:52-76 | the loop's outcome (directory, report, failure) is exactly `RunSpec`, one `Step` per listed name in order |
| RunProperties.EntryNameOf | src/main/java/org/hawrylak/iphonephotorename/IPhonePhotoRename.java:56 | a listed name parses back to the directory and itself |
| RunProperties.CameraEntry | src/main/java/org/hawrylak/iphonephotorename/IPhonePhotoRename.java:56 | a listed camera file's extension is the one after its name's last dot |
| RunProperties.CameraFileNeverCandidate | src/main/java/org/hawrylak/iphonephotorename/IPhonePhotoRename.java:98-101 | no path tried for a camera file is that file's own path |
| RunProperties.ImageStep | src/main/java/org/hawrylak/iphonephotorename/IPhonePhotoRename.java:57-63 | a still with a date becomes `previousImage` with its free name, and the directory is what `move` leaves |
| RunProperties.InvalidImageStillRenamed | src/main/java/org/hawrylak/iphonephotorename/IPhonePhotoRename.java:59-63 | a still dated before the earliest valid date is reported invalid, yet is moved, and becomes `previousImage` |
| RunProperties.MissingDateAborts | src/main/java/org/hawrylak/iphonephotorename/IPhonePhotoRename.java:58-60 | a still without a date ends the run with the directory and report as they were |
| RunProperties.MovieStep | src/main/java/org/hawrylak/iphonephotorename/IPhonePhotoRename.java:64-68 | any movie while `previousImage` is set is renamed to the first free name of that still's second with its own extension; the directory is what `move` leaves and `previousImage` is unchanged |
| RunProperties.MovieFollowsImage | src/main/java/org/hawrylak/iphonephotorename/IPhonePhotoRename.java:57-68 | a movie right after a still is renamed from the still's moment, with the whole new state given |
| RunProperties.MovieAfterSkippedName | src/main/java/org/hawrylak/iphonephotorename/IPhonePhotoRename.java:53-72 | a name matching neither pattern between a still and a movie is passed over, and the movie still takes the still's moment |
| RunProperties.SkippedNameKeepsState | src/main/java/org/hawrylak/iphonephotorename/IPhonePhotoRename.java:69-74 | an orphan movie or an unsupported name changes neither the directory nor `previousImage`, and only adds its warning |
| RunProperties.StepKeepsCount | src/main/java/org/hawrylak/iphonephotorename/IPhonePhotoRename.java:78-84 | no iteration changes the number of paths in the directory |
| RunProperties.DryRunBurstSameName | src/main/java/org/hawrylak/iphonephotorename/IPhonePhotoRename.java:79-81 | in a dry run, two stills of the same second and extension are offered the same name |
| RunProperties.ExecuteBurstLater | src/main/java/org/hawrylak/iphonephotorename/IPhonePhotoRename.java:82-83 | in a real run, the second of two such stills gets a different name |
| RunProperties.DryRunLeavesDirectory | src/main/java/org/hawrylak/iphonephotorename/IPhonePhotoRename.java:78-81 | a dry run leaves the directory as it found it |
| RunProperties.RunKeepsFileCount | src/main/java/org/hawrylak/iphonephotorename/IPhonePhotoRename.java:52-76 | a run never overwrites or loses a path |
| RunProperties.StepIgnoresEarliest | src/main/java/org/hawrylak/iphonephotorename/IPhonePhotoRename.java:57-63 | one iteration under another earliest valid date succeeds or fails alike, with the same directory and the same `previousImage` |
| RunProperties.ValidationDoesNotSteer | src/main/java/org/hawrylak/iphonephotorename/IPhonePhotoRename.java:59 | whatever the earliest valid date, the run ends with the same directory and the same failure |
| RunProperties.OnlyMissingDatesFail | src/main/java/org/hawrylak/iphonephotorename/IPhonePhotoRename.java:52-76 | a run over a listing fails only at a listed still that has no date |
| RunProperties.NothingToRename | src/main/java/org/hawrylak/iphonephotorename/IPhonePhotoRename.java:72-74 | a listing of names that match neither pattern leaves the directory unchanged, completes, and logs one warning per name |
| RunProperties.RenamedNameUnsupported | src/main/java/org/hawrylak/iphonephotorename/IPhonePhotoRename.java:86-88 | a name the program gives a file is skipped by a later run |
| RunProperties.RunListingFailure | src/main/java/org/hawrylak/iphonephotorename/IPhonePhotoRename.java:130-137 | `run` fails with the invalid-directory error exactly when the listing is null, and with the empty-directory error exactly when it has no entries |
| RunProperties.RunDirectory | src/main/java/org/hawrylak/iphonephotorename/IPhonePhotoRename.java:52-84 | a dry run ends with the directory it started with; any run ends with as many paths as it started with |

## Left out

- `main` and `convertToDate` (lines 33-50): argument parsing. `run` takes the dry-run flag and the earliest valid date as values.
- `readDateFromFile` (lines 168-178) and `printAllMetadataFromFile`: reading EXIF through the metadata library is foreign code. A map from name to moment replaces it. A name missing from the map stands for a null date and for the exceptions the reader throws; both end the run.
- `fileExists` and `renameTo`: the file system is the set of existing paths. `renameTo` fails when the source path is gone or the name is in the refused set.
- Logging: the report is a list of `Decision` values. They carry what the log lines print, but not the text.
- Time zones and daylight saving: a moment is local wall-clock milliseconds under a fixed offset.
- `DateFormat.Fields`: years up to 0 and dates before 1582 use the proleptic Gregorian calendar. `SimpleDateFormat` uses the Julian calendar and eras there, so very old dates render differently.
- `DateFormat.Parse`: parses only text in the exact pattern. The lenient parsing of `SimpleDateFormat` is not modelled; no code path here parses anything else.
- Locale: the model assumes a Gregorian-calendar locale with ASCII digits. Under other default locales `SimpleDateFormat` renders other eras (Buddhist-era years under th_TH) or non-ASCII digits; these are not modelled.
- `FileNames.ToLower`: lower-cases ASCII letters only. Locale-dependent case mapping, such as the Turkish dotted I, is not modelled.
- `Listing.LexLe`: compares `char` values as Dafny code points. Java compares UTF-16 code units, which order differently beyond the Basic Multilingual Plane.
- `FileNames.ParseFileName`: a path without a separator gets the parent "" instead of Java's null. `java.io.File` normalisation (repeated or trailing separators) is not modelled. The separator is fixed to '/'.
- Case-insensitive file systems: two paths differing only in case are distinct here.
- `RenameInfo`'s declaration is not part of this model's source files. Its three components come from their use at lines 61 and 66.
