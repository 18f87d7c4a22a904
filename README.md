# Image Tagger core, modelled in Dafny

Image Tagger lets a user tag image files. The tags live inside each file's
name: an image `vacation.jpg` tagged `beach` and `sunset` is renamed
`vacation @beach @sunset.jpg`. When a folder is loaded, tagged names are
parsed back into tags.

This project models the part of the program that does that work:

- **Tags and the registry.**
  - `Tag` normalises the spaces in its name.
  - `TagManager` is the ordered, duplicate-free registry of allowed tags, with its validity rule for names.
- **Images and their history.**
  - `ImageFile` holds an image's base name, extension, current tags, physical file and history.
  - Every tag change goes through `renameFile`, which records a `Log` entry and then tries the physical rename.
- **Folders and favourites.**
  - `Directory` holds the images and sub-folders found in a folder.
  - `DirectoryManager` is the index of loaded folders, looked up by path. It also moves images between folders.
  - `Favourite` is the list of images marked as favourites.
- **The controller's logic.**
  - The filename filter.
  - The loop of `getFiles` that builds a folder's elements and auto-tags images whose names match `regex_format`.
  - `autoTag`, which reads a base name and tags back out of a file name.
  - `buildDirectory`, which loads a folder once and returns the same index entry from then on.

## How the model is built

- **Pure parts are functions.** Tags, log records, the filter and the file-name format become datatypes, functions and lemmas. Java's `replaceAll`, `split(" @")`, `trim()`, `lastIndexOf`, `toLowerCase` and `matches(regex_format)` are written out as functions over `string`. Their edge cases are modelled explicitly:
  - `split` drops trailing empty strings;
  - `$` also matches just before a final line terminator. That reading of `Tag`'s regex is `Tags.NormalizeAsWritten`. `Tags.NewTag` uses the corrected normalisation instead (see Findings), and the two agree on names without line terminators;
  - `regex_format` accepts exactly the names whose last tag group ends the stem.
- **Mutable parts are classes.** `TagManager`, `ImageFile`, `Directory`, `DirectoryManager`, `Favourite` and the controller are classes. Their Java lists become `seq` fields that the methods reassign.
- **Loops become methods proved against functions.** Each loop of the source (`removeTag`, `addTag`'s nested loops, `generateNewName`, the lookups, `autoTag`, `getFiles`) is a method with loop invariants. It is proved equal to a function of the old state, and the lemmas state what the source promises about that function.
- **`java.io.File` becomes a value.** It is a `FilePath` of a parent and a name. File identity (`equals`, `contains`, `remove`) is the path an object was built with, kept in a `const key`.
- **Outside effects become inputs.**
  - The outcome of `File.renameTo` is a boolean input.
  - A directory listing is a sequence of `(path, isDirectory)` inputs.
  - The log's date is a timestamp string.
- **Exceptions become `None`.** `autoTag`, `getFiles` and `buildDirectory` return `None` (or `ok == false`) where the source lets an exception escape.

## Model

| member | source | states |
|---|---|---|
| Tags.ToStringInjective | src/models/Tag.java:32-35 | two tags have the same string form iff they are equal, so the '@' form identifies the tag |
| Tags.NewTag | src/models/Tag.java:23-25 | a constructed tag's name has no leading or trailing space and no two spaces in a row, and keeps every non-space character of the raw name in order |
| Tags.NormalizeIsNormal | src/models/Tag.java:24 | normalisation yields no leading, trailing or doubled space |
| Tags.NormalizeKeepsOthers | src/models/Tag.java:24 | only the space character is touched: tabs, newlines and all other characters survive in order |
| Tags.CollapseKeepsOthers | src/models/Tag.java:24 | from any position, the replacement keeps every non-space character, under both readings of `$` |
| Tags.CollapseShape | src/models/Tag.java:24 | under both readings of `$`, the replacement never ends with a space, never leaves two spaces together, and never starts with one |
| Tags.CollapseNormal | src/models/Tag.java:24 | the corrected normalisation leaves an already normal name unchanged |
| Tags.NormalizeIdempotent | src/models/Tag.java:24 | the corrected normalisation is idempotent |
| Tags.RebuildIsEqual | src/models/Tag.java:23-25 | `new Tag(t.getName())` equals `t`; for raw names without line terminators this holds of the regex as written too |
| Tags.InnerRunCollapses | src/models/Tag.java:24 | a run of one or more spaces between two non-space characters becomes exactly one space, and each side is normalised on its own |
| Tags.LeadingRunDropped | src/models/Tag.java:24 | a run of spaces at the start is deleted |
| Tags.TrailingRunDropped | src/models/Tag.java:24 | a run of spaces after the last non-space character is deleted |
| Tags.SpaceRunsIrrelevant | src/models/Tag.java:53-56 | tags built from raw names are equal whatever the length of an inner space run and whether there are leading or trailing spaces, yet "a b" and "ab" give different tags |
| Tags.CollapseAgrees | src/models/Tag.java:24 | on names without line terminators the regex as written and the corrected normalisation agree at every position |
| Tags.AsWrittenAgrees | src/models/Tag.java:24 | on names without line terminators the regex as written and the corrected normalisation that `NewTag` uses give the same name |
| Tags.AsWrittenNotIdempotent | src/models/Tag.java:24 | as written, `"a \n  "` normalises to `"a \n"`, which normalises again to `"a\n"` |
| TagRegistry.PatternMeaning | src/models/TagManager.java:49 | the name pattern holds iff the name has no reserved character and no '@' after the first position; a leading '.' is let through |
| TagRegistry.TagManager.constructor | src/models/TagManager.java:27-29 | a new registry is empty and well formed |
| TagRegistry.TagManager.AddTag | src/models/TagManager.java:45-54 | returns true iff the name is 1 to 20 characters, matches the pattern and is not listed; the tag is then appended, otherwise the list is unchanged; the list stays duplicate-free with valid names |
| TagRegistry.RegisteredKeepsInvariant | src/models/TagManager.java:45-54 | `addTag` preserves "no duplicates", grows the list by one exactly on success, and leaves the tag listed iff it was listed or its name is valid |
| TagRegistry.BlankNameRefused | src/models/TagManager.java:46-47 | a name made only of spaces normalises to the empty name and is refused |
| TagRegistry.TooLongRefused | src/models/TagManager.java:48 | a 21-character name is refused |
| TagRegistry.ReservedRefused | src/models/TagManager.java:49 | names with '/' or with '@' after the first position are refused |
| TagRegistry.LeadingAtAccepted | src/models/TagManager.java:49 | "@home" is accepted: '@' may come first |
| TagRegistry.DuplicateRefused | src/models/TagManager.java:45-54 | adding the same tag twice succeeds once, and the list keeps one copy |
| TagRegistry.TagManager.RemoveTag | src/models/TagManager.java:62-68 | the loop leaves exactly the tags not requested, in their old order; absent tags are ignored and the list stays well formed |
| TagRegistry.RemoveEachIsFilter | src/models/TagManager.java:62-68 | on a duplicate-free list, removing each requested tag in turn is the same as filtering out all of them |
| TagRegistry.FilterOutWellFormed | src/models/TagManager.java:62-68 | removing tags keeps the registry free of duplicates and of invalid names |
| Logs.LogLineIdentifiesRename | src/models/Log.java:144-147 | when the old names contain no bar character, two audit lines with the same timestamp are equal only if both old and new names are equal |
| Logs.HistoryDetermined | src/models/Log.java:98-114 | the history file, built by appending each audit line and two line separators, can be read back: when no audit line holds the separator's first character, equal histories hold the same number of records with equal audit lines in order |
| Images.ImageFile.constructor | src/models/ImageFile.java:52-59 | `baseName + extension` is the file name; the extension starts at the last '.'; tags and log start empty; the name encodes the (empty) tags |
| Images.ImageFile.GenerateNewName | src/models/ImageFile.java:135-143 | the StringBuilder loop yields the base name, then " @name" for each tag in list order, then the extension |
| Images.TagSuffixSnoc | src/models/ImageFile.java:138-141 | one more tag appends a space and that tag's string form to the suffix |
| Images.ImageFile.RenameFile | src/models/ImageFile.java:115-127 | commits the new tags, appends one log entry, and moves the file only if the rename succeeds |
| Images.RenameLogsIntent | src/models/ImageFile.java:115-127 | a rename appends exactly one entry (old physical name, generated name, old tags, new tags), whose `toString` is the old physical name, and commits the tags whatever happens; the name becomes the encoding only on success |
| Images.FailedRenameDiverges | src/models/ImageFile.java:123-126 | after a failed rename the tags are committed but the physical name no longer encodes them |
| Images.ImageFile.AddTag | src/models/ImageFile.java:70-94 | the two loops, `removeAll` and the rename together give exactly `AfterAddTag` of the old state |
| Images.NonRepeatingShape | src/models/ImageFile.java:71-80 | the first loop keeps the first tag, drops the rest of the leading run of equal tags, and keeps everything after that run |
| Images.NonRepeatingExamples | src/models/ImageFile.java:71-80 | `[a, a]` collapses to `[a]` but `[a, b, a]` is kept whole |
| Images.NonRepeatingKeepsAll | src/models/ImageFile.java:71-80 | every incoming tag survives the first loop |
| Images.AddTagEffect | src/models/ImageFile.java:81-93 | old tags stay a prefix; exactly the incoming tags not already present are appended, each of them from the input; nothing is renamed or logged iff no tag is new |
| Images.AddTagCanDuplicate | src/models/ImageFile.java:71-93 | on an untagged image, adding `[a, b, a]` yields tags `a, b, a` with a duplicate |
| Images.VacationExample | src/models/ImageFile.java:70-94 | "vacation.jpg" given beach and sunset becomes "vacation @beach @sunset.jpg", with one entry recording the change |
| Images.ImageFile.DeleteTag | src/models/ImageFile.java:104-108 | deleteTag is `AfterDeleteTag` of the old state |
| Images.DeleteTagEffect | src/models/ImageFile.java:104-108 | every occurrence of a deleted tag is removed, order is kept, and exactly one entry is logged even when nothing was removed |
| Images.ImageFile.Revert | src/models/ImageFile.java:170-174 | revert is `AfterRevert` of the old state |
| Images.RevertEffect | src/models/ImageFile.java:170-174 | the tags become the entry's old tags; one entry is added iff they differed from the current list as sequences; otherwise nothing changes |
| Images.SuccessfulEditsKeepConsistent | src/models/ImageFile.java:70-174 | while every physical rename succeeds, any series of add, delete and revert keeps the file name equal to the encoding of the tags, keeps the base name, and only appends to the log |
| Images.ImageFile.SetCurrentTags | src/models/ImageFile.java:210-213 | the tag list is replaced, and the file, log and base name are unchanged |
| Images.ImageFile.SetBaseName | src/models/ImageFile.java:229-231 | only the base name changes |
| Images.ImageFile.SetImageFile | src/models/ImageFile.java:201-203 | only the physical file changes |
| Directories.Directory.constructor | src/models/Directory.java:26-29 | a new directory has no elements |
| Directories.Directory.SetFiles | src/models/Directory.java:45-47 | the element list is replaced |
| Directories.Directory.AddFile | src/models/Directory.java:54-56 | the element is appended, duplicates allowed |
| Directories.Directory.RemoveFile | src/models/Directory.java:63-65 | the first element the file's `equals` accepts is removed, if any |
| Lists.RemoveFirstWhere | src/models/Directory.java:63-65 | the result is the list without its first element that satisfies the test, or the list itself when none does |
| Directories.FileEqualsAsymmetric | src/models/Directory.java:74-77 | an image equals a directory with its path, but that directory does not equal the image |
| Directories.RemoveImageEntry | src/models/Directory.java:63-65 | on a list with distinct paths, removing an image drops just the element with its path and keeps the others in order |
| DirectoryIndex.DirectoryManager.constructor | src/models/DirectoryManager.java:24-26 | a new index is empty |
| DirectoryIndex.DirectoryManager.AddDirectory | src/models/DirectoryManager.java:33-36 | the directory is appended iff no indexed directory has its path; paths stay distinct |
| DirectoryIndex.WithDirectoryEffect | src/models/DirectoryManager.java:33-36 | adding keeps paths distinct and every indexed directory; a new path is afterwards found as the added directory |
| DirectoryIndex.DirectoryManager.Contains | src/models/DirectoryManager.java:45-51 | true iff some indexed directory has the path |
| DirectoryIndex.DirectoryManager.GetDirectory | src/models/DirectoryManager.java:60-66 | the first indexed directory with the path, and None (null) iff there is none |
| DirectoryIndex.FirstWithPath | src/models/DirectoryManager.java:60-66 | None iff no directory has the path; otherwise an indexed directory with that path, and no earlier one has it |
| DirectoryIndex.LookupFindsRegistered | src/models/DirectoryManager.java:60-66 | with distinct paths, looking up an indexed directory's path finds that directory |
| DirectoryIndex.DirectoryManager.MoveImageFile | src/models/DirectoryManager.java:125-132 | a failed rename changes nothing; a successful one appends the image to the target, removes its first equal from the current directory and points it at the destination |
| DirectoryIndex.MoveWithinDirectory | src/models/DirectoryManager.java:128-129 | moving within one directory removes the first element equal to the image and puts the image at the end, or leaves the list as it was when it held no equal |
| Favourites.Favourite.constructor | src/models/Favourite.java:25-27 | a new list is empty |
| Favourites.Favourite.AddFavourite | src/models/Favourite.java:35-39 | appends unless an equal image is listed; paths stay distinct |
| Favourites.AddedEffect | src/models/Favourite.java:35-39 | afterwards the image is listed, the list has no repeated path, and the list is unchanged iff the image was already there |
| Favourites.Favourite.RemoveFavourite | src/models/Favourite.java:47-51 | removes the first equal image when there is one; paths stay distinct |
| Favourites.RemovedEffect | src/models/Favourite.java:47-51 | afterwards no image with that path is listed, and exactly the others remain in order |
| Favourites.Favourite.Contains | src/models/Favourite.java:36 | true iff some favourite has the image's path |
| Favourites.AddThenRemoveRestores | src/models/Favourite.java:35-51 | adding an absent image and then removing it restores the list |
| FileFilter.AcceptedImageName | src/controllers/GUIController.java:437-452 | a file is accepted iff its name is not hidden and the extension cut off at its last '.' is, lower-cased, one of .jpg, .jpeg, .png, .gif; its base name is then not empty |
| FileFilter.AcceptExamples | src/controllers/GUIController.java:437-452 | case does not matter; hidden names are refused even with an image extension or as directories; directories need no extension |
| Controllers.Accepted | src/controllers/GUIController.java:435-453 | `listFiles(filter)` keeps exactly the listed elements the filter accepts |
| TaggedFormat.GeneratedNameMatches | src/controllers/GUIController.java:129 | the lower-cased name generated for a non-empty base name, an image extension and a reloadable last tag without an inner '.' matches `regex_format` |
| TaggedFormat.DottedTagNotReloaded | src/controllers/GUIController.java:129 | "v1.2" is a valid tag name, yet "x @v1.2.jpg" does not match `regex_format`, so that image is not auto-tagged on reload |
| AutoTagging.SplitGeneratedStem | src/controllers/GUIController.java:490-491 | `split(" @")` of the stem generateNewName writes gives back the base name followed by the tag names in order |
| AutoTagging.AutoTagRecoversName | src/controllers/GUIController.java:489-506 | for a generated name, autoTag recovers the base name and the tags (old tags kept when there are none), and the registry ends up holding them after everything it held before |
| AutoTagging.RegisterAllEffect | src/controllers/GUIController.java:494-504 | autoTag's loop keeps the registry valid and only appends to it, collects at most one tag per piece, and collects only registered tags |
| AutoTagging.ReloadTag | src/controllers/GUIController.java:497 | `new Tag(piece.trim())` on a reloadable tag name gives back the tag with that name, under the regex as written as well |
| AutoTagging.RegisterAllOfNames | src/controllers/GUIController.java:496-502 | pieces that are reloadable tag names give back exactly those tags, all registered |
| AutoTagging.EmptySplitThrows | src/controllers/GUIController.java:490-492 | " @ @ @.jpg" passes the filter and `regex_format`, yet its stem splits to no element, so autoTag throws |
| Controllers.GuiController.AutoTag | src/controllers/GUIController.java:489-506 | fails exactly where the source throws, and then nothing changes; otherwise the registry, base name and tags are those `AutoTagOutcome` gives, and the file and log are untouched |
| Controllers.GuiController.TagPieces | src/controllers/GUIController.java:494-504 | the loop leaves the registry and the image's tags as registering every later piece in order gives |
| Controllers.GuiController.TagNextPiece | src/controllers/GUIController.java:496-503 | one iteration extends the progress over the pieces before i to those before i + 1 |
| Controllers.GuiController.OfferPiece | src/controllers/GUIController.java:497-502 | the trimmed piece becomes a tag offered to the registry, and it is collected iff listed afterwards; the image's tags become the collection |
| Controllers.GuiController.GetFiles | src/controllers/GUIController.java:454-478 | every accepted element becomes, in order, a new auto-tagged image or the indexed or new sub-directory; the registry moves on image by image; None iff some image's autoTag throws |
| Controllers.GuiController.ImportNext | src/controllers/GUIController.java:456-476 | one iteration extends the result for elements before i to those before i + 1, or reports that the listing throws |
| Controllers.GuiController.ImportListed | src/controllers/GUIController.java:457-474 | an accepted element becomes the image or sub-directory described for it |
| Controllers.GuiController.ImportImageFile | src/controllers/GUIController.java:458-466 | a new ImageFile for the path, auto-tagged iff its lower-cased name matches `regex_format` |
| Controllers.GuiController.ImportSubDirectory | src/controllers/GUIController.java:468-474 | the indexed directory with the path when there is one, otherwise a new directory that is not indexed |
| Controllers.ReloadRestoresImage | src/controllers/GUIController.java:458-466 | an image saved under its generated name is read back with the same base name and tags and an empty log, and its tags are registered |
| Controllers.ListingRegistryThrows | src/controllers/GUIController.java:456-476 | once importing some element throws, loading the whole listing throws |
| Controllers.GuiController.BuildDirectory | src/controllers/GUIController.java:411-420 | an indexed path returns the indexed directory and changes nothing; otherwise a new directory is loaded and indexed; afterwards looking up the path returns the directory returned, so a second call gives the same object |
| Controllers.GuiController.LoadDirectory | src/controllers/GUIController.java:415-418 | a new directory holding getFiles' result is indexed after everything indexed before, unless getFiles throws |

## Left out

- The JavaFX user interface of the controller is not modelled: event handlers, list and tree views, alerts, image display, `updateObservableList`. Nor is `src/views/Main.java`. All of it is display or I/O.
- Java serialization (`loadSavedTags`/`writeSavedTags`, `loadSavedDirectories`/`writeSavedDirectories`, the favourites' load and save) is file I/O.
- `Log.writeToLogFile` is not modelled as a method: it creates and appends to the history file. `Logs.LogRecord` gives the text it appends and `Logs.History` the file after a series of appends. `new Date()` is the `timestamp` parameter; `Log.toString` is the old name.
- `File.renameTo`, `File.listFiles`, `File.isDirectory` and `getAbsolutePath` are operating-system calls. Their outcomes are inputs (`renameSucceeds`, `Listed`). The absolute path of a sub-directory is taken to be the listed path.
- A null result of `listFiles` is not modelled separately; it is treated like an empty listing.
- Path normalisation of `java.io.File` is not modelled. A path is compared as the `(parent, name)` pair it was built from.
- Lengths count Dafny characters, not UTF-16 code units, so a name with characters outside the Basic Multilingual Plane has a different length here.
- `toLowerCase` is modelled for ASCII letters only. Locale-specific and non-ASCII case mappings are not modelled.
- Tags.NewTag: builds the name with the corrected normalisation, not the regex as written. The two differ only where a space run comes right before a line terminator that ends the name: for the raw name "a", space, U+2028 (LINE SEPARATOR) the source deletes the space and the model keeps it (see Findings).
- AutoTagging.RegisterAllOfNames: stated only for tag names without line terminators, for the same reason as AutoTagRecoversName below.
- AutoTagging.AutoTagRecoversName: stated only for reloadable tag names, which exclude line terminators. A tag named "a", space, U+2028 is written into the file name but reads back without its space under the regex as written.
- Controllers.ReloadRestoresImage: likewise stated only for tags whose names hold no line terminator.
- Images.ImageFile.constructor: requires a '.' in the name; the source throws on `substring(0, -1)` without one. The model's only caller builds images from names the filter accepted, and those always hold a '.'.
- Images.ImageFile.SetCurrentTags: models the copy `clear(); addAll(...)` as an assignment; were its argument the image's own list, `clear()` would empty it first; no modelled caller does that.
- List aliasing is not modelled: after `revert`, the Java image shares its tag list with the log entry's `oldTags`. Tag lists here are immutable sequences, so a later change to one cannot show up in the other.
- Controllers.GuiController.GetFiles: when an image's autoTag throws part-way through a listing, the result is None and the registry's contents are not stated; the source leaves the tags registered up to that point.
- Controllers.GuiController.LoadDirectory: on None only the directory index is stated to be unchanged; the registry is as in GetFiles.
- `getListOfTags`, `getName`, the getters of `Log`, `ImageFile`, `Directory` and `Favourite` and `ImageFile.toString` are plain field reads; they are the fields of the datatypes and classes and have no member of their own.

## Findings

| source | as written | input that shows it | evidently intended | confidence | as-written member | corrected member |
|---|---|---|---|---|---|---|
| src/models/Tag.java:24 | the space-collapsing `replaceAll`, whose pattern deletes a run of spaces that `$` follows: Java's `$` also matches just before a line terminator that ends the input, so a run of spaces there is deleted instead of collapsed | `new Tag("a \n  ")` has name `"a \n"`; `new Tag("a \n")` has name `"a\n"`, so rebuilding a tag from its name gives a different tag | trim spaces at both ends and collapse inner runs, which is idempotent | not executed | Tags.AsWrittenNotIdempotent | Tags.NormalizeIdempotent |
