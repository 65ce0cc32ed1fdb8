# move-labs, modelled in Dafny

`main.py` is a small desktop tool that files lab reports. A report is a PDF
whose name has the shape `X_Y_LAB.pdf`. The tool reads the lab name from the
third underscore-separated part of the file name and copies every report of
the source folder into `<root>/<lab>/<date>/`.

- **Preview** copies the reports into a freshly emptied `<source>/temp` folder.
  It also builds a dictionary from lab to `{id, files}` that feeds the tree
  widget. Ids are handed out to each lab when it is first met and to every report.
- **Move** copies the reports into the destination folder.

This project models that core:

- `FileNames`: `validate_file_name` and `get_lab_name`, on top of a model of the
  Python string operations they use (`PyStrings`: `split`, `endswith`, `find`,
  slicing and `strip`).
- `StringOrder`: Python's ordering of strings and `list.sort`.
- `FileSystem`: the disk as a set of directory paths plus a map from file path
  to content. `os.mkdir`, `shutil.rmtree` and `shutil.copyfile` are methods of a
  `Disk` class that change it in place.
- `Staging`: `create_temp_folder`, `copy_file_to_temp_folder`,
  `create_main_temp_folder` and the per-report loop body of `preview` and `move`.
  It also defines what a whole run of that body leaves on the disk.
- `Grouping`: what the dictionary loop of `preview` computes, stated as
  functions of the report list. It also models one pass of that loop.
- `Batch`: `get_source_files`, `preview` and `move` as methods with loops. Each
  is proved against the specification functions above.

Paths are sequences of components. `f"{a}/{b}"` with a one-component `b`
appends `b`. `os.path.normpath` is the identity on such paths, which holds
because every component is a plain name (no `/`, not empty, not `.` or `..`).
The folder of a report is `f"{get_lab_name(file)}"`, so an invalid file name
goes to the folder `None`, as Python formats the missing value.

## Model

| member | source | states |
|---|---|---|
| PyStrings.Split | main.py:28 | `str.split("_")` keeps empty parts: there is one more part than separators, and no part contains the separator |
| PyStrings.SplitLast | main.py:28-29 | the last part of a split is everything after the last separator |
| PyStrings.SplitJoin | main.py:28 | splitting a joined list of separator-free parts gives the parts back |
| PyStrings.JoinSplit | main.py:28 | joining the parts of a split gives the string back |
| PyStrings.Find | main.py:41 | `str.find` returns -1 or an index where the needle occurs, and the needle occurs at no earlier index |
| PyStrings.SliceTo | main.py:41 | `s[0:k]` under Python's rules for negative and out-of-range bounds is a prefix of `s`, equal to the first `k` characters when `k` is in range |
| PyStrings.Strip | main.py:41 | `str.strip()` returns a slice of its input with no whitespace at either end, and only whitespace was cut off |
| PyStrings.StripPadded | main.py:41 | stripping a whitespace-padded trimmed string returns that string |
| FileNames.ValidateFileName | main.py:26-32 | a name is valid exactly when it has two underscores and the text after the last one ends with `.pdf` |
| FileNames.GetLabName | main.py:34-41 | `get_lab_name` returns `None` exactly for invalid names; the shape of a found name is stated by `GetLabNameShape` and `GetLabNameOfFileName` |
| FileNames.GetLabNameShape | main.py:34-41 | the lab name is `None` exactly for invalid names; a found name has no `_` and no whitespace at either end, and is at least 4 shorter than its segment |
| FileNames.LabOfSegment | main.py:39-41 | cutting at the first `.pdf` and stripping keeps only characters of the segment and drops at least the suffix |
| FileNames.PdfFound | main.py:41 | in a valid segment `.pdf` is found, so the slice bound is never -1 |
| FileNames.FindAppendedPdf | main.py:41 | in `t + ".pdf"` with no `.pdf` in `t`, the first `.pdf` is the appended one |
| FileNames.GetLabNameOfFileName | main.py:26-41 | a name built as `X_Y_<padded lab>.pdf` is valid and gives the lab back |
| FileNames.LabFolder | main.py:88 | the folder of a lab is its name, and the folder is `None` exactly for a missing lab or a lab named `None` |
| StringOrder.StrLeTotal | main.py:22 | any two strings are comparable |
| StringOrder.StrLeAntisymmetric | main.py:22 | strings that are each at most the other are equal |
| StringOrder.StrLeTransitive | main.py:22 | the string order is transitive |
| StringOrder.Insert | main.py:22 | inserting into a sorted list keeps it sorted and adds exactly the element |
| StringOrder.Sort | main.py:22 | `list.sort()` returns a sorted permutation of the list |
| StringOrder.SortedUnique | main.py:22 | there is only one sorted arrangement of a multiset of strings, so the sorted list is determined |
| StringOrder.SortKeepsNoDuplicates | main.py:22 | sorting a list without duplicates gives a list without duplicates |
| FileSystem.NothingBelowMissing | main.py:69-70 | in a consistent tree nothing lies below a path that does not exist |
| FileSystem.Disk.MakeDir | main.py:49 | `os.mkdir` adds exactly the new directory and keeps the tree consistent |
| FileSystem.Disk.RemoveTree | main.py:70 | `shutil.rmtree` removes exactly the entries in the subtree and keeps the tree consistent |
| FileSystem.Disk.CopyFile | main.py:57 | `shutil.copyfile` sets exactly the target to the source's content |
| Staging.CreateTempFolder | main.py:43-52 | afterwards both folders exist; only they are added; nothing changes when both were already directories |
| Staging.CopyFileToTempFolder | main.py:54-57 | the target holds the source's content and nothing else changes |
| Staging.CreateMainTempFolder | main.py:66-74 | `src/temp` is removed with all below it and made again, so it exists and nothing lies under it |
| Staging.StageFile | main.py:87-90 | one report: the lab and date folders are added and the report is copied to `<root>/<lab>/<date>/<file>` |
| Staging.DestinationInjective | main.py:90 | different reports go to different targets, and no target is another report's source |
| Staging.StagedDirsAre | main.py:86-89 | a run adds exactly the lab and date folders of its reports |
| Staging.StagedFilesAre | main.py:86-90 | a run adds exactly the reports' targets, each holding its report's content, and leaves every other file as it was |
| Staging.SourcesUnchanged | main.py:90 | a run leaves every source report in place with its content |
| Staging.StageableNext | main.py:118-123 | a report that could be filed at the start can still be filed after the earlier ones |
| Staging.StagedNext | main.py:86-90 | filing the next report extends the run's state by that report |
| Batch.LabFolderOf | main.py:87-88 | an invalid report is filed under `None`; a valid report is filed under exactly the lab name `get_lab_name` returns |
| Batch.ListedFiles | main.py:18-21 | the collected names are exactly the listing entries that are files, each once |
| Batch.GetSourceFiles | main.py:16-24 | the loop collects the files of the listing, and the result is the sorted collection |
| Batch.SourceFilesAre | main.py:16-24 | `get_source_files` is sorted, has no duplicates and holds exactly the files directly below the source folder |
| Batch.SourceFilesListed | main.py:19-21 | every source file is a listed entry that is a file |
| Batch.SourceOutsideTemp | main.py:68-70 | a report in the source folder survives the removal of `src/temp` |
| Batch.StageableInTemp | main.py:83-90 | below a fresh `src/temp`, every source report can be filed |
| Batch.StageableInFreshTemp | main.py:79-90 | after the temp folder is remade, every source report of the listing can be filed below it |
| Batch.Preview | main.py:76-108 | the reports are the source files; the disk is the emptied temp folder with every report filed in order; the dictionary, ids and counter are `GroupsOf` of the report list |
| Batch.Move | main.py:110-125 | the reports are the source files, and the disk is the old one with every report filed into the destination in order |
| Grouping.Distinct | main.py:92-98 | the first-seen labs hold every lab of the list, once each |
| Grouping.FirstIndex | main.py:92 | the first position of a lab holds it, and no earlier position does |
| Grouping.Members | main.py:100 | a lab's group holds only reports of the list with that lab |
| Grouping.RecordReport | main.py:92-103 | the dictionary statements of one pass do what `AddReport` says: a new lab gets the next id, then the report is appended and gets the id after that |
| Grouping.AddReport | main.py:92-103 | after a pass, the report's lab is a key of the dictionary |
| Grouping.GroupsOf | main.py:85-103 | the loop's dictionary, report ids and counter after a list of reports: one id per report, and the counter is the number of reports plus the number of dictionary keys |
| Grouping.GroupsOfNext | main.py:86-103 | the loop's state after report `i` is one more pass from the state before it |
| Grouping.KeyOrderOf | main.py:92-98 | the dictionary's keys, in insertion order, are the labs in order of first occurrence, and no key is outside that order |
| Grouping.EntriesOf | main.py:92-100 | each lab's entry holds its lab id and exactly its reports, in list order |
| Grouping.NumberedOf | main.py:85-103 | report `i` got id `FileId(i)`, and the final counter is the number of reports plus the number of labs |
| Grouping.GroupsOfAre | main.py:85-103 | the loop's dictionary, report ids and counter mean all three of the above for every report list |
| Grouping.KeyOrderSnoc | main.py:92-98 | one pass keeps the key order the first-occurrence order |
| Grouping.NumberedSnoc | main.py:98-103 | one pass gives the report the next id and moves the counter on |
| Grouping.GroupsOfLast | main.py:86 | the loop over a list is the loop over all but the last report, followed by one pass |
| Grouping.InExactlyOneGroup | main.py:100 | every report lands in the group of its own lab and in no other |
| Grouping.MemberPosition | main.py:100 | within its group, a report comes right after the earlier reports of its lab, so groups keep list order |
| Grouping.MembersOfAbsent | main.py:100 | a lab with no report has an empty group |
| Grouping.GroupSizesSum | main.py:105-106 | the group counts shown on the lab nodes add up to the number of reports |
| Grouping.DistinctInOrder | main.py:92-98 | the groups appear in the order their labs are first met |
| Grouping.DistinctPosition | main.py:92-98 | a lab's position among the groups is the number of labs met before it |
| Grouping.DistinctPrefix | main.py:92-98 | the labs of a prefix of the list are a prefix of the labs of the list |
| Grouping.LabIdBeforeFileIds | main.py:93-103 | a lab's id is below the id of each of its reports |
| Grouping.FileIdsIncrease | main.py:101-103 | report ids grow along the list |
| Grouping.LabIdsIncrease | main.py:93-98 | lab ids grow along the order of the groups |
| Grouping.LabIdIsNoFileId | main.py:93-103 | no lab shares its id with a report |
| Grouping.IdsBelowNext | main.py:85-103 | every id handed out is below the final counter |
| Grouping.IdsCover | main.py:85-103 | every number below the final counter is the id of a lab or of a report, so ids are 0, 1, ... with no gap |
| Grouping.IdsOfPrefix | main.py:85-103 | ids already handed out do not change when the list grows |
| Grouping.LastIds | main.py:93-103 | the last report takes the last id, and a new lab takes the id just before it |

## Left out

- The tkinter user interface: the window, `open_folder`, the tree widget calls, headings, the button state and the message box. They display results and hold no logic.
- `time.sleep(1)` in `move`. It only delays.
- `datetime.now()`: the formatted date is a parameter. It must be a plain path component.
- The global `FOLDERS`: the source and destination folders are parameters.
- `os.listdir`: the listing is a parameter. Its relation to the disk is stated by `Batch.IsListing`.
- `os.path.normpath`: modelled as the identity on plain components. So the lab folder of every report must be a plain component. The preconditions of `Batch.Preview` and `Batch.Move` exclude an empty lab name, `.`, `..` and names containing `/`, for which normpath would collapse or split the path.
- Failing file-system calls are excluded by preconditions, not modelled as exceptions. These include a missing parent, a file where a folder is expected, and copying onto a folder or onto the source.
- File contents are opaque byte sequences. Metadata and the byte-level copy are not modelled.
- `list.sort()` sorts in place; the model computes the sorted list as a value (`StringOrder.Sort`, an insertion sort). The builtin's algorithm is not modelled, only its result, which `StringOrder.SortedUnique` shows is determined.
- The `id` counter in `move` is incremented and never read. It is not modelled.
- Batch.Move: does not state that source reports are unchanged; `Staging.SourcesUnchanged` states it for any run.
- Invalid file names and a lab literally named `None` share the folder `None` on disk, while the dictionary keeps them apart: `None` and `Some("None")` are different keys. The model keeps both behaviours and does not claim the folders differ.
