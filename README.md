# FileSorter: a verified model of the PDF grouping core

FileSorter (`FileSorter.py`) sorts a folder of PDF files by topic. For each
file it asks a local language model for a one- or two-word label of the
document. It puts files with the same label into one group and merges groups
whose labels share a word, repeating until nothing changes. It then lays the
groups out in a staging directory and zips it: a group of more than one file
goes to a subfolder named after its sanitised label, and a single file goes
to the root.

This project models the in-memory part of that pipeline in Dafny and proves
what it promises:

- `Labels`: `extract_context_from_response` (the first `**…**` pair on one
  line, or else the whole reply, trimmed). It also covers the pure part of
  `get_pdf_context`: the `"NoContent"` fallbacks, the 1000-character snippet
  and the prompt.
- `CommonWords`: `find_common_words` (intersection of the lower-cased word
  sets; sorted, joined with spaces, capitalised).
- `Groups`: a Python dict as an ordered association list with unique keys.
  It covers `d[k] = v`, `setdefault(k, []).extend(v)` and dict `==`, which
  ignores key order. It also covers `sorted(keys, key=len)`, a stable
  insertion sort by key length.
- `Unify`: `unify_context_groups`, both as the function `Pass` and as the
  nested loop the source runs (`UnifyContextGroups`, `PlaceItem`), proved
  equal to it. It also holds the termination measure of the repeat-until-equal
  loop.
- `Organize`: `process_pdf_folder` without input or output. It covers:
  - the PDF listing
  - the bucketing of files by label (`GroupByLabel`)
  - the loop that repeats the pass until the result equals its input
    (`UnifyUntilStable`, specified by the function `Unified`)
  - the whole run (`ProcessPdfFolder`)
- `Archive`: the folder-name sanitiser and the placement plan (which file is
  copied where, and which folders are created).
- `Worked`: the doc-comment example of `unify_context_groups`, and a
  dictionary the loop stops at although two of its labels share a word.
- `Text`: the Python string operations the core uses (`strip`, `split`,
  `lower`, `capitalize`, `" ".join`, `sorted` on strings).
- `Wrappers`: `Option`.

The loop at FileSorter.py:106-110 has no bound in the source. Here it is
proved to terminate. Each key is given a potential: twice the size of its word
set, plus 2 if the key is its own common name with itself and 3 otherwise.
A pass never raises the sum of the potentials, and a pass whose result differs
from its input lowers it (`Unify.PassProgress`).

## Model

| member | source | states |
|---|---|---|
| Text.IsSpace | FileSorter.py:52-53 | the code points Python's `str.isspace` accepts, as used by `split()` and `strip()` |
| Text.IsAlnum | FileSorter.py:121 | `str.isalnum` on ASCII: a letter or a digit |
| Text.Lower | FileSorter.py:52-53 | `str.lower()`: each ASCII upper-case letter becomes lower case, every other character stays |
| Text.Capitalize | FileSorter.py:58 | `str.capitalize()`: the first character upper-cased, the rest lower-cased |
| Text.JoinWords | FileSorter.py:58 | `" ".join(ws)`: the words with one space between neighbours |
| Text.Strip | FileSorter.py:46-48 | the result sits inside `s` with only whitespace (Python's full `isspace` set) around it; with `StripIsTrimmed` this fixes it as `str.strip()` |
| Text.StripIsTrimmed | FileSorter.py:46-48 | a stripped string neither starts nor ends with whitespace |
| Text.StripIdempotent | FileSorter.py:121 | stripping twice is stripping once |
| Text.StripEmpty | FileSorter.py:121 | `strip` gives the empty string exactly when the input is all whitespace |
| Text.StripChars | FileSorter.py:121 | stripping only removes characters |
| Text.Split | FileSorter.py:52-53 | `str.split()` yields non-empty words without whitespace, lower-case when the input is |
| Text.SplitJoin | FileSorter.py:58 | splitting the space-joined words gives the words back |
| Text.SplitWordThen | FileSorter.py:52-53 | a word followed by whitespace or the end is split off as the first word |
| Text.LowerIsLowered | FileSorter.py:52-53 | `lower()` leaves no upper-case letter |
| Text.LowerCapitalize | FileSorter.py:58 | `capitalize` changes nothing but case |
| Text.BelowIrreflexive | FileSorter.py:58 | the code-point order used by `sorted` is irreflexive |
| Text.BelowTransitive | FileSorter.py:58 | that order is transitive |
| Text.BelowTotal | FileSorter.py:58 | that order is total on distinct strings |
| Text.BelowAsymmetric | FileSorter.py:58 | that order is asymmetric |
| Text.InsertWord | FileSorter.py:58 | inserting into a strictly sorted word list keeps it strictly sorted and adds exactly that word |
| Text.SortUnique | FileSorter.py:55-58 | `sorted(set(ws))`: strictly sorted, the same words |
| Text.SortedListingUnique | FileSorter.py:58 | two strictly sorted lists of the same words are equal |
| Labels.CloseFrom | FileSorter.py:44 | the lazy `.*?` finds the nearest closing `**` with no line break before it, or none exists |
| Labels.OpenFrom | FileSorter.py:44 | the leftmost `**` from a position that has a closing pair on the same line, or none exists |
| Labels.SearchMarkers | FileSorter.py:44 | `re.search` returns the first enclosure (leftmost start, nearest end), and finds none exactly when there is none |
| Labels.FirstEnclosureUnique | FileSorter.py:44 | the match is unique |
| Labels.ExtractContext | FileSorter.py:39-48 | the label never has leading or trailing whitespace |
| Labels.ExtractContextMatch | FileSorter.py:44-48 | with a first `**X**` pair the label is `X` stripped; with no pair it is the whole reply stripped |
| Labels.ExtractMarked | FileSorter.py:44-46 | the text of a marker pair that follows no earlier `**` is what is returned, stripped |
| Labels.Head | FileSorter.py:27 | `content[:1000]`: all of a text of at most 1000 characters, and exactly the first 1000 characters of a longer one |
| Labels.Snippet | FileSorter.py:27 | the stripped first 1000 characters: at most 1000 characters, trimmed |
| Labels.Prompt | FileSorter.py:30-33 | the fixed instruction text followed by the snippet |
| Labels.PdfContext | FileSorter.py:16-37 | never empty and trimmed; `"NoContent"` for a missing or empty text; otherwise the stripped reply, or `"NoContent"` when that is empty |
| CommonWords.Words | FileSorter.py:52-53 | the words of the lower-cased label: non-empty, no whitespace, lower-case |
| CommonWords.WordSet | FileSorter.py:52-53 | `set(s.lower().split())`: the set of the label's lower-cased words |
| CommonWords.KeepIn | FileSorter.py:55 | keeps exactly the words that are also in the other set |
| CommonWords.SharedSorted | FileSorter.py:55-58 | the common words, strictly sorted |
| CommonWords.FindCommonWords | FileSorter.py:50-59 | `None` exactly when the two word sets are disjoint |
| CommonWords.CommonNameListing | FileSorter.py:57-58 | otherwise the name is the capitalised space-join of the sorted common words |
| CommonWords.CommonWordsDetermined | FileSorter.py:52-59 | the result depends only on the intersection of the word sets |
| CommonWords.CommonWordsSymmetric | FileSorter.py:50-59 | `find_common_words(a, b) == find_common_words(b, a)` |
| CommonWords.CommonWordsSelf | FileSorter.py:50-59 | a label has a common name with itself exactly when it has a word |
| CommonWords.CommonNameWords | FileSorter.py:52-58 | the words of the common name are exactly the common words |
| CommonWords.CommonNameCanonical | FileSorter.py:58 | a common name is non-empty and is its own common name with itself |
| Groups.IndexOf | FileSorter.py:74 | the position of a key, or none exactly when the key is absent |
| Groups.LookupSomeIffKey | FileSorter.py:74 | a lookup succeeds exactly for the keys present |
| Groups.LookupAt | FileSorter.py:76 | the lookup of a present key gives its list |
| Groups.Put | FileSorter.py:80 | `d[k] = v`: a new key goes last, an old key keeps its place; `k` now maps to `v` and every other key is unchanged |
| Groups.Extend | FileSorter.py:74-76 | `setdefault(k, []).extend(v)`: a new key goes last; `k` maps to its old list (or `[]`) followed by `v`; nothing else changes |
| Groups.ExtendFiles | FileSorter.py:76 | extending adds exactly the files of `v` to the dictionary |
| Groups.PutNonEmpty | FileSorter.py:80 | storing a non-empty list keeps every list non-empty |
| Groups.ExtendNonEmpty | FileSorter.py:74-76 | extending by a non-empty list keeps every list non-empty |
| Groups.DictEqual | FileSorter.py:108 | the `==` of two dictionaries: the same number of keys, and each key of one maps to its own list in the other |
| Groups.DictEqualIsSameMapping | FileSorter.py:108 | dict `==` holds exactly when both map the same keys to the same lists, whatever the key order |
| Groups.InsertByLength | FileSorter.py:67 | one insertion step of the sort: ordered by key length, one more item |
| Groups.SortByLength | FileSorter.py:67 | `sorted(keys, key=len)`: ordered by key length and a permutation of the items |
| Groups.SortByLengthStable | FileSorter.py:67 | the sort is stable: the keys of each length keep their input order |
| Groups.SortByLengthKeys | FileSorter.py:67 | sorting keeps the key set |
| Groups.SortByLengthUnique | FileSorter.py:67 | sorting keeps the keys unique |
| Groups.SortByLengthFiles | FileSorter.py:67 | sorting keeps the files |
| Groups.SortByLengthSameDict | FileSorter.py:67 | the sorted items form a dictionary equal to the input |
| Unify.Place | FileSorter.py:70-80 | one item: its files extend the common name's list with the first key sharing a word, or else it is stored under its own label |
| Unify.PlaceAll | FileSorter.py:69-80 | the items placed one after the other, in the given order |
| Unify.Pass | FileSorter.py:61-82 | one pass: the items in length order placed, one by one, into an empty dictionary |
| Unify.SharesWord | FileSorter.py:72-73 | the truth test on the common name: the two labels' word sets meet |
| Unify.FirstSharing | FileSorter.py:71-78 | the first unified key, in dictionary order, whose words meet the item's; none before it does |
| Unify.PlaceItem | FileSorter.py:70-80 | the inner loop with its `assigned` flag and `break` computes `Place` |
| Unify.PlaceShared | FileSorter.py:72-78 | at the first sharing key, the files are appended to the common name's list |
| Unify.PlaceUnshared | FileSorter.py:79-80 | with no sharing key, the item is stored under its own label |
| Unify.PlaceAllStep | FileSorter.py:69 | the outer loop handles the items one by one in sorted order |
| Unify.UnifyContextGroups | FileSorter.py:61-82 | the nested loop computes `Pass`; its keys are unique, it keeps every file, and it has no more keys than its input |
| Unify.PlaceKeys | FileSorter.py:72-80 | placing an item adds at most one key: its own label or a common name of it |
| Unify.PlaceStep | FileSorter.py:72-80 | placing an item keeps the keys unique and adds exactly its files |
| Unify.PlaceAllKeepsFiles | FileSorter.py:69-80 | the outer loop adds exactly the files of the items |
| Unify.PassKeepsFiles | FileSorter.py:61-82 | a pass keeps the keys unique, and its files are a permutation of its input's files |
| Unify.PassShrinks | FileSorter.py:61-82 | a pass never has more keys than its input |
| Unify.PassKeepsUnshared | FileSorter.py:79-80 | a label sharing no word with any other label comes out of a pass under its own name with its own files, and no other output key shares a word with it |
| Unify.PassNames | FileSorter.py:69-80 | every key after a pass is an input key or the common name of an input key with something |
| Unify.PlaceNonEmpty | FileSorter.py:72-80 | placing a non-empty list keeps every list non-empty |
| Unify.PassNonEmpty | FileSorter.py:61-82 | a pass keeps every list non-empty |
| Unify.CommonNamePot | FileSorter.py:58 | a common name never has a higher potential than the label it came from, and has an equal one only if it is that label |
| Unify.PlacePotential | FileSorter.py:72-80 | placing an item adds at most its label's potential, and exactly that only when it is appended as is |
| Unify.PlaceAllPotential | FileSorter.py:69-80 | the outer loop adds at most the items' potential, and exactly that only when it appends them all as they are |
| Unify.SortByLengthPot | FileSorter.py:67 | sorting keeps the potential |
| Unify.PassProgress | FileSorter.py:106-110 | a pass never raises the potential, and one whose result is not `==` its input lowers it |
| Organize.Join | FileSorter.py:92 | `os.path.join`: ends with the name, and an absolute name replaces the folder |
| Organize.JoinInjective | FileSorter.py:92 | different relative names give different paths |
| Organize.IsPdfName | FileSorter.py:94 | the lower-cased name ends with `.pdf` |
| Organize.PdfFiles | FileSorter.py:91-95 | exactly the joined paths of the names ending in `.pdf` (case-insensitively) |
| Organize.PdfFilesDistinct | FileSorter.py:91-95 | distinct directory entries give distinct paths |
| Organize.Labeller | FileSorter.py:99-101 | the per-file labelling: each file is mapped to `LabelOf` of that file |
| Organize.LabelOf | FileSorter.py:100-101 | a file's label is the extracted context of the model's reply for that file, and is trimmed |
| Organize.LabelsBy | FileSorter.py:99-101 | one label per file, in listing order |
| Organize.Buckets | FileSorter.py:98-103 | the dictionary after `setdefault(label, []).append(pdf)` for each file: its keys are unique |
| Organize.BucketsStep | FileSorter.py:103 | one more file is filed with `setdefault(...).append` |
| Organize.FirstAppearances | FileSorter.py:98-103 | each label once, ordered by first appearance |
| Organize.FilesLabelled | FileSorter.py:103 | the files with a given label, in listing order |
| Organize.BucketsKeys | FileSorter.py:98-103 | the keys are the labels in order of first appearance |
| Organize.BucketsLists | FileSorter.py:98-103 | each label maps to exactly the files with that label, in listing order |
| Organize.BucketsNonEmpty | FileSorter.py:103 | no bucket is empty |
| Organize.BucketsFiles | FileSorter.py:98-103 | the buckets hold exactly the listed files |
| Organize.EachFileOneBucket | FileSorter.py:98-103 | a file is in the bucket of a label exactly when that is its own label |
| Organize.GroupByLabel | FileSorter.py:98-103 | the loop builds `Buckets` of the files and their labels |
| Organize.Unified | FileSorter.py:106-110 | the dictionary the loop stops at: keys unique, a further pass returns an `==` dictionary, the same files, no more keys |
| Organize.UnifiedNonEmpty | FileSorter.py:106-110 | the loop keeps every list non-empty |
| Organize.UnifiedKeepsUnshared | FileSorter.py:106-110 | a label sharing no word with any other label keeps its own group and files through the whole loop, and no final key shares a word with it |
| Organize.UnifiedNames | FileSorter.py:106-110 | every final key is an input key or comes from one through common names |
| Organize.UnifyUntilStable | FileSorter.py:106-110 | the `while True` loop terminates and computes `Unified` |
| Organize.ProcessPdfFolder | FileSorter.py:84-134 | the final dictionary is `Unified` of the buckets. A further pass leaves it `==` itself and no list is empty. The copies and folders follow the plan with `SafeName`, and every listed PDF is copied exactly once |
| Archive.KeepSafe | FileSorter.py:121 | only alphanumerics, space, `_` and `-` remain |
| Archive.KeepSafeConcat | FileSorter.py:121 | filtering works character by character |
| Archive.KeepSafeOfSafe | FileSorter.py:121 | a safe string is left as it is |
| Archive.KeepSafeSnoc | FileSorter.py:121 | the filter keeps one more character exactly when it is alphanumeric, space, `_` or `-`, after the kept characters before it |
| Archive.KeepSafeDrops | FileSorter.py:121 | two safe runs, each followed by one unsafe character, keep exactly the two runs |
| Archive.SafeName | FileSorter.py:121 | the folder name is non-empty, holds only safe characters, and neither starts nor ends with a space |
| Archive.SafeNameCases | FileSorter.py:121 | the fallback `"Unknown"` is used exactly when nothing but spaces survives the filter; otherwise the name is the stripped filtered label |
| Archive.SafeNameOfSafe | FileSorter.py:121 | a non-empty name that is already safe and trimmed is kept |
| Archive.SafeNameIdempotent | FileSorter.py:121 | sanitising a sanitised name changes nothing |
| Archive.SafeNameOfKept | FileSorter.py:121 | sanitising depends only on the safe characters |
| Archive.SafeNameExample | FileSorter.py:121 | `"Finance/Q3!"` becomes `"FinanceQ3"` |
| Archive.SafeNameFallback | FileSorter.py:121 | the label `" /!? "`, whose only safe characters are spaces, becomes `"Unknown"` |
| Archive.SafeNameWhenBlank | FileSorter.py:121 | a label whose safe characters are all spaces (or none at all) becomes `"Unknown"` |
| Archive.DestOf | FileSorter.py:120-132 | a group of more than one file goes to the subfolder named by its label, a single file to the root |
| Archive.GroupCopies | FileSorter.py:124-134 | the copies of one group, file by file in list order, each to the group's destination |
| Archive.Plan | FileSorter.py:119-134 | the copies of each group's files to its destination, group after group in dictionary order |
| Archive.Folders | FileSorter.py:119-123 | the names of the subfolders created, one per group of more than one file, in dictionary order |
| Archive.PlanSources | FileSorter.py:119-134 | the files copied are the files of the groups, each once, in dictionary order |
| Archive.PlanDestinations | FileSorter.py:119-134 | each file of a group of more than one goes to the group's subfolder; a single file goes to the root; no other copy is made |
| Archive.FoldersOfGroups | FileSorter.py:119-123 | exactly the groups of more than one file get a folder |
| Archive.PlanFolders | FileSorter.py:122-126 | every subfolder copied into has been created |
| Archive.PlanPrefix | FileSorter.py:119 | the groups are laid out one after the other in dictionary order |
| Archive.PlaceGroup | FileSorter.py:120-134 | one turn of the outer loop adds the group's copies and, for a group of more than one file, its folder |
| Archive.PlanArchive | FileSorter.py:119-134 | the loop produces the plan named by `SafeName`, and the files copied are the files of the groups |
| Worked.FirstPass | FileSorter.py:61-82 | for the example's shape, one pass adds the common name and leaves the shorter label where it was |
| Worked.SecondPass | FileSorter.py:61-82 | the next pass merges the remaining label into the common name |
| Worked.UnifiedExample | FileSorter.py:106-110 | for the example's shape, the loop ends with a single group under the common name |
| Worked.DocExample | FileSorter.py:61-64 | `{"Red X": [r], "Blue X": [b]}` gives `{"Red X": [r], "X": [b]}` after one pass, and the loop ends with `{"X": [b, r]}` |
| Worked.UnifiedMoves | FileSorter.py:106-110 | a pass that changes the dictionary is followed by another |
| Worked.NewKeyChanges | FileSorter.py:108 | a dictionary with a key the other lacks is not `==` to it |
| Worked.StableSharing | FileSorter.py:106-110 | a pass can re-create its input, and so stop the loop, while two labels still share a word |
| Worked.StableSharingExample | FileSorter.py:106-110 | `{"x": [p], "X": [q]}` is where the loop stops, though both labels hold the word "x" |

## Left out

- Input and output. The model omits `os.listdir`, the Tika parser, `ollama.chat`, the staging directory, `shutil.copy2` with its per-file `try`/`except`, and `shutil.make_archive` with its zip naming (FileSorter.py:137-141).
  - The listing, the parser and the chat model are parameters of `ProcessPdfFolder`: the listed names, `parse` (`None` when there is no text) and `chat`, which gives for each file the reply to the prompt sent for it. Replies are independent per file, so nothing is assumed about the model beyond the reply it gave.
  - The copies are modelled as a plan of `Copy(source, dest)` records.
  - A failing copy is not modelled; the plan is what the run tries to do.
  - `parse` and `chat` are total: a parser or chat call that raises (FileSorter.py:21, 35) would end the run before any copy or archive is made, and the model does not represent that. `ProcessPdfFolder`'s contract describes runs in which every such call returns.
- Copy targets are `os.path.basename(file)` inside the folder. The plan records only the destination folder, so two files with the same base name overwriting each other is not modelled.
- Two labels with the same `SafeName` share one folder (`exist_ok=True`). The plan lists the folder once per group.
- `print`, the `__main__` block (process start and kill, `sleep`, `input`) and the global configuration are not modelled.
- Text.Lower: ASCII-only case mapping. Python's `lower`, `upper`, `capitalize` and `isalnum` cover all of Unicode; `isspace` is modelled over Python's full whitespace set.
- Aliasing: the model has value semantics. In the source, `unified[key] = context_groups[key]` (FileSorter.py:80) stores the caller's list object, and a later `extend` (FileSorter.py:76) can grow it, so the input dictionary of a pass can change under the `==` test.
  - A pass reads each input list before any mutation of it.
  - A mutation only ever appends files to a non-empty list. Every list is non-empty (`Organize.UnifiedNonEmpty`, `Unify.PassNonEmpty`).
  - So a pass that mutates its input also makes the total file count of the mutated input larger than that of its output, and `==` fails in both semantics. The result of each pass, and the stopping decision, are the same as in the model.
- Organize.ProcessPdfFolder: the zip path it returns is not modelled.
- The comment at FileSorter.py:105 says the loop runs "until no further merges occur". Yet the loop stops as soon as a pass returns a dictionary `==` to its input, and that can happen while two labels still share a word: `Worked.StableSharingExample` proves it for `{"x": [p], "X": [q]}`.
- When the common name is not already a key, a merge appends it as a new key and leaves the matched key in place (FileSorter.py:74-76, `Worked.FirstPass`). A later pass may fold the matched key into it (`Worked.SecondPass`), or may not (`Worked.StableSharingExample`).
