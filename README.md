# Sprite file organising scripts, modelled in Dafny

This project models the two batch scripts of the extracted-SWF sprite repository.

- `organize_files.py` sorts exported sprite files into category folders. `extract_category`
  classifies a file name by four rules tried in order: a fixed prefix table (`IconArt`, `Frame`,
  `Doodad`, `Window`, `Button`, with an optional leading `_`), the text after the first `__`,
  the letter run after a leading `_`, and the name without its extension. `organize_files`
  collects the files whose suffix is listed, groups them by category in order of first occurrence,
  and copies each one to `output/<category>/<name>`. It honours a dry-run flag and skips a file
  that already sits at its destination. `delete_non_foldered_files` deletes the top-level files
  whose suffix is listed and counts them. `main` normalises the user's type list.
- `rename_sprites.py` copies the SVG files of every sprite folder into `sprites_done`.
  `extract_proper_name` takes the folder's display name from the text after `a_`, else from
  `DefineSprite_<digits>_<rest>`, else uses the folder name. A lone SVG becomes `<proper>.svg`.
  Several SVGs go, in sorted order, into a subfolder as `<proper>/<proper>_01.svg`,
  `<proper>_02.svg`, and so on.

The filesystem is abstracted away:

- A directory listing is an input sequence of entries: a name and whether it is a regular file,
  and for a sprite folder the names it lists.
- Every effect on the disk is returned as a planned sequence of actions (`MakeDir`, `Copy`,
  `Delete`) in the order the script performs them.
- A path is the sequence of its components.

The loops of the scripts are methods, each proved equal to a specification function. The
properties are lemmas about those functions.

Modules, one per file:

- `Options`, `Strings`, `Sequences`: shared helpers. ASCII case mapping and the "keeps the order"
  relation `IsSubsequence`.
- `FileActions`: paths, listing entries and planned actions.
- `Categories`: `extract_category`.
- `Grouping`: the `defaultdict(list)` grouping loop, generic in its key function.
- `Organize`: suffixes, type normalisation, collection, the copy plan, deletion and `organize_files`.
- `StringOrder`: Python's `sorted` on strings (code-point lexicographic order).
- `DecimalFormat`: `f"{i:02d}"`.
- `ProperNames`: `extract_proper_name`.
- `SpriteRenaming`: the main loop of `rename_sprites.py`.

Where the code and its documentation disagree, the model follows the code. The docstring of
`extract_category` (organize_files.py lines 12-13) gives `"DefineSprite_265__IconArtStoreFront14/1.svg"`
as `"IconArt"`. The code first cuts the name down to `"1.svg"` (lines 21-22), so the category is
`"1"`; `Categories.FramesInFolderGiveStem` proves this for any folder part. Likewise, a dry run
still creates the output folder (line 88 is not guarded), although no category folder is created
and nothing is copied or deleted.

The scripts can lose a file. Suppose the output folder is the parent of the source folder and a
file's category is the source folder's name. Then the copy is skipped because source and
destination coincide, and with deletion on the file is deleted, so no copy of it remains
(`Organize.SkippedFileIsStillDeleted`).

## Model

| member | source | states |
|---|---|---|
| Categories.AfterLastSlash | organize_files.py:21-22 | The result is an ending of the name that holds no `/`. It is the whole name when there is no `/`, and otherwise is preceded by a `/`. |
| Categories.CategoryUsesLastComponent | organize_files.py:21-22 | The category of a path is the category of its last component. So every rule, the `__` rule included, sees only the text after the last `/`. |
| Categories.TableMatchFrom | organize_files.py:37-39 | The table loop returns an entry that matches (`^_?<word>`) at or after index k, or reports that none does. |
| Categories.AtMostOneEntryMatches | organize_files.py:28-34 | No two table entries can both match one name, with or without a leading `_`. |
| Categories.TableMatchIff | organize_files.py:28-39 | The table lookup returns entry k exactly when entry k matches the name. |
| Categories.CategoryFromTable | organize_files.py:36-39 | A last path component that starts with a table word, optionally after one `_`, is classified as exactly that word. |
| Categories.FindDoubleUnderscore | organize_files.py:42-44 | It finds the leftmost `__` (the one `split('__', 1)` splits at) or reports that there is none. |
| Categories.LetterRun | organize_files.py:53 | The result is the longest prefix of ASCII letters, the group `([A-Za-z]+)` matches when it is nonempty. |
| Categories.CategoryAfterDoubleUnderscore | organize_files.py:42-55 | With no direct table match and a first `__` at p, a table word matching the text after it is the category. Otherwise the category is that text's leading letter run, when nonempty: a prefix of it made of letters only. |
| Categories.CategoryAfterUnderscore | organize_files.py:58-65 | Failing the first two rules, a name starting with `_` followed by letters gets that letter run, which starts the name after the `_`. |
| Categories.SplitExtRoot | organize_files.py:68 | `os.path.splitext(...)[0]`: a prefix of the name, nonempty for a nonempty name. It is the whole name, or it is cut at the last dot, in which case it is not all dots. |
| Categories.CategoryFallback | organize_files.py:67-68 | Failing all rules, the category is the name without its final extension, a prefix of the name. |
| Categories.ExtractCategory | organize_files.py:8-68 | `extract_category`: the rules, in order, applied to the last path component. It carries no contract of its own; its properties are the lemmas `CategoryUsesLastComponent`, `CategoryFromTable`, `CategoryAfterDoubleUnderscore`, `CategoryAfterUnderscore`, `CategoryFallback`, `CategoryIsPartOfName` and `CategoryHasNoSlash`. |
| Categories.CategoryIsPartOfName | organize_files.py:8-68 | The category is a contiguous piece of the last path component, nonempty whenever that component is. So no name makes the function fail. |
| Categories.CategoryHasNoSlash | organize_files.py:8-68 | A category never contains `/`, so it names a single folder. |
| Categories.FramesInFolderGiveStem | organize_files.py:12-13 | For any folder part, `<folder>/1.svg` is classified as `"1"`, not as the docstring's `"IconArt"` or `"Frame"`. |
| Categories.UnderscoreWordNames | organize_files.py:14-18 | `_` + a table word + any text without `/` is classified as that word, as the docstring's `_IconArt…`, `_Frame…`, ... examples say. |
| Organize.PathSuffix | organize_files.py:98 | `Path.suffix`: empty, or a dot, at least one more character, and no other dot, ending the name and not starting it. When it is empty, no dot inside the name is the last one. |
| Organize.LStripDots | organize_files.py:182 | An ending of the string that does not start with `.`, and only dots were removed. |
| Organize.NormalizeType | organize_files.py:182 | One element of the line-182 comprehension. Its shape and idempotence are the lemmas `NormalizedTypeShape` and `NormalizeTypeIdempotent`. |
| Organize.NormalizeTypes | organize_files.py:179-182 | The `if args.types:` guard around the comprehension. Its absent and element-wise cases and its idempotence are the lemma `NormalizeTypesIdempotent`. |
| Organize.NormalizedTypeShape | organize_files.py:182 | A normalised type is one dot followed by the lower-cased type with its leading dots stripped. It has no second leading dot and is already lower case. |
| Organize.NormalizeTypeIdempotent | organize_files.py:182 | Normalising a type twice is normalising it once. |
| Organize.NormalizeTypesIdempotent | organize_files.py:179-182 | A missing or empty list stays absent (in both directions). Any other list keeps its length and is normalised element by element, and normalising the list twice is normalising it once. |
| Organize.SuffixIsNormalized | organize_files.py:182 | A lower-cased nonempty `Path.suffix` (line 98) is its own normal form. |
| Organize.CollectFiles | organize_files.py:94-99 | The collection loop returns the collected names of the listing in enumeration order. |
| Organize.CollectedMembers | organize_files.py:91-99 | A name is collected exactly when a regular file of that name has a listed suffix, or the type list is empty. |
| Organize.CollectedKeepsOrder | organize_files.py:95-99 | The collected names are a subsequence of the listing's names. |
| Organize.EmptyTypesCollectAllFiles | organize_files.py:98 | With an empty type list every regular file is collected. |
| Grouping.GroupBy | organize_files.py:104-108 | The grouping loop yields the keys in order of first occurrence and the map from each key to its elements. |
| Grouping.KeyOrderCovers | organize_files.py:104-108 | A category is a key exactly when some collected file has it. |
| Grouping.KeyOrderDistinct | organize_files.py:104-113 | Each category is iterated once. |
| Grouping.KeyOrderFirstOccurrence | organize_files.py:104-113 | Categories are iterated in order of first occurrence: the first file of an earlier category appears before every file of a later one. |
| Grouping.MembersHaveKey | organize_files.py:105-108 | A category's list holds only files of that category, and keeps their enumeration order. |
| Grouping.MembersContain | organize_files.py:105-108 | Every file is in the list of its own category. |
| Grouping.GroupingIsPartition | organize_files.py:104-108 | The lists, end to end in key order, hold every collected file exactly as often as it occurs. |
| Organize.PlanCopies | organize_files.py:113-134 | The folder-and-copy loop plans, per category in key order, the creation of its folder (not in a dry run) and then its files' copies. |
| Organize.CopyCategoryFiles | organize_files.py:122-134 | The inner loop plans one copy per file to `category_dir/name`. It plans nothing in a dry run and skips a file whose destination is its source. |
| Organize.DeleteNonFolderedFiles | organize_files.py:150-163 | The deletion loop plans the deletion of each selected entry and counts exactly the deletions planned. |
| Organize.DeletionsExact | organize_files.py:157-163 | An action is a planned deletion exactly when it deletes a top-level regular file whose lower-cased suffix is listed. |
| Organize.EmptyTypesDeleteNothing | organize_files.py:159 | Unlike collection, an empty type list deletes nothing. |
| Organize.OrganizePlan | organize_files.py:81-140 | The plan of `organize_files`, specifying `OrganizeFiles`. Its properties are the lemmas `DryRunPlan`, `NoDeletionUnlessAsked`, `PlannedCopyTarget`, `EveryCollectedFileCopied` and `SkippedFileIsStillDeleted`. |
| Organize.OrganizeFiles | organize_files.py:81-140 | `organize_files` plans the output folder's creation when one is given. It then plans the copy plan of the grouped collected files and, when asked for and not a dry run, the deletions. |
| Organize.DryRunPlan | organize_files.py:84-126 | A dry run plans only the creation of the given output folder: no category folder, copy or deletion. |
| Organize.NoDeletionUnlessAsked | organize_files.py:139-140 | A deletion is planned only when deleting is asked for and it is not a dry run. |
| Organize.PlannedCopyTarget | organize_files.py:105-134 | Every planned copy takes a collected file to `output/<its category>/<same name>`. It is never a dry run, and source and destination differ. |
| Organize.EveryCollectedFileCopied | organize_files.py:113-134 | Outside a dry run, each collected file's category folder is created. The file is copied there unless that is where it already is. |
| Organize.SkippedFileIsStillDeleted | organize_files.py:128-162 | A file skipped because it already sits in its category folder is deleted when deletion is on, and no copy of it is planned. |
| ProperNames.AMatchAt | rename_sprites.py:13 | Where `a_(.+)$` matches: `a_` with at least one character after it. `FindA` finds its leftmost position, and `ProperNameFromA`, `FrameLabelledName` and `WordEndingInACutsName` use it. |
| ProperNames.FindA | rename_sprites.py:13 | `re.search(r'a_(.+)$')`: it finds the leftmost position of `a_` with at least one character after it, or reports that there is none. |
| Strings.IsDecimalDigit | rename_sprites.py:21 | What `\d` matches in a `str` pattern: `0`-`9` and every other decimal digit of Unicode 15.0. `UnicodeDigitExample` shows a non-ASCII digit taken by the marker rule. |
| ProperNames.DigitsEnd | rename_sprites.py:21 | The end of the maximal run of Unicode decimal digits from a position (what the greedy `\d+` takes). |
| ProperNames.DefineSpriteMatchAt | rename_sprites.py:21 | Where `DefineSprite_(\d+)_(.+)$` matches: the marker, a maximal nonempty run of decimal digits, `_` and at least one more character. `DefineSpriteMatchParts` and `DefineSpriteMatchFromParts` characterise it in both directions. |
| ProperNames.FindDefineSprite | rename_sprites.py:21 | `re.search(r'DefineSprite_(\d+)_(.+)$')`: it finds the leftmost position where the pattern matches, Unicode decimal digits included, or reports that there is none. |
| ProperNames.DefineSpriteName | rename_sprites.py:21-23 | The second group of a match is nonempty and ends the name. |
| ProperNames.DefineSpriteMatchParts | rename_sprites.py:21-23 | A match splits the name from there into the marker, a nonempty digit run, `_` and a nonempty rest, the group returned. |
| ProperNames.DefineSpriteMatchFromParts | rename_sprites.py:21-23 | Conversely, any such split is a match whose group is the rest. |
| ProperNames.ExtractProperName | rename_sprites.py:6-28 | The proper name is always an ending of the folder name, and nonempty when the folder name is. |
| ProperNames.ProperNameFromA | rename_sprites.py:13-17 | The leftmost `a_` with something after it gives everything after it. |
| ProperNames.ProperNameFromDefineSprite | rename_sprites.py:21-25 | With no `a_` match, the leftmost sprite-marker match gives its rest. |
| ProperNames.ProperNameFallback | rename_sprites.py:28 | With neither match the folder name is kept. |
| ProperNames.FrameLabelledName | rename_sprites.py:8-17 | `DefineSprite_<digits>_a_<rest>` is named `<rest>`. |
| ProperNames.PlainSpriteName | rename_sprites.py:20-25 | `DefineSprite_<digits>_<rest>` is named `<rest>` when `<rest>` holds no `a_` match. |
| ProperNames.WordEndingInACutsName | rename_sprites.py:13-17 | A word ending in `a` before `_` also triggers the first rule, so `DefineSprite_<digits>_<w>a_<rest>` is named `<rest>`. |
| ProperNames.FrameLabelledExample | rename_sprites.py:8 | `"DefineSprite_2_a_WaistSide_ThunderGolem"` is named `"WaistSide_ThunderGolem"`. |
| ProperNames.PlainExample | rename_sprites.py:20 | `"DefineSprite_1234_Torso_EscapedGladiator"` is named `"Torso_EscapedGladiator"`. |
| ProperNames.UnicodeDigitExample | rename_sprites.py:21-25 | `"DefineSprite_٣_Torso"` (an Arabic-Indic digit three) is named `"Torso"`, since `\d` takes that digit. |
| ProperNames.ParentProperNameExample | rename_sprites.py:13-15 | `"DefineSprite_7_a_.."` is named `".."`, the parent-folder component. |
| StringOrder.Le | rename_sprites.py:58 | Python's `<=` on strings: code-point lexicographic, a proper prefix first. That it is a total order is the lemmas `LeTotal`, `LeAntisymmetric` and `LeTransitive`. |
| StringOrder.LeTotal | rename_sprites.py:58 | Any two strings are ordered one way or the other. |
| StringOrder.LeAntisymmetric | rename_sprites.py:58 | Strings ordered both ways are equal. |
| StringOrder.LeTransitive | rename_sprites.py:58 | The string order is transitive. |
| StringOrder.Sort | rename_sprites.py:58 | `sorted`: the result is sorted and is a permutation of the input. |
| StringOrder.SortedPermutationUnique | rename_sprites.py:58 | Two sorted permutations of each other are equal, so the result is exactly Python's `sorted`. |
| DecimalFormat.Decimal | rename_sprites.py:66 | The decimal representation is a nonempty string of digits, starting with `0` only for zero. |
| DecimalFormat.Pad2 | rename_sprites.py:66 | `f"{i:02d}"` is a string of digits. Its value, injectivity and width are `Pad2RoundTrip`, `Pad2Injective` and `Pad2Width`. |
| DecimalFormat.Pad2RoundTrip | rename_sprites.py:66 | Reading `f"{i:02d}"` back as a decimal number gives i. |
| DecimalFormat.Pad2Injective | rename_sprites.py:66 | Different numbers are written differently. |
| DecimalFormat.Pad2Width | rename_sprites.py:66 | The padded number has at least two digits, exactly two below 100, and starts with `0` exactly below 10. |
| DecimalFormat.DecimalUnique | rename_sprites.py:66 | `str(n)` is the only digit string of value n without a superfluous leading zero. |
| DecimalFormat.Pad2Unique | rename_sprites.py:66 | `f"{n:02d}"` is the only digit string of value n that has at least two digits and starts with `0` only when it has exactly two, so `100` is written `100` and not `0100`. |
| SpriteRenaming.Selected | rename_sprites.py:36 | A directory whose name does not start with `sprites_done`. `DirectoriesMembers` and `PlanNeverReadsOutput` use it. |
| SpriteRenaming.IsSvg | rename_sprites.py:46 | A name whose lower-cased form ends in `.svg`. `SvgFilesMembers` and `SortedSvgs` use it. |
| SpriteRenaming.DirectoriesMembers | rename_sprites.py:36 | A listed item is processed exactly when it is a directory whose name does not start with `sprites_done`, in listing order. |
| SpriteRenaming.SvgFilesMembers | rename_sprites.py:46 | A folder's SVG files are exactly the names it lists whose lower-cased form ends in `.svg`, in listing order. |
| SpriteRenaming.RenameSprites | rename_sprites.py:31-71 | The main loop plans the creation of `sprites_done`, then each processed folder's actions in listing order. |
| SpriteRenaming.PlanFolder | rename_sprites.py:42-71 | One folder: its subfolder when it has more than one SVG, then the numbered copies of its sorted SVG files. |
| SpriteRenaming.CopySorted | rename_sprites.py:58-70 | The enumeration loop copies the i-th sorted file, counting from 1, to its destination. That is `<proper>.svg` for a lone file, else `<proper>/<proper>_<i:02d>.svg`. |
| SpriteRenaming.Destination | rename_sprites.py:62-67 | `sprites_done/<proper>.svg` for a lone file, else `sprites_done/<proper>/<proper>_<i:02d>.svg`. `FolderWithOneSvg`, `FolderWithManySvgs` and `NumberedDestinationsDistinct` state its properties. |
| SpriteRenaming.FolderWithoutSvgs | rename_sprites.py:46-58 | A folder without SVG files produces no action, not even a subfolder. |
| SpriteRenaming.FolderWithOneSvg | rename_sprites.py:53-64 | A lone SVG is copied to `sprites_done/<proper>.svg` and nothing else is done. |
| SpriteRenaming.FolderWithManySvgs | rename_sprites.py:53-67 | With n > 1 SVGs, the subfolder is created first. Then the i-th sorted file, for i from 1 to n, goes to `sprites_done/<proper>/<proper>_<i:02d>.svg`. |
| SpriteRenaming.NumberedDestinationsDistinct | rename_sprites.py:65-67 | Within one folder of several SVGs, different positions get different destinations. |
| SpriteRenaming.SortedSvgs | rename_sprites.py:46-58 | The sorted list holds each SVG file as often as it is listed, and exactly the SVG files. |
| SpriteRenaming.FolderCopyIsNumbered | rename_sprites.py:58-67 | Every copy of a folder takes one of its sorted SVG files to that file's numbered destination. |
| SpriteRenaming.FolderCopySource | rename_sprites.py:59 | Every copy reads an SVG file listed in the folder, and its destination path has `sprites_done` as its first component. |
| SpriteRenaming.RenamePlanMembers | rename_sprites.py:33-71 | An action is planned exactly when it creates `sprites_done` or is an action of a processed folder. |
| SpriteRenaming.PlanNeverReadsOutput | rename_sprites.py:36-59 | No copy reads from `sprites_done` (or any name starting with it). Every copy reads an SVG file of a listed directory. |
| SpriteRenaming.EverySvgIsCopied | rename_sprites.py:41-70 | Every SVG file of every processed folder is copied to a destination path whose first component is `sprites_done`. |

## Left out

- Filesystem effects are not performed. `iterdir`, `listdir`, `isdir`, `is_file`, `mkdir`, `shutil.copy2` and `unlink` become the input listings and the planned actions. Copying file contents and metadata is not modelled.
- A failing filesystem call is not modelled, e.g. `mkdir` on a name held by a file, or copying a "`.svg`" entry that is a directory.
- `print` output and the argparse wiring of `main` (organize_files.py lines 168-177, 184) are left out; only the line-182 normalisation is modelled.
- Overwrites and collisions are not modelled. This covers two folders with the same proper name (`mkdir(exist_ok=True)` then overwriting), and existing destination files.
- Directory enumeration order is an input; the real order is unspecified.
- `delete_non_foldered_files` lists the directory a second time. The model gives it the same listing as the collection step, since the copies only add entries below category folders.
- Organize.OrganizeFiles: paths are compared as component sequences. `pathlib` normalisation (`.`, `..`, trailing slashes, symlinks) is not modelled.
- Strings.Lower: ASCII case mapping only. Python's Unicode `str.lower` (e.g. `İ`, `ẞ`) is not modelled.
- ProperNames.ExtractProperName: names are taken to hold no line break. Python's `.` not matching `\n` and `$` matching before a final `\n` are not modelled.
- Organize.PathSuffix: models `Path.suffix` as in Python up to 3.13, which yields nothing for a name ending in a dot. Later versions can differ.
- StringOrder.Sort: it is an insertion sort, not Python's Timsort. Only its result, proved to be the unique sorted permutation, is meant to agree.
- Paths follow POSIX (`posixpath`, `PosixPath`). On Windows `os.path.basename` and `os.path.splitext` (organize_files.py lines 25, 68) also split at `\`, and `WindowsPath` equality (line 129) ignores case. Neither is modelled.
- ProperNames.DigitsEnd: `\d` is taken as the decimal digits of Unicode 15.0, the database of Python 3.12. A Python with a later Unicode database may accept further digits.
- SpriteRenaming.FolderCopySource: a destination's path components are not resolved. A proper name `..` (the folder `DefineSprite_7_a_..` has it, `ProperNames.ParentProperNameExample`) makes the real destination leave `sprites_done`, although its first component is still `sprites_done`; a proper name `.` puts the numbered copies directly into `sprites_done`. The same holds for SpriteRenaming.EverySvgIsCopied.
- Names are Dafny strings of Unicode scalar values. A name that `os.listdir` or `iterdir` decodes with lone surrogates (the `surrogateescape` handler for undecodable bytes) has no counterpart, and neither does the code-point order `sorted` (rename_sprites.py line 58) gives such names.
