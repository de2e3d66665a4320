# EuroPDF-Extractor section structuring, in Dafny

This project models how the PDF parser of EuroPDF-Extractor (`utils/parser.py`) turns document text into a tree of sections. It covers:

- the flat title→text mapping built from the table of contents (TOC) and the page texts;
- the repair and normalisation of titles and section numberings ("1.", "2.3.", …);
- the tree of levels: chapters at the root, sub-sections under their parent.

It models these steps of the parser:

- **Page segmentation** (`Segmenter`): cutting the page texts into one section per TOC entry when the TOC has no numbering. Page texts are given as `seq<string>`.
- **Section boundaries** (`SectionSearch`, `SectionRefine`): search keys derived from the depth of a title's numbering. Sections are sliced with `find`, then refined: the heading is removed and short sections are emptied. The text up to the title is dropped.
- **Title normalisation** (`Titles`, `TitleKeys`, `Variations`):
  - text cleaning, and stripping a trailing run of capitals and digits;
  - `"<numbering>. <title>"` key normalisation;
  - the last-uppercase cut of `process_string`;
  - zipping TOC numberings with key texts;
  - the spacing and numbering variants of a title.
- **Numbering repair** (`Numbering`, `NumberingRepair`):
  - the set of legal successors of a dotted numbering;
  - the walk that flags numberings which are not a legal successor;
  - the rebuilding of each flagged numbering from its neighbours.
- **Tree building** (`Levels`, `Resolve`):
  - grouping titles into `"level 0"`, `"level 1"` and `"level d for P"`;
  - attaching each group under its parent title;
  - flattening the tree into a reference map, replacing texts by the dicts they name, and filtering the root titles.
- **The three tree steps in a row** (`Pipeline`): a chapter and one of its sections end up as the chapter alone at the root, holding its own text under `"introduction"` followed by the section.

Python dicts are ordered association lists (`OrderedDict.Dict<V> = seq<(string, V)>`). Assigning to an existing key keeps its position and replaces its value; assigning a new key appends it. Every regular expression of the modelled code is written out by hand as a function on strings:

- `\d` means the ASCII digits;
- `\s` means Python's ASCII whitespace;
- `.` stops at a newline;
- `$` also matches before a final newline.

An exception raised by the parser becomes the `Err` case of `Results.Result`.

The functions state what each step computes. The methods follow the source's loops and are proved equal to those functions. The lemmas state the properties promised by the code and its docstrings.

## Model

| member | source | states |
|---|---|---|
| Numbering.ParseComponentsFails | utils/parser.py:751-755 | `int()` over the components fails exactly when some component is empty or holds a non-digit |
| Numbering.ParseRender | utils/parser.py:753-761 | reading back a rendered numbering `'.'.join(map(str, q)) + '.'` gives its components back |
| Numbering.RenderIsToken | utils/parser.py:803-806 | a rendered numbering is a digits-and-dots token, so it is recognised as a numbering again |
| Numbering.SubLevelsLegal | utils/parser.py:763-771 | the sub-level block holds exactly the children 1-9 (depth < 4) and grandchildren 1-9 (depth < 3) |
| Numbering.SiblingsLegal | utils/parser.py:773-780 | the sibling block holds exactly the siblings last+1..last+9 and, while depth < 4, their children 1-9 |
| Numbering.HigherLevelsLegal | utils/parser.py:782-786 | the higher-level block holds exactly the prefixes whose last kept component is raised by 1-9 |
| Numbering.PossibilitiesAreLegal | utils/parser.py:757-790 | the enumerated possibilities are exactly the legal successors (declarative `Legal`) |
| Numbering.RenderAllMembership | utils/parser.py:761-790 | a string is among the rendered possibilities exactly when it renders one of them |
| Numbering.SuccessorListMembership | utils/parser.py:740-792 | a numbering is in the successor list exactly when it is the rendering of a legal successor |
| Numbering.NextHoldsIncrement | utils/parser.py:760-792 | the successor list holds the last component incremented and is strictly sorted, hence free of duplicates |
| Numbering.LegalIsGreater | utils/parser.py:757-790 | every numbering `generate_next_numberings` can produce compares greater than its argument as a tuple of components |
| Numbering.NextFailsIffUnparsable | utils/parser.py:751-755 | on a digits-and-dots token, `generate_next_numberings` raises exactly when a component is empty |
| NumberingRepair.KeyNumbering | utils/parser.py:803-809 | the numbering of a key is its first word when that is digits and dots, else empty |
| NumberingRepair.Numberings | utils/parser.py:801-809 | one numbering per key, each empty or a numbering token |
| NumberingRepair.ExtractNumberings | utils/parser.py:800-809 | the first loop collects those numberings, and the blank indexes are exactly the unnumbered entries |
| NumberingRepair.WalkFromIncreasing | utils/parser.py:811-844 | the flagged indices are strictly increasing and within the list, so `sorted(set(...))` keeps them as they are |
| NumberingRepair.Walk | utils/parser.py:811-844 | the nested `while` loops compute the declarative walk, and their flags are sorted and unique |
| NumberingRepair.WalkFromAnchor | utils/parser.py:814-841 | from any point, the walk flags exactly the later entries that are not successors of the last accepted numbering |
| NumberingRepair.WalkFlagsExactly | utils/parser.py:811-844 | an index is flagged exactly when it holds a numbering absent from the successors of the last accepted numbering before it |
| NumberingRepair.AnchorIsEarlier | utils/parser.py:814-836 | the accepted numbering is always an earlier numbered entry, and there is none only while all entries so far are blank |
| NumberingRepair.FlaggedHasEarlierNumbering | utils/parser.py:814-832 | neither an unnumbered entry nor the first numbered entry is ever flagged |
| NumberingRepair.AnchorIsLastAccepted | utils/parser.py:814-841 | the accepted numbering is that of an earlier unflagged numbered entry, and every numbered entry since then was flagged |
| NumberingRepair.WalkFromAnchorOk | utils/parser.py:822-829 | a walk that returns has computed without error the successor list of every accepted numbering it compared a later numbering against |
| NumberingRepair.AcceptedParses | utils/parser.py:822-829 | an accepted numbering followed by another numbering parses into components |
| NumberingRepair.AcceptedAbove | utils/parser.py:828-837 | an accepted numbering compares greater, as a tuple, than the accepted numbering before it |
| NumberingRepair.PrevNumbered | utils/parser.py:852-856 | the nearest numbered entry before the index, with only blanks in between |
| NumberingRepair.FindPrevious | utils/parser.py:852-856 | the downward loop finds that nearest previous numbered entry |
| NumberingRepair.NextNumberedFrom | utils/parser.py:858-862 | the nearest numbered entry after the index, with only blanks in between |
| NumberingRepair.FindNext | utils/parser.py:858-862 | the upward loop finds that nearest next numbered entry |
| NumberingRepair.ReconstructTwoRules | utils/parser.py:864-876 | only two outcomes: `prev.1.` for a depth-1 prev that shares next's top component, otherwise prev's next sibling; the `elif` and `else` agree; the result is a legal successor of prev |
| NumberingRepair.RepairOne | utils/parser.py:848-876 | one repair changes only the flagged entry, and only when numbered entries exist both before and after it |
| NumberingRepair.RepairAt | utils/parser.py:849-876 | the loop body computes one repair |
| NumberingRepair.RepairOneFollowsPrevious | utils/parser.py:864-876 | a renumbered entry is a legal successor of the numbered entry before it |
| NumberingRepair.RepairAll | utils/parser.py:847-876 | repairing every flagged index keeps the length of the numbering list |
| NumberingRepair.RepairAllFrame | utils/parser.py:847-876 | entries that are not flagged keep their numbering |
| NumberingRepair.RepairOneShape | utils/parser.py:864-876 | a repair of a numbered entry writes a numbering token, so numbered and blank entries stay as they were |
| NumberingRepair.RepairAllShape | utils/parser.py:847-876 | repairing the flagged entries keeps every blank entry blank and every numbered entry a numbering token |
| NumberingRepair.RepairOneLegal | utils/parser.py:864-876 | a repair between two numbered neighbours writes a legal successor of the one before |
| NumberingRepair.RepairAllFinalFirst | utils/parser.py:847-876 | the first flagged index keeps the value its own repair gave it |
| NumberingRepair.RepairAllFinal | utils/parser.py:847-876 | a flagged index ends unchanged when it lacks a numbered neighbour on one side, and otherwise as a legal successor of the final numbering of its predecessor |
| NumberingRepair.RepairedAtOrAbove | utils/parser.py:811-876 | every numbered entry after an accepted one, with a numbered entry still after it, ends at or above the accepted numbering as a tuple |
| NumberingRepair.RepairedAvoidsAccepted | utils/parser.py:864-876 | a renumbered entry never takes the numbering of an accepted entry before it |
| NumberingRepair.RepairNumberings | utils/parser.py:847-876 | the in-place loop over the flagged indices computes the sequence of repairs |
| NumberingRepair.NewKeyOwnNumbering | utils/parser.py:884-889 | a key rebuilt with its own numbering is the key itself |
| NumberingRepair.KeyNumberingNewKey | utils/parser.py:884-889 | a key rebuilt with a numbering token has that token as its numbering |
| NumberingRepair.RebuiltPairs | utils/parser.py:879-889 | every rebuilt entry keeps its value |
| NumberingRepair.RebuiltKeyDistinct | utils/parser.py:879-889 | no assignment after an unflagged entry's one reuses that entry's key |
| NumberingRepair.UnflaggedKeyKept | utils/parser.py:879-889 | the rebuilt dict maps an unflagged entry's key to its value |
| NumberingRepair.Rebuild | utils/parser.py:878-889 | the last loop assigns every rebuilt pair into a fresh dict |
| NumberingRepair.FindAndReplaceNumberings | utils/parser.py:723-891 | the whole method computes extraction, walk, repair and rebuild, with an error where the successor list raises |
| NumberingRepair.UnflaggedEntriesKept | utils/parser.py:847-889 | every entry the walk does not flag, numbered or not, is assigned under its own key and value, and the returned dict still maps that key to that value: no renumbered key collides with it |
| NumberingRepair.ConsistentUnchanged | utils/parser.py:723-891 | a dict whose numberings already follow each other comes back unchanged |
| Titles.DeleteEachKeepsAbsent | utils/parser.py:143-144 | deleting the special strings introduces no character |
| Titles.DeleteEachRemoves | utils/parser.py:143-144 | a special single character does not survive the deletions |
| Titles.CleanText | utils/parser.py:131-152 | `clean_text` deletes the special strings, then normalises whitespace; the result is in normal form and holds no special character |
| Titles.SuffixCut | utils/parser.py:165-166 | the lazy group ends at or after the index where the search starts |
| Titles.SuffixCutSpec | utils/parser.py:165-166 | the lazy group ends at the first index where the suffix pattern matches, with no newline before it |
| Titles.SuffixCutFound | utils/parser.py:165-167 | the pattern always matches a title with no newline before its last character |
| Titles.SuffixRunExtend | utils/parser.py:165 | a capital or digit followed by whitespace extends a run of the suffix pattern |
| Titles.MatchTail | utils/parser.py:165 | where the suffix pattern matches, the rest is capitals, digits and whitespace |
| Titles.MatchEarlier | utils/parser.py:165 | a match preceded by a capital or digit and whitespace starts one earlier |
| Titles.CutEndsClean | utils/parser.py:165-167 | the cleaned title does not end with a capital letter or digit |
| Titles.CleanTitleSuffixTrimmed | utils/parser.py:165-167 | the cleaned title has no edge whitespace and no trailing capital or digit |
| Titles.CleanTitleSuffixPiece | utils/parser.py:165-167 | the cleaned title is a piece of the title: only whitespace before it, only capitals, digits and whitespace after it |
| Titles.CutHasNoNewline | utils/parser.py:165-167 | a matched result holds no newline |
| Titles.CleanTitleSuffixIdempotent | utils/parser.py:154-169 | cleaning a cleaned title changes nothing |
| TitleKeys.DottedTitle | utils/parser.py:617-622 | in `"<numbering>. <text>"` the regex groups are the numbering, the dot, the space and the text |
| TitleKeys.DottedAlone | utils/parser.py:617-622 | in `"<numbering>."` the regex groups are the numbering and the dot, with no text |
| TitleKeys.NormalizeKeyShape | utils/parser.py:617-625 | a key starting with a digit becomes its numbering, `". "` and a stripped one-line title |
| TitleKeys.NormalizedFixed | utils/parser.py:617-622 | a key already of the form `"<numbering>. <text>"` is left as it is |
| TitleKeys.NormalizeKeyIdempotent | utils/parser.py:612-628 | normalising a normalised key changes nothing |
| TitleKeys.NormalizeKeysIdempotent | utils/parser.py:602-632 | normalising a normalised dict changes nothing, even when keys merged |
| TitleKeys.LastUpperBelow | utils/parser.py:645-647 | the backward scan finds the last uppercase letter, or reports there is none |
| TitleKeys.CutAtLastUpperSpec | utils/parser.py:645-655 | the text is cut just before its last uppercase letter exactly when that letter is not first and not followed by a space; otherwise it is kept |
| TitleKeys.NumberingEnd | utils/parser.py:637 | the numbering group is non-empty and within the string |
| TitleKeys.ProcessedTitleShape | utils/parser.py:635-659 | a numbered title becomes its numbering, one space and a prefix of its stripped text; any other string is kept |
| TitleKeys.ProcessString | utils/parser.py:635-659 | the character scan of `process_string` computes the processed title |
| TitleKeys.ProcessTitlesDistinct | utils/parser.py:662-664 | when no two keys process alike, every entry is kept in order under its processed key |
| TitleKeys.KeyTextShape | utils/parser.py:698-703 | the text taken from a key is one stripped line |
| TitleKeys.TocNumberingShape | utils/parser.py:684-694 | a TOC numbering is empty, or a numbering followed by exactly one dot |
| TitleKeys.ReconstructedWithText | utils/parser.py:709-711 | a numbering and a non-empty text are joined as `"<numbering>. <text>"` |
| TitleKeys.ReconstructedWithoutText | utils/parser.py:709-711 | a numbering with an empty text is left alone; the trailing space is stripped |
| TitleKeys.ReadBackDotted | utils/parser.py:684-703 | from `"<n>. <text>"` step 1 reads the numbering and step 2 reads the text |
| TitleKeys.ReadBackAlone | utils/parser.py:684-703 | from `"<n>."` step 1 reads the numbering and step 2 reads no text |
| TitleKeys.ReconstructedRoundTrip | utils/parser.py:683-713 | a title rebuilt from a TOC numbering and a key text gives back that numbering and that text |
| TitleKeys.KeyTextFixed | utils/parser.py:698-713 | without a numbering, a text not starting with a digit is read back unchanged |
| TitleKeys.OneStepPairs | utils/parser.py:709-716 | `zip` stops at the shorter of the dict and the TOC |
| TitleKeys.OneStepEntry | utils/parser.py:682-716 | entry `i` carries the value of key `i`, the numbering of TOC title `i` and the text of key `i` |
| TitleKeys.OneStepDistinct | utils/parser.py:716 | when the rebuilt keys are distinct the dict holds exactly the zipped entries, in order |
| SectionSearch.Groups | utils/parser.py:500-502 | the groups `\d+\.` matched in a row lie within the title |
| SectionSearch.DropLeadingNumber | utils/parser.py:505 | removing the leading number leaves a suffix of the title |
| SectionSearch.GroupRun | utils/parser.py:503 | the greedy run of two or three groups lies within the title |
| SectionSearch.SpaceAfterNoDigits | utils/parser.py:503 | with no digit left, the substitution inserts nothing |
| SectionSearch.ModifiedUnnumbered | utils/parser.py:499-507 | a title not starting with a digit is its own search key and takes no fallback |
| SectionSearch.ModifiedOneLevel | utils/parser.py:504-505 | `"<n>. <text>"` is searched for by its text alone |
| SectionSearch.ModifiedTwoLevel | utils/parser.py:502-503 | `"<a>.<b>.<text>"` is searched for as `"<a>.<b>. <text>"` |
| SectionSearch.TwoLevelKey | utils/parser.py:502-503 | two groups followed by a non-digit take the substitution branch |
| SectionSearch.ThreeLevelKey | utils/parser.py:502-503 | three groups not followed by whitespace take the substitution branch |
| SectionSearch.ModifiedThreeLevel | utils/parser.py:502-503 | `"<a>.<b>.<c>.<text>"` is searched for as `"<a>.<b>.<c>. <text>"` |
| SectionSearch.ModifiedSpacedThreeLevel | utils/parser.py:500-501 | `"<a>.<b>.<c>. <text>"` is its own search key |
| SectionSearch.StartIndex | utils/parser.py:531-537 | the start is -1 or an index within the text |
| SectionSearch.StartIndexSpec | utils/parser.py:531-537 | the start is an occurrence of the key (its first one when present), else of the title, else of the stripped title; it is -1 exactly when none occurs |
| SectionSearch.EndIndex | utils/parser.py:539-542 | the end is -1 or an occurrence of the next key or next title |
| SectionSearch.EndIndexFound | utils/parser.py:539-542 | a found end is the first later occurrence of the next key, else of the next title |
| SectionSearch.EndIndexMissing | utils/parser.py:539-542 | a missing end means neither the next key nor the next title occurs later |
| SectionSearch.ExtractSections | utils/parser.py:484-558 | exactly the titles are keys; each title listed once gets its own section, and a repeated title keeps its last section |
| SectionSearch.SectionOfMissingText | utils/parser.py:510-513 | a title whose text is missing or empty gets `""` |
| SectionSearch.SectionIsPiece | utils/parser.py:515-551 | every section is a contiguous piece of its title's text |
| SectionSearch.PieceBetween | utils/parser.py:544-546 | with a found start, the section between two titles is a piece of the text |
| SectionSearch.PieceToEnd | utils/parser.py:549-551 | with a found key, the section of the last title is a piece of the text |
| SectionSearch.SectionWithoutKey | utils/parser.py:515-551 | a title none of whose search strings occurs keeps its whole text |
| SectionSearch.SectionBetweenKeys | utils/parser.py:531-546 | between two found titles the section is the stripped slice from the start to the first later occurrence of the next key, or, when the key does not occur after the start, of the next title itself |
| SectionSearch.SectionLosesLastChar | utils/parser.py:540-546 | when the next title is not found after the start, `end_index` is -1 and the slice drops the text's last character |
| SectionSearch.SectionCut | utils/parser.py:544-546 | with a next title and a found start, the section is the stripped slice between the two indices |
| SectionSearch.SectionOfLastTitle | utils/parser.py:547-551 | the last title's section runs from the first occurrence of its key to the end, stripped |
| SectionRefine.DeleteNumbers | utils/parser.py:582-583 | removing the numbers never lengthens the text |
| SectionRefine.DeleteNumbersNoDigits | utils/parser.py:582-583 | no digit survives the removal of numbers |
| SectionRefine.DeleteNumbersWithoutDigits | utils/parser.py:582-583 | a text without digits is left as it is |
| SectionRefine.DeleteNumbersIdempotent | utils/parser.py:582-583 | removing the numbers twice removes nothing more |
| SectionRefine.LastDotBelow | utils/parser.py:588 | the last dot before an index, for the regex's backtracking |
| SectionRefine.NumberingMatchSpec | utils/parser.py:588 | the match is a numbering followed by a dot, and the longest one |
| SectionRefine.RefineShort | utils/parser.py:581-585 | a text of at most 50 characters is emptied |
| SectionRefine.RefineKeepsLong | utils/parser.py:581-585 | a refined text survives only if more than 50 characters remain once the title is removed and the numbers deleted |
| SectionRefine.WithoutTitleIsPiece | utils/parser.py:577-579 | removing the leading title keeps a piece of the text |
| SectionRefine.RefineIsPiece | utils/parser.py:576-596 | the refined text is a contiguous piece of the section text |
| SectionRefine.HeadingCutIsPiece | utils/parser.py:587-593 | removing the numbered heading keeps a piece of the text |
| SectionRefine.RefineDropsTitle | utils/parser.py:577-579 | a long section starting with its unnumbered title loses the title and the whitespace after it |
| SectionRefine.RefineDropsNumberedHeading | utils/parser.py:587-593 | a long section starting with `"<numbering> <title without numbers>"` loses that heading |
| SectionRefine.RefineSections | utils/parser.py:560-600 | every section is refined, under the same title and in the same order |
| SectionRefine.RemoveNumberingRoundTrip | utils/parser.py:909-921 | removing the numbering from `"<numbering>. <text>"` gives back the text |
| SectionRefine.RemoveNumberingUnnumbered | utils/parser.py:921 | a title not starting with a digit is only stripped |
| SectionRefine.FindAndRemove | utils/parser.py:923-946 | the character scan computes the text after the first occurrence, left-stripped, or the text itself |
| SectionRefine.AfterFirstAt | utils/parser.py:942-945 | at the first occurrence, the rest after the title is kept, left-stripped |
| SectionRefine.AfterFirstNone | utils/parser.py:946 | with no occurrence the text is returned unchanged |
| SectionRefine.AfterFirstRoundTrip | utils/parser.py:942-946 | the text after the first occurrence of the title, when the title does not occur earlier |
| SectionRefine.AfterFirstSpec | utils/parser.py:942-946 | the result is what follows the first occurrence, minus the whitespace in between; no occurrence, no change |
| SectionRefine.RemoveTitleFromText | utils/parser.py:893-961 | every text is cut after its number-stripped title, under the same keys and in the same order |
| Levels.TitleNumberingOf | utils/parser.py:978-986 | in `"<numbering>.<rest>"` the numbering is read back |
| Levels.GroupLabelTop | utils/parser.py:989-996 | a one-part numbering files its title under `"level 1"` |
| Levels.GroupLabelChild | utils/parser.py:986-993 | `"<p>.<last>."` is filed under `"level <depth> for <p>"` |
| Levels.NumberedLabel | utils/parser.py:984-996 | a numbered title is never filed under `"level 0"` |
| Levels.NumberedLookup | utils/parser.py:980-996 | every numbered title is in the group of its label with its own value, and in no other group |
| Levels.UnnumberedLookup | utils/parser.py:997-999 | exactly the unnumbered titles are collected, with their own values |
| Levels.NumberedNoLevel0 | utils/parser.py:980-996 | no numbered group is labelled `"level 0"` |
| Levels.OrganizePartition | utils/parser.py:963-1005 | grouping partitions the dict: each title is in exactly the group of its label, with its own value |
| Levels.OrganizeLevel0 | utils/parser.py:1001-1003 | `"level 0"` is present exactly when some title has no numbering |
| Levels.UnnumberedEmpty | utils/parser.py:1001-1003 | no unnumbered entry exactly when every title is numbered |
| Levels.LastPiece | utils/parser.py:1034 | the part after the last `"for"` is no longer than the label |
| Levels.FirstWithPrefix | utils/parser.py:1035 | the first root title starting with the parent numbering, or none |
| Levels.FindParent | utils/parser.py:1035 | the search for the parent computes that first title |
| Levels.FirstWithPrefixIsFirst | utils/parser.py:1035 | the first title with the prefix is found |
| Levels.ParentIndex | utils/parser.py:1034-1037 | a parent title is a non-empty root title |
| Levels.AddNestedLevels | utils/parser.py:1032-1060 | attaching one group computes the attachment function |
| Levels.RestructureLevels | utils/parser.py:1007-1067 | the copy to the root and the attachment of every group compute the restructured dict |
| Levels.PutAllLookup | utils/parser.py:1043-1048 | after assigning a group, each of its titles has its value and every other key keeps its own |
| Levels.PutAllKeys | utils/parser.py:1043-1048 | assigning new titles appends them in order |
| Levels.AttachToParent | utils/parser.py:1037-1048 | a group with a parent changes only the parent, into a dict of children; the root titles stay in order |
| Levels.WithChildrenOfText | utils/parser.py:1039-1048 | a text parent becomes `{"introduction": text}` followed by the group's titles and texts |
| Levels.WithChildrenOfGroup | utils/parser.py:1043-1048 | a dict parent has the group's titles assigned into it |
| Levels.AttachOrphan | utils/parser.py:1050-1060 | a group without a parent is stored under its own label if non-empty; nothing else changes |
| Levels.AttachKeepsTitles | utils/parser.py:1032-1060 | attaching never removes a root title and adds at most the group's label |
| Levels.AttachAllKeepsTitles | utils/parser.py:1062-1065 | attaching all groups never removes a root title |
| Levels.PutTextsKeys | utils/parser.py:1021-1022 | copying a group to the root adds exactly its titles |
| Levels.CopyLevelsKeys | utils/parser.py:1025-1029 | every title of a group whose label starts with "level 1" to "level 4" reaches the root |
| Levels.CopyLevelsKeep | utils/parser.py:1025-1029 | copying groups keeps every root title |
| Levels.RestructuredKeepsTitles | utils/parser.py:1019-1029 | every title of `"level 0"` and of the level 1-4 groups is a root title of the result |
| Resolve.FlattenDict | utils/parser.py:1083-1096 | the recursive `flatten_dict` computes the reference mapping |
| Resolve.FlatPutGroups | utils/parser.py:1088-1093 | one assignment can only give a dict to its own key |
| Resolve.FlattenTextsGroups | utils/parser.py:1087-1096 | flattening text children never adds, drops or changes a dict entry |
| Resolve.FlattenGroups | utils/parser.py:1087-1096 | after flattening, a root title holds the dict it holds in the tree |
| Resolve.FlattenedGroups | utils/parser.py:1123-1125 | the reference mapping holds a dict under exactly the root titles that hold one, and it is the same dict |
| Resolve.UnfoldChildrenKeys | utils/parser.py:1098-1106 | replacing values keeps the titles of a dict, in order |
| Resolve.UnfoldRootsKeys | utils/parser.py:1098-1106 | replacing values keeps the root titles, in order |
| Resolve.UnfoldPlain | utils/parser.py:1102-1106 | children that name no dict of the mapping stay texts |
| Resolve.UnfoldCycle | utils/parser.py:1098-1106 | a dict that names a dict containing it makes the tree circular |
| Resolve.UnfoldChildrenLookup | utils/parser.py:1102-1106 | each child keeps its text unless it names a dict of the mapping, in which case it holds that dict's titles |
| Resolve.UnfoldRootsError | utils/parser.py:1102-1106 | a circular root makes the whole tree circular |
| Resolve.NumberDotIsRun | utils/parser.py:1117 | a digit run followed by a dot ends at the leading digits |
| Resolve.NumberDotAtEnd | utils/parser.py:1117-1119 | the dot after the leading digits is the one the patterns test |
| Resolve.MultiPartNumberAt | utils/parser.py:1116 | `\d+(\.\d+)+` matches exactly when the leading digits are followed by a dot and a digit |
| Resolve.BareNumberAt | utils/parser.py:1117 | `\d+\.$` matches exactly a number and a dot, with at most a final newline |
| Resolve.NumberedLineAt | utils/parser.py:1119 | `^\d+\..*$` matches a number, a dot and one line |
| Resolve.TwoPartIsMultiPart | utils/parser.py:1116-1119 | the `\d+\.\d+\.` test only catches titles the first test already excluded |
| Resolve.MultiPartIsLeading | utils/parser.py:1116-1117 | a multi-part number starts with a digit |
| Resolve.KeepRootKeySpec | utils/parser.py:1108-1121 | a root title is kept exactly when it does not start with a digit, or its leading number is followed by a dot not followed by a digit, on one line |
| Resolve.FilterRootsLookup | utils/parser.py:1114-1121 | a kept title keeps its value and a dropped title is absent |
| Resolve.FilterRootKeys | utils/parser.py:1108-1121 | the loop computes the filtered root entries, in order |
| Resolve.ResolveAndFilter | utils/parser.py:1069-1131 | the three steps compute the resolved tree, or the error of a circular tree |
| Resolve.ResolvedKeys | utils/parser.py:1123-1131 | the resolved tree has exactly the kept root titles, in order |
| Resolve.ResolvedSelfReference | utils/parser.py:1098-1106 | a root dict that names itself among its children makes the tree circular |
| Variations.WordEnd | utils/parser.py:240 | a word runs up to the next whitespace |
| Variations.WordsAreWords | utils/parser.py:240 | `split()` yields non-empty words without whitespace |
| Variations.NoWords | utils/parser.py:240 | there are no words exactly when the title is all whitespace |
| Variations.WordsJoinNormalized | utils/parser.py:240-247 | a title in normal form is its words joined by single spaces |
| Variations.Spacings | utils/parser.py:244 | `product` yields 2^n tuples of length n |
| Variations.SpacingsEnds | utils/parser.py:244 | the first tuple keeps every space and the last drops every space |
| Variations.SpacingsDistinct | utils/parser.py:244 | the tuples are pairwise different |
| Variations.SpacedAll | utils/parser.py:245-247 | keeping every space joins the words by single spaces |
| Variations.NoneKept | utils/parser.py:245-247 | dropping every space runs the words together |
| Variations.SpacedUnspaced | utils/parser.py:245-247 | whatever spaces are kept, removing them leaves the words run together |
| Variations.Bases | utils/parser.py:243-248 | a title of w words has 2^(w-1) spacing variants |
| Variations.BasesEnds | utils/parser.py:243-248 | the first spacing variant keeps all spaces and the last none |
| Variations.BasesSameWords | utils/parser.py:243-248 | each spacing variant is the title's words with some spaces between them |
| Variations.Numbered | utils/parser.py:251-255 | four numbered patterns per variant |
| Variations.NumberedLayout | utils/parser.py:251-255 | the numbered patterns follow the variants, four per variant with depths 1-4, in the variants' order |
| Variations.VariationsError | utils/parser.py:240-244 | the call raises exactly when the title is all whitespace |
| Variations.VariationsLayout | utils/parser.py:229-259 | 5·2^(w-1) variations: the spacing variants, then for each variant and each depth 1-4 the number pattern of that depth, `\s*` and the escaped variant |
| Variations.VariationsEnds | utils/parser.py:243-248 | the first variation is the words spaced, the last spacing variant the words run together |
| Variations.FirstVariationIsTitle | utils/parser.py:240-248 | the first variation of a title in normal form is the title itself |
| Segmenter.TrailerCut | utils/parser.py:370-381 | a found cut is an index where the trailing numbering matches to the end (the converse is TrailerCutComplete) |
| Segmenter.TrailerCutFirst | utils/parser.py:370 | it ends at the first such index, with no newline before it |
| Segmenter.TrailerCutComplete | utils/parser.py:370 | conversely, a trailing numbering that matches with no newline before it is always found, at that index or earlier; with TrailerCutFirst, the cut exists exactly when such a match exists |
| Segmenter.NoTrailerBefore | utils/parser.py:370 | no match starts before a character that is neither a digit nor a dot |
| Segmenter.SectionTitleUndotted | utils/parser.py:379-381 | a title not ending with a dot is kept |
| Segmenter.SectionTitleDropsNumbering | utils/parser.py:379-381 | a numbering such as "2.1." glued to the end of a title is removed, with the whitespace before it |
| Segmenter.FirstMatch | utils/parser.py:396-400 | the character scan finds the first index from which the text starts with the title, or -1 |
| Segmenter.FirstMatchIsScanFor | utils/parser.py:396-411 | the scan agrees with the declarative first match |
| Segmenter.ScanPages | utils/parser.py:386-418 | the page loop, with its `start_found` and `end_position` flags, computes the declarative scan |
| Segmenter.ScanOk | utils/parser.py:390-391 | over pages that exist the scan succeeds |
| Segmenter.ScanMissingPage | utils/parser.py:390-391 | a page the scan reaches that does not exist makes it fail |
| Segmenter.ScanNeverFound | utils/parser.py:395-403 | a title found on no page of its range yields the empty text |
| Segmenter.ScanFromTitle | utils/parser.py:395-403 | on the page where the title is first found, the text from the title on is kept with a newline, and the next title is not looked for there |
| Segmenter.ScanAfterStart | utils/parser.py:405-418 | afterwards, whole pages are kept up to the first page holding the next title, of which the part before it is kept |
| Segmenter.ScanStartsWithTitle | utils/parser.py:395-402 | the text of a found title starts with the title |
| Segmenter.SectionValueEmpty | utils/parser.py:420-424 | an empty collected text stays empty |
| Segmenter.SectionFor | utils/parser.py:376-424 | the loop body computes the entry's text, which is in normal form |
| Segmenter.StructureByToc | utils/parser.py:357-428 | the method computes the sections of all TOC entries |
| Segmenter.AssignAllErrorStays | utils/parser.py:424-428 | an error in one entry is the error of the whole run |
| Segmenter.AssignAllKeys | utils/parser.py:424 | the keys are those of the entries, each once, and the run fails exactly when some entry fails |
| Segmenter.AssignAllValues | utils/parser.py:424 | every stored text is the text of some entry |
| Segmenter.AssignAllLastWins | utils/parser.py:424 | an entry whose key no later entry shares keeps its own text |
| Segmenter.SectionsShape | utils/parser.py:357-426 | one key per distinct TOC title without its trailing numbering, every text in normal form |
| Segmenter.EntrySectionNormalized | utils/parser.py:424 | every stored text is in normal form |
| Segmenter.SectionNeverFound | utils/parser.py:386-424 | an entry whose title is on no page of its range is stored with `""` |
| Pipeline.NumberedTwo | utils/parser.py:980-996 | a chapter and a sub-section are grouped under `"level 1"` and their own label |
| Pipeline.AttachTwo | utils/parser.py:1032-1048 | the sub-section is attached under the chapter, whose text moves to `"introduction"` |
| Pipeline.RestructureTwo | utils/parser.py:1007-1067 | restructuring a chapter and a sub-section nests the section under the chapter and keeps its root copy |
| Pipeline.FlattenTwo | utils/parser.py:1083-1096 | the reference map of that tree holds the chapter's dict and both texts |
| Pipeline.ResolveTwo | utils/parser.py:1069-1131 | resolving keeps the chapter with its children and drops the root copy of the section |
| Pipeline.ChapterFacts | utils/parser.py:978-996 | a chapter goes to "level 1", its section to "level 2 for c"; the chapter is kept and the section dropped at the root |
| Pipeline.ParentOfSection | utils/parser.py:1034-1064 | `"level 2 for c"` names the parent numbering `c`; `"level 1"` names none |
| Pipeline.KeepChapterOnly | utils/parser.py:1116-1120 | the root filter keeps the chapter and drops the section |
| Pipeline.ChapterWithSection | utils/parser.py:1204-1206 | a chapter and its section come out of the three tree steps as the chapter alone, holding its text under "introduction" and then the section |
| Text.StripSpec | utils/parser.py:546 | `strip()` keeps a contiguous piece with only whitespace around it and none at its ends |
| Text.FindFrom | utils/parser.py:532-542 | `find` returns the first occurrence at or after the start, or -1 when there is none |
| Text.PyFindFrom | utils/parser.py:540-542 | a negative start, as when `start_index` is -1 and the key is empty, counts from the end, as Python's `find` does |
| Text.ScanFor | utils/parser.py:396-411 | the `startswith` scan finds the first match and never matches in an empty page |
| Text.DeleteCharRemovesIt | utils/parser.py:143-144 | deleting a single character removes every occurrence of it |
| Text.SqueezeSpace | utils/parser.py:149 | every whitespace run becomes one space |
| Text.CollapseNormalized | utils/parser.py:149 | whitespace normalisation yields single spaces and none at the ends |
| Text.CollapseIdempotent | utils/parser.py:149 | whitespace normalisation is idempotent |
| Text.SplitOnce | utils/parser.py:804 | `split(' ', 1)` gives the first word and the rest around the first space |
| Text.SplitJoin | utils/parser.py:753 | splitting a join gives back the parts |
| Text.JoinSplit | utils/parser.py:753 | joining a split gives back the string |
| Text.ParseNatToString | utils/parser.py:753-761 | `int(str(n)) == n` |
| Text.ChainEnd | utils/parser.py:617 | the greedy end of `\d+(\.\d+)*`: it cannot be extended |
| Text.ChainEndIsChain | utils/parser.py:617 | the greedy match is a match |
| Text.ChainEndUnique | utils/parser.py:617 | a match that cannot be extended is the greedy one |
| Text.SliceToLast | utils/parser.py:546 | `s[a:-1]` stops before the last character |
| Text.SliceInfix | utils/parser.py:546 | a Python slice is a contiguous piece of the string |
| OrderedDict.Put | utils/parser.py:628 | `d[k] = v`: `k` holds `v`, every other key keeps its value, an existing key keeps its position and a new key is appended |
| OrderedDict.FromPairs | utils/parser.py:716 | a dict filled from pairs has unique keys, exactly the pairs' keys |
| OrderedDict.FromUniquePairs | utils/parser.py:716 | pairs with distinct keys are rebuilt exactly, in order |
| OrderedDict.FromPairsLastWins | utils/parser.py:716 | a key filled several times holds the last value given |
| OrderedDict.RenameKeysDistinct | utils/parser.py:664 | renaming keys without collisions keeps every entry, in order |
| OrderedDict.RenameKeysLastWins | utils/parser.py:664 | a renamed key holds the value of the last entry renamed to it |
| OrderedDict.RenameKeysIdempotent | utils/parser.py:664 | renaming twice with an idempotent renaming is renaming once |
| OrderedDict.UpdateValuesRebuilt | utils/parser.py:596 | rebuilding with updated values keeps exactly the keys, in order |
| OrderedDict.ZipFilled | utils/parser.py:554 | a dict filled from `zip(ks, vs)` has the keys `ks`, each with its last value |
| StringOrder.LessTransitive | utils/parser.py:792 | string order is transitive |
| StringOrder.LessTotal | utils/parser.py:792 | string order is total on distinct strings |
| StringOrder.InsertSorted | utils/parser.py:792 | inserting keeps a strictly sorted list and adds exactly the new element |
| StringOrder.SortUniqueSpec | utils/parser.py:792 | `sorted(set(xs))` is strictly increasing and holds exactly the elements of `xs` |

## Left out

- Reading the PDF is not part of this model: `fitz.open`, `load_page`, `get_text`, clip rectangles and `doc.get_toc`. Page texts are the parameter `pages`, already cleaned, as `clean_text` does at utils/parser.py:392. The TOC is a parameter of `Toc.TocEntry` values, so `extract_toc` is not modelled.
- Segmenter.Scan: a negative page index makes the scan fail with `Err`. PyMuPDF would instead count it from the end; that wrap-around is not modelled.
- Segmenter.ScanNeverFound: a title found on no page of its range yields `""` (utils/parser.py:395-424).
- `structure_raw_text_by_toc` (the numbered mode) and `extract_raw_text`: these depend on PDF text positions and clip rectangles.
- Titles.CleanText: the user-supplied regular expressions `expressions` (utils/parser.py:146-147) are not modelled, because they are arbitrary patterns from the configuration. Only the literal special strings and the whitespace collapse are.
- `search_and_replace_numbered_titles` (utils/parser.py:262-355): its case-insensitive search with dynamically built patterns needs a general regex engine. Only its pattern generator, `generate_title_variations`, is modelled.
- Variations.TitleVariations: `re.escape` is the parameter `escape`, about which nothing is assumed.
- Unicode: the model uses only ASCII for digits, uppercase letters and whitespace (`\d`, `isupper`, `\s`, `split()`, `strip()`). Python's non-ASCII digits, letters and spaces are not modelled.
- Resolve.Resolved: `replace_strings_with_dicts` mutates the tree in place and shares dict objects between places. The model returns the tree those shared dicts describe: each replaced value is unfolded into a copy. When the sharing is circular, writing the tree as JSON raises a circular-reference error; the model reports that as `Err`. Later mutation through an alias is not modelled.
- Levels.Restructured: group entries are texts, which is what `organize_by_levels_with_grouping` produces. The recursion of `add_nested_levels` into dict-valued group entries (utils/parser.py:1044-1045, 1055-1056) is not modelled.
- Levels.Restructured: the orphan branch stores the group under its label once per entry (utils/parser.py:1054-1058). The model stores it once, which is the same result; an empty orphan group is not stored, as in the code.
- Configuration loading, output folders, JSON writing and the orchestration and logging of `extract_all` (utils/parser.py:99-129, 1134-1244): these are file I/O. `Pipeline.ChapterWithSection` states only the three tree steps at 1204-1206.
- `RuntimeError` wrapping and type checks on `dict`/`str` inputs: inputs are typed, and an exception is `Err` without its message.
- `list_pdfs_in_folder` and `extract_pdfs.py`: directory listing, argument parsing and process-pool fan-out.
