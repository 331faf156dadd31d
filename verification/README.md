# A verified model of gyou's update logic

gyou looks through a Gentoo ebuild repository, asks GitHub for the latest version or
commit of every package, edits and renames the outdated ebuilds, and groups the edits
into git worktrees. This project models the part of it that decides and computes, and
proves what can be relied on, for every input and every order of events:

- **Replacement in place.** `StringReplace` has the two loops with their read and write
  cursors over an `array<char>`. They are proved equal to the two specifications of
  `ReplaceSpec`, which cut the text at the occurrences a greedy scan picks from the left
  or from the right and join the pieces again. `ReplaceTheorems` has what follows: a
  maximal disjoint choice, the length, the round trip, when the two directions agree, and
  how a text in parts is replaced.
- **Names and tags.** `Matching` gives regular expressions their ordered backtracking
  meaning: the list of all results, the preferred one first. `EbuildName` and
  `TagVersion` have the two patterns of the repository, and the loops in which later
  captures overwrite earlier ones. `EbuildNameTheorems`, `EbuildNameLimits`,
  `EbuildNameDomain` and `EbuildNameShape` say which names they accept and what they make
  of them, `TagVersionTheorems` and `TagRuns` the same for tags.
- **The update.** `Update` has reading an ebuild, and the directory of a package as a
  class. `DateName`, `Calendar` and `Decimal` are the date in a name, the civil calendar
  and numerals. `UpdateTheorems` and `RenamedStems` say what the rename and the write
  leave behind, and `Directory` what several changes in one directory do.
  `VersionOrder` compares the string order of the code with the order of section 3.3 of
  the Package Manager Specification (PMS).
- **The fetcher.** `Github` has the loops over address segments and feed entries.
- **One ebuild in one run.** `PerEbuild` reads an ebuild, asks for the latest version and
  decides, from a stem, an environment and the feeds. `NextRun` joins all of it: what the
  next run makes of what this run wrote.
- **Collecting, grouping, dispatch.** `Collect`, `Groups` and `Dispatch` have the shared
  record of the per-ebuild tasks, the group file and the multimap, and a step model of
  worktree creation and application with every interleaving and cancellation.

## What the proofs found

Several properties one would like to have do not hold for all inputs. For each there is
a theorem that says exactly when it holds, and a lemma with an input at which it fails,
mostly in `Failures`.

- The two replacement directions agree for all texts if and only if the needle does not
  overlap itself (`DirectionsAgreeIffBorderless`, with a text for every other needle).
- A printed name is read back if and only if the package name has no hyphen followed by
  a digit (`ParseUndoesPrintIff`); every other name is misread or flagged
  (`HyphenDigitNameIsMisread`). PMS section 3.1.2 allows more names: only a name that
  ends in a hyphen and a whole version is forbidden there.
- Take a release ebuild whose package name has no hyphen before a digit, and that has no
  commit variable. A bump settles it if and only if the fetched version has no hyphen and
  the new stem has no date, that is, it does not consist of ASCII file name characters
  with eight digits in a row behind the first one (`VersionBumpSettlesIff`). A version
  with a tag is written as "-rc1", the next run reads only the number in front of it and
  proposes the same change again (`TagIsProposedAgain`). With a date in the stem the next
  run takes the ebuild for a commit ebuild: it fails without a commit variable
  (`DateLikeVersionIsLost`), and otherwise asks the feed of commits or tags and compares
  dates (`VersionBumpNextRun`).
- A rename exchanges only the version if and only if the old version occurs once in the
  file name (`RenameIff`). In general the code exchanges it in the package name and the
  revision too (`RenameExchanges`, `NameIsExchangedToo`); the version is still read back.
- A commit bump lands if and only if the stem does not begin with nine equal digits and
  the old date has no leading zero (`CommitBumpLandsIff`; for a date with a leading zero
  this supposes that its number is not zero and does not occur before the date). It fails
  at 111111111-1 (`DateIsShifted`) and at foo-00012024 (`ZerosStay`).
- Take a commit ebuild with one commit variable, an old and a new date of eight digits
  without leading zero, and a stem that does not begin with nine equal digits. A commit
  bump settles it if and only if what was fetched is a commit of 40 hexadecimal digits
  (`CommitBumpSettlesIff`). With the address of a tag the fetched commit is empty, and
  the next run fails (`CommitIsLost`); the overwritten file keeps a stale tail
  (`LostCommitLeavesStaleTail`, `OldTextIsKept`). For any other dates and stems the
  date that is read from the new stem decides; with nine equal digits the next run can
  propose the same commit again (`ShiftedDateIsProposedAgain`).
- Of a text with several tags, letters or versions the last of each counts, but each on
  its own: a tag or a letter of an earlier version is kept when the later version has
  none, so that "1.0rc1 2.0" means 2.0-rc1 (`LastVersionCounts`).
- Normalising a tag twice is normalising it once if and only if the result does not end
  in a hyphen and a letter (`IdempotentIffNoLetter`, `LetterIsLost`).
- The file after a commit bump holds the edited content and nothing else if and only if
  it was not longer, since it is not truncated (`CommitBumpOnDiskIff`, `OldTextIsKept`).
- Of two outdated release ebuilds of one package in one worktree, whose new names are
  free, one is lost if and only if their revisions agree, since both get the same name
  (`TwoBumpsCollideIff`, `OneOfTwoIsLost`).
- Two changes in one directory can be applied in either order if and only if neither goes
  where the other comes from, and they go to different places or bring the same text
  (`PairCommutesIff`).
- String order agrees with PMS order on dotted numbers without leading zeros if and only
  if, at the first component that differs, the digit counts are equal or the component
  with fewer digits is also the first as a string (`StringOrderAgreesIff`); 1.10 after
  1.9 is not seen (`TenAfterNineIsMissed`).
- Worktree folders are distinct if and only if no two ungrouped changes belong to one
  package (`FoldersDistinctIff`, `OneFolderForTwo`).
- A run in which every ebuild had an update, all applied, returns `NoEbuildFound`, as if
  there had been no ebuild (`ReturnCodeTells`, `UpdatedIsNotFound`).
- The dispatch looks up the first change of every group. That is possible if and only if
  every group is the last to list the package of some change; never when there are groups
  but no change (`GroupsOwnChangesIff`). It is a precondition of `LayOut` and of the
  theorems about return codes.

Where the code and its own words differ, the model follows the code: the message at
source/string_to_file.cpp:25-29 says that the file already exists, while the check above
it is that it does not; and `is_any_successful` is set only for ebuilds with nothing to
change (source/get_what_to_change.cpp:101-111).

## Readings that the model fixes

- `std::copy` and `std::copy_backward` within one buffer move the range as a whole, also
  when source and target overlap or coincide.
- `\d` is an ASCII digit. `\w` accepts ASCII letters, digits, the underscore and an
  arbitrary set of further characters, except in the date pattern, where it is ASCII.
- The regular expression libraries return the first result in the order of backtracking,
  find further matches from the end of the last one, and report only groups that took
  part in the match.
- An iteration of a loop in a regular expression counts only when it consumes something.
- An unordered multimap hands out the changes of a key in the order of insertion.
- The comparison of strings is that of `char` values.
- Git, bash, network, file system and manifest steps succeed or fail as a parameter
  says; decoded JSON, feeds and environment files are parameters. A failed write leaves
  the file as it was.
- The environment of an edited ebuild has the values of the commit variables as they
  were, with the commit replaced in them as in the text of the ebuild. The address of a
  renamed or edited ebuild still leads to the same project, and to a tag or not as before.

## Model

| member | source | states |
|---|---|---|
| StringReplace.CountOccurrences | include/gyou/utils/string_replace.hpp:16-27 | the count is the number of cuts of the left-greedy scan, for every text and nonempty needle |
| StringReplace.ReplaceNotLonger | include/gyou/utils/string_replace.hpp:29-59 | the compacting loop returns the left-greedy replacement; the write cursor never passes the read cursor and the unread tail is intact, so each search finds what it would find in the original |
| StringReplace.ReplaceLonger | include/gyou/utils/string_replace.hpp:61-98 | the growing loop returns the right-greedy replacement; the write cursor leads by the count in the unread prefix times the growth, so the cursor never underflows, the not-found and early-exit branches are dead, and the loop ends |
| StringReplace.Replace | include/gyou/utils/string_replace.hpp:100-109 | the result is the replacement in the direction that the lengths decide |
| ReplaceSpec.LastOccurrenceClosesOnePiece | include/gyou/utils/string_replace.hpp:65-75 | the left-greedy count of a text is one more than that of the text before its last occurrence, although the left scan need not use that occurrence |
| ReplaceSpec.GreedyCountsAgree | include/gyou/utils/string_replace.hpp:16-98 | left-greedy and right-greedy scans make equally many cuts |
| StringReplace.GrowRound | include/gyou/utils/string_replace.hpp:70-96 | one round of the growing loop finds an occurrence, stays inside the buffer, leaves the unread prefix intact and keeps the text that is being built |
| StringReplace.CompactRound | include/gyou/utils/string_replace.hpp:35-56 | one round of the compacting loop stays within the text already read, leaves the unread tail intact and keeps the text that is being built |
| ReplaceSpec.SplitLeftJoins | include/gyou/utils/string_replace.hpp:29-59 | joining the pieces of the left-greedy cut around the needle gives back the text, so nothing but occurrences is exchanged |
| ReplaceSpec.SplitRightJoins | include/gyou/utils/string_replace.hpp:61-98 | the same for the right-greedy cut |
| TextSearch.FindIsLeftmost | include/gyou/utils/string_replace.hpp:21-37 | find returns the leftmost occurrence at or after the start, and nothing only if there is none |
| TextSearch.RFindIsRightmost | include/gyou/utils/string_replace.hpp:72-72 | rfind returns the rightmost occurrence at or before the start, and nothing only if there is none |
| ReplaceTheorems.LeftCutsAreDisjoint | include/gyou/utils/string_replace.hpp:16-27 | the places the greedy scan picks are pairwise disjoint occurrences, as many as the count says |
| ReplaceTheorems.GreedyIsMaximal | include/gyou/utils/string_replace.hpp:16-27 | no choice of pairwise disjoint occurrences has more members than the count |
| ReplaceTheorems.ReplacedLength | include/gyou/utils/string_replace.hpp:16-109 | the length grows by the count times the difference of the lengths, for both directions |
| ReplaceTheorems.DirectionsAgreeIffBorderless | include/gyou/utils/string_replace.hpp:29-98 | the two directions agree for all texts and replacements exactly when the needle has no border |
| ReplaceTheorems.ReplaceRoundTrip | include/gyou/utils/string_replace.hpp:29-109 | replacing back restores the text when the new text has a character that the text does not have, whichever loops run |
| ReplaceTheorems.OnlyThatOccurrenceChangesIff | include/gyou/utils/string_replace.hpp:100-109 | for an occurrence that no other one overlaps, only it changes exactly when the count is one |
| ReplaceTheorems.ReplacedAtIsolated | include/gyou/utils/string_replace.hpp:29-98 | an occurrence that no other one overlaps is replaced, and the texts before and behind it are replaced as if they stood alone, in both directions |
| Matching.MatcherIsExact | source/create_pcre2_regex.cpp:8-20 | the ordered matcher reaches an end exactly when the text up to it is in the language of the expression, for all expressions and texts |
| Matching.Alphabets | include/gyou/consts/pcre2_regex_portage_ver.hpp:9-10 | the ASCII characters of each class, written out |
| Matching.UnmentionedGroupStays | source/create_pcre2_regex.cpp:8-20 | a match changes no group that its expression does not name |
| Matching.FindAllDependsOnShape | source/parse_portage_ver.cpp:25-25 | for an expression that tells no digits apart, the matches of a text depend only on where its digits stand, not on which they are |
| EbuildName.ParseEbuildName | source/parse_portage_ver.cpp:14-90 | the nested loops return, for each group, its text in the last match in which it took part, and nothing if there is no match |
| EbuildName.VersionTakes | include/gyou/consts/pcre2_regex_portage_ver.hpp:9-10 | before a hyphen or the end, the first choice of the version pattern on a printed version is the whole version, "pre" before "p" included |
| EbuildNameTheorems.ParseUndoesPrint | source/parse_portage_ver.cpp:14-90 | PN-VER[-rREV] is read as exactly these parts with no invalid part, for every version of PMS section 3.2 that the pattern allows |
| TagRuns.SpelledStemIsRead | include/gyou/consts/pcre2_regex_portage_ver.hpp:9-10 | number, letter and any suffixes of the names pre, p, beta, alpha and rc, written out, are read back with name and revision |
| TagRuns.SthIsRead | source/parse_portage_ver.cpp:14-90 | sth-1.2.3_beta1-r25 is read as sth, 1.2.3_beta1 and 25 |
| EbuildNameTheorems.ParseDropsOtherTail | include/gyou/consts/pcre2_regex_portage_ver.hpp:9-10 | a tail with a hyphen that is neither revision nor version is dropped, with any revision behind it |
| EbuildNameLimits.VersionedNameIsFlagged | source/parse_portage_ver.cpp:50-58 | base-V1[-rK]-V2[-rN] gives the name base-V1[-rK], flagged with the invalid part -V1[-rK], and the version V2 and revision N |
| EbuildNameLimits.HyphenDigitNameIsMisread | include/gyou/consts/pcre2_regex_portage_ver.hpp:9-10 | a name with a hyphen before a digit is always misread or flagged |
| EbuildNameLimits.ParseUndoesPrintIff | source/parse_portage_ver.cpp:14-90 | a printed name is read back exactly when the package name has no hyphen before a digit |
| EbuildNameLimits.VersionIsNeverEmpty | source/parse_portage_ver.cpp:60-68 | on every input that parses, the version is not empty, so that the later replacement has a needle |
| EbuildNameDomain.ParsesIff | source/parse_portage_ver.cpp:25-89 | a stem parses exactly when somewhere a word character and then only name characters lead up to a hyphen and a digit |
| EbuildNameShape.ParsedIsShaped | source/parse_portage_ver.cpp:25-89 | whatever the stem, a version that is read is one of PMS section 3.2, a revision is empty or a number, and the name is of name characters or its invalid part is a hyphen, a version and an optional revision |
| EbuildNameDomain.LooseNameIsRead | include/gyou/consts/pcre2_regex_portage_ver.hpp:9-10 | behind a name that contains dots the version is still read, and the name passes for valid, whatever tail without a hyphen-digit follows |
| TagVersion.TagToPortageVersion | source/tag_to_portage_versions.cpp:13-102 | the loops and the join return version, "-tag" and "-letter" from the last matches in which these groups took part, or an error that names the input |
| TagVersionTheorems.OutputShape | source/tag_to_portage_versions.cpp:25-101 | on every accepted input the result is a dotted number, at most one "-tag" of the known kinds and at most one "-letter" other than p |
| TagVersionTheorems.AcceptedIff | source/tag_to_portage_versions.cpp:82-88 | a version can be read exactly from the texts that contain a digit |
| TagVersionTheorems.LetterIsSplitOff | source/tag_to_portage_versions.cpp:68-97 | a dotted number and a final letter other than p give number, hyphen and letter, also behind a package name or text without digits |
| TagVersionTheorems.TagsNormalise | source/tag_to_portage_versions.cpp:33-101 | VT, V-T, V_T and V.T all give "V-T" and V gives V, also behind a package name and a hyphen ("boost-1.92.0.beta1") or behind text without digits ("v1.2", "b10655") |
| TagRuns.SpelledTagIsRead | include/gyou/consts/pcre2_regex_tag_ver.hpp:9-10 | the same for each of the names pre, p, beta, alpha and rc, written out, with any digits |
| TagRuns.ResultIsSpelled | source/tag_to_portage_versions.cpp:25-101 | a result is a dotted number, then nothing or a hyphen, one of these names and digits, then nothing or a hyphen and a letter other than p |
| TagRuns.TagIff | include/gyou/consts/pcre2_regex_tag_ver.hpp:9-10 | a tag is one of these names and digits, and nothing else is |
| TagRuns.BoostIsRead | source/tag_to_portage_versions.cpp:13-102 | boost-1.92.0.beta1 means 1.92.0-beta1 |
| TagRuns.LastTagAndLetterCount | source/tag_to_portage_versions.cpp:33-101 | behind a version, any number of tags and letters and a revision: the last tag and the last letter count, and the revision does not |
| TagRuns.LastVersionCounts | source/tag_to_portage_versions.cpp:33-80 | of two versions with a foreign character between them the later one counts, with its own last tag and letter, or those of the earlier one where it has none |
| TagRuns.LetterBetweenVersions | source/tag_to_portage_versions.cpp:33-80 | digits right behind a letter begin the next version, and the letter is kept |
| TagRuns.RestIsIgnored | include/gyou/consts/pcre2_regex_tag_ver.hpp:9-10 | behind a foreign character, text without digits is ignored, whatever it looks like |
| TagVersionTheorems.ReadingAResultAgain | source/tag_to_portage_versions.cpp:13-102 | a result read again keeps number and tag and loses its letter |
| TagVersionTheorems.IdempotentIffNoLetter | source/tag_to_portage_versions.cpp:13-102 | normalising a result again changes nothing exactly when it does not end in a hyphen and a letter |
| Failures.LetterIsLost | source/tag_to_portage_versions.cpp:13-102 | 1a gives 1-a, and that gives 1 |
| TagVersionTheorems.ResultStartsWithDigit | source/fetchers/github.cpp:232-236 | every result starts with a digit, so that stripping a leading "v" is the identity |
| Calendar.DayNumberOfCivil | source/fetchers/github.cpp:198-203 | the date reached by walking n days from 1 January 1970 has the day number n of the closed formula |
| Calendar.CivilOfDayNumber | source/fetchers/github.cpp:198-203 | walking to the day number of a date gives the date back |
| Calendar.DayNumberIsClosed | source/fetchers/github.cpp:198-203 | day numbers follow the closed formula with years that begin in March, in which lengths of months do not occur |
| Calendar.CalendarOrder | source/parsing_one_ebuild.cpp:76-82 | day numbers are ordered as year, month and day are |
| Calendar.PackedDateOfStamp | source/fetchers/github.cpp:197-219 | the packed date of a stamp depends on the day alone, reads yyyymmdd and unpacks to the date, for years 0 to 9999 |
| Calendar.PackedOrderIsCalendarOrder | source/fetchers/github.cpp:213-219 | packed dates compare as days do, and are equal only on the same day |
| Calendar.EightDigitsIff | source/fetchers/github.cpp:213-219 | the packed date has eight digits exactly from the year 1000 on |
| Decimal.PrintOfNum | source/apply_change.cpp:52-55 | printing the number of a numeral gives the numeral back if it has no leading zero |
| Decimal.NumOfPrint | source/apply_change.cpp:52-55 | reading a printed number gives the number back |
| DateName.DatePatternFindsFirstWindow | source/common_ctx_create.cpp:31-31 | on a stem of file name characters, the lazy pattern captures the first eight digits in a row behind the first character |
| DateName.HoldsDateIff | source/parse_ebuild.cpp:51-67 | a stem is one of a commit ebuild exactly when it consists of file name characters and has eight digits in a row behind the first one |
| Update.GetEbuildInfo | source/parse_ebuild.cpp:36-190 | the information exists exactly when the name parses without invalid part and every foreign step succeeds, and then has the parsed parts, and date and commit for commit ebuilds only |
| UpdateTheorems.InfoOfStem | source/parse_ebuild.cpp:168-189 | of a well-formed name, the information holds name, version and revision in their places, and service and address of the environment |
| Update.CommitHashIff | source/common_ctx_create.cpp:21-23 | a commit is forty of the characters 0 to 9 and a to f |
| PerEbuild.LogicPerEbuild | source/parsing_one_ebuild.cpp:27-129 | for every stem, environment and feed: an error exactly when name, environment or feed fails, otherwise an edit exactly when it exchanges the date and commit, or the version, that the ebuild has for a greater one that was fetched, and nothing if there is none; the comparison always finds its date, and the replaced text is never empty |
| PerEbuild.KindOfLatest | source/get_latest_update.cpp:29-98 | whatever the service, what is returned is a commit exactly for commit ebuilds, so that the comparison never looks for a missing date |
| PerEbuild.OtherServicesFail | source/get_latest_update.cpp:57-86 | an ebuild of any other service than GitHub fails |
| Update.PackageDir.StringToFile | source/string_to_file.cpp:19-42 | an exception exactly for a missing file; after a write the file has the greater of the two lengths, the content at its front, and from there on, place by place, what it held before; a failed one changes nothing |
| Update.PackageDir.ApplyChange | source/apply_change.cpp:31-162 | success exactly when every needed step succeeds, an exception exactly for a missing file of a commit edit, and the directory after each: a commit is written and then moved, a version only moved |
| UpdateTheorems.CommitAttemptLeaves | source/apply_change.cpp:39-95 | after an attempt at a commit edit: nothing changed if it could not be written; else the file, under its new name if it could be moved, holds the edited text and behind it, place by place, what was there before, and no other file changed |
| UpdateTheorems.VersionAttemptLeaves | source/apply_change.cpp:110-157 | after an attempt at a version edit: the file is moved with its text if it could be, whatever becomes of the manifest, and nothing else changed |
| UpdateTheorems.VersionIsIsolated | source/apply_change.cpp:110-125 | in a well-formed file name no other occurrence of the version overlaps the one behind the name |
| UpdateTheorems.RenameIff | source/apply_change.cpp:110-125 | the rename exchanges the version and nothing else exactly when the old version occurs once in the file name |
| RenamedStems.RenameExchanges | source/apply_change.cpp:110-125 | the new file name has the new version between the hyphens, the name and the revision with the version exchanged in them, and the extension |
| RenamedStems.RenamedStemIsRead | source/parse_portage_ver.cpp:14-90 | of the new stem the version is read up to its first hyphen, and the name passes for valid, wherever else the version was exchanged |
| Failures.NameIsExchangedToo | source/apply_change.cpp:110-112 | foo11-1.ebuild bumped to 2024 becomes foo20242024-2024.ebuild |
| NextRun.VersionBumpSettles | source/parsing_one_ebuild.cpp:83-89 | after a bump to any version of PMS section 3.2, were it fetched, the new stem is read with that version, and is the old name and revision with it exactly when the old version occurred once; it can be read unless it holds a date and there is no commit variable, and without a date the same feed proposes nothing |
| NextRun.VersionBumpNextRun | source/parsing_one_ebuild.cpp:27-129 | after the bump that a run proposes, wherever the old version occurs, the next run with the same feeds: without a date in the new stem it proposes nothing exactly when the fetched version has no hyphen and otherwise the same version again; with a date it fails exactly without a commit variable or a readable feed, and never proposes a version |
| NextRun.VersionBumpSettlesIff | source/parsing_one_ebuild.cpp:27-129 | without a commit variable, the next run proposes nothing exactly when the fetched version has no hyphen and the new stem has no date, and fails exactly when it has one |
| Failures.DateLikeVersionIsLost | source/parse_ebuild.cpp:51-67 | a run bumps foo-1 to 20240101, and the next run cannot read foo-20240101 |
| Failures.TagIsProposedAgain | source/parsing_one_ebuild.cpp:83-89 | a run bumps foo-1 to the tag 2rc1, and the next run proposes 2-rc1 for foo-2-rc1 again |
| UpdateTheorems.ParseOfFetchedStem | source/parse_portage_ver.cpp:14-90 | of a name with a fetched version only the dotted number is read, and the revision is lost when a tag or letter stands before it |
| UpdateTheorems.CommitBumpLandsIff | source/apply_change.cpp:52-55 | after a date bump the stem shows the new date exactly when the old stem does not begin with nine equal digits and the old date has no leading zero |
| UpdateTheorems.LeadingZeroStays | source/apply_change.cpp:52-55 | an old date with a leading zero keeps its zero in front of the new date, which is then not the one that is read |
| Failures.ZerosStay | source/apply_change.cpp:52-55 | foo-00012024 bumped to 20240101 becomes foo-00020240101, which is not read as 20240101 |
| Failures.DateIsShifted | source/apply_change.cpp:52-55 | 111111111-1 bumped to 20240101 becomes 202401011-1, which is read as a smaller date |
| NextRun.CommitBumpNextRun | source/parsing_one_ebuild.cpp:27-129 | after the date bump that a run proposes, for any dates and stem: a stem that is no name fails; with a date in it the next run fails exactly when the edited ebuild has no commit, and otherwise proposes nothing exactly when that date is not below the fetched one; with dates of eight digits it is a name with a date, and shows the new one unless it began with nine equal digits |
| NextRun.CommitBumpSettlesIff | source/parsing_one_ebuild.cpp:27-129 | a fetched commit of 40 hexadecimal digits becomes the commit of the ebuild; with one commit variable the next run fails exactly when the fetched text is no such commit, as it always is for the address of a tag, and settles exactly when it is one and the date in the new stem is not below the fetched one |
| Failures.ShiftedDateIsProposedAgain | source/parsing_one_ebuild.cpp:76-82 | 111111111-1 is bumped to a commit of 20240101, can be read in the next run, and is proposed again |
| Failures.CommitIsLost | source/fetchers/github.cpp:165-175 | a run bumps foo-20200101 with the address of a tag to an empty commit, and the next run cannot read foo-20240101 |
| NextRun.FirstHashAfterEdit | source/parse_ebuild.cpp:118-132 | exchanging the commit makes the new one the first commit of the environment, whatever the other variables hold |
| UpdateTheorems.ShapeKeepsValidity | source/parse_ebuild.cpp:71-92 | exchanging digits for digits changes neither whether a name parses nor whether it is rejected |
| UpdateTheorems.CommitFileIsExact | source/apply_change.cpp:39-79 | with commits of equal length and files of equal length, the overwritten file is exactly the edited content |
| UpdateTheorems.VersionBumpOnDisk | source/apply_change.cpp:110-157 | with one occurrence of the version, the directory afterwards has the ebuild under the new name with its content, and every file of another name as before |
| UpdateTheorems.CommitBumpOnDiskIff | source/apply_change.cpp:39-95 | the directory afterwards has exactly the edited content under the new name if and only if the old file was not longer than it |
| Directory.TwoBumpsCollideIff | source/apply_change.cpp:110-145 | two release ebuilds of a package bumped to the same version: a file is lost for the first exactly when its new name is taken, and for the second exactly when the revisions agree or its new name is still taken |
| Failures.OneOfTwoIsLost | source/apply_change.cpp:110-145 | of foo-1 and foo-2, bumped to 3, only the second is left |
| Directory.PairCommutesIff | main.cpp:309-347 | two changes give the same directory in both orders exactly when neither goes where the other comes from, and they go to different places or bring the same text |
| Directory.AnyOrder | main.cpp:309-347 | any number of changes of which no two meet at a source or target leave the same directory in whatever order they are applied |
| Directory.AllArrive | main.cpp:309-347 | each of them leaves its old name and brings its own text to its new one |
| Directory.OthersStay | main.cpp:309-347 | and no file changes that none of them comes from or goes to |
| VersionOrder.StringOrderIsComponentOrder | source/parsing_one_ebuild.cpp:83-89 | on dotted numbers, string order is the order of components as strings |
| VersionOrder.LexLessIff | source/parsing_one_ebuild.cpp:85-85 | the first difference decides the order of strings, or the end of the shorter one |
| VersionOrder.StringOrderAgreesIff | source/parsing_one_ebuild.cpp:83-89 | it agrees with the numeric order of components exactly when, at the first difference, the digit counts are equal or the component with fewer digits is also the first as a string |
| VersionOrder.EqualDigitCountsAgree | source/parsing_one_ebuild.cpp:83-89 | equal digit counts at the first difference are enough, leading zeros or not, also when one version has more components |
| VersionOrder.TenAfterNineIsMissed | source/parsing_one_ebuild.cpp:83-89 | 1.10 is newer than 1.9, and the string comparison says it is not |
| Github.ReadSource | source/fetchers/github.cpp:52-98 | the segment loop finds workspace, repository, whether the address is one of a tag, and the feed, also when it leaves early |
| Github.TagAddressAnswer | source/fetchers/github.cpp:68-175 | with "refs" as the fourth segment only the feed of tags of the project in the first two is asked, for either kind of ebuild; the answer to an error, to a feed without entries, and to the link and stamp of the first entry |
| Github.CommitAnswer | source/fetchers/github.cpp:91-229 | for any other address and a commit ebuild only the feed of commits is asked, and the same |
| Github.ReleaseAnswer | source/fetchers/github.cpp:95-236 | and for any other ebuild only the feed of releases, and the same |
| NextRun.TagReleaseIsProposed | source/parsing_one_ebuild.cpp:83-89 | a release with such an address is bumped exactly when its feed of tags names a greater version |
| Github.ReadLink | source/fetchers/github.cpp:142-159 | the link loop returns the fifth segment, or the fourth for a commit without a fifth |
| Github.GithubFetchVersion | source/fetchers/github.cpp:52-236 | the feed that the address leads to is asked, and the entry loop returns version or commit and date of the first entry, empty ones if there is none, and the error of the request or the tag; the final strip changes nothing |
| Github.OnlyFirstEntryCounts | source/fetchers/github.cpp:133-224 | neither what is before the first entry nor what follows it matters |
| UpdateTheorems.LostCommitLeavesStaleTail | source/apply_change.cpp:39-79 | with an empty new commit the overwritten file is exact only if the old commit does not occur |
| Failures.OldTextIsKept | source/string_to_file.cpp:31-36 | a text that is the old commit, edited to an empty one, is still the old commit in the file |
| Github.DateOfFeed | source/fetchers/github.cpp:176-221 | the date of a commit is the yyyymmdd of the first stamp |
| Collect.PackagesToUpdate.TaskEnds | source/get_what_to_change.cpp:80-116 | each ending task keeps the record in step with the outcomes so far |
| Collect.CollectAll | source/get_what_to_change.cpp:80-116 | after any sequence of outcomes, the changes are those among the outcomes in order, and each flag tells whether its outcome occurred |
| Collect.ScheduleIndependence | source/get_what_to_change.cpp:80-116 | any two orders of completion give the same multiset of changes and the same flags |
| Collect.TasksAreConserved | source/get_what_to_change.cpp:80-116 | tasks are failures, tasks with nothing to change, and changes, each counted once |
| Collect.ChangesInOrder | source/get_what_to_change.cpp:112-114 | the changes keep the order in which their tasks ended |
| Groups.ParseGroups | source/parsing_groupsci.cpp:37-50 | every package listed gets the number of the last group that lists it, and no other package is in the map |
| Groups.LastGroupIsLast | source/parsing_groupsci.cpp:37-50 | that number is a group listing the package, and no later group lists it |
| Groups.GroupToChange | main.cpp:192-235 | pairs of key and index, one for each change in order, key 0 for packages without group |
| Groups.EqualRange | main.cpp:352-375 | the values of a key in the order of insertion |
| Groups.RangeAscends | main.cpp:352-375 | these values ascend, as they were put in |
| Groups.LayOut | main.cpp:266-378 | the two loops start one worktree for each ungrouped change and one for each group, in folders named after prefix and first package |
| Groups.EveryChangeOnce | main.cpp:352-378 | for any keys in range, the members of all worktrees together are every change index once |
| Groups.PartitionOfChanges | main.cpp:192-235 | for any group file and changes, keys are last groups, each change is applied in exactly one worktree, and worktrees are as many as ungrouped changes and groups |
| Groups.WorktreesOfGroups | main.cpp:268-285 | in the worktree of a group are changes of that group only, in a folder that begins with its number; an ungrouped change is alone in one that begins with 0_ |
| Groups.GroupsIgnoreOrder | main.cpp:192-235 | for any two orders of completion, each group receives the same multiset of changes, each with its file and edit |
| Groups.ReceivedCount | main.cpp:192-235 | a group receives a change as often as it was collected if it has the key of its package, and never otherwise |
| Groups.FoldersDistinctIff | main.cpp:276-285 | folders differ pairwise exactly when no two ungrouped changes share a package |
| Failures.OneFolderForTwo | main.cpp:352-365 | two ungrouped changes of one package get one folder |
| Dispatch.PlanPartitions | main.cpp:352-378 | every change has an owner among the worktrees, and only one |
| Dispatch.InvHolds | main.cpp:289-349 | after any possible trace, worktrees and changes stand as their events say, changes wait exactly as long as their worktree is not created, and the code is that of a failure exactly after a failed step or an exception |
| Dispatch.AppliedAfterOwnWorktree | main.cpp:289-347 | an application ends only after the creation of its own worktree succeeded |
| Dispatch.AppliedAtMostOnce | main.cpp:318-347 | no change is applied twice |
| Dispatch.FailureIsReported | main.cpp:299-346 | after any failed step the shared code is a failure, and without one it is untouched |
| Dispatch.CompleteRunAppliesAll | main.cpp:266-381 | a run that is over and had no failed step applied every change |
| Dispatch.RunIsBounded | main.cpp:266-381 | events so far and things still to do always add up to worktrees plus changes, so that every run ends |
| Dispatch.ReturnCodeTells | main.cpp:383-404 | for any run in which every group owns a change, and any interleaving, each return code of the end occurs exactly under its condition: an exception has its own, else the last failed step decides between the codes of worktrees and of changes, else a failed fetch, else the outcomes |
| Dispatch.LastFailureDecides | main.cpp:302-343 | the shared code is that of the last failed step, worktree or change |
| Dispatch.ChooseReturnCode | main.cpp:383-404 | the branches at the end choose the code from the shared one and the record of the scan |
| Failures.UpdatedIsNotFound | main.cpp:395-398 | a run in which the only ebuild is updated returns NoEbuildFound |
| Dispatch.SuccessMeansApplied | main.cpp:383-404 | a finished run in which every group owns a change, with a code of success or partial success, applied each change after its own worktree was created |
| Dispatch.GroupsOwnChangesIff | main.cpp:272-275 | the first change of every group can be looked up exactly when each group is the last to list some changed package, so never with groups but no change |

## Left out

- HTTP, DNS, pipes, launching git, bash and the manifest update: foreign steps that succeed or fail.
- JSON, XML, URL and environment file parsing: the decoded values are parameters; a stamp that does not parse is one more value of that parameter.
- Early returns of `chief_logic` for an unreadable group file, a missing git or temporary directory: plain exits before the dispatch.
- The limit of concurrent requests for a service, and the internals of the coroutine, semaphore and regular expression libraries.
- Choosing which directory entries are scanned: file name filters without further properties.
- Numbers wider than the machine word: `size_t` cursors are unbounded, since no text comes near that length.
- Unicode digits for `\d` and further details of Unicode classes: `\w` is arbitrary beyond ASCII.
- Leap second 60 and stamps outside the years 0 to 9999.
- NextRun.CommitBumpNextRun: whether the new stem is a name with a date is said only for dates of eight digits without leading zero; for others it is a condition.
- NextRun.CommitBumpSettlesIff: the same condition on the new stem.
- Directory.AnyOrder: a change is applied as a whole; the writing and the moving of several changes do not interleave.
- UpdateTheorems.CommitBumpLandsIff: an old date of which the number is zero or occurs in front of the date already is not covered when it has a leading zero, because there the outcome depends on what stands around those occurrences.
- A missing environment file, a malformed link and a feed without the expected fields throw while ebuilds are scanned: of the exceptions only the one for a missing file of a change is modelled.
- VersionOrder.StringOrderAgreesIff: components are compared as numbers, which is the order of PMS section 3.3 for components without leading zeros; versions with letters or suffixes are not compared.
- Update.PackageDir.ApplyChange: writing in parts is not modelled, a write happens as a whole or not at all.
- Branch names: they are formed like the names of the folders.
- Command line, logging, exception texts and formatters.
