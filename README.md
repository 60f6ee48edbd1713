# Program search results of a desktop launcher

This project models the program search results of a small GTK application
launcher (`src/result/program.rs`). The model covers four pieces:

- **Discovery.** The launcher discovers installed programs by walking the
  application directories with a stack. It turns every shown `.desktop`
  entry into a `ProgramResult` record: name, category label, description,
  icon, version, raw `Exec` command and optional desktop actions.
- **Category label.** Each record gets one category label, picked from the
  entry's `Categories` list by `choose_category`.
- **Ranking.** Records are ranked against the text typed so far with a
  greedy subsequence matcher, `get_ranking`.
- **Launching.** A record is launched by stripping the field codes from its
  command with `format_exec`.

The Dafny modules follow those pieces:

- `Text`: the string operations the source relies on. These are ASCII case
  mapping, Rust's whitespace set, `split` and `join`, and the
  left-to-right, non-overlapping `str::replace`.
- `Ranking`: `get_ranking` as a method with a `for` loop. It is proved
  equal to a recursive score function, and the properties of the ranker
  are proved about that function.
- `ExecFormat`: the `format_exec` replacement chain.
- `Category`: `EXCLUDED_CATEGORIES` and `choose_category`, including
  title-casing.
- `CategoryExamples`: concrete category lists.
- `Program`: the `Action` and `ProgramResult` records, the per-file
  extraction done inside `find_all`, and the command lines that activation
  and action buttons hand to the shell.
- `Discovery`: the `find_all` walk as a method with a `while` loop and an
  inner `for` loop, over an in-memory directory tree. It is proved against
  the multiset of outcomes reachable from the roots.

Four behaviours of the code are easy to misread. The model follows the code
in each case:

- **Empty category list.** An absent or empty `Categories` value splits
  into one empty token. That token is not excluded, so the label is the
  empty string, not `APPLICATION`.
- **Ranking "chrome" with "cr".** The score is 19. After `c` the cursor
  sits on `h`, so `r` is found at offset 1 and adds 9. It is not 18.
- **Empty `Exec`.** `Exec=` with an empty value is present, so it is
  accepted and the stored command is empty.
- **Missing action `Exec`.** The action list is built before the `Exec`
  and visibility checks. A listed action without `Exec` therefore fails
  the `unwrap`, which ends the whole scan, even for a hidden entry or one
  without `Exec`. The model represents this as `Abort`, and `FindAll`
  then returns `Failure`.

## Model

| member | source | states |
|---|---|---|
| Text.IsWhitespace | src/result/program.rs:269 | `char::is_whitespace`: the Unicode White_Space set; the ASCII blanks are in it and no ASCII letter or digit is |
| Text.ToLower | src/result/program.rs:268 | lower-cases each character in place; the length is unchanged |
| Text.ToUpper | src/result/program.rs:159-160 | upper-cases each character in place; the length is unchanged |
| Text.RemoveWhitespace | src/result/program.rs:269 | `retain(!is_whitespace)`: the result is no longer than the input, and each of its characters is a non-whitespace character of the input |
| Text.Split | src/result/program.rs:158 | `split(';')` yields at least one token, and no token holds the separator |
| Text.SplitJoin | src/result/program.rs:158 | splitting the join of separator-free tokens gives those tokens back |
| Text.JoinSplit | src/result/program.rs:158 | joining the tokens of a split gives back the original string |
| Text.NonEmpty | src/result/program.rs:110-111 | `filter(!is_empty)` keeps only non-empty tokens and every non-empty token, and is never longer than its input |
| Text.NonEmptySingle | src/result/program.rs:110-111 | one token is kept exactly when it is non-empty |
| Text.NonEmptyAppend | src/result/program.rs:110-111 | filtering is done piece by piece: the order and the repetitions of the kept tokens are those of the input |
| Text.NonEmptyKeepsAll | src/result/program.rs:110-111 | a list without empty tokens passes through unchanged |
| Text.ToUpperAppend | src/result/program.rs:160 | upper-casing distributes over concatenation |
| Text.SplitAvoids | src/result/program.rs:158 | a character absent from a string is absent from each of its split tokens |
| Text.JoinAvoids | src/result/program.rs:160 | joining tokens that lack a character, with another separator, does not bring the character in |
| Text.ReplaceAbsent | src/result/program.rs:149 | `replace` leaves a string in which the pattern does not occur unchanged |
| Text.ReplaceLeftmost | src/result/program.rs:149 | `replace` rewrites the leftmost occurrence and carries on after it, without overlap |
| Text.Replace | src/result/program.rs:149 | replacing a pattern by something no longer than it never lengthens the string, and by something as long keeps the length |
| Ranking.Normalize | src/result/program.rs:268-269 | the searched name has no whitespace, no upper-case ASCII letter, and is no longer than the name |
| Ranking.FindFrom | src/result/program.rs:272-273 | the offset found is that of the first occurrence at or after the cursor; none exactly when the letter is absent there |
| Ranking.Gain | src/result/program.rs:276 | `max(10 - pos, 0)`: 10 for a letter right at the cursor, never more, and positive exactly when the letter is fewer than 10 places past the cursor |
| Ranking.ScoreFrom | src/result/program.rs:271-278 | the loop over the query letters as recursion: the letters add at most 10 each |
| Ranking.Step | src/result/program.rs:273-277 | one loop step keeps the cursor within the name and adds at most 10; a miss leaves both the cursor and the score unchanged |
| Ranking.CursorAfter | src/result/program.rs:267-275 | `last_letter_ind` never passes the end of the searched name |
| Ranking.Rank | src/result/program.rs:266-280 | an empty query scores 0, and no query scores more than 10 per character |
| Ranking.GetRanking | src/result/program.rs:265-281 | the loop computes exactly `Rank(name, query)` |
| Ranking.CursorAfterAppend | src/result/program.rs:271-278 | one more query letter moves the cursor by exactly one more step |
| Ranking.ScoreFromAppend | src/result/program.rs:271-278 | one more query letter adds exactly that step's points |
| Ranking.RankMonotonic | src/result/program.rs:271-278 | appending a letter to the query never lowers the score |
| Ranking.ScoreFromExact | src/result/program.rs:272-276 | a query that reads off the name from the cursor scores 10 per letter and moves the cursor by its length |
| Ranking.RankPrefix | src/result/program.rs:268-278 | a query that is a prefix of the normalised name scores exactly 10 × its length |
| Ranking.ScoreFromSkipsAbsent | src/result/program.rs:273-277 | a letter absent from the name contributes nothing and does not disturb the rest of the query |
| Ranking.RankIgnoresUnmatchable | src/result/program.rs:268-273 | a whitespace or upper-case ASCII letter in the query contributes nothing |
| Ranking.NormalizeDropsWhitespace | src/result/program.rs:269 | whitespace in the name does not affect what is searched |
| Ranking.NormalizeIgnoresCase | src/result/program.rs:268 | upper-casing the name does not affect what is searched |
| Ranking.NormalizePlain | src/result/program.rs:268-269 | a lower-case name without whitespace is searched as it is |
| Ranking.RankChromeCh | src/result/program.rs:265-281 | "chrome" ranked for "ch" is 20 |
| Ranking.RankChromeCr | src/result/program.rs:265-281 | "chrome" ranked for "cr" is 19 (10 + 9) |
| Ranking.RankChromeCx | src/result/program.rs:265-281 | "chrome" ranked for "cx" is 10: the absent `x` adds nothing |
| ExecFormat.FormatExec | src/result/program.rs:148-150 | the formatted command is never longer than the raw one, and a command holding none of `%f %F %D %u %U` is returned unchanged |
| ExecFormat.FormatExecKeepsPercentFree | src/result/program.rs:148-150 | a command without `%` is returned unchanged |
| ExecFormat.ReplaceAfterPlain | src/result/program.rs:149 | a field code preceded only by `%`-free text is rewritten, and the scan resumes after it |
| ExecFormat.FormatExecFlagExample | src/result/program.rs:149 | `app %f --flag %U` becomes `app  --flag `: the codes are deleted and the spaces around them stay |
| ExecFormat.FormatExecDirectoryCode | src/result/program.rs:149 | `%D` becomes `~` rather than being deleted |
| ExecFormat.FormatExecChained | src/result/program.rs:149 | the replacements run in the fixed order: deleting `%f` in `%%fD` makes a `%D` that the third replacement turns into `~` |
| ExecFormat.FormatExecSinglePass | src/result/program.rs:149 | each replacement is one pass: `%%ff` becomes `%f`, which still holds a field code |
| Category.IsExcluded | src/result/program.rs:159 | exclusion compares upper-case forms, so a token and its lower-cased spelling are excluded alike |
| Category.FirstKept | src/result/program.rs:158-160 | the first token whose upper-case form is not excluded; none exactly when every token is excluded |
| Category.ChooseCategory | src/result/program.rs:157-161 | the label holds no lower-case ASCII letter; the exclusion table is `ExcludedCategories` (lines 32-43) |
| Category.MarkBoundaries | src/result/program.rs:160 | no `_` or `-` is left in the marked text (`DelimitedMarks` shows each becomes a space) |
| Category.Words | src/result/program.rs:160 | the words are non-empty and hold no space, `_` or `-` |
| Category.Capitalize | src/result/program.rs:160 | capitalising a word keeps its length and changes letters only |
| Category.TitleCase | src/result/program.rs:160 | `to_case(Case::Title)` leaves no `_` or `-`: words are separated by spaces only |
| Category.CapitalizeKeeps | src/result/program.rs:160 | capitalising a word without `_` or `-` introduces none |
| Category.UpperCapitalize | src/result/program.rs:160 | capitalising changes only case, so it vanishes under `to_uppercase` |
| Category.TitleUpperPlain | src/result/program.rs:160 | title-casing a single word and upper-casing it gives the upper-cased word |
| Category.MarkPlainThen | src/result/program.rs:160 | a single word followed by more text is left as it is by the boundary marking |
| Category.TitleUpperCamel | src/result/program.rs:160 | two camel-case words run together come out as the two words upper-cased with a space between |
| Category.TitleUpperDelimited | src/result/program.rs:160 | two words joined by a space, `_` or `-` come out as the two words upper-cased with a space between |
| Category.DelimitedWords | src/result/program.rs:160 | a space, `_` or `-` between two words splits them into those two words |
| Category.DelimitedMarks | src/result/program.rs:160 | a delimiter between two words is marked as a single space |
| Category.CamelWords | src/result/program.rs:160 | a lower-to-upper change splits a camel-case pair into its two words |
| Category.TitleCaseTwoWords | src/result/program.rs:160 | text of two words title-cases to both words capitalised with one space between |
| Category.ChooseCategoryEmptyList | src/result/program.rs:158-160 | an absent list and an empty list both give the empty label, not the default |
| Category.ChooseCategoryFirstKept | src/result/program.rs:157-161 | when token `i` is the first not excluded, the label is that token title-cased and then upper-cased |
| Category.ChooseCategoryFirstWord | src/result/program.rs:157-161 | when that token is a single word, the label is the token upper-cased |
| Category.FirstKeptIs | src/result/program.rs:158-160 | the first token not excluded is the one chosen |
| Category.DefaultLabel | src/result/program.rs:160 | the default `Application` is labelled `APPLICATION` |
| Category.ChooseCategoryDefault | src/result/program.rs:157-161 | when every token is excluded, no token is kept and the label is `APPLICATION` |
| CategoryExamples.ChooseCategoryUtility | src/result/program.rs:157-161 | `Utility;GTK;Office` gives `UTILITY` |
| CategoryExamples.ChooseCategoryCaseInsensitive | src/result/program.rs:157-161 | exclusion ignores case: `gtk;kde;Office` gives `OFFICE` |
| CategoryExamples.ChooseCategoryUntrimmed | src/result/program.rs:158-160 | tokens are not trimmed: ` GTK` is not excluded, and `" GTK;Office"` gives `GTK` |
| CategoryExamples.AudioVideoLabel | src/result/program.rs:160 | the camel-case category `AudioVideo` is labelled `AUDIO VIDEO` |
| CategoryExamples.HyphenatedLabel | src/result/program.rs:160 | the hyphenated `Audio-Video` is labelled `AUDIO VIDEO` as well |
| Program.Attr | src/result/program.rs:106-117 | `parsed.section(..).attr(..)`: present exactly when both the section and the key are, and then the stored value |
| Program.IsShown | src/result/program.rs:108 | an entry is shown exactly when `NoDisplay` and `Hidden` are each absent or "false" |
| Program.ActionIds | src/result/program.rs:110-111 | the action ids are non-empty and free of `;`, and are empty when `Actions` is absent |
| Program.ActionIdsOfList | src/result/program.rs:110-111 | an `Actions` value made of `;`-free pieces gives exactly the non-empty pieces, in order and with repetitions |
| Program.ActionIdsExact | src/result/program.rs:110-111 | a present `Actions` list without empty pieces gives exactly its `split(';')` |
| Program.ActionIdsKeepOrder | src/result/program.rs:110-111 | `a;;b;a;` gives the ids `a`, `b`, `a`: order and repetitions are kept, and only the empty pieces go |
| Program.ActionSection | src/result/program.rs:114 | `["Desktop Action", name].join(" ")`: never the main section, and the id is the text after the 15-character prefix |
| Program.ActionSectionInjective | src/result/program.rs:114 | distinct action ids name distinct sections |
| Program.ActionOf | src/result/program.rs:113-118 | an action takes the `Exec` of its own section and that section's `Name`, or "Unnamed Action" when it has none |
| Program.BuildActions | src/result/program.rs:112-120 | succeeds exactly when every listed action has `Exec`, giving one action per id in order (name defaulting to "Unnamed Action"); otherwise it fails with the first id that lacks one |
| Program.ExtractEntry | src/result/program.rs:104-136 | fails exactly when a listed action lacks `Exec`, whatever the flags and `Exec` say; otherwise gives a result exactly when `NoDisplay` and `Hidden` are absent or "false" and `Exec` is present, with the defaults and pass-throughs of each field and the actions in order |
| Program.LaunchCommand | src/result/program.rs:287-293 | the command launched is the stored raw command formatted: no longer than it, and equal to it when it holds no field code |
| Program.LaunchesEntryExec | src/result/program.rs:250-261 | a result stores the entry's raw `Exec`, and activating it launches exactly that value with the field codes stripped |
| Program.ActionCommand | src/result/program.rs:223 | an action button's command is never longer than the action's `Exec`, and is that `Exec` when it holds no `%` |
| Program.ActionLaunchesSectionExec | src/result/program.rs:223 | the `k`-th action button launches the formatted `Exec` of the `k`-th listed action's own section |
| Discovery.LastDotBefore | src/result/program.rs:104 | the index of the last `.` among the first `n` characters; none exactly when there is no `.` there |
| Discovery.Extension | src/result/program.rs:104 | `Path::extension`: none exactly for `..` and when no `.` follows the first character; otherwise the `.`-free text after a later `.` |
| Discovery.DesktopExtension | src/result/program.rs:104 | a file counts as a desktop entry exactly when its name is a non-empty stem followed by `.desktop` |
| Discovery.FileOutcome | src/result/program.rs:104-105 | only a successfully parsed file with extension `desktop` produces anything |
| Discovery.VisitEntry | src/result/program.rs:96-136 | one listing item: a directory moves its outcomes onto the stack, a file's outcome is processed, and a failing file is reported |
| Discovery.ProcessOutcome | src/result/program.rs:105-135 | one file's outcome: a failing action is reported with its id, otherwise the outcome is processed and a result is collected exactly when it is one |
| Discovery.ScanDirectory | src/result/program.rs:95-137 | the loop over one listing accounts for every outcome below the listing (processed or still on the stack), or stops at the first failing file |
| Discovery.FindAll | src/result/program.rs:82-141 | succeeds exactly when no reachable entry fails; a failure names a reachable failing action; on success the results are exactly those of the reachable shown entries, as a multiset |
| Discovery.EmittedPermutation | src/result/program.rs:126-134 | processing the outcomes in another order yields the same results up to order |
| Discovery.EmittedCount | src/result/program.rs:126-134 | each result outcome contributes exactly one result |
| Discovery.WalkComplete | src/result/program.rs:91-140 | once the stack is empty, every reachable outcome has been processed and none failed |

## Left out

- GTK widget construction, styling, focus and the preview panel: presentation only.
- Launching processes, and the `shell_words::split` call. Activation is modelled only as far as the command line handed to the splitter (`LaunchCommand`, `ActionCommand`), because the rest is an OS boundary and a library whose code is not part of this model.
- `println!` logging.
- The hard-coded search roots: `FindAll` takes the roots as a parameter.
- The real filesystem is not modelled. It becomes an in-memory tree whose nodes are:
  - listable directories;
  - directories `read_dir` fails on;
  - listing items that are errors;
  - files with the result of `parse_entry` already given (`None` when parsing fails).
- The desktop-entry file parser (`freedesktop_entry_parser`) is not part of this model: a parsed entry is a map from section name to a map of attributes.
- Symbolic-link cycles, which can make the real walk run forever, cannot be expressed in a finite tree.
- Case mapping is ASCII only. Unicode `to_lowercase` and `to_uppercase`, which can change a string's length, are not modelled.
- Category.TitleCase: models `convert_case`'s `Case::Title` only as words split at spaces, `_`, `-` and lower-to-upper changes, each capitalised and joined with single spaces. The crate's digit and acronym boundaries are not modelled, because its source is not part of this model.
- Ranking.GetRanking: the source's `usize` and `isize` arithmetic is modelled with unbounded integers. The score is at most 10 per query character, so no realistic query overflows.
- Discovery.FindAll: a failure is modelled as a `Failure` result naming the action. In the source it is a panic in `unwrap` that ends the launcher.
- Discovery.FindAll: it states the results up to order (as a multiset) rather than the exact stack order.
