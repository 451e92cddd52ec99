# hygroscope: parameter resolution, stack status and payload naming in Dafny

This project models the core of hygroscope, a command-line tool that
deploys CloudFormation stacks from a directory holding a template and saved
parameter sets ("paramsets"). It covers four pieces:

- **Parameter resolution** in the `create` command. The paramset's keys are
  split into those the template declares and those it does not, and the
  undeclared ones are reported. The keys still missing are worked out; with
  `--ask`, every declared key is missing. For each missing key the prompt
  gets its default, its allowed values and its echo setting. The operator is
  asked until the answer is not empty, and each answer is written into the
  paramset at once. Saving the paramset is then offered. Modules
  `Resolution` (the specification, as functions and lemmas) and
  `CreateCommand` (the loop as it runs, over a `ParamSet` object) cover this.
- **Stack status** (module `StackStatus`). `colorize_status` picks the
  colour shown for a status. The polling loop of `status` decides, round by
  round, whether to stop with success, stop with failure, abort with
  "Stack not found" or poll again.
- **`word_wrap`** (module `WordWrap`).
- **Payload naming and upload** (module `Payloads`). This covers the account
  id taken from the user's ARN, the bucket and archive names, the prefix
  and its `File.dirname` fallback, the object key, and the order of the
  three steps of `upload!` with the `s3://` locator it returns.

Module `Text` holds the Ruby core behaviour this code relies on, each with
the property used:

- `Array#-` and `select`;
- `join` and `split`;
- `downcase`, `strip` and `Integer#to_s`;
- the `$` anchor, which matches at the end of any line.

Module `ParamSets` holds the insertion-ordered hash a paramset keeps its
values in.

The operator is modelled as the sequence of answers that Thor's `ask`
returns, in order. Thor applies the default and the allowed values before
returning an answer. The save confirmation and the name typed for a new
paramset are given as parameters. When the answers run out before every
missing key has a non-empty answer, the model stops and names the key left
unanswered. The real program would wait at the prompt.

The polling loop cannot tell a stack that was just deleted from one that
never existed. Every validation error ends with "Stack not found"
(cli.rb:244-245), including one that follows a delete request. Lemma
`StackStatus.DeletedStackIsNotFound` states this.

## Model

| member | source | states |
|---|---|---|
| Text.Minus | lib/hygroscope/cli.rb:94 | `pkeys - tkeys` holds exactly the elements of the first list that are not in the second |
| Text.Keep | lib/hygroscope/cli.rb:95 | `select { tkeys.include? }` holds exactly the elements that are in the second list |
| Text.MinusOrdered | lib/hygroscope/cli.rb:94 | the difference keeps the order of the first list and keeps distinct lists distinct |
| Text.KeepOrdered | lib/hygroscope/cli.rb:95 | the selection keeps the order of the list and keeps distinct lists distinct |
| Text.KeepMinusPartition | lib/hygroscope/cli.rb:94-95 | the kept keys and the filtered keys together are the paramset's keys, counted with multiplicity |
| Text.Split | lib/hygroscope/payload.rb:15 | no field of a split holds the separator, and there is always at least one field |
| Text.JoinSplit | lib/hygroscope/payload.rb:15 | joining the fields of a split with the separator gives back the text |
| Text.RubySplit | lib/hygroscope/payload.rb:15 | `split(':')`: all fields with the trailing empty ones dropped; `DropTrailingEmpty` and `Payloads.AccountIdOfArn` state what it gives |
| Text.Join | lib/hygroscope/cli.rb:96 | `join(sep)`: the parts with the separator between them; `JoinSplit` and `SplitJoin` state that it undoes and is undone by splitting |
| Text.SplitAfterField | lib/hygroscope/payload.rb:15 | a field without the separator, followed by the separator, splits off as one field |
| Text.SplitNoSeparator | lib/hygroscope/payload.rb:15 | a text without the separator is one field |
| Text.SplitJoin | lib/hygroscope/payload.rb:15 | splitting gives back the fields that were joined, when no field holds the separator |
| Text.DropTrailingEmpty | lib/hygroscope/payload.rb:15 | Ruby's `split` result is a prefix of all the fields; only empty fields are dropped, and it ends in a non-empty field |
| Text.DropTrailingEmptyKeepsFields | lib/hygroscope/payload.rb:15 | dropping the trailing empty fields never changes what `fields[4]` interpolates to |
| Text.Downcase | lib/hygroscope/cli.rb:18 | the downcase has the same length and lowers each character |
| Text.DowncaseAppend | lib/hygroscope/cli.rb:18 | downcasing distributes over concatenation |
| Text.LineEndsWith | lib/hygroscope/cli.rb:19-23 | the `$` anchor: the word ends the text or the text before some line feed; `LineEndsWithOneLine`, `FirstLineEnds` and `OrderMattersAcrossLines` state what follows |
| Text.LineEndsWithOneLine | lib/hygroscope/cli.rb:19-23 | on a text without line feeds, `/w$/` matches exactly when the text ends with `w` |
| Text.TrimStart | lib/hygroscope/cli.rb:29 | `lstrip` removes only blanks, and the result is empty or starts with a non-blank |
| Text.TrimEnd | lib/hygroscope/cli.rb:29 | `rstrip` removes only blanks, and the result is empty or ends with a non-blank |
| Text.Strip | lib/hygroscope/cli.rb:29 | `strip` gives a slice of the text with only blanks around it and no blank at either end |
| Text.NatToString | lib/hygroscope/payload.rb:17 | decimal digits with no leading zero |
| Text.ParseNatToString | lib/hygroscope/payload.rb:17 | reading the digits of a natural number gives the number back |
| Text.IntToString | lib/hygroscope/payload.rb:17 | `Integer#to_s`: a minus sign for a negative number, then its decimal digits; `IntToStringRoundTrip` states that it reads back |
| Text.IntToStringRoundTrip | lib/hygroscope/payload.rb:17 | reading `Integer#to_s` back gives the integer, negatives included |
| ParamSets.Entries.Put | lib/hygroscope/cli.rb:124 | `set` gives the key its value and leaves every other key alone; a new key goes to the end and a known key keeps its place |
| ParamSets.PutAll | lib/hygroscope/cli.rb:106-125 | writing keys one after another keeps the entries well formed |
| ParamSets.PutAllEffect | lib/hygroscope/cli.rb:106-125 | after writing distinct keys, each holds its own value, every other key is unchanged, and the new keys are appended in the order written |
| ParamSets.PutAllWritten | lib/hygroscope/cli.rb:124 | each written key holds the value written for it |
| ParamSets.PutAllOthers | lib/hygroscope/cli.rb:124 | a key not written keeps its value |
| ParamSets.PutAllKeys | lib/hygroscope/cli.rb:124 | the keys afterwards are the old keys followed by the written keys that were new |
| ParamSets.InsertAllMinus | lib/hygroscope/cli.rb:124 | inserting distinct keys one by one appends exactly those not already present, in order |
| ParamSets.ParamSet.constructor | lib/hygroscope/cli.rb:83 | a set named by `--paramset` holds what was loaded for it; without a name the set is anonymous and empty |
| ParamSets.ParamSet.Set | lib/hygroscope/cli.rb:124 | `p.set(key, answer)` updates the entries as `Put` does and keeps the name |
| ParamSets.ParamSet.SetName | lib/hygroscope/cli.rb:130 | `p.name =` changes the name only |
| Resolution.FilteredKeys | lib/hygroscope/cli.rb:94 | the filtered keys are exactly the paramset keys the template does not declare; there are none without a paramset |
| Resolution.KeptKeys | lib/hygroscope/cli.rb:90-95 | `pkeys` is set only with a paramset, and then holds exactly its keys that the template declares |
| Resolution.Notice | lib/hygroscope/cli.rb:96 | a notice appears exactly when some paramset key is undeclared, and it names those keys joined by `, ` |
| Resolution.FilteringSplitsParamsetKeys | lib/hygroscope/cli.rb:94-96 | every paramset key is either kept or reported, never both, and none is lost |
| Resolution.Missing | lib/hygroscope/cli.rb:98-103 | a key is missing exactly when it is declared and either `--ask` was given, no paramset was named, or the paramset lacks it; with `--ask` or no paramset, all declared keys are missing, in order |
| Resolution.MissingInOrder | lib/hygroscope/cli.rb:99 | missing keys come in declaration order, each once |
| Resolution.OfferedDefaultAsWritten | lib/hygroscope/cli.rb:109 | (as written) the default of cli.rb:109 including the `nil.include?` crash; `AskWithoutParamsetCrashes` and `OfferedDefaultAgreesAsWritten` state when it fails and that it otherwise agrees with `OfferedDefault` |
| Resolution.OfferedDefault | lib/hygroscope/cli.rb:109 | (corrected) with `--ask`, a key the paramset holds offers its stored value; otherwise the template default, or empty |
| Resolution.AskWithoutParamsetCrashes | lib/hygroscope/cli.rb:89-109 | with `--ask` and no `--paramset`, every key is missing and the as-written default crashes on `nil.include?`, where the corrected default offers the template default |
| Resolution.OfferedDefaultAgreesAsWritten | lib/hygroscope/cli.rb:109 | the as-written default fails exactly for `--ask` without a paramset and otherwise equals the corrected one |
| Resolution.OptionsFor | lib/hygroscope/cli.rb:110-117 | the `options` hash of one prompt; `PromptConstraints` states its default, allowed values and echo |
| Resolution.Caption | lib/hygroscope/cli.rb:108-119 | the line said before a prompt, description then type, only when there is a description; `PromptConstraints` states when it is there |
| Resolution.PromptFor | lib/hygroscope/cli.rb:107-122 | the prompt for one key: its name, caption and options; `FirstPromptsAt` and `PromptConstraints` state what each prompt holds |
| Resolution.FirstPrompts | lib/hygroscope/cli.rb:106-119 | one prompt per key |
| Resolution.FirstPromptsAt | lib/hygroscope/cli.rb:106-119 | the i-th prompt is the one for the i-th key |
| Resolution.Prompts | lib/hygroscope/cli.rb:106-119 | one prompt per missing key |
| Resolution.PromptConstraints | lib/hygroscope/cli.rb:108-119 | each prompt names its key; has a default exactly when the offered default is not empty, and then that default; lists the template's allowed values; turns echo off exactly when `NoEcho` is truthy and never turns it on; has a caption exactly when there is a description |
| Resolution.NextAnswer | lib/hygroscope/cli.rb:120-123 | the answer found is at or after the start and is not empty |
| Resolution.NextAnswerSkipsEmpty | lib/hygroscope/cli.rb:120-123 | every answer skipped is empty, and none is found only when all the rest are empty |
| Resolution.Collect | lib/hygroscope/cli.rb:106-123 | no more answers are kept than keys prompted for, and no more are read than given |
| Resolution.NonEmpty | lib/hygroscope/cli.rb:121 | no more non-empty answers than answers |
| Resolution.NonEmptySkip | lib/hygroscope/cli.rb:121 | skipping empty answers keeps nothing |
| Resolution.NonEmptyTake | lib/hygroscope/cli.rb:121 | the first non-empty answer after empties is kept |
| Resolution.NonEmptyGrows | lib/hygroscope/cli.rb:121 | reading further never loses non-empty answers |
| Resolution.CollectKeepsNonEmptyAnswers | lib/hygroscope/cli.rb:106-124 | the answers stored are exactly the non-empty answers read, in order; when they run short, every non-empty answer was used |
| Resolution.CollectStep | lib/hygroscope/cli.rb:106-124 | one more prompt keeps the stored answers equal to the non-empty answers read |
| Resolution.CollectTakes | lib/hygroscope/cli.rb:120-124 | the next prompt takes the next non-empty answer, or uses up the answers |
| Resolution.CollectNext | lib/hygroscope/cli.rb:120-124 | one more prompt adds the next non-empty answer and reads past it, or changes nothing when there is none |
| Resolution.CollectComplete | lib/hygroscope/cli.rb:106-124 | every prompt gets an answer exactly when there are at least as many non-empty answers as prompts |
| Resolution.Resolve | lib/hygroscope/cli.rb:89-125 | the whole parameter step as a function; `ResolveFailsForWantOfAnswers` and `ResolvedParameters` state when it stops and what it stores |
| Resolution.ResolveFailsForWantOfAnswers | lib/hygroscope/cli.rb:106-124 | resolution stops exactly when there are fewer non-empty answers than missing keys, and names the first key left unanswered: the missing key at the position given by the number of non-empty answers |
| Resolution.ResolvedParameters | lib/hygroscope/cli.rb:106-125 | each missing key gets its non-empty answer; keys not missing keep their paramset value; every declared key has a value; new keys are appended in declaration order |
| Resolution.NonEmptyAreNonEmpty | lib/hygroscope/cli.rb:121 | no stored answer is empty |
| Resolution.SaveDecision | lib/hygroscope/cli.rb:127-133 | saving is offered exactly when something was missing; it is declined exactly when offered and not confirmed; a name is asked for exactly when saving and no paramset was named, with the stack name offered as default, and the set is saved under that answer, otherwise under its own name |
| Resolution.FreshCreate | lib/hygroscope/cli.rb:100-125 | a template of `Env` (no default) and `Size` (default `small`) without a paramset: both are prompted for in order, only `Size` with a default, and two answers resolve both |
| Resolution.FreshCreateAnswers | lib/hygroscope/cli.rb:106-124 | two non-empty answers are both used and written under the two keys |
| Resolution.TwoAnswers | lib/hygroscope/cli.rb:120-123 | two non-empty answers give one answer per prompt |
| Resolution.TwoWrites | lib/hygroscope/cli.rb:124 | two writes into an empty set hold both keys in order |
| Resolution.ExtraneousKey | lib/hygroscope/cli.rb:89-134 | a paramset with `Env` and an undeclared `Region`, over a template declaring only `Env`: a notice names `Region`, nothing is prompted, saving is not offered and the set is unchanged |
| CreateCommand.AskUntilAnswered | lib/hygroscope/cli.rb:120-123 | the loop ends at the first non-empty answer, all answers skipped were empty, and it agrees with `NextAnswer` |
| CreateCommand.CollectStuck | lib/hygroscope/cli.rb:106-123 | once the answers have run out, further prompts change nothing |
| CreateCommand.PutAllStep | lib/hygroscope/cli.rb:124 | writing one more key extends the writes so far |
| CreateCommand.BuildOptions | lib/hygroscope/cli.rb:114-117 | the options hash has a default exactly when the offered default is not empty, never sets echo on, and agrees with `OptionsFor` |
| CreateCommand.AskFor | lib/hygroscope/cli.rb:107-124 | one pass builds the prompt of `PromptFor`, reads up to the next non-empty answer and sets it in the paramset; with no answer left the paramset is untouched |
| CreateCommand.PromptMissing | lib/hygroscope/cli.rb:106-125 | the paramset ends up holding the collected answers under the missing keys; if the answers run out it holds those given so far and the unanswered key is named |
| CreateCommand.Create | lib/hygroscope/cli.rb:83-134 | the run agrees with `Resolve` and `SaveDecision`: same notice, prompts, entries and save step, the name changed only when saved under a new name, and partial writes kept when it stops |
| StackStatus.ColorizeStatus | lib/hygroscope/cli.rb:17-26 | a colour, when given, paints the status text as it was given |
| StackStatus.Classify | lib/hygroscope/cli.rb:227-243 | the loop's test, `complete` before `failed`; `ClassifyBySuffix` and `ColorAgreesWithPolling` state its outcomes |
| StackStatus.PollFrom | lib/hygroscope/cli.rb:204-248 | the loop over the observed rounds as a function; `Status` states how it ends |
| StackStatus.ColorizeBySuffix | lib/hygroscope/cli.rb:17-26 | a one-line status ending in `FAILED` in any case is painted red, one ending in `IN_PROGRESS` yellow, one ending in `COMPLETE` green |
| StackStatus.ColorizeOneLine | lib/hygroscope/cli.rb:17-26 | on a one-line status the colour is red exactly when the downcase ends in `failed`, yellow exactly when it ends in `progress`, green exactly when it ends in `complete` |
| StackStatus.ColorizeNoMatch | lib/hygroscope/cli.rb:17-26 | a one-line status ending in none of `failed`, `progress` and `complete` is not painted (`nil`) |
| StackStatus.EndsWithShorter | lib/hygroscope/cli.rb:21 | a status ending in `in_progress` also ends in `progress` |
| StackStatus.PaintedYellow | lib/hygroscope/cli.rb:19-22 | a one-line status ending in `in_progress` fails the `failed` test and passes the `progress` test |
| StackStatus.PaintedGreen | lib/hygroscope/cli.rb:19-24 | a one-line status ending in `complete` fails the `failed` and `progress` tests |
| StackStatus.OneLineTests | lib/hygroscope/cli.rb:17-26 | on a one-line status the line-end tests are suffix tests, and no two of the three words can end it together |
| StackStatus.ColorAgreesWithPolling | lib/hygroscope/cli.rb:17-26 | on a one-line status the colour is green exactly when the loop stops with success, red exactly when it stops with failure, and yellow or none exactly when it polls on |
| StackStatus.OrderMattersAcrossLines | lib/hygroscope/cli.rb:17-26 | a line ending in `failed` followed by a line ending in `complete` is painted red while the loop stops with success |
| StackStatus.FirstLineEnds | lib/hygroscope/cli.rb:19 | a word ending the first of two lines matches `$` in the whole |
| StackStatus.LastLineEnds | lib/hygroscope/cli.rb:227 | a word ending the last of two lines ends the whole |
| StackStatus.ClassifyBySuffix | lib/hygroscope/cli.rb:227-243 | a one-line status ending in `COMPLETE` in any case stops with success, one ending in `FAILED` stops with failure, one ending in `IN_PROGRESS` polls on |
| StackStatus.PollFromEnds | lib/hygroscope/cli.rb:198-248 | from a round reached through pending rounds only, the loop stops, aborts with "Stack not found" or crashes at a later round exactly as that round dictates, and keeps polling exactly when every round is pending |
| StackStatus.Status | lib/hygroscope/cli.rb:204-248 | the loop ends at the first round that is not pending; on success it lists that round's outputs; a validation error aborts with "Stack not found"; an unrescued error ends it; otherwise it is still polling |
| StackStatus.DeletedStackIsNotFound | lib/hygroscope/cli.rb:244-245 | a pending delete status followed by a validation error ends with "Stack not found", not with success |
| WordWrap.LineRun | lib/hygroscope/cli.rb:29 | the characters counted hold no line feed, and they end at a line feed or at the end |
| WordWrap.Wrap | lib/hygroscope/cli.rb:28-30 | `word_wrap` as a function of text, length and delimiter; `BlankFreeWrap`, `PiecesCoverText` and `ZeroLengthWrap` state what it gives |
| WordWrap.WrapDefault | lib/hygroscope/cli.rb:28 | `word_wrap` with its defaults of 80 columns and a line feed; `DefaultWrapLines` states what it gives |
| WordWrap.DefaultWrapLines | lib/hygroscope/cli.rb:28-30 | with the defaults, a text without blanks becomes lines of at most 80 characters, all but the last exactly 80, which together are the text |
| WordWrap.Pieces | lib/hygroscope/cli.rb:29 | every piece of `scan(/.{L}\|.+/)` is non-empty, at most `L` long and free of line feeds |
| WordWrap.StripEach | lib/hygroscope/cli.rb:29 | every piece is stripped |
| WordWrap.WithoutLineFeedsAppend | lib/hygroscope/cli.rb:29 | removing line feeds distributes over concatenation |
| WordWrap.PiecesCoverText | lib/hygroscope/cli.rb:29 | the pieces, put together, are the text without its line feeds: nothing else is lost or repeated |
| WordWrap.OneLinePiecesAreFull | lib/hygroscope/cli.rb:29 | on one line, every piece but the last is exactly `L` long |
| WordWrap.StripBlankFree | lib/hygroscope/cli.rb:29 | stripping a text without blanks changes nothing |
| WordWrap.BlankFreeWrap | lib/hygroscope/cli.rb:28-30 | a text without blanks is wrapped into full-length pieces joined by the delimiter, which together are the text |
| WordWrap.BlankFreePieces | lib/hygroscope/cli.rb:29 | the pieces of a text without blanks hold no blanks |
| WordWrap.ZeroLengthWrap | lib/hygroscope/cli.rb:29 | with length 0 the result is the delimiter repeated once per character |
| WordWrap.EmptyPiecesJoin | lib/hygroscope/cli.rb:29 | joining `n + 1` empty pieces gives `n` delimiters |
| Payloads.AccountId | lib/hygroscope/payload.rb:15 | `split(':')[4]` interpolated; `AccountIdOfArn` states what it gives |
| Payloads.BucketFor | lib/hygroscope/payload.rb:16 | the bucket name; `BucketNamesAccount` states its layout |
| Payloads.ArchiveName | lib/hygroscope/payload.rb:17 | the archive name; `ArchiveNameTimestamp` states its layout and that the clock reading can be read back |
| Payloads.Locator | lib/hygroscope/payload.rb:59 | the returned `s3://` locator; `LocatorRoundTrip` states that it reads back |
| Payloads.Payload.Prefix | lib/hygroscope/payload.rb:22-24 | the assigned prefix, else the dirname of the dirname of the path; `PrefixFallback` states the fallback |
| Payloads.Payload.Key | lib/hygroscope/payload.rb:26-28 | the object key from the raw assigned prefix; `KeyLayout` states its layout |
| Payloads.AccountIdOfArn | lib/hygroscope/payload.rb:15 | the account id of an ARN is its fifth `:`-separated field, or empty when there are fewer than five |
| Payloads.BucketNamesAccount | lib/hygroscope/payload.rb:16 | the bucket is the fixed prefix followed by the account id, which can be read back from it |
| Payloads.ArchiveNameTimestamp | lib/hygroscope/payload.rb:17 | the archive name is `payload-`, the clock reading and `.zip`, and the clock reading can be read back from it |
| Payloads.KeyLayout | lib/hygroscope/payload.rb:26-28 | the key ends with a slash and the archive name and starts with the assigned prefix; with no prefix assigned it is just the slash and the name, so the dirname fallback plays no part |
| Payloads.IndexOf | lib/hygroscope/payload.rb:59 | the position found holds the character and none comes before it; none is found only when the character is absent |
| Payloads.LocatorRoundTrip | lib/hygroscope/payload.rb:59 | a locator reads back as its bucket and key when the bucket holds no slash |
| Payloads.LeadingSlashes | lib/hygroscope/payload.rb:23 | counts exactly the slashes a path starts with |
| Payloads.DropTrailingSlashes | lib/hygroscope/payload.rb:23 | removes only slashes from the end, and the result does not end with one |
| Payloads.DropLastName | lib/hygroscope/payload.rb:23 | removes only the last component, and the result is empty or ends with a slash |
| Payloads.Dirname | lib/hygroscope/payload.rb:23 | `File.dirname` is never empty |
| Payloads.DirnameOfJoin | lib/hygroscope/payload.rb:23 | the dirname of `d/b` is `d`, for a plainly written directory `d` and a name `b` |
| Payloads.DirnameOfName | lib/hygroscope/payload.rb:23 | the dirname of a bare name is `.` |
| Payloads.Payload.constructor | lib/hygroscope/payload.rb:9-20 | a new payload has the account id of the ARN, the bucket named after it, the archive name from the clock, and no prefix, archive or calls |
| Payloads.Payload.SetPrefix | lib/hygroscope/payload.rb:6 | `prefix =` changes only the assigned prefix |
| Payloads.Payload.MakeBucket | lib/hygroscope/payload.rb:30-34 | asks once for a private bucket with the payload's bucket name |
| Payloads.Payload.Prepare | lib/hygroscope/payload.rb:36-43 | archives the contents of the payload directory under the archive name and keeps the archive |
| Payloads.Payload.Send | lib/hygroscope/payload.rb:45-52 | stores the archive in the bucket under the key |
| Payloads.Payload.Upload | lib/hygroscope/payload.rb:54-60 | creates the bucket, then archives, then stores the archive just made under the key, and returns the locator of bucket and key |
| Payloads.PrefixFallback | lib/hygroscope/payload.rb:22-24 | with no prefix assigned, a payload kept at `d/x/b` has `d` as its prefix |
| Payloads.UploadLocatorNamesObject | lib/hygroscope/payload.rb:59 | the locator `upload!` returns reads back as the payload's bucket and key whenever the account id holds no slash |

## Left out

- The calls to the identity, storage and orchestration services, and the presigner (`generate_url`), are not modelled. The ARN and the clock reading are constructor parameters. The storage calls are recorded as `Effect` values. Stack descriptions are given to the polling loop as `Round` values.
- Console output is not modelled. This covers `say`, `say_status`, tables, colours as terminal codes, clearing the screen, the countdown between polls and its sleep.
- Interrupts are not modelled: an interrupt aborts the polling loop and the prompts. The polling loop is modelled over a finite sequence of rounds; the real loop runs until the user aborts.
- The temporary directory, the zip archiver and the `at_exit` clean-up are not modelled. `Prepare` records the directory archived and the archive name, not the archive's location or content.
- The `puts` lines that report each upload step are not modelled.
- Reading and writing paramset files (`ParamSet.new` loading a file, `save!`) and the paramset listing command are not modelled. The loaded entries are given to the `ParamSet` constructor.
- lib/hygroscope/paramset.rb as written defines only a constructor without arguments and a `select` helper. It has no `name`, `get`, `set`, `paramset` or `save!`. The model follows the interface that lib/hygroscope/cli.rb:83-133 uses.
- `Template#parameters` (reading the template and its parameter definitions) is not part of this model. lib/hygroscope/template.rb as written defines no `parameters` method, although lib/hygroscope/cli.rb:91 and 102 call one. A template is given as its declared keys and their definitions.
- Thor's option parsing and its handling of `default:` and `limited_to:` in `ask` are not modelled. The answers are given after Thor has applied them. `yes?` is given as a boolean.
- Running out of answers is modelled as a stop naming the key left unanswered. The real program would wait at the prompt.
- Parameter values are strings. A `Default` or `AllowedValues` of another JSON type is not modelled.
- `Text.Downcase`: lowers only the ASCII letters, where Ruby's `downcase` also lowers other Unicode letters.
- `WordWrap.Wrap`: a length above 100000, for which Ruby refuses to build the regular expression and raises an error, is not modelled: `Wrap` returns a text for every length. A negative length is not modelled, because the length is a `nat`. Ruby reads an interval such as `{-1}` as literal text, so `/.{-1}|.+/` compiles and `scan` then returns whole lines, except where a line holds that literal text.
- `Payloads.Dirname`: follows POSIX `File.dirname` without drive letters or backslash separators.
- `CreateCommand.PromptMissing`: does not accumulate the prompts it shows. `Create` reports them through `Resolution.Prompts`, and `AskFor` ties each pass to `PromptFor`.
- `Payloads.LocatorRoundTrip`: reads the locator back only when the bucket holds no slash; an account id holding a slash makes the locator ambiguous.
- The payload upload inside `create` (lib/hygroscope/cli.rb:136-145) is modelled only through `Payloads.Payload`. Its prefix there is the stack name.
- Stack creation and update, the `--existing` output import, and passing the payload as a parameter are not modelled. The source leaves them unimplemented (lib/hygroscope/cli.rb:85, 137, 147, 168-171).

## Findings

| source | as written | input that shows it | evidently intended | confidence | as-written member | corrected member |
|---|---|---|---|---|---|---|
| lib/hygroscope/cli.rb:109 | `pkeys.include?(key)` is evaluated whenever `--ask` is given, but `pkeys` is assigned only when `--paramset` is given (cli.rb:89-90) | `create --ask` without `--paramset`, on any template declaring at least one parameter: `nil.include?` raises before the first prompt | `--ask` without a paramset prompts for every key, offering the template default | not executed | Resolution.AskWithoutParamsetCrashes | Resolution.OfferedDefault |
