# The Windows `user` execution module, modelled in Dafny

This project models `salt/modules/win_useradd.py`, the Salt execution module that
manages local accounts on Windows by running `net user` and `net localgroup`.
It covers:

- the mutators `add`, `delete` and `setpassword`, which issue one command each and
  report success as a zero exit status;
- the check-then-act mutators:
  - `addgroup` and `removegroup`;
  - `chhome`, `chprofile` and `chfullname`, which read the account, change it and
    read it again to judge the change;
  - `chgroups`, which reads the account's groups, optionally deletes every group,
    adds the requested ones and reads the groups again;
- `info`, the reader of the `net user <name>` detail view;
- `list_groups`, the sorted, duplicate-free listing built on `info`;
- `getent`, which enumerates the accounts from the plain `net user` view, looks up
  each one with `info` and caches the result in the run's `__context__`.

The model has five modules:

- `PyStr` (`pystr.dfy`): the Python string operations the module depends on, with
  the semantics of Python 3's `str` (its whitespace and line-boundary sets). These are `in`, `str.find`, `str.split(sep)`,
  `str.split(sep, 1)`, `str.split()`, `str.strip()`, `str.strip('*')` and
  `str.splitlines()`.
- `StrOrder` (`order.dfy`): Python's ordering of strings, and
  `sorted(list(set(xs)))`.
- `NetOutput` (`netoutput.dfy`): the parsers of the two `net user` views.
  - `InfoOf` is `info`'s reader. It returns `NotFound` for the empty dict,
    `MissingLabel(k)` for the `KeyError` a missing label raises, or `Found` with the
    record.
  - `UserListOf` is `getent`'s enumeration reader.
  - Each has an imperative method, `ParseInfo` or `ParseUserList`, with the
    source's own loops, proved equal to the function.
- `UserSpec` (`behaviour.dfy`): each operation as a trace function of the command
  history. The function gives the commands the operation issues, in order, and the
  value it returns or the exception it raises.
  - Replies come from an executor, a function from the commands issued so far and
    the next command to that command's exit status and output. The model assumes
    nothing about how a command changes the machine.
  - The trace functions take a `Host`: the executor, the reader of the detail view
    and the `file.user_to_uid` lookup.
- `WinUserAdd` (`useradd.dfy`): the class `UserModule`. Its fields are the command
  history and the `user.getent` cache. It has one method per function of the
  module, and each method is proved to append to the history exactly what the
  trace function says and to return exactly its result.

What the properties say:

- `addgroup`, `removegroup` and the `ch*` functions issue no changing command when
  the account is missing, when its record lacks a label, or when nothing needs to
  change.
- When one of them changes something, it issues exactly one changing command.
  `addgroup` and `removegroup` then report that command's exit status; the `ch*`
  functions judge by a re-read of the account, and their verdict is exactly
  whether the re-read value is the requested one.
- `chgroups` sends one `/delete` per group it read, in the order read, and one
  `/add` per requested group, in the order requested. With `append`, it deletes
  nothing.
- `chgroups` raises only TypeError, when a read of the groups gives False.
- `getent` never issues a changing command. The cache short-circuits it. On success
  it lists one entry per enumerated name, and a failed lookup ends the call.
- The parsers:
  - `info` reports "not found" exactly when some line holds the not-found message.
  - A label keeps the value of its last line.
  - No group name holds a double space.
  - `list_groups` is strictly sorted, holds exactly the account's groups and is the
    only such listing.
  - Enumerated names are whitespace-free tokens found after the first divider line,
    with the status line skipped.

Behaviour of the code worth noting, which the model keeps as written:

- In `info`, `strip('*')` removes only asterisks, so an odd run of spaces between
  two groups leaves a leading space on the second group: `"*Users   *Admins"`
  gives `["Users", " *Admins"]` (`NetOutput.OddRunGroups`).
- In `info`, a required label missing from the output raises `KeyError`, since
  `items[...]` is indexed directly; no default value is used.
- The verdict of `chgroups` compares the groups held before the call with those
  held after it, not the requested groups with those held after it.
  `UserSpec.ChGroupsVerdict` states this as written.

## Model

| member | source | states |
|---|---|---|
| PyStr.FindSpec | salt/modules/win_useradd.py:216 | `Find` gives the first index at which the separator occurs, and `None` only when it occurs nowhere |
| PyStr.ContainsSpec | salt/modules/win_useradd.py:213 | the `in` test on strings holds exactly when the substring occurs at some index |
| PyStr.SplitSpec | salt/modules/win_useradd.py:221 | `split(sep)` gives pieces that join back to the input with `sep` and none of which contains `sep`; the first piece ends at the first occurrence and the remaining pieces are the split of the text after it, so every cut is at the leftmost occurrence not yet consumed |
| PyStr.SplitOnceSpec | salt/modules/win_useradd.py:216-217 | `split(sep, 1)` gives one piece when `sep` is absent; otherwise it gives the text before the first occurrence and everything after it |
| PyStr.LeadCount | salt/modules/win_useradd.py:219 | the count of leading characters satisfying the predicate is maximal: all of them satisfy it and the next one does not |
| PyStr.TrimSpec | salt/modules/win_useradd.py:219 | `strip` gives a contiguous slice of the input that neither starts nor ends with a stripped character |
| PyStr.TrimIdempotent | salt/modules/win_useradd.py:219 | stripping twice is the same as stripping once |
| PyStr.TrimPadRight | salt/modules/win_useradd.py:219 | characters of the stripped set appended to a string leave its strip unchanged |
| PyStr.TrimPadLeft | salt/modules/win_useradd.py:219 | characters of the stripped set put in front of a string leave its strip unchanged |
| PyStr.SplitWs | salt/modules/win_useradd.py:281 | `split()` yields only non-empty tokens free of whitespace |
| PyStr.SplitWsBlank | salt/modules/win_useradd.py:281 | `split()` of all-whitespace text yields no token |
| PyStr.SplitWsToken | salt/modules/win_useradd.py:281 | `split()` of one token yields that token |
| PyStr.SplitWsSeparates | salt/modules/win_useradd.py:281 | a whitespace character splits the token list: `split()` of `a + c + b` is `split()` of `a` followed by `split()` of `b` |
| PyStr.SplitLines | salt/modules/win_useradd.py:211 | `splitlines()` gives lines without line breaks, and no line exactly when the text is empty |
| PyStr.SplitLinesLast | salt/modules/win_useradd.py:211 | a non-empty last line with no boundary after it is a line of its own |
| PyStr.SplitLinesCons | salt/modules/win_useradd.py:211 | a line followed by any boundary (one boundary character, or `\r\n`) is the first line of the split; a lone `\r` is a boundary of its own when no `\n` follows it |
| PyStr.LineLength | salt/modules/win_useradd.py:211 | the first line of the text is the longest prefix without a boundary character: a boundary, if any, follows it |
| PyStr.LineLengthStops | salt/modules/win_useradd.py:211 | a line without boundaries followed by a boundary is exactly the first line |
| PyStr.UnLinesHead | salt/modules/win_useradd.py:211 | text made of lines joined by a boundary starts with a boundary character only when it starts with that boundary |
| PyStr.SplitLinesUnLines | salt/modules/win_useradd.py:211 | `splitlines()` recovers the lines that were each ended by the same boundary, followed by a last line with no boundary after it when that line is not empty |
| PyStr.Find | salt/modules/win_useradd.py:216 | `str.find`; its properties are stated by `PyStr.FindSpec` |
| PyStr.Contains | salt/modules/win_useradd.py:213 | `sub in s`; stated by `PyStr.ContainsSpec` |
| PyStr.Split | salt/modules/win_useradd.py:221 | `str.split(sep)`; stated by `PyStr.SplitSpec` |
| PyStr.SplitOnce | salt/modules/win_useradd.py:216 | `str.split(sep, 1)`; stated by `PyStr.SplitOnceSpec` |
| PyStr.Trim | salt/modules/win_useradd.py:219 | `strip` of a character set; stated by `PyStr.TrimSpec`, `PyStr.TrimIdempotent`, `PyStr.TrimPadRight` and `PyStr.TrimPadLeft` |
| PyStr.Strip | salt/modules/win_useradd.py:219 | `str.strip()`, `Trim` of whitespace; stated by `PyStr.TrimSpec` |
| PyStr.StripStars | salt/modules/win_useradd.py:225 | `str.strip('*')`, `Trim` of asterisks; stated by `PyStr.TrimSpec` and `NetOutput.OddRunStrip` |
| StrOrder.Less | salt/modules/win_useradd.py:256 | Python's `<` on strings; stated by `StrOrder.LessTotal`, `StrOrder.LessTransitive` and `StrOrder.SortedUnique` |
| StrOrder.LessTotal | salt/modules/win_useradd.py:256 | Python's string ordering is total |
| StrOrder.LessTransitive | salt/modules/win_useradd.py:256 | Python's string ordering is transitive |
| StrOrder.Insert | salt/modules/win_useradd.py:253-254 | adding one element to a strictly sorted set listing keeps it strictly sorted, with exactly the old elements and the new one |
| StrOrder.SortedSet | salt/modules/win_useradd.py:248-256 | `sorted(list(set(xs)))` is strictly sorted and has exactly the elements of `xs` |
| StrOrder.SortedUnique | salt/modules/win_useradd.py:256 | two strictly sorted listings of the same elements are equal |
| NetOutput.LineEntry | salt/modules/win_useradd.py:215-219 | the item one line contributes, if any; stated by `NetOutput.LineEntrySpec` and `NetOutput.LabelLine` |
| NetOutput.Items | salt/modules/win_useradd.py:212-219 | the `items` dict after all lines; stated by `NetOutput.ItemsKeys` and `NetOutput.ItemsLastWins` |
| NetOutput.GroupList | salt/modules/win_useradd.py:220-225 | `grouplist` after the pieces; stated by `NetOutput.GroupListMembers`, `NetOutput.GroupListAppend` and `NetOutput.GroupsHaveNoDoubleSpace` |
| NetOutput.Record | salt/modules/win_useradd.py:220-237 | the record, or the KeyError of the first missing label; stated by `NetOutput.RecordMissing` and `NetOutput.InfoWithoutMarker` |
| NetOutput.InfoOf | salt/modules/win_useradd.py:200-237 | what `info` makes of the output; stated by `NetOutput.InfoNotFoundIff`, `NetOutput.NotFoundAnywhere` and `NetOutput.InfoWithoutMarker`, and computed by `NetOutput.ParseInfo` |
| NetOutput.UserNames | salt/modules/win_useradd.py:275-282 | the names after the divider; stated by `NetOutput.UserNamesAreTokens`, `NetOutput.NamesFollowFirstDivider`, `NetOutput.UserNamesAppend` and `NetOutput.StatusLineExcluded` |
| NetOutput.UserListOf | salt/modules/win_useradd.py:270-282 | the `users` list of `getent`; stated by the `UserNames` lemmas and computed by `NetOutput.ParseUserList` |
| NetOutput.LineEntrySpec | salt/modules/win_useradd.py:215-219 | a line yields an item exactly when it lacks "successfully" and contains four spaces; the key and value are the stripped text before and after the first four spaces |
| NetOutput.FirstOccurrenceSplits | salt/modules/win_useradd.py:216 | a separator preceded by no earlier occurrence is the one `find` locates |
| NetOutput.ItemsKeys | salt/modules/win_useradd.py:212-219 | a key is in `items` exactly when some line defines it |
| NetOutput.ItemsLastWins | salt/modules/win_useradd.py:219 | a key keeps the value of the last line that defines it |
| NetOutput.GroupListAppend | salt/modules/win_useradd.py:222-225 | the group list of concatenated pieces is the concatenation of their group lists |
| NetOutput.GroupListMembers | salt/modules/win_useradd.py:222-225 | a group is listed exactly when some non-empty piece, with its asterisks stripped, is that group |
| NetOutput.NotContainsInfix | salt/modules/win_useradd.py:221 | a string that does not contain a substring has no slice that contains it |
| NetOutput.GroupsHaveNoDoubleSpace | salt/modules/win_useradd.py:221-225 | no listed group contains two consecutive spaces |
| NetOutput.GroupListPair | salt/modules/win_useradd.py:222-225 | two non-empty pieces give their two groups, asterisks stripped, in order |
| NetOutput.OddRunSplit | salt/modules/win_useradd.py:221 | splitting `"*Users   *Admins"` on two spaces cuts at the first two of the three spaces |
| NetOutput.OddRunStrip | salt/modules/win_useradd.py:225 | `strip('*')` turns `"*Users"` into `"Users"` and leaves `" *Admins"` unchanged |
| NetOutput.OddRunGroups | salt/modules/win_useradd.py:221-225 | the field `"*Users   *Admins"` gives the groups `"Users"` and `" *Admins"` |
| NetOutput.ParseGroups | salt/modules/win_useradd.py:220-225 | the loop over the pieces builds the group list of the split |
| NetOutput.FirstMissing | salt/modules/win_useradd.py:227-233 | gives no label exactly when every required label is present; otherwise it gives one that is absent |
| NetOutput.RecordMissing | salt/modules/win_useradd.py:227-233 | the first absent required label, in the order the source reads them, is the key of the `KeyError` |
| NetOutput.BuildRecord | salt/modules/win_useradd.py:227-237 | building the record gives `Record(items)`, the record of the seven labels when all are present, with gid `''` |
| NetOutput.ReadLine | salt/modules/win_useradd.py:215-219 | one line updates `items` as `LineEntry` of that line says |
| NetOutput.ParseInfo | salt/modules/win_useradd.py:208-237 | the loop over the lines computes `InfoOf` of the output |
| NetOutput.InfoNotFoundIff | salt/modules/win_useradd.py:212-214 | `info` returns the empty dict exactly when some line contains "name could not be found" |
| NetOutput.NotFoundAnywhere | salt/modules/win_useradd.py:212-214 | a not-found line anywhere in the output, before or after any other lines, all ended by one and the same boundary and with or without an unterminated last line, makes the result not-found |
| NetOutput.NotFoundOnLastLine | salt/modules/win_useradd.py:212-214 | a not-found marker on an unterminated last line makes the result not-found |
| NetOutput.InfoWithoutMarker | salt/modules/win_useradd.py:212-237 | without a not-found line the result is the record of the items of all lines |
| NetOutput.LabelLine | salt/modules/win_useradd.py:216-219 | a `label    value` line whose label holds no four-space run yields the stripped label and value; spaces at the end of the label move the cut left, and `strip()` removes them from both pieces |
| NetOutput.SortedGroups | salt/modules/win_useradd.py:248-256 | the groups are sorted strictly, with exactly the account's groups, as `sorted(list(set(...)))` |
| NetOutput.ListGroupsOf | salt/modules/win_useradd.py:249-256 | `list_groups` is False exactly when `info` finds no record; otherwise it is strictly sorted with exactly the account's groups |
| NetOutput.ListGroupsDeterministic | salt/modules/win_useradd.py:256 | any strictly sorted listing of the account's groups is the one `list_groups` returns |
| NetOutput.ParseUserList | salt/modules/win_useradd.py:270-282 | the loop over the lines of `net user` computes `UserListOf` of the output |
| NetOutput.UserNamesAreTokens | salt/modules/win_useradd.py:281-282 | every enumerated name is a non-empty token without whitespace |
| NetOutput.NamesFollowFirstDivider | salt/modules/win_useradd.py:275-278 | names are taken only from the lines after the first divider |
| NetOutput.NoDividerNoNames | salt/modules/win_useradd.py:275-279 | output without a divider enumerates no account |
| NetOutput.UserNamesAppend | salt/modules/win_useradd.py:282 | the names of concatenated lines are the concatenation of their names |
| NetOutput.UserNamesOfLine | salt/modules/win_useradd.py:280-282 | a line after the divider contributes its `split()` tokens, unless it holds "successfully" |
| NetOutput.StatusLineExcluded | salt/modules/win_useradd.py:280 | the trailing "completed successfully" line adds no name |
| UserSpec.ChangesAppend | salt/modules/win_useradd.py:88-89 | the changing commands of a concatenated history are those of its parts, in order |
| UserSpec.ChangesMembers | salt/modules/win_useradd.py:210 | `Changes` keeps exactly the commands that are not `net user` reads |
| UserSpec.SetCommand | salt/modules/win_useradd.py:126-127 | the `/homedir`, `/profilepath` and `/fullname` commands are changing commands |
| UserSpec.AddGroupOf | salt/modules/win_useradd.py:75-91 | no account gives False, a missing label gives KeyError and membership already held gives True, all without a change; otherwise exactly one `/add` follows the read and the result is its exit status |
| UserSpec.RemoveGroupOf | salt/modules/win_useradd.py:94-110 | no account gives False, a missing label gives KeyError and no membership gives True, all without a change; otherwise exactly one `/delete` follows the read and the result is its exit status |
| UserSpec.Decide | salt/modules/win_useradd.py:129-131 | when a change was asked for, the verdict holds exactly when the re-read value is the requested one |
| UserSpec.ChangeFieldOf | salt/modules/win_useradd.py:113-172 | read, set and re-read; the verdict is whether the re-read value equals the requested one; a re-read of a vanished account raises KeyError on the field key; nothing is set when the account is missing or already has the value |
| UserSpec.Requested | salt/modules/win_useradd.py:184-185 | the requested groups: a string split on commas, a list as given |
| UserSpec.Adds | salt/modules/win_useradd.py:193-195 | one `/add` per requested group, in the requested order |
| UserSpec.Deletes | salt/modules/win_useradd.py:190-192 | one `/delete` per group read, in the order read |
| UserSpec.ChangesOfWrites | salt/modules/win_useradd.py:190-195 | a run of `net localgroup` commands consists only of changes |
| UserSpec.Teardown | salt/modules/win_useradd.py:189-192 | the second read and its deletes without `append`, nothing with it; stated by `UserSpec.ChGroupsReplace`, `UserSpec.ChGroupsAppend` and `UserSpec.ChGroupsTeardownTypeError` |
| UserSpec.ChGroupsOf | salt/modules/win_useradd.py:175-197 | the commands and result of `chgroups`; stated by `UserSpec.ChGroupsSatisfied`, `UserSpec.ChGroupsIssued`, `UserSpec.ChGroupsAppend`, `UserSpec.ChGroupsReplace`, `UserSpec.ChGroupsVerdict` and the TypeError lemmas |
| UserSpec.ChGroupsSatisfied | salt/modules/win_useradd.py:186-188 | when the groups held equal the groups requested as sets, the call returns True after one read and changes nothing |
| UserSpec.ChGroupsIssued | salt/modules/win_useradd.py:189-196 | the changing commands are those of the teardown followed by the adds |
| UserSpec.ChGroupsAppend | salt/modules/win_useradd.py:189-195 | with `append`, the changes are exactly the adds of the requested groups, and no `/delete` is issued |
| UserSpec.ChGroupsReplace | salt/modules/win_useradd.py:189-195 | without `append`, the changes are the deletes of every group of the second read, then the adds of the requested groups |
| UserSpec.ChGroupsVerdict | salt/modules/win_useradd.py:196-197 | the result is True exactly when every group held before the call is held after all the commands |
| UserSpec.ChGroupsTypeError | salt/modules/win_useradd.py:186 | when the first `list_groups` gives False (no account, or a label missing from its record), the call raises TypeError after that single read; an account with no groups gives `[]` and raises nothing |
| UserSpec.ChGroupsTeardownTypeError | salt/modules/win_useradd.py:189-190 | without `append`, when the second `list_groups` gives False, the call raises TypeError after the two reads and changes nothing |
| UserSpec.ChGroupsOnlyTypeError | salt/modules/win_useradd.py:186-197 | the only exception the call raises is TypeError: the KeyError of `info` never escapes |
| UserSpec.EntryOf | salt/modules/win_useradd.py:289-298 | an entry exists exactly when `info` found a record; the empty dict raises KeyError('name') and a missing label raises its KeyError |
| UserSpec.Queries | salt/modules/win_useradd.py:287-289 | one `net user <name>` per name, in order |
| UserSpec.EntriesOf | salt/modules/win_useradd.py:287-300 | the lookup loop of `getent`; stated by `UserSpec.EntriesIssued`, `UserSpec.EntriesStep`, `UserSpec.EntriesRecordAt`, `UserSpec.EntriesPrefix`, `UserSpec.EntriesFailure` and `UserSpec.EntriesStopAtError` |
| UserSpec.EntriesIssued | salt/modules/win_useradd.py:287-300 | the lookups issued are those of a prefix of the names; all names are looked up exactly when the call succeeds, with one entry per name |
| UserSpec.EntriesStep | salt/modules/win_useradd.py:287-300 | after lookups that all succeeded, the next name is looked up after them and its entry is appended, or its error raised |
| UserSpec.EntriesRecordAt | salt/modules/win_useradd.py:289-300 | each entry is the one built from that name's lookup, made after the earlier lookups |
| UserSpec.EntriesPrefix | salt/modules/win_useradd.py:287-300 | a successful call's entries for a prefix of the names are that prefix's own entries |
| UserSpec.EntriesFailure | salt/modules/win_useradd.py:289-290 | on failure the last lookup issued found no record or lacked a label, and all before it succeeded |
| UserSpec.EntriesFailLast | salt/modules/win_useradd.py:289-290 | when only the last lookup fails, the error is that lookup's own |
| UserSpec.EntriesStopAtError | salt/modules/win_useradd.py:287-300 | a failed lookup ends the loop: no later name is looked up |
| UserSpec.GetentOf | salt/modules/win_useradd.py:259-303 | a cached listing is returned without any command; otherwise the first command is the plain `net user` |
| UserSpec.GetentOnlyReads | salt/modules/win_useradd.py:259-303 | `getent` issues no changing command |
| UserSpec.NoChangesInQueries | salt/modules/win_useradd.py:287-289 | the lookups are only reads |
| UserSpec.GetentEntries | salt/modules/win_useradd.py:270-303 | without a cache, a successful call lists one entry per enumerated name, each built from that name's lookup |
| WinUserAdd.UserModule.constructor | salt/modules/win_useradd.py:267 | a new run has issued nothing and has no cached `user.getent` |
| WinUserAdd.UserModule.Execute | salt/modules/win_useradd.py:41 | runs one command: the history grows by it and the reply is the executor's |
| WinUserAdd.UserModule.Add | salt/modules/win_useradd.py:21-43 | issues `net user <name> /add` and reports a zero exit status |
| WinUserAdd.UserModule.Delete | salt/modules/win_useradd.py:46-58 | issues `net user <name> /delete` and reports a zero exit status |
| WinUserAdd.UserModule.SetPassword | salt/modules/win_useradd.py:61-72 | issues `net user <name> <password>` and reports a zero exit status |
| WinUserAdd.UserModule.Info | salt/modules/win_useradd.py:200-237 | issues `net user <name>` and returns `InfoOf` of its output |
| WinUserAdd.UserModule.ListGroups | salt/modules/win_useradd.py:240-256 | issues one read and returns `ListGroupsOf` of it |
| WinUserAdd.UserModule.AddGroup | salt/modules/win_useradd.py:75-91 | issues the commands of `AddGroupOf` and returns its result |
| WinUserAdd.UserModule.RemoveGroup | salt/modules/win_useradd.py:94-110 | issues the commands of `RemoveGroupOf` and returns its result |
| WinUserAdd.UserModule.ChangeField | salt/modules/win_useradd.py:121-131 | issues the commands of `ChangeFieldOf` and returns its result |
| WinUserAdd.UserModule.ChHome | salt/modules/win_useradd.py:113-131 | `ChangeFieldOf` on the home directory |
| WinUserAdd.UserModule.ChProfile | salt/modules/win_useradd.py:134-152 | `ChangeFieldOf` on the profile path |
| WinUserAdd.UserModule.ChFullName | salt/modules/win_useradd.py:154-172 | `ChangeFieldOf` on the full name |
| WinUserAdd.UserModule.RemoveAll | salt/modules/win_useradd.py:190-192 | the loop issues exactly `Deletes` of the groups read |
| WinUserAdd.UserModule.AddAll | salt/modules/win_useradd.py:193-195 | the loop issues exactly `Adds` of the requested groups |
| WinUserAdd.UserModule.ChGroups | salt/modules/win_useradd.py:175-197 | issues the commands of `ChGroupsOf` and returns its result |
| WinUserAdd.UserModule.LookupAll | salt/modules/win_useradd.py:287-300 | the loop issues the lookups of `EntriesOf` and returns its result, stopping at the first failed lookup |
| WinUserAdd.UserModule.Getent | salt/modules/win_useradd.py:259-303 | issues the commands of `GetentOf` and returns its result; a fresh successful listing is stored in the cache, and the cache is otherwise unchanged |

## Left out

- `list_users` (lines 305-322) is left out. It calls the foreign `win32net` bindings, and nothing of it is visible here.
- `__virtual__` (lines 14-18) is left out. It only tests the platform.
- Running the commands is left out: process creation, the shell, and the effect of `net` on the machine's accounts. The executor function stands in for all of these. Each command is a value of `UserSpec.Command`, not the formatted command line, so quoting and any injection through names are not modelled.
- `file.user_to_uid` is an opaque function of the account name.
- The string operations follow Python 3's `str`. Under Python 2, which this module's `string_types` import points to, `cmd.run` returns a byte string: its `split()` and `strip()` treat only ASCII whitespace as whitespace, and its `splitlines()` breaks only at `\n`, `\r` and `\r\n`. The model does not capture that byte-string behaviour.
- `add` ignores every parameter except `name`, and `delete` ignores `purge` and `force`. The model does not take them.
- UserSpec.ChGroupsOf: when `list_groups` returns False, `set(False)` or the iteration over it raises `TypeError`. The model states this failure as `Raised(TypeError)`, not as a precondition.
- UserSpec.ChGroupsVerdict: this is the code as written. The model proves no statement that `chgroups` leaves the account in exactly the requested groups, because that would depend on how `net localgroup` changes the machine.
- The trace lemmas of `UserSpec` hold for every reader of the detail view. The class instantiates that reader with `NetOutput.InfoOf`.
- The `__context__` cache is one field of one object. Sharing it between concurrent runs is not modelled.
- The `cmd.run` / `cmd.run_all` helpers both become the executor; the exit status `cmd.run` discards is simply unused. `__salt__['user.info']` in `getent` is taken to be this module's `info`.
