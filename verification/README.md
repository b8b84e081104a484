# turpial-cmd shell, modelled in Dafny

This project models the interactive shell of Turpial's command-line client
(`turpial-cmd.py`). The model covers:

- the validators behind every menu;
- the three prompt builders: message composer, account menu and protocol menu;
- the command handlers `add_account`, `edit_account`, `login`, `show`, `post`,
  `exit` and `EOF`;
- the renderers that print statuses and profiles.

The account/service core (`libturpial`'s `Core`) is a black box. It appears as:

- a list of account ids of the form `username-protocol`;
- a list of protocols;
- the result each call returns: a code (positive means error), an error
  message, and the items it carries.

Everything is a pure function. User input is a finite sequence of lines that a
handler consumes from the front. Every handler and menu returns a `Run` with
one of three outcomes:

- `Ok(value, rest, out)`: the value, the unread input, and the printed output,
  one entry per Python `print` statement.
- `Eof(out)`: `raw_input` hit end of input.
- `Crash(out)`: `acc.split('-')[1]` raised `IndexError` on an id without `-`.

The modules follow the program's structure:

- `Builtins` (builtins.dfy): the Python 2 built-ins the shell relies on.
  - `int()` on a byte string. It allows surrounding whitespace, one sign, and
    whitespace between the sign and the digits.
  - `'%d'` formatting, `str.split`, `str.lower`, `str.replace`.
  - `repr()` of a list of byte strings.
  - The truthiness of `None`/`True`/`False`.
- `Validate` (validate.dfy): `__validate_index`, `__validate_accounts` and
  `__validate_arguments`.
- `AccountId` (accountid.dfy): taking an id apart with `split('-')`.
- `Prompts` (prompts.dfy): the generic retry loop `Ask` and the three prompt
  builders.
- `Render` (render.dfy): `show_statuses` and `show_profiles`.
- `Shell` (shell.dfy): the command handlers and the command dispatch.

Design decisions:

- The validator returns a `PyObj` (`None` or a bool). This keeps the branch
  that falls off the end of the `except ValueError` block and returns `None`.
- The index validator follows Python semantics:
  - integer answers in `-n <= k < n` are accepted, so negative indices count
    from the end;
  - `'  2 '` and `'- 1'` parse.
- The password that `getpass` reads is taken as the next line of the same input.
- Each handler reports the core calls it made, in order, next to its return
  value and output.

Two behaviours of `turpial-cmd.py` worth knowing:

- `edit_account` and `show` call the account menu without `_all`, so a blank
  answer is never accepted there.
- `show` accepts `favs`, but no branch handles it. Only the unreachable
  `favorites` branch would fetch favourites.

## Model

| member | source | states |
|---|---|---|
| Validate.ValidateIndex | turpial-cmd/turpial-cmd.py:82-97 | The answer is accepted exactly when `int()` reads an integer k with -n <= k < n, or the answer is empty and blank is allowed. The result is `None` exactly when the answer is non-empty, not an integer, and blank is not allowed. |
| Validate.PyIndex | turpial-cmd/turpial-cmd.py:84 | An accepted, possibly negative, index names a real position below n, congruent to k modulo n (Python's `array[k]`). |
| Validate.NegativeIndexAccepted | turpial-cmd/turpial-cmd.py:82-85 | Every `-j` with 1 <= j <= n is accepted and selects item n - j. |
| Validate.PaddedIndex | turpial-cmd/turpial-cmd.py:84 | An index surrounded by whitespace is accepted exactly when it is in range. |
| Validate.EmptyListRejectsIntegers | turpial-cmd/turpial-cmd.py:84-87 | With an empty list, no integer answer is accepted, whatever blank says. |
| Validate.ValidateAccounts | turpial-cmd/turpial-cmd.py:99-103 | Definition of the account gate: it passes exactly when an account is registered, printing the notice otherwise. Its consequence for `show` is stated by Shell.ShowGate. |
| Validate.ValidateArguments | turpial-cmd/turpial-cmd.py:105-110 | Definition of the argument gate: it passes exactly when the value is in the allowed list, printing "Argument invalid" otherwise. Its consequence for `show` is stated by Shell.ShowGate. |
| Builtins.ParseIntRoundTrip | turpial-cmd/turpial-cmd.py:84 | `int()` reads back every formatted integer, whatever whitespace surrounds it. |
| Builtins.ParseIntShape | turpial-cmd/turpial-cmd.py:84 | A string `int()` accepts contains at least one digit and otherwise only whitespace, signs and digits. |
| Builtins.LowerIsY | turpial-cmd/turpial-cmd.py:120 | `t.lower() == 'y'` holds exactly for "y" and "Y". |
| Builtins.ReplaceChar | turpial-cmd/turpial-cmd.py:479 | The replacement keeps the length, turns every newline into a blank, and changes nothing else. |
| Builtins.JoinSplit | turpial-cmd/turpial-cmd.py:134 | Joining the fields of `split('-')` with '-' gives the id back. |
| Builtins.SplitJoin | turpial-cmd/turpial-cmd.py:180-181 | Splitting '-'-joined fields that hold no '-' gives the fields back. |
| Builtins.SplitHasSecondField | turpial-cmd/turpial-cmd.py:181 | `split('-')` has a second field exactly when the string holds a '-'. |
| Builtins.ReprPlain | turpial-cmd/turpial-cmd.py:489 | A plain printable name is rendered by `repr` between single quotes, unchanged. |
| AccountId.Protocol | turpial-cmd/turpial-cmd.py:181 | The protocol part exists exactly when the id holds a '-'; otherwise `[1]` raises IndexError. |
| AccountId.ExtractParts | turpial-cmd/turpial-cmd.py:180-181 | Both the username and the protocol come back from a `username-protocol` id whose parts hold no '-'. |
| AccountId.HyphenatedUsernameCut | turpial-cmd/turpial-cmd.py:134 | A username whose first '-' is at position i comes back from its id as exactly its first i characters, so it never survives the round trip. |
| Prompts.Ask | turpial-cmd/turpial-cmd.py:130-143 | The retry loop never raises. It runs out of input exactly when no answer is accepted. Otherwise it returns the first accepted answer and leaves the rest unread. The listing is printed once per answer read and the rejection line once per rejected answer. |
| Prompts.BuildMessageMenu | turpial-cmd/turpial-cmd.py:112-123 | Empty text gives `None` and a notice. Text of at most 140 characters is returned unchanged without a second question. For longer text, the answers "", "y" and "Y" give exactly its first 140 characters and every other answer gives `None`. A returned message is a non-empty prefix of at most 140 characters. |
| Prompts.AccountListing | turpial-cmd/turpial-cmd.py:133-135 | The menu lines number the listable ids in order from 0 and stop at the first id without '-'. |
| Prompts.Selection | turpial-cmd/turpial-cmd.py:144-147 | An empty accepted answer selects "" (which needs blank). Any other answer is an integer k, and the item at Python index k (counting from the end when negative) is selected. |
| Prompts.BuildAccountsMenu | turpial-cmd/turpial-cmd.py:125-147 | With exactly one account, that account is returned without reading input. Any result is "" or a registered id. |
| Prompts.AccountsMenuCrash | turpial-cmd/turpial-cmd.py:132-135 | With two or more accounts (or none), the menu raises before reading exactly when some id has no '-', having printed the header and the lines before that id. |
| Prompts.AccountsMenuRetries | turpial-cmd/turpial-cmd.py:129-143 | With listable ids, the menu never raises and runs out of input exactly when no answer is accepted. |
| Prompts.AccountsMenuViaAsk | turpial-cmd/turpial-cmd.py:129-147 | With listable ids, the menu is the retry loop over its listing, with the index check and "Invalid account", followed by the selection. So an accepting menu consumed the answers up to the first accepted one, printed the listing once per answer read, and selected "" exactly for an empty answer, which needs blank. |
| Prompts.SelectionBlank | turpial-cmd/turpial-cmd.py:144-147 | Selecting among listable ids gives "" exactly for the empty answer. |
| Prompts.BuildProtocolsMenu | turpial-cmd/turpial-cmd.py:149-161 | The protocol menu never raises. It returns a listed protocol, and runs out of input exactly when no answer is accepted (the empty answer never is). |
| Prompts.ProtocolsMenuSelects | turpial-cmd/turpial-cmd.py:152-161 | The result is the protocol indexed by the first accepted answer, which is an integer. Nothing after that answer is read. The menu prints "Available protocols:" and the `[i] protocol` lines once per answer read, and "Invalid protocol" once per rejected answer, also when the input runs out. |
| Prompts.NoProtocolsNeverReturns | turpial-cmd/turpial-cmd.py:149-161 | With no protocols, the menu asks until the input ends. |
| Render.StatusBlocks | turpial-cmd/turpial-cmd.py:477-491 | Definition of the per-status blocks, the i-th numbered first + i. The loop's output is stated against it by Render.StatusLines. |
| Render.StatusLines | turpial-cmd/turpial-cmd.py:477-491 | The printing loop outputs the status blocks one after the other, numbered consecutively. |
| Render.ShowStatuses | turpial-cmd/turpial-cmd.py:472-491 | An error result prints only its message. A success prints every status block, numbered consecutively from 1. |
| Render.StatusBlockShape | turpial-cmd/turpial-cmd.py:479-490 | A block has three lines, or four when the status was reposted. It ends with an empty line and starts with "<count>. @". Its first line has no newline from the text. |
| Render.RetweetLineIsListRepr | turpial-cmd/turpial-cmd.py:485-489 | The repost line shows the list's repr, ending in ']'. It differs from the blank-separated names built just before it. |
| Render.RetweetLineOfOne | turpial-cmd/turpial-cmd.py:489 | A single plain reposter is shown as `['name']`. |
| Render.ProfileBlocks | turpial-cmd/turpial-cmd.py:504-516 | Definition of the per-profile blocks, one per profile in order. The loop's output is stated against it by Render.ProfileLines. |
| Render.ProfileLines | turpial-cmd/turpial-cmd.py:504-516 | The printing loop outputs the profile blocks one after the other. |
| Render.ShowProfiles | turpial-cmd/turpial-cmd.py:499-516 | An error result prints only its message. A success prints one block per profile. |
| Render.ProfileHeaderLength | turpial-cmd/turpial-cmd.py:505-509 | The header is 6 + the two names' lengths, plus 11 for each mark shown. |
| Render.ProfileRuleMatchesHeader | turpial-cmd/turpial-cmd.py:510-516 | The rule under the header is all dashes and exactly as long as the header. A block has five lines, six with a last update. |
| Render.Dashes | turpial-cmd/turpial-cmd.py:511 | Definition of `'-' * n`. Its use as the rule under the header is stated by Render.ProfileRuleMatchesHeader. |
| Shell.Broadcast | turpial-cmd/turpial-cmd.py:189-194 | One core call per account, in list order. Each is followed by the error message or the success notice naming the username. |
| Shell.HandleAddAccount | turpial-cmd/turpial-cmd.py:169-174 | Registers the typed username and password on a listed protocol, then prints "Account added". It never raises. |
| Shell.AddAccountSelects | turpial-cmd/turpial-cmd.py:169-174 | The username and password are the first two lines. The call registers them on exactly the protocol the protocol menu returned, leaves the menu's unread rest, and prints "Account added" after the menu's output. End of input in the menu ends the handler the same way. |
| Shell.HandleEditAccount | turpial-cmd/turpial-cmd.py:176-183 | With no accounts, it refuses without reading input. Otherwise it re-registers the username and protocol of a registered id. |
| Shell.EditAccountSelects | turpial-cmd/turpial-cmd.py:176-183 | After an accepting account menu, the password is the next line. The call re-registers the selected id's username and protocol with that password, and "Account edited" follows the menu's output. If the id has no '-', the handler raises after reading the password. If the input ends there, it stops. |
| Shell.EditSoleUnlistableAccount | turpial-cmd/turpial-cmd.py:176-181 | A sole account without '-' is selected without a listing. The handler then reads the password and raises, printing nothing. |
| Shell.HandleLogin | turpial-cmd/turpial-cmd.py:185-200 | With no accounts, it refuses without reading input. Every call is a login on a registered account. The returned value is falsy. |
| Shell.HandlePost | turpial-cmd/turpial-cmd.py:257-275 | With no accounts, it refuses without reading input. Every call posts a non-empty message of at most 140 characters on a registered account. The returned value is falsy. |
| Shell.AccountSummary | turpial-cmd/turpial-cmd.py:469-470 | One `* username - protocol` line per id, in order, up to the first id without '-'. |
| Shell.ShowAccounts | turpial-cmd/turpial-cmd.py:467-470 | `show accounts` raises exactly when some id has no '-'. Either way it prints the header followed by the summary lines (up to the bad id), so a success prints one line per account. |
| Shell.ShowBranch | turpial-cmd/turpial-cmd.py:213-244 | Exactly the four columns, favorites, myprofile and userprofile make one call, on the chosen account; a column request is always for the argument's column, and that the column arguments make one is stated by Shell.ColumnArguments. A column call prints the statuses renderer's output for the core's reply, and a profile call prints the profiles renderer's. `userprofile` reads the user name as the next line, and only it reads input. Everything else prints the fallback text. |
| Shell.HandleShow | turpial-cmd/turpial-cmd.py:202-244 | `show` makes at most one core call and never returns a true value. |
| Shell.ShowOnSelectedAccount | turpial-cmd/turpial-cmd.py:211-244 | Past the gates, `show` runs its branch on the account the menu selected, with the rest of the input after the menu, and prints the menu's output first. A menu that raises or runs out of input ends `show` the same way. |
| Shell.HandleExit | turpial-cmd/turpial-cmd.py:355-361 | `exit`/`EOF` print exactly one empty line, make no call, read nothing, and return True. |
| Shell.Handle | turpial-cmd/turpial-cmd.py:163-167 | An empty line (`emptyline`) prints nothing, reads nothing, makes no call and returns `None`. An unknown command (`default`) prints exactly the fallback text and otherwise does the same. `show` dispatches to its handler with the argument, and `exit`/`EOF` to the exit handler. |
| Shell.OnlyExitStops | turpial-cmd/turpial-cmd.py:163-167 | A handler hands the loop a true value exactly for `exit` and `EOF`. |
| Shell.ShowAccountsBypassesChecks | turpial-cmd/turpial-cmd.py:202-205 | `show accounts` makes no call, reads no input and never runs out of input, whether or not accounts exist. Its output is exactly that of the account summary (header plus lines), and it raises exactly on an id without '-'. |
| Shell.ShowGate | turpial-cmd/turpial-cmd.py:207-210 | With no accounts, or with an argument outside the allowed list, `show` returns False. It makes no call, reads nothing, and prints the notice or "Argument invalid" plus the help. |
| Shell.ColumnArguments | turpial-cmd/turpial-cmd.py:213-227 | `timeline`, `replies`, `directs`, `sent` and `favorites` each make exactly one column request on the chosen account for their own column, and read no input. |
| Shell.ShowReachesCore | turpial-cmd/turpial-cmd.py:32-35 | Of the accepted arguments, exactly timeline, replies, directs, sent, myprofile and userprofile reach the core. The rest end with the fallback text. |
| Shell.FavoritesUnreachable | turpial-cmd/turpial-cmd.py:225-227 | No argument makes `show` fetch the favorites column. |
| Shell.LoginFanOut | turpial-cmd/turpial-cmd.py:187-200 | A blank selection logs in to every account in list order. Any other selection logs in to that account alone. The output is the menu's, followed by one report per login (the error message or the success notice). A menu that raises or runs out of input ends `login` the same way, with the menu's output. |
| Shell.PostFanOut | turpial-cmd/turpial-cmd.py:262-275 | A blank selection posts the message on every account in list order. Any other selection posts on that account alone. The output is the composer's, then the menu's, then one report per post. Nothing after the menu's answer is read. A menu that raises or runs out of input ends `post` the same way, after the composer's and menu's output. |
| Shell.PostComposerEof | turpial-cmd/turpial-cmd.py:259 | End of input inside the composer ends `post` with the composer's output, before the account menu. |
| Shell.PostWithoutMessage | turpial-cmd/turpial-cmd.py:259-260 | Without a message, `post` returns False before the account menu, with no further input and no call. |

## Left out

- Process start-up is not modelled, because it is environment plumbing. This covers option parsing, logging, the `--clean`/`--version` exits, the `prctl` call and `cmdloop` itself.
- The start-up code's recovery path on EOFError (line 80) is not modelled. It calls `do_exit()` without its argument, which would raise TypeError. End of input inside any prompt is therefore reported as `Eof` instead. This covers `add_account`, `edit_account`, `login`, `show`, `post` and both menus.
- `config.py` is not part of this model. It only creates files and directories.
- The `libturpial` core is not modelled. It is a stateless record: the account list, the protocol list and a reply function per kind of result. Registering or logging in does not change later replies.
- `cmd.Cmd`'s parsing of a command line into a handler name and argument is not modelled. A `Command` value stands for the parsed line. `readline`, the prompt text passed to `raw_input` and `getpass`, and echoing are not modelled either.
- `do_search`, `do_follow`, `do_unfollow`, `get_tweet_id`, `show_following` and `show_followers` are not modelled. They use `self.controller`, which is never assigned.
- The string literal at lines 282-354 is not modelled, because it is not code.
- The `help_*` texts, `show_trends` and `show_shorten_url` are not modelled. They are fixed text with no logic. Only the `help_show` text and the fallback text that `show` and `default` print are kept.
- Validate.ValidateIndex: the `except TypeError` branch is not modelled. The answer always comes from `raw_input`, so it is never `None`.
- Prompts.BuildMessageMenu: lengths are counted in characters. Python 2 counts the bytes of the typed text, so the two differ for non-ASCII input.
- Builtins.Repr models byte strings only. Characters above 0xFF are escaped by their low byte, and `unicode` reposter names (repr `u'...'`) are not modelled.
- Render.ShowStatuses and Render.ShowProfiles iterate over the result's `items`. The result object's own iteration protocol is not part of this model.
