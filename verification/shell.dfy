/**
 The command handlers of the shell: adding and editing accounts, logging in,
 showing columns and profiles, posting, and leaving. The account/service core
 is a record of its account list, its protocol list and the replies it gives to
 each call; a handler reports the value it returns, the core calls it makes (in
 order) and what it prints.
 */
module Shell {
  import opened Builtins
  import opened Validate
  import opened AccountId
  import opened Prompts
  import opened Render

  /** The arguments `show` accepts. */
  const ShowArguments: seq<string> := [
    "accounts", "timeline", "replies", "directs", "sent", "favs",
    "rates", "trends", "following", "followers", "myprofile", "userprofile"]

  /** The accepted `show` arguments that end in a core call. */
  const CoreShowArguments: set<string> := {"timeline", "replies", "directs", "sent", "myprofile", "userprofile"}

  const Intro1 := "Type \"help\" to get a list of available commands."
  const Intro2 := "Type \"help <command>\" to get a detailed help about that command"
  /** What the fallback handler prints, as one `print` of three joined lines. */
  const NotFoundMessage := "Comando no encontrado.\n" + Intro1 + "\n" + Intro2
  const HelpShowText :=
    "Muestra los distintos mensajes del usuario\nshow <arg>\n"
    + "  <arg>: Lo que se desea ver. Valores posibles: tweets, replies, directs, favs, rates, trends, profile, following, followers"
  const AccountAddedMessage := "Account added"
  const AccountEditedMessage := "Account edited"

  datatype Column = Timeline | Replies | Directs | Sent | Favorites

  /** A call into the core. */
  datatype Call =
    | RegisterAccount(username: string, password: string, protocol: string)
    | LoginAccount(account: string)
    | UpdateStatus(account: string, message: string)
    | GetColumnStatuses(account: string, column: Column)
    | GetOwnProfile(account: string)
    | GetUserProfile(account: string, user: string)

  /**
   The core as the shell sees it: the registered account ids in listing order,
   the supported protocols, and the result each call produces.
   */
  datatype Core = Core(
    accounts: seq<string>,
    protocols: seq<string>,
    ack: Call -> Response<()>,
    statuses: Call -> Response<Status>,
    profiles: Call -> Response<Profile>)

  /** What a handler hands back to the command loop, with the core calls it made. */
  datatype Handled = Handled(ret: PyObj, calls: seq<Call>)

  /** Calls made and lines printed by a stretch of a handler that reads no input. */
  datatype Effect = Effect(calls: seq<Call>, out: seq<string>)

  /** The two operations the shell can apply to one account or to every account. */
  datatype Action = Authenticate | Publish(message: string)
  {
    function CallOn(account: string): Call
    {
      match this
      case Authenticate => LoginAccount(account)
      case Publish(m) => UpdateStatus(account, m)
    }

    function Done(): string
    {
      match this
      case Authenticate => "Logged in with account "
      case Publish(_) => "Message posted in account "
    }
  }

  /** The line printed after applying `action` to `account`: the error message, or the success notice. */
  function Report(core: Core, action: Action, account: string): string
  {
    var rtn := core.ack(action.CallOn(account));
    if rtn.code > 0 then rtn.errmsg else action.Done() + Username(account)
  }

  /** Apply `action` to each of `accounts` in order, one call and one report line each. */
  function Broadcast(core: Core, action: Action, accounts: seq<string>): (e: Effect)
    ensures |e.calls| == |accounts| && |e.out| == |accounts|
    ensures forall i :: 0 <= i < |accounts| ==> e.calls[i] == action.CallOn(accounts[i])
    ensures forall i :: 0 <= i < |accounts| ==> e.out[i] == Report(core, action, accounts[i])
    decreases |accounts|
  {
    if |accounts| == 0 then Effect([], [])
    else
      var tail := Broadcast(core, action, accounts[1..]);
      Effect([action.CallOn(accounts[0])] + tail.calls, [Report(core, action, accounts[0])] + tail.out)
  }

  /** The fan-out after the account menu: "" means every registered account, anything else that one account. */
  function FanOut(core: Core, action: Action, selection: string): Effect
  {
    if selection == "" then Broadcast(core, action, core.accounts) else Broadcast(core, action, [selection])
  }

  // ---------------------------------------------------------------------------
  // Handlers
  // ---------------------------------------------------------------------------

  /** `add_account`: read a username and a password, pick a protocol, register. */
  function HandleAddAccount(core: Core, input: seq<string>): (r: Run<Handled>)
    ensures !r.Crash?
    ensures |input| < 2 ==> r == Eof([])
    ensures r.Ok? ==>
      && r.value.ret == PyNone
      && |r.value.calls| == 1
      && r.value.calls[0].RegisterAccount?
      && r.value.calls[0].username == input[0]
      && r.value.calls[0].password == input[1]
      && r.value.calls[0].protocol in core.protocols
      && |r.out| > 0 && r.out[|r.out| - 1] == AccountAddedMessage
  {
    if |input| < 2 then Eof([])
    else match BuildProtocolsMenu(core.protocols, input[2..])
      case Ok(protocol, rest, out) =>
        Ok(Handled(PyNone, [RegisterAccount(input[0], input[1], protocol)]), rest, out + [AccountAddedMessage])
      case Eof(out) => Eof(out)
  }

  /**
   `add_account` registers the typed username and password on the protocol the
   protocol menu returned, and prints "Account added" after the menu's output.
   */
  lemma AddAccountSelects(core: Core, input: seq<string>)
    requires |input| >= 2
    ensures var m := BuildProtocolsMenu(core.protocols, input[2..]);
      var r := HandleAddAccount(core, input);
      && (m.Eof? ==> r == Eof(m.out))
      && (m.Ok? ==> r == Ok(Handled(PyNone, [RegisterAccount(input[0], input[1], m.value)]), m.rest, m.out + [AccountAddedMessage]))
  {
  }

  /**
   `edit_account`: pick an account (blank not allowed), read a new password and
   register the account's username and protocol again. An id without '-' raises
   IndexError when its protocol is taken.
   */
  function HandleEditAccount(core: Core, input: seq<string>): (r: Run<Handled>)
    ensures |core.accounts| == 0 ==> r == Ok(Handled(PyBool(false), []), input, [NoAccountsMessage])
    ensures r.Ok? && |core.accounts| > 0 ==>
      && r.value.ret == PyNone
      && |r.value.calls| == 1
      && r.value.calls[0].RegisterAccount?
      && exists a :: a in core.accounts && Username(a) == r.value.calls[0].username
                     && Protocol(a) == Some(r.value.calls[0].protocol)
  {
    var check := ValidateAccounts(core.accounts);
    if !check.passed then Ok(Handled(PyBool(false), []), input, check.out)
    else match BuildAccountsMenu(core.accounts, false, input)
      case Crash(out) => Crash(out)
      case Eof(out) => Eof(out)
      case Ok(account, rest, out) =>
        if |rest| == 0 then Eof(out)
        else match Protocol(account)
          case None => Crash(out)
          case Some(protocol) =>
            assert account in core.accounts;
            Ok(Handled(PyNone, [RegisterAccount(Username(account), rest[0], protocol)]), rest[1..],
               out + [AccountEditedMessage])
  }

  /** `login`: pick an account or blank for all, and log in to each selected account. */
  function HandleLogin(core: Core, input: seq<string>): (r: Run<Handled>)
    ensures |core.accounts| == 0 ==> r == Ok(Handled(PyBool(false), []), input, [NoAccountsMessage])
    ensures r.Ok? ==> !r.value.ret.Truthy()
    ensures r.Ok? ==> forall c :: c in r.value.calls ==> c.LoginAccount? && c.account in core.accounts
  {
    var check := ValidateAccounts(core.accounts);
    if !check.passed then Ok(Handled(PyBool(false), []), input, check.out)
    else match BuildAccountsMenu(core.accounts, true, input)
      case Crash(out) => Crash(out)
      case Eof(out) => Eof(out)
      case Ok(account, rest, out) =>
        var e := FanOut(core, Authenticate, account);
        Ok(Handled(PyNone, e.calls), rest, out + e.out)
  }

  /**
   `post`: compose a message; with no message stop and return False before
   choosing an account; otherwise pick an account or blank for all and post to
   each selected account.
   */
  function HandlePost(core: Core, input: seq<string>): (r: Run<Handled>)
    ensures |core.accounts| == 0 ==> r == Ok(Handled(PyBool(false), []), input, [NoAccountsMessage])
    ensures r.Ok? ==> !r.value.ret.Truthy()
    ensures r.Ok? ==>
      forall c :: c in r.value.calls ==>
        c.UpdateStatus? && c.account in core.accounts && 0 < |c.message| <= MaxLength
  {
    var check := ValidateAccounts(core.accounts);
    if !check.passed then Ok(Handled(PyBool(false), []), input, check.out)
    else match BuildMessageMenu(input)
      case Eof(out) => Eof(out)
      case Ok(message, rest, out) =>
        if message.None? then Ok(Handled(PyBool(false), []), rest, out)
        else match BuildAccountsMenu(core.accounts, true, rest)
          case Crash(out') => Crash(out + out')
          case Eof(out') => Eof(out + out')
          case Ok(account, rest', out') =>
            var e := FanOut(core, Publish(message.value), account);
            Ok(Handled(PyNone, e.calls), rest', out + out' + e.out)
  }

  /** The lines `* username - protocol` of `show accounts`, up to the first id without '-'. */
  function AccountSummary(accounts: seq<string>): (lines: seq<string>)
    ensures |lines| <= |accounts|
    ensures |lines| < |accounts| ==> !Listable(accounts[|lines|])
    ensures forall i :: 0 <= i < |lines| ==>
      Protocol(accounts[i]).Some?
      && lines[i] == "* " + Username(accounts[i]) + " - " + Protocol(accounts[i]).value
    decreases |accounts|
  {
    if |accounts| == 0 then []
    else match Protocol(accounts[0])
      case None => []
      case Some(p) =>
        var tail := AccountSummary(accounts[1..]);
        assert forall i :: 1 <= i < |accounts| ==> accounts[1..][i - 1] == accounts[i];
        ["* " + Username(accounts[0]) + " - " + p] + tail
  }

  /** `show accounts`: list every registered account; an id without '-' raises IndexError. */
  function ShowAccounts(accounts: seq<string>): (r: Run<Handled>)
    ensures r.Crash? <==> exists i :: 0 <= i < |accounts| && !Listable(accounts[i])
    ensures r.Ok? ==> |r.out| == |accounts| + 1
    ensures r.Ok? ==> r.out == [AccountsHeader] + AccountSummary(accounts)
    ensures r.Crash? ==> r.out == [AccountsHeader] + AccountSummary(accounts)
  {
    var lines := AccountSummary(accounts);
    var out := [AccountsHeader] + lines;
    if |lines| < |accounts| then Crash(out)
    else Ok(Handled(PyNone, []), [], out)
  }

  /** The column each `show` argument names in the branch chain; "favorites" is never an accepted argument. */
  function ColumnOf(arg: string): Option<Column>
  {
    if arg == "timeline" then Some(Timeline)
    else if arg == "replies" then Some(Replies)
    else if arg == "directs" then Some(Directs)
    else if arg == "sent" then Some(Sent)
    else if arg == "favorites" then Some(Favorites)
    else None
  }

  /**
   The branch chain of `show` once an account has been chosen: the four
   columns, "favorites", "myprofile" and "userprofile" make one core call on
   the chosen account; anything else prints the fallback text.
   */
  function ShowBranch(core: Core, arg: string, account: string, rest: seq<string>): (r: Run<Handled>)
    ensures !r.Crash?
    ensures r.Eof? <==> arg == "userprofile" && |rest| == 0
    ensures r.Ok? ==> r.value.ret == PyNone
    ensures r.Ok? ==>
      (|r.value.calls| == 1 <==> arg in CoreShowArguments || arg == "favorites")
    ensures r.Ok? ==> |r.value.calls| <= 1 && forall c :: c in r.value.calls ==> !c.RegisterAccount? && c.account == account
    ensures r.Ok? && r.value.calls == [] ==> r.out == [NotFoundMessage]
    ensures r.Ok? ==> forall c :: c in r.value.calls && c.GetColumnStatuses? ==> ColumnOf(arg) == Some(c.column)
    ensures r.Ok? && |r.value.calls| == 1 && r.value.calls[0].GetColumnStatuses? ==>
      r.out == ShowStatuses(core.statuses(r.value.calls[0]))
    ensures r.Ok? && |r.value.calls| == 1 && !r.value.calls[0].GetColumnStatuses? ==>
      r.out == ShowProfiles(core.profiles(r.value.calls[0]))
    ensures arg == "myprofile" ==> r.Ok? && r.value.calls == [GetOwnProfile(account)]
    ensures arg == "userprofile" && |rest| > 0 ==>
      r.Ok? && r.value.calls == [GetUserProfile(account, rest[0])] && r.rest == rest[1..]
    ensures r.Ok? && arg != "userprofile" ==> r.rest == rest
  {
    match ColumnOf(arg)
    case Some(column) =>
      var c := GetColumnStatuses(account, column);
      Ok(Handled(PyNone, [c]), rest, ShowStatuses(core.statuses(c)))
    case None =>
      if arg == "myprofile" then
        var c := GetOwnProfile(account);
        Ok(Handled(PyNone, [c]), rest, ShowProfiles(core.profiles(c)))
      else if arg == "userprofile" then
        if |rest| == 0 then Eof([])
        else
          var c := GetUserProfile(account, rest[0]);
          Ok(Handled(PyNone, [c]), rest[1..], ShowProfiles(core.profiles(c)))
      else Ok(Handled(PyNone, []), rest, [NotFoundMessage])
  }

  /**
   `show <arg>`: "accounts" lists the accounts with no other check; any other
   argument needs a registered account and membership in the allowed list
   (otherwise the help text is printed), then an account is chosen and the
   branch chain runs.
   */
  function HandleShow(core: Core, arg: string, input: seq<string>): (r: Run<Handled>)
    ensures r.Ok? ==> !r.value.ret.Truthy() && |r.value.calls| <= 1
  {
    if arg == "accounts" then
      match ShowAccounts(core.accounts)
      case Ok(h, _, out) => Ok(h, input, out)
      case Crash(out) => Crash(out)
      case Eof(out) => Eof(out)
    else
      var accountsCheck := ValidateAccounts(core.accounts);
      if !accountsCheck.passed then Ok(Handled(PyBool(false), []), input, accountsCheck.out)
      else
        var argCheck := ValidateArguments(ShowArguments, arg);
        if !argCheck.passed then Ok(Handled(PyBool(false), []), input, argCheck.out + [HelpShowText])
        else match BuildAccountsMenu(core.accounts, false, input)
          case Crash(out) => Crash(out)
          case Eof(out) => Eof(out)
          case Ok(account, rest, out) => ShowBranch(core, arg, account, rest).After(out)
  }

  /** `exit` and `EOF`: print an empty line and return True, which ends the command loop. */
  function HandleExit(input: seq<string>): (r: Run<Handled>)
    ensures r.Ok? && r.value.ret.Truthy() && r.value.calls == [] && r.rest == input
    ensures r.out == [""]
  {
    Ok(Handled(PyBool(true), []), input, [""])
  }

  // ---------------------------------------------------------------------------
  // Dispatch
  // ---------------------------------------------------------------------------

  /** A command line as the command loop has already parsed it. */
  datatype Command =
    | AddAccountCmd
    | EditAccountCmd
    | LoginCmd
    | ShowCmd(arg: string)
    | PostCmd
    | ExitCmd
    | EofCmd
    | EmptyCmd
    | UnknownCmd

  /** The handler each command runs; an empty line does nothing and an unknown command prints the fallback text. */
  function Handle(core: Core, command: Command, input: seq<string>): (r: Run<Handled>)
    ensures command == EmptyCmd ==> r == Ok(Handled(PyNone, []), input, [])
    ensures command == UnknownCmd ==> r == Ok(Handled(PyNone, []), input, [NotFoundMessage])
    ensures command.ShowCmd? ==> r == HandleShow(core, command.arg, input)
    ensures command == ExitCmd || command == EofCmd ==> r == HandleExit(input)
  {
    match command
    case AddAccountCmd => HandleAddAccount(core, input)
    case EditAccountCmd => HandleEditAccount(core, input)
    case LoginCmd => HandleLogin(core, input)
    case ShowCmd(arg) => HandleShow(core, arg, input)
    case PostCmd => HandlePost(core, input)
    case ExitCmd => HandleExit(input)
    case EofCmd => HandleExit(input)
    case EmptyCmd => Ok(Handled(PyNone, []), input, [])
    case UnknownCmd => Ok(Handled(PyNone, []), input, [NotFoundMessage])
  }

  /** Only `exit` and end of input hand the loop a true value; every other handler's value is falsy. */
  lemma OnlyExitStops(core: Core, command: Command, input: seq<string>)
    ensures (Handle(core, command, input).Ok? && Handle(core, command, input).value.ret.Truthy())
      <==> (command == ExitCmd || command == EofCmd)
  {
    match command
    case EditAccountCmd =>
      var r := HandleEditAccount(core, input);
      assert r.Ok? ==> !r.value.ret.Truthy();
    case _ =>
  }

  // ---------------------------------------------------------------------------
  // Properties of `show`
  // ---------------------------------------------------------------------------

  /**
   `show accounts` makes no core call and reads no input, whether or not
   accounts exist: it prints exactly what the account summary prints.
   */
  lemma ShowAccountsBypassesChecks(core: Core, input: seq<string>)
    ensures var r := HandleShow(core, "accounts", input);
      (r.Ok? ==> r.value.calls == [] && r.rest == input && r.out[0] == AccountsHeader)
      && (r.Crash? <==> exists i :: 0 <= i < |core.accounts| && !Listable(core.accounts[i]))
    ensures var r := HandleShow(core, "accounts", input);
      && !r.Eof?
      && r.out == ShowAccounts(core.accounts).out
      && (r.Ok? ==> r.value == Handled(PyNone, []) && r.rest == input)
  {
  }

  /**
   Any other argument is refused, with no core call and no input read, when no
   account is registered or the argument is not in the allowed list.
   */
  lemma ShowGate(core: Core, arg: string, input: seq<string>)
    requires arg != "accounts"
    requires |core.accounts| == 0 || arg !in ShowArguments
    ensures HandleShow(core, arg, input) ==
      Ok(Handled(PyBool(false), []), input,
         if |core.accounts| == 0 then [NoAccountsMessage] else [ArgumentInvalidMessage, HelpShowText])
  {
  }

  /**
   Of the accepted arguments, exactly timeline, replies, directs, sent,
   myprofile and userprofile reach the core; the others fall through to the
   fallback text after the account menu.
   */
  lemma ShowReachesCore(core: Core, arg: string, input: seq<string>)
    requires arg != "accounts" && arg in ShowArguments && |core.accounts| > 0
    ensures var r := HandleShow(core, arg, input);
      r.Ok? ==>
        && (|r.value.calls| == 1 <==> arg in CoreShowArguments)
        && (arg !in CoreShowArguments ==> r.out[|r.out| - 1] == NotFoundMessage)
  {
    var m := BuildAccountsMenu(core.accounts, false, input);
    if m.Ok? {
      var b := ShowBranch(core, arg, m.value, m.rest);
      assert HandleShow(core, arg, input) == b.After(m.out);
      BranchReachesCore(core, arg, m.value, m.rest);
    }
  }

  /**
   Past the gates, `show` runs the branch on the account the menu selected,
   after the menu's output; a menu that raises or runs out of input ends `show`
   the same way.
   */
  lemma ShowOnSelectedAccount(core: Core, arg: string, input: seq<string>)
    requires arg != "accounts" && arg in ShowArguments && |core.accounts| > 0
    ensures var m := BuildAccountsMenu(core.accounts, false, input);
      && (m.Ok? ==> HandleShow(core, arg, input) == ShowBranch(core, arg, m.value, m.rest).After(m.out))
      && (m.Eof? ==> HandleShow(core, arg, input) == Eof(m.out))
      && (m.Crash? ==> HandleShow(core, arg, input) == Crash(m.out))
  {
  }

  /** Each column argument fetches its own column for the chosen account and reads no input. */
  lemma ColumnArguments(core: Core, account: string, rest: seq<string>)
    ensures var r := ShowBranch(core, "timeline", account, rest);
      r.Ok? && r.value.calls == [GetColumnStatuses(account, Timeline)] && r.rest == rest
    ensures var r := ShowBranch(core, "replies", account, rest);
      r.Ok? && r.value.calls == [GetColumnStatuses(account, Replies)] && r.rest == rest
    ensures var r := ShowBranch(core, "directs", account, rest);
      r.Ok? && r.value.calls == [GetColumnStatuses(account, Directs)] && r.rest == rest
    ensures var r := ShowBranch(core, "sent", account, rest);
      r.Ok? && r.value.calls == [GetColumnStatuses(account, Sent)] && r.rest == rest
    ensures var r := ShowBranch(core, "favorites", account, rest);
      r.Ok? && r.value.calls == [GetColumnStatuses(account, Favorites)] && r.rest == rest
  {
  }

  /** The branch chain alone: one call for a core argument, otherwise only "Not found". */
  lemma BranchReachesCore(core: Core, arg: string, account: string, rest: seq<string>)
    requires arg in ShowArguments
    ensures var b := ShowBranch(core, arg, account, rest);
      b.Ok? ==>
        && (|b.value.calls| == 1 <==> arg in CoreShowArguments)
        && (arg !in CoreShowArguments ==> b.out == [NotFoundMessage])
  {
    assert arg != "favorites";
  }

  /** The `favorites` branch is dead: no argument makes `show` ask the core for the favorites column. */
  lemma FavoritesUnreachable(core: Core, arg: string, input: seq<string>)
    ensures var r := HandleShow(core, arg, input);
      r.Ok? ==> forall c :: c in r.value.calls ==> !(c.GetColumnStatuses? && c.column == Favorites)
  {
    if arg != "accounts" && |core.accounts| > 0 && arg in ShowArguments {
      assert arg != "favorites";
      assert ColumnOf(arg) != Some(Favorites);
      var m := BuildAccountsMenu(core.accounts, false, input);
      if m.Ok? {
        assert HandleShow(core, arg, input) == ShowBranch(core, arg, m.value, m.rest).After(m.out);
      }
    }
  }

  // ---------------------------------------------------------------------------
  // Properties of `login` and `post`
  // ---------------------------------------------------------------------------

  /**
   `login` logs in to every registered account, in order, when the menu answer
   is blank, and to the one chosen account otherwise; it reads nothing after
   the menu.
   */
  lemma LoginFanOut(core: Core, input: seq<string>)
    requires |core.accounts| > 0
    ensures var m := BuildAccountsMenu(core.accounts, true, input);
      var r := HandleLogin(core, input);
      && (m.Ok? <==> r.Ok?)
      && (m.Ok? && m.value == "" ==>
            r.rest == m.rest
            && |r.value.calls| == |core.accounts|
            && forall i :: 0 <= i < |core.accounts| ==> r.value.calls[i] == LoginAccount(core.accounts[i]))
      && (m.Ok? && m.value != "" ==> r.rest == m.rest && r.value.calls == [LoginAccount(m.value)])
      && (m.Ok? && m.value == "" ==> r.out == m.out + Broadcast(core, Authenticate, core.accounts).out)
      && (m.Ok? && m.value != "" ==> r.out == m.out + [Report(core, Authenticate, m.value)])
      && (m.Eof? ==> r == Eof(m.out))
      && (m.Crash? ==> r == Crash(m.out))
  {
    var m := BuildAccountsMenu(core.accounts, true, input);
    if m.Ok? {
      var e := FanOut(core, Authenticate, m.value);
      assert HandleLogin(core, input) == Ok(Handled(PyNone, e.calls), m.rest, m.out + e.out);
      if m.value != "" {
        assert |e.calls| == 1 && e.calls[0] == LoginAccount(m.value);
        assert e.out == [Report(core, Authenticate, m.value)];
      }
    }
  }

  /**
   `post` posts the composed message to every registered account, in order,
   when the menu answer is blank, and to the chosen account otherwise.
   */
  lemma PostFanOut(core: Core, input: seq<string>)
    requires |core.accounts| > 0
    requires BuildMessageMenu(input).Ok? && BuildMessageMenu(input).value.Some?
    ensures var msg := BuildMessageMenu(input);
      var m := BuildAccountsMenu(core.accounts, true, msg.rest);
      var r := HandlePost(core, input);
      && (m.Ok? <==> r.Ok?)
      && (m.Ok? && m.value == "" ==>
            |r.value.calls| == |core.accounts|
            && forall i :: 0 <= i < |core.accounts| ==>
                 r.value.calls[i] == UpdateStatus(core.accounts[i], msg.value.value))
      && (m.Ok? && m.value != "" ==> r.value.calls == [UpdateStatus(m.value, msg.value.value)])
      && (m.Ok? ==> r.rest == m.rest)
      && (m.Ok? && m.value == "" ==>
            r.out == msg.out + m.out + Broadcast(core, Publish(msg.value.value), core.accounts).out)
      && (m.Ok? && m.value != "" ==> r.out == msg.out + m.out + [Report(core, Publish(msg.value.value), m.value)])
      && (m.Eof? ==> r == Eof(msg.out + m.out))
      && (m.Crash? ==> r == Crash(msg.out + m.out))
  {
    var msg := BuildMessageMenu(input);
    var m := BuildAccountsMenu(core.accounts, true, msg.rest);
    if m.Ok? {
      var e := FanOut(core, Publish(msg.value.value), m.value);
      assert HandlePost(core, input) == Ok(Handled(PyNone, e.calls), m.rest, msg.out + m.out + e.out);
      if m.value != "" {
        assert |e.calls| == 1 && e.calls[0] == UpdateStatus(m.value, msg.value.value);
        assert e.out == [Report(core, Publish(msg.value.value), m.value)];
      }
    }
  }

  // ---------------------------------------------------------------------------
  // Properties of `edit_account`
  // ---------------------------------------------------------------------------

  /**
   `edit_account` re-registers the account the menu selected, with the username
   and protocol taken from its id and the password read right after the menu,
   then prints "Account edited". An id without '-' (possible only as the sole
   account, which the menu returns unlisted) raises after the password is read.
   */
  lemma EditAccountSelects(core: Core, input: seq<string>)
    requires |core.accounts| > 0
    ensures var m := BuildAccountsMenu(core.accounts, false, input);
      var r := HandleEditAccount(core, input);
      && (m.Crash? ==> r == Crash(m.out))
      && (m.Eof? ==> r == Eof(m.out))
      && (m.Ok? && |m.rest| == 0 ==> r == Eof(m.out))
      && (m.Ok? && |m.rest| > 0 && Protocol(m.value).None? ==> r == Crash(m.out))
      && (m.Ok? && |m.rest| > 0 && Protocol(m.value).Some? ==>
            r == Ok(Handled(PyNone, [RegisterAccount(Username(m.value), m.rest[0], Protocol(m.value).value)]),
                    m.rest[1..], m.out + [AccountEditedMessage]))
  {
  }

  /** A sole account whose id holds no '-' is selected without a listing; reading the password, the handler then raises. */
  lemma EditSoleUnlistableAccount(core: Core, input: seq<string>)
    requires |core.accounts| == 1 && !Listable(core.accounts[0]) && |input| > 0
    ensures HandleEditAccount(core, input) == Crash([])
  {
    assert BuildAccountsMenu(core.accounts, false, input) == Ok(core.accounts[0], input, []);
  }

  /** End of input inside the composer ends `post` with the composer's output, before the account menu. */
  lemma PostComposerEof(core: Core, input: seq<string>)
    requires |core.accounts| > 0
    requires BuildMessageMenu(input).Eof?
    ensures HandlePost(core, input) == Eof(BuildMessageMenu(input).out)
  {
  }

  /** Without a message `post` returns False before the account menu: nothing more is read, no core call. */
  lemma PostWithoutMessage(core: Core, input: seq<string>)
    requires |core.accounts| > 0
    requires BuildMessageMenu(input).Ok? && BuildMessageMenu(input).value.None?
    ensures HandlePost(core, input) ==
      Ok(Handled(PyBool(false), []), BuildMessageMenu(input).rest, BuildMessageMenu(input).out)
  {
  }
}
