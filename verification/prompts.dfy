/**
 The prompt builders: the message composer, the account menu and the protocol
 menu. Each reads lines from a finite input stream; a run reports what it
 returned, the lines it left unread and what it printed, or that the input ran
 out (`raw_input` raising EOFError) or that an IndexError escaped.
 */
module Prompts {
  import opened Builtins
  import opened Validate
  import opened AccountId

  /** The outcome of running a piece of the shell on an input stream. `out` holds one entry per `print`. */
  datatype Run<T> =
    | Ok(value: T, rest: seq<string>, out: seq<string>)
    | Eof(out: seq<string>)
    | Crash(out: seq<string>)
  {
    /** The same run with `lines` printed before it. */
    function After(lines: seq<string>): (r: Run<T>)
      ensures r.Ok? == Ok? && r.Eof? == Eof? && r.Crash? == Crash?
      ensures r.out == lines + out
      ensures Ok? ==> r.value == value && r.rest == rest
    {
      match this
      case Ok(v, rest, o) => Ok(v, rest, lines + o)
      case Eof(o) => Eof(lines + o)
      case Crash(o) => Crash(lines + o)
    }
  }

  /** `m` copies of `block`, one after the other. */
  function Repeat(block: seq<string>, m: nat): seq<string>
  {
    if m == 0 then [] else block + Repeat(block, m - 1)
  }

  /** The validity test a menu applies to each answer. */
  function IndexCheck(n: nat, blank: bool): string -> bool
  {
    answer => Accepts(answer, n, blank)
  }

  /** `input[m]` is the first answer `accepts` takes. */
  predicate FirstAccepted(input: seq<string>, m: nat, accepts: string -> bool) {
    && m < |input|
    && accepts(input[m])
    && forall j :: 0 <= j < m ==> !accepts(input[j])
  }

  /** No answer in the stream is accepted. */
  predicate NoneAccepted(input: seq<string>, accepts: string -> bool) {
    forall j :: 0 <= j < |input| ==> !accepts(input[j])
  }

  /**
   The retry loop both menus share: print the listing, read an answer, and on a
   rejected answer print `invalid` and start over. The run returns the first
   accepted answer, having printed the listing once per answer read and the
   `invalid` line once per rejected answer.
   */
  function Ask(listing: seq<string>, invalid: string, accepts: string -> bool, input: seq<string>): (r: Run<string>)
    ensures !r.Crash?
    ensures r.Eof? <==> NoneAccepted(input, accepts)
    ensures r.Eof? ==> r.out == Repeat(listing + [invalid], |input|) + listing
    ensures r.Ok? ==>
      var m := |input| - |r.rest| - 1;
      && |r.rest| < |input|
      && FirstAccepted(input, m, accepts)
      && r.value == input[m]
      && r.rest == input[m + 1..]
      && r.out == Repeat(listing + [invalid], m) + listing
    decreases |input|
  {
    if |input| == 0 then Eof(listing)
    else if accepts(input[0]) then Ok(input[0], input[1..], listing)
    else
      var r := Ask(listing, invalid, accepts, input[1..]);
      assert r.Ok? ==> input[1..][|input| - 1 - |r.rest|..] == input[|input| - |r.rest|..];
      r.After(listing + [invalid])
  }

  // ---------------------------------------------------------------------------
  // Message composer
  // ---------------------------------------------------------------------------

  const MaxLength := 140
  const EmptyMessageMessage := "You must write something to post"

  /** The answers to the truncation question that mean "yes, truncate". */
  predicate TruncateAnswer(answer: string) {
    Lower(answer) == "y" || answer == ""
  }

  /**
   The message composer. An empty text is refused with a notice. A text of at
   most 140 characters is returned as typed. A longer text needs a second
   answer: "y", "Y" or an empty answer truncate it to its first 140 characters,
   anything else drops the message.
   */
  function BuildMessageMenu(input: seq<string>): (r: Run<Option<string>>)
    ensures !r.Crash?
    ensures |input| == 0 ==> r == Eof([])
    ensures |input| > 0 && input[0] == "" ==> r == Ok(None, input[1..], [EmptyMessageMessage])
    ensures |input| > 0 && 0 < |input[0]| <= MaxLength ==> r == Ok(Some(input[0]), input[1..], [])
    ensures |input| == 1 && |input[0]| > MaxLength ==> r == Eof([])
    ensures |input| > 1 && |input[0]| > MaxLength ==>
      && r.Ok? && r.rest == input[2..] && r.out == []
      && (input[1] in {"", "y", "Y"} ==> r.value == Some(input[0][..MaxLength]))
      && (input[1] !in {"", "y", "Y"} ==> r.value == None)
    ensures r.Ok? && r.value.Some? ==>
      0 < |r.value.value| <= MaxLength && r.value.value == input[0][..|r.value.value|]
  {
    if |input| == 0 then Eof([])
    else
      var text := input[0];
      if text == "" then Ok(None, input[1..], [EmptyMessageMessage])
      else if |text| > MaxLength then
        if |input| == 1 then Eof([])
        else
          var trunc := input[1];
          LowerIsY(trunc);
          if TruncateAnswer(trunc) then Ok(Some(text[..MaxLength]), input[2..], [])
          else Ok(None, input[2..], [])
      else Ok(Some(text), input[1..], [])
  }

  // ---------------------------------------------------------------------------
  // Account menu
  // ---------------------------------------------------------------------------

  const AccountsHeader := "Available accounts:"
  const InvalidAccountMessage := "Invalid account"

  /** An id the menu can list: it holds the '-' between username and protocol. */
  predicate Listable(acc: string) {
    '-' in acc
  }

  /** The menu line `[i] username - protocol`; `None` when the id holds no '-'. */
  function AccountLine(i: nat, acc: string): (r: Option<string>)
    ensures r.Some? <==> Listable(acc)
  {
    match Protocol(acc)
    case None => None
    case Some(p) => Some("[" + NatToString(i) + "] " + Username(acc) + " - " + p)
  }

  /** The lines listing `accounts`, numbered from `start`, up to the first id without '-'. */
  function AccountListing(accounts: seq<string>, start: nat): (lines: seq<string>)
    ensures |lines| <= |accounts|
    ensures (forall i :: 0 <= i < |accounts| ==> Listable(accounts[i])) ==> |lines| == |accounts|
    ensures |lines| < |accounts| ==> !Listable(accounts[|lines|])
    ensures forall i :: 0 <= i < |lines| ==> AccountLine(start + i, accounts[i]) == Some(lines[i])
    decreases |accounts|
  {
    if |accounts| == 0 then []
    else match AccountLine(start, accounts[0])
      case None => []
      case Some(line) =>
        var tail := AccountListing(accounts[1..], start + 1);
        assert forall i :: 1 <= i < |accounts| ==> accounts[1..][i - 1] == accounts[i];
        [line] + tail
  }

  /** What an accepted answer selects: "" (all accounts) for the empty answer, else the indexed id. */
  function Selection(items: seq<string>, answer: string, blank: bool): (r: string)
    requires Accepts(answer, |items|, blank)
    ensures answer == "" ==> r == "" && blank
    ensures answer != "" ==> r in items
    ensures answer != "" ==> ParseInt(answer).Some? && r == items[PyIndex(ParseInt(answer).value, |items|)]
  {
    if answer == "" then "" else items[PyIndex(ParseInt(answer).value, |items|)]
  }

  /**
   The account menu. With exactly one registered account it returns that
   account without reading anything. Otherwise it lists the accounts and asks
   until the index validator accepts an answer (the empty answer only when
   `all` is set), printing "Invalid account" after each rejected one; the empty
   answer selects "" (every account), any other the indexed id. Listing an id
   that holds no '-' raises IndexError before any answer is read.
   */
  function BuildAccountsMenu(accounts: seq<string>, all: bool, input: seq<string>): (r: Run<string>)
    ensures |accounts| == 1 ==> r == Ok(accounts[0], input, [])
    ensures r.Ok? ==> r.value == "" || r.value in accounts
  {
    if |accounts| == 1 then Ok(accounts[0], input, [])
    else
      var listing := [AccountsHeader] + AccountListing(accounts, 0);
      if |listing| - 1 < |accounts| then Crash(listing)
      else match Ask(listing, InvalidAccountMessage, IndexCheck(|accounts|, all), input)
        case Ok(answer, rest, out) => Ok(Selection(accounts, answer, all), rest, out)
        case Eof(out) => Eof(out)
  }

  /** With two or more accounts (or none), the menu raises IndexError exactly when some id holds no '-', before reading. */
  lemma AccountsMenuCrash(accounts: seq<string>, all: bool, input: seq<string>)
    requires |accounts| != 1
    ensures BuildAccountsMenu(accounts, all, input).Crash? <==>
      exists i :: 0 <= i < |accounts| && !Listable(accounts[i])
    ensures BuildAccountsMenu(accounts, all, input).Crash? ==>
      BuildAccountsMenu(accounts, all, input).out == [AccountsHeader] + AccountListing(accounts, 0)
  {
  }

  /**
   With two or more listable accounts (or none), the menu never raises and it
   runs out of input exactly when no answer in the stream is accepted.
   */
  lemma AccountsMenuRetries(accounts: seq<string>, all: bool, input: seq<string>)
    requires |accounts| != 1
    requires forall i :: 0 <= i < |accounts| ==> Listable(accounts[i])
    ensures !BuildAccountsMenu(accounts, all, input).Crash?
    ensures BuildAccountsMenu(accounts, all, input).Eof? <==> NoneAccepted(input, IndexCheck(|accounts|, all))
  {
    var a := AccountsMenuViaAsk(accounts, all, input);
  }

  /**
   With two or more listable ids (or none), the account menu is the retry loop
   over its listing and the index check, followed by the selection; so an
   accepting menu has consumed the answers up to the first accepted one, printed
   the listing once per answer read and "Invalid account" once per rejected one,
   and selected "" (every account) exactly for an empty answer, which needs `all`.
   */
  lemma AccountsMenuViaAsk(accounts: seq<string>, all: bool, input: seq<string>) returns (a: Run<string>)
    requires |accounts| != 1
    requires forall i :: 0 <= i < |accounts| ==> Listable(accounts[i])
    ensures a == Ask([AccountsHeader] + AccountListing(accounts, 0), InvalidAccountMessage, IndexCheck(|accounts|, all), input)
    ensures a.Ok? ==> Accepts(a.value, |accounts|, all)
    ensures a.Ok? ==> BuildAccountsMenu(accounts, all, input) == Ok(Selection(accounts, a.value, all), a.rest, a.out)
    ensures a.Eof? ==> BuildAccountsMenu(accounts, all, input) == Eof(a.out)
    ensures a.Ok? ==> (Selection(accounts, a.value, all) == "" <==> a.value == "")
    ensures a.Ok? && Selection(accounts, a.value, all) == "" ==> all
  {
    var listing := [AccountsHeader] + AccountListing(accounts, 0);
    a := Ask(listing, InvalidAccountMessage, IndexCheck(|accounts|, all), input);
    assert |listing| - 1 == |accounts|;
    if a.Ok? {
      assert IndexCheck(|accounts|, all)(a.value);
      SelectionBlank(accounts, a.value, all);
    }
  }

  /** Selecting among listable ids gives "" exactly for the empty answer. */
  lemma SelectionBlank(items: seq<string>, answer: string, blank: bool)
    requires Accepts(answer, |items|, blank)
    requires forall i :: 0 <= i < |items| ==> Listable(items[i])
    ensures Selection(items, answer, blank) == "" <==> answer == ""
    ensures Selection(items, answer, blank) == "" ==> blank
  {
    if answer != "" {
      var i := PyIndex(ParseInt(answer).value, |items|);
      assert Selection(items, answer, blank) == items[i];
      assert Listable(items[i]);
    }
  }

  // ---------------------------------------------------------------------------
  // Protocol menu
  // ---------------------------------------------------------------------------

  const ProtocolsHeader := "Available protocols:"
  const InvalidProtocolMessage := "Invalid protocol"

  /** The lines `[i] protocol` for every supported protocol. */
  function ProtocolListing(protocols: seq<string>): seq<string>
  {
    seq(|protocols|, i requires 0 <= i < |protocols| => "[" + NatToString(i) + "] " + protocols[i])
  }

  /**
   The protocol menu: the same retry loop over the core's protocol list, where
   the empty answer is never accepted; it returns the indexed protocol. With no
   protocols at all every answer is rejected until the input ends.
   */
  function BuildProtocolsMenu(protocols: seq<string>, input: seq<string>): (r: Run<string>)
    ensures !r.Crash?
    ensures r.Ok? ==> r.value in protocols
    ensures r.Eof? <==> NoneAccepted(input, IndexCheck(|protocols|, false))
  {
    var listing := [ProtocolsHeader] + ProtocolListing(protocols);
    match Ask(listing, InvalidProtocolMessage, IndexCheck(|protocols|, false), input)
    case Ok(answer, rest, out) =>
      Ok(protocols[PyIndex(ParseInt(answer).value, |protocols|)], rest, out)
    case Eof(out) => Eof(out)
  }

  /**
   The protocol menu returns the protocol its first accepted answer indexes, and
   reads no further. It prints the listing once per answer read and
   "Invalid protocol" once per rejected answer.
   */
  lemma ProtocolsMenuSelects(protocols: seq<string>, input: seq<string>)
    ensures
      var r := BuildProtocolsMenu(protocols, input);
      var listing := [ProtocolsHeader] + ProtocolListing(protocols);
      && (r.Ok? ==> r.out == Repeat(listing + [InvalidProtocolMessage], |input| - |r.rest| - 1) + listing)
      && (r.Eof? ==> r.out == Repeat(listing + [InvalidProtocolMessage], |input|) + listing)
    ensures
      var r := BuildProtocolsMenu(protocols, input);
      r.Ok? ==>
        var m := |input| - |r.rest| - 1;
        && |r.rest| < |input|
        && FirstAccepted(input, m, IndexCheck(|protocols|, false))
        && r.rest == input[m + 1..]
        && ParseInt(input[m]).Some?
        && r.value == protocols[PyIndex(ParseInt(input[m]).value, |protocols|)]
  {
    var listing := [ProtocolsHeader] + ProtocolListing(protocols);
    var a := Ask(listing, InvalidProtocolMessage, IndexCheck(|protocols|, false), input);
    var r := BuildProtocolsMenu(protocols, input);
    assert r.out == a.out && (r.Ok? <==> a.Ok?) && (r.Ok? ==> r.rest == a.rest);
  }

  /** With no protocols every answer is rejected, so the menu asks until the input ends. */
  lemma NoProtocolsNeverReturns(input: seq<string>)
    ensures BuildProtocolsMenu([], input).Eof?
  {
    assert NoneAccepted(input, IndexCheck(0, false));
  }
}
