/**
 The shell's validators: the menu-index check, the "any account registered"
 precondition and the allowed-argument check.
 */
module Validate {
  import opened Builtins

  const NoAccountsMessage := "You don't have any registered account. Run add_account command"
  const ArgumentInvalidMessage := "Argument invalid"

  /**
   The index validator. The answer is first given to `int()` and used to index a
   list of `n` items, so an integer answer is accepted exactly when
   `-n <= k < n` (Python lets negative indices count from the end). An answer
   `int()` refuses is accepted only when it is empty and `blank` is set; an empty
   answer without `blank`, and a non-empty answer with `blank`, give `False`; a
   non-empty answer without `blank` matches no branch and gives `None`.
   */
  function ValidateIndex(answer: string, n: nat, blank: bool): (r: PyObj)
    ensures r.Truthy() <==>
      (ParseInt(answer).Some? && -(n as int) <= ParseInt(answer).value < n) || (blank && answer == "")
    ensures r == PyNone <==> ParseInt(answer).None? && !blank && answer != ""
  {
    match ParseInt(answer)
    case Some(k) =>
      assert answer != "";
      PyBool(-(n as int) <= k < n)
    case None =>
      if blank && answer == "" then PyBool(true)
      else if !blank && answer == "" then PyBool(false)
      else if blank && answer != "" then PyBool(false)
      else PyNone
  }

  /** The validator's verdict as an `if not ...` test reads it. */
  predicate Accepts(answer: string, n: nat, blank: bool) {
    ValidateIndex(answer, n, blank).Truthy()
  }

  /** The position Python's `items[k]` reads for an in-range, possibly negative, `k`. */
  function PyIndex(k: int, n: nat): (i: nat)
    requires -(n as int) <= k < n
    ensures i < n
    ensures (i as int) % n == k % n
  {
    if k < 0 then n + k else k
  }

  /** Negative indices are accepted: `-j` selects from the end for every 1 <= j <= n. */
  lemma NegativeIndexAccepted(j: nat, n: nat, blank: bool)
    requires 1 <= j <= n
    ensures Accepts(IntToString(-(j as int)), n, blank)
    ensures PyIndex(ParseInt(IntToString(-(j as int))).value, n) == n - j
  {
    var k := -(j as int);
    ParseIntFormatted(k);
    assert ValidateIndex(IntToString(k), n, blank) == PyBool(true);
  }

  /** An index padded with whitespace is accepted exactly when the bare index is. */
  lemma PaddedIndex(a: string, k: int, b: string, n: nat, blank: bool)
    requires AllSpace(a) && AllSpace(b)
    ensures Accepts(a + IntToString(k) + b, n, blank) <==> -(n as int) <= k < n
  {
    ParseIntRoundTrip(a, k, b);
  }

  /** With an empty list no integer is accepted, whatever `blank` says. */
  lemma EmptyListRejectsIntegers(answer: string, blank: bool)
    requires ParseInt(answer).Some?
    ensures !Accepts(answer, 0, blank)
  {
  }

  /** The result of an accounts check: whether it passed, and what it printed. */
  datatype Check = Check(passed: bool, out: seq<string>)

  /** The "at least one registered account" precondition of most commands. */
  function ValidateAccounts(accounts: seq<string>): (c: Check)
    ensures c.passed <==> |accounts| > 0
    ensures c.passed ==> c.out == []
    ensures !c.passed ==> c.out == [NoAccountsMessage]
  {
    if |accounts| > 0 then Check(true, []) else Check(false, [NoAccountsMessage])
  }

  /** Membership of a command argument in its allowed list. */
  function ValidateArguments(allowed: seq<string>, value: string): (c: Check)
    ensures c.passed <==> value in allowed
    ensures c.passed ==> c.out == []
    ensures !c.passed ==> c.out == [ArgumentInvalidMessage]
  {
    if value in allowed then Check(true, []) else Check(false, [ArgumentInvalidMessage])
  }
}
