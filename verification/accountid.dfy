/**
 Account identifiers. The core names every account `username-protocol`, and the
 shell takes the two parts back with `acc.split('-')[0]` and `acc.split('-')[1]`.
 */
module AccountId {
  import opened Builtins

  /** `acc.split('-')[0]`, which always exists. */
  function Username(acc: string): string
  {
    Split(acc, '-')[0]
  }

  /** `acc.split('-')[1]`; `None` stands for the IndexError raised when `acc` holds no '-'. */
  function Protocol(acc: string): (r: Option<string>)
    ensures r.Some? <==> '-' in acc
  {
    SplitHasSecondField(acc, '-');
    if |Split(acc, '-')| >= 2 then Some(Split(acc, '-')[1]) else None
  }

  /** The id the core builds for a username on a protocol. */
  function MakeId(username: string, protocol: string): string
  {
    username + "-" + protocol
  }

  /** Both parts come back from an id whenever neither holds a '-'. */
  lemma ExtractParts(username: string, protocol: string)
    requires '-' !in username && '-' !in protocol
    ensures Username(MakeId(username, protocol)) == username
    ensures Protocol(MakeId(username, protocol)) == Some(protocol)
  {
    var fields := [username, protocol];
    assert Join(fields[1..], '-') == protocol;
    assert Join(fields, '-') == MakeId(username, protocol);
    SplitJoin(fields, '-');
  }

  /**
   A username holding '-' does not survive the round trip: the shell shows it
   cut just before its first '-'.
   */
  lemma HyphenatedUsernameCut(username: string, protocol: string, i: nat)
    requires i < |username| && username[i] == '-' && '-' !in username[..i]
    ensures Username(MakeId(username, protocol)) == username[..i]
    ensures Username(MakeId(username, protocol)) != username
  {
    var id := MakeId(username, protocol);
    assert id[i] == username[i];
    assert id[..i] == username[..i];
    SplitFirstField(id, '-', i);
  }
}
