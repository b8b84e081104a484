/**
 The result renderers: how statuses and profiles returned by the core are
 printed. A result whose code is positive is an error and only its message is
 printed; otherwise its items are printed one block per item.
 */
module Render {
  import opened Builtins

  /** A result from the core: a code (positive means error), a message, and the items it carries. */
  datatype Response<T> = Response(code: int, errmsg: string, items: seq<T>)

  /**
   A status. An empty `inReplyTo` stands for Python's `None` or `''`, both
   falsy; `repostedBy` lists who reposted it.
   */
  datatype Status = Status(
    username: string,
    text: string,
    datetime: string,
    source: string,
    inReplyTo: string,
    repostedBy: seq<string>)

  /** A profile. An empty `lastUpdate` stands for a falsy value. */
  datatype Profile = Profile(
    username: string,
    fullname: string,
    url: string,
    location: string,
    bio: string,
    protected: bool,
    following: bool,
    lastUpdate: string)

  /** The lines of a list of blocks, one after the other. */
  function Flatten(blocks: seq<seq<string>>): seq<string>
  {
    if |blocks| == 0 then [] else blocks[0] + Flatten(blocks[1..])
  }

  // ---------------------------------------------------------------------------
  // Statuses
  // ---------------------------------------------------------------------------

  /** The repost line, which formats the list `repostedBy` itself with `%s`. */
  function RetweetLine(repostedBy: seq<string>): string
  {
    "Retweeted by " + ListRepr(repostedBy)
  }

  /** The names the renderer gathers, each followed by a blank, and then leaves unused. */
  function Users(repostedBy: seq<string>): string
  {
    if |repostedBy| == 0 then "" else Users(repostedBy[..|repostedBy| - 1]) + repostedBy[|repostedBy| - 1] + " "
  }

  /**
   The block printed for the `count`-th status: the numbered `@user: text` line
   with newlines in the text flattened to blanks, the `date from source` line
   with an optional ` in reply to user`, the repost line when someone reposted
   it, and an empty line.
   */
  function StatusBlock(s: Status, count: nat): seq<string>
  {
    var inreply := if s.inReplyTo != "" then " in reply to " + s.inReplyTo else "";
    [NatToString(count) + ". @" + s.username + ": " + ReplaceChar(s.text, '\n', ' '),
     s.datetime + " from " + s.source + inreply]
    + (if |s.repostedBy| > 0 then [RetweetLine(s.repostedBy)] else [])
    + [""]
  }

  /** One block per status, the `i`-th numbered `first + i`. */
  function StatusBlocks(statuses: seq<Status>, first: nat): (blocks: seq<seq<string>>)
    ensures |blocks| == |statuses|
    ensures forall i :: 0 <= i < |statuses| ==> blocks[i] == StatusBlock(statuses[i], first + i)
  {
    seq(|statuses|, i requires 0 <= i < |statuses| => StatusBlock(statuses[i], first + i))
  }

  /** The loop printing `statuses` with a running counter that starts at `count`. */
  function StatusLines(statuses: seq<Status>, count: nat): (lines: seq<string>)
    ensures lines == Flatten(StatusBlocks(statuses, count))
    decreases |statuses|
  {
    if |statuses| == 0 then []
    else
      var tail := StatusLines(statuses[1..], count + 1);
      assert StatusBlocks(statuses, count)[1..] == StatusBlocks(statuses[1..], count + 1);
      StatusBlock(statuses[0], count) + tail
  }

  /**
   Printing a status result: an error result prints its message alone; a
   success prints the blocks of its statuses numbered consecutively from 1.
   */
  function ShowStatuses(r: Response<Status>): (lines: seq<string>)
    ensures r.code > 0 ==> lines == [r.errmsg]
    ensures r.code <= 0 ==> lines == Flatten(StatusBlocks(r.items, 1))
  {
    if r.code > 0 then [r.errmsg] else StatusLines(r.items, 1)
  }

  /** A status block is three lines, four when the status was reposted; its first line carries no newline from the text. */
  lemma StatusBlockShape(s: Status, count: nat)
    ensures |StatusBlock(s, count)| == if |s.repostedBy| > 0 then 4 else 3
    ensures StatusBlock(s, count)[|StatusBlock(s, count)| - 1] == ""
    ensures StatusBlock(s, count)[0][..|NatToString(count)| + 3] == NatToString(count) + ". @"
    ensures '\n' !in s.username ==> '\n' !in StatusBlock(s, count)[0]
  {
    var head := StatusBlock(s, count)[0];
    var t := ReplaceChar(s.text, '\n', ' ');
    assert head == NatToString(count) + ". @" + s.username + ": " + t;
    if '\n' !in s.username {
      forall i | 0 <= i < |head|
        ensures head[i] != '\n'
      {
        var k := |NatToString(count)|;
        if i < k {
          assert head[i] == NatToString(count)[i];
        } else if i < k + 3 {
        } else if i < k + 3 + |s.username| {
          assert head[i] == s.username[i - k - 3];
        } else if i < k + 5 + |s.username| {
        } else {
          assert head[i] == t[i - k - 5 - |s.username|];
        }
      }
    }
  }

  /**
   The repost line shows Python's rendering of the list (brackets and quotes),
   not the blank-separated names gathered just before it: the two never agree.
   */
  lemma RetweetLineIsListRepr(repostedBy: seq<string>)
    requires |repostedBy| > 0
    ensures RetweetLine(repostedBy) != "Retweeted by " + Users(repostedBy)
    ensures RetweetLine(repostedBy)[|RetweetLine(repostedBy)| - 1] == ']'
  {
    var shown := RetweetLine(repostedBy);
    var meant := "Retweeted by " + Users(repostedBy);
    assert shown[|shown| - 1] == ']';
    assert meant[|meant| - 1] == ' ';
  }

  /** A single plainly named reposter is shown between quotes and brackets. */
  lemma RetweetLineOfOne(name: string)
    requires AllPrintable(name) && '\'' !in name && '\\' !in name
    ensures RetweetLine([name]) == "Retweeted by ['" + name + "']"
  {
    ReprPlain(name);
  }

  // ---------------------------------------------------------------------------
  // Profiles
  // ---------------------------------------------------------------------------

  const FollowingMark := "<following>"
  const ProtectedMark := "<protected>"

  /** `@user (full name) <following> <protected>`, each mark empty when its flag is off. */
  function ProfileHeader(p: Profile): string
  {
    "@" + p.username + " (" + p.fullname + ") "
      + (if p.following then FollowingMark else "") + " "
      + (if p.protected then ProtectedMark else "")
  }

  /** A rule of `n` dashes. */
  function Dashes(n: nat): (r: string)
    ensures |r| == n
    ensures forall i :: 0 <= i < n ==> r[i] == '-'
  {
    seq(n, _ => '-')
  }

  /**
   The block printed for a profile: the header, a dashed rule as long as the
   header, the URL, location and bio lines, and the last-update line (with an
   extra newline) when there is one.
   */
  function ProfileBlock(p: Profile): seq<string>
  {
    var header := ProfileHeader(p);
    [header, Dashes(|header|), "URL: " + p.url, "Location: " + p.location, "Bio: " + p.bio]
    + (if p.lastUpdate != "" then ["Last: " + p.lastUpdate + "\n"] else [])
  }

  /** One block per profile, in order. */
  function ProfileBlocks(people: seq<Profile>): (blocks: seq<seq<string>>)
    ensures |blocks| == |people|
    ensures forall i :: 0 <= i < |people| ==> blocks[i] == ProfileBlock(people[i])
  {
    seq(|people|, i requires 0 <= i < |people| => ProfileBlock(people[i]))
  }

  /** The loop printing one block per profile. */
  function ProfileLines(people: seq<Profile>): (lines: seq<string>)
    ensures lines == Flatten(ProfileBlocks(people))
    decreases |people|
  {
    if |people| == 0 then []
    else
      var tail := ProfileLines(people[1..]);
      assert ProfileBlocks(people)[1..] == ProfileBlocks(people[1..]);
      ProfileBlock(people[0]) + tail
  }

  /**
   Printing a profile result: an error result prints its message alone; a
   success prints one block per profile, in order.
   */
  function ShowProfiles(r: Response<Profile>): (lines: seq<string>)
    ensures r.code > 0 ==> lines == [r.errmsg]
    ensures r.code <= 0 ==> lines == Flatten(ProfileBlocks(r.items))
  {
    if r.code > 0 then [r.errmsg] else ProfileLines(r.items)
  }

  /** The header's length: six fixed characters, the two names, and eleven per mark shown. */
  lemma ProfileHeaderLength(p: Profile)
    ensures |ProfileHeader(p)| ==
      6 + |p.username| + |p.fullname| + (if p.following then 11 else 0) + (if p.protected then 11 else 0)
  {
  }

  /** The rule under a header is all dashes and exactly as long as the header. */
  lemma ProfileRuleMatchesHeader(p: Profile)
    ensures |ProfileBlock(p)| == if p.lastUpdate != "" then 6 else 5
    ensures |ProfileBlock(p)[1]| == |ProfileBlock(p)[0]| == |ProfileHeader(p)|
    ensures forall i :: 0 <= i < |ProfileBlock(p)[1]| ==> ProfileBlock(p)[1][i] == '-'
  {
  }
}
