/** The drive-letter allocator of the Windows build. */
module Drives {
  import opened CLib

  const MAX_DRIVES: nat := 24

  /** The first character of every NUL-terminated name in a buffer; `at` is where the current one starts. */
  function Heads(present: string, at: nat, i: nat): string
    requires at <= i <= |present|
    decreases |present| - i
  {
    if i == |present| then ""
    else if present[i] == NUL then [present[at]] + Heads(present, i + 1, i + 1)
    else Heads(present, at, i + 1)
  }

  /** What `GetLogicalDriveStrings` fills in. */
  function Listing(names: seq<string>): string {
    if names == [] then "" else names[0] + [NUL] + Listing(names[1..])
  }

  predicate AreNames(names: seq<string>) {
    forall k :: 0 <= k < |names| ==> names[k] != "" && NUL !in names[k]
  }

  predicate Taken(names: seq<string>, letter: char) {
    exists k :: 0 <= k < |names| && names[k] != "" && names[k][0] == letter
  }

  function FirstLetters(names: seq<string>): string
    requires AreNames(names)
  {
    if names == [] then "" else [names[0][0]] + FirstLetters(names[1..])
  }

  lemma {:induction false} HeadsWithinName(pre: string, name: string, rest: string, i: nat)
    requires i <= |name| && name != "" && NUL !in name
    ensures Heads(pre + name + [NUL] + rest, |pre|, |pre| + i)
         == [name[0]] + Heads(pre + name + [NUL] + rest, |pre| + |name| + 1, |pre| + |name| + 1)
    decreases |name| - i
  {
    var s := pre + name + [NUL] + rest;
    if i < |name| {
      assert s[|pre| + i] == name[i];
      HeadsWithinName(pre, name, rest, i + 1);
    } else {
      assert s[|pre| + i] == NUL && s[|pre|] == name[0];
    }
  }

  lemma {:induction false} HeadsOfListing(pre: string, names: seq<string>)
    requires AreNames(names)
    ensures Heads(pre + Listing(names), |pre|, |pre|) == FirstLetters(names)
    decreases |names|
  {
    var s := pre + Listing(names);
    if names != [] {
      var more := pre + names[0] + [NUL];
      assert s == more + Listing(names[1..]);
      HeadsWithinName(pre, names[0], Listing(names[1..]), 0);
      HeadsOfListing(more, names[1..]);
    }
  }

  lemma {:induction false} LettersAreTaken(names: seq<string>, letter: char)
    requires AreNames(names)
    ensures |FirstLetters(names)| == |names|
    ensures letter in FirstLetters(names) <==> Taken(names, letter)
    ensures NUL !in FirstLetters(names)
  {
    if names != [] {
      var rest := names[1..];
      LettersAreTaken(rest, letter);
      assert forall k :: 0 <= k < |rest| ==> rest[k] == names[k + 1];
      assert forall k :: 0 < k < |names| ==> names[k] == rest[k - 1];
      assert names[0][0] != NUL;
    }
  }

  /** The first loop: one letter per name goes into `drives`, the rest of which stays NUL. */
  method CollectDrives(present: string) returns (drives: array<char>)
    requires |Heads(present, 0, 0)| < MAX_DRIVES
    ensures drives.Length == MAX_DRIVES
    ensures drives[..] == Heads(present, 0, 0) + Zeros(MAX_DRIVES - |Heads(present, 0, 0)|)
  {
    drives := new char[MAX_DRIVES](_ => NUL);
    ghost var all := Heads(present, 0, 0);
    var drivesCount := 0;
    var j := -1;
    var i := 0;
    while i < |present|
      invariant 0 <= i <= |present| && -1 <= j < i && 0 <= drivesCount <= |all|
      invariant all == drives[..drivesCount] + Heads(present, j + 1, i)
      invariant forall k :: drivesCount <= k < MAX_DRIVES ==> drives[k] == NUL
    {
      if present[i] == NUL {
        ghost var before := drives[..drivesCount];
        drives[drivesCount] := present[j + 1];
        assert drives[..drivesCount + 1] == before + [present[j + 1]];
        assert before + ([present[j + 1]] + Heads(present, i + 1, i + 1))
          == drives[..drivesCount + 1] + Heads(present, i + 1, i + 1);
        j := i;
        drivesCount := drivesCount + 1;
      }
      i := i + 1;
    }
    assert drives[..drivesCount] == all;
  }

  /**
   * `next_available_logical_drive`: for every list of fewer than 24 drives, the least letter from D to Z
   * that heads none of them; NUL exactly when the list is empty or all of D to Z are taken.
   */
  method NextAvailableLogicalDrive(names: seq<string>) returns (drive: char)
    requires AreNames(names) && |names| < MAX_DRIVES
    ensures drive == NUL <==> names == [] || forall c :: 'D' <= c <= 'Z' ==> Taken(names, c)
    ensures drive != NUL ==>
            'D' <= drive <= 'Z' && !Taken(names, drive) && forall c :: 'D' <= c < drive ==> Taken(names, c)
  {
    hide Heads;
    var present := Listing(names);
    if |present| == 0 {
      assert names == [];
      return NUL;
    }
    HeadsOfListing("", names);
    assert "" + present == present;
    LettersAreTaken(names, 'D');
    var drives := CollectDrives(present);
    CStrOfTerminated(FirstLetters(names), Zeros(MAX_DRIVES - |names|));
    assert CStr(drives[..]) == FirstLetters(names);
    hide FirstLetters, Taken, Listing, CStr;
    var letter := 'D' as int;
    while letter <= 'Z' as int
      invariant 'D' as int <= letter <= 'Z' as int + 1
      invariant CStr(drives[..]) == FirstLetters(names)
      invariant forall c :: 'D' as int <= c as int < letter ==> Taken(names, c)
    {
      LettersAreTaken(names, letter as char);
      if (letter as char) !in CStr(drives[..]) {
        return letter as char;
      }
      letter := letter + 1;
    }
    return NUL;
  }
}
