/** Choosing the extension update among the version keys of an npm package document. */
module NpmSelection {
  import opened Tags
  import opened Versions
  import opened VersionGrammar
  import opened Wrappers

  /** version<> has 32-bit components. */
  const U32: Limits := Limits(0xFFFF_FFFF, 0xFFFF_FFFF, 0xFFFF_FFFF)

  predicate Readable(key: string) {
    ParseVersion(key, U32).Parsed?
  }

  function VersionOf(key: string): Version
    requires Readable(key)
  {
    ParseVersion(key, U32).value
  }

  /** JSON object keys: distinct and in lexicographic order. */
  ghost predicate IsKeyList(keys: seq<string>) {
    forall i, j :: 0 <= i < j < |keys| ==> CompareLexicographically(keys[i], keys[j]) < 0
  }

  /** A picked key is empty when there is none. */
  datatype Selection = Selection(version: string, majorVersion: string)

  datatype Result = Selected(selection: Selection) | Unreadable(key: string)

  datatype Purpose = Install | Announce

  /** Prereleases are considered only for a current prerelease. */
  predicate Admitted(v: Version, current: Option<Version>) {
    IsPrerelease(v) ==> current.Some? && IsPrerelease(current.value)
  }

  predicate Eligible(v: Version, current: Option<Version>, purpose: Purpose) {
    && Admitted(v, current)
    && match purpose
       case Install => current.Some? ==> v.major == current.value.major && Compare(v, current.value) > 0
       case Announce => current.Some? && v.major > current.value.major
  }

  predicate Offers(key: string, current: Option<Version>, purpose: Purpose) {
    Readable(key) && Eligible(VersionOf(key), current, purpose)
  }

  /** Higher precedence first; among equal precedence the lexicographically greater key. */
  ghost predicate AtMost(key: string, best: string)
    requires Readable(key) && Readable(best)
  {
    var c := Compare(VersionOf(key), VersionOf(best));
    c < 0 || (c == 0 && CompareLexicographically(key, best) <= 0)
  }

  /** `best` is the greatest offered key, empty exactly when none is offered. */
  ghost predicate IsBest(keys: seq<string>, current: Option<Version>, purpose: Purpose, best: string) {
    if best == "" then forall i :: 0 <= i < |keys| ==> !Offers(keys[i], current, purpose)
    else
      && best in keys && Offers(best, current, purpose)
      && forall i :: 0 <= i < |keys| && Offers(keys[i], current, purpose) ==> AtMost(keys[i], best)
  }

  lemma EmptyIsUnreadable()
    ensures !Readable("")
  {
  }

  /** Looking at one more key, all of whose successors have been looked at. */
  lemma ConsiderKey(key: string, rest: seq<string>, current: Option<Version>, purpose: Purpose, best: string)
    requires IsBest(rest, current, purpose, best)
    requires Readable(key) && forall i :: 0 <= i < |rest| ==> CompareLexicographically(key, rest[i]) < 0
    ensures !Offers(key, current, purpose) ==> IsBest([key] + rest, current, purpose, best)
    ensures Offers(key, current, purpose) && best != "" && Compare(VersionOf(key), VersionOf(best)) <= 0 ==>
      IsBest([key] + rest, current, purpose, best)
    ensures Offers(key, current, purpose) && (best == "" || Compare(VersionOf(key), VersionOf(best)) > 0) ==>
      IsBest([key] + rest, current, purpose, key)
  {
    hide Compare, CompareLexicographically, Eligible, ParseVersion, Admitted;
    EmptyIsUnreadable();
    TextIsTotallyOrdered();
    var all := [key] + rest;
    var newBest := if Offers(key, current, purpose)
      && (best == "" || Compare(VersionOf(key), VersionOf(best)) > 0) then key else best;
    forall i | newBest != "" && 0 <= i < |all| && Offers(all[i], current, purpose) ensures AtMost(all[i], newBest) {
      CompareIsTotal(VersionOf(key), VersionOf(key));
      assert CompareLexicographically(key, key) == 0;
      if i > 0 {
        assert all[i] == rest[i - 1];
        if newBest == key {
          CompareIsTotal(VersionOf(key), VersionOf(best));
          CompareIsTransitive(VersionOf(all[i]), VersionOf(best), VersionOf(key));
        }
      }
    }
    assert forall i :: 0 <= i < |rest| ==> rest[i] == all[i + 1];
    assert all[0] == key;
    if newBest == "" {
      forall i | 0 <= i < |all| ensures !Offers(all[i], current, purpose) {
        if i > 0 { assert all[i] == rest[i - 1]; }
      }
    }
  }

  /**
   * The highest eligible update and, separately, the highest version of a newer major. Scanning
   * the keys backwards and replacing only on strictly higher precedence resolves ties between
   * versions that differ in build metadata. Any unreadable key makes the selection fail.
   */
  method SelectNpmVersion(keys: seq<string>, current: Option<Version>) returns (r: Result)
    requires IsKeyList(keys)
    ensures r.Selected? <==> forall i :: 0 <= i < |keys| ==> Readable(keys[i])
    ensures r.Selected? ==> IsBest(keys, current, Install, r.selection.version)
    ensures r.Selected? ==> IsBest(keys, current, Announce, r.selection.majorVersion)
    ensures r.Unreadable? ==>
      && r.key in keys && !Readable(r.key)
      && forall k :: k in keys && !Readable(k) ==> CompareLexicographically(k, r.key) <= 0
  {
    hide IsBest, Readable, CompareLexicographically, Compare;
    var version, majorVersion := "", "";
    var selected, major: Option<Version> := None, None;
    NothingIsBest(current, Install);
    NothingIsBest(current, Announce);
    assert keys[|keys|..] == [];
    for i := |keys| downto 0
      invariant forall j :: i <= j < |keys| ==> Readable(keys[j])
      invariant IsBest(keys[i..], current, Install, version)
      invariant IsBest(keys[i..], current, Announce, majorVersion)
      invariant selected == PickedVersion(version) && major == PickedVersion(majorVersion)
    {
      var key := keys[i];
      assert keys[i..] == [key] + keys[i + 1..];
      if !Readable(key) {
        GreatestUnreadable(keys, i);
        return Unreadable(key);
      }
      PickedIsReadable(key);
      BestIsReadable(keys[i + 1..], current, Install, version);
      BestIsReadable(keys[i + 1..], current, Announce, majorVersion);
      ConsiderKey(key, keys[i + 1..], current, Install, version);
      ConsiderKey(key, keys[i + 1..], current, Announce, majorVersion);
      var remote := VersionOf(key);
      if IsPrerelease(remote) && (current.None? || !IsPrerelease(current.value)) {
        continue;
      }
      if current.Some? && remote.major > current.value.major {
        if major.None? || Compare(remote, major.value) > 0 {
          major := Some(remote);
          majorVersion := key;
        }
        continue;
      }
      if current.Some? && (remote.major < current.value.major || Compare(remote, current.value) <= 0) {
        continue;
      }
      if selected.None? || Compare(remote, selected.value) > 0 {
        selected := Some(remote);
        version := key;
      }
    }
    assert keys[0..] == keys;
    return Selected(Selection(version, majorVersion));
  }

  /** The version remembered beside a picked key. */
  ghost function PickedVersion(key: string): Option<Version> {
    if Readable(key) then Some(VersionOf(key)) else None
  }

  lemma PickedIsReadable(key: string)
    ensures PickedVersion("") == None
    ensures Readable(key) ==> key != "" && PickedVersion(key) == Some(VersionOf(key))
  {
    EmptyIsUnreadable();
  }

  lemma NothingIsBest(current: Option<Version>, purpose: Purpose)
    ensures IsBest([], current, purpose, "") && PickedVersion("") == None
  {
    EmptyIsUnreadable();
  }

  lemma BestIsReadable(keys: seq<string>, current: Option<Version>, purpose: Purpose, best: string)
    requires IsBest(keys, current, purpose, best)
    ensures best != "" <==> Readable(best)
  {
    EmptyIsUnreadable();
  }

  lemma GreatestUnreadable(keys: seq<string>, i: nat)
    requires IsKeyList(keys) && i < |keys|
    requires forall j :: i < j < |keys| ==> Readable(keys[j])
    ensures forall k :: k in keys && !Readable(k) ==> CompareLexicographically(k, keys[i]) <= 0
  {
    TextIsTotallyOrdered();
    forall k | k in keys && !Readable(k) ensures CompareLexicographically(k, keys[i]) <= 0 {
      var j :| 0 <= j < |keys| && keys[j] == k;
      assert CompareLexicographically(keys[i], keys[i]) == 0;
    }
  }

  /** The best key is unique: no other key could have been picked. */
  lemma BestIsUnique(keys: seq<string>, current: Option<Version>, purpose: Purpose, a: string, b: string)
    requires IsBest(keys, current, purpose, a) && IsBest(keys, current, purpose, b)
    ensures a == b
  {
    TextIsTotallyOrdered();
    if a != "" && b != "" {
      var i :| 0 <= i < |keys| && keys[i] == a;
      var j :| 0 <= j < |keys| && keys[j] == b;
      assert AtMost(keys[i], b) && AtMost(keys[j], a);
      CompareIsTotal(VersionOf(a), VersionOf(b));
      assert CompareLexicographically(a, b) == -CompareLexicographically(b, a);
    }
  }

  /**
   * The update that is installed, in plain terms: of the current major version and above it, a
   * prerelease only for a current prerelease; nothing else of that kind is above it, and what equals
   * it in precedence is not above it as a text. Without a current version any release will do.
   */
  lemma InstalledMeans(keys: seq<string>, current: Option<Version>, best: string)
    requires IsBest(keys, current, Install, best)
    ensures best != "" ==>
      && best in keys && Readable(best)
      && Installable(VersionOf(best), current)
    ensures forall k :: k in keys && Readable(k) && Installable(VersionOf(k), current) ==>
      && best != ""
      && Compare(VersionOf(k), VersionOf(best)) <= 0
      && (Compare(VersionOf(k), VersionOf(best)) == 0 ==> k == best || TextBelow(k, best))
  {
    hide Compare, CompareLexicographically, ParseVersion, TextBelow;
    EmptyIsUnreadable();
    TextIsTotallyOrdered();
    forall k | k in keys && Readable(k) && Installable(VersionOf(k), current)
      ensures best != "" && AtMost(k, best)
    {
      var i :| 0 <= i < |keys| && keys[i] == k;
      assert Offers(keys[i], current, Install);
    }
    forall k: string | CompareLexicographically(k, best) <= 0 ensures k == best || TextBelow(k, best) {
      TextOrder(k, best);
    }
  }

  ghost predicate Installable(v: Version, current: Option<Version>) {
    match current
    case None => v.prerelease == ""
    case Some(c) => v.major == c.major && Compare(v, c) > 0 && (v.prerelease != "" ==> c.prerelease != "")
  }

  /** The newer major version that is announced, in plain terms; without a current version there is none. */
  lemma AnnouncedMeans(keys: seq<string>, current: Option<Version>, best: string)
    requires IsBest(keys, current, Announce, best)
    ensures current.None? ==> best == ""
    ensures best != "" ==>
      && best in keys && Readable(best)
      && Announceable(VersionOf(best), current)
    ensures forall k :: k in keys && Readable(k) && Announceable(VersionOf(k), current) ==>
      && best != ""
      && Compare(VersionOf(k), VersionOf(best)) <= 0
      && (Compare(VersionOf(k), VersionOf(best)) == 0 ==> k == best || TextBelow(k, best))
  {
    hide Compare, CompareLexicographically, ParseVersion, TextBelow;
    EmptyIsUnreadable();
    TextIsTotallyOrdered();
    forall k | k in keys && Readable(k) && Announceable(VersionOf(k), current)
      ensures best != "" && AtMost(k, best)
    {
      var i :| 0 <= i < |keys| && keys[i] == k;
      assert Offers(keys[i], current, Announce);
    }
    forall k: string | CompareLexicographically(k, best) <= 0 ensures k == best || TextBelow(k, best) {
      TextOrder(k, best);
    }
  }

  ghost predicate Announceable(v: Version, current: Option<Version>) {
    match current
    case None => false
    case Some(c) => v.major > c.major && (v.prerelease != "" ==> c.prerelease != "")
  }
}
