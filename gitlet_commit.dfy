/** A gitlet commit: an immutable record whose identity is the SHA-1 of its fields. */
module GitletCommit {
  import opened Wrappers
  import opened JavaText

  /** A file name, branch name or object id. An empty name would resolve to
      the enclosing directory itself, so names are non-empty. */
  type Name = s: string | s != [] witness "a"

  /** Utils.sha1 over a list of strings. It is left uninterpreted: nothing in
      the model assumes it is injective. */
  type Sha1 = seq<string> -> Name

  /** A java.util.Date: its millisecond value and its toString() text, which
      depends on the local time zone and is therefore an input. */
  datatype Timestamp = Timestamp(millis: int, text: string)

  /** A commit as constructed: all fields are final, and the hash is
      computed once from the others. */
  datatype Commit = Commit(
    message: string,
    timestamp: Timestamp,
    trackedFiles: map<Name, Name>,
    parent: Option<Name>,
    secondaryParent: Option<Name>,
    hash: Name)

  /** Map.Entry.toString() of a String-to-String entry. */
  function EntryText(key: string, value: string): string {
    key + "=" + value
  }

  function OrEmpty(s: Option<Name>): string {
    if s.Some? then s.value else ""
  }

  /** A set of names in ascending order: TreeMap key order, and the order of
      a sorted directory listing (lemmas SortedNamesAscending, SortedNamesLength). */
  function SortedNames(s: set<Name>): (r: seq<Name>)
    ensures forall i :: 0 <= i < |r| ==> r[i] in s
    ensures forall x :: x in s ==> x in r
  {
    var keys := SortedKeys(s);
    assert forall i :: 0 <= i < |keys| ==> keys[i] in s && keys[i] != [];
    keys
  }

  lemma SortedNamesAscending(s: set<Name>)
    ensures StrictlySorted(SortedNames(s))
  {
    var keys := SortedKeys(s);
    SortedKeysAscending(s);
    assert forall i :: 0 <= i < |keys| ==> SortedNames(s)[i] == keys[i];
  }

  /** A listing names each member once: it is as long as the set. */
  lemma SortedNamesLength(s: set<Name>)
    ensures |SortedNames(s)| == |s|
  {
    SortedKeysLength(s);
  }

  /** The entry texts of a manifest, in the TreeMap's ascending key order. */
  function ManifestItems(m: map<Name, Name>): seq<string>
  {
    var keys := SortedNames(m.Keys);
    seq(|keys|, i requires 0 <= i < |keys| => EntryText(keys[i], m[keys[i]]))
  }

  /** One "name=blob" entry per tracked file, the i-th for the i-th name in
      ascending order. */
  lemma ManifestItemsOrder(m: map<Name, Name>)
    ensures |ManifestItems(m)| == |m|
    ensures forall i :: 0 <= i < |m| ==>
      var k := SortedNames(m.Keys)[i]; k in m && ManifestItems(m)[i] == EntryText(k, m[k])
  {
    SortedNamesLength(m.Keys);
  }

  /** The list generateHash hands to sha1: the message, the timestamp text,
      each parent or "" when absent, then one "name=blob" item per tracked
      file in ascending name order. */
  function HashItems(message: string, timestamp: Timestamp, parent: Option<Name>,
                     secondaryParent: Option<Name>, trackedFiles: map<Name, Name>): seq<string>
  {
    [message, timestamp.text, OrEmpty(parent), OrEmpty(secondaryParent)] + ManifestItems(trackedFiles)
  }

  /** The four header items, then the manifest entries in ascending name order. */
  lemma HashItemsLayout(message: string, timestamp: Timestamp, parent: Option<Name>,
                        secondaryParent: Option<Name>, trackedFiles: map<Name, Name>)
    ensures var items := HashItems(message, timestamp, parent, secondaryParent, trackedFiles);
      && |items| == 4 + |trackedFiles|
      && items[0] == message && items[1] == timestamp.text
      && items[2] == OrEmpty(parent) && items[3] == OrEmpty(secondaryParent)
      && forall i :: 4 <= i < |items| ==>
           var k := SortedNames(trackedFiles.Keys)[i - 4]; k in trackedFiles && items[i] == EntryText(k, trackedFiles[k])
  {
    ManifestItemsOrder(trackedFiles);
  }

  /** The Commit constructor: a missing timestamp defaults to the current
      time `now`, a missing manifest to an empty one, and the hash is taken
      over the defaulted fields. */
  function NewCommit(message: string, timestamp: Option<Timestamp>, now: Timestamp,
                     trackedFiles: Option<map<Name, Name>>, parent: Option<Name>,
                     secondaryParent: Option<Name>, sha1: Sha1): (c: Commit)
    ensures c.message == message
    ensures c.timestamp == (if timestamp.Some? then timestamp.value else now)
    ensures c.trackedFiles == (if trackedFiles.Some? then trackedFiles.value else map[])
    ensures c.parent == parent && c.secondaryParent == secondaryParent
    ensures c.hash == sha1(HashItems(c.message, c.timestamp, c.parent, c.secondaryParent, c.trackedFiles))
  {
    var ts := if timestamp.Some? then timestamp.value else now;
    var tracked := if trackedFiles.Some? then trackedFiles.value else map[];
    Commit(message, ts, tracked, parent, secondaryParent,
           sha1(HashItems(message, ts, parent, secondaryParent, tracked)))
  }

  function MergeLine(c: Commit): string
    requires c.parent.Some? && c.secondaryParent.Some?
    requires |c.parent.value| >= 7 && |c.secondaryParent.value| >= 7
  {
    "Merge: " + c.parent.value[..7] + " " + c.secondaryParent.value[..7] + "\n"
  }

  predicate IsMerge(c: Commit) { c.parent.Some? && c.secondaryParent.Some? }

  /** Commit.log(), with the formatted date line (local time zone) as an
      input. substring(0, 7) needs parent ids of at least seven characters. */
  function Log(c: Commit, dateLine: string): (s: string)
    requires IsMerge(c) ==> |c.parent.value| >= 7 && |c.secondaryParent.value| >= 7
    ensures StartsWith(s, "===\ncommit " + c.hash + "\n")
    ensures var rest := s[|"===\ncommit " + c.hash + "\n"|..];
      && (IsMerge(c) ==> rest == "Merge: " + c.parent.value[..7] + " " + c.secondaryParent.value[..7] + "\n"
                                 + dateLine + "\n" + c.message + "\n\n")
      && (!IsMerge(c) ==> rest == dateLine + "\n" + c.message + "\n\n")
    ensures |s| >= |c.message| + 2 && s[|s| - |c.message| - 2..] == c.message + "\n\n"
  {
    var header := "===\ncommit " + c.hash + "\n";
    var merge := if IsMerge(c) then MergeLine(c) else "";
    var s := header + merge + dateLine + "\n" + c.message + "\n\n";
    assert s == header + (merge + dateLine + "\n" + c.message + "\n\n");
    assert s == (header + merge + dateLine + "\n") + (c.message + "\n\n");
    s
  }
}
