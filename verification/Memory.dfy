/** The in-memory backend: a `std::map` from DN to entry, every lookup a case-insensitive scan. */
module Memory {
  import opened Octets
  import opened OrderedKeys
  import opened Entries
  import opened Dn
  import opened Filters

  type Directory = map<Text, DirectoryEntry>

  /** What every reachable directory satisfies: DNs unique up to case, none empty. */
  ghost predicate UniqueKeys(dir: Directory) {
    UniqueUpToCase(dir.Keys) && [] !in dir
  }

  // ---------- the calls as functions of the directory ----------

  predicate Has(dir: Directory, dn: Text) {
    FindKey(dir.Keys, dn).Some?
  }

  function Lookup(dir: Directory, dn: Text): Option<DirectoryEntry> {
    match FindKey(dir.Keys, dn)
    case None => None
    case Some(k) => Some(dir[k])
  }

  predicate InScope(dn: Text, base: Text, scope: SearchScope) {
    if scope == BASE then DnEquals(dn, base)
    else if scope == ONE_LEVEL then DnIsOneLevelChild(dn, base)
    else if scope == SUBTREE then DnEndsWith(dn, base)
    else false
  }

  /** The entries of the listed keys that are in scope and match, in list order. */
  function Collect(dir: Directory, ks: seq<Text>, base: Text, scope: SearchScope, filter: SearchFilter): seq<DirectoryEntry>
    requires forall k :: k in ks ==> k in dir
  {
    if ks == [] then []
    else
      var k := ks[|ks| - 1];
      Collect(dir, ks[..|ks| - 1], base, scope, filter)
      + if InScope(k, base, scope) && FilterMatches(filter, dir[k]) then [dir[k]] else []
  }

  function Search(dir: Directory, base: Text, scope: SearchScope, filter: SearchFilter): seq<DirectoryEntry> {
    Collect(dir, SortedKeys(dir.Keys), base, scope, filter)
  }

  predicate HasChildren(dir: Directory, dn: Text) {
    exists k | k in dir :: DnIsOneLevelChild(k, dn)
  }

  datatype Outcome = Outcome(ok: bool, after: Directory)

  function Add(dir: Directory, entry: DirectoryEntry): Outcome {
    if entry.dn == [] || Has(dir, entry.dn) then Outcome(false, dir)
    else Outcome(true, dir[entry.dn := entry])
  }

  function Modify(dir: Directory, entry: DirectoryEntry): Outcome {
    match FindKey(dir.Keys, entry.dn)
    case None => Outcome(false, dir)
    case Some(k) => Outcome(true, dir[k := entry])
  }

  function Remove(dir: Directory, dn: Text): Outcome {
    match FindKey(dir.Keys, dn)
    case None => Outcome(false, dir)
    case Some(k) => Outcome(true, dir - {k})
  }

  function Rename(dir: Directory, from: Text, to: Text): Outcome {
    if from == [] || to == [] then Outcome(false, dir)
    else
      match FindKey(dir.Keys, from)
      case None => Outcome(false, dir)
      case Some(k) =>
        if exists t | t in dir :: DnEquals(t, to) && !DnEquals(t, from) then Outcome(false, dir)
        else if DnEquals(from, to) then Outcome(true, dir)
        else Outcome(true, (dir - {k})[to := dir[k].(dn := to)])
  }

  // ---------- any interleaving of calls ----------

  datatype Call =
    | LookupCall(dn: Text)
    | SearchCall(base: Text, scope: SearchScope, filter: SearchFilter)
    | HasChildrenCall(dn: Text)
    | AddCall(entry: DirectoryEntry)
    | ModifyCall(entry: DirectoryEntry)
    | RemoveCall(dn: Text)
    | RenameCall(from: Text, to: Text)

  datatype Reply = Entry(entry: Option<DirectoryEntry>) | Listing(entries: seq<DirectoryEntry>) | Flag(ok: bool)

  function Answer(dir: Directory, call: Call): (Reply, Directory) {
    match call
    case LookupCall(dn) => (Entry(Lookup(dir, dn)), dir)
    case SearchCall(base, scope, filter) => (Listing(Search(dir, base, scope, filter)), dir)
    case HasChildrenCall(dn) => (Flag(HasChildren(dir, dn)), dir)
    case AddCall(entry) => var r := Add(dir, entry); (Flag(r.ok), r.after)
    case ModifyCall(entry) => var r := Modify(dir, entry); (Flag(r.ok), r.after)
    case RemoveCall(dn) => var r := Remove(dir, dn); (Flag(r.ok), r.after)
    case RenameCall(from, to) => var r := Rename(dir, from, to); (Flag(r.ok), r.after)
  }

  function RunCalls(dir: Directory, calls: seq<Call>): (seq<Reply>, Directory)
    decreases |calls|
  {
    if calls == [] then ([], dir)
    else
      var (reply, next) := Answer(dir, calls[0]);
      var (replies, last) := RunCalls(next, calls[1..]);
      ([reply] + replies, last)
  }

  lemma FindUnique(dir: Directory, k: Text, dn: Text)
    requires UniqueKeys(dir) && k in dir && DnEquals(k, dn)
    ensures FindKey(dir.Keys, dn) == Some(k)
  {
  }

  /** The directory after a successful rename to a different name. */
  lemma RenameKeepsUnique(dir: Directory, k: Text, to: Text)
    requires UniqueKeys(dir) && k in dir && to != []
    requires forall t :: t in dir && DnEquals(t, to) ==> t == k
    ensures UniqueKeys((dir - {k})[to := dir[k].(dn := to)])
  {
    hide Lower;
    var after := (dir - {k})[to := dir[k].(dn := to)];
    assert after.Keys == (dir.Keys - {k}) + {to};
    assert forall a :: a in dir && a != k ==> !DnEquals(a, to);
    assert UniqueUpToCase(after.Keys);
  }

  lemma AnswerKeepsUnique(dir: Directory, call: Call)
    requires UniqueKeys(dir)
    ensures UniqueKeys(Answer(dir, call).1)
  {
    hide Lower, Search;
    match call
    case AddCall(entry) =>
      if Add(dir, entry).ok {
        assert dir[entry.dn := entry].Keys == dir.Keys + {entry.dn};
      }
    case ModifyCall(entry) =>
      if Modify(dir, entry).ok {
        assert Modify(dir, entry).after.Keys == dir.Keys;
      }
    case RenameCall(from, to) =>
      if Rename(dir, from, to).after != dir {
        RenameKeepsUnique(dir, FindKey(dir.Keys, from).value, to);
      }
    case _ =>
  }

  /** Every interleaving of backend calls, by any number of sessions, keeps DNs unique up to case. */
  lemma {:induction false} RunKeepsUnique(dir: Directory, calls: seq<Call>)
    requires UniqueKeys(dir)
    ensures UniqueKeys(RunCalls(dir, calls).1)
    decreases |calls|
  {
    hide Answer, UniqueKeys;
    if calls != [] {
      AnswerKeepsUnique(dir, calls[0]);
      RunKeepsUnique(Answer(dir, calls[0]).1, calls[1..]);
    }
  }

  lemma {:induction false} CollectSound(dir: Directory, ks: seq<Text>, base: Text, scope: SearchScope,
                                        filter: SearchFilter, i: nat) returns (k: Text)
    requires forall k :: k in ks ==> k in dir
    requires i < |Collect(dir, ks, base, scope, filter)|
    ensures k in ks && InScope(k, base, scope) && FilterMatches(filter, dir[k])
    ensures dir[k] == Collect(dir, ks, base, scope, filter)[i]
    decreases |ks|
  {
    hide InScope, FilterMatches;
    var init, last := ks[..|ks| - 1], ks[|ks| - 1];
    if i < |Collect(dir, init, base, scope, filter)| {
      k := CollectSound(dir, init, base, scope, filter, i);
    } else {
      k := last;
    }
  }

  lemma {:induction false} CollectComplete(dir: Directory, ks: seq<Text>, base: Text, scope: SearchScope,
                                           filter: SearchFilter, k: Text)
    requires forall k :: k in ks ==> k in dir
    requires k in ks && InScope(k, base, scope) && FilterMatches(filter, dir[k])
    ensures dir[k] in Collect(dir, ks, base, scope, filter)
    decreases |ks|
  {
    hide InScope, FilterMatches;
    var init, last := ks[..|ks| - 1], ks[|ks| - 1];
    if k != last {
      assert ks == init + [last];
      CollectComplete(dir, init, base, scope, filter, k);
    }
  }

  /** Search returns exactly the matching entries in scope. */
  lemma SearchIsExact(dir: Directory, base: Text, scope: SearchScope, filter: SearchFilter, e: DirectoryEntry)
    ensures e in Search(dir, base, scope, filter)
       <==> exists k :: k in dir && InScope(k, base, scope) && FilterMatches(filter, dir[k]) && e == dir[k]
  {
    hide InScope, FilterMatches, SortedKeys, Collect;
    var ks := SortedKeys(dir.Keys);
    var found := Collect(dir, ks, base, scope, filter);
    if e in found {
      var i :| 0 <= i < |found| && found[i] == e;
      var k := CollectSound(dir, ks, base, scope, filter, i);
    }
    if k :| k in dir && InScope(k, base, scope) && FilterMatches(filter, dir[k]) && e == dir[k] {
      CollectComplete(dir, ks, base, scope, filter, k);
    }
  }

  lemma CollectNone(dir: Directory, base: Text, scope: SearchScope, filter: SearchFilter)
    ensures Collect(dir, [], base, scope, filter) == []
  {
  }

  lemma CollectStep(dir: Directory, ks: seq<Text>, i: nat, base: Text, scope: SearchScope, filter: SearchFilter)
    requires i < |ks| && forall k :: k in ks ==> k in dir
    ensures Collect(dir, ks[..i + 1], base, scope, filter)
         == Collect(dir, ks[..i], base, scope, filter)
            + if InScope(ks[i], base, scope) && FilterMatches(filter, dir[ks[i]]) then [dir[ks[i]]] else []
  {
    hide InScope, FilterMatches;
    assert ks[..i + 1][..i] == ks[..i];
  }

  // ---------- the class ----------

  class MemoryBackend {
    var entries: Directory

    ghost predicate Valid()
      reads this
    {
      UniqueKeys(entries)
    }

    constructor ()
      ensures Valid() && entries == map[]
    {
      entries := map[];
    }

    method LookupEntry(dn: Text) returns (r: Option<DirectoryEntry>)
      ensures r == Lookup(entries, dn)
    {
      var found := FirstMatch(entries.Keys, dn);
      match found {
        case None => r := None;
        case Some(k) => r := Some(entries[k]);
      }
    }

    method SearchEntries(base: Text, scope: SearchScope, filter: SearchFilter) returns (matches: seq<DirectoryEntry>)
      ensures matches == Search(entries, base, scope, filter)
    {
      hide SortedKeys, Collect, InScope, FilterMatches;
      var ks := SortedKeys(entries.Keys);
      var i := 0;
      matches := [];
      CollectNone(entries, base, scope, filter);
      assert ks[..0] == [];
      while i < |ks|
        invariant 0 <= i <= |ks|
        invariant matches == Collect(entries, ks[..i], base, scope, filter)
      {
        var k := ks[i];
        CollectStep(entries, ks, i, base, scope, filter);
        if InScope(k, base, scope) && FilterMatches(filter, entries[k]) {
          matches := matches + [entries[k]];
        }
        i := i + 1;
      }
      assert ks[..|ks|] == ks;
    }

    method AddEntry(entry: DirectoryEntry) returns (ok: bool)
      requires Valid()
      modifies this
      ensures Valid()
      ensures Outcome(ok, entries) == Add(old(entries), entry)
    {
      AnswerKeepsUnique(entries, AddCall(entry));
      if entry.dn == [] {
        return false;
      }
      var found := FirstMatch(entries.Keys, entry.dn);
      if found.Some? {
        return false;
      }
      entries := entries[entry.dn := entry];
      return true;
    }

    method ModifyEntry(entry: DirectoryEntry) returns (ok: bool)
      requires Valid()
      modifies this
      ensures Valid()
      ensures Outcome(ok, entries) == Modify(old(entries), entry)
    {
      AnswerKeepsUnique(entries, ModifyCall(entry));
      var found := FirstMatch(entries.Keys, entry.dn);
      match found {
        case None => ok := false;
        case Some(k) =>
          entries := entries[k := entry];
          ok := true;
      }
    }

    method RemoveEntry(dn: Text) returns (ok: bool)
      requires Valid()
      modifies this
      ensures Valid()
      ensures Outcome(ok, entries) == Remove(old(entries), dn)
    {
      AnswerKeepsUnique(entries, RemoveCall(dn));
      var found := FirstMatch(entries.Keys, dn);
      match found {
        case None => ok := false;
        case Some(k) =>
          entries := entries - {k};
          ok := true;
      }
    }

    /** One pass finds the source and refuses when another entry already has the new name. */
    method RenameEntry(from: Text, to: Text) returns (ok: bool)
      requires Valid()
      modifies this
      ensures Valid()
      ensures Outcome(ok, entries) == Rename(old(entries), from, to)
    {
      hide Lower, LexLess, IEquals, SortedKeys, Answer, Rename, UniqueKeys;
      var dir := entries;
      RenameAnswer(dir, from, to);
      if from == [] || to == [] {
        return false;
      }
      var ks := SortedKeys(dir.Keys);
      var source: Option<Text> := None;
      var i := 0;
      while i < |ks|
        invariant 0 <= i <= |ks|
        invariant source.Some? ==> source.value in dir && DnEquals(source.value, from)
        invariant source.None? ==> forall j :: 0 <= j < i ==> !DnEquals(ks[j], from)
        invariant forall j :: 0 <= j < i ==> !(DnEquals(ks[j], to) && !DnEquals(ks[j], from))
      {
        var k := ks[i];
        assert k in ks;
        if DnEquals(k, from) {
          source := Some(k);
        } else if DnEquals(k, to) {
          NoRename(dir, from, to, k);
          return false;
        }
        i := i + 1;
      }
      assert forall t :: t in dir ==> t in ks;
      match source {
        case None =>
          NoSource(dir, from, to);
          ok := false;
        case Some(k) =>
          RenameFrom(dir, from, to, k);
          if !DnEquals(from, to) {
            entries := (dir - {k})[to := dir[k].(dn := to)];
          }
          ok := true;
      }
    }

    method HasChildEntries(dn: Text) returns (r: bool)
      ensures r == HasChildren(entries, dn)
    {
      var ks := SortedKeys(entries.Keys);
      var i := 0;
      while i < |ks|
        invariant 0 <= i <= |ks|
        invariant forall j :: 0 <= j < i ==> !DnIsOneLevelChild(ks[j], dn)
      {
        if DnIsOneLevelChild(ks[i], dn) {
          assert ks[i] in ks;
          return true;
        }
        i := i + 1;
      }
      assert forall k :: k in entries ==> k in ks;
      return false;
    }
  }

  lemma RenameAnswer(dir: Directory, from: Text, to: Text)
    requires UniqueKeys(dir)
    ensures UniqueKeys(Rename(dir, from, to).after)
    ensures from == [] || to == [] ==> Rename(dir, from, to) == Outcome(false, dir)
  {
    AnswerKeepsUnique(dir, RenameCall(from, to));
  }

  lemma NoSource(dir: Directory, from: Text, to: Text)
    requires forall t :: t in dir ==> !DnEquals(t, from)
    ensures Rename(dir, from, to) == Outcome(false, dir)
  {
  }

  lemma RenameFrom(dir: Directory, from: Text, to: Text, k: Text)
    requires UniqueKeys(dir) && from != [] && to != [] && k in dir && DnEquals(k, from)
    requires forall t :: t in dir ==> !(DnEquals(t, to) && !DnEquals(t, from))
    ensures Rename(dir, from, to)
         == Outcome(true, if DnEquals(from, to) then dir else (dir - {k})[to := dir[k].(dn := to)])
  {
    FindUnique(dir, k, from);
  }

  lemma NoRename(dir: Directory, from: Text, to: Text, t: Text)
    requires t in dir && DnEquals(t, to) && !DnEquals(t, from)
    ensures Rename(dir, from, to) == Outcome(false, dir)
  {
  }
}
