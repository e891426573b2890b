/** Account lookup: the filter text built around a login name means what it should, and finds exactly one entry. */
module Accounts {
  import opened Octets
  import opened Entries
  import opened Dn
  import opened Filters
  import opened FilterText
  import opened Memory
  import opened Acl
  import opened Bind
  import opened OrderedKeys
  import Values

  const SAM_ACCOUNT: Text := Ascii("sAMAccountName")

  function AccountFilter(name: Text): Filter {
    Or([Equality(UID, name), Equality(SAM_ACCOUNT, name)])
  }

  predicate CleanName(name: Text) {
    name != [] && !exists b | b in name :: b in SPECIAL
  }

  lemma {:induction false} CleanHasNoStar(name: Text)
    requires forall b <- name :: b !in SPECIAL
    ensures NoBareStar(name)
    decreases |name|
  {
    if name != [] {
      assert name[0] in name;
      assert forall b <- name[1..] :: b in name;
      CleanHasNoStar(name[1..]);
    }
  }

  lemma WordIsName(word: string)
    requires word != "" && forall c <- word :: 'a' <= c <= 'z' || 'A' <= c <= 'Z'
    ensures NameOk(Ascii(word))
  {
    var name := Ascii(word);
    forall i | 0 <= i < |name| ensures 'A' as int <= name[i] <= 'z' as int && name[i] !in [AMPERSAND, BAR, BANG, EQUALS, OPEN, CLOSE] {
      assert word[i] in word;
    }
    assert NameLength(name) == |name|;
  }

  lemma AsciiConcat(a: string, b: string)
    ensures Ascii(a + b) == Ascii(a) + Ascii(b)
  {
  }

  lemma Literals()
    ensures FILTER_UID == [OPEN, BAR, OPEN] + UID + [EQUALS]
    ensures FILTER_SAM == [CLOSE, OPEN] + SAM_ACCOUNT + [EQUALS]
    ensures FILTER_END == [CLOSE, CLOSE]
  {
    hide Ascii;
    AsciiConcat("(|(" + "uid", "=");
    AsciiConcat("(|(", "uid");
    AsciiConcat(")(" + "sAMAccountName", "=");
    AsciiConcat(")(", "sAMAccountName");
    assert "(|(" + "uid" + "=" == "(|(uid=";
    assert ")(" + "sAMAccountName" + "=" == ")(sAMAccountName=";
    ShortLiterals();
  }

  lemma ShortLiterals()
    ensures Ascii("(|(") == [OPEN, BAR, OPEN] && Ascii(")(") == [CLOSE, OPEN] && Ascii("=") == [EQUALS]
    ensures Ascii("))") == [CLOSE, CLOSE]
  {
  }

  lemma PrintedAccountFilter(name: Text)
    ensures Print(AccountFilter(name)) == FILTER_UID + name + FILTER_SAM + name + FILTER_END
  {
    hide Ascii;
    Literals();
    PrintedItem(UID, name);
    PrintedItem(SAM_ACCOUNT, name);
    PrintedPair(Equality(UID, name), Equality(SAM_ACCOUNT, name));
    Glue(UID, SAM_ACCOUNT, name);
  }

  lemma PrintedItem(attribute: Text, value: Text)
    ensures Print(Equality(attribute, value)) == [OPEN] + attribute + [EQUALS] + value + [CLOSE]
  {
  }

  lemma PrintedPair(a: Filter, b: Filter)
    ensures Print(Or([a, b])) == [OPEN, BAR] + Print(a) + Print(b) + [CLOSE]
  {
    assert [a, b][1..] == [b] && [b][1..] == [];
    assert PrintAll([b]) == Print(b) + PrintAll([]);
    assert PrintAll([a, b]) == Print(a) + PrintAll([b]);
  }

  lemma Glue(first: Text, second: Text, name: Text)
    ensures [OPEN, BAR] + ([OPEN] + first + [EQUALS] + name + [CLOSE]) + ([OPEN] + second + [EQUALS] + name + [CLOSE]) + [CLOSE]
         == [OPEN, BAR, OPEN] + first + [EQUALS] + name + ([CLOSE, OPEN] + second + [EQUALS]) + name + [CLOSE, CLOSE]
  {
    assert [OPEN, BAR] + [OPEN] == [OPEN, BAR, OPEN] && [CLOSE] + [OPEN] == [CLOSE, OPEN] && [CLOSE] + [CLOSE] == [CLOSE, CLOSE];
    var middle := [CLOSE] + ([OPEN] + second + [EQUALS] + name + [CLOSE]) + [CLOSE];
    assert middle == ([CLOSE, OPEN] + second + [EQUALS]) + name + [CLOSE, CLOSE];
    assert [OPEN, BAR] + ([OPEN] + first + [EQUALS] + name) == [OPEN, BAR, OPEN] + first + [EQUALS] + name;
  }

  /** For every name the lookup accepts, the text it builds parses to exactly the intended disjunction. */
  lemma AccountFilterParses(name: Text)
    requires CleanName(name)
    ensures ParseSearchFilter(FILTER_UID + name + FILTER_SAM + name + FILTER_END)
         == SearchFilter(true, AccountFilter(name))
  {
    hide Ascii, ParseSearchFilter, Print, NameOk, NoBareStar;
    assert forall b <- name :: b !in SPECIAL;
    CleanHasNoStar(name);
    WordIsName("uid");
    WordIsName("sAMAccountName");
    assert CLOSE !in name;
    assert Printable(AccountFilter(name));
    PrintedAccountFilter(name);
    PrintedTextParses(AccountFilter(name));
  }

  /** The entry is below the configured base and carries the name as uid or sAMAccountName, up to case. */
  ghost predicate IsAccount(config: LdapConfig, dir: Directory, k: Text, name: Text) {
    k in dir && DnEndsWith(k, config.baseDn) && (HasValue(dir[k], UID, name) || HasValue(dir[k], SAM_ACCOUNT, name))
  }

  lemma AccountMatches(name: Text, entry: DirectoryEntry)
    ensures FilterMatches(SearchFilter(true, AccountFilter(name)), entry)
       <==> HasValue(entry, UID, name) || HasValue(entry, SAM_ACCOUNT, name)
  {
    hide FindAccount, IEquals;
    var a, b := Equality(UID, name), Equality(SAM_ACCOUNT, name);
    assert Matches(a, entry) <==> HasValue(entry, UID, name);
    assert Matches(b, entry) <==> HasValue(entry, SAM_ACCOUNT, name);
    assert AccountFilter(name).children == [a, b];
    assert a in [a, b] && b in [a, b];
  }

  /** A search lists no entry twice. */
  lemma {:induction false} CollectDistinct(dir: Directory, ks: seq<Text>, base: Text, scope: SearchScope, filter: SearchFilter)
    requires KeysMatch(dir) && forall k <- ks :: k in dir
    requires forall i, j :: 0 <= i < j < |ks| ==> ks[i] != ks[j]
    ensures var found := Collect(dir, ks, base, scope, filter);
            forall i, j :: 0 <= i < j < |found| ==> found[i].dn != found[j].dn
    decreases |ks|
  {
    hide InScope, FilterMatches;
    if ks != [] {
      var init, k := ks[..|ks| - 1], ks[|ks| - 1];
      CollectDistinct(dir, init, base, scope, filter);
      var before := Collect(dir, init, base, scope, filter);
      forall i | 0 <= i < |before| ensures before[i].dn != k {
        var x := CollectSound(dir, init, base, scope, filter, i);
        var m :| 0 <= m < |init| && init[m] == x;
        assert ks[m] == x;
      }
      var found := Collect(dir, ks, base, scope, filter);
      assert ks == init + [k] && dir[k].dn == k;
      assert found == before || found == before + [dir[k]];
      forall i, j | 0 <= i < j < |found| ensures found[i].dn != found[j].dn {
        assert found[i] == before[i];
        assert j < |before| ==> found[j] == before[j];
      }
    }
  }

  ghost predicate OnlyAccount(config: LdapConfig, dir: Directory, k: Text, name: Text) {
    forall other :: IsAccount(config, dir, other, name) <==> other == k
  }

  lemma MatchesAreAccounts(config: LdapConfig, dir: Directory, name: Text, k: Text)
    requires KeysMatch(dir) && CleanName(name)
    ensures var filter := SearchFilter(true, AccountFilter(name));
            IsAccount(config, dir, k, name) <==> k in dir && dir[k] in Search(dir, config.baseDn, SUBTREE, filter)
  {
    hide Search, Lower, HasValue, FilterMatches, AccountFilter, DnEndsWith;
    if k in dir {
      var filter := SearchFilter(true, AccountFilter(name));
      AccountMatches(name, dir[k]);
      SearchIsExact(dir, config.baseDn, SUBTREE, filter, dir[k]);
      assert InScope(k, config.baseDn, SUBTREE) <==> DnEndsWith(k, config.baseDn);
    }
  }

  /** A name finds an account exactly when it is free of filter syntax and one entry alone carries it. */
  lemma FindsTheOnlyAccount(config: LdapConfig, dir: Directory, name: Text, k: Text)
    requires KeysMatch(dir)
    ensures FindAccount(config, dir, name) == Some(k) <==> CleanName(name) && OnlyAccount(config, dir, k, name)
  {
    hide Search, Lower, HasValue, FilterMatches, ParseSearchFilter, AccountFilter, IsAccount, Collect;
    if CleanName(name) {
      AccountFilterParses(name);
      var filter := SearchFilter(true, AccountFilter(name));
      var matches := Search(dir, config.baseDn, SUBTREE, filter);
      forall other: Text ensures IsAccount(config, dir, other, name) <==> other in dir && dir[other] in matches {
        MatchesAreAccounts(config, dir, name, other);
      }
      forall e | e in matches ensures e.dn in dir && dir[e.dn] == e {
        SearchIsExact(dir, config.baseDn, SUBTREE, filter, e);
      }
      SearchDistinct(dir, config.baseDn, SUBTREE, filter);
      if OnlyAccount(config, dir, k, name) {
        assert IsAccount(config, dir, k, name);
        OneMatch(matches, k);
      }
      if |matches| == 1 && matches[0].dn == k {
        assert matches[0] in matches && matches == [matches[0]];
      }
    }
  }

  lemma SearchDistinct(dir: Directory, base: Text, scope: SearchScope, filter: SearchFilter)
    requires KeysMatch(dir)
    ensures var found := Search(dir, base, scope, filter);
            forall i, j :: 0 <= i < j < |found| ==> found[i].dn != found[j].dn
  {
    hide Collect, LexLess, SortedKeys;
    var ks := SortedKeys(dir.Keys);
    Values.DistinctKeys(dir.Keys);
    CollectDistinct(dir, ks, base, scope, filter);
    assert Search(dir, base, scope, filter) == Collect(dir, ks, base, scope, filter);
  }

  lemma OneMatch(matches: seq<DirectoryEntry>, k: Text)
    requires forall i, j :: 0 <= i < j < |matches| ==> matches[i].dn != matches[j].dn
    requires (exists e :: e in matches && e.dn == k) && forall e <- matches :: e.dn == k
    ensures |matches| == 1 && matches[0].dn == k
  {
    if |matches| >= 2 {
      FirstTwo(matches);
      assert false;
    }
  }

  lemma FirstTwo(matches: seq<DirectoryEntry>)
    requires |matches| >= 2
    ensures matches[0] in matches && matches[1] in matches
  {
  }
}
