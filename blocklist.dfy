/**
 * The blocklist as the three scripts keep it: the "blockedSubreddits" entry of
 * chrome.storage.sync, a plain list of strings, and the list edits they perform
 * on it (append-if-absent, remove-every-copy, toggle, lower-case-on-reload).
 */
module Blocklist {
  import opened Wrappers
  import opened Text

  /** The storage entry shared by the content script, the options page and the popup. */
  class SyncStorage {
    /** None until some script has written the key. */
    var blockedSubreddits: Option<seq<string>>

    constructor ()
      ensures blockedSubreddits == None
    {
      blockedSubreddits := None;
    }

    /** What every reader sees: `result.blockedSubreddits || []`. */
    function Get(): (r: seq<string>)
      reads this
      ensures blockedSubreddits.Some? ==> r == blockedSubreddits.value
      ensures blockedSubreddits.None? ==> r == []
    {
      if blockedSubreddits.Some? then blockedSubreddits.value else []
    }
  }

  /** `value.trim().toLowerCase()`, applied by both settings pages to what the user typed. */
  function Normalize(input: string): (r: string)
    ensures Trimmed(r) && IsLowerCase(r)
    ensures |r| <= |input|
  {
    LowerKeepsTrimmed(Trim(input));
    Lower(Trim(input))
  }

  /** Normalizing an already normalized name changes nothing. */
  lemma NormalizeIdempotent(input: string)
    ensures Normalize(Normalize(input)) == Normalize(input)
  {
    var n := Normalize(input);
    TrimKeepsTrimmed(n);
    LowerKeepsLowerCase(n);
  }

  lemma LowerCapitalPrefix(name: string)
    ensures Lower("R/" + name) == "r/" + Lower(name)
  {
    LowerAppend("R/", name);
  }

  /** A name without surrounding blanks is only lower-cased. */
  lemma NormalizeTrimmed(s: string)
    requires Trimmed(s)
    ensures Normalize(s) == Lower(s)
  {
    TrimKeepsTrimmed(s);
  }

  /** Surrounding blanks and capitals are dropped: " Foo " and "foo" name the same community. */
  lemma NormalizeDropsBlanksAndCase(pre: string, name: string, post: string)
    requires AllWhitespace(pre) && AllWhitespace(post) && Trimmed(name)
    ensures Normalize(pre + name + post) == Lower(name)
  {
    TrimStripsSurroundingWhitespace(pre, name, post);
  }

  /** The settings pages do not strip an "r/" prefix: "R/Foo" is stored as "r/foo", not "foo". */
  lemma NormalizeKeepsPrefix(name: string)
    requires Trimmed(name)
    ensures Normalize("R/" + name) == "r/" + Lower(name)
  {
    var s := "R/" + name;
    assert Trimmed(s) by {
      if name == [] {
        assert s[|s| - 1] == '/';
      } else {
        assert s[|s| - 1] == name[|name| - 1];
      }
    }
    NormalizeTrimmed(s);
    LowerCapitalPrefix(name);
  }

  predicate NoDuplicates(list: seq<string>)
  {
    forall i, j :: 0 <= i < j < |list| ==> list[i] != list[j]
  }

  predicate AllLowerCase(list: seq<string>)
  {
    forall k :: 0 <= k < |list| ==> IsLowerCase(list[k])
  }

  /** The add step of both settings pages: append the name unless `includes` finds it already. */
  function WithAdded(list: seq<string>, name: string): (r: seq<string>)
    ensures name in r
    ensures forall y :: y in r <==> y in list || y == name
    ensures list <= r && |r| <= |list| + 1
    ensures name in list ==> r == list
    ensures name !in list ==> r == list + [name]
  {
    if name in list then list else list + [name]
  }

  /** Adding a name that is already there changes nothing. */
  lemma WithAddedIdempotent(list: seq<string>, name: string)
    ensures WithAdded(WithAdded(list, name), name) == WithAdded(list, name)
  {
  }

  /** `list.filter(sub => sub !== x)`. */
  function RemoveAll(list: seq<string>, x: string): (r: seq<string>)
    ensures x !in r
    ensures forall y :: y != x ==> (y in r <==> y in list)
    ensures |r| <= |list|
  {
    if list == [] then []
    else (if list[0] == x then [] else [list[0]]) + RemoveAll(list[1..], x)
  }

  /** Filtering distributes over concatenation: the survivors keep their relative order. */
  lemma {:induction false} RemoveAllAppend(a: seq<string>, b: seq<string>, x: string)
    ensures RemoveAll(a + b, x) == RemoveAll(a, x) + RemoveAll(b, x)
    decreases |a|
  {
    if a == [] {
      assert a + b == b;
    } else {
      var head := if a[0] == x then [] else [a[0]];
      assert (a + b)[0] == a[0];
      assert (a + b)[1..] == a[1..] + b;
      assert RemoveAll(a + b, x) == head + RemoveAll(a[1..] + b, x);
      assert RemoveAll(a, x) == head + RemoveAll(a[1..], x);
      RemoveAllAppend(a[1..], b, x);
      assert head + (RemoveAll(a[1..], x) + RemoveAll(b, x))
          == (head + RemoveAll(a[1..], x)) + RemoveAll(b, x);
    }
  }

  /** Filtering a list that does not contain x returns it unchanged. */
  lemma {:induction false} RemoveAllAbsent(list: seq<string>, x: string)
    requires x !in list
    ensures RemoveAll(list, x) == list
    decreases |list|
  {
    if list != [] {
      RemoveAllAbsent(list[1..], x);
      assert [list[0]] + list[1..] == list;
    }
  }

  /** Every copy of x goes and every other entry stays, as often as it occurred. */
  lemma {:induction false} RemoveAllCounts(list: seq<string>, x: string)
    ensures multiset(RemoveAll(list, x)) == multiset(list)[x := 0]
    decreases |list|
  {
    if list != [] {
      RemoveAllCounts(list[1..], x);
      assert list == [list[0]] + list[1..];
      assert multiset(list) == multiset([list[0]]) + multiset(list[1..]);
    }
  }

  /** Removing keeps a duplicate-free list duplicate-free. */
  lemma {:induction false} RemoveAllKeepsNoDuplicates(list: seq<string>, x: string)
    requires NoDuplicates(list)
    ensures NoDuplicates(RemoveAll(list, x))
    decreases |list|
  {
    if list != [] {
      RemoveAllKeepsNoDuplicates(list[1..], x);
      var rest := RemoveAll(list[1..], x);
      assert list[0] !in list[1..] by {
        forall k | 0 <= k < |list[1..]| ensures list[1..][k] != list[0] {
          assert list[1..][k] == list[k + 1];
        }
      }
      assert list[0] !in rest;
    }
  }

  /** The list edit of the content script's filter button: remove every copy if present, else append once. */
  function Toggled(list: seq<string>, name: string): (r: seq<string>)
    ensures name in r <==> name !in list
    ensures forall y :: y != name ==> (y in r <==> y in list)
  {
    if name in list then RemoveAll(list, name) else list + [name]
  }

  /** Filtering x out of a list that holds it only at the end drops just that last entry. */
  lemma RemoveAllDropsLast(a: seq<string>, x: string)
    requires x !in a
    ensures RemoveAll(a + [x], x) == a
  {
    RemoveAllAppend(a, [x], x);
    RemoveAllAbsent(a, x);
    assert RemoveAll([x], x) == [];
  }

  /** Toggling a name that is not on the list, then toggling it again, restores the list exactly. */
  lemma ToggleTwiceFromAbsent(list: seq<string>, name: string)
    requires name !in list
    ensures Toggled(list, name) == list + [name]
    ensures Toggled(Toggled(list, name), name) == list
  {
    RemoveAllDropsLast(list, name);
  }

  /** Toggling a name that is on the list once removes it and leaves the other entries in order. */
  lemma ToggleFromPresent(list: seq<string>, name: string, a: seq<string>, b: seq<string>)
    requires list == a + [name] + b && name !in a && name !in b
    ensures Toggled(list, name) == a + b
  {
    assert list[|a|] == name;
    RemoveAllAppend(a + [name], b, name);
    RemoveAllAbsent(b, name);
    RemoveAllDropsLast(a, name);
  }

  /** The shape the stored list keeps as long as only these scripts write it: lower-case entries, no duplicates. */
  predicate WellFormed(list: seq<string>)
  {
    NoDuplicates(list) && AllLowerCase(list)
  }

  /** Adding, removing and toggling a lower-case name keep the stored list well formed. */
  lemma EditsKeepWellFormed(list: seq<string>, name: string, x: string)
    requires WellFormed(list) && IsLowerCase(name)
    ensures WellFormed(WithAdded(list, name))
    ensures WellFormed(RemoveAll(list, x))
    ensures WellFormed(Toggled(list, name))
  {
    RemoveAllKeepsNoDuplicates(list, x);
    RemoveAllKeepsNoDuplicates(list, name);
    var r := RemoveAll(list, x);
    forall k | 0 <= k < |r| ensures IsLowerCase(r[k]) {
      assert r[k] in r;
    }
    var t := RemoveAll(list, name);
    forall k | 0 <= k < |t| ensures IsLowerCase(t[k]) {
      assert t[k] in t;
    }
  }

  /** The reload step `list.map(s => s.toLowerCase())`. */
  function LowerAll(list: seq<string>): (r: seq<string>)
    ensures |r| == |list|
    ensures forall k :: 0 <= k < |list| ==> r[k] == Lower(list[k])
    ensures AllLowerCase(r)
  {
    if list == [] then [] else [Lower(list[0])] + LowerAll(list[1..])
  }

  /** Reloading an already lower-case list leaves it as it is. */
  lemma LowerAllKeepsLowerCase(list: seq<string>)
    requires AllLowerCase(list)
    ensures LowerAll(list) == list
  {
    forall k | 0 <= k < |list| ensures LowerAll(list)[k] == list[k] {
      LowerKeepsLowerCase(list[k]);
    }
  }

  /**
   * On a lower-case list, a toggle flips whether the name is in the reloaded cache:
   * after the toggle the content script hides the name's posts iff they were shown before.
   */
  lemma ToggleFlipsCache(list: seq<string>, name: string)
    requires AllLowerCase(list) && IsLowerCase(name)
    ensures name in LowerAll(Toggled(list, name)) <==> name !in list
  {
    var t := Toggled(list, name);
    assert AllLowerCase(t) by {
      forall k | 0 <= k < |t| ensures IsLowerCase(t[k]) {
        assert t[k] in t;
        if t[k] != name { assert t[k] in list; }
      }
    }
    LowerAllKeepsLowerCase(t);
  }

  /**
   * The toggle compares raw stored entries while the cache is lower-cased: an entry stored with
   * capitals (say "AskReddit" beside "askreddit") survives "un-filtering" and keeps the community
   * in the reloaded cache.
   */
  lemma MixedCaseEntrySurvivesToggle(stored: string, name: string)
    requires stored != name && Lower(stored) == name
    ensures name in [stored, name]
    ensures Toggled([stored, name], name) == [stored]
    ensures name in LowerAll(Toggled([stored, name], name))
  {
    assert [stored, name] == [stored] + [name];
    assert [stored, name][1] == name;
    RemoveAllDropsLast([stored], name);
    assert LowerAll([stored])[0] == name;
  }
}
