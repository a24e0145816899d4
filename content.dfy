/**
 * The content script (content.js): its cached blocklist, the scan-and-apply pass over the
 * located posts, the filter button's toggle and the mutation-batch check that triggers a rescan.
 * The document's posts are an array of Post values that the methods update in place.
 */
module Content {
  import opened Wrappers
  import opened Text
  import opened Blocklist
  import opened Extraction

  /** The text of a filter button: "Filtered" while its community is blocked, "Filter" otherwise. */
  function Label(filtered: bool): string
  {
    if filtered then "Filtered" else "Filter"
  }

  /**
   * The injected ".reddit-filter-button": the community its click handler was bound to,
   * its text, its tooltip, and whether it carries the "filtered" class.
   */
  datatype Button = Button(subreddit: string, text: string, title: string, filteredClass: bool)

  /**
   * A located post container: its candidate links (one slot per link selector, in selector
   * order), whether it carries the "hidden-by-extension" class, and its filter button if any.
   */
  datatype Post = Post(links: seq<Option<Link>>, hidden: bool, button: Option<Button>)

  /** The button's text and its "filtered" class tell the same story. */
  predicate Consistent(b: Button)
  {
    b.text == Label(b.filteredClass)
  }

  /** The name `if (subredditName)` lets through: extraction succeeded and the name is not empty. */
  function PostName(links: seq<Option<Link>>): (r: Option<string>)
    ensures r.Some? ==> r.value != "" && IsLowerCase(r.value) && NameOf(links) == r
    ensures r.None? ==> NameOf(links) == None || NameOf(links) == Some("")
  {
    match NameOf(links)
    case Some(name) => if name != "" then Some(name) else None
    case None => None
  }

  /**
   * A first candidate whose trimmed text is exactly "r/" ends the search with the empty name,
   * so the post stays unnamed whatever the later candidates hold.
   */
  lemma BarePrefixLeavesPostUnnamed(text: string, href: Option<string>, rest: seq<Option<Link>>)
    requires Trim(text) == "r/"
    ensures PostName([Some(Link(text, href))] + rest) == None
  {
    var links := [Some(Link(text, href))] + rest;
    assert links[0] == Some(Link(text, href));
    assert Trim(text)[2..] == [];
    FirstSuccessWins(links, 0);
  }

  /** The button addFilterButton creates, labelled from the cache at creation time. */
  function NewButton(name: string, blocked: seq<string>): (b: Button)
    ensures Consistent(b) && b.subreddit == name
    ensures b.filteredClass <==> name in blocked
  {
    var filtered := name in blocked;
    Button(name, Label(filtered), "Filter out r/" + name, filtered)
  }

  /** addFilterButton on one post: a post that already has a button is left alone. */
  function WithButton(p: Post, name: string, blocked: seq<string>): (q: Post)
    ensures p.button.Some? ==> q == p
    ensures p.button.None? ==> q.button == Some(NewButton(name, blocked))
    ensures q.links == p.links && q.hidden == p.hidden
  {
    if p.button.Some? then p else p.(button := Some(NewButton(name, blocked)))
  }

  /** What one pass of filterFeedContent does to one post, given the cached blocklist. */
  function Scanned(blocked: seq<string>, p: Post): (q: Post)
    ensures q.links == p.links
    ensures PostName(p.links).None? ==> q == p
    ensures PostName(p.links).Some? ==> q.button.Some? && q.hidden == (PostName(p.links).value in blocked)
    ensures p.button.Some? ==> q.button == p.button
  {
    match PostName(p.links)
    case None => p
    case Some(name) => WithButton(p, name, blocked).(hidden := name in blocked)
  }

  /** The scan of one post, read off the name the selector loop returned. */
  lemma ScannedFromName(blocked: seq<string>, p: Post, name: Option<string>)
    requires name == NameOf(p.links)
    ensures Scanned(blocked, p) ==
              if name.Some? && name.value != "" then WithButton(p, name.value, blocked).(hidden := name.value in blocked)
              else p
  {
  }

  /** A second pass with the same cache changes nothing: no second button, no change of visibility. */
  lemma ScanIdempotent(blocked: seq<string>, p: Post)
    ensures Scanned(blocked, Scanned(blocked, p)) == Scanned(blocked, p)
  {
  }

  /** A button created by a pass is bound to the post's name and reads "Filtered" (with class "filtered") iff the name is blocked. */
  lemma NewButtonReflectsCache(blocked: seq<string>, p: Post)
    requires p.button.None? && PostName(p.links).Some?
    ensures var b := Scanned(blocked, p).button.value;
            b.subreddit == PostName(p.links).value
            && Consistent(b)
            && (b.text == "Filtered" <==> PostName(p.links).value in blocked)
  {
  }

  /** A later pass never relabels an existing button, even when the cache has changed since. */
  lemma ButtonLabelNotRefreshed(before: seq<string>, after: seq<string>, p: Post)
    ensures Scanned(after, Scanned(before, p)).button == Scanned(before, p).button
  {
  }

  /** The filter button's own relabelling in toggleSubredditFilter. */
  function Relabelled(p: Post, filtered: bool): (q: Post)
    requires p.button.Some?
    ensures q.links == p.links && q.hidden == p.hidden && q.button.Some?
    ensures Consistent(q.button.value) && q.button.value.filteredClass == filtered
    ensures q.button.value.subreddit == p.button.value.subreddit
    ensures q.button.value.title == p.button.value.title
  {
    p.(button := Some(p.button.value.(text := Label(filtered), filteredClass := filtered)))
  }

  /**
   * Toggle round trip for the clicked post: when the stored list is lower-case, after the toggle
   * and the reload it triggers, the post is hidden iff its name was not blocked before, and its
   * button says the same.
   */
  lemma ToggleThenReloadAgrees(stored: seq<string>, p: Post)
    requires AllLowerCase(stored)
    requires p.button.Some? && PostName(p.links) == Some(p.button.value.subreddit)
    ensures var name := p.button.value.subreddit;
            var q := Scanned(LowerAll(Toggled(stored, name)), Relabelled(p, name !in stored));
            q.hidden == (name !in stored) && q.button.value.filteredClass == q.hidden && Consistent(q.button.value)
  {
    var name := p.button.value.subreddit;
    ToggleFlipsCache(stored, name);
  }

  /**
   * The same round trip with an entry stored in capitals (as a seeded list may hold): the
   * button now reads "Filter" but the reloaded cache still hides the post.
   */
  lemma UnfilterCanLeavePostHidden(stored: string, p: Post)
    requires p.button.Some? && PostName(p.links) == Some(p.button.value.subreddit)
    requires stored != p.button.value.subreddit && Lower(stored) == p.button.value.subreddit
    ensures var name := p.button.value.subreddit;
            var q := Scanned(LowerAll(Toggled([stored, name], name)), Relabelled(p, false));
            q.hidden && q.button.value.text == "Filter"
  {
    MixedCaseEntrySurvivesToggle(stored, p.button.value.subreddit);
  }

  /** Some added element node is, or contains, a post container. */
  predicate PostAdded(mutations: seq<seq<bool>>)
  {
    exists m, n :: 0 <= m < |mutations| && 0 <= n < |mutations[m]| && mutations[m][n]
  }

  /**
   * The MutationObserver callback's scan of one batch: each mutation lists, per added node,
   * whether that node is or contains a post container; the scan stops at the first hit.
   */
  method NewContentPotentiallyAdded(mutations: seq<seq<bool>>) returns (found: bool)
    ensures found <==> PostAdded(mutations)
  {
    found := false;
    var m := 0;
    while m < |mutations|
      invariant 0 <= m <= |mutations|
      invariant !found
      invariant forall i, j :: 0 <= i < m && 0 <= j < |mutations[i]| ==> !mutations[i][j]
    {
      var n := 0;
      while n < |mutations[m]|
        invariant 0 <= n <= |mutations[m]|
        invariant !found
        invariant forall j :: 0 <= j < n ==> !mutations[m][j]
      {
        if mutations[m][n] {
          found := true;
          break;
        }
        n := n + 1;
      }
      if found {
        break;
      }
      m := m + 1;
    }
  }

  /** applyStyles: add or remove the "hidden-by-extension" class. */
  method ApplyStyles(posts: array<Post>, i: nat, shouldHide: bool)
    requires i < posts.Length
    modifies posts
    ensures posts[i] == old(posts[i]).(hidden := shouldHide)
    ensures forall k :: 0 <= k < posts.Length && k != i ==> posts[k] == old(posts[k])
  {
    posts[i] := posts[i].(hidden := shouldHide);
  }

  /** The content script's state: the module-level cache of the blocklist, and the storage it is read from. */
  class ContentScript {
    var blockedSubreddits: seq<string>
    const storage: SyncStorage

    constructor (storage: SyncStorage)
      ensures blockedSubreddits == [] && this.storage == storage
    {
      blockedSubreddits := [];
      this.storage := storage;
    }

    /** addFilterButton: create the button once, labelled from the current cache. */
    method AddFilterButton(posts: array<Post>, i: nat, name: string)
      requires i < posts.Length
      modifies posts
      ensures posts[i] == WithButton(old(posts[i]), name, blockedSubreddits)
      ensures forall k :: 0 <= k < posts.Length && k != i ==> posts[k] == old(posts[k])
    {
      if posts[i].button.Some? {
        return;
      }
      posts[i] := posts[i].(button := Some(NewButton(name, blockedSubreddits)));
    }

    /** filterFeedContent: one scan-and-apply pass over every located post, against one snapshot of the cache. */
    method FilterFeedContent(posts: array<Post>)
      modifies posts
      ensures forall k :: 0 <= k < posts.Length ==> posts[k] == Scanned(blockedSubreddits, old(posts[k]))
    {
      var i := 0;
      while i < posts.Length
        invariant 0 <= i <= posts.Length
        invariant forall k :: 0 <= k < i ==> posts[k] == Scanned(blockedSubreddits, old(posts[k]))
        invariant forall k :: i <= k < posts.Length ==> posts[k] == old(posts[k])
      {
        ghost var pre := posts[..];
        ghost var before := posts[i];
        var name := ExtractName(posts[i].links);
        ScannedFromName(blockedSubreddits, before, name);
        if name.Some? && name.value != "" {
          AddFilterButton(posts, i, name.value);
          ApplyStyles(posts, i, name.value in blockedSubreddits);
        }
        assert posts[i] == Scanned(blockedSubreddits, before);
        assert forall k :: 0 <= k < posts.Length && k != i ==> posts[k] == pre[k];
        i := i + 1;
      }
    }

    /** loadAndFilter: reload the cache, lower-casing every stored entry, then run a pass. */
    method LoadAndFilter(posts: array<Post>)
      modifies this, posts
      ensures blockedSubreddits == LowerAll(storage.Get())
      ensures forall k :: 0 <= k < posts.Length ==> posts[k] == Scanned(blockedSubreddits, old(posts[k]))
    {
      blockedSubreddits := LowerAll(storage.Get());
      FilterFeedContent(posts);
    }

    /**
     * toggleSubredditFilter, run by a click on the button of post i: remove every stored copy of the
     * button's name, or append it once; relabel the button; write the list back; reload and rescan.
     */
    method ToggleSubredditFilter(posts: array<Post>, i: nat)
      requires i < posts.Length && posts[i].button.Some?
      modifies this, posts, storage
      ensures var name := old(posts[i].button.value.subreddit);
              var written := Toggled(old(storage.Get()), name);
              storage.blockedSubreddits == Some(written) && blockedSubreddits == LowerAll(written)
      ensures var name := old(posts[i].button.value.subreddit);
              var clicked := Relabelled(old(posts[i]), name !in old(storage.Get()));
              forall k :: 0 <= k < posts.Length ==>
                posts[k] == Scanned(blockedSubreddits, if k == i then clicked else old(posts[k]))
    {
      var button := posts[i].button.value;
      var name := button.subreddit;
      var list := storage.Get();
      if name in list {
        list := RemoveAll(list, name);
        posts[i] := posts[i].(button := Some(button.(text := "Filter", filteredClass := false)));
      } else {
        list := list + [name];
        posts[i] := posts[i].(button := Some(button.(text := "Filtered", filteredClass := true)));
      }
      storage.blockedSubreddits := Some(list);
      LoadAndFilter(posts);
    }

    /** The MutationObserver callback: at most one pass per batch, exactly one iff a post container was added. */
    method OnMutations(posts: array<Post>, mutations: seq<seq<bool>>) returns (passes: nat)
      modifies posts
      ensures passes == if PostAdded(mutations) then 1 else 0
      ensures forall k :: 0 <= k < posts.Length ==>
                posts[k] == if PostAdded(mutations) then Scanned(blockedSubreddits, old(posts[k])) else old(posts[k])
    {
      passes := 0;
      var added := NewContentPotentiallyAdded(mutations);
      if added {
        FilterFeedContent(posts);
        passes := 1;
      }
    }
  }
}
