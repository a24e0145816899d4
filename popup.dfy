/**
 * The toolbar popup (popup.js): the same editor as the options page, except that adding a name
 * that is already blocked is silently ignored, and only the active tab is told to refresh.
 */
module Popup {
  import opened Wrappers
  import opened Blocklist

  class PopupPage {
    /** The current value of the "subredditInput" box. */
    var inputValue: string
    const storage: SyncStorage

    constructor (storage: SyncStorage, inputValue: string)
      ensures this.storage == storage && this.inputValue == inputValue
    {
      this.storage := storage;
      this.inputValue := inputValue;
    }

    /** The "Add" button's click handler; `added` tells whether the list was written. */
    method AddClicked() returns (added: bool)
      modifies this, storage
      ensures var name := Normalize(old(inputValue));
              added <==> name != "" && name !in old(storage.Get())
      ensures !added ==> storage.blockedSubreddits == old(storage.blockedSubreddits) && inputValue == old(inputValue)
      ensures added ==>
                storage.blockedSubreddits == Some(old(storage.Get()) + [Normalize(old(inputValue))]) && inputValue == ""
      ensures Normalize(old(inputValue)) != "" ==>
                storage.Get() == WithAdded(old(storage.Get()), Normalize(old(inputValue)))
    {
      added := false;
      var subreddit := Normalize(inputValue);
      if subreddit != "" {
        var blocked := storage.Get();
        if subreddit !in blocked {
          blocked := blocked + [subreddit];
          storage.blockedSubreddits := Some(blocked);
          inputValue := "";
          added := true;
        }
      }
    }

    /** removeSubreddit, bound to an entry's "Remove" button: the list is always written back. */
    method RemoveSubreddit(subredditToRemove: string)
      modifies storage
      ensures storage.blockedSubreddits == Some(RemoveAll(old(storage.Get()), subredditToRemove))
    {
      var blocked := storage.Get();
      blocked := RemoveAll(blocked, subredditToRemove);
      storage.blockedSubreddits := Some(blocked);
    }
  }
}
