/**
 * The options page (options.js): an input box and the blocklist editor. Adding normalises the
 * typed name, appends it unless already present (raising an alert then), writes the list back
 * and clears the box; removing filters every copy of an entry out of the stored list.
 */
module Options {
  import opened Wrappers
  import opened Blocklist

  /** What one press of "Add" (or Enter) comes to. */
  datatype AddOutcome =
    | NothingTyped    // the normalised input is empty: storage is neither read nor written
    | Added           // appended and written back; the box is cleared and the Reddit tabs are told to refresh
    | AlreadyBlocked  // the "Subreddit is already blocked!" alert; nothing is written

  class OptionsPage {
    /** The current value of the "subredditInput" box. */
    var inputValue: string
    const storage: SyncStorage

    constructor (storage: SyncStorage, inputValue: string)
      ensures this.storage == storage && this.inputValue == inputValue
    {
      this.storage := storage;
      this.inputValue := inputValue;
    }

    /** addSubreddit. */
    method AddSubreddit() returns (outcome: AddOutcome)
      modifies this, storage
      ensures var name := Normalize(old(inputValue));
              && (name == "" ==> outcome == NothingTyped)
              && (name != "" && name in old(storage.Get()) ==> outcome == AlreadyBlocked)
              && (name != "" && name !in old(storage.Get()) ==> outcome == Added)
      ensures outcome != Added ==>
                storage.blockedSubreddits == old(storage.blockedSubreddits) && inputValue == old(inputValue)
      ensures outcome == Added ==>
                storage.blockedSubreddits == Some(old(storage.Get()) + [Normalize(old(inputValue))]) && inputValue == ""
      ensures outcome != NothingTyped ==> storage.Get() == WithAdded(old(storage.Get()), Normalize(old(inputValue)))
    {
      var subreddit := Normalize(inputValue);
      if subreddit == "" {
        outcome := NothingTyped;
        return;
      }
      var blocked := storage.Get();
      if subreddit !in blocked {
        blocked := blocked + [subreddit];
        storage.blockedSubreddits := Some(blocked);
        inputValue := "";
        outcome := Added;
      } else {
        outcome := AlreadyBlocked;
      }
    }

    /** removeSubreddit, bound to an entry's "Remove" button: the list is always written back. */
    method RemoveSubreddit(subredditToRemove: string)
      modifies storage
      ensures storage.blockedSubreddits == Some(RemoveAll(old(storage.Get()), subredditToRemove))
    {
      var blocked := storage.Get();
      blocked := RemoveAll(blocked, subredditToRemove);
      storage.blockedSubreddits := Some(blocked);
    }
  }
}
