/**
 * One session against both tables, checked against the contracts alone:
 * register, log in, add an entry without an image, mark it favourite, have
 * another user try to delete it, then list and search.
 */
module Walkthrough {
  import opened Common
  import opened JournalSchema
  import opened Accounts
  import opened Entries
  import Uploads

  method AccountSession(hash: string -> string) returns (amy: UserId)
  {
    var accounts := new AccountRegistry(hash);
    var registered := accounts.Register("Amy", "a@x.com", "pw123");
    assert registered.Registered?;
    assert Login(accounts.users, hash, "a@x.com", "pw123") == LoggedIn(Profile("Amy", "a@x.com"), registered.token);
    var again := accounts.Register("Amy", "a@x.com", "other");
    assert accounts.users[0].email == "a@x.com";
    assert again.UserExists?;
    amy := registered.token.userId;
  }

  method EntrySession(amy: UserId, now: int)
  {
    var store := new EntryStore();
    var added := store.Add(amy, EntryRequest("Trip", "Beach Day", Some(["travel"]), "", Some(1700000000000)), now);
    assert added.Ok? && added.entry.imageUrl == Uploads.PlaceholderImageUrl && !added.entry.isFavourite;
    var id := added.entry.id;

    var favourite := store.SetFavourite(amy, id, true);
    assert favourite.Ok? && favourite.entry.isFavourite;

    var intruder, target := store.Delete(amy + 1, id);
    assert intruder.NotFound? && target.None? && store.entries == [favourite.entry];

    ListsAlone(store.entries, favourite.entry);
    SearchFinds(store.entries, favourite.entry);
  }

  lemma ListsAlone(entries: seq<Entry>, e: Entry)
    requires entries == [e]
    ensures GetAll(entries, e.userId) == [e]
  {
    var listed := GetAll(entries, e.userId);
    assert multiset(listed) == multiset{e};
    assert |listed| == 1 && listed[0] in multiset(listed);
  }

  lemma SearchFinds(entries: seq<Entry>, e: Entry)
    requires entries == [e] && e.notes == "Beach Day"
    ensures var found := Search(entries, e.userId, "beach");
      found.Results? && e in multiset(found.entries)
  {
    assert Lower("beach") == "beach";
    assert Lower(e.notes)[..5] == "beach";
    assert OccursAt(Lower(e.notes), Lower("beach"), 0);
    assert Matches(e, "beach");
  }
}
