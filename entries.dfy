/**
 * The journal-entry routes over an in-memory, owner-scoped entry table.
 * Every lookup is keyed on the entry id AND the caller's user id, so an entry
 * owned by someone else is indistinguishable from one that does not exist.
 * Every query returns only the caller's entries, favourites before the rest.
 */
module Entries {
  import opened Common
  import opened JournalSchema
  import Uploads

  /** The body of an add or edit request; "" and `None` stand for a field the client left out. */
  datatype EntryRequest = EntryRequest(
    title: string,
    notes: string,
    tag: Option<seq<string>>,
    imageUrl: string,
    journalDate: Option<int>)

  /** What an add, edit, delete or set-favourite request answers. */
  datatype Outcome =
    | Ok(entry: Entry)
    | MissingFields     // 400 "All fields are required"
    | NotFound          // 400 "Journal entry not found"
    | InvalidDocument   // 400 with the validation message of save()

  /** The truthiness test of add-entry: title and notes non-empty, tag supplied (an empty list passes). */
  predicate AddFieldsPresent(req: EntryRequest)
  {
    req.title != "" && req.notes != "" && req.tag.Some?
  }

  /** The truthiness test of edit-entry: as for add, and a journal date that is neither missing nor 0. */
  predicate EditFieldsPresent(req: EntryRequest)
  {
    AddFieldsPresent(req) && req.journalDate.Some? && req.journalDate.value != 0
  }

  /** `imageUrl || placeholder`: an entry never ends up without an image URL. */
  function ImageOrPlaceholder(url: string): (r: string)
    ensures r != ""
    ensures url != "" ==> r == url
    ensures url == "" ==> r == Uploads.PlaceholderImageUrl
  {
    if url != "" then url else Uploads.PlaceholderImageUrl
  }

  /** The document add-entry builds before saving it. */
  function NewDocument(caller: UserId, req: EntryRequest): Draft
  {
    Draft(Some(req.title), Some(req.notes), req.tag, None, Some(caller), None,
          Some(ImageOrPlaceholder(req.imageUrl)), req.journalDate)
  }

  /** Edit overwrites title, notes, tag, image and journal date; nothing else about the entry changes. */
  function Edited(e: Entry, req: EntryRequest): (r: Entry)
    requires EditFieldsPresent(req)
    ensures r.id == e.id && r.userId == e.userId
    ensures r.createdOn == e.createdOn && r.isFavourite == e.isFavourite
    ensures r.title == req.title && r.notes == req.notes && r.tag == req.tag.value
    ensures r.imageUrl == ImageOrPlaceholder(req.imageUrl) && r.journalDate == req.journalDate.value
    ensures Complete(r)
  {
    e.(title := req.title, notes := req.notes, tag := req.tag.value,
       imageUrl := ImageOrPlaceholder(req.imageUrl), journalDate := req.journalDate.value)
  }

  /** `findOne({_id: id, userId: caller})`: position of the entry with this id owned by the caller. */
  function Lookup(es: seq<Entry>, id: EntryId, caller: UserId): (r: Option<nat>)
    ensures r.Some? ==> r.value < |es| && es[r.value].id == id && es[r.value].userId == caller
    ensures r.None? <==> forall i :: 0 <= i < |es| ==> !(es[i].id == id && es[i].userId == caller)
  {
    FirstIndex(es, (e: Entry) => e.id == id && e.userId == caller)
  }

  predicate DistinctIds(es: seq<Entry>)
  {
    forall i, j :: 0 <= i < j < |es| ==> es[i].id != es[j].id
  }

  /** Another user's entry is looked up exactly as if it did not exist. */
  lemma ForeignEntryLooksMissing(es: seq<Entry>, k: nat, caller: UserId)
    requires DistinctIds(es) && k < |es| && es[k].userId != caller
    ensures Lookup(es, es[k].id, caller).None?
  {
  }

  // ---------------------------------------------------------------- queries

  /** The filter documents of the three list routes; every one is scoped to an owner. */
  datatype Criterion =
    | Everything                        // get-all-entries
    | Text(query: string)               // search: title, notes or a tag matches
    | DateRange(start: int, end: int)   // filter: start <= journalDate <= end

  datatype Query = Query(owner: UserId, criterion: Criterion)

  /** Case-insensitive substring match on title, notes or any one tag. */
  predicate Matches(e: Entry, query: string)
  {
    || ContainsIgnoringCase(e.title, query)
    || ContainsIgnoringCase(e.notes, query)
    || exists t :: t in e.tag && ContainsIgnoringCase(t, query)
  }

  predicate Satisfies(e: Entry, q: Query)
  {
    && e.userId == q.owner
    && match q.criterion
       case Everything => true
       case Text(query) => Matches(e, query)
       case DateRange(start, end) => start <= e.journalDate <= end
  }

  function QueryFilter(q: Query): Entry -> bool
  {
    (e: Entry) => Satisfies(e, q)
  }

  function FavouriteGroup(isFavourite: bool): Entry -> bool
  {
    (e: Entry) => e.isFavourite == isFavourite
  }

  /** No favourite comes after a non-favourite. */
  predicate FavouritesLead(s: seq<Entry>)
  {
    forall i, j :: 0 <= i < j < |s| && s[j].isFavourite ==> s[i].isFavourite
  }

  /** `sort({isFavourite: -1})`: the same entries, favourites first, natural order within each group. */
  function FavouritesFirst(s: seq<Entry>): (r: seq<Entry>)
    ensures multiset(r) == multiset(s)
    ensures FavouritesLead(r)
  {
    var favourites := Select(s, FavouriteGroup(true));
    var others := Select(s, FavouriteGroup(false));
    GroupsArePermutation(s, favourites, others);
    GroupsAreOrdered(favourites, others);
    favourites + others
  }

  lemma GroupsArePermutation(s: seq<Entry>, favourites: seq<Entry>, others: seq<Entry>)
    requires favourites == Select(s, FavouriteGroup(true)) && others == Select(s, FavouriteGroup(false))
    ensures multiset(favourites + others) == multiset(s)
  {
    SelectCount(s, FavouriteGroup(true));
    SelectCount(s, FavouriteGroup(false));
    forall e ensures multiset(favourites + others)[e] == multiset(s)[e] {
      assert FavouriteGroup(true)(e) == e.isFavourite;
      assert FavouriteGroup(false)(e) == !e.isFavourite;
    }
  }

  lemma GroupsAreOrdered(favourites: seq<Entry>, others: seq<Entry>)
    requires forall i :: 0 <= i < |favourites| ==> favourites[i].isFavourite
    requires forall i :: 0 <= i < |others| ==> !others[i].isFavourite
    ensures FavouritesLead(favourites + others)
  {
    var r := favourites + others;
    assert forall i :: |favourites| <= i < |r| ==> r[i] == others[i - |favourites|];
  }

  /** `find(q).sort({isFavourite: -1})` over the table in natural order. */
  function Find(es: seq<Entry>, q: Query): (r: seq<Entry>)
    ensures forall e :: multiset(r)[e] == if Satisfies(e, q) then multiset(es)[e] else 0
    ensures FavouritesLead(r)
  {
    SelectCount(es, QueryFilter(q));
    FavouritesFirst(Select(es, QueryFilter(q)))
  }

  /** get-all-entries: exactly the caller's entries, favourites first. */
  function GetAll(es: seq<Entry>, caller: UserId): (r: seq<Entry>)
    ensures forall e :: multiset(r)[e] == if e.userId == caller then multiset(es)[e] else 0
    ensures FavouritesLead(r)
  {
    Find(es, Query(caller, Everything))
  }

  datatype SearchOutcome = Results(entries: seq<Entry>) | QueryRequired

  /** search: an empty query is refused; otherwise the caller's matching entries, favourites first. */
  function Search(es: seq<Entry>, caller: UserId, query: string): (r: SearchOutcome)
    ensures r.QueryRequired? <==> query == ""
    ensures r.Results? ==> forall e :: multiset(r.entries)[e] ==
                                       (if e.userId == caller && Matches(e, query) then multiset(es)[e] else 0)
    ensures r.Results? ==> FavouritesLead(r.entries)
  {
    if query == "" then QueryRequired else Results(Find(es, Query(caller, Text(query))))
  }

  /** journal-entries/filter: the caller's entries dated within [start, end], favourites first. */
  function FilterByDate(es: seq<Entry>, caller: UserId, start: int, end: int): (r: seq<Entry>)
    ensures forall e :: multiset(r)[e] ==
                        (if e.userId == caller && start <= e.journalDate <= end then multiset(es)[e] else 0)
    ensures FavouritesLead(r)
  {
    Find(es, Query(caller, DateRange(start, end)))
  }

  /** An inverted date range is not an error: it selects nothing. */
  lemma InvertedRangeIsEmpty(es: seq<Entry>, caller: UserId, start: int, end: int)
    requires start > end
    ensures FilterByDate(es, caller, start, end) == []
  {
    var r := FilterByDate(es, caller, start, end);
    assert multiset(r) == multiset{};
    assert |r| == |multiset(r)|;
  }

  /** A favourite of the caller's is listed before every one of the caller's other entries. */
  lemma FavouriteListedFirst(es: seq<Entry>, caller: UserId, f: Entry, o: Entry)
    requires f in es && o in es && f.userId == caller && o.userId == caller
    requires f.isFavourite && !o.isFavourite
    ensures var r := GetAll(es, caller);
      exists i, j :: 0 <= i < j < |r| && r[i] == f && r[j] == o
  {
    var r := GetAll(es, caller);
    assert multiset(r)[f] > 0 && multiset(r)[o] > 0;
    assert f in r && o in r;
    var i :| 0 <= i < |r| && r[i] == f;
    var j :| 0 <= j < |r| && r[j] == o;
    assert i != j;
    assert !(j < i);
  }

  // ---------------------------------------------------------------- the table

  /** The entry collection: documents in natural order and the next fresh id. */
  class EntryStore {
    var entries: seq<Entry>
    var nextId: EntryId

    ghost predicate Valid()
      reads this
    {
      && DistinctIds(entries)
      && forall i :: 0 <= i < |entries| ==> entries[i].id < nextId && Complete(entries[i])
    }

    constructor ()
      ensures Valid() && entries == [] && nextId == 0
    {
      entries := [];
      nextId := 0;
    }

    /** add-journal-entry. */
    method Add(caller: UserId, req: EntryRequest, now: int) returns (r: Outcome)
      requires Valid()
      modifies this
      ensures Valid()
      ensures r.MissingFields? <==> !AddFieldsPresent(req)
      ensures r.InvalidDocument? <==> AddFieldsPresent(req) && req.journalDate.None?
      ensures !r.NotFound?
      ensures !r.Ok? ==> entries == old(entries) && nextId == old(nextId)
      ensures r.Ok? ==> r.entry == Entry(old(nextId), req.title, req.notes, req.tag.value, false,
                                         caller, now, ImageOrPlaceholder(req.imageUrl), req.journalDate.value)
      ensures r.Ok? ==> entries == old(entries) + [r.entry] && nextId == old(nextId) + 1
      ensures r.Ok? ==> Lookup(entries, r.entry.id, caller) == Some(|old(entries)|)
      ensures forall q: Query :: q.owner != caller ==> Find(entries, q) == Find(old(entries), q)
    {
      if !AddFieldsPresent(req) {
        return MissingFields;
      }
      var saved := Create(NewDocument(caller, req), nextId, now);
      if saved.None? {
        return InvalidDocument;
      }
      var e := saved.value;
      assert forall i :: 0 <= i < |entries| ==> entries[i].id != e.id;
      entries := entries + [e];
      assert entries[|old(entries)|] == e;
      nextId := nextId + 1;
      r := Ok(e);
      forall q: Query | q.owner != caller
        ensures Find(entries, q) == Find(old(entries), q)
      {
        SelectAppendRejected(old(entries), e, QueryFilter(q));
      }
    }

    /** edit-entry/:id. */
    method Edit(caller: UserId, id: EntryId, req: EntryRequest) returns (r: Outcome)
      requires Valid()
      modifies this
      ensures Valid()
      ensures r.MissingFields? <==> !EditFieldsPresent(req)
      ensures r.NotFound? <==> EditFieldsPresent(req) && Lookup(old(entries), id, caller).None?
      ensures !r.InvalidDocument?
      ensures nextId == old(nextId)
      ensures !r.Ok? ==> entries == old(entries)
      ensures r.Ok? ==> (Lookup(old(entries), id, caller).Some? &&
        var k := Lookup(old(entries), id, caller).value;
        r.entry == Edited(old(entries)[k], req) && entries == old(entries)[k := r.entry])
      ensures forall q: Query :: q.owner != caller ==> Find(entries, q) == Find(old(entries), q)
    {
      if !EditFieldsPresent(req) {
        return MissingFields;
      }
      var found := Lookup(entries, id, caller);
      if found.None? {
        return NotFound;
      }
      var k := found.value;
      var e := Edited(entries[k], req);
      entries := entries[k := e];
      r := Ok(e);
      forall q: Query | q.owner != caller
        ensures Find(entries, q) == Find(old(entries), q)
      {
        SelectUpdateRejected(old(entries), k, e, QueryFilter(q));
      }
    }

    /** update-is-favourite/:id. */
    method SetFavourite(caller: UserId, id: EntryId, isFavourite: bool) returns (r: Outcome)
      requires Valid()
      modifies this
      ensures Valid()
      ensures r.Ok? || r.NotFound?
      ensures r.NotFound? <==> Lookup(old(entries), id, caller).None?
      ensures nextId == old(nextId)
      ensures r.NotFound? ==> entries == old(entries)
      ensures r.Ok? ==> (Lookup(old(entries), id, caller).Some? &&
        var k := Lookup(old(entries), id, caller).value;
        r.entry == old(entries)[k].(isFavourite := isFavourite) && entries == old(entries)[k := r.entry])
      ensures forall q: Query :: q.owner != caller ==> Find(entries, q) == Find(old(entries), q)
    {
      var found := Lookup(entries, id, caller);
      if found.None? {
        return NotFound;
      }
      var k := found.value;
      var e := entries[k].(isFavourite := isFavourite);
      entries := entries[k := e];
      r := Ok(e);
      forall q: Query | q.owner != caller
        ensures Find(entries, q) == Find(old(entries), q)
      {
        SelectUpdateRejected(old(entries), k, e, QueryFilter(q));
      }
    }

    /**
     * delete-entry/:id. On success `imageFile` names the file under the uploads
     * directory that the (unawaited) unlink targets.
     */
    method Delete(caller: UserId, id: EntryId) returns (r: Outcome, imageFile: Option<string>)
      requires Valid()
      modifies this
      ensures Valid()
      ensures r.Ok? || r.NotFound?
      ensures r.NotFound? <==> Lookup(old(entries), id, caller).None?
      ensures nextId == old(nextId)
      ensures r.NotFound? ==> entries == old(entries) && imageFile.None?
      ensures r.Ok? ==> (Lookup(old(entries), id, caller).Some? &&
        var k := Lookup(old(entries), id, caller).value;
        r.entry == old(entries)[k] && entries == old(entries)[..k] + old(entries)[k + 1..])
      ensures r.Ok? ==> forall e :: e in entries ==> e.id != id
      ensures r.Ok? ==> imageFile == Some(Uploads.UploadTarget(r.entry.imageUrl))
      ensures forall q: Query :: q.owner != caller ==> Find(entries, q) == Find(old(entries), q)
    {
      var found := Lookup(entries, id, caller);
      if found.None? {
        return NotFound, None;
      }
      var k := found.value;
      var e := entries[k];
      RemovalIsolated(entries, k, caller);
      RemovedIdIsGone(entries, k);
      entries := entries[..k] + entries[k + 1..];
      r, imageFile := Ok(e), Some(Uploads.UploadTarget(e.imageUrl));
    }
  }

  /** Removing one of `caller`'s entries leaves every other owner's queries unchanged. */
  lemma RemovalIsolated(es: seq<Entry>, k: nat, caller: UserId)
    requires k < |es| && es[k].userId == caller
    ensures forall q: Query :: q.owner != caller ==> Find(es[..k] + es[k + 1..], q) == Find(es, q)
  {
    forall q: Query | q.owner != caller
      ensures Find(es[..k] + es[k + 1..], q) == Find(es, q)
    {
      SelectSkipsRejected(es, k, QueryFilter(q));
    }
  }

  /** Removing the entry at `k` from a table with distinct ids leaves no entry with its id. */
  lemma RemovedIdIsGone(es: seq<Entry>, k: nat)
    requires DistinctIds(es) && k < |es|
    ensures DistinctIds(es[..k] + es[k + 1..])
    ensures forall e :: e in es[..k] + es[k + 1..] ==> e.id != es[k].id
    ensures forall i :: 0 <= i < k ==> (es[..k] + es[k + 1..])[i] == es[i]
    ensures forall i :: k < i < |es| ==> (es[..k] + es[k + 1..])[i - 1] == es[i]
  {
    var rest := es[..k] + es[k + 1..];
    assert forall i :: 0 <= i < |rest| ==> rest[i] == es[if i < k then i else i + 1];
  }
}
