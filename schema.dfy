/**
 * The journal-entry schema: which paths a document must carry to be saved, and
 * the defaults the model fills in for paths the caller left out.
 */
module JournalSchema {
  import opened Common

  /** A saved journal entry. `createdOn` and `journalDate` are milliseconds since the epoch. */
  datatype Entry = Entry(
    id: EntryId,
    title: string,
    notes: string,
    tag: seq<string>,
    isFavourite: bool,
    userId: UserId,
    createdOn: int,
    imageUrl: string,
    journalDate: int)

  /** A document as handed to the model before `save()`: every path may be left out. */
  datatype Draft = Draft(
    title: Option<string>,
    notes: Option<string>,
    tag: Option<seq<string>>,
    isFavourite: Option<bool>,
    userId: Option<UserId>,
    createdOn: Option<int>,
    imageUrl: Option<string>,
    journalDate: Option<int>)

  /** The `required` validator on a String path: present and not the empty string. */
  predicate RequiredString(v: Option<string>)
  {
    v.Some? && v.value != ""
  }

  /** A draft passes validation when every required path is there. */
  predicate Valid(d: Draft)
  {
    && RequiredString(d.title)
    && RequiredString(d.notes)
    && d.userId.Some?
    && RequiredString(d.imageUrl)
    && d.journalDate.Some?
  }

  /** The required String paths of a saved entry are non-empty. */
  predicate Complete(e: Entry)
  {
    e.title != "" && e.notes != "" && e.imageUrl != ""
  }

  /**
   * Construct a document with defaults and validate it for saving: `None` when a
   * required path is missing; otherwise the entry, with `tag` defaulting to the
   * empty list, `isFavourite` to false and `createdOn` to the clock reading `now`.
   */
  function Create(d: Draft, id: EntryId, now: int): (r: Option<Entry>)
    ensures r.Some? <==> Valid(d)
    ensures r.Some? ==> Complete(r.value) && r.value.id == id
    ensures r.Some? ==> && Some(r.value.title) == d.title
                        && Some(r.value.notes) == d.notes
                        && Some(r.value.userId) == d.userId
                        && Some(r.value.imageUrl) == d.imageUrl
                        && Some(r.value.journalDate) == d.journalDate
    ensures r.Some? ==> r.value.tag == if d.tag.Some? then d.tag.value else []
    ensures r.Some? ==> r.value.isFavourite == (d.isFavourite.Some? && d.isFavourite.value)
    ensures r.Some? ==> r.value.createdOn == if d.createdOn.Some? then d.createdOn.value else now
  {
    if !Valid(d) then None
    else
      Some(Entry(
        id,
        d.title.value,
        d.notes.value,
        match d.tag case Some(t) => t case None => [],
        match d.isFavourite case Some(b) => b case None => false,
        d.userId.value,
        match d.createdOn case Some(t) => t case None => now,
        d.imageUrl.value,
        d.journalDate.value))
  }

  /** The fully specified document that describes a saved entry. */
  function DraftOf(e: Entry): Draft
  {
    Draft(Some(e.title), Some(e.notes), Some(e.tag), Some(e.isFavourite),
          Some(e.userId), Some(e.createdOn), Some(e.imageUrl), Some(e.journalDate))
  }

  /** Re-creating a saved entry from its own document gives the entry back, whatever the clock says. */
  lemma CreateOfSaved(e: Entry, now: int)
    requires Complete(e)
    ensures Create(DraftOf(e), e.id, now) == Some(e)
  {
  }
}
