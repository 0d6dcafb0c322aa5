/** The operations that change the collection: `add_note`, `mark_done` and `clear_done`. */
module Mutators {
  import opened Wrappers
  import opened Text
  import opened Sequences
  import opened NoteModel

  // ---------- add_note ----------

  /** `[t.strip() for t in tags if t.strip()]`. */
  function NormalizeTags(tags: seq<string>): seq<string>
  {
    if tags == [] then []
    else (if Strip(tags[0]) != [] then [Strip(tags[0])] else []) + NormalizeTags(tags[1..])
  }

  /** The tags each stripped, in input order. */
  function StripAll(tags: seq<string>): (r: seq<string>)
    ensures |r| == |tags| && forall k :: 0 <= k < |tags| ==> r[k] == Strip(tags[k])
  {
    if tags == [] then [] else [Strip(tags[0])] + StripAll(tags[1..])
  }

  /** No normalised tag is empty or has whitespace at an end. */
  lemma {:induction false} NormalizeTagsNormal(tags: seq<string>)
    ensures NormalTags(NormalizeTags(tags))
  {
    if tags != [] {
      NormalizeTagsNormal(tags[1..]);
      var head := if Strip(tags[0]) != [] then [Strip(tags[0])] else [];
      assert NormalizeTags(tags) == head + NormalizeTags(tags[1..]);
      NormalConcat(head, NormalizeTags(tags[1..]));
    }
  }

  lemma NormalConcat(a: seq<string>, b: seq<string>)
    requires NormalTags(a) && NormalTags(b)
    ensures NormalTags(a + b)
  {
    forall k | 0 <= k < |a + b| ensures (a + b)[k] != [] && IsStripped((a + b)[k]) {
      if k < |a| { assert (a + b)[k] == a[k]; } else { assert (a + b)[k] == b[k - |a|]; }
    }
  }

  /** The normalised tags are stripped input tags, in input order. */
  lemma {:induction false} NormalizeTagsOrder(tags: seq<string>)
    ensures IsSubsequence(NormalizeTags(tags), StripAll(tags))
  {
    if tags != [] {
      NormalizeTagsOrder(tags[1..]);
      var r := NormalizeTags(tags);
      var rest := NormalizeTags(tags[1..]);
      assert StripAll(tags)[0] == Strip(tags[0]) && StripAll(tags)[1..] == StripAll(tags[1..]);
      if Strip(tags[0]) != [] {
        assert r[0] == Strip(tags[0]) && r[1..] == rest;
      } else {
        assert r == rest;
      }
    }
  }

  /** Exactly the tags that strip to the empty string are dropped, each occurrence of the others kept. */
  lemma {:induction false} NormalizeTagsMultiplicity(tags: seq<string>, t: string)
    ensures multiset(NormalizeTags(tags))[t] == if t == [] then 0 else multiset(StripAll(tags))[t]
  {
    if tags != [] {
      NormalizeTagsMultiplicity(tags[1..], t);
      assert StripAll(tags) == [Strip(tags[0])] + StripAll(tags[1..]);
    }
  }

  /** Normalising twice changes nothing the second time. */
  lemma NormalizeTagsIdempotent(tags: seq<string>)
    ensures NormalizeTags(NormalizeTags(tags)) == NormalizeTags(tags)
  {
    NormalizeTagsNormal(tags);
    NormalizedIsFixed(NormalizeTags(tags));
  }

  /** A tag list that is already normal comes back unchanged. */
  lemma {:induction false} NormalizedIsFixed(tags: seq<string>)
    requires NormalTags(tags)
    ensures NormalizeTags(tags) == tags
  {
    if tags != [] {
      assert tags == [tags[0]] + tags[1..];
      StrippedIsFixed(tags[0]);
      NormalTail(tags);
      NormalizedIsFixed(tags[1..]);
    }
  }

  lemma NormalTail(tags: seq<string>)
    requires tags != [] && NormalTags(tags)
    ensures NormalTags(tags[1..])
  {
  }

  /**
   * `add_note` with the collection passed in and out: the new note has the stripped
   * text, the normalised tags, is not done, and is appended after every existing note.
   * `id` and `createdAt` stand for `_short_uuid()` and the clock.
   */
  method AddNote(notes: seq<Note>, id: string, createdAt: string, text: string, tags: seq<string>, priority: int)
    returns (note: Note, updated: seq<Note>)
    ensures note.id == id && note.createdAt == createdAt && note.priority == priority
    ensures note.text == Strip(text) && IsStripped(note.text)
    ensures !note.done
    ensures note.tags == NormalizeTags(tags) && NormalTags(note.tags)
    ensures |updated| == |notes| + 1 && updated[..|notes|] == notes && updated[|notes|] == note
  {
    note := Note(id, Strip(text), createdAt, false, NormalizeTags(tags), priority);
    NormalizeTagsNormal(tags);
    updated := notes + [note];
  }

  /** Adding a note with a fresh id and a priority in 0..3 keeps the collection well formed. */
  lemma AddKeepsWellFormed(notes: seq<Note>, note: Note)
    requires WellFormed(notes)
    requires forall k :: 0 <= k < |notes| ==> notes[k].id != note.id
    requires 0 <= note.priority <= 3 && NormalTags(note.tags)
    ensures WellFormed(notes + [note])
  {
  }

  // ---------- mark_done ----------

  /** The index of the first note with the given id, if any. */
  function FindNote(notes: seq<Note>, noteId: string): (r: Option<nat>)
    ensures r.Some? ==> r.value < |notes| && notes[r.value].id == noteId
    ensures r.Some? ==> forall j :: 0 <= j < r.value ==> notes[j].id != noteId
    ensures r.None? <==> forall j :: 0 <= j < |notes| ==> notes[j].id != noteId
  {
    if notes == [] then None
    else if notes[0].id == noteId then Some(0)
    else match FindNote(notes[1..], noteId)
      case None => None
      case Some(k) => Some(k + 1)
  }

  /** The collection after `mark_done(noteId)`: the first note with that id becomes done. */
  function MarkedDone(notes: seq<Note>, noteId: string): seq<Note>
  {
    match FindNote(notes, noteId)
    case None => notes
    case Some(k) => notes[k := notes[k].(done := true)]
  }

  /**
   * `mark_done`: scan for the first note with the id, set its `done`, stop. The flag
   * says whether such a note exists.
   */
  method MarkDone(notes: seq<Note>, noteId: string) returns (updated: seq<Note>, hit: bool)
    ensures hit <==> exists j :: 0 <= j < |notes| && notes[j].id == noteId
    ensures updated == MarkedDone(notes, noteId)
  {
    updated := notes;
    hit := false;
    var i := 0;
    while i < |updated|
      invariant 0 <= i <= |notes|
      invariant updated == notes && !hit
      invariant forall j :: 0 <= j < i ==> notes[j].id != noteId
    {
      if updated[i].id == noteId {
        updated := updated[i := updated[i].(done := true)];
        hit := true;
        break;
      }
      i := i + 1;
    }
  }

  /**
   * Only the first note with the id changes, and in it only `done`, which becomes true;
   * without such a note nothing changes. The length is always kept.
   */
  lemma MarkedDoneEffect(notes: seq<Note>, noteId: string)
    ensures |MarkedDone(notes, noteId)| == |notes|
    ensures forall j :: 0 <= j < |notes| ==>
      MarkedDone(notes, noteId)[j] == if FindNote(notes, noteId) == Some(j) then notes[j].(done := true) else notes[j]
    ensures FindNote(notes, noteId).None? ==> MarkedDone(notes, noteId) == notes
  {
  }

  /** Marking the same id twice: found both times, and the second call changes nothing. */
  lemma MarkDoneTwice(notes: seq<Note>, noteId: string)
    ensures FindNote(MarkedDone(notes, noteId), noteId) == FindNote(notes, noteId)
    ensures MarkedDone(MarkedDone(notes, noteId), noteId) == MarkedDone(notes, noteId)
  {
    var once := MarkedDone(notes, noteId);
    FindNoteSameIds(notes, once, noteId);
  }

  lemma {:induction false} FindNoteSameIds(a: seq<Note>, b: seq<Note>, noteId: string)
    requires |a| == |b| && forall j :: 0 <= j < |a| ==> a[j].id == b[j].id
    ensures FindNote(a, noteId) == FindNote(b, noteId)
  {
    if a != [] {
      FindNoteSameIds(a[1..], b[1..], noteId);
    }
  }

  /** Marking keeps the collection well formed; with unique ids every note with the id is then done. */
  lemma MarkKeepsWellFormed(notes: seq<Note>, noteId: string)
    requires WellFormed(notes)
    ensures WellFormed(MarkedDone(notes, noteId))
    ensures forall j :: 0 <= j < |notes| && notes[j].id == noteId ==> MarkedDone(notes, noteId)[j].done
  {
  }

  /** `done` goes up by one when the marked note was pending, and otherwise stays. */
  lemma MarkDoneCount(notes: seq<Note>, noteId: string)
    ensures CountDone(MarkedDone(notes, noteId)) ==
      CountDone(notes) + match FindNote(notes, noteId) case Some(k) => (if notes[k].done then 0 else 1) case None => 0
  {
    match FindNote(notes, noteId)
    case None =>
    case Some(k) => CountDoneUpdate(notes, k, notes[k].(done := true));
  }

  lemma {:induction false} CountDoneUpdate(notes: seq<Note>, k: nat, n: Note)
    requires k < |notes|
    ensures CountDone(notes[k := n]) == CountDone(notes) - (if notes[k].done then 1 else 0) + (if n.done then 1 else 0)
  {
    if k > 0 {
      CountDoneUpdate(notes[1..], k - 1, n);
      assert notes[k := n][1..] == notes[1..][k - 1 := n];
    } else {
      assert notes[k := n][1..] == notes[1..];
    }
  }

  // ---------- clear_done ----------

  predicate IsPending(n: Note) {
    !n.done
  }

  /** What `clear_done` leaves in the collection, and the number it returns. */
  datatype Cleared = Cleared(remaining: seq<Note>, removed: int)

  /**
   * `clear_done`: keep the pending notes and return `before - after`, which is the
   * number of done notes.
   */
  function ClearDone(notes: seq<Note>): (r: Cleared)
    ensures forall k :: 0 <= k < |r.remaining| ==> !r.remaining[k].done
    ensures IsSubsequence(r.remaining, notes)
    ensures forall n :: multiset(r.remaining)[n] == if n.done then 0 else multiset(notes)[n]
    ensures r.removed == CountDone(notes) == |notes| - |r.remaining|
  {
    var kept := Filter(notes, IsPending);
    FilterIsSubsequence(notes, IsPending);
    forall n ensures multiset(kept)[n] == if n.done then 0 else multiset(notes)[n] {
      FilterMultiplicity(notes, IsPending, n);
    }
    PendingCount(notes);
    Cleared(kept, |notes| - |kept|)
  }

  lemma {:induction false} PendingCount(notes: seq<Note>)
    ensures |Filter(notes, IsPending)| + CountDone(notes) == |notes|
  {
    if notes != [] {
      PendingCount(notes[1..]);
    }
  }

  /** Clearing twice removes nothing the second time. */
  lemma ClearDoneTwice(notes: seq<Note>)
    ensures ClearDone(ClearDone(notes).remaining) == Cleared(ClearDone(notes).remaining, 0)
  {
    FilterIdempotent(notes, IsPending);
  }

  /** Clearing keeps the collection well formed. */
  lemma ClearKeepsWellFormed(notes: seq<Note>)
    requires WellFormed(notes)
    ensures WellFormed(ClearDone(notes).remaining)
  {
    FilterKeepsWellFormed(notes, IsPending);
  }

  lemma {:induction false} FilterKeepsWellFormed(notes: seq<Note>, p: Note -> bool)
    requires WellFormed(notes)
    ensures WellFormed(Filter(notes, p))
  {
    if notes != [] {
      FilterKeepsWellFormed(notes[1..], p);
      var rest := Filter(notes[1..], p);
      FilterIsSubsequence(notes[1..], p);
      SubsequenceElements(rest, notes[1..]);
      if p(notes[0]) {
        var r := Filter(notes, p);
        assert r == [notes[0]] + rest;
        forall j | 0 < j < |r| ensures r[0].id != r[j].id {
          assert rest[j - 1] in notes[1..];
        }
      }
    }
  }
}
