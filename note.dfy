/** The `Note` record of quicknote and its `matches` predicate. */
module NoteModel {
  import opened Wrappers
  import opened Text

  /**
   * One note. `tags` is never absent here: `matches`, `stats` and the markdown export
   * treat a missing tag list (`None`) and an empty one alike (`n.tags or []`), so both
   * are `[]`. Only the JSON encoding would tell them apart.
   */
  datatype Note = Note(
    id: string,
    text: string,
    createdAt: string,  // ISO-8601 text, compared as a string
    done: bool,
    tags: seq<string>,
    priority: int)      // 0..3 by convention; nothing in the operations enforces it

  /** The exceptions the core raises: `re.error` from compiling a pattern, `ValueError` from export. */
  datatype Error = InvalidPattern(pattern: string) | UnsupportedFormat(format: string)

  /**
   * The regular-expression library, seen from outside: whether `re.compile` accepts
   * a pattern, and whether a compiled pattern's `search` finds it in a string.
   */
  datatype RegexEngine = RegexEngine(compiles: string -> bool, search: (string, string) -> bool)

  /** An engine whose every pattern is a literal string. */
  const LiteralEngine := RegexEngine(p => true, (p, s) => Contains(s, p))

  function AnyTagFound(engine: RegexEngine, pattern: string, tags: seq<string>): (r: bool)
    ensures r <==> exists k :: 0 <= k < |tags| && engine.search(pattern, tags[k])
  {
    tags != [] && (engine.search(pattern, tags[0]) || AnyTagFound(engine, pattern, tags[1..]))
  }

  /**
   * `Note.matches`: the empty pattern matches every note; any other pattern is
   * compiled (which can fail) and matches when found in the text or in some tag.
   */
  function Matches(n: Note, pattern: string, engine: RegexEngine): (r: Result<bool, Error>)
    ensures pattern == [] ==> r == Ok(true)
    ensures pattern != [] && !engine.compiles(pattern) ==> r == Err(InvalidPattern(pattern))
    ensures pattern != [] && engine.compiles(pattern) ==>
      r.Ok? && (r.value <==> engine.search(pattern, n.text) || exists k :: 0 <= k < |n.tags| && engine.search(pattern, n.tags[k]))
  {
    if pattern == [] then Ok(true)
    else if !engine.compiles(pattern) then Err(InvalidPattern(pattern))
    else Ok(engine.search(pattern, n.text) || AnyTagFound(engine, pattern, n.tags))
  }

  /** `sum(1 for n in notes if n.done)`: how many notes are done. */
  function CountDone(notes: seq<Note>): (r: nat)
    ensures r <= |notes|
    ensures r == 0 <==> forall k :: 0 <= k < |notes| ==> !notes[k].done
  {
    if notes == [] then 0 else (if notes[0].done then 1 else 0) + CountDone(notes[1..])
  }

  /** A tag list as `add_note` leaves it: no empty tag, none with whitespace at an end. */
  predicate NormalTags(tags: seq<string>) {
    forall k :: 0 <= k < |tags| ==> tags[k] != [] && IsStripped(tags[k])
  }

  /** The collection's invariants: unique ids, priorities in 0..3, normalised tags. */
  predicate WellFormed(notes: seq<Note>) {
    && (forall i, j :: 0 <= i < j < |notes| ==> notes[i].id != notes[j].id)
    && (forall i :: 0 <= i < |notes| ==> 0 <= notes[i].priority <= 3 && NormalTags(notes[i].tags))
  }

  /** A note with text "buy milk" and tag "errand" matches "milk" and "errand" but not "coffee". */
  lemma LiteralMatchExample(n: Note)
    requires n.text == "buy milk" && n.tags == ["errand"]
    ensures Matches(n, "milk", LiteralEngine) == Ok(true)
    ensures Matches(n, "errand", LiteralEngine) == Ok(true)
    ensures Matches(n, "coffee", LiteralEngine) == Ok(false)
  {
    FoundInText(n);
    FoundInTag(n);
    FoundNowhere(n);
  }

  lemma FoundInText(n: Note)
    requires n.text == "buy milk"
    ensures Matches(n, "milk", LiteralEngine) == Ok(true)
  {
    assert OccursAt("buy milk", "milk", 4);
  }

  lemma FoundInTag(n: Note)
    requires n.tags == ["errand"]
    ensures Matches(n, "errand", LiteralEngine) == Ok(true)
  {
    assert OccursAt(n.tags[0], "errand", 0);
  }

  lemma FoundNowhere(n: Note)
    requires n.text == "buy milk" && n.tags == ["errand"]
    ensures Matches(n, "coffee", LiteralEngine) == Ok(false)
  {
    NoCoffee(n.text);
    NoCoffee(n.tags[0]);
  }

  lemma NoCoffee(s: string)
    requires s == "buy milk" || s == "errand"
    ensures !Contains(s, "coffee")
  {
    assert forall k :: 0 <= k < |s| ==> s[k] != 'c';
    MissingFirstChar(s, "coffee");
  }
}
