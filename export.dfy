/** `export_notes` and the `_prio` marker it prints. */
module Export {
  import opened Wrappers
  import opened Text
  import opened Sorting
  import opened NoteModel

  /** `_prio`: a marker for priorities 0..3, blanks for any other value. */
  function Prio(p: int): string {
    if p == 0 then "   "
    else if p == 1 then "(!)"
    else if p == 2 then "(!!)"
    else if p == 3 then "(!!!)"
    else "   "
  }

  function Bangs(count: nat): (r: string)
    ensures |r| == count && forall k :: 0 <= k < count ==> r[k] == '!'
  {
    seq(count, _ => '!')
  }

  /**
   * Priorities 1..3 print one exclamation mark per level in parentheses; 0 and every
   * out-of-range value print three blanks.
   */
  lemma PrioSpec(p: int)
    ensures 1 <= p <= 3 ==> Prio(p) == "(" + Bangs(p) + ")"
    ensures !(1 <= p <= 3) ==> Prio(p) == "   "
  {
    if 1 <= p <= 3 {
      assert Bangs(p) == (if p == 1 then "!" else if p == 2 then "!!" else "!!!");
    }
  }

  /** `key=lambda x: (x.done, -x.priority, x.created_at)`, with `False < True`. */
  function ExportKey(n: Note): seq<int> {
    [if n.done then 1 else 0, -n.priority] + Codes(n.createdAt)
  }

  /** The export order: pending before done, then priority highest first, then `created_at`. */
  lemma ExportKeyOrder(a: Note, b: Note)
    ensures LexLe(ExportKey(a), ExportKey(b)) <==>
      (!a.done && b.done) ||
      (a.done == b.done && (a.priority > b.priority || (a.priority == b.priority && StrLe(a.createdAt, b.createdAt))))
  {
    var da, db := if a.done then 1 else 0, if b.done then 1 else 0;
    assert ExportKey(a) == [da] + ([-a.priority] + Codes(a.createdAt));
    assert ExportKey(b) == [db] + ([-b.priority] + Codes(b.createdAt));
    LexLeCons(da, [-a.priority] + Codes(a.createdAt), db, [-b.priority] + Codes(b.createdAt));
    LexLeCons(-a.priority, Codes(a.createdAt), -b.priority, Codes(b.createdAt));
  }

  /** The order in which the markdown export lists the notes. */
  function ExportOrder(notes: seq<Note>): seq<Note> {
    SortBy(notes, ExportKey)
  }

  /**
   * The export lists every note once, every pending note before every done one, and
   * within each group by priority, highest first, then by `created_at`.
   */
  lemma ExportOrderSpec(notes: seq<Note>)
    ensures multiset(ExportOrder(notes)) == multiset(notes)
    ensures forall i, j :: 0 <= i < j < |ExportOrder(notes)| && ExportOrder(notes)[i].done ==> ExportOrder(notes)[j].done
    ensures forall i, j :: 0 <= i < j < |ExportOrder(notes)| && ExportOrder(notes)[i].done == ExportOrder(notes)[j].done ==>
      var a, b := ExportOrder(notes)[i], ExportOrder(notes)[j];
      a.priority > b.priority || (a.priority == b.priority && StrLe(a.createdAt, b.createdAt))
    ensures forall k :: WithKey(ExportOrder(notes), ExportKey, k) == WithKey(notes, ExportKey, k)
  {
    var r := ExportOrder(notes);
    SortByCorrect(notes, ExportKey);
    forall i, j | 0 <= i < j < |r|
      ensures (r[i].done ==> r[j].done)
      ensures r[i].done == r[j].done ==>
        r[i].priority > r[j].priority || (r[i].priority == r[j].priority && StrLe(r[i].createdAt, r[j].createdAt))
    {
      ExportKeyOrder(r[i], r[j]);
    }
  }

  /** `" ".join(f"`{t}`" for t in tags)`. */
  function TagString(tags: seq<string>): string {
    Join(seq(|tags|, k requires 0 <= k < |tags| => "`" + tags[k] + "`"), " ")
  }

  function CheckBox(done: bool): string {
    if done then "x" else " "
  }

  /** One markdown item: checkbox, priority marker, text, then id, `created_at` and tags. */
  function NoteLine(n: Note): string {
    "- [" + CheckBox(n.done) + "] " + ItemBody(n)
  }

  function ItemBody(n: Note): string {
    "**" + Prio(n.priority) + "** " + n.text + "  \n  _" + n.id + "_ \U{B7} " + n.createdAt + " " + TagString(n.tags)
  }

  /** A line starts with a ticked box exactly when its note is done. */
  lemma NoteLineCheckBox(n: Note)
    ensures NoteLine(n)[..6] == if n.done then "- [x] " else "- [ ] "
  {
    var box := "- [" + CheckBox(n.done) + "] ";
    assert box == if n.done then "- [x] " else "- [ ] ";
    assert NoteLine(n) == box + ItemBody(n);
  }

  /** The heading, an empty line, then one item per note in export order. */
  function MarkdownLines(notes: seq<Note>): (lines: seq<string>)
  {
    var sorted := ExportOrder(notes);
    ["# QuickNotes", ""] + seq(|sorted|, k requires 0 <= k < |sorted| => NoteLine(sorted[k]))
  }

  lemma MarkdownLinesSpec(notes: seq<Note>)
    ensures |MarkdownLines(notes)| == |notes| + 2
    ensures MarkdownLines(notes)[0] == "# QuickNotes" && MarkdownLines(notes)[1] == ""
    ensures forall k :: 0 <= k < |notes| ==> MarkdownLines(notes)[k + 2] == NoteLine(ExportOrder(notes)[k])
  {
    SortByCorrect(notes, ExportKey);
  }

  /** The markdown text starts with the heading line. */
  lemma MarkdownHeading(notes: seq<Note>)
    ensures var text := Join(MarkdownLines(notes), "\n");
      |text| >= 13 && text[..13] == "# QuickNotes\n"
  {
    var lines := MarkdownLines(notes);
    assert Join(lines, "\n") == "# QuickNotes" + "\n" + Join(lines[1..], "\n");
  }

  /** What `export_notes` returns: markdown text, or the records the JSON document encodes. */
  datatype Rendering = Markdown(text: string) | JsonRecords(records: seq<Note>)

  /**
   * `export_notes(fmt)`: "md" gives the markdown text, "json" every record in collection
   * order, and any other format is an error.
   */
  function ExportNotes(notes: seq<Note>, fmt: string): (r: Result<Rendering, Error>)
    ensures r.Ok? <==> fmt == "md" || fmt == "json"
    ensures r.Err? ==> r.error == UnsupportedFormat(fmt)
    ensures fmt == "md" ==> r.Ok? && r.value.Markdown?
    ensures fmt == "md" ==> r.value.text == Join(MarkdownLines(notes), "\n")
    ensures fmt == "json" ==> r.Ok? && r.value.JsonRecords? && r.value.records == notes
  {
    if fmt == "md" then Ok(Markdown(Join(MarkdownLines(notes), "\n")))
    else if fmt == "json" then Ok(JsonRecords(notes))
    else Err(UnsupportedFormat(fmt))
  }
}
