/** The read-only operations on the collection: `search_notes` and `stats`. */
module Queries {
  import opened Wrappers
  import opened Text
  import opened Sequences
  import opened Sorting
  import opened NoteModel

  // ---------- search_notes ----------

  /** What the filter of `search_notes` keeps once the pattern is known to compile (or is empty). */
  predicate Wanted(n: Note, pattern: string, includeDone: bool, engine: RegexEngine) {
    && (pattern == [] || engine.search(pattern, n.text) || exists k :: 0 <= k < |n.tags| && engine.search(pattern, n.tags[k]))
    && (includeDone || !n.done)
  }

  /**
   * `[n for n in notes if n.matches(pattern) and (include_done or not n.done)]`, where
   * `matches` may raise and the first exception ends the comprehension.
   */
  function SelectNotes(notes: seq<Note>, pattern: string, includeDone: bool, engine: RegexEngine): Result<seq<Note>, Error>
  {
    if notes == [] then Ok([])
    else
      var m :- Matches(notes[0], pattern, engine);
      var rest :- SelectNotes(notes[1..], pattern, includeDone, engine);
      Ok((if m && (includeDone || !notes[0].done) then [notes[0]] else []) + rest)
  }

  /**
   * The comprehension fails exactly when there is a note to test and the pattern is
   * non-empty and does not compile; otherwise it is the plain filter on `Wanted`.
   */
  lemma {:induction false} SelectNotesSpec(notes: seq<Note>, pattern: string, includeDone: bool, engine: RegexEngine)
    ensures SelectNotes(notes, pattern, includeDone, engine) ==
      if notes != [] && pattern != [] && !engine.compiles(pattern) then Err(InvalidPattern(pattern))
      else Ok(Filter(notes, n => Wanted(n, pattern, includeDone, engine)))
  {
    if notes != [] {
      SelectNotesSpec(notes[1..], pattern, includeDone, engine);
    }
  }

  /** `key=lambda n: (-n.priority, n.created_at)`. */
  function SearchKey(n: Note): seq<int> {
    [-n.priority] + Codes(n.createdAt)
  }

  /** The search key orders by priority, highest first, then by `created_at` as a string. */
  lemma SearchKeyOrder(a: Note, b: Note)
    ensures LexLe(SearchKey(a), SearchKey(b)) <==>
      a.priority > b.priority || (a.priority == b.priority && StrLe(a.createdAt, b.createdAt))
  {
    LexLeCons(-a.priority, Codes(a.createdAt), -b.priority, Codes(b.createdAt));
  }

  /** Two notes have the same search key exactly when priority and `created_at` agree. */
  lemma SearchKeyEqual(a: Note, b: Note)
    ensures SearchKey(a) == SearchKey(b) <==> a.priority == b.priority && a.createdAt == b.createdAt
  {
    if SearchKey(a) == SearchKey(b) {
      assert SearchKey(a)[1..] == Codes(a.createdAt) && SearchKey(b)[1..] == Codes(b.createdAt);
      CodesInjective(a.createdAt, b.createdAt);
    }
  }

  /** `search_notes`: filter, then the stable sort on the search key. */
  function SearchNotes(notes: seq<Note>, pattern: string, includeDone: bool, engine: RegexEngine): Result<seq<Note>, Error>
  {
    var selected :- SelectNotes(notes, pattern, includeDone, engine);
    Ok(SortBy(selected, SearchKey))
  }

  /**
   * A search fails only on an invalid pattern with a non-empty collection. Otherwise the
   * result holds every wanted note as often as the collection does and nothing else,
   * highest priority first, earlier `created_at` first among equal priorities, and notes
   * with equal priority and `created_at` in collection order.
   */
  lemma SearchNotesSpec(notes: seq<Note>, pattern: string, includeDone: bool, engine: RegexEngine)
    ensures SearchNotes(notes, pattern, includeDone, engine).Err? <==>
      notes != [] && pattern != [] && !engine.compiles(pattern)
    ensures SearchNotes(notes, pattern, includeDone, engine).Err? ==>
      SearchNotes(notes, pattern, includeDone, engine).error == InvalidPattern(pattern)
    ensures SearchNotes(notes, pattern, includeDone, engine).Ok? ==>
      var r := SearchNotes(notes, pattern, includeDone, engine).value;
      && (forall n :: multiset(r)[n] == if Wanted(n, pattern, includeDone, engine) then multiset(notes)[n] else 0)
      && (forall i, j :: 0 <= i < j < |r| ==>
            r[i].priority > r[j].priority || (r[i].priority == r[j].priority && StrLe(r[i].createdAt, r[j].createdAt)))
      && (forall k :: WithKey(r, SearchKey, k) == Filter(WithKey(notes, SearchKey, k), n => Wanted(n, pattern, includeDone, engine)))
  {
    SelectNotesSpec(notes, pattern, includeDone, engine);
    if !(notes != [] && pattern != [] && !engine.compiles(pattern)) {
      var wanted := n => Wanted(n, pattern, includeDone, engine);
      var selected := Filter(notes, wanted);
      var r := SortBy(selected, SearchKey);
      SortByCorrect(selected, SearchKey);
      forall n ensures multiset(r)[n] == if Wanted(n, pattern, includeDone, engine) then multiset(notes)[n] else 0 {
        FilterMultiplicity(notes, wanted, n);
      }
      forall i, j | 0 <= i < j < |r|
        ensures r[i].priority > r[j].priority || (r[i].priority == r[j].priority && StrLe(r[i].createdAt, r[j].createdAt))
      {
        SearchKeyOrder(r[i], r[j]);
      }
      forall k ensures WithKey(r, SearchKey, k) == Filter(WithKey(notes, SearchKey, k), wanted) {
        FilterWithKey(notes, wanted, SearchKey, k);
      }
    }
  }

  /** Filtering and taking one key class commute. */
  lemma {:induction false} FilterWithKey<T>(s: seq<T>, p: T -> bool, key: T -> seq<int>, k: seq<int>)
    ensures WithKey(Filter(s, p), key, k) == Filter(WithKey(s, key, k), p)
  {
    if s != [] {
      FilterWithKey(s[1..], p, key, k);
      WithKeyConcat(if p(s[0]) then [s[0]] else [], Filter(s[1..], p), key, k);
      var head := if key(s[0]) == k then [s[0]] else [];
      assert WithKey(s, key, k) == head + WithKey(s[1..], key, k);
      FilterConcat(head, WithKey(s[1..], key, k), p);
    }
  }

  /** `list`: the empty pattern with `include_done` returns every note, in search order. */
  lemma SearchEmptyPatternAll(notes: seq<Note>, engine: RegexEngine)
    ensures SearchNotes(notes, "", true, engine) == Ok(SortBy(notes, SearchKey))
    ensures multiset(SearchNotes(notes, "", true, engine).value) == multiset(notes)
  {
    SelectNotesSpec(notes, "", true, engine);
    FilterKeepsAll(notes, n => Wanted(n, "", true, engine));
    SortByCorrect(notes, SearchKey);
  }

  /**
   * A(priority 1, T1), B(priority 3, T2), C(priority 1, T0) with T0 < T1: the full search
   * returns B, C, A.
   */
  lemma SearchOrderExample(a: Note, b: Note, c: Note, engine: RegexEngine)
    requires a.priority == 1 && b.priority == 3 && c.priority == 1
    requires StrLe(c.createdAt, a.createdAt) && !StrLe(a.createdAt, c.createdAt)
    ensures SearchNotes([a, b, c], "", true, engine) == Ok([b, c, a])
  {
    SearchEmptyPatternAll([a, b, c], engine);
    SortTwoExample(b, c);
    InsertLastExample(a, b, c);
    assert [a, b, c][1..] == [b, c];
  }

  lemma SortTwoExample(b: Note, c: Note)
    requires b.priority == 3 && c.priority == 1
    ensures SortBy([b, c], SearchKey) == [b, c]
  {
    assert SortBy([c], SearchKey) == [c];
    assert [b, c][1..] == [c];
    SearchKeyOrder(b, c);
  }

  lemma InsertLastExample(a: Note, b: Note, c: Note)
    requires a.priority == 1 && b.priority == 3 && c.priority == 1
    requires !StrLe(a.createdAt, c.createdAt)
    ensures Insert(a, [b, c], SearchKey) == [b, c, a]
  {
    SearchKeyOrder(a, b);
    SearchKeyOrder(a, c);
    assert [b, c][1..] == [c] && [c][1..] == [];
    assert Insert(a, [c], SearchKey) == [c, a];
  }

  // ---------- stats ----------

  /** One entry of the tag table: a tag and how many times it occurs. */
  datatype TagCount = TagCount(tag: string, count: nat)

  /** The dictionary `stats` returns. */
  datatype Summary = Summary(total: nat, pending: int, done: nat, highestPriority: int, tags: seq<TagCount>)

  /** `max((n.priority for n in notes), default=0)`. */
  function HighestPriority(notes: seq<Note>): (r: int)
    ensures notes == [] ==> r == 0
    ensures forall k :: 0 <= k < |notes| ==> notes[k].priority <= r
    ensures notes != [] ==> exists k :: 0 <= k < |notes| && notes[k].priority == r
  {
    if notes == [] then 0
    else if |notes| == 1 then notes[0].priority
    else
      var rest := HighestPriority(notes[1..]);
      if notes[0].priority >= rest then notes[0].priority else rest
  }

  /** Every note's tags, one note after another: what the nested loop of `stats` visits. */
  function AllTags(notes: seq<Note>): seq<string>
  {
    if notes == [] then [] else AllTags(notes[..|notes| - 1]) + notes[|notes| - 1].tags
  }

  /** `key=lambda kv: (-kv[1], kv[0])`. */
  function TagKey(e: TagCount): seq<int> {
    [-(e.count as int)] + Codes(e.tag)
  }

  /** The tag table orders by count, highest first, then by tag as a string. */
  lemma TagKeyOrder(a: TagCount, b: TagCount)
    ensures LexLe(TagKey(a), TagKey(b)) <==> a.count > b.count || (a.count == b.count && StrLe(a.tag, b.tag))
  {
    LexLeCons(-(a.count as int), Codes(a.tag), -(b.count as int), Codes(b.tag));
  }

  /** `h` lists each tag of `seen` once, with the number of times it occurs there. */
  predicate IsTagHistogram(h: seq<TagCount>, seen: seq<string>) {
    && (forall i, j :: 0 <= i < j < |h| ==> h[i].tag != h[j].tag)
    && (forall i :: 0 <= i < |h| ==> h[i].count == multiset(seen)[h[i].tag] > 0)
    && (forall t :: t in multiset(seen) ==> exists i :: 0 <= i < |h| && h[i].tag == t)
  }

  /** The dictionary `by_tag` with its keys in insertion order, after counting `seen`. */
  ghost predicate Tally(byTag: map<string, nat>, order: seq<string>, seen: seq<string>) {
    && (forall t :: t in byTag <==> t in multiset(seen))
    && (forall t :: t in byTag ==> byTag[t] == multiset(seen)[t])
    && (forall k :: 0 <= k < |order| ==> order[k] in byTag)
    && (forall t :: t in byTag ==> t in order)
    && Distinct(order)
  }

  /**
   * `stats`: the totals, the highest priority, and the tag table counted over every
   * note's tags and sorted by count descending, then tag ascending.
   */
  method Stats(notes: seq<Note>) returns (s: Summary)
    ensures s.total == |notes| && s.done == CountDone(notes) && s.pending == s.total - s.done
    ensures 0 <= s.pending <= s.total
    ensures s.highestPriority == HighestPriority(notes)
    ensures IsTagHistogram(s.tags, AllTags(notes))
    ensures SortedBy(s.tags, TagKey)
  {
    var total := |notes|;
    var done := CountDone(notes);
    var pending := total - done;
    var highest := HighestPriority(notes);
    var byTag: map<string, nat> := map[];
    var order: seq<string> := [];
    for i := 0 to |notes|
      invariant Tally(byTag, order, AllTags(notes[..i]))
    {
      AllTagsStep(notes, i);
      byTag, order := CountTags(byTag, order, notes[i].tags, AllTags(notes[..i]));
    }
    assert notes[..|notes|] == notes;
    var items := Items(byTag, order);
    var sorted := SortBy(items, TagKey);
    SortedTally(byTag, order, AllTags(notes));
    s := Summary(total, pending, done, highest, sorted);
  }

  /** The inner loop of `stats`: count every tag of one note into `by_tag`. */
  method CountTags(byTag0: map<string, nat>, order0: seq<string>, tags: seq<string>, ghost seen: seq<string>)
    returns (byTag: map<string, nat>, order: seq<string>)
    requires Tally(byTag0, order0, seen)
    ensures Tally(byTag, order, seen + tags)
  {
    byTag, order := byTag0, order0;
    for j := 0 to |tags|
      invariant Tally(byTag, order, seen + tags[..j])
    {
      var t := tags[j];
      ghost var (byTagBefore, orderBefore) := (byTag, order);
      var prev := if t in byTag then byTag[t] else 0;
      if t !in byTag {
        order := order + [t];
      }
      byTag := byTag[t := prev + 1];
      TallyStep(byTagBefore, orderBefore, seen, tags, j);
    }
    assert tags[..|tags|] == tags;
  }

  lemma AllTagsStep(notes: seq<Note>, i: nat)
    requires i < |notes|
    ensures AllTags(notes[..i + 1]) == AllTags(notes[..i]) + notes[i].tags
  {
    assert notes[..i + 1][..i] == notes[..i];
  }

  /** Counting the tag at index `j` extends the tally of the tags before it. */
  lemma TallyStep(byTag: map<string, nat>, order: seq<string>, seen: seq<string>, tags: seq<string>, j: nat)
    requires j < |tags| && Tally(byTag, order, seen + tags[..j])
    ensures var t := tags[j];
      Tally(byTag[t := (if t in byTag then byTag[t] else 0) + 1],
            if t in byTag then order else order + [t], seen + tags[..j + 1])
  {
    assert tags[..j + 1] == tags[..j] + [tags[j]];
    assert seen + tags[..j + 1] == (seen + tags[..j]) + [tags[j]];
    TallyAdd(byTag, order, seen + tags[..j], tags[j]);
  }

  /** One `by_tag[t] = by_tag.get(t, 0) + 1` step keeps the tally. */
  lemma TallyAdd(byTag: map<string, nat>, order: seq<string>, seen: seq<string>, t: string)
    requires Tally(byTag, order, seen)
    ensures Tally(byTag[t := (if t in byTag then byTag[t] else 0) + 1],
                  if t in byTag then order else order + [t], seen + [t])
  {
    TallyAddCounts(byTag, seen, t);
    TallyAddOrder(byTag, order, t);
  }

  lemma TallyAddCounts(byTag: map<string, nat>, seen: seq<string>, t: string)
    requires forall u :: u in byTag <==> u in multiset(seen)
    requires forall u :: u in byTag ==> byTag[u] == multiset(seen)[u]
    ensures var byTag' := byTag[t := (if t in byTag then byTag[t] else 0) + 1];
      && (forall u :: u in byTag' <==> u in multiset(seen + [t]))
      && (forall u :: u in byTag' ==> byTag'[u] == multiset(seen + [t])[u])
  {
    assert multiset(seen + [t]) == multiset(seen) + multiset{t};
  }

  lemma TallyAddOrder(byTag: map<string, nat>, order: seq<string>, t: string)
    requires forall k :: 0 <= k < |order| ==> order[k] in byTag
    requires forall u :: u in byTag ==> u in order
    requires Distinct(order)
    ensures var byTag', order' := byTag[t := (if t in byTag then byTag[t] else 0) + 1], if t in byTag then order else order + [t];
      && (forall k :: 0 <= k < |order'| ==> order'[k] in byTag')
      && (forall u :: u in byTag' ==> u in order')
      && Distinct(order')
  {
    var order' := if t in byTag then order else order + [t];
    assert forall k :: 0 <= k < |order| ==> order'[k] == order[k];
  }

  /** `by_tag.items()`: the entries in key insertion order. */
  function Items(byTag: map<string, nat>, order: seq<string>): (r: seq<TagCount>)
    requires forall k :: 0 <= k < |order| ==> order[k] in byTag
    ensures |r| == |order| && forall k :: 0 <= k < |order| ==> r[k] == TagCount(order[k], byTag[order[k]])
  {
    seq(|order|, k requires 0 <= k < |order| => TagCount(order[k], byTag[order[k]]))
  }

  /** Sorting the items of a complete tally gives a sorted tag table. */
  lemma SortedTally(byTag: map<string, nat>, order: seq<string>, seen: seq<string>)
    requires Tally(byTag, order, seen)
    ensures IsTagHistogram(SortBy(Items(byTag, order), TagKey), seen)
    ensures SortedBy(SortBy(Items(byTag, order), TagKey), TagKey)
  {
    var items := Items(byTag, order);
    HistogramOfTally(byTag, order, seen);
    SortByCorrect(items, TagKey);
    HistogramPermutation(items, SortBy(items, TagKey), seen);
  }

  lemma HistogramOfTally(byTag: map<string, nat>, order: seq<string>, seen: seq<string>)
    requires Tally(byTag, order, seen)
    ensures IsTagHistogram(Items(byTag, order), seen)
  {
    var items := Items(byTag, order);
    forall t | t in multiset(seen) ensures exists i :: 0 <= i < |items| && items[i].tag == t {
      var i :| 0 <= i < |order| && order[i] == t;
      assert items[i].tag == t;
    }
  }

  /** Rearranging a tag table leaves a tag table of the same tags. */
  lemma HistogramPermutation(a: seq<TagCount>, b: seq<TagCount>, seen: seq<string>)
    requires IsTagHistogram(a, seen) && multiset(a) == multiset(b)
    ensures IsTagHistogram(b, seen)
  {
    assert Distinct(a);
    DistinctPermutation(a, b);
    forall i | 0 <= i < |b| ensures b[i].count == multiset(seen)[b[i].tag] > 0 {
      assert b[i] in multiset(a);
    }
    forall i, j | 0 <= i < j < |b| ensures b[i].tag != b[j].tag {
      assert b[i] in multiset(a) && b[j] in multiset(a);
    }
    forall t | t in multiset(seen) ensures exists i :: 0 <= i < |b| && b[i].tag == t {
      var i :| 0 <= i < |a| && a[i].tag == t;
      assert a[i] in multiset(b);
    }
  }

  function SumCounts(h: seq<TagCount>): nat {
    if h == [] then 0 else h[0].count + SumCounts(h[1..])
  }

  /** The counts of a tag table add up to the number of tag occurrences. */
  lemma TagCountsSum(h: seq<TagCount>, seen: seq<string>)
    requires IsTagHistogram(h, seen)
    ensures SumCounts(h) == |seen|
  {
    CountsSumTo(h, multiset(seen));
  }

  lemma {:induction false} CountsSumTo(h: seq<TagCount>, m: multiset<string>)
    requires forall i, j :: 0 <= i < j < |h| ==> h[i].tag != h[j].tag
    requires forall i :: 0 <= i < |h| ==> h[i].count == m[h[i].tag]
    requires forall t :: t in m ==> exists i :: 0 <= i < |h| && h[i].tag == t
    ensures SumCounts(h) == |m|
  {
    if h == [] {
      assert m == multiset{};
    } else {
      var m' := m[h[0].tag := 0];
      forall t | t in m' ensures exists i :: 0 <= i < |h[1..]| && h[1..][i].tag == t {
        var i :| 0 <= i < |h| && h[i].tag == t;
        assert i != 0 && h[1..][i - 1] == h[i];
      }
      forall i | 0 <= i < |h[1..]| ensures h[1..][i].count == m'[h[1..][i].tag] {
        assert h[1..][i] == h[i + 1];
      }
      CountsSumTo(h[1..], m');
    }
  }

  /** A tag table sorted by `TagKey` is fully determined: the order of `stats` is deterministic. */
  lemma TagTableUnique(a: seq<TagCount>, b: seq<TagCount>, seen: seq<string>)
    requires IsTagHistogram(a, seen) && SortedBy(a, TagKey)
    requires IsTagHistogram(b, seen) && SortedBy(b, TagKey)
    ensures a == b
  {
    TagKeysDistinct(a, seen);
    TagKeysDistinct(b, seen);
    HistogramEntries(a, b, seen);
    HistogramEntries(b, a, seen);
    SortedDistinctUnique(a, b, TagKey);
  }

  lemma TagKeysDistinct(h: seq<TagCount>, seen: seq<string>)
    requires IsTagHistogram(h, seen)
    ensures forall i, j :: 0 <= i < j < |h| ==> TagKey(h[i]) != TagKey(h[j])
  {
    forall i, j | 0 <= i < j < |h| ensures TagKey(h[i]) != TagKey(h[j]) {
      if TagKey(h[i]) == TagKey(h[j]) { TagKeyInjective(h[i], h[j]); }
    }
  }

  /** Two tag tables of the same tags hold the same entries. */
  lemma HistogramEntries(a: seq<TagCount>, b: seq<TagCount>, seen: seq<string>)
    requires IsTagHistogram(a, seen) && IsTagHistogram(b, seen)
    ensures forall x :: x in a ==> x in b
  {
    forall x | x in a ensures x in b {
      var i :| 0 <= i < |a| && a[i] == x;
      var j :| 0 <= j < |b| && b[j].tag == x.tag;
      assert b[j] == x;
    }
  }

  lemma TagKeyInjective(a: TagCount, b: TagCount)
    requires TagKey(a) == TagKey(b)
    ensures a == b
  {
    assert TagKey(a)[1..] == Codes(a.tag) && TagKey(b)[1..] == Codes(b.tag);
    CodesInjective(a.tag, b.tag);
  }

  /** In a well-formed collection the highest priority is in 0..3. */
  lemma HighestPriorityRange(notes: seq<Note>)
    requires WellFormed(notes)
    ensures 0 <= HighestPriority(notes) <= 3
  {
  }

  /**
   * Three notes, one done, priorities 0, 2, 2, tags ["a"], ["a", "b"], []: total 3, 2 pending,
   * 1 done, highest priority 2, and the only possible tag table is a: 2, b: 1.
   */
  lemma StatsExample(x: Note, y: Note, z: Note, h: seq<TagCount>)
    requires x.priority == 0 && y.priority == 2 && z.priority == 2
    requires x.done && !y.done && !z.done
    requires x.tags == ["a"] && y.tags == ["a", "b"] && z.tags == []
    requires IsTagHistogram(h, AllTags([x, y, z])) && SortedBy(h, TagKey)
    ensures CountDone([x, y, z]) == 1 && HighestPriority([x, y, z]) == 2
    ensures h == [TagCount("a", 2), TagCount("b", 1)]
  {
    ExampleCounts(x, y, z);
    ExampleTags(x, y, z);
    ExampleTable();
    TagTableUnique(h, [TagCount("a", 2), TagCount("b", 1)], ["a", "a", "b"]);
  }

  lemma ExampleCounts(x: Note, y: Note, z: Note)
    requires x.priority == 0 && y.priority == 2 && z.priority == 2
    requires x.done && !y.done && !z.done
    ensures CountDone([x, y, z]) == 1 && HighestPriority([x, y, z]) == 2
  {
    assert [x, y, z][1..] == [y, z] && [y, z][1..] == [z];
  }

  lemma ExampleTags(x: Note, y: Note, z: Note)
    requires x.tags == ["a"] && y.tags == ["a", "b"] && z.tags == []
    ensures AllTags([x, y, z]) == ["a", "a", "b"]
  {
    assert [x, y, z][..2] == [x, y] && [x, y][..1] == [x] && [x][..0] == [];
    assert AllTags([x]) == ["a"];
    assert AllTags([x, y]) == ["a"] + ["a", "b"] == ["a", "a", "b"];
  }

  lemma ExampleTable()
    ensures IsTagHistogram([TagCount("a", 2), TagCount("b", 1)], ["a", "a", "b"])
    ensures SortedBy([TagCount("a", 2), TagCount("b", 1)], TagKey)
  {
    var seen := ["a", "a", "b"];
    var h := [TagCount("a", 2), TagCount("b", 1)];
    assert multiset(seen) == multiset{"a", "a", "b"};
    assert forall t :: t in multiset(seen) ==> t == "a" || t == "b";
    assert h[0].tag == "a" && h[1].tag == "b";
    ExampleTableSorted(TagCount("a", 2), TagCount("b", 1));
  }

  lemma ExampleTableSorted(a: TagCount, b: TagCount)
    requires a == TagCount("a", 2) && b == TagCount("b", 1)
    ensures SortedBy([a, b], TagKey)
  {
    TagKeyOrder(a, b);
  }
}
