/**
  Chapter-range resolution of the chapter splitter: the outline items that
  have a non-empty title and a resolvable destination page are collected in
  outline order, stably sorted by page, and each becomes a range running from
  its page up to the page before the next entry's page (the last one up to
  the document's last page).
 */
module RangeResolver {
  import opened Wrappers

  /**
    An outline item as the extraction loop sees it: its title attribute, if
    any, and the page its destination resolves to, absent when the lookup of
    the destination page fails.
   */
  datatype OutlineItem = OutlineItem(title: Option<string>, page: Option<nat>)

  /** A collected `(title, page)` pair. */
  datatype Entry = Entry(title: string, page: nat)

  /** A resolved `(title, start, end)` range; `end` is inclusive and is not clamped, so it may lie below `start`. */
  datatype ChapterRange = ChapterRange(title: string, start: nat, end: int)

  /** The extraction loop keeps an item when its title is present and non-empty and its page resolves. */
  predicate Usable(item: OutlineItem)
  {
    item.title.Some? && item.title.value != "" && item.page.Some?
  }

  function ToEntry(item: OutlineItem): Entry
    requires Usable(item)
  {
    Entry(item.title.value, item.page.value)
  }

  // ---------------- Collecting the usable items ----------------

  /** The kept entries, in outline order. */
  function Kept(outline: seq<OutlineItem>): (raw: seq<Entry>)
    ensures |raw| <= |outline|
    ensures forall k :: 0 <= k < |raw| ==> raw[k].title != ""
  {
    if outline == [] then []
    else
      var last := outline[|outline| - 1];
      Kept(outline[..|outline| - 1]) + (if Usable(last) then [ToEntry(last)] else [])
  }

  /** The loop that builds `raw`: one pass over the outline, appending each usable item. */
  method CollectEntries(outline: seq<OutlineItem>) returns (raw: seq<Entry>)
    ensures raw == Kept(outline)
  {
    raw := [];
    var i := 0;
    while i < |outline|
      invariant 0 <= i <= |outline|
      invariant raw == Kept(outline[..i])
    {
      var item := outline[i];
      assert outline[..i + 1][..i] == outline[..i];
      if item.title.Some? && item.title.value != "" {
        if item.page.Some? {
          raw := raw + [Entry(item.title.value, item.page.value)];
        }
      }
      i := i + 1;
    }
    assert outline[..i] == outline;
  }

  /** Collecting is done item by item: the entries of two outline parts are concatenated in order. */
  lemma {:induction false} KeptAppend(a: seq<OutlineItem>, b: seq<OutlineItem>)
    ensures Kept(a + b) == Kept(a) + Kept(b)
  {
    if b == [] {
      assert a + b == a;
    } else {
      assert (a + b)[..|a + b| - 1] == a + b[..|b| - 1];
      KeptAppend(a, b[..|b| - 1]);
    }
  }

  /** An item on its own is kept exactly when it is usable, and then with its own title and page. */
  lemma KeptSingle(item: OutlineItem)
    ensures Kept([item]) == if Usable(item) then [Entry(item.title.value, item.page.value)] else []
  {
    assert [item][..0] == [];
  }

  /** An entry is collected exactly when some usable outline item carries its title and page. */
  lemma {:induction false} KeptMember(outline: seq<OutlineItem>, e: Entry)
    ensures e in Kept(outline) <==>
            exists i :: 0 <= i < |outline| && Usable(outline[i]) && ToEntry(outline[i]) == e
  {
    if outline != [] {
      var init := outline[..|outline| - 1];
      KeptMember(init, e);
      if e in Kept(outline) && e !in Kept(init) {
        assert Usable(outline[|outline| - 1]) && ToEntry(outline[|outline| - 1]) == e;
      }
      if exists i :: 0 <= i < |outline| && Usable(outline[i]) && ToEntry(outline[i]) == e {
        var i :| 0 <= i < |outline| && Usable(outline[i]) && ToEntry(outline[i]) == e;
        if i < |init| {
          assert init[i] == outline[i];
        }
      }
    }
  }

  // ---------------- Stable sort by page ----------------

  predicate SortedByPage(s: seq<Entry>)
  {
    forall i, j :: 0 <= i < j < |s| ==> s[i].page <= s[j].page
  }

  /** The entries of `s` that lie on page `p`, in their order in `s`. */
  function OnPage(s: seq<Entry>, p: nat): seq<Entry>
  {
    if s == [] then [] else (if s[0].page == p then [s[0]] else []) + OnPage(s[1..], p)
  }

  /** Puts `e` in front of the first entry whose page is at least its own. */
  function InsertByPage(e: Entry, s: seq<Entry>): (r: seq<Entry>)
    ensures |r| == |s| + 1
    ensures multiset(r) == multiset(s) + multiset{e}
  {
    if s == [] || e.page <= s[0].page then [e] + s
    else
      assert s == [s[0]] + s[1..];
      [s[0]] + InsertByPage(e, s[1..])
  }

  /** `raw.sort(key=lambda x: x[1])`: Python's stable sort by page. */
  function SortByPage(s: seq<Entry>): (r: seq<Entry>)
    ensures |r| == |s|
    ensures multiset(r) == multiset(s)
  {
    if s == [] then []
    else
      assert s == [s[0]] + s[1..];
      InsertByPage(s[0], SortByPage(s[1..]))
  }

  lemma {:induction false} InsertSorted(e: Entry, s: seq<Entry>)
    requires SortedByPage(s)
    ensures SortedByPage(InsertByPage(e, s))
  {
    if s != [] && e.page > s[0].page {
      InsertSorted(e, s[1..]);
      InsertLowerBound(e, s[1..], s[0].page);
      ConsSorted(s[0], InsertByPage(e, s[1..]));
    }
  }

  /** Inserting an entry on page `b` or later into entries on page `b` or later gives entries on page `b` or later. */
  lemma InsertLowerBound(e: Entry, s: seq<Entry>, b: nat)
    requires b <= e.page && forall i :: 0 <= i < |s| ==> b <= s[i].page
    ensures forall i :: 0 <= i < |InsertByPage(e, s)| ==> b <= InsertByPage(e, s)[i].page
  {
    var t := InsertByPage(e, s);
    forall i | 0 <= i < |t|
      ensures b <= t[i].page
    {
      assert t[i] in multiset(t);
      if t[i] != e {
        assert t[i] in multiset(s);
        var j :| 0 <= j < |s| && s[j] == t[i];
      }
    }
  }

  /** Putting an entry no later than any of a sorted sequence in front keeps it sorted. */
  lemma ConsSorted(x: Entry, t: seq<Entry>)
    requires SortedByPage(t) && forall i :: 0 <= i < |t| ==> x.page <= t[i].page
    ensures SortedByPage([x] + t)
  {
    var r := [x] + t;
    forall i, j | 0 <= i < j < |r|
      ensures r[i].page <= r[j].page
    {
      assert r[j] == t[j - 1];
      if i > 0 {
        assert r[i] == t[i - 1];
      }
    }
  }

  /** The sort leaves the entries in non-decreasing page order. */
  lemma {:induction false} SortSorted(s: seq<Entry>)
    ensures SortedByPage(SortByPage(s))
  {
    if s != [] {
      SortSorted(s[1..]);
      InsertSorted(s[0], SortByPage(s[1..]));
    }
  }

  /** Entries already in page order are left exactly as they are. */
  lemma {:induction false} SortOfSorted(s: seq<Entry>)
    requires SortedByPage(s)
    ensures SortByPage(s) == s
  {
    if s != [] {
      SortOfSorted(s[1..]);
      assert s == [s[0]] + s[1..];
    }
  }

  lemma {:induction false} InsertOnPage(e: Entry, s: seq<Entry>, p: nat)
    ensures OnPage(InsertByPage(e, s), p) == if e.page == p then [e] + OnPage(s, p) else OnPage(s, p)
  {
    if s == [] || e.page <= s[0].page {
      assert ([e] + s)[1..] == s;
    } else {
      InsertOnPage(e, s[1..], p);
      assert ([s[0]] + InsertByPage(e, s[1..]))[1..] == InsertByPage(e, s[1..]);
    }
  }

  /** The sort is stable: the entries on any one page keep their original relative order. */
  lemma {:induction false} SortStable(s: seq<Entry>, p: nat)
    ensures OnPage(SortByPage(s), p) == OnPage(s, p)
  {
    if s != [] {
      SortStable(s[1..], p);
      InsertOnPage(s[0], SortByPage(s[1..]), p);
    }
  }

  predicate DistinctPages(s: seq<Entry>)
  {
    forall i, j :: 0 <= i < j < |s| ==> s[i].page != s[j].page
  }

  lemma {:induction false} InsertDistinct(e: Entry, s: seq<Entry>)
    requires DistinctPages(s)
    requires forall x :: x in s ==> x.page != e.page
    ensures DistinctPages(InsertByPage(e, s))
  {
    if s != [] && e.page > s[0].page {
      var t := InsertByPage(e, s[1..]);
      InsertDistinct(e, s[1..]);
      forall x | x in t
        ensures x.page != s[0].page
      {
        assert x in multiset(t);
      }
    }
  }

  lemma {:induction false} SortDistinct(s: seq<Entry>)
    requires DistinctPages(s)
    ensures DistinctPages(SortByPage(s))
  {
    if s != [] {
      SortDistinct(s[1..]);
      var t := SortByPage(s[1..]);
      forall x | x in t
        ensures x.page != s[0].page
      {
        assert x in multiset(s[1..]);
      }
      InsertDistinct(s[0], t);
    }
  }

  // ---------------- Ranges ----------------

  /** The `end` the range loop computes at position `i`. */
  function EndAt(raw: seq<Entry>, i: nat, total: nat): (e: int)
    requires i < |raw|
    ensures i + 1 < |raw| && raw[i].page < raw[i + 1].page ==> raw[i].page <= e < raw[i + 1].page
    ensures i + 1 == |raw| && raw[i].page < total ==> raw[i].page <= e < total
  {
    if i + 1 < |raw| then raw[i + 1].page - 1 else total - 1
  }

  /** The ranges of the sorted entries: each one ends just before the next one starts. */
  function Resolve(raw: seq<Entry>, total: nat): (r: seq<ChapterRange>)
    ensures |r| == |raw|
  {
    if raw == [] then []
    else [ChapterRange(raw[0].title, raw[0].page, EndAt(raw, 0, total))] + Resolve(raw[1..], total)
  }

  /** The range at position `i` carries the `i`-th entry's title and page and ends before the next page. */
  lemma {:induction false} ResolveAt(raw: seq<Entry>, total: nat, i: nat)
    requires i < |raw|
    ensures Resolve(raw, total)[i] == ChapterRange(raw[i].title, raw[i].page, EndAt(raw, i, total))
  {
    if i > 0 {
      ResolveAt(raw[1..], total, i - 1);
    }
  }

  /** The range loop: one range per sorted entry, appended in order. */
  method BuildRanges(raw: seq<Entry>, total: nat) returns (ranges: seq<ChapterRange>)
    ensures ranges == Resolve(raw, total)
  {
    ranges := [];
    var i := 0;
    while i < |raw|
      invariant 0 <= i <= |raw|
      invariant ranges == Resolve(raw, total)[..i]
    {
      var end := if i + 1 < |raw| then raw[i + 1].page - 1 else total - 1;
      ResolveAt(raw, total, i);
      assert Resolve(raw, total)[..i + 1] == Resolve(raw, total)[..i] + [Resolve(raw, total)[i]];
      ranges := ranges + [ChapterRange(raw[i].title, raw[i].page, end)];
      i := i + 1;
    }
  }

  /** `get_chapter_ranges` after the outline has been read: collect, sort, resolve. */
  function ChapterRanges(outline: seq<OutlineItem>, total: nat): (r: seq<ChapterRange>)
    ensures |r| == |Kept(outline)|
  {
    Resolve(SortByPage(Kept(outline)), total)
  }

  /** The steps of `get_chapter_ranges` in the order the source runs them. */
  method GetChapterRanges(outline: seq<OutlineItem>, total: nat) returns (ranges: seq<ChapterRange>)
    ensures ranges == ChapterRanges(outline, total)
  {
    var raw := CollectEntries(outline);
    raw := SortByPage(raw);
    ranges := BuildRanges(raw, total);
  }

  /** The `(title, start)` pairs of a range sequence. */
  function Heads(r: seq<ChapterRange>): seq<Entry>
  {
    seq(|r|, i requires 0 <= i < |r| => Entry(r[i].title, r[i].start))
  }

  lemma HeadsResolve(raw: seq<Entry>, total: nat)
    ensures Heads(Resolve(raw, total)) == raw
  {
    var h := Heads(Resolve(raw, total));
    forall i | 0 <= i < |raw|
      ensures h[i] == raw[i]
    {
      ResolveAt(raw, total, i);
    }
  }

  /**
    Exactly one range per kept item: the `(title, start)` pairs of the ranges
    are the kept entries, reordered by the sort and nothing else, so every
    title is a non-empty title of the outline.
   */
  lemma ChapterRangesEntries(outline: seq<OutlineItem>, total: nat)
    ensures |ChapterRanges(outline, total)| == |Kept(outline)|
    ensures Heads(ChapterRanges(outline, total)) == SortByPage(Kept(outline))
    ensures multiset(Heads(ChapterRanges(outline, total))) == multiset(Kept(outline))
  {
    HeadsResolve(SortByPage(Kept(outline)), total);
  }

  /** No range at all, rather than an error, when no outline item is usable; in particular for an empty outline. */
  lemma ChapterRangesEmpty(outline: seq<OutlineItem>, total: nat)
    ensures ChapterRanges(outline, total) == [] <==> forall i :: 0 <= i < |outline| ==> !Usable(outline[i])
    ensures ChapterRanges([], total) == []
  {
    if ChapterRanges(outline, total) == [] {
      forall i | 0 <= i < |outline|
        ensures !Usable(outline[i])
      {
        if Usable(outline[i]) {
          KeptMember(outline, ToEntry(outline[i]));
        }
      }
    } else if forall i :: 0 <= i < |outline| ==> !Usable(outline[i]) {
      var e := Kept(outline)[0];
      KeptMember(outline, e);
    }
  }

  /** The ranges come in non-decreasing order of their start pages. */
  lemma ChapterRangesSorted(outline: seq<OutlineItem>, total: nat)
    ensures var r := ChapterRanges(outline, total);
            forall i, j :: 0 <= i < j < |r| ==> r[i].start <= r[j].start
  {
    var s := SortByPage(Kept(outline));
    SortSorted(Kept(outline));
    HeadsResolve(s, total);
    var r := ChapterRanges(outline, total);
    forall i, j | 0 <= i < j < |r|
      ensures r[i].start <= r[j].start
    {
      assert Heads(r)[i] == s[i] && Heads(r)[j] == s[j];
    }
  }

  /** Ranges starting on the same page keep the relative order their items had in the outline. */
  lemma ChapterRangesStable(outline: seq<OutlineItem>, total: nat, p: nat)
    ensures OnPage(Heads(ChapterRanges(outline, total)), p) == OnPage(Kept(outline), p)
  {
    HeadsResolve(SortByPage(Kept(outline)), total);
    SortStable(Kept(outline), p);
  }

  /** Consecutive ranges are adjacent, and the last one reaches the last page of the document. */
  lemma ChapterRangesAdjacent(outline: seq<OutlineItem>, total: nat)
    ensures var r := ChapterRanges(outline, total);
            (forall i :: 0 <= i < |r| - 1 ==> r[i].end == r[i + 1].start - 1)
            && (r != [] ==> r[|r| - 1].end == total - 1)
  {
    var s := SortByPage(Kept(outline));
    var r := ChapterRanges(outline, total);
    forall i | 0 <= i < |r| - 1
      ensures r[i].end == r[i + 1].start - 1
    {
      ResolveAt(s, total, i);
      ResolveAt(s, total, i + 1);
    }
    if r != [] {
      ResolveAt(s, total, |r| - 1);
    }
  }

  /** The number of ranges that contain page `q`. */
  function Covering(r: seq<ChapterRange>, q: int): nat
  {
    if r == [] then 0 else (if r[0].start <= q <= r[0].end then 1 else 0) + Covering(r[1..], q)
  }

  predicate StrictlyIncreasing(s: seq<Entry>)
  {
    forall i, j :: 0 <= i < j < |s| ==> s[i].page < s[j].page
  }

  /** Over strictly increasing pages, the ranges cover every page from the first one to the last page exactly once. */
  lemma {:induction false} ResolveCovers(raw: seq<Entry>, total: nat, q: int)
    requires raw != [] && StrictlyIncreasing(raw) && raw[|raw| - 1].page < total
    ensures Covering(Resolve(raw, total), q) == if raw[0].page <= q < total then 1 else 0
  {
    var r := Resolve(raw, total);
    assert r[1..] == Resolve(raw[1..], total);
    if |raw| > 1 {
      ResolveCovers(raw[1..], total, q);
    }
  }

  /** Sorted entries with pairwise distinct pages have strictly increasing pages. */
  lemma SortedDistinctIncreasing(s: seq<Entry>)
    requires SortedByPage(s) && DistinctPages(s)
    ensures StrictlyIncreasing(s)
  {
  }

  /** Under non-overlapping strictly increasing pages, each range is a non-empty span inside the document. */
  lemma ResolveBounds(raw: seq<Entry>, total: nat)
    requires raw != [] && StrictlyIncreasing(raw) && raw[|raw| - 1].page < total
    ensures var r := Resolve(raw, total); forall i :: 0 <= i < |r| ==> r[i].start <= r[i].end < total
  {
    var r := Resolve(raw, total);
    forall i | 0 <= i < |r|
      ensures r[i].start <= r[i].end < total
    {
      ResolveAt(raw, total, i);
      if i + 1 < |raw| {
        assert raw[i].page < raw[i + 1].page;
        if i + 1 < |raw| - 1 {
          assert raw[i + 1].page < raw[|raw| - 1].page;
        }
      }
    }
  }

  /**
    When the kept pages are pairwise distinct, the smallest is 0 and all lie
    inside the document, every range is a non-empty span of the document and
    together they cover each page of the document exactly once.
   */
  lemma ChapterRangesPartition(outline: seq<OutlineItem>, total: nat)
    requires DistinctPages(Kept(outline))
    requires exists k :: 0 <= k < |Kept(outline)| && Kept(outline)[k].page == 0
    requires forall k :: 0 <= k < |Kept(outline)| ==> Kept(outline)[k].page < total
    ensures var r := ChapterRanges(outline, total);
            r != [] && r[0].start == 0 && r[|r| - 1].end == total - 1
            && (forall i :: 0 <= i < |r| ==> r[i].start <= r[i].end < total)
            && (forall q :: 0 <= q < total ==> Covering(r, q) == 1)
  {
    var kept := Kept(outline);
    var s := SortByPage(kept);
    SortedEnds(kept, total);
    SortDistinct(kept);
    SortedDistinctIncreasing(s);
    var r := Resolve(s, total);
    ResolveAt(s, total, 0);
    ResolveAt(s, total, |s| - 1);
    ResolveBounds(s, total);
    forall q | 0 <= q < total
      ensures Covering(r, q) == 1
    {
      ResolveCovers(s, total, q);
    }
  }

  /** After sorting, a page 0 comes first and the last page is one of the kept pages. */
  lemma SortedEnds(kept: seq<Entry>, total: nat)
    requires exists k :: 0 <= k < |kept| && kept[k].page == 0
    requires forall k :: 0 <= k < |kept| ==> kept[k].page < total
    ensures var s := SortByPage(kept); s != [] && SortedByPage(s) && s[0].page == 0 && s[|s| - 1].page < total
  {
    var s := SortByPage(kept);
    SortSorted(kept);
    var k :| 0 <= k < |kept| && kept[k].page == 0;
    SameMembers(kept, s, kept[k]);
    SortedFirst(s, kept[k]);
    SameMembers(s, kept, s[|s| - 1]);
  }

  lemma SameMembers(a: seq<Entry>, b: seq<Entry>, x: Entry)
    requires multiset(a) == multiset(b) && x in a
    ensures x in b
  {
    assert x in multiset(a);
  }

  lemma SortedFirst(s: seq<Entry>, x: Entry)
    requires SortedByPage(s) && x in s
    ensures s[0].page <= x.page
  {
    var j :| 0 <= j < |s| && s[j] == x;
    if j > 0 {
      assert s[0].page <= s[j].page;
    }
  }

  /** The collecting step of the scenario below. */
  lemma KeptExample(outline: seq<OutlineItem>)
    requires outline == [OutlineItem(Some("Ch1"), Some(0)), OutlineItem(Some("Ch2"), Some(10)),
                         OutlineItem(Some("Ch3"), Some(25))]
    ensures Kept(outline) == [Entry("Ch1", 0), Entry("Ch2", 10), Entry("Ch3", 25)]
  {
    var a, b, c := outline[0], outline[1], outline[2];
    assert Usable(a) && Usable(b) && Usable(c);
    var o0, o1, o2 := outline[..0], outline[..1], outline[..2];
    assert o0 == [] && o1[..0] == o0 && o2[..1] == o1 && outline[..2] == o2;
    assert Kept(o1) == [ToEntry(a)];
    assert Kept(o2) == [ToEntry(a), ToEntry(b)];
  }

  /** The resolving step of the scenario below. */
  lemma ResolveExample(kept: seq<Entry>)
    requires kept == [Entry("Ch1", 0), Entry("Ch2", 10), Entry("Ch3", 25)]
    ensures Resolve(kept, 40) == [ChapterRange("Ch1", 0, 9), ChapterRange("Ch2", 10, 24), ChapterRange("Ch3", 25, 39)]
  {
    ResolveAt(kept, 40, 0);
    ResolveAt(kept, 40, 1);
    ResolveAt(kept, 40, 2);
  }

  /** Ch1 at page 0, Ch2 at 10, Ch3 at 25 in a 40-page document, end to end. */
  lemma ChapterRangesExample(outline: seq<OutlineItem>)
    requires outline == [OutlineItem(Some("Ch1"), Some(0)), OutlineItem(Some("Ch2"), Some(10)),
                         OutlineItem(Some("Ch3"), Some(25))]
    ensures ChapterRanges(outline, 40)
         == [ChapterRange("Ch1", 0, 9), ChapterRange("Ch2", 10, 24), ChapterRange("Ch3", 25, 39)]
  {
    KeptExample(outline);
    var kept := Kept(outline);
    assert SortedByPage(kept);
    SortOfSorted(kept);
    ResolveExample(kept);
  }
}
