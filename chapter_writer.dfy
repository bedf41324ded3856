/**
  The chapter writer of the splitter: for each selected range, at 1-based
  position `num`, the pages `start..end` of the source document are copied in
  order into a new document stored in the output directory under the name
  `f"{num:02d}_{sanitize_filename(title)}.pdf"`; the number of documents
  written is returned.
 */
module ChapterWriter {
  import opened Wrappers
  import opened Sanitizer
  import opened RangeResolver

  // ---------------- The `{num:02d}` format ----------------

  predicate IsDigit(c: char)
  {
    '0' <= c <= '9'
  }

  predicate AllDigits(s: string)
  {
    forall i :: 0 <= i < |s| ==> IsDigit(s[i])
  }

  function DigitChar(d: nat): (c: char)
    requires d < 10
    ensures IsDigit(c)
  {
    ('0' as int + d) as char
  }

  function DigitValue(c: char): (d: nat)
    requires IsDigit(c)
    ensures d < 10
  {
    c as int - '0' as int
  }

  /** The decimal digits of `n`, without leading zeros. */
  function Decimal(n: nat): (s: string)
    ensures |s| >= 1 && AllDigits(s)
    ensures |s| == 1 <==> n < 10
    ensures |s| == 1 || s[0] != '0'
  {
    if n < 10 then [DigitChar(n)] else Decimal(n / 10) + [DigitChar(n % 10)]
  }

  /** `f"{n:02d}"`: the decimal digits of `n`, padded with zeros to at least two. */
  function Pad2(n: nat): (s: string)
    ensures |s| >= 2 && AllDigits(s)
    ensures n < 100 ==> |s| == 2
    ensures |s| == 2 || s[0] != '0'
  {
    if n < 10 then ['0', DigitChar(n)] else Decimal(n)
  }

  /** Reads a string of decimal digits as a number. */
  function ParseDecimal(s: string): nat
    requires AllDigits(s)
  {
    if s == [] then 0 else ParseDecimal(s[..|s| - 1]) * 10 + DigitValue(s[|s| - 1])
  }

  lemma {:induction false} DecimalRoundTrip(n: nat)
    ensures ParseDecimal(Decimal(n)) == n
  {
    if n >= 10 {
      var s := Decimal(n);
      assert s[..|s| - 1] == Decimal(n / 10);
      DecimalRoundTrip(n / 10);
    }
  }

  /** The padded number reads back as the number: padding loses nothing. */
  lemma Pad2RoundTrip(n: nat)
    ensures ParseDecimal(Pad2(n)) == n
  {
    if n < 10 {
      var s := Pad2(n);
      assert s[..1] == ['0'] && s[..1][..0] == [];
      assert ParseDecimal(['0']) == 0;
      assert DigitValue(DigitChar(n)) == n;
    } else {
      DecimalRoundTrip(n);
    }
  }

  // ---------------- Output file names ----------------

  /** The name the `num`-th chapter is written under. */
  function FileName(num: nat, title: string): string
  {
    Pad2(num) + NameTail(title)
  }

  /** A name is the padded number, then '_', then the sanitized title, then the extension ".pdf". */
  lemma FileNameParts(num: nat, title: string)
    ensures var r, p, t := FileName(num, title), Pad2(num), SanitizeFilename(title);
            r[..|p|] == p && r[|p|] == '_' && r[|p| + 1..|r| - 4] == t && r[|r| - 4..] == ".pdf"
  {
    var r, p, t := FileName(num, title), Pad2(num), SanitizeFilename(title);
    assert r == p + "_" + t + ".pdf";
    assert r[..|p|] == p;
    assert r[|p| + 1..|r| - 4] == t;
  }

  /** What follows the number in a file name: `_`, the sanitized title and the extension. */
  function NameTail(title: string): (r: string)
    ensures |r| >= 1 && r[0] == '_'
  {
    "_" + SanitizeFilename(title) + ".pdf"
  }

  /** Two digit strings each followed by something starting with '_' are told apart by the digits alone. */
  lemma DigitsBeforeUnderscore(x: string, y: string, u: string, v: string)
    requires AllDigits(x) && AllDigits(u)
    requires y != [] && y[0] == '_' && v != [] && v[0] == '_'
    requires x + y == u + v
    ensures x == u
  {
    var s := x + y;
    assert x == s[..|x|];
    assert u == (u + v)[..|u|];
  }

  /** Different positions give different names, whatever the titles: no write of one call replaces another. */
  lemma FileNameInjective(a: nat, t: string, b: nat, u: string)
    requires FileName(a, t) == FileName(b, u)
    ensures a == b
  {
    DigitsBeforeUnderscore(Pad2(a), NameTail(t), Pad2(b), NameTail(u));
    Pad2RoundTrip(a);
    Pad2RoundTrip(b);
  }

  /** No output name contains a reserved character, so none of them reaches outside the output directory. */
  lemma FileNameNoReserved(num: nat, title: string)
    ensures NoReserved(FileName(num, title))
  {
    var p, t := Pad2(num), SanitizeFilename(title);
    var s := FileName(num, title);
    assert s == p + "_" + t + ".pdf";
    forall i | 0 <= i < |s|
      ensures !IsReserved(s[i])
    {
      if i < |p| {
        assert s[i] == p[i];
      } else if i == |p| {
        assert s[i] == '_';
      } else if i < |p| + 1 + |t| {
        assert s[i] == t[i - |p| - 1];
      } else {
        assert s[i] == ".pdf"[i - |p| - 1 - |t|];
      }
    }
  }

  /** The first chapter titled "Intro" is written as "01_Intro.pdf". */
  lemma FileNameExample(title: string)
    requires title == "Intro"
    ensures FileName(1, title) == "01_Intro.pdf"
  {
    assert NoReserved(title) && Trimmed(title);
    ReplaceNoReserved(title);
    StripTrimmed(title);
    assert Pad2(1) == "01";
    assert FileName(1, title) == "01" + "_" + "Intro" + ".pdf";
  }

  // ---------------- What one call writes ----------------

  /** One file write: the name and the pages of the new document. */
  datatype Write<Page> = Write(name: string, pages: seq<Page>)

  /** Every page the range asks for lies inside a document of `pageCount` pages. */
  predicate InDocument(c: ChapterRange, pageCount: nat)
  {
    c.start <= c.end ==> c.end < pageCount
  }

  function AllIndices(n: nat): seq<nat>
  {
    seq(n, i => i)
  }

  /** The effective selection: all indices in order when none is given, else the given one. */
  function Selected(n: nat, selectedIdx: Option<seq<nat>>): (sel: seq<nat>)
    ensures selectedIdx.None? ==> |sel| == n && forall k :: 0 <= k < n ==> sel[k] == k
    ensures selectedIdx.Some? ==> sel == selectedIdx.value
  {
    match selectedIdx
    case None => AllIndices(n)
    case Some(s) => s
  }

  /** Every selected index names a range, and every page of that range lies in the document. */
  predicate ValidSelection(ranges: seq<ChapterRange>, pageCount: nat, sel: seq<nat>)
  {
    forall k :: 0 <= k < |sel| ==> sel[k] < |ranges| && InDocument(ranges[sel[k]], pageCount)
  }

  /** The pages of a range, `start` to `end` inclusive, in document order. */
  function Chapter<Page>(pages: seq<Page>, c: ChapterRange): (r: seq<Page>)
    requires InDocument(c, |pages|)
    ensures |r| == if c.start <= c.end then c.end - c.start + 1 else 0
    ensures forall k :: 0 <= k < |r| ==> r[k] == pages[c.start + k]
  {
    if c.start <= c.end then pages[c.start..c.end + 1] else []
  }

  /** The writes of one call, in order: the `k`-th selected range (from 1) is written under number `k`. */
  function Plan<Page>(ranges: seq<ChapterRange>, pages: seq<Page>, sel: seq<nat>): (p: seq<Write<Page>>)
    requires ValidSelection(ranges, |pages|, sel)
    ensures |p| == |sel|
  {
    if sel == [] then []
    else
      var c := ranges[sel[|sel| - 1]];
      assert ValidSelection(ranges, |pages|, sel[..|sel| - 1]) by {
        forall k | 0 <= k < |sel| - 1
          ensures sel[..|sel| - 1][k] == sel[k]
        {
        }
      }
      Plan(ranges, pages, sel[..|sel| - 1]) + [Write(FileName(|sel|, c.title), Chapter(pages, c))]
  }

  /** The plan for a prefix of the selection is the prefix of the plan. */
  lemma {:induction false} PlanPrefix<Page>(ranges: seq<ChapterRange>, pages: seq<Page>, sel: seq<nat>, k: nat)
    requires ValidSelection(ranges, |pages|, sel)
    requires k <= |sel|
    ensures ValidSelection(ranges, |pages|, sel[..k])
    ensures Plan(ranges, pages, sel[..k]) == Plan(ranges, pages, sel)[..k]
    decreases |sel|
  {
    assert forall i :: 0 <= i < k ==> sel[..k][i] == sel[i];
    if k < |sel| {
      var init := sel[..|sel| - 1];
      assert init[..k] == sel[..k];
      PlanPrefix(ranges, pages, init, k);
    } else {
      assert sel[..k] == sel;
    }
  }

  /** The `k`-th write (from 0) goes to number `k + 1` and holds the pages of the `k`-th selected range. */
  lemma PlanAt<Page>(ranges: seq<ChapterRange>, pages: seq<Page>, sel: seq<nat>, k: nat)
    requires ValidSelection(ranges, |pages|, sel)
    requires k < |sel|
    ensures Plan(ranges, pages, sel)[k]
         == Write(FileName(k + 1, ranges[sel[k]].title), Chapter(pages, ranges[sel[k]]))
  {
    PlanPrefix(ranges, pages, sel, k + 1);
    var pre := sel[..k + 1];
    assert pre[..k] == sel[..k];
    assert pre[k] == sel[k];
  }

  /** The directory entries a sequence of writes leaves behind, each write replacing any earlier one of the same name. */
  function Outputs<Page>(writes: seq<Write<Page>>): (dir: map<string, seq<Page>>)
    ensures dir.Keys == Names(writes)
  {
    if writes == [] then map[]
    else
      var init, last := writes[..|writes| - 1], writes[|writes| - 1];
      assert Names(writes) == Names(init) + {last.name} by {
        forall name | name in Names(writes)
          ensures name in Names(init) + {last.name}
        {
          var k :| 0 <= k < |writes| && writes[k].name == name;
          if k < |init| {
            assert init[k] == writes[k];
          }
        }
        forall name | name in Names(init)
          ensures name in Names(writes)
        {
          var k :| 0 <= k < |init| && init[k].name == name;
          assert writes[k] == init[k];
        }
      }
      Outputs(init)[last.name := last.pages]
  }

  /** The plan for one more selected range ends with that range's write. */
  lemma PlanStep<Page>(ranges: seq<ChapterRange>, pages: seq<Page>, sel: seq<nat>, k: nat)
    requires ValidSelection(ranges, |pages|, sel)
    requires k < |sel|
    ensures ValidSelection(ranges, |pages|, sel[..k]) && ValidSelection(ranges, |pages|, sel[..k + 1])
    ensures Plan(ranges, pages, sel[..k + 1])
         == Plan(ranges, pages, sel[..k]) + [Write(FileName(k + 1, ranges[sel[k]].title), Chapter(pages, ranges[sel[k]]))]
  {
    PlanPrefix(ranges, pages, sel, k);
    PlanPrefix(ranges, pages, sel, k + 1);
    var pre := sel[..k + 1];
    assert pre[..k] == sel[..k];
    assert pre[k] == sel[k];
  }

  /** One more write updates the directory by that write alone. */
  lemma OutputsAppend<Page>(before: map<string, seq<Page>>, writes: seq<Write<Page>>, w: Write<Page>)
    ensures before + Outputs(writes + [w]) == (before + Outputs(writes))[w.name := w.pages]
  {
    assert (writes + [w])[..|writes|] == writes;
  }

  /** The names written. */
  function Names<Page>(writes: seq<Write<Page>>): set<string>
  {
    set k | 0 <= k < |writes| :: writes[k].name
  }

  /** The `num`-th write stores the pages of the `num`-th selected range, and the names of one call are pairwise distinct. */
  lemma PlanShape<Page>(ranges: seq<ChapterRange>, pages: seq<Page>, sel: seq<nat>)
    requires ValidSelection(ranges, |pages|, sel)
    ensures var p := Plan(ranges, pages, sel);
            |p| == |sel|
            && (forall k :: 0 <= k < |p| ==>
                  p[k].name == FileName(k + 1, ranges[sel[k]].title)
                  && p[k].pages == Chapter(pages, ranges[sel[k]]))
            && (forall i, j :: 0 <= i < j < |p| ==> p[i].name != p[j].name)
  {
    var p := Plan(ranges, pages, sel);
    forall k | 0 <= k < |p|
      ensures p[k].name == FileName(k + 1, ranges[sel[k]].title)
           && p[k].pages == Chapter(pages, ranges[sel[k]])
    {
      PlanAt(ranges, pages, sel, k);
    }
    var titles := seq(|sel|, k requires 0 <= k < |sel| => ranges[sel[k]].title);
    NumberedNamesDistinct(titles);
    forall i, j | 0 <= i < j < |p|
      ensures p[i].name != p[j].name
    {
      assert p[i].name == FileName(i + 1, titles[i]) && p[j].name == FileName(j + 1, titles[j]);
    }
  }

  /** Numbering titles from 1 gives pairwise distinct names, whatever the titles. */
  lemma NumberedNamesDistinct(titles: seq<string>)
    ensures forall i, j :: 0 <= i < j < |titles| ==> FileName(i + 1, titles[i]) != FileName(j + 1, titles[j])
  {
    forall i, j | 0 <= i < j < |titles|
      ensures FileName(i + 1, titles[i]) != FileName(j + 1, titles[j])
    {
      FileNamesDiffer(i + 1, titles[i], j + 1, titles[j]);
    }
  }

  /** Names with different numbers differ, whatever the titles. */
  lemma FileNamesDiffer(a: nat, t: string, b: nat, u: string)
    requires a != b
    ensures FileName(a, t) != FileName(b, u)
  {
    if FileName(a, t) == FileName(b, u) {
      FileNameInjective(a, t, b, u);
    }
  }

  /** When the names are pairwise distinct, each name holds exactly the pages written under it. */
  lemma {:induction false} OutputsDistinct<Page>(writes: seq<Write<Page>>, k: nat)
    requires forall i, j :: 0 <= i < j < |writes| ==> writes[i].name != writes[j].name
    requires k < |writes|
    ensures writes[k].name in Outputs(writes) && Outputs(writes)[writes[k].name] == writes[k].pages
  {
    var init := writes[..|writes| - 1];
    if k < |init| {
      assert init[k] == writes[k];
      OutputsDistinct(init, k);
    }
  }

  /**
    After writing the chapters into a directory, each chapter's name holds
    its pages, and every other entry of the directory is as it was.
   */
  lemma WrittenFiles<Page>(before: map<string, seq<Page>>, ranges: seq<ChapterRange>, pages: seq<Page>, sel: seq<nat>)
    requires ValidSelection(ranges, |pages|, sel)
    ensures var after := before + Outputs(Plan(ranges, pages, sel));
            (forall k :: 0 <= k < |sel| ==>
               FileName(k + 1, ranges[sel[k]].title) in after
               && after[FileName(k + 1, ranges[sel[k]].title)] == Chapter(pages, ranges[sel[k]]))
            && after.Keys == before.Keys + Names(Plan(ranges, pages, sel))
            && (forall name :: name in before && name !in Names(Plan(ranges, pages, sel)) ==> after[name] == before[name])
  {
    var p := Plan(ranges, pages, sel);
    PlanShape(ranges, pages, sel);
    forall k | 0 <= k < |sel|
      ensures p[k].name in Outputs(p) && Outputs(p)[p[k].name] == p[k].pages
    {
      OutputsDistinct(p, k);
    }
  }

  /** Writing the same chapters twice leaves the directory as writing them once: outputs are overwritten, never duplicated. */
  lemma WriteTwice<Page>(before: map<string, seq<Page>>, writes: seq<Write<Page>>)
    ensures before + Outputs(writes) + Outputs(writes) == before + Outputs(writes)
  {
  }

  /** `ranges.reverse()`, which the callers apply for descending order. */
  function Reverse<T>(s: seq<T>): (r: seq<T>)
    ensures |r| == |s|
    ensures forall i :: 0 <= i < |s| ==> r[|s| - 1 - i] == s[i]
  {
    seq(|s|, i requires 0 <= i < |s| => s[|s| - 1 - i])
  }

  /** Every range lies inside the document, so the default selection is valid for them and for their reversal. */
  lemma DefaultSelectionValid(ranges: seq<ChapterRange>, pageCount: nat)
    requires forall i :: 0 <= i < |ranges| ==> InDocument(ranges[i], pageCount)
    ensures ValidSelection(ranges, pageCount, Selected(|ranges|, None))
    ensures ValidSelection(Reverse(ranges), pageCount, Selected(|ranges|, None))
  {
  }

  /**
    Writing the reversed ranges with the default selection writes the same
    chapters, with the same titles and pages, only numbered from the other
    end: the `k`-th write of the reversed order is the `(n-1-k)`-th write of
    the original order under the number `k + 1`.
   */
  lemma ReversedOrder<Page>(ranges: seq<ChapterRange>, pages: seq<Page>, k: nat)
    requires forall i :: 0 <= i < |ranges| ==> InDocument(ranges[i], |pages|)
    requires k < |ranges|
    ensures ValidSelection(ranges, |pages|, Selected(|ranges|, None))
    ensures ValidSelection(Reverse(ranges), |pages|, Selected(|ranges|, None))
    ensures Plan(Reverse(ranges), pages, Selected(|ranges|, None))[k]
         == Write(FileName(k + 1, ranges[|ranges| - 1 - k].title),
                  Plan(ranges, pages, Selected(|ranges|, None))[|ranges| - 1 - k].pages)
  {
    var n := |ranges|;
    var sel := Selected(n, None);
    DefaultSelectionValid(ranges, |pages|);
    SameRangeWrite(ranges, Reverse(ranges), pages, sel, sel, n - 1 - k, k);
  }

  /** Two plans that select the same range write the same pages; the name differs only in its number. */
  lemma SameRangeWrite<Page>(ranges: seq<ChapterRange>, other: seq<ChapterRange>, pages: seq<Page>,
                             sel: seq<nat>, otherSel: seq<nat>, j: nat, k: nat)
    requires ValidSelection(ranges, |pages|, sel) && ValidSelection(other, |pages|, otherSel)
    requires j < |sel| && k < |otherSel|
    requires other[otherSel[k]] == ranges[sel[j]]
    ensures Plan(other, pages, otherSel)[k]
         == Write(FileName(k + 1, ranges[sel[j]].title), Plan(ranges, pages, sel)[j].pages)
  {
    PlanAt(ranges, pages, sel, j);
    PlanAt(other, pages, otherSel, k);
  }

  // ---------------- The output directory ----------------

  /** The output directory: file name to the pages of the document stored under it. */
  class OutputDir<Page> {
    var files: map<string, seq<Page>>

    constructor (existing: map<string, seq<Page>>)
      ensures files == existing
    {
      files := existing;
    }

    /** `write_chapters`: write the selected ranges of `pages`, returning how many documents were written. */
    method WriteChapters(ranges: seq<ChapterRange>, pages: seq<Page>, selectedIdx: Option<seq<nat>>)
      returns (count: nat)
      requires ValidSelection(ranges, |pages|, Selected(|ranges|, selectedIdx))
      modifies this
      ensures count == |Selected(|ranges|, selectedIdx)|
      ensures files == old(files) + Outputs(Plan(ranges, pages, Selected(|ranges|, selectedIdx)))
    {
      var selected := Selected(|ranges|, selectedIdx);
      count := 0;
      var k := 0;
      while k < |selected|
        invariant 0 <= k <= |selected|
        invariant count == k
        invariant ValidSelection(ranges, |pages|, selected[..k])
        invariant files == old(files) + Outputs(Plan(ranges, pages, selected[..k]))
      {
        var num := k + 1;
        var c := ranges[selected[k]];
        var chapter := CopyPages(pages, c);
        var fname := FileName(num, c.title);
        PlanStep(ranges, pages, selected, k);
        OutputsAppend(old(files), Plan(ranges, pages, selected[..k]), Write(fname, chapter));
        files := files[fname := chapter];
        count := count + 1;
        k := k + 1;
      }
      assert selected[..k] == selected;
    }
  }

  /** The `add_page` loop: the pages `start..end` of the document, in order. */
  method CopyPages<Page>(pages: seq<Page>, c: ChapterRange) returns (chapter: seq<Page>)
    requires InDocument(c, |pages|)
    ensures chapter == Chapter(pages, c)
  {
    chapter := [];
    var p := c.start;
    while p < c.end + 1
      invariant c.start <= p
      invariant p == c.start || p <= c.end + 1
      invariant |chapter| == p - c.start
      invariant forall k :: 0 <= k < |chapter| ==> chapter[k] == pages[c.start + k]
    {
      chapter := chapter + [pages[p]];
      p := p + 1;
    }
  }
}
