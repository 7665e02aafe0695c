/** The desk: the ordered page collection, the cursor page, page insertion, deletion and lookup,
    the overflow split, snapshots and word counts. */
module Desks {
  import opened Wrappers
  import opened Pages
  import opened Snapshots

  /** How buildSnapshot is told which page to snapshot. */
  datatype PageRef = ByNumber(num: int) | ById(id: string)

  /** `pages.findIndex(p => p.id === id)`: the first position holding that id, or -1. */
  function FindIndex(pages: seq<Page>, id: string): (r: int)
    ensures -1 <= r < |pages|
    ensures r >= 0 ==> pages[r].uid == id && forall j :: 0 <= j < r ==> pages[j].uid != id
    ensures r == -1 <==> forall j :: 0 <= j < |pages| ==> pages[j].uid != id
    decreases |pages|
  {
    if pages == [] then -1
    else if pages[0].uid == id then 0
    else
      var r := FindIndex(pages[1..], id);
      if r == -1 then -1 else r + 1
  }

  /** `s` back to front. */
  function Reverse<T>(s: seq<T>): (r: seq<T>)
    ensures |r| == |s|
    ensures forall i :: 0 <= i < |s| ==> r[i] == s[|s| - 1 - i]
    decreases |s|
  {
    if s == [] then [] else [s[|s| - 1]] + Reverse(s[..|s| - 1])
  }

  /** Appending an element and reversing puts that element first. */
  lemma ReverseSnoc<T>(s: seq<T>, x: T)
    ensures Reverse(s + [x]) == [x] + Reverse(s)
  {
    assert (s + [x])[..|s|] == s;
  }

  /** Reversing keeps exactly the same elements. */
  lemma {:induction false} ReversePermutes<T>(s: seq<T>)
    ensures multiset(Reverse(s)) == multiset(s)
    decreases |s|
  {
    if s != [] {
      ReversePermutes(s[..|s| - 1]);
      assert s == s[..|s| - 1] + [s[|s| - 1]];
    }
  }

  /** Sum of the cached page counts, `undefined` (None) as soon as one page was never counted,
      as JavaScript's `0 + undefined` is NaN. */
  function TotalWords(pages: seq<Page>): (r: Option<nat>)
    ensures r.Some? <==> forall k :: 0 <= k < |pages| ==> pages[k].wordCount.Some?
    ensures r.Some? ==> forall k :: 0 <= k < |pages| ==> pages[k].wordCount.value <= r.value
    decreases |pages|
  {
    if pages == [] then Some(0)
    else
      var init := pages[..|pages| - 1];
      assert forall k :: 0 <= k < |init| ==> init[k] == pages[k];
      match (TotalWords(init), pages[|pages| - 1].wordCount)
      case (Some(a), Some(b)) => Some(a + b)
      case _ => None
  }

  /** The total over two runs of pages is the sum of their totals, and undefined as soon as
      either is. */
  lemma {:induction false} TotalWordsAppend(a: seq<Page>, b: seq<Page>)
    ensures TotalWords(a).Some? && TotalWords(b).Some? ==>
      TotalWords(a + b) == Some(TotalWords(a).value + TotalWords(b).value)
    ensures TotalWords(a).None? || TotalWords(b).None? ==> TotalWords(a + b).None?
    decreases |b|
  {
    if b == [] {
      assert a + b == a;
    } else {
      var ab := a + b;
      assert ab[..|ab| - 1] == a + b[..|b| - 1];
      assert ab[|ab| - 1] == b[|b| - 1];
      TotalWordsAppend(a, b[..|b| - 1]);
    }
  }

  /** A single page's total is its cached count. */
  lemma TotalWordsSingle(p: Page)
    ensures TotalWords([p]) == p.wordCount
  {
    assert [p][..0] == [];
  }

  /** Words over a whole document, counted afresh. */
  function DocumentWords(pages: seq<Page>): nat
    decreases |pages|
  {
    if pages == [] then 0
    else DocumentWords(pages[..|pages| - 1]) + PageWords(pages[|pages| - 1].blocks)
  }

  /** Pieces over a whole document, counted or not. */
  function DocumentTokens(pages: seq<Page>): nat
    decreases |pages|
  {
    if pages == [] then 0
    else DocumentTokens(pages[..|pages| - 1]) + TokenTotal(pages[|pages| - 1].blocks)
  }

  /** When every page's count is up to date, the desk total is the document's word count and
      stays within the number of space-separated pieces. */
  lemma {:induction false} TotalOfFreshCounts(pages: seq<Page>)
    requires forall k :: 0 <= k < |pages| ==> pages[k].wordCount == Some(PageWords(pages[k].blocks))
    ensures TotalWords(pages) == Some(DocumentWords(pages))
    ensures DocumentWords(pages) <= DocumentTokens(pages)
    decreases |pages|
  {
    if pages != [] {
      var init := pages[..|pages| - 1];
      assert forall k :: 0 <= k < |init| ==> init[k] == pages[k];
      TotalOfFreshCounts(init);
    }
  }

  class Desk {
    /** The pages in document order; page number n is position n - 1. */
    var pages: seq<Page>
    /** The 1-based number of the page the cursor is on. */
    var onPage: int
    /** Whether every change re-snapshots the whole document. */
    const saveOnChange: bool

    /** The document always has at least one page. */
    ghost predicate Valid()
      reads this
    {
      |pages| >= 1
    }

    /** Builds one page per supplied datum (uids from `genUid` where a datum has none) and takes
        the starting page number; with nothing supplied, one fresh empty page and page 1. */
    constructor (saveOnChange: bool, supplied: seq<PageData>, startPage: int, genUid: nat -> string)
      ensures Valid()
      ensures this.saveOnChange == saveOnChange
      ensures supplied == [] ==> pages == [NewPage(None, genUid(0))] && onPage == 1
      ensures supplied != [] ==> |pages| == |supplied| && onPage == startPage
      ensures supplied != [] ==> forall k :: 0 <= k < |supplied| ==> pages[k] == NewPage(Some(supplied[k]), genUid(k))
    {
      this.saveOnChange := saveOnChange;
      new;
      pages := [];
      var i := 0;
      while i < |supplied|
        invariant 0 <= i <= |supplied|
        invariant |pages| == i
        invariant forall k :: 0 <= k < i ==> pages[k] == NewPage(Some(supplied[k]), genUid(k))
        invariant i > 0 ==> onPage == startPage
      {
        pages := pages + [NewPage(Some(supplied[i]), genUid(i))];
        onPage := startPage;
        i := i + 1;
      }
      if |pages| == 0 {
        pages := [NewPage(None, genUid(0))];
        onPage := 1;
      }
    }

    /** Deleting the page with this id: the first page is never removed (it only gets a block back
        if it has none left); any other page is removed and the rest keep their order. The cursor
        is not moved. */
    method DeletePage(pageId: string)
      requires Valid()
      requires FindIndex(pages, pageId) >= 0
      modifies this
      ensures Valid() && onPage == old(onPage)
      ensures var idx := FindIndex(old(pages), pageId);
        && (idx == 0 ==> pages == old(pages)[0 := if old(pages)[0].blocks == [] then NewBlock(old(pages)[0]) else old(pages)[0]])
        && (idx > 0 ==> pages == old(pages)[..idx] + old(pages)[idx + 1..])
    {
      var idx := FindIndex(pages, pageId);
      if idx == 0 {
        if |pages[0].blocks| == 0 {
          pages := pages[0 := NewBlock(pages[0])];
        }
      } else {
        pages := pages[..idx] + pages[idx + 1..];
      }
    }

    /** The page under the cursor, or None when the cursor is not on an existing page. */
    function CurrentPage(): (p: Option<Page>)
      reads this
      ensures p.Some? <==> 1 <= onPage <= |pages|
      ensures p.Some? ==> p.value == pages[onPage - 1]
    {
      if 1 <= onPage <= |pages| then Some(pages[onPage - 1]) else None
    }

    /** A page number is valid when it names an existing page. */
    function ValidPageNumber(num: int): (ok: bool)
      reads this
      ensures ok <==> 1 <= num <= |pages|
    {
      if num > 0 then num <= |pages| else false
    }

    /** Cleans the page at position k and builds its snapshot from the cleaned blocks. */
    method SnapshotAt(k: nat, nums: seq<int>, clean: seq<string> -> seq<string>) returns (snap: PageSnapshot)
      requires Valid() && k < |pages|
      modifies this
      ensures Valid() && onPage == old(onPage)
      ensures pages == old(pages)[k := Cleaned(old(pages)[k], clean)]
      ensures snap == PageSnapshotOf(pages[k], nums)
    {
      pages := pages[k := Cleaned(pages[k], clean)];
      var blocks := CollectBlocks(pages[k].blocks, nums);
      snap := PageSnapshot(pages[k].uid, blocks);
    }

    /** `buildSnapshot`: resolves the page by number or id (None when it does not resolve),
        cleans it and snapshots the requested blocks. */
    method BuildSnapshot(ref: PageRef, nums: seq<int>, clean: seq<string> -> seq<string>)
      returns (snap: Option<PageSnapshot>)
      requires Valid()
      modifies this
      ensures Valid() && onPage == old(onPage)
      ensures var k := if ref.ByNumber? then (if old(ValidPageNumber(ref.num)) then ref.num - 1 else -1)
                       else FindIndex(old(pages), ref.id);
        && (k < 0 ==> snap.None? && pages == old(pages))
        && (k >= 0 ==> pages == old(pages)[k := Cleaned(old(pages)[k], clean)]
                       && snap == Some(PageSnapshotOf(pages[k], nums)))
    {
      var k: int;
      if ref.ByNumber? {
        if ValidPageNumber(ref.num) {
          k := ref.num - 1;
        } else {
          return None;
        }
      } else {
        k := FindIndex(pages, ref.id);
        if k < 0 {
          return None;
        }
      }
      var s := SnapshotAt(k, nums, clean);
      snap := Some(s);
    }

    /** The whole-document loop of `save`: every page in turn is cleaned and snapshotted
        under its page number. */
    method SaveAll(clean: seq<string> -> seq<string>) returns (snaps: map<int, PageSnapshot>)
      requires Valid()
      modifies this
      ensures Valid() && onPage == old(onPage)
      ensures pages == CleanAll(old(pages), clean) && snaps == SnapshotAll(pages)
    {
      snaps := map[];
      var k := 0;
      while k < |pages|
        invariant 0 <= k <= |pages| == |old(pages)|
        invariant onPage == old(onPage)
        invariant forall j :: 0 <= j < k ==> pages[j] == Cleaned(old(pages)[j], clean)
        invariant forall j :: k <= j < |pages| ==> pages[j] == old(pages)[j]
        invariant snaps == SnapshotAll(pages[..k])
      {
        ghost var before := pages;
        var s := SnapshotAt(k, [], clean);
        assert pages[..k + 1] == before[..k] + [pages[k]];
        SnapshotAllSnoc(before[..k], pages[k]);
        snaps := snaps[k + 1 := s];
        k := k + 1;
      }
      assert pages[..k] == pages;
    }

    /** `save`: with no page number every page is cleaned and snapshotted under keys 1 .. |pages|;
        with a valid number only that page; with an invalid number the pages map is empty. */
    method Save(num: Option<int>, clean: seq<string> -> seq<string>) returns (snapshot: DeskSnapshot)
      requires Valid()
      modifies this
      ensures Valid() && onPage == old(onPage)
      ensures num.None? ==> pages == CleanAll(old(pages), clean) && snapshot == DeskSnapshot(SnapshotAll(pages))
      ensures num.Some? && old(ValidPageNumber(num.value)) ==>
        && pages == old(pages)[num.value - 1 := Cleaned(old(pages)[num.value - 1], clean)]
        && snapshot == DeskSnapshot(map[num.value := PageSnapshotOf(pages[num.value - 1], [])])
      ensures num.Some? && !old(ValidPageNumber(num.value)) ==> pages == old(pages) && snapshot.pages == map[]
    {
      if num.None? {
        var snaps := SaveAll(clean);
        snapshot := DeskSnapshot(snaps);
      } else if ValidPageNumber(num.value) {
        var s := SnapshotAt(num.value - 1, [], clean);
        snapshot := DeskSnapshot(map[num.value := s]);
      } else {
        snapshot := DeskSnapshot(map[]);
      }
    }

    /** The overflow loop of `breakPage`: each overflow block in turn is inserted at the front of
        the page, so the overflow ends up reversed ahead of the page's own blocks. */
    static method PrependOverflow(p: Page, overflow: seq<string>) returns (q: Page)
      ensures q == p.(blocks := Reverse(overflow) + p.blocks)
    {
      q := p;
      for j := 0 to |overflow|
        invariant q.uid == p.uid && q.wordCount == p.wordCount
        invariant q.blocks == Reverse(overflow[..j]) + p.blocks
      {
        var x := overflow[j];
        assert overflow[..j + 1] == overflow[..j] + [x];
        ReverseSnoc(overflow[..j], x);
        q := InsertBlock(q, 0, x);
        assert q.blocks == [x] + (Reverse(overflow[..j]) + p.blocks);
      }
      assert overflow[..|overflow|] == overflow;
    }

    /** `breakPage`: the overflow of the page with this id moves to the next page, each block
        inserted at the front in turn (so it ends up in reverse order, ahead of the next page's own
        blocks); with no next page, a new page holding exactly the overflow is added after it. The
        cursor moves to the following page and both page numbers are reported as changed. */
    method BreakPage(pageId: string, overflow: seq<string>, freshUid: string) returns (changes: seq<PageChange>)
      requires Valid()
      requires FindIndex(pages, pageId) >= 0
      modifies this
      ensures Valid()
      ensures var num := FindIndex(old(pages), pageId) + 1;
        && onPage == num + 1
        && changes == [PageChange(num, []), PageChange(num + 1, [])]
        && (num < |old(pages)| ==>
              pages == old(pages)[num := old(pages)[num].(blocks := Reverse(overflow) + old(pages)[num].blocks)])
        && (num == |old(pages)| ==>
              pages == old(pages) + [NewPage(Some(PageData(None, Some(overflow))), freshUid)])
    {
      var num := FindIndex(pages, pageId) + 1;
      var newPage := NewPage(Some(PageData(None, Some(overflow))), freshUid);
      onPage := num + 1;
      if |pages| > num {
        var next := PrependOverflow(pages[num], overflow);
        pages := pages[num := next];
      } else {
        var _ := InsertPageAt(num, newPage);
      }
      changes := [PageChange(num, []), PageChange(num + 1, [])];
    }

    /** `insertPageAt`: a position outside 0 .. |pages| is refused with `false` and nothing changes;
        otherwise the page is placed there, later pages shift up by one, and the result is
        `undefined` (None). */
    method InsertPageAt(idx: int, page: Page) returns (result: Option<bool>)
      requires Valid()
      modifies this
      ensures Valid() && onPage == old(onPage)
      ensures result.None? <==> 0 <= idx <= |old(pages)|
      ensures result.Some? ==> result.value == false && pages == old(pages)
      ensures result.None? ==> pages == old(pages)[..idx] + [page] + old(pages)[idx..]
    {
      if |pages| < idx || idx < 0 {
        return Some(false);
      } else {
        if |pages| == idx {
          pages := pages + [page];
        } else {
          pages := pages[..idx] + [page] + pages[idx..];
        }
        result := None;
      }
    }

    /** `findPageIdx`: the position of the first page with this id, or None. */
    function FindPageIdx(pageId: string): (r: Option<nat>)
      reads this
      ensures r.Some? ==> r.value < |pages| && pages[r.value].uid == pageId
      ensures r.Some? ==> forall j :: 0 <= j < r.value ==> pages[j].uid != pageId
      ensures r.None? <==> forall j :: 0 <= j < |pages| ==> pages[j].uid != pageId
    {
      var i := FindIndex(pages, pageId);
      if i >= 0 then Some(i) else None
    }

    /** `findPageNum` as written: the truthiness test on the index treats position 0 as not found,
        so the first page's id yields None like an unknown id. */
    function FindPageNum(pageId: string): (r: Option<nat>)
      reads this
      ensures r.Some? ==> 2 <= r.value <= |pages| && pages[r.value - 1].uid == pageId
      ensures r.None? <==> FindIndex(pages, pageId) <= 0
      ensures r.Some? ==> r.value == FindIndex(pages, pageId) + 1
    {
      var i := FindPageIdx(pageId);
      if i.Some? && i.value != 0 then Some(i.value + 1) else None
    }

    /** The page number of the first page with this id, the first page included; None exactly when
        no page has the id. */
    function FindPageNumber(pageId: string): (r: Option<nat>)
      reads this
      ensures r.Some? ==> ValidPageNumber(r.value) && pages[r.value - 1].uid == pageId
      ensures r.Some? ==> forall j :: 0 <= j < r.value - 1 ==> pages[j].uid != pageId
      ensures r.None? <==> forall j :: 0 <= j < |pages| ==> pages[j].uid != pageId
    {
      match FindPageIdx(pageId)
      case Some(i) => Some(i + 1)
      case None => None
    }

    /** `setPageContent`: the page with this id gets exactly the given blocks, or the single
        placeholder block when none are given; an unknown id changes nothing. */
    method SetPageContent(pageId: string, blocks: seq<string>)
      requires Valid()
      modifies this
      ensures Valid() && onPage == old(onPage)
      ensures var idx := FindIndex(old(pages), pageId);
        && (idx < 0 ==> pages == old(pages))
        && (idx >= 0 ==> pages == old(pages)[idx := old(pages)[idx].(blocks := if blocks == [] then [Placeholder] else blocks)])
    {
      var content := if |blocks| == 0 then [Placeholder] else blocks;
      var found := FindPageIdx(pageId);
      if found.Some? {
        var k := found.value;
        var page := pages[k].(blocks := []);
        for i := 0 to |content|
          invariant page == old(pages)[k].(blocks := content[..i])
        {
          assert content[..i + 1] == content[..i] + [content[i]];
          page := InsertBlock(page, i, content[i]);
        }
        assert content[..|content|] == content;
        pages := pages[k := page];
      }
    }

    /** `insertNewPageAt`: a page built from the data, placed as insertPageAt places it. */
    method InsertNewPageAt(idx: int, data: PageData, freshUid: string)
      requires Valid()
      modifies this
      ensures Valid() && onPage == old(onPage)
      ensures 0 <= idx <= |old(pages)| ==> pages == old(pages)[..idx] + [NewPage(Some(data), freshUid)] + old(pages)[idx..]
      ensures !(0 <= idx <= |old(pages)|) ==> pages == old(pages)
    {
      var newPage := NewPage(Some(data), freshUid);
      var _ := InsertPageAt(idx, newPage);
    }

    /** `insertPageBefore`: the new page takes the anchor page's position, the anchor moves up one. */
    method InsertPageBefore(anchorId: string, data: PageData, freshUid: string)
      requires Valid()
      requires FindIndex(pages, anchorId) >= 0
      modifies this
      ensures Valid() && onPage == old(onPage)
      ensures var i := FindIndex(old(pages), anchorId);
        && |pages| == |old(pages)| + 1
        && pages[i] == NewPage(Some(data), freshUid)
        && pages[i + 1] == old(pages)[i]
        && pages == old(pages)[..i] + [pages[i]] + old(pages)[i..]
    {
      var before := FindPageIdx(anchorId);
      InsertNewPageAt(before.value, data, freshUid);
    }

    /** `insertPageAfter`: the new page goes directly after the anchor page. */
    method InsertPageAfter(anchorId: string, data: PageData, freshUid: string)
      requires Valid()
      requires FindIndex(pages, anchorId) >= 0
      modifies this
      ensures Valid() && onPage == old(onPage)
      ensures var i := FindIndex(old(pages), anchorId);
        && |pages| == |old(pages)| + 1
        && pages[i] == old(pages)[i]
        && pages[i + 1] == NewPage(Some(data), freshUid)
        && pages == old(pages)[..i + 1] + [pages[i + 1]] + old(pages)[i + 1..]
    {
      var after := FindPageIdx(anchorId);
      InsertNewPageAt(after.value + 1, data, freshUid);
    }

    /** The incremental loop of `onChange`: each change in turn has its page resolved by number,
        cleaned and snapshotted; a number naming no page is skipped. */
    method SnapshotChanges(changes: seq<PageChange>, clean: seq<string> -> seq<string>)
      returns (snaps: map<int, PageSnapshot>)
      requires Valid()
      modifies this
      ensures Valid() && onPage == old(onPage)
      ensures (pages, snaps) == ChangeSnapshots(old(pages), changes, clean)
    {
      snaps := map[];
      for j := 0 to |changes|
        invariant Valid() && onPage == old(onPage)
        invariant (pages, snaps) == ChangeSnapshots(old(pages), changes[..j], clean)
      {
        var c := changes[j];
        assert changes[..j + 1][..j] == changes[..j];
        assert changes[..j + 1][j] == c;
        var s := BuildSnapshot(ByNumber(c.pageNum), c.blocks, clean);
        if s.Some? {
          snaps := snaps[c.pageNum := s.value];
        }
      }
      assert changes[..|changes|] == changes;
    }

    /** `onChange` (snapshot part): with saveOnChange the whole document is saved; otherwise each
        changed page number that resolves is cleaned and snapshotted with its changed blocks. */
    method OnChange(changes: seq<PageChange>, clean: seq<string> -> seq<string>) returns (snapshot: DeskSnapshot)
      requires Valid()
      modifies this
      ensures Valid() && onPage == old(onPage)
      ensures saveOnChange ==> pages == CleanAll(old(pages), clean) && snapshot == DeskSnapshot(SnapshotAll(pages))
      ensures !saveOnChange ==> (pages, snapshot.pages) == ChangeSnapshots(old(pages), changes, clean)
    {
      if saveOnChange {
        snapshot := Save(None, clean);
      } else {
        var snaps := SnapshotChanges(changes, clean);
        snapshot := DeskSnapshot(snaps);
      }
    }

    /** `unwrapChange`: a change event of the page with this id, reported under its page number
        (0 when the id is unknown, which then resolves to no snapshot). */
    method UnwrapChange(pageId: string, blocks: seq<int>, clean: seq<string> -> seq<string>)
      returns (snapshot: DeskSnapshot)
      requires Valid()
      modifies this
      ensures Valid() && onPage == old(onPage)
      ensures !saveOnChange ==>
        (pages, snapshot.pages) == ChangeSnapshots(old(pages), [PageChange(FindIndex(old(pages), pageId) + 1, blocks)], clean)
      ensures saveOnChange ==> pages == CleanAll(old(pages), clean) && snapshot == DeskSnapshot(SnapshotAll(pages))
    {
      var pageNum := FindIndex(pages, pageId) + 1;
      snapshot := OnChange([PageChange(pageNum, blocks)], clean);
    }

    /** `wordCount`: a page id, when given, selects that page and wins over a page number; a page
        number selects that page; with neither, the total over all pages. */
    function WordCount(pageId: Option<string>, pageNum: Option<int>): (r: Option<nat>)
      reads this
      requires pageId.Some? ==> FindIndex(pages, pageId.value) >= 0
      requires pageId.None? && pageNum.Some? ==> 1 <= pageNum.value <= |pages|
      ensures pageId.Some? ==> r == pages[FindIndex(pages, pageId.value)].wordCount
      ensures pageId.None? && pageNum.Some? ==> r == pages[pageNum.value - 1].wordCount
      ensures pageId.None? && pageNum.None? ==> r == TotalWords(pages)
    {
      if pageId.Some? then pages[FindPageIdx(pageId.value).value].wordCount
      else if pageNum.Some? then pages[pageNum.value - 1].wordCount
      else TotalWords(pages)
    }
  }

  /** The first page's id is found by findPageIdx, yet findPageNum reports it as absent. */
  lemma FindPageNumMissesFirstPage(d: Desk, id: string)
    requires |d.pages| >= 1 && d.pages[0].uid == id
    ensures d.FindPageIdx(id) == Some(0)
    ensures d.FindPageNum(id).None?
    ensures d.FindPageNumber(id) == Some(1)
  {
  }

  /** Page numbers and positions agree: the number found for an id is its position plus one,
      and the page under that number carries the id. */
  lemma FindPageNumberRoundTrip(d: Desk, id: string)
    ensures d.FindPageNumber(id).Some? <==> d.FindPageIdx(id).Some?
    ensures d.FindPageNumber(id).Some? ==> d.FindPageNumber(id).value == d.FindPageIdx(id).value + 1
  {
  }

  /** Front insertion one block at a time reverses the overflow: x, y pushed onto a page holding z
      leave y, x, z, not x, y, z. */
  lemma OverflowOrderReversed(x: string, y: string, z: string)
    requires x != y
    ensures Reverse([x, y]) + [z] == [y, x, z]
    ensures Reverse([x, y]) + [z] != [x, y, z]
  {
    assert (Reverse([x, y]) + [z])[0] == y;
  }

  /** The changes a split reports, for a page that has a successor, snapshot exactly those two
      pages when the desk snapshots incrementally. */
  lemma {:induction false} BreakPageSnapshotsBoth(pages: seq<Page>, num: int, clean: seq<string> -> seq<string>)
    requires 1 <= num < |pages|
    ensures ChangeSnapshots(pages, [PageChange(num, []), PageChange(num + 1, [])], clean).1.Keys == {num, num + 1}
  {
    var changes := [PageChange(num, []), PageChange(num + 1, [])];
    assert changes[0] in changes && changes[1] in changes;
    assert ChangedNumbers(changes) == {num, num + 1};
  }
}
