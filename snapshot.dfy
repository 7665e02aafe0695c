/** Snapshots of pages and of the whole desk, as handed to the host's change callback. */
module Snapshots {
  import opened Pages

  /** One page's stored form: its id and block index -> serialised block content. */
  datatype PageSnapshot = PageSnapshot(id: string, blocks: map<int, string>)

  /** The document's stored form: page number -> page snapshot. */
  datatype DeskSnapshot = DeskSnapshot(pages: map<int, PageSnapshot>)

  /** A changed page: its number and the block indices that changed ([] when not given). */
  datatype PageChange = PageChange(pageNum: int, blocks: seq<int>)

  /** `Desk.serializeBlock`: the placeholder entity is stored as the empty string,
      anything else is stored as it is. */
  function Serialize(inner: string): (stored: string)
    ensures inner == Placeholder ==> stored == []
    ensures inner != Placeholder ==> stored == inner
  {
    if inner == Placeholder then [] else inner
  }

  /** Serialising a serialised block changes nothing. */
  lemma SerializeIdempotent(inner: string)
    ensures Serialize(Serialize(inner)) == Serialize(inner)
  {
    assert [] != Placeholder;
  }

  /** The page after its clean hook has run. */
  function Cleaned(p: Page, clean: seq<string> -> seq<string>): Page {
    p.(blocks := clean(p.blocks))
  }

  /** Every page of a document after cleaning. */
  function CleanAll(pages: seq<Page>, clean: seq<string> -> seq<string>): (cleaned: seq<Page>)
    ensures |cleaned| == |pages|
    ensures forall k :: 0 <= k < |pages| ==> cleaned[k] == Cleaned(pages[k], clean)
  {
    seq(|pages|, k requires 0 <= k < |pages| => Cleaned(pages[k], clean))
  }

  /** Cleaning twice with an idempotent hook is cleaning once. */
  lemma CleanAllIdempotent(pages: seq<Page>, clean: seq<string> -> seq<string>)
    requires forall b :: clean(clean(b)) == clean(b)
    ensures CleanAll(CleanAll(pages, clean), clean) == CleanAll(pages, clean)
  {
  }

  /** The blocks at indices 0 .. n-1, each serialised. */
  function AllBlocks(blocks: seq<string>, n: nat): (m: map<int, string>)
    requires n <= |blocks|
    ensures forall i :: i in m <==> 0 <= i < n
    ensures forall i :: 0 <= i < n ==> m[i] == Serialize(blocks[i])
    decreases n
  {
    if n == 0 then map[] else AllBlocks(blocks, n - 1)[n - 1 := Serialize(blocks[n - 1])]
  }

  /** The requested indices that are present, each serialised; absent ones are skipped. */
  function SelectBlocks(blocks: seq<string>, nums: seq<int>): (m: map<int, string>)
    ensures forall i :: i in m <==> i in nums && 0 <= i < |blocks|
    ensures forall i :: i in m ==> m[i] == Serialize(blocks[i])
    decreases |nums|
  {
    if nums == [] then map[]
    else
      var init := nums[..|nums| - 1];
      var i := nums[|nums| - 1];
      assert nums == init + [i];
      var m := SelectBlocks(blocks, init);
      if 0 <= i < |blocks| then m[i := Serialize(blocks[i])] else m
  }

  /** The block map of a page snapshot: every block when no indices were requested,
      only the requested ones otherwise. */
  function SnapshotBlocks(blocks: seq<string>, nums: seq<int>): map<int, string> {
    if nums == [] then AllBlocks(blocks, |blocks|) else SelectBlocks(blocks, nums)
  }

  /** The snapshot of an already cleaned page. */
  function PageSnapshotOf(p: Page, nums: seq<int>): PageSnapshot {
    PageSnapshot(p.uid, SnapshotBlocks(p.blocks, nums))
  }

  /** The block-collecting loops of `Desk.buildSnapshot`: the requested indices one by one,
      keeping those that exist, or every index of the page when none were requested. */
  method CollectBlocks(blocks: seq<string>, nums: seq<int>) returns (m: map<int, string>)
    ensures m == SnapshotBlocks(blocks, nums)
  {
    m := map[];
    if |nums| > 0 {
      for j := 0 to |nums|
        invariant m == SelectBlocks(blocks, nums[..j])
      {
        var i := nums[j];
        assert nums[..j + 1][..j] == nums[..j];
        if 0 <= i < |blocks| {
          m := m[i := Serialize(blocks[i])];
        }
      }
      assert nums[..|nums|] == nums;
    } else {
      for i := 0 to |blocks|
        invariant m == AllBlocks(blocks, i)
      {
        m := m[i := Serialize(blocks[i])];
      }
    }
  }

  /** Snapshots of all pages, keyed by page number: keys exactly 1 .. |pages|,
      key k built from the page at position k - 1. */
  function SnapshotAll(pages: seq<Page>): (m: map<int, PageSnapshot>)
    ensures forall k :: k in m <==> 1 <= k <= |pages|
    ensures forall k :: 1 <= k <= |pages| ==> m[k] == PageSnapshotOf(pages[k - 1], [])
    decreases |pages|
  {
    if pages == [] then map[]
    else
      var init := pages[..|pages| - 1];
      assert forall j :: 0 <= j < |init| ==> init[j] == pages[j];
      SnapshotAll(init)[|pages| := PageSnapshotOf(pages[|pages| - 1], [])]
  }

  /** One more page adds exactly its own snapshot under the next page number. */
  lemma SnapshotAllSnoc(pages: seq<Page>, p: Page)
    ensures SnapshotAll(pages + [p]) == SnapshotAll(pages)[|pages| + 1 := PageSnapshotOf(p, [])]
  {
    assert (pages + [p])[..|pages|] == pages;
  }

  /** The page numbers named by a change list. */
  function ChangedNumbers(changes: seq<PageChange>): set<int> {
    set c | c in changes :: c.pageNum
  }

  /** The block indices of the last change naming page number k. */
  function LastBlocksFor(changes: seq<PageChange>, k: int): seq<int>
    requires k in ChangedNumbers(changes)
    decreases |changes|
  {
    var last := changes[|changes| - 1];
    if last.pageNum == k then last.blocks
    else
      assert forall c :: c in changes && c != last ==> c in changes[..|changes| - 1] by {
        assert changes == changes[..|changes| - 1] + [last];
      }
      LastBlocksFor(changes[..|changes| - 1], k)
  }

  /** The incremental branch of `Desk.onChange`, change by change: each valid page number has its
      page cleaned and snapshotted (later changes of the same page win); invalid numbers are skipped.
      Yields the pages after cleaning and the snapshot map. */
  function ChangeSnapshots(pages: seq<Page>, changes: seq<PageChange>, clean: seq<string> -> seq<string>)
    : (r: (seq<Page>, map<int, PageSnapshot>))
    ensures |r.0| == |pages|
    ensures forall k :: k in r.1 <==> 1 <= k <= |pages| && k in ChangedNumbers(changes)
    decreases |changes|
  {
    if changes == [] then (pages, map[])
    else
      var init := changes[..|changes| - 1];
      var c := changes[|changes| - 1];
      assert changes == init + [c];
      assert ChangedNumbers(changes) == ChangedNumbers(init) + {c.pageNum};
      var prev := ChangeSnapshots(pages, init, clean);
      if 1 <= c.pageNum <= |pages| then
        var cleaned := Cleaned(prev.0[c.pageNum - 1], clean);
        (prev.0[c.pageNum - 1 := cleaned], prev.1[c.pageNum := PageSnapshotOf(cleaned, c.blocks)])
      else prev
  }

  /** Cleaning keeps every page's uid and cached word count. */
  lemma {:induction false} ChangeSnapshotIdentity(pages: seq<Page>, changes: seq<PageChange>,
                                                   clean: seq<string> -> seq<string>)
    ensures var r := ChangeSnapshots(pages, changes, clean);
      forall k :: 0 <= k < |pages| ==> r.0[k].uid == pages[k].uid && r.0[k].wordCount == pages[k].wordCount
    decreases |changes|
  {
    if changes != [] {
      var init := changes[..|changes| - 1];
      ChangeSnapshotIdentity(pages, init, clean);
    }
  }

  /** A page whose number gets no snapshot is left exactly as it was. */
  lemma {:induction false} ChangeSnapshotUntouched(pages: seq<Page>, changes: seq<PageChange>,
                                                    clean: seq<string> -> seq<string>)
    ensures var r := ChangeSnapshots(pages, changes, clean);
      forall i :: 0 <= i < |pages| && i + 1 !in r.1 ==> r.0[i] == pages[i]
    decreases |changes|
  {
    if changes != [] {
      var init := changes[..|changes| - 1];
      var c := changes[|changes| - 1];
      ChangeSnapshotUntouched(pages, init, clean);
    }
  }

  /** The page after the clean hook has run n times. */
  function CleanTimes(p: Page, clean: seq<string> -> seq<string>, n: nat): Page
    decreases n
  {
    if n == 0 then p else Cleaned(CleanTimes(p, clean, n - 1), clean)
  }

  /** How many changes name page number k. */
  function Mentions(changes: seq<PageChange>, k: int): nat
    decreases |changes|
  {
    if changes == [] then 0
    else Mentions(changes[..|changes| - 1], k) + (if changes[|changes| - 1].pageNum == k then 1 else 0)
  }

  /** A page number is named by some change exactly when it is mentioned at least once. */
  lemma {:induction false} MentionedIffChanged(changes: seq<PageChange>, k: int)
    ensures Mentions(changes, k) > 0 <==> k in ChangedNumbers(changes)
    decreases |changes|
  {
    if changes != [] {
      var init := changes[..|changes| - 1];
      var c := changes[|changes| - 1];
      assert changes == init + [c];
      assert ChangedNumbers(changes) == ChangedNumbers(init) + {c.pageNum};
      MentionedIffChanged(init, k);
    }
  }

  /** Each page after the incremental snapshots has been cleaned once per change naming it. */
  lemma {:induction false} ChangeSnapshotCleanCount(pages: seq<Page>, changes: seq<PageChange>,
                                                     clean: seq<string> -> seq<string>)
    ensures var r := ChangeSnapshots(pages, changes, clean);
      forall i :: 0 <= i < |pages| ==> r.0[i] == CleanTimes(pages[i], clean, Mentions(changes, i + 1))
    decreases |changes|
  {
    if changes != [] {
      var init := changes[..|changes| - 1];
      var c := changes[|changes| - 1];
      ChangeSnapshotCleanCount(pages, init, clean);
      var prev := ChangeSnapshots(pages, init, clean).0;
      var next := ChangeSnapshots(pages, changes, clean).0;
      if 1 <= c.pageNum <= |pages| {
        assert next == prev[c.pageNum - 1 := Cleaned(prev[c.pageNum - 1], clean)];
      } else {
        assert next == prev;
      }
      forall i | 0 <= i < |pages|
        ensures next[i] == CleanTimes(pages[i], clean, Mentions(changes, i + 1))
      {
        var m := Mentions(init, i + 1);
        assert prev[i] == CleanTimes(pages[i], clean, m);
        if c.pageNum == i + 1 {
          assert Mentions(changes, i + 1) == m + 1;
          assert next[i] == Cleaned(prev[i], clean);
        } else {
          assert Mentions(changes, i + 1) == m;
        }
      }
    }
  }

  /** With an idempotent hook, cleaning any positive number of times is cleaning once. */
  lemma {:induction false} CleanTimesIdempotent(p: Page, clean: seq<string> -> seq<string>, n: nat)
    requires forall b :: clean(clean(b)) == clean(b)
    requires n >= 1
    ensures CleanTimes(p, clean, n) == Cleaned(p, clean)
    decreases n
  {
    if n > 1 {
      CleanTimesIdempotent(p, clean, n - 1);
    }
  }

  /** With an idempotent hook, every page that gets a snapshot is its original page cleaned once,
      and every other page is unchanged. */
  lemma ChangeSnapshotCleanedOnce(pages: seq<Page>, changes: seq<PageChange>,
                                  clean: seq<string> -> seq<string>, k: int)
    requires forall b :: clean(clean(b)) == clean(b)
    requires 1 <= k <= |pages|
    ensures var r := ChangeSnapshots(pages, changes, clean);
      && (k in r.1 ==> r.0[k - 1] == Cleaned(pages[k - 1], clean))
      && (k !in r.1 ==> r.0[k - 1] == pages[k - 1])
  {
    ChangeSnapshotCleanCount(pages, changes, clean);
    MentionedIffChanged(changes, k);
    var n := Mentions(changes, k);
    assert ChangeSnapshots(pages, changes, clean).0[k - 1] == CleanTimes(pages[k - 1], clean, n);
    if n >= 1 {
      CleanTimesIdempotent(pages[k - 1], clean, n);
    }
  }

  /** Each snapshot in the incremental map shows its page as left after cleaning, restricted to
      the block indices of the last change naming that page. */
  lemma {:induction false} ChangeSnapshotValue(pages: seq<Page>, changes: seq<PageChange>,
                                                clean: seq<string> -> seq<string>, k: int)
    requires k in ChangeSnapshots(pages, changes, clean).1
    ensures k in ChangedNumbers(changes) && 1 <= k <= |pages|
    ensures var r := ChangeSnapshots(pages, changes, clean);
      r.1[k] == PageSnapshotOf(r.0[k - 1], LastBlocksFor(changes, k))
    decreases |changes|
  {
    var init := changes[..|changes| - 1];
    var c := changes[|changes| - 1];
    assert changes == init + [c];
    if c.pageNum != k {
      var r0 := ChangeSnapshots(pages, init, clean);
      assert k in r0.1;
      ChangeSnapshotValue(pages, init, clean, k);
    }
  }
}
