/** One page of the document: its identity, its ordered blocks and its cached word count. */
module Pages {
  import opened Wrappers
  import opened WordCount

  /** The serialised zero-width-space entity that keeps an otherwise empty page or block visible. */
  const Placeholder: string := "&#8203;"

  /** Prefix of the element id a page is rendered under. */
  const DomPrefix: string := "desk-page-"

  /** What a page may be created from: an optional uid and an optional block list. */
  datatype PageData = PageData(uid: Option<string>, blocks: Option<seq<string>>)

  /** A page. `wordCount` is None until the counter has run (the field starts out undefined). */
  datatype Page = Page(uid: string, blocks: seq<string>, wordCount: Option<nat>)

  /** `new Page(config, data)`: a non-empty supplied uid is adopted, otherwise the id generator's
      fresh uid is taken; absent data or absent blocks give no blocks. */
  function NewPage(data: Option<PageData>, freshUid: string): (p: Page)
    ensures p.wordCount.None?
    ensures data.Some? && data.value.uid.Some? && data.value.uid.value != [] ==> p.uid == data.value.uid.value
    ensures p.uid != freshUid ==> data.Some? && data.value.uid == Some(p.uid) && p.uid != []
    ensures p.uid == [] ==> freshUid == []
    ensures data.None? || data.value.blocks.None? ==> p.blocks == []
    ensures data.Some? && data.value.blocks.Some? ==> p.blocks == data.value.blocks.value
  {
    match data
    case None => Page(freshUid, [], None)
    case Some(d) =>
      var uid := if d.uid.Some? && d.uid.value != [] then d.uid.value else freshUid;
      var blocks := if d.blocks.Some? then d.blocks.value else [];
      Page(uid, blocks, None)
  }

  /** The page's element id: the prefix followed by the uid, from which the uid can be read back. */
  function DomId(uid: string): (id: string)
    ensures |id| == |DomPrefix| + |uid|
    ensures id[..|DomPrefix|] == DomPrefix
    ensures id[|DomPrefix|..] == uid
  {
    DomPrefix + uid
  }

  /** Distinct uids render under distinct element ids. */
  lemma DomIdInjective(u1: string, u2: string)
    ensures DomId(u1) == DomId(u2) <==> u1 == u2
  {
    if DomId(u1) == DomId(u2) {
      calc {
        u1;
        DomId(u1)[|DomPrefix|..];
        DomId(u2)[|DomPrefix|..];
        u2;
      }
    }
  }

  /** `page.insertBlock(i, b)`: the block lands at position i, later blocks move up by one. */
  function InsertBlock(p: Page, i: nat, b: string): Page
    requires i <= |p.blocks|
  {
    p.(blocks := p.blocks[..i] + [b] + p.blocks[i..])
  }

  /** `page.newBlock()`: one more (placeholder) block at the end. */
  function NewBlock(p: Page): Page {
    p.(blocks := p.blocks + [Placeholder])
  }

  /** The rendered text of a block: the placeholder entity reads as the single character U+200B. */
  function TextOf(block: string): string {
    if block == Placeholder then [ZeroWidthSpace] else block
  }

  /** Number of space-separated pieces in one block's text, counted or not. */
  function BlockPieces(block: string): nat {
    |Split(TextOf(block))|
  }

  /** Words in one block: never more than its pieces. */
  function BlockWords(block: string): (n: nat)
    ensures n <= BlockPieces(block)
  {
    TextWords(TextOf(block))
  }

  /** A per-block quantity summed over the blocks in block order. */
  function SumOver(blocks: seq<string>, f: string -> nat): nat
    decreases |blocks|
  {
    if blocks == [] then 0
    else SumOver(blocks[..|blocks| - 1], f) + f(blocks[|blocks| - 1])
  }

  /** Summing over two runs of blocks one after the other is summing over their concatenation. */
  lemma {:induction false} SumOverAppend(a: seq<string>, b: seq<string>, f: string -> nat)
    ensures SumOver(a + b, f) == SumOver(a, f) + SumOver(b, f)
    decreases |b|
  {
    if b == [] {
      assert a + b == a;
    } else {
      var ab := a + b;
      assert ab[..|ab| - 1] == a + b[..|b| - 1];
      assert ab[|ab| - 1] == b[|b| - 1];
      SumOverAppend(a, b[..|b| - 1], f);
    }
  }

  /** A per-block quantity bounded by another one sums to no more than the other. */
  lemma {:induction false} SumOverBounded(blocks: seq<string>, f: string -> nat, g: string -> nat)
    requires forall b :: f(b) <= g(b)
    ensures SumOver(blocks, f) <= SumOver(blocks, g)
    decreases |blocks|
  {
    if blocks != [] {
      SumOverBounded(blocks[..|blocks| - 1], f, g);
    }
  }

  /** Number of space-separated pieces over all blocks, counted or not. */
  function TokenTotal(blocks: seq<string>): nat {
    SumOver(blocks, BlockPieces)
  }

  /** Words on a page: the per-block counts summed in block order; never more than the pieces. */
  function PageWords(blocks: seq<string>): (n: nat)
    ensures n <= TokenTotal(blocks)
  {
    SumOverBounded(blocks, BlockWords, BlockPieces);
    SumOver(blocks, BlockWords)
  }

  /** The page count is the sum of the counts of any split of its blocks. */
  lemma PageWordsAppend(a: seq<string>, b: seq<string>)
    ensures PageWords(a + b) == PageWords(a) + PageWords(b)
  {
    SumOverAppend(a, b, BlockWords);
  }

  /** The empty block and the placeholder block hold no words. */
  lemma EmptyBlockWords()
    ensures BlockWords("") == 0
    ensures BlockWords(Placeholder) == 0
  {
    SplitNoSpace([ZeroWidthSpace]);
  }

  /** A block without words contributes nothing wherever it sits. */
  lemma WordlessBlockNotCounted(a: seq<string>, x: string, b: seq<string>)
    requires BlockWords(x) == 0
    ensures PageWords(a + [x] + b) == PageWords(a + b)
  {
    SumOverAppend(a + [x], b, BlockWords);
    SumOverAppend(a, [x], BlockWords);
    SumOverAppend(a, b, BlockWords);
    assert [x][..0] == [];
  }

  /** An empty block and a placeholder block each contribute no words wherever they sit. */
  lemma EmptyBlocksNotCounted(a: seq<string>, b: seq<string>)
    ensures PageWords(a + [""] + b) == PageWords(a + b)
    ensures PageWords(a + [Placeholder] + b) == PageWords(a + b)
  {
    EmptyBlockWords();
    WordlessBlockNotCounted(a, "", b);
    WordlessBlockNotCounted(a, Placeholder, b);
  }

  /** A page holding only the placeholder has no words; one holding "a b c" has three. */
  lemma PageWordsExamples()
    ensures PageWords([Placeholder]) == 0
    ensures PageWords(["a b c"]) == 3
  {
    EmptyBlocksNotCounted([], []);
    assert [] + [Placeholder] + [] == [Placeholder];
    CountThreeWords();
    assert ["a b c"][..0] == [];
    assert TextOf("a b c") == "a b c";
  }

  /** `page.countWords()`: walks every block with text, splits it on spaces and counts the pieces
      that are non-empty and do not start with U+200B; the total becomes the page's word count. */
  method CountWords(p: Page) returns (counted: Page)
    ensures counted == p.(wordCount := Some(PageWords(p.blocks)))
  {
    var wc := 0;
    var i := 0;
    while i < |p.blocks|
      invariant 0 <= i <= |p.blocks|
      invariant wc == PageWords(p.blocks[..i])
    {
      var text := TextOf(p.blocks[i]);
      assert p.blocks[..i + 1][..i] == p.blocks[..i];
      if text != [] {
        var words := Split(text);
        var j := 0;
        while j < |words|
          invariant 0 <= j <= |words|
          invariant wc == PageWords(p.blocks[..i]) + TokenWords(words[..j])
        {
          var word := words[j];
          assert words[..j + 1][..j] == words[..j];
          if |word| > 0 && word != " " {
            if word[0] != ZeroWidthSpace {
              wc := wc + 1;
            }
          }
          j := j + 1;
        }
        assert words[..j] == words;
      }
      i := i + 1;
    }
    assert p.blocks[..i] == p.blocks;
    counted := p.(wordCount := Some(wc));
  }
}
