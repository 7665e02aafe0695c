/** Token-level word counting used by Page.countWords: JavaScript's `split(" ")`
    and the rule deciding which pieces count as words. */
module WordCount {

  /** U+200B, the zero-width space that keeps an empty block visible; never a word. */
  const ZeroWidthSpace: char := '\U{200B}'

  /** Number of space characters in `s`. */
  function Spaces(s: string): nat
    decreases |s|
  {
    if s == [] then 0 else (if s[0] == ' ' then 1 else 0) + Spaces(s[1..])
  }

  /** `s.split(" ")`: the pieces between consecutive spaces, empty pieces included,
      so a string with n spaces always yields n + 1 pieces. */
  function Split(s: string): (pieces: seq<string>)
    ensures |pieces| == Spaces(s) + 1
    ensures forall i :: 0 <= i < |pieces| ==> ' ' !in pieces[i]
    decreases |s|
  {
    if s == [] then [[]]
    else
      var rest := Split(s[1..]);
      if s[0] == ' ' then [[]] + rest
      else [[s[0]] + rest[0]] + rest[1..]
  }

  /** `pieces.join(" ")`, the inverse of Split. */
  function Join(pieces: seq<string>): string
    requires |pieces| >= 1
    decreases |pieces|
  {
    if |pieces| == 1 then pieces[0] else pieces[0] + [' '] + Join(pieces[1..])
  }

  /** A piece is counted when it is non-empty and does not start with U+200B. */
  predicate IsWord(piece: string) {
    |piece| > 0 && piece[0] != ZeroWidthSpace
  }

  /** Number of counted pieces, accumulated left to right as the counter does. */
  function TokenWords(pieces: seq<string>): (n: nat)
    ensures n <= |pieces|
    decreases |pieces|
  {
    if pieces == [] then 0
    else TokenWords(pieces[..|pieces| - 1]) + (if IsWord(pieces[|pieces| - 1]) then 1 else 0)
  }

  /** Words in one block's text. */
  function TextWords(text: string): (n: nat)
    ensures n <= Spaces(text) + 1
  {
    TokenWords(Split(text))
  }

  /** Splitting then joining gives back the original text. */
  lemma {:induction false} JoinSplit(s: string)
    ensures Join(Split(s)) == s
    decreases |s|
  {
    if s != [] {
      var rest := Split(s[1..]);
      JoinSplit(s[1..]);
      var r := Split(s);
      if s[0] == ' ' {
        assert r == [[]] + rest;
        assert r[1..] == rest;
        assert s == [' '] + s[1..];
      } else {
        assert r == [[s[0]] + rest[0]] + rest[1..];
        assert s == [s[0]] + s[1..];
        if |rest| > 1 {
          assert r[1..] == rest[1..];
        }
      }
    }
  }

  /** A piece without spaces splits into itself alone. */
  lemma {:induction false} SplitNoSpace(t: string)
    requires ' ' !in t
    ensures Split(t) == [t]
    decreases |t|
  {
    if t != [] {
      assert t[0] in t;
      assert forall c :: c in t[1..] ==> c in t;
      SplitNoSpace(t[1..]);
      assert t == [t[0]] + t[1..];
    }
  }

  /** One step of the split: a leading space opens a new piece, any other character
      joins the first piece of the rest. */
  lemma SplitCons(c: char, t: string)
    ensures c == ' ' ==> Split([c] + t) == [[]] + Split(t)
    ensures c != ' ' ==> Split([c] + t) == [[c] + Split(t)[0]] + Split(t)[1..]
  {
    assert ([c] + t)[1..] == t;
  }

  /** A space cuts the text into two independently split halves. */
  lemma {:induction false} SplitAtSpace(a: string, b: string)
    ensures Split(a + [' '] + b) == Split(a) + Split(b)
    decreases |a|
  {
    if a == [] {
      SplitCons(' ', b);
      assert a + [' '] + b == [' '] + b;
    } else {
      var c, t := a[0], a[1..];
      assert a == [c] + t;
      assert a + [' '] + b == [c] + (t + [' '] + b);
      SplitAtSpace(t, b);
      SplitCons(c, t + [' '] + b);
      SplitCons(c, t);
      var ra, rb := Split(t), Split(b);
      if c != ' ' {
        assert (ra + rb)[0] == ra[0];
        assert (ra + rb)[1..] == ra[1..] + rb;
      }
    }
  }

  /** Joining space-free pieces and splitting again gives back the pieces. */
  lemma {:induction false} SplitJoin(pieces: seq<string>)
    requires |pieces| >= 1
    requires forall i :: 0 <= i < |pieces| ==> ' ' !in pieces[i]
    ensures Split(Join(pieces)) == pieces
    decreases |pieces|
  {
    if |pieces| == 1 {
      SplitNoSpace(pieces[0]);
    } else {
      SplitJoin(pieces[1..]);
      SplitNoSpace(pieces[0]);
      SplitAtSpace(pieces[0], Join(pieces[1..]));
      assert pieces == [pieces[0]] + pieces[1..];
    }
  }

  /** Counting distributes over concatenation of piece lists. */
  lemma {:induction false} TokenWordsAppend(a: seq<string>, b: seq<string>)
    ensures TokenWords(a + b) == TokenWords(a) + TokenWords(b)
    decreases |b|
  {
    if b == [] {
      assert a + b == a;
    } else {
      var ab := a + b;
      assert ab[..|ab| - 1] == a + b[..|b| - 1];
      assert ab[|ab| - 1] == b[|b| - 1];
      TokenWordsAppend(a, b[..|b| - 1]);
    }
  }

  /** Every piece is counted exactly when the count reaches the number of pieces. */
  lemma {:induction false} TokenWordsAll(pieces: seq<string>)
    ensures TokenWords(pieces) == |pieces| <==> forall i :: 0 <= i < |pieces| ==> IsWord(pieces[i])
    decreases |pieces|
  {
    if pieces != [] {
      var init := pieces[..|pieces| - 1];
      TokenWordsAll(init);
      assert forall i :: 0 <= i < |init| ==> init[i] == pieces[i];
    }
  }

  /** The count is zero exactly when no piece is a word. */
  lemma {:induction false} TokenWordsNone(pieces: seq<string>)
    ensures TokenWords(pieces) == 0 <==> forall i :: 0 <= i < |pieces| ==> !IsWord(pieces[i])
    decreases |pieces|
  {
    if pieces != [] {
      var init := pieces[..|pieces| - 1];
      TokenWordsNone(init);
      assert forall i :: 0 <= i < |init| ==> init[i] == pieces[i];
    }
  }

  /** A second space next to a first one only adds an empty piece, which is not counted. */
  lemma DoubledSpaceNotCounted(a: string, b: string)
    ensures TextWords(a + [' ', ' '] + b) == TextWords(a + [' '] + b)
  {
    assert a + [' ', ' '] + b == a + [' '] + ([' '] + b);
    assert [' '] + b == [] + [' '] + b;
    SplitAtSpace(a, [' '] + b);
    SplitAtSpace([], b);
    SplitAtSpace(a, b);
    TokenWordsAppend(Split(a), Split([' '] + b));
    TokenWordsAppend(Split([]), Split(b));
    TokenWordsAppend(Split(a), Split(b));
  }

  /** "a b c" holds three words. */
  lemma CountThreeWords()
    ensures TextWords("a b c") == 3
  {
    SplitNoSpace("a");
    SplitNoSpace("b");
    SplitNoSpace("c");
    SplitAtSpace("a", "b c");
    SplitAtSpace("b", "c");
    assert "a b c" == "a" + [' '] + "b c";
    assert "b c" == "b" + [' '] + "c";
    assert Split("a b c") == ["a", "b", "c"];
    TokenWordsAll(["a", "b", "c"]);
  }

  /** A lone zero-width space is no word. */
  lemma CountLoneZeroWidthSpace()
    ensures TextWords([ZeroWidthSpace]) == 0
  {
    SplitNoSpace([ZeroWidthSpace]);
  }

  /** "a  b", with a doubled space, still holds two words. */
  lemma CountDoubledSpace()
    ensures TextWords("a  b") == 2
  {
    SplitNoSpace("a");
    SplitNoSpace("b");
    DoubledSpaceNotCounted("a", "b");
    SplitAtSpace("a", "b");
    assert "a  b" == "a" + [' ', ' '] + "b";
    assert "a" + [' '] + "b" == "a b";
    assert Split("a b") == ["a", "b"];
    TokenWordsAll(["a", "b"]);
  }
}
