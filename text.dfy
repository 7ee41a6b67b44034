/**
 * Character-sequence helpers the table model is built on: counting a
 * character, finding its first occurrence, and splitting at / joining with
 * a separator. Split and Join are mutually inverse on separator-free pieces,
 * which is what lets a byte buffer be read as rows and cells.
 */
module Text {

  /** A non-empty list of pieces: what splitting any text yields. */
  type Pieces = p: seq<seq<char>> | |p| >= 1 witness [[]]

  /** Number of occurrences of c in s. */
  function Count(s: seq<char>, c: char): (n: nat)
    ensures n <= |s|
    ensures n == 0 <==> c !in s
  {
    if s == [] then 0 else (if s[0] == c then 1 else 0) + Count(s[1..], c)
  }

  lemma {:induction false} CountAppend(a: seq<char>, b: seq<char>, c: char)
    ensures Count(a + b, c) == Count(a, c) + Count(b, c)
  {
    if a == [] {
      assert a + b == b;
    } else {
      assert (a + b)[1..] == a[1..] + b;
      CountAppend(a[1..], b, c);
    }
  }

  /** Index of the first occurrence of c in s. */
  function IndexOf(s: seq<char>, c: char): (i: nat)
    requires c in s
    ensures i < |s| && s[i] == c && c !in s[..i]
  {
    if s[0] == c then 0
    else
      assert c in s[1..] by { var k :| 0 <= k < |s| && s[k] == c; assert s[1..][k - 1] == c; }
      var j := IndexOf(s[1..], c);
      assert s[..j + 1] == [s[0]] + s[1..][..j];
      j + 1
  }

  lemma {:induction false} IndexOfAfter(a: seq<char>, b: seq<char>, c: char)
    requires c !in a && c in b
    ensures IndexOf(a + b, c) == |a| + IndexOf(b, c)
  {
    if a == [] {
      assert a + b == b;
    } else {
      assert (a + b)[0] == a[0] != c;
      assert (a + b)[1..] == a[1..] + b;
      IndexOfAfter(a[1..], b, c);
    }
  }

  /** The pieces of s between occurrences of the separator c. */
  function Split(s: seq<char>, c: char): (cells: Pieces)
    ensures |cells| == Count(s, c) + 1
    decreases |s|
  {
    if c !in s then [s]
    else
      var i := IndexOf(s, c);
      assert s == s[..i] + [c] + s[i + 1..];
      CountAppend(s[..i] + [c], s[i + 1..], c);
      CountAppend(s[..i], [c], c);
      [s[..i]] + Split(s[i + 1..], c)
  }

  /** The pieces of a split hold no separator and only characters of s. */
  lemma {:induction false} SplitPieces(s: seq<char>, c: char)
    ensures forall i :: 0 <= i < |Split(s, c)| ==> c !in Split(s, c)[i]
    ensures forall i, x :: 0 <= i < |Split(s, c)| && x in Split(s, c)[i] ==> x in s
    decreases |s|
  {
    if c in s {
      var i := IndexOf(s, c);
      var rest := s[i + 1..];
      SplitPieces(rest, c);
      var cells := Split(s, c);
      assert cells == [s[..i]] + Split(rest, c);
      forall j, x | 0 <= j < |cells| && x in cells[j] ensures x in s {
        if j == 0 {
          assert x in s[..i];
        } else {
          assert x in Split(rest, c)[j - 1];
          assert x in rest;
        }
      }
    }
  }

  /** The pieces glued together with the separator c between neighbours. */
  function Join(cells: Pieces, c: char): (s: seq<char>)
  {
    if |cells| == 1 then cells[0] else cells[0] + [c] + Join(cells[1..], c)
  }

  lemma {:induction false} JoinSplit(s: seq<char>, c: char)
    ensures Join(Split(s, c), c) == s
    decreases |s|
  {
    if c in s {
      var i := IndexOf(s, c);
      JoinSplit(s[i + 1..], c);
      assert s == s[..i] + [c] + s[i + 1..];
    }
  }

  /** No piece contains the separator. */
  predicate Separated(cells: seq<seq<char>>, c: char)
  {
    forall i :: 0 <= i < |cells| ==> c !in cells[i]
  }

  lemma {:induction false} JoinLacks(cells: Pieces, c: char, x: char)
    requires x != c && forall i :: 0 <= i < |cells| ==> x !in cells[i]
    ensures x !in Join(cells, c)
  {
    if |cells| > 1 {
      JoinLacks(cells[1..], c, x);
    }
  }

  lemma {:induction false} CountJoin(cells: Pieces, c: char)
    requires Separated(cells, c)
    ensures Count(Join(cells, c), c) == |cells| - 1
  {
    if |cells| > 1 {
      CountJoin(cells[1..], c);
      CountAppend(cells[0] + [c], Join(cells[1..], c), c);
      CountAppend(cells[0], [c], c);
    }
  }

  /** Splitting at the first separator peels off the piece before it. */
  lemma SplitFirst(a: seq<char>, b: seq<char>, c: char)
    requires c !in a
    ensures Split(a + [c] + b, c) == [a] + Split(b, c)
  {
    var s := a + [c] + b;
    assert s == a + ([c] + b);
    IndexOfAfter(a, [c] + b, c);
    assert IndexOf(s, c) == |a|;
    assert s[..|a|] == a && s[|a| + 1..] == b;
  }

  /** One step of SplitJoin: the first piece comes off, the rest stay separated. */
  lemma SplitJoinStep(cells: Pieces, c: char)
    requires Separated(cells, c) && |cells| > 1
    ensures Separated(cells[1..], c)
    ensures Split(Join(cells, c), c) == [cells[0]] + Split(Join(cells[1..], c), c)
  {
    assert c !in cells[0];
    SplitFirst(cells[0], Join(cells[1..], c), c);
  }

  lemma {:induction false} SplitJoin(cells: Pieces, c: char)
    requires Separated(cells, c)
    ensures Split(Join(cells, c), c) == cells
  {
    if |cells| > 1 {
      SplitJoinStep(cells, c);
      SplitJoin(cells[1..], c);
      assert cells == [cells[0]] + cells[1..];
    }
  }
}
