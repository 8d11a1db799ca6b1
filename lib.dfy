/** The two maximum helpers of the crate root, used by both aligners to score a cell and to
    choose its traceback code. */
module Lib {

  function Max(a: int, b: int): int
  {
    if a < b then b else a
  }

  /** `amax`: the largest element of a non-empty list (`iter().max().unwrap()`). */
  function Amax(a: seq<int>): (m: int)
    requires |a| > 0
    ensures m in a
    ensures forall k :: 0 <= k < |a| ==> a[k] <= m
  {
    if |a| == 1 then a[0]
    else
      var m0 := Amax(a[..|a| - 1]);
      assert m0 in a[..|a| - 1];
      Max(m0, a[|a| - 1])
  }

  /** `argmax`: the index chosen by `max_by_key`, which keeps the later element whenever two
      keys are equal, so the result is the LAST index holding the maximum. */
  function Argmax(a: seq<int>): (k: nat)
    requires |a| > 0
    ensures k < |a|
    ensures a[k] == Amax(a)
    ensures forall j :: k < j < |a| ==> a[j] < a[k]
  {
    if |a| == 1 then 0
    else
      var k0 := Argmax(a[..|a| - 1]);
      if a[|a| - 1] >= a[k0] then |a| - 1 else k0
  }

  /** With the four DP candidates [restart, diagonal, above, left], ties go to the left
      neighbour first, then the cell above, then the diagonal, and restart only when it is
      strictly best. */
  lemma ArgmaxOfFour(c0: int, c1: int, c2: int, c3: int)
    ensures Amax([c0, c1, c2, c3]) == Max(Max(c0, c1), Max(c2, c3))
    ensures Argmax([c0, c1, c2, c3]) ==
      if c3 >= c0 && c3 >= c1 && c3 >= c2 then 3
      else if c2 >= c0 && c2 >= c1 then 2
      else if c1 >= c0 then 1
      else 0
  {
    var a := [c0, c1, c2, c3];
    assert a[..3] == [c0, c1, c2];
    assert a[..3][..2] == [c0, c1];
    assert a[..3][..2][..1] == [c0];
    assert Amax(a) == Max(Amax([c0, c1, c2]), c3);
    assert Amax([c0, c1, c2]) == Max(Amax([c0, c1]), c2);
    assert Amax([c0, c1]) == Max(c0, c1);
  }

  /** The largest of four candidates, and the index `argmax` picks among them: ties go to
      the later candidate. */
  function Best(c: seq<int>): int
    requires |c| == 4
  {
    Max(Max(c[0], c[1]), Max(c[2], c[3]))
  }

  function Choice(c: seq<int>): (k: nat)
    requires |c| == 4
    ensures k < 4
  {
    if c[3] >= c[0] && c[3] >= c[1] && c[3] >= c[2] then 3
    else if c[2] >= c[0] && c[2] >= c[1] then 2
    else if c[1] >= c[0] then 1
    else 0
  }

  /** `amax` and `argmax` of the crate root, applied to four candidates. */
  lemma BestAndChoice(c: seq<int>)
    requires |c| == 4
    ensures Amax(c) == Best(c) && Argmax(c) == Choice(c)
    ensures c[Choice(c)] == Best(c)
  {
    ArgmaxOfFour(c[0], c[1], c[2], c[3]);
    assert c == [c[0], c[1], c[2], c[3]];
  }

  /** The examples of the documentation comments. */
  lemma AmaxExample()
    ensures Amax([2, 5, 3]) == 5
  {
  }

  lemma ArgmaxExample()
    ensures Argmax([2, 5, 3]) == 1
  {
  }
}
