/**
 * Generic facts about a log that grows block by block: a run of broadcasts
 * is the concatenation of the blocks each broadcast appends.
 */
module Sequences {

  /** The blocks one after another. */
  function Flatten<T>(blocks: seq<seq<T>>): seq<T>
    decreases |blocks|
  {
    if blocks == [] then [] else Flatten(blocks[..|blocks| - 1]) + blocks[|blocks| - 1]
  }

  /** One more block is appended at the end. */
  lemma FlattenSnoc<T>(blocks: seq<seq<T>>, b: seq<T>)
    ensures Flatten(blocks + [b]) == Flatten(blocks) + b
  {
    assert (blocks + [b])[..|blocks|] == blocks;
  }

  /** Block j comes right after the blocks before it. */
  lemma {:induction false} FlattenInOrder<T>(blocks: seq<seq<T>>, j: nat)
    requires j < |blocks|
    ensures Flatten(blocks[..j]) + blocks[j] <= Flatten(blocks)
    decreases |blocks|
  {
    var n := |blocks| - 1;
    if j < n {
      assert blocks[..n][..j] == blocks[..j] && blocks[..n][j] == blocks[j];
      FlattenInOrder(blocks[..n], j);
    } else {
      assert blocks[..j] == blocks[..n];
    }
  }

  /** Nothing but the blocks' elements: what holds of every element of every block holds of the whole. */
  lemma {:induction false} FlattenAll<T>(blocks: seq<seq<T>>, p: T -> bool)
    requires forall j, i :: 0 <= j < |blocks| && 0 <= i < |blocks[j]| ==> p(blocks[j][i])
    ensures forall i :: 0 <= i < |Flatten(blocks)| ==> p(Flatten(blocks)[i])
    decreases |blocks|
  {
    if blocks != [] {
      var n := |blocks| - 1;
      assert forall j :: 0 <= j < n ==> blocks[..n][j] == blocks[j];
      FlattenAll(blocks[..n], p);
      var a, b := Flatten(blocks[..n]), blocks[n];
      forall i | 0 <= i < |a + b|
        ensures p((a + b)[i])
      {
        if i < |a| {
          assert (a + b)[i] == a[i];
        } else {
          assert (a + b)[i] == b[i - |a|];
        }
      }
    }
  }

  lemma InPrefix<T>(a: seq<T>, b: seq<T>, c: seq<T>, x: T)
    requires a + b <= c && x in b
    ensures x in c
  {
    var i :| 0 <= i < |b| && b[i] == x;
    assert c[|a| + i] == (a + b)[|a| + i];
  }

  lemma ConcatAssociative<T>(a: seq<T>, b: seq<T>, c: seq<T>)
    ensures (a + b) + c == a + (b + c)
  {
  }
}
