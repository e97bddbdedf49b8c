/** Sequences put together in another way, for both kinds of tree. */
module Sequences {

  lemma Regroup<T>(p: seq<T>, l: seq<T>, c: seq<T>, r: seq<T>, q: seq<T>)
    ensures p + (l + c + r) + q == p + l + c + (r + q)
  {
  }

  /** The middle of one sequence goes with what is behind it, or with what is before it. */
  lemma MoveOver<T>(p: seq<T>, l: seq<T>, c: seq<T>, r: seq<T>, q: seq<T>)
    ensures p + (l + c + r) + q == p + l + (c + r + q)
    ensures p + (l + c + r) + q == p + l + c + r + q
  {
  }

  lemma Reassociate<T>(a: seq<T>, x: seq<T>, b: seq<T>, y: seq<T>, c: seq<T>)
    ensures (a + x + b) + y + c == a + x + (b + y + c)
  {
  }

  lemma TakeOneMore<T>(s: seq<T>, i: nat)
    requires i < |s|
    ensures s[..i + 1] == s[..i] + [s[i]]
  {
  }

  lemma DropOneLess<T>(s: seq<T>, i: nat)
    requires i < |s|
    ensures s[i..] == [s[i]] + s[i + 1..]
  {
  }
}
