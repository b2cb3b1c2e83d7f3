/**
 * Laws that relate the operations of `List<T>` to each other, stated as
 * client code that calls them in sequence on one list.
 */
module ListLaws {
  import opened ListSpec
  import opened LinkedList

  /** `cons` followed by `tail` gives back the list it started from. */
  method ConsThenTail(l: List, v: int)
    requires l.Valid()
    modifies l
    ensures l.Valid() && l.Contents == old(l.Contents)
  {
    l.Cons(v);
    l.Tail();
  }

  /** `snoc` followed by `init` gives back the list it started from. */
  method SnocThenInit(l: List, v: int)
    requires l.Valid()
    modifies l.Repr
    ensures l.Valid() && l.Contents == old(l.Contents)
  {
    l.Snoc(v);
    l.Init();
  }

  /** `pop_head` after `cons(v)` returns `v` and restores the list. */
  method ConsThenPopHead(l: List, v: int) returns (r: Result<int>)
    requires l.Valid()
    modifies l
    ensures l.Valid() && r == Ok(v) && l.Contents == old(l.Contents)
  {
    l.Cons(v);
    r := l.PopHead();
  }

  /** `pop_last` after `snoc(v)` returns `v` and restores the list. */
  method SnocThenPopLast(l: List, v: int) returns (r: Result<int>)
    requires l.Valid()
    modifies l.Repr
    ensures l.Valid() && r == Ok(v) && l.Contents == old(l.Contents)
  {
    l.Snoc(v);
    r := l.PopLast();
  }

  /** Reversing twice restores both the elements and the very same chain of nodes. */
  method ReverseTwice(l: List)
    requires l.Valid()
    modifies l.Repr
    ensures l.Valid() && l.Repr == old(l.Repr)
    ensures l.Contents == old(l.Contents) && l.Nodes == old(l.Nodes)
  {
    l.Reverse();
    l.Reverse();
    ReversedInvolutive(old(l.Contents));
    ReversedInvolutive(old(l.Nodes));
  }

  /** After `purge(v)`, `elem(v)` is false, and every other value keeps its count. */
  method PurgeThenElem(l: List, v: int) returns (found: bool)
    requires l.Valid()
    modifies l.Repr
    ensures l.Valid() && !found
    ensures forall x :: x != v ==> multiset(l.Contents)[x] == multiset(old(l.Contents))[x]
  {
    l.Purge(v);
    PurgeMultiset(old(l.Contents), v);
    found := l.Elem(v);
  }

  /** After `remove(v)` on a list holding `v`, one fewer copy of `v` is left. */
  method RemoveOneCopy(l: List, v: int)
    requires l.Valid()
    modifies l.Repr
    ensures l.Valid()
    ensures multiset(l.Contents) == multiset(old(l.Contents)) - multiset{v}
    ensures v in old(l.Contents) ==> |l.Contents| == |old(l.Contents)| - 1
    ensures v !in old(l.Contents) ==> l.Contents == old(l.Contents)
  {
    l.Remove(v);
    RemoveFirstMultiset(old(l.Contents), v);
  }
}
