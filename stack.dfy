/**
 * The list-backed stack. create_stack picks one of two push/pop pairs: the
 * array stack keeps its top at the end of an array list, the linked stack
 * keeps its top at index 0 of a linked list. Items() lists the stack from
 * bottom to top for either kind.
 */
module Stack {
  import opened Wrappers
  import opened ListSpec
  import ArrayList
  import LinkedList

  /** The StackType codes. */
  const ARRAY_STACK: int := 0
  const LINKED_STACK: int := 1

  /** Putting an item in front of a sequence puts it last in the reversal. */
  lemma ReverseCons<T>(x: T, s: seq<T>)
    ensures Reverse([x] + s) == Reverse(s) + [x]
  {
    assert ([x] + s)[1..] == s;
  }

  /** Dropping the first item drops the last item of the reversal. */
  lemma ReverseTail<T>(s: seq<T>)
    requires |s| > 0
    ensures Reverse(s[1..]) == Reverse(s)[..|s| - 1]
    ensures Reverse(s)[|s| - 1] == s[0]
  {
  }

  class Stack<T(0)> {
    const kind: int
    var arrayImpl: ArrayList.ArrayList?<T>
    var linkedImpl: LinkedList.LinkedList?<T>
    ghost var Repr: set<object>

    ghost predicate Valid()
      reads this, Repr
    {
      this in Repr &&
      (kind == ARRAY_STACK || kind == LINKED_STACK) &&
      (kind == ARRAY_STACK ==>
        arrayImpl != null && linkedImpl == null &&
        arrayImpl in Repr && arrayImpl.Repr <= Repr && this !in arrayImpl.Repr &&
        arrayImpl.Valid() && !arrayImpl.freed) &&
      (kind == LINKED_STACK ==>
        linkedImpl != null && arrayImpl == null &&
        linkedImpl in Repr && linkedImpl.Repr <= Repr && this !in linkedImpl.Repr &&
        linkedImpl.Valid())
    }

    /** The items from bottom to top. */
    ghost function Items(): seq<T>
      reads this, Repr
      requires Valid()
    {
      if kind == ARRAY_STACK then arrayImpl.Contents else Reverse(linkedImpl.Contents)
    }

    constructor (kind: int, counter: ArrayList.BufferCounter)
      requires kind == ARRAY_STACK || kind == LINKED_STACK
      modifies counter
      ensures Valid() && fresh(Repr) && Items() == [] && this.kind == kind
      ensures counter.active == if kind == ARRAY_STACK then old(counter.active) + 1 else old(counter.active)
    {
      this.kind := kind;
      if kind == ARRAY_STACK {
        var lst := new ArrayList.ArrayList(10, counter);
        arrayImpl, linkedImpl := lst, null;
        Repr := {this} + lst.Repr;
      } else {
        var lst := new LinkedList.LinkedList();
        arrayImpl, linkedImpl := null, lst;
        Repr := {this} + lst.Repr;
      }
    }

    /** The push of either kind: the item becomes the top. */
    method Push(item: T)
      requires Valid()
      modifies Repr
      ensures Valid() && fresh(Repr - old(Repr))
      ensures Items() == old(Items()) + [item]
    {
      if kind == ARRAY_STACK {
        var n := arrayImpl.Size();
        arrayImpl.Insert(item, n);
        Repr := Repr + arrayImpl.Repr;
      } else {
        ReverseCons(item, linkedImpl.Contents);
        linkedImpl.Insert(item, 0);
        Repr := Repr + linkedImpl.Repr;
      }
    }

    /** The pop of either kind: NULL when empty, otherwise the top item, which is removed. */
    method Pop() returns (r: Option<T>)
      requires Valid()
      modifies Repr
      ensures Valid() && Repr == old(Repr)
      ensures old(Items()) == [] ==> r == None && Items() == []
      ensures old(Items()) != [] ==> r == Some(old(Items())[|old(Items())| - 1])
      ensures old(Items()) != [] ==> Items() == old(Items())[..|old(Items())| - 1]
    {
      if kind == ARRAY_STACK {
        var n := arrayImpl.Size();
        if n == 0 {
          return None;
        }
        r := arrayImpl.Get(n - 1);
        arrayImpl.Remove(n - 1);
      } else {
        var n := linkedImpl.Size();
        if n == 0 {
          return None;
        }
        ReverseTail(linkedImpl.Contents);
        r := linkedImpl.Get(0);
        linkedImpl.Remove(0);
        assert linkedImpl.Contents == old(linkedImpl.Contents)[1..];
      }
    }

    /** stack_top: NULL when empty, otherwise the top item; nothing changes. */
    method Top() returns (r: Option<T>)
      requires Valid()
      ensures r == if Items() == [] then None else Some(Items()[|Items()| - 1])
    {
      if kind == ARRAY_STACK {
        var n := arrayImpl.Size();
        if n == 0 {
          return None;
        }
        r := arrayImpl.Get(n - 1);
      } else {
        var n := linkedImpl.Size();
        if n == 0 {
          return None;
        }
        ReverseTail(linkedImpl.Contents);
        r := linkedImpl.Get(0);
      }
    }

    /** stack_is_empty: the list size is 0. */
    method IsEmpty() returns (b: bool)
      requires Valid()
      ensures b <==> Items() == []
    {
      var n := Size();
      return n == 0;
    }

    /** stack_size: the list size. */
    method Size() returns (n: int)
      requires Valid()
      ensures n == |Items()|
    {
      if kind == ARRAY_STACK {
        n := arrayImpl.Size();
      } else {
        n := linkedImpl.Size();
      }
    }
  }

  /** create_stack: a stack of the requested kind, or NULL for any other type code. */
  method CreateStack<T(0)>(kind: int, counter: ArrayList.BufferCounter) returns (s: Stack?<T>)
    modifies counter
    ensures s == null <==> kind != ARRAY_STACK && kind != LINKED_STACK
    ensures s != null ==> fresh(s.Repr) && s.Valid() && s.Items() == [] && s.kind == kind
  {
    if kind != ARRAY_STACK && kind != LINKED_STACK {
      return null;
    }
    s := new Stack(kind, counter);
  }

  /** LIFO: pushing xs and then popping |xs| times yields xs reversed. */
  method PushThenPop<T(0)>(stk: Stack<T>, xs: seq<T>) returns (out: seq<T>)
    requires stk.Valid() && stk.Items() == []
    modifies stk.Repr
    ensures stk.Valid() && stk.Items() == [] && out == Reverse(xs)
  {
    var i := 0;
    while i < |xs|
      invariant 0 <= i <= |xs|
      invariant stk.Valid() && fresh(stk.Repr - old(stk.Repr))
      invariant stk.Items() == xs[..i]
    {
      stk.Push(xs[i]);
      assert xs[..i + 1] == xs[..i] + [xs[i]];
      i := i + 1;
    }
    out := [];
    var k := |xs|;
    while k > 0
      invariant 0 <= k <= |xs|
      invariant stk.Valid() && fresh(stk.Repr - old(stk.Repr))
      invariant stk.Items() == xs[..k] && out == Reverse(xs[k..])
    {
      var r := stk.Pop();
      assert xs[k - 1..][1..] == xs[k..];
      out := out + [r.value];
      assert xs[..k][..k - 1] == xs[..k - 1];
      k := k - 1;
    }
    assert xs[0..] == xs;
  }
}
