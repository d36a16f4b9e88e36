/**
 * The frontier stack of stack.c: a LIFO of references kept as a singly linked
 * chain hanging from a head pointer (`*stack`). Nodes are never written after
 * they are pushed, so their fields are constants here.
 */
module Stack {
  import opened Wrappers

  /** A `struct stack` node. `items` is the ghost view of the chain from this node down. */
  class StackNode<T> {
    const data: T
    const next: StackNode?<T>
    ghost const items: seq<T>
    ghost const height: nat

    ghost predicate WellFormed()
      decreases height
    {
      && |items| == height > 0
      && items[0] == data
      && (next == null ==> items == [data])
      && (next != null ==> next.height < height && items == [data] + next.items && next.WellFormed())
    }

    constructor (data: T, next: StackNode?<T>)
      requires next != null ==> next.WellFormed()
      ensures WellFormed()
      ensures items == [data] + (if next == null then [] else next.items)
      ensures this.next == next
    {
      this.data := data;
      this.next := next;
      if next == null {
        items, height := [data], 1;
      } else {
        items, height := [data] + next.items, next.height + 1;
      }
    }
  }

  /** The stack handle: the head pointer, NULL when the stack is empty. */
  class Stack<T> {
    var head: StackNode?<T>

    ghost predicate Valid()
      reads this
    {
      head != null ==> head.WellFormed()
    }

    /** The stack's contents, top first. */
    ghost function Contents(): seq<T>
      reads this
    {
      if head == null then [] else head.items
    }

    /** `new_stack`: an empty stack. */
    constructor ()
      ensures Valid() && Contents() == []
    {
      head := null;
    }

    /** `stack_push`: the new element becomes the top; nothing below it changes. */
    method Push(x: T)
      requires Valid()
      modifies this
      ensures Valid()
      ensures Contents() == [x] + old(Contents())
    {
      head := new StackNode(x, head);
    }

    /** `stack_pop`: removes and returns the top, or returns NULL (None) on an empty stack. */
    method Pop() returns (r: Option<T>)
      requires Valid()
      modifies this
      ensures Valid()
      ensures old(Contents()) == [] ==> r == None && Contents() == []
      ensures old(Contents()) != [] ==> r == Some(old(Contents())[0]) && Contents() == old(Contents())[1..]
    {
      if head != null {
        r := Some(head.data);
        head := head.next;
      } else {
        r := None;
      }
    }

    /** `stack_peek`: 1 when something is on the stack, 0 otherwise. */
    method Peek() returns (r: int)
      requires Valid()
      ensures r == 1 <==> Contents() != []
      ensures r == 0 <==> Contents() == []
    {
      if head != null {
        r := 1;
      } else {
        r := 0;
      }
    }
  }

  /** Pushing and then popping returns the pushed element and restores the stack. */
  method PushThenPop<T>(s: Stack<T>, x: T) returns (r: Option<T>)
    requires s.Valid()
    modifies s
    ensures s.Valid()
    ensures r == Some(x) && s.Contents() == old(s.Contents())
  {
    s.Push(x);
    r := s.Pop();
  }

  function Reverse<T>(xs: seq<T>): (r: seq<T>)
    ensures |r| == |xs|
  {
    if |xs| == 0 then [] else [xs[|xs| - 1]] + Reverse(xs[..|xs| - 1])
  }

  /** Reverse reads its input back to front. */
  lemma {:induction false} ReverseAt<T>(xs: seq<T>, i: nat)
    requires i < |xs|
    ensures Reverse(xs)[i] == xs[|xs| - 1 - i]
    decreases |xs|
  {
    if i > 0 {
      ReverseAt(xs[..|xs| - 1], i - 1);
    }
  }

  /** Pops while stack_peek reports something; the popped elements come out top first. */
  method Drain<T>(s: Stack<T>) returns (out: seq<T>)
    requires s.Valid()
    modifies s
    ensures s.Valid() && s.Contents() == []
    ensures out == old(s.Contents())
  {
    out := [];
    var more := s.Peek();
    while more != 0
      invariant s.Valid()
      invariant more != 0 <==> s.Contents() != []
      invariant out + s.Contents() == old(s.Contents())
      decreases |s.Contents()|
    {
      ghost var before := s.Contents();
      var top := s.Pop();
      ghost var rest := s.Contents();
      assert before == [top.value] + rest;
      assert (out + [top.value]) + rest == out + before;
      out := out + [top.value];
      more := s.Peek();
    }
  }

  /**
   * Pushes every element of `xs` on a new stack, then drains it: the elements
   * come back in reverse order.
   */
  method PushAllThenDrain<T>(xs: seq<T>) returns (out: seq<T>)
    ensures out == Reverse(xs)
  {
    var s := new Stack<T>();
    var i := 0;
    while i < |xs|
      invariant 0 <= i <= |xs|
      invariant s.Valid()
      invariant s.Contents() == Reverse(xs[..i])
    {
      s.Push(xs[i]);
      assert xs[..i + 1][..i] == xs[..i];
      i := i + 1;
    }
    assert xs[..i] == xs;
    out := Drain(s);
  }

  /** The scenario of the repository's test driver: push "1", "2", "3", then drain. */
  method PushOneTwoThreeThenDrain() returns (out: seq<string>)
    ensures out == ["3", "2", "1"]
  {
    out := PushAllThenDrain(["1", "2", "3"]);
  }
}
