/** The iteration path (IterPath of index.h): a stack of frames whose first sixteen live in
    place and the others in an overflow vector. */
module IterPaths {
  import opened Boundary

  const ITER_STACK_DEPTH: nat := 16

  class IterPath {
    const stack: array<PutFrame>
    var overflow: seq<PutFrame>
    var len: nat

    ghost predicate Valid()
      reads this
    {
      stack.Length == ITER_STACK_DEPTH && |overflow| == if len <= ITER_STACK_DEPTH then 0 else len - ITER_STACK_DEPTH
    }

    /** The stack the two parts make up. */
    ghost function Frames(): (s: seq<PutFrame>)
      reads this, stack
      requires Valid()
      ensures |s| == len
    {
      if len <= ITER_STACK_DEPTH then stack[..len] else stack[..] + overflow
    }

    constructor ()
      ensures Valid() && Frames() == [] && fresh(stack)
    {
      stack := new PutFrame[ITER_STACK_DEPTH](_ => PutFrame(0, 0));
      overflow := [];
      len := 0;
    }

    method Reset()
      requires Valid()
      modifies this
      ensures Valid() && Frames() == []
    {
      len := 0;
      overflow := [];
    }

    method Push(frame: PutFrame)
      requires Valid()
      modifies this, stack
      ensures Valid() && Frames() == old(Frames()) + [frame]
    {
      if len < stack.Length {
        stack[len] := frame;
      } else {
        overflow := overflow + [frame];
      }
      len := len + 1;
    }

    method At(index: nat) returns (frame: PutFrame)
      requires Valid() && index < len
      ensures frame == Frames()[index]
    {
      if index < stack.Length {
        return stack[index];
      }
      return overflow[index - stack.Length];
    }

    method SetLeaf(index: nat, leaf: nat)
      requires Valid() && index < len
      modifies this, stack
      ensures Valid() && Frames() == old(Frames())[index := old(Frames())[index].(leaf := leaf)]
    {
      if index < stack.Length {
        stack[index] := stack[index].(leaf := leaf);
      } else {
        var i := index - stack.Length;
        overflow := overflow[i := overflow[i].(leaf := leaf)];
      }
    }

    method Truncate(newLen: nat)
      requires Valid() && newLen <= len
      modifies this
      ensures Valid() && Frames() == old(Frames())[..newLen]
    {
      if newLen <= stack.Length {
        overflow := [];
      } else {
        overflow := overflow[..newLen - stack.Length];
      }
      len := newLen;
    }

    method FramesForInsert() returns (frames: seq<PutFrame>)
      requires Valid()
      ensures frames == Frames()
    {
      frames := [];
      var stackCount := if len < stack.Length then len else stack.Length;
      var i := 0;
      while i < stackCount
        invariant 0 <= i <= stackCount && frames == stack[..i]
      {
        frames := frames + [stack[i]];
        i := i + 1;
      }
      while i < len
        invariant stackCount <= i <= len
        invariant frames == stack[..stackCount] + overflow[..i - stackCount]
      {
        frames := frames + [overflow[i - stack.Length]];
        i := i + 1;
      }
      assert len > stack.Length ==> overflow[..len - stackCount] == overflow && stack[..stackCount] == stack[..];
    }
  }
}
