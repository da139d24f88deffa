/** The jump stack: a LIFO of the positions of the `[` brackets of loops
    being repeated. The C code links heap cells; here the stack is a
    sequence whose last element is the top. */
module JumpStack {

  type Stack = seq<nat>

  /** The entry `]` jumps back to (`stack->leftbracket`). */
  function Top(s: Stack): nat
    requires |s| > 0
  {
    s[|s| - 1]
  }

  /** `pop_jump`: discard the top entry; the source demands a non-empty
      stack. */
  function Pop(s: Stack): (r: Stack)
    requires |s| > 0
    ensures |r| == |s| - 1
    ensures forall k :: 0 <= k < |r| ==> r[k] == s[k]
  {
    s[..|s| - 1]
  }

  /** `push_jump`: the new entry becomes the top, above everything that was
      there. */
  function Push(s: Stack, p: nat): (r: Stack)
    ensures |r| == |s| + 1
    ensures Top(r) == p
    ensures Pop(r) == s
  {
    s + [p]
  }

  /** Popping and pushing back the top restores the stack. */
  lemma PushPop(s: Stack)
    requires |s| > 0
    ensures Push(Pop(s), Top(s)) == s
  {
  }
}
