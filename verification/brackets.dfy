/** The bracket resolver (`match_right`): from a `[`, scan forward with a
    nesting counter for the `]` that closes it.

    Positions are indices into the program text, and the end of the text
    plays the role of the terminating NUL. */
module Brackets {
  import opened Base

  /** How a character changes the nesting depth. */
  function Weight(c: char): int
  {
    if c == '[' then 1 else if c == ']' then -1 else 0
  }

  /** Opening minus closing brackets in `src[a..b]`. */
  function Net(src: seq<char>, a: nat, b: nat): int
    requires a <= b <= |src|
    decreases b - a
  {
    if a == b then 0 else Net(src, a, b - 1) + Weight(src[b - 1])
  }

  /** `src[a..b]` is bracket-balanced: no prefix of it closes more brackets
      than it opened, and the whole of it closes all it opened. */
  ghost predicate BalancedRange(src: seq<char>, a: nat, b: nat)
    requires a <= b <= |src|
  {
    Net(src, a, b) == 0 && NeverBelow(src, a, b)
  }

  /** No prefix of `src[a..b]` closes more brackets than it opened. */
  ghost predicate NeverBelow(src: seq<char>, a: nat, b: nat)
    requires a <= b <= |src|
  {
    forall k :: a <= k <= b ==> Net(src, a, k) >= 0
  }

  /** A whole program whose brackets pair up. */
  ghost predicate Balanced(src: seq<char>)
  {
    BalancedRange(src, 0, |src|)
  }

  /** The `]` at `j` is one that closes the `[` at `i`: the text strictly
      between them is balanced. */
  ghost predicate IsMatch(src: seq<char>, i: nat, j: nat)
  {
    i < j < |src| && src[j] == ']' && BalancedRange(src, i + 1, j)
  }

  /** The scanning loop of `match_right`, from position `j` with `count`
      brackets still open. */
  function Scan(src: seq<char>, j: nat, count: nat): (r: Option<nat>)
    decreases |src| - j
    ensures r.Some? ==> j <= r.value < |src| && src[r.value] == ']'
  {
    if j >= |src| then None
    else if src[j] == '[' then Scan(src, j + 1, count + 1)
    else if src[j] == ']' then
      if count != 0 then Scan(src, j + 1, count - 1) else Some(j)
    else Scan(src, j + 1, count)
  }

  /** Net depth is additive over adjacent ranges. */
  lemma {:induction false} NetSplit(src: seq<char>, a: nat, b: nat, c: nat)
    requires a <= b <= c <= |src|
    ensures Net(src, a, c) == Net(src, a, b) + Net(src, b, c)
    decreases c - b
  {
    if b < c {
      NetSplit(src, a, b, c - 1);
    }
  }

  /** Scanning from `j` with the counter at the depth reached since `i + 1`
      finds the first `]` that closes the `[` at `i`, or proves there is
      none; when there is none, the rest of the text never closes it. */
  lemma {:induction false} ScanFinds(src: seq<char>, i: nat, j: nat)
    requires i + 1 <= j <= |src|
    requires NeverBelow(src, i + 1, j)
    requires forall k :: i < k < j ==> !IsMatch(src, i, k)
    ensures var r := Scan(src, j, Net(src, i + 1, j));
      && (r.Some? ==> IsMatch(src, i, r.value) && forall k :: i < k < r.value ==> !IsMatch(src, i, k))
      && (r.None? ==> (forall k :: i < k < |src| ==> !IsMatch(src, i, k)) && Net(src, i + 1, |src|) >= 0)
    decreases |src| - j
  {
    if j < |src| {
      var c := Net(src, i + 1, j);
      assert Net(src, i + 1, j + 1) == c + Weight(src[j]);
      if src[j] == ']' && c == 0 {
        assert IsMatch(src, i, j);
      } else {
        assert !IsMatch(src, i, j);
        ScanFinds(src, i, j + 1);
      }
    }
  }

  /** `match_right`: the position of the `]` closing the `[` at `i`, or
      None when the text ends first. `MatchRightIsLeastMatch` states which
      `]` it is. */
  function MatchRight(src: seq<char>, i: nat): (r: Option<nat>)
    requires i < |src| && src[i] == '['
    ensures r.Some? ==> i < r.value < |src| && src[r.value] == ']'
  {
    ScanFinds(src, i, i + 1);
    Scan(src, i + 1, 0)
  }

  /** `match_right` returns the least `j > i` holding a `]` with balanced
      text in between, and None exactly when there is no such `j`. */
  lemma MatchRightIsLeastMatch(src: seq<char>, i: nat)
    requires i < |src| && src[i] == '['
    ensures var r := MatchRight(src, i);
      && (r.Some? ==> IsMatch(src, i, r.value))
      && (r.Some? ==> forall k :: i < k < r.value ==> !IsMatch(src, i, k))
      && (r.None? <==> forall k :: i < k < |src| ==> !IsMatch(src, i, k))
  {
    ScanFinds(src, i, i + 1);
  }

  /** A `[` the rest of the text never closes leaves it with more opening
      than closing brackets. */
  lemma UnmatchedStaysOpen(src: seq<char>, i: nat)
    requires i < |src| && src[i] == '['
    requires MatchRight(src, i).None?
    ensures Net(src, i, |src|) >= 1
  {
    ScanFinds(src, i, i + 1);
    MatchRightIsLeastMatch(src, i);
    NetSplit(src, i, i + 1, |src|);
  }

  /** At most one `]` closes a given `[`. */
  lemma MatchUnique(src: seq<char>, i: nat, j: nat, j': nat)
    requires IsMatch(src, i, j) && IsMatch(src, i, j')
    ensures j == j'
  {
    if j < j' {
      NetSplit(src, i + 1, j, j + 1);
      assert Net(src, i + 1, j + 1) < 0;
    } else if j' < j {
      NetSplit(src, i + 1, j', j' + 1);
      assert Net(src, i + 1, j' + 1) < 0;
    }
  }

  /** In a balanced program every `[` has its `]`. */
  lemma BalancedHasMatch(src: seq<char>, i: nat)
    requires Balanced(src)
    requires i < |src| && src[i] == '['
    ensures MatchRight(src, i).Some?
  {
    if MatchRight(src, i).None? {
      UnmatchedStaysOpen(src, i);
      NetSplit(src, 0, i, |src|);
    }
  }
}
