/** The parts of the C library the line reader and tokenizer rely on:
    NUL-terminated strings and growing a heap block with realloc. */
module LibC {

  /** The C string terminator. */
  const NUL: char := '\0'

  /** Index of the first NUL in `s`, or |s| when there is none. */
  function NulIndex(s: seq<char>): (n: nat)
    ensures n <= |s|
    ensures forall i :: 0 <= i < n ==> s[i] != NUL
    ensures n == |s| || s[n] == NUL
  {
    if s == [] || s[0] == NUL then 0 else 1 + NulIndex(s[1..])
  }

  /** The C string a `char *` pointing at s[0] denotes: the NUL-free prefix of `s` that ends
      at its first NUL (or at its end), of length strlen. */
  function CString(s: seq<char>): (r: seq<char>)
    ensures |r| <= |s| && r == s[..|r|]
    ensures NUL !in r
    ensures |r| == |s| || s[|r|] == NUL
  {
    s[..NulIndex(s)]
  }

  /** `s` holds the characters `w` from index `start` on, followed by a NUL. */
  ghost predicate Terminated(s: seq<char>, start: nat, w: seq<char>)
  {
    start + |w| < |s| && (forall i :: 0 <= i < |w| ==> s[start + i] == w[i]) && s[start + |w|] == NUL
  }

  /** A NUL-free `w` stored at `start` and terminated is exactly the C string read from `start`. */
  lemma CStringOfTerminated(s: seq<char>, start: nat, w: seq<char>)
    requires Terminated(s, start, w)
    requires NUL !in w
    ensures start <= |s| && CString(s[start..]) == w
  {
    var t := s[start..];
    assert t[..|w|] == w;
    assert NulIndex(t) == |w| by {
      assert t[|w|] == NUL;
      assert forall i :: 0 <= i < |w| ==> t[i] != NUL by {
        assert forall i :: 0 <= i < |w| ==> t[i] == w[i];
      }
    }
  }

  /** The size of a buffer that starts with `step` cells and grows by `step` cells each time
      it fills up, once `n` cells are in use: the least multiple of `step` above `n`. */
  ghost function Capacity(n: nat, step: nat): (c: nat)
    requires step > 0
    ensures c - step <= n < c
    ensures exists k: nat :: c == k * step
    decreases n
  {
    if n < step then
      assert step == 1 * step;
      step
    else
      var c0 := Capacity(n - step, step);
      var k: nat :| c0 == k * step;
      assert c0 + step == (k + 1) * step;
      c0 + step
  }

  /** Using one more cell keeps the capacity, unless it fills the buffer, which then grows by `step`. */
  lemma {:induction false} CapacityNext(n: nat, step: nat)
    requires step > 0
    ensures Capacity(n + 1, step) ==
      if n + 1 == Capacity(n, step) then Capacity(n, step) + step else Capacity(n, step)
    decreases n
  {
    if n >= step {
      CapacityNext(n - step, step);
    }
  }

  /** realloc: a block of `size` cells whose first a.Length cells are those of `a`. */
  method Realloc<T(0)>(a: array<T>, size: nat) returns (b: array<T>)
    requires a.Length <= size
    ensures fresh(b) && b.Length == size
    ensures forall i :: 0 <= i < a.Length ==> b[i] == a[i]
  {
    b := new T[size];
    var i := 0;
    while i < a.Length
      invariant 0 <= i <= a.Length
      invariant forall k :: 0 <= k < i ==> b[k] == a[k]
    {
      b[i] := a[i];
      i := i + 1;
    }
  }
}
