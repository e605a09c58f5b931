/** Shared vocabulary of the model: bytes, optional values, digests and a
    few sequence helpers used by several components. */
module Common {

  /** One octet of a Python 2 byte string. */
  newtype byte = x: int | 0 <= x < 256

  datatype Option<+T> = None | Some(value: T)

  /** SHA-1 output length in bytes (DIGEST_LEN). */
  const DIGEST_LEN: nat := 20

  /** A 20-byte SHA-1 digest; sha1 itself is always a parameter of the
      operations that use it, so nothing about it is assumed beyond its
      output length. */
  type Digest = s: seq<byte> | |s| == DIGEST_LEN witness seq(20, _ => 0 as byte)

  /** Python's slice s[i:j] for 0 <= i <= j: indices past the end are clamped. */
  function Slice<T>(s: seq<T>, i: nat, j: nat): (r: seq<T>)
    requires i <= j
    ensures |r| == if j <= |s| then j - i else if i <= |s| then |s| - i else 0
    ensures forall k :: 0 <= k < |r| ==> r[k] == s[i + k]
  {
    if j <= |s| then s[i..j] else if i <= |s| then s[i..] else []
  }

  /** The list reversed, as Python's list.reverse() leaves it. */
  function Reversed<T>(s: seq<T>): (r: seq<T>)
    ensures |r| == |s|
  {
    if s == [] then [] else Reversed(s[1..]) + [s[0]]
  }

  lemma {:induction false} ReversedAt<T>(s: seq<T>, k: nat)
    requires k < |s|
    ensures Reversed(s)[k] == s[|s| - 1 - k]
  {
    if k < |s| - 1 {
      ReversedAt(s[1..], k);
    }
  }

  lemma {:induction false} ReversedAppend<T>(s: seq<T>, x: T)
    ensures Reversed(s + [x]) == [x] + Reversed(s)
  {
    if s != [] {
      assert (s + [x])[1..] == s[1..] + [x];
      ReversedAppend(s[1..], x);
    } else {
      assert s + [x] == [x];
    }
  }

  /** Sum of a sequence of integers (Python's sum / reduce(operator.add)). */
  function Sum(s: seq<int>): int
  {
    if s == [] then 0 else s[0] + Sum(s[1..])
  }

  lemma {:induction false} SumAppend(a: seq<int>, b: seq<int>)
    ensures Sum(a + b) == Sum(a) + Sum(b)
  {
    if a == [] {
      assert a + b == b;
    } else {
      assert (a + b)[1..] == a[1..] + b;
      SumAppend(a[1..], b);
    }
  }

  /** k blocks of 'len' items, counted by repeated addition so that
      inductive proofs about sizes stay linear. */
  function Blocks(k: nat, len: nat): nat
  {
    if k == 0 then 0 else len + Blocks(k - 1, len)
  }

  lemma {:induction false} BlocksIsProduct(k: nat, len: nat)
    ensures Blocks(k, len) == k * len
  {
    if k > 0 {
      BlocksIsProduct(k - 1, len);
    }
  }
}
