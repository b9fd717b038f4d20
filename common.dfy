/** Types shared by the whole model: bytes, optional values, the answer of
    getsockopt(SO_ERROR), and the subsequence relation. */
module Common {

  /** An unsigned byte, as `unsigned char` in the source. */
  type Byte = b: int | 0 <= b < 0x100

  datatype Option<+T> = None | Some(value: T)

  /** What getsockopt(fd, SOL_SOCKET, SO_ERROR, ...) tells the program: the call
      itself failed (it returned -1), or it succeeded and stored an error code
      (0 means the asynchronous connect completed). */
  datatype SockOpt = GetSockOptFailed | SoError(code: int)

  /** `a` can be obtained from `b` by deleting elements (order is kept).
      Defined from the back, like the loop-shaped functions that use it. */
  predicate IsSubseq<T(==)>(a: seq<T>, b: seq<T>)
    decreases |b|
  {
    if a == [] then true
    else if b == [] then false
    else if a[|a| - 1] == b[|b| - 1] then IsSubseq(a[..|a| - 1], b[..|b| - 1])
    else IsSubseq(a, b[..|b| - 1])
  }

  /** Appending the same element to both sides keeps the relation. */
  lemma SubseqExtendBoth<T>(a: seq<T>, b: seq<T>, x: T)
    requires IsSubseq(a, b)
    ensures IsSubseq(a + [x], b + [x])
  {
    assert (a + [x])[..|a + [x]| - 1] == a;
    assert (b + [x])[..|b + [x]| - 1] == b;
  }

  /** Appending an element to the longer side only keeps the relation. */
  lemma {:induction false} SubseqExtendRight<T>(a: seq<T>, b: seq<T>, x: T)
    requires IsSubseq(a, b)
    ensures IsSubseq(a, b + [x])
    decreases |b|, 1
  {
    assert (b + [x])[..|b + [x]| - 1] == b;
    if a != [] && a[|a| - 1] == x {
      // The last element of `a` can be matched against `x` instead.
      SubseqDropLast(a, b);
    }
  }

  /** Dropping the last element of the shorter side keeps the relation. */
  lemma {:induction false} SubseqDropLast<T>(a: seq<T>, b: seq<T>)
    requires a != [] && IsSubseq(a, b)
    ensures IsSubseq(a[..|a| - 1], b)
    decreases |b|, 0
  {
    var a' := a[..|a| - 1];
    if a' == [] {
    } else if a[|a| - 1] == b[|b| - 1] {
      SubseqExtendRight(a', b[..|b| - 1], b[|b| - 1]);
      assert b[..|b| - 1] + [b[|b| - 1]] == b;
    } else {
      SubseqDropLast(a, b[..|b| - 1]);
      SubseqExtendRight(a', b[..|b| - 1], b[|b| - 1]);
      assert b[..|b| - 1] + [b[|b| - 1]] == b;
    }
  }

  lemma AppendAssoc<T>(a: seq<T>, b: seq<T>, c: seq<T>)
    ensures a + (b + c) == a + b + c
  {
  }

  /** Being a prefix is transitive. */
  lemma PrefixTrans<T>(a: seq<T>, b: seq<T>, c: seq<T>)
    requires a <= b && b <= c
    ensures a <= c
  {
    assert c[..|a|] == b[..|a|];
  }
}
