/** Small value types shared by every module of the model. */
module Base {

  /** A value that may be absent: a JSON property that is missing or `undefined`. */
  datatype Option<+T> = None | Some(value: T)

  /** The outcome of an operation that may throw: `Thrown` stands for a JavaScript exception. */
  datatype Result<+T> = Ok(value: T) | Thrown

  /** JavaScript's `x || ''` on a string property that may be missing. */
  function OrEmpty(o: Option<string>): (s: string)
    ensures o.None? ==> s == []
    ensures o.Some? ==> s == o.value
  {
    if o.Some? then o.value else []
  }

  /** The first `n` elements of `s`, or all of `s` when it is shorter. */
  function Take<T>(s: seq<T>, n: nat): (r: seq<T>)
    ensures |r| == if |s| <= n then |s| else n
    ensures r == s[..|r|]
  {
    if |s| <= n then s else s[..n]
  }

  lemma TakeOfFull<T>(s: seq<T>, t: seq<T>, n: nat)
    requires |Take(s, n)| == n
    ensures Take(s + t, n) == Take(s, n)
  {
  }

  lemma TakeOfLonger<T>(s: seq<T>, t: seq<T>, n: nat)
    requires |s| < n
    ensures Take(s + t, n) == s + Take(t, n - |s|)
  {
    if |s + t| > n {
      assert (s + t)[..n] == s + t[..n - |s|];
    }
  }

  /** A prefix that already holds `n` items has the same first `n` items as the whole. */
  lemma TakeOfPrefix<T>(s: seq<T>, t: seq<T>, n: nat)
    requires s <= t && |s| >= n
    ensures Take(s, n) == Take(t, n)
  {
  }

  /** Extending a prefix of `b` by its next element. */
  lemma PrefixSnoc<T>(a: seq<T>, b: seq<T>, j: nat)
    requires j < |b|
    ensures (a + b[..j]) + [b[j]] == a + b[..j + 1]
  {
    assert b[..j + 1] == b[..j] + [b[j]];
  }

  /** A prefix of `b` followed by the rest of `b`. */
  lemma PrefixRest<T>(a: seq<T>, b: seq<T>, k: nat)
    requires k <= |b|
    ensures (a + b[..k]) + b[k..] == a + b
  {
    assert b[..k] + b[k..] == b;
  }
}
