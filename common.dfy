/** Small value types and string helpers shared by both modules. */
module Common {

  /** A value that may be absent: Java's null reference, Python's None. */
  datatype Option<+T> = None | Some(value: T)

  function Min(a: nat, b: nat): nat
  {
    if a <= b then a else b
  }

  /** Index of the first `c` in `s`, or |s| when there is none. */
  function IndexOf(s: string, c: char): (k: nat)
    ensures k <= |s|
    ensures k < |s| ==> s[k] == c
    ensures forall j :: 0 <= j < k ==> s[j] != c
  {
    if s == [] || s[0] == c then 0 else 1 + IndexOf(s[1..], c)
  }

  /** Cutting `x` around an occurrence of `t` at `k` and gluing it back. */
  lemma SplitAt<T>(x: seq<T>, k: nat, t: seq<T>)
    requires k <= |x| && t <= x[k..]
    ensures x == x[..k] + t + x[k + |t|..]
  {
    assert x[k..] == t + x[k + |t|..];
    assert x == x[..k] + x[k..];
  }

  /** Concatenation regrouped, both ways the proofs here need it. */
  lemma Regroup<T>(a: seq<T>, b: seq<T>, c: seq<T>, d: seq<T>)
    ensures a + b + c + d == a + (b + (c + d))
    ensures a + b + c + d == a + (b + c + d)
  {
  }
}
