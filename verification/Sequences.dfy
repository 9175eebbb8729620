/** Removal from, and search in, sequences. */
module Sequences {

  function Without<T>(s: seq<T>, i: nat): (r: seq<T>)
    requires i < |s|
    ensures |r| == |s| - 1
  {
    s[..i] + s[i + 1..]
  }

  function IndexOf<T(==)>(s: seq<T>, x: T): (i: nat)
    requires x in s
    ensures i < |s| && s[i] == x && x !in s[..i]
  {
    if s[0] == x then 0 else IndexOf(s[1..], x) + 1
  }

  lemma WithoutMultiset<T>(s: seq<T>, i: nat)
    requires i < |s|
    ensures multiset(s) == multiset(Without(s, i)) + multiset{s[i]}
  {
    assert s == s[..i] + [s[i]] + s[i + 1..];
  }
}
