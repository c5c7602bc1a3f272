/** Small facts about sequences that several modules share. */
module Sequences {

  /** The last `n` elements of `s`, or all of them. */
  function KeepLast<T>(s: seq<T>, n: nat): seq<T> {
    if |s| <= n then s else s[|s| - n..]
  }

  lemma KeepLastOfKept<T>(s: seq<T>, x: T, n: nat)
    ensures KeepLast(KeepLast(s, n) + [x], n) == KeepLast(s + [x], n)
  {
  }

  lemma KeepLastOfNone<T>(n: nat)
    ensures KeepLast<T>([], n) == []
  {
  }

  lemma HeadAndTail<T>(prefix: seq<T>, s: seq<T>)
    requires s != []
    ensures prefix + [s[0]] + s[1..] == prefix + s
  {
  }

  lemma AppendAssoc<T>(a: seq<T>, b: seq<T>, c: seq<T>)
    ensures a + b + c == a + (b + c)
  {
  }

  lemma EmptyFirst<T>(s: seq<T>)
    ensures [] + s == s
  {
  }

  predicate IsSuffix<T(==)>(a: seq<T>, s: seq<T>) {
    |a| <= |s| && a == s[|s| - |a|..]
  }

  function Flatten<T>(ss: seq<seq<T>>): seq<T> {
    if ss == [] then [] else ss[0] + Flatten(ss[1..])
  }
}
