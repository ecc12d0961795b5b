/** Ends and regrouping of sequences. */
module Sequences {

  function Last<T>(s: seq<T>): T
    requires s != []
  {
    s[|s| - 1]
  }

  function DropLast<T>(s: seq<T>): seq<T>
    requires s != []
  {
    s[..|s| - 1]
  }

  lemma AppendAll<T>(a: seq<T>, b: seq<T>, c: seq<T>)
    ensures a + b + c == a + (b + c)
  {
  }

  lemma NothingBefore<T>(s: seq<T>)
    ensures [] + s == s
  {
  }

  lemma NothingAfter<T>(s: seq<T>)
    ensures s + [] == s
  {
  }

  lemma AppendTwo<T>(s: seq<T>, more: seq<T>)
    requires |more| == 2
    ensures s + more == s + [more[0]] + [more[1]]
  {
  }

  lemma SplitAt<T>(s: seq<T>, lo: nat, mid: nat, hi: nat)
    requires lo <= mid <= hi <= |s|
    ensures s[lo..hi] == s[lo..mid] + s[mid..hi]
  {
  }

  lemma MiddleIs<T>(s: seq<T>, a: seq<T>, b: seq<T>, c: seq<T>, from: nat, to: nat)
    requires s == a + (b + c) && from == |a| && to == |a| + |b|
    ensures s[from..to] == b
  {
  }

  lemma ThreeParts<T>(s: seq<T>, from: nat, to: nat)
    requires from <= to <= |s|
    ensures s == s[..from] + (s[from..to] + s[to..])
  {
  }
}
