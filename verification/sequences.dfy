/** Sequence vocabulary shared by the letter tracker, the buffer store and
    the pipeline: adjacency, bounded prefixes and suffixes, reversal and
    string concatenation. */
module Sequences {

  /** No two neighbouring elements are equal. */
  predicate NoAdjacentDuplicates<T(==)>(s: seq<T>) {
    forall i :: 0 < i < |s| ==> s[i - 1] != s[i]
  }

  function Min(a: int, b: int): (m: int) {
    if a <= b then a else b
  }

  /** The first `n` elements of `s`, or all of `s` when it is shorter. */
  function Take<T>(s: seq<T>, n: nat): (r: seq<T>)
    ensures |r| == Min(n, |s|)
  {
    s[..Min(n, |s|)]
  }

  /** The last `n` elements of `s`, or all of `s` when it is shorter. */
  function LastN<T>(s: seq<T>, n: nat): (r: seq<T>)
    ensures |r| == Min(n, |s|)
  {
    s[|s| - Min(n, |s|)..]
  }

  /** `s` in the opposite order. */
  function Reverse<T>(s: seq<T>): (r: seq<T>)
    ensures |r| == |s|
  {
    if s == [] then [] else [s[|s| - 1]] + Reverse(s[..|s| - 1])
  }

  /** `n` copies of `x`. */
  function Repeat<T>(x: T, n: nat): (r: seq<T>)
    ensures |r| == n
  {
    seq(n, _ => x)
  }

  /** In-order concatenation of strings with no separator (`Array.join('')`). */
  function Join(parts: seq<string>): (w: string) {
    if parts == [] then "" else Join(parts[..|parts| - 1]) + parts[|parts| - 1]
  }

  /** Any suffix of a sequence without adjacent duplicates has none either. */
  lemma SuffixKeepsNoAdjacentDuplicates<T>(s: seq<T>, k: nat)
    requires k <= |s|
    requires NoAdjacentDuplicates(s)
    ensures NoAdjacentDuplicates(s[k..])
  {
    forall i | 0 < i < |s| - k
      ensures s[k..][i - 1] != s[k..][i]
    {
      assert s[k..][i - 1] == s[k + i - 1] && s[k..][i] == s[k + i];
    }
  }

  /** Appending an element different from the last one keeps the property. */
  lemma AppendKeepsNoAdjacentDuplicates<T>(s: seq<T>, x: T)
    requires NoAdjacentDuplicates(s)
    requires s == [] || s[|s| - 1] != x
    ensures NoAdjacentDuplicates(s + [x])
  {
  }

  /** Join distributes over concatenation: the word of two buffers
      placed end to end is the two words placed end to end. */
  lemma {:induction false} JoinAppend(a: seq<string>, b: seq<string>)
    ensures Join(a + b) == Join(a) + Join(b)
    decreases |b|
  {
    if b == [] {
      assert a + b == a;
    } else {
      var b' := b[..|b| - 1];
      assert (a + b)[..|a + b| - 1] == a + b';
      JoinAppend(a, b');
    }
  }

  /** When every part is a single character the joined word has one
      character per part, in order. */
  lemma {:induction false} JoinOfSingleCharacters(parts: seq<string>)
    requires forall i :: 0 <= i < |parts| ==> |parts[i]| == 1
    ensures |Join(parts)| == |parts|
    ensures forall i :: 0 <= i < |parts| ==> Join(parts)[i] == parts[i][0]
  {
    if parts != [] {
      var p := parts[..|parts| - 1];
      JoinOfSingleCharacters(p);
      assert Join(parts) == Join(p) + parts[|parts| - 1];
    }
  }

  /** Reversing `s + [x]` puts `x` first. */
  lemma ReverseSnoc<T>(s: seq<T>, x: T)
    ensures Reverse(s + [x]) == [x] + Reverse(s)
  {
    assert (s + [x])[..|s + [x]| - 1] == s;
  }

  /** Keeping the last `n` of a sequence already trimmed to `n`, after one more
      element arrives, is the same as trimming the untrimmed sequence. */
  lemma LastNSnoc<T>(s: seq<T>, x: T, n: nat)
    ensures LastN(LastN(s, n) + [x], n) == LastN(s + [x], n)
  {
    var l := LastN(s, n);
    if n <= |s| {
      assert |l| == n;
      if n > 0 {
        assert LastN(l + [x], n) == l[1..] + [x];
        assert LastN(s + [x], n) == s[|s| - n + 1..] + [x];
        assert l[1..] == s[|s| - n + 1..];
      }
    } else {
      assert l == s;
    }
  }

  /** `LastNSnoc` for a sequence built as `s + a`. */
  lemma LastNSnocAfter<T>(s: seq<T>, a: seq<T>, x: T, n: nat)
    ensures LastN(LastN(s + a, n) + [x], n) == LastN(s + (a + [x]), n)
  {
    LastNSnoc(s + a, x, n);
    assert s + a + [x] == s + (a + [x]);
  }

  /** Symmetric fact for prefixes with a new head element. */
  lemma TakeCons<T>(x: T, s: seq<T>, n: nat)
    ensures Take([x] + Take(s, n), n) == Take([x] + s, n)
  {
    if n <= |s| {
      assert Take([x] + Take(s, n), n) == ([x] + s)[..n];
    } else {
      assert Take(s, n) == s;
    }
  }

  /** `TakeCons` for a history built as the reversed arrivals before `h`. */
  lemma TakeConsReversed<T>(a: seq<T>, h: seq<T>, x: T, n: nat)
    ensures Take([x] + Take(Reverse(a) + h, n), n) == Take(Reverse(a + [x]) + h, n)
  {
    TakeCons(x, Reverse(a) + h, n);
    ReverseSnoc(a, x);
    assert [x] + (Reverse(a) + h) == Reverse(a + [x]) + h;
  }
}
