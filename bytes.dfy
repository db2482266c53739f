/**
 * Byte strings, as Go's `string` and `[]byte` hold them, with the two library
 * operations the engine relies on: `strings.Index` for a single byte and
 * `strings.Split` on "\n".
 */
module Bytes {

  type Byte = b: int | 0 <= b < 256

  const NL: Byte := 10      // '\n'
  const MINUS: Byte := 45   // '-'
  const DOT: Byte := 46     // '.'
  const ZERO: Byte := 48    // '0'
  const SEMI: Byte := 59    // ';'

  predicate IsDigit(b: Byte) {
    ZERO <= b <= ZERO + 9
  }

  /** `strings.Index(s, string(b))`: the first position of `b`, or -1. */
  function IndexOf(s: seq<Byte>, b: Byte): (i: int)
    ensures -1 <= i < |s|
    ensures i == -1 <==> b !in s
    ensures 0 <= i ==> s[i] == b && b !in s[..i]
  {
    if |s| == 0 then -1
    else if s[0] == b then 0
    else
      var j := IndexOf(s[1..], b);
      assert s[1..][..if j < 0 then 0 else j] == s[1..1 + (if j < 0 then 0 else j)];
      if j == -1 then -1 else j + 1
  }

  /** The inverse of `Split`: the pieces joined with "\n" between them. */
  function Join(lines: seq<seq<Byte>>): seq<Byte>
    requires |lines| >= 1
  {
    if |lines| == 1 then lines[0] else lines[0] + [NL] + Join(lines[1..])
  }

  /**
   * `strings.Split(s, "\n")`: the pieces between newlines, including an empty
   * piece before a leading and after a trailing newline.
   */
  function Split(s: seq<Byte>): (lines: seq<seq<Byte>>)
    ensures |lines| >= 1
    ensures forall i :: 0 <= i < |lines| ==> NL !in lines[i]
    ensures Join(lines) == s
    decreases |s|
  {
    var i := IndexOf(s, NL);
    if i == -1 then [s]
    else
      var rest := Split(s[i + 1..]);
      var lines := [s[..i]] + rest;
      JoinCons(s[..i], rest);
      assert s == s[..i] + [NL] + s[i + 1..];
      assert forall k :: 0 < k < |lines| ==> lines[k] == rest[k - 1];
      lines
  }

  lemma JoinCons(head: seq<Byte>, rest: seq<seq<Byte>>)
    requires |rest| >= 1
    ensures Join([head] + rest) == head + [NL] + Join(rest)
  {
    assert ([head] + rest)[1..] == rest;
  }

  /** Splitting at a newline splits the pieces there. */
  lemma {:induction false} SplitAppend(a: seq<Byte>, b: seq<Byte>)
    ensures Split(a + [NL] + b) == Split(a) + Split(b)
    decreases |a|
  {
    var i := IndexOf(a, NL);
    if i == -1 {
      SplitAtNewline(a, b);
    } else {
      SplitAppend(a[i + 1..], b);
      SplitAtFirstOfAppend(a, b, i);
      SplitAtFirst(a, i);
      AppendAssoc([a[..i]], Split(a[i + 1..]), Split(b));
    }
  }

  /** A range cut at one of its elements: what comes before it, the element, and what comes after. */
  lemma SliceAt<T>(a: seq<T>, s: nat, n: nat, e: nat)
    requires s <= n < e <= |a|
    ensures a[s..e] == a[s..n] + [a[n]] + a[n + 1..e]
  {
  }

  lemma SliceToEnd<T>(a: seq<T>, s: nat)
    requires s <= |a|
    ensures a[s..|a|] == a[s..]
  {
  }

  /** Cutting a sequence short keeps the first occurrence of a byte, if the cut keeps it at all. */
  lemma IndexOfTruncated(s: seq<Byte>, n: nat, b: Byte)
    requires n <= |s| && b in s[..n]
    ensures IndexOf(s[..n], b) == IndexOf(s, b)
  {
    var i, j := IndexOf(s, b), IndexOf(s[..n], b);
    assert s[..n][..j] == s[..j] && s[j] == b;
    assert b in s;
    assert forall k :: 0 <= k < j ==> s[..j][k] == s[k];
    assert forall k :: 0 <= k < i ==> s[..i][k] == s[k];
  }

  lemma TailOfPrefix<T>(a: seq<T>, i: nat, n: nat)
    requires i < n <= |a|
    ensures a[..n][i + 1..] == a[i + 1..][..n - i - 1]
  { }

  lemma AppendAssoc<T>(x: seq<T>, y: seq<T>, z: seq<T>)
    ensures x + (y + z) == (x + y) + z
  {
  }

  lemma SplitAtNewline(a: seq<Byte>, b: seq<Byte>)
    requires NL !in a
    ensures Split(a + [NL] + b) == [a] + Split(b)
  {
    var s := a + [NL] + b;
    assert s[..|a|] == a;
    IndexOfPrefix(s, |a|);
    assert s[|a| + 1..] == b;
  }

  lemma SplitAtFirstOfAppend(a: seq<Byte>, b: seq<Byte>, i: nat)
    requires i < |a| && a[i] == NL && NL !in a[..i]
    ensures Split(a + [NL] + b) == [a[..i]] + Split(a[i + 1..] + [NL] + b)
  {
    var s := a + [NL] + b;
    assert s[..i] == a[..i];
    IndexOfPrefix(s, i);
    assert s[i + 1..] == a[i + 1..] + [NL] + b;
  }

  /** The first newline ends the first piece. */
  lemma SplitAtFirst(s: seq<Byte>, i: nat)
    requires i < |s| && s[i] == NL && NL !in s[..i]
    ensures Split(s) == [s[..i]] + Split(s[i + 1..])
  {
    IndexOfPrefix(s, i);
  }

  /** A byte's first position is fixed by the prefix up to it. */
  lemma IndexOfPrefix(s: seq<Byte>, i: nat)
    requires i < |s| && s[i] == NL && NL !in s[..i]
    ensures IndexOf(s, NL) == i
  {
  }

  /** Joining pieces without newlines and splitting again gives the pieces back. */
  lemma {:induction false} SplitJoin(lines: seq<seq<Byte>>)
    requires |lines| >= 1
    requires forall i :: 0 <= i < |lines| ==> NL !in lines[i]
    ensures Split(Join(lines)) == lines
    decreases |lines|
  {
    if |lines| == 1 {
      assert IndexOf(lines[0], NL) == -1;
    } else {
      SplitJoin(lines[1..]);
      SplitAppend(lines[0], Join(lines[1..]));
      assert IndexOf(lines[0], NL) == -1;
    }
  }

  /** A piece of `s` without newlines is the first line of `s` or a prefix of it. */
  lemma FirstLineExtends(s: seq<Byte>, n: nat)
    requires n < |s| && s[n] != NL && NL !in s[..n]
    ensures |Split(s)[0]| > n && Split(s)[0][..n] == s[..n]
  {
  }
}
