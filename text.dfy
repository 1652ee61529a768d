/** The few string operations of Go's `strings` package that the parser
    relies on: `HasPrefix`, and `Split` on a one-character separator
    together with its inverse `Join`. `strings.Contains` with a
    one-character argument is Dafny's `in`. */
module Text {

  /** `strings.HasPrefix(s, p)`. */
  predicate HasPrefix(s: string, p: string) {
    |p| <= |s| && s[..|p|] == p
  }

  /** Number of occurrences of `c` in `s`. */
  function CountChar(s: string, c: char): (n: nat)
    ensures n <= |s|
    ensures n == 0 <==> c !in s
  {
    if s == [] then 0
    else (if s[0] == c then 1 else 0) + CountChar(s[1..], c)
  }

  /** Index of the first `c` in `s`, or `|s|` when there is none. */
  function IndexOf(s: string, c: char): (i: nat)
    ensures i <= |s|
    ensures i < |s| ==> s[i] == c
    ensures forall k :: 0 <= k < i ==> s[k] != c
  {
    if s == [] then 0
    else if s[0] == c then 0
    else 1 + IndexOf(s[1..], c)
  }

  /** The parts joined with `sep` between them (`strings.Join`). */
  function Join(parts: seq<string>, sep: char): string {
    if parts == [] then ""
    else if |parts| == 1 then parts[0]
    else parts[0] + [sep] + Join(parts[1..], sep)
  }

  /** `strings.Split(s, string(sep))`: the maximal runs of `s` between
      occurrences of `sep`, always at least one part. */
  function Split(s: string, sep: char): (parts: seq<string>)
    ensures |parts| == CountChar(s, sep) + 1
    decreases |s|
  {
    var i := IndexOf(s, sep);
    if i == |s| then [s]
    else
      CountCharSplitAt(s, sep, i);
      [s[..i]] + Split(s[i + 1..], sep)
  }

  /** No part holds the separator. */
  lemma {:induction false} SplitNoSeparator(s: string, sep: char)
    ensures forall part :: part in Split(s, sep) ==> sep !in part
    decreases |s|
  {
    var i := IndexOf(s, sep);
    if i < |s| {
      var head, rest := s[..i], Split(s[i + 1..], sep);
      SplitNoSeparator(s[i + 1..], sep);
      assert Split(s, sep) == [head] + rest;
      forall part | part in [head] + rest
        ensures sep !in part
      {
        if part != head {
          assert part in rest;
        }
      }
    }
  }

  /** Joining the parts gives the text back. */
  lemma {:induction false} JoinSplit(s: string, sep: char)
    ensures Join(Split(s, sep), sep) == s
    decreases |s|
  {
    var i := IndexOf(s, sep);
    if i < |s| {
      var head, tail := s[..i], s[i + 1..];
      JoinSplit(tail, sep);
      assert Split(s, sep) == [head] + Split(tail, sep);
      JoinCons(head, Split(tail, sep), sep);
      Around(s, i);
    }
  }

  /** Joining a first part onto at least one more puts a separator between. */
  lemma JoinCons(head: string, rest: seq<string>, sep: char)
    requires rest != []
    ensures Join([head] + rest, sep) == head + [sep] + Join(rest, sep)
  {
    assert ([head] + rest)[1..] == rest;
  }

  /** Counting around the first separator at index `i`. */
  lemma {:induction false} CountCharSplitAt(s: string, c: char, i: nat)
    requires i < |s| && s[i] == c
    requires forall k :: 0 <= k < i ==> s[k] != c
    ensures CountChar(s, c) == 1 + CountChar(s[i + 1..], c)
  {
    if i > 0 {
      assert s[1..][i - 1..] == s[i..];
      CountCharSplitAt(s[1..], c, i - 1);
      assert s[1..][i..] == s[i + 1..];
    }
  }

  /** Splitting undoes joining, as long as no part contains the separator. */
  lemma {:induction false} SplitJoin(parts: seq<string>, sep: char)
    requires |parts| >= 1
    requires forall part :: part in parts ==> sep !in part
    ensures Split(Join(parts, sep), sep) == parts
  {
    var s := Join(parts, sep);
    assert parts[0] in parts;
    if |parts| == 1 {
      assert IndexOf(s, sep) == |s|;
    } else {
      var p, rest := parts[0], Join(parts[1..], sep);
      FrontRest(parts);
      JoinCons(p, parts[1..], sep);
      IndexOfAfter(p, sep, rest);
      AroundParts(p, sep, rest);
      SplitJoin(parts[1..], sep);
    }
  }

  /** The two sides of an element put between them. */
  lemma AroundParts<T>(a: seq<T>, x: T, b: seq<T>)
    ensures (a + [x] + b)[..|a|] == a
    ensures (a + [x] + b)[|a| + 1..] == b
  {
  }

  /** A non-empty sequence is its first element followed by the rest. */
  lemma FrontRest<T>(s: seq<T>)
    requires s != []
    ensures s == [s[0]] + s[1..]
  {
  }

  /** The first separator of `p + [sep] + rest` is the one after `p`. */
  lemma IndexOfAfter(p: string, sep: char, rest: string)
    requires sep !in p
    ensures IndexOf(p + [sep] + rest, sep) == |p|
  {
    var s := p + [sep] + rest;
    assert forall k :: 0 <= k < |p| ==> s[k] == p[k];
    assert s[|p|] == sep;
  }

  /** The elements before `i`, element `i` and the elements after it make
      up the sequence. */
  lemma Around<T>(s: seq<T>, i: nat)
    requires i < |s|
    ensures s[..i] + [s[i]] + s[i + 1..] == s
  {
  }

  /** A non-empty sequence is its front followed by its last element. */
  lemma FrontLast<T>(s: seq<T>)
    requires s != []
    ensures s == s[..|s| - 1] + [s[|s| - 1]]
  {
  }
}
