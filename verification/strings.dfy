/** The two string primitives a ResourceID is built and parsed with: locating a
    separator, and splitting on it with a bound on the number of parts. The
    separator is always a single character here ('/'), so Go's byte-wise search
    and a search over `seq<char>` agree. */
module Strings {

  function Min(a: nat, b: nat): nat {
    if a <= b then a else b
  }

  /** Position of the first `c` in `s`, or -1 when there is none. */
  function IndexByte(s: string, c: char): (i: int)
    ensures -1 <= i < |s|
    ensures i == -1 <==> c !in s
    ensures 0 <= i ==> s[i] == c && c !in s[..i]
  {
    if |s| == 0 then -1
    else if s[0] == c then 0
    else
      var j := IndexByte(s[1..], c);
      if j < 0 then -1
      else
        assert s[..j + 1] == [s[0]] + s[1..][..j];
        j + 1
  }

  /** Glues parts back together with one `sep` between neighbours. */
  function Join(parts: seq<string>, sep: char): string {
    if |parts| == 0 then ""
    else if |parts| == 1 then parts[0]
    else parts[0] + [sep] + Join(parts[1..], sep)
  }

  /** Go's `strings.SplitN(s, sep, n)` for a one-character separator and n >= 0:
      at most `n` parts, the last one holding the unsplit remainder. Go also
      clamps `n` to `len(s) + 1`; with a one-character separator there are never
      more parts than that, so the clamp changes nothing. */
  function SplitN(s: string, sep: char, n: nat): (parts: seq<string>)
    ensures |parts| <= n
    ensures n > 0 ==> |parts| > 0
    ensures forall i :: 0 <= i < |parts| - 1 ==> sep !in parts[i]
    ensures 0 < |parts| < n ==> sep !in parts[|parts| - 1]
    decreases n
  {
    if n == 0 then []
    else if n == 1 then [s]
    else
      var m := IndexByte(s, sep);
      if m < 0 then [s]
      else [s[..m]] + SplitN(s[m + 1..], sep, n - 1)
  }

  /** Joining the parts of a split with the separator rebuilds the input, and
      there are as many parts as the bound and the separators allow. */
  lemma {:induction false} SplitNJoin(s: string, sep: char, n: nat)
    requires n > 0
    ensures Join(SplitN(s, sep, n), sep) == s
    ensures |SplitN(s, sep, n)| == Min(n, multiset(s)[sep] + 1)
    decreases n
  {
    if n > 1 && sep in s {
      var m := IndexByte(s, sep);
      var rest := SplitN(s[m + 1..], sep, n - 1);
      SplitNJoin(s[m + 1..], sep, n - 1);
      SplitAt(s, sep, m);
      JoinCons(s[..m], rest, sep);
    }
  }

  /** Cutting `s` at its first separator: the pieces rebuild `s`, and the
      separator count drops by exactly one. */
  lemma SplitAt(s: string, sep: char, m: nat)
    requires m < |s| && s[m] == sep && sep !in s[..m]
    ensures s == s[..m] + [sep] + s[m + 1..]
    ensures multiset(s)[sep] == multiset(s[m + 1..])[sep] + 1
  {
    assert s == s[..m] + [sep] + s[m + 1..];
    assert multiset(s[..m])[sep] == 0;
  }

  lemma JoinCons(head: string, rest: seq<string>, sep: char)
    requires |rest| > 0
    ensures Join([head] + rest, sep) == head + [sep] + Join(rest, sep)
  {
    assert ([head] + rest)[1..] == rest;
  }

  /** One step of the split of a string that holds the separator. */
  lemma SplitNCut(s: string, sep: char, n: nat)
    requires sep in s && n >= 2
    ensures SplitN(s, sep, n) == [s[..IndexByte(s, sep)]] + SplitN(s[IndexByte(s, sep) + 1..], sep, n - 1)
  {
  }

  /** Splitting at a first separator that sits right after `a`: one part `a`,
      then the split of what follows with one part fewer. */
  lemma {:induction false} SplitNAfterPrefix(a: string, c: char, b: string, n: nat)
    requires c !in a && n >= 2
    ensures SplitN(a + [c] + b, c, n) == [a] + SplitN(b, c, n - 1)
  {
    var s := a + [c] + b;
    IndexAfterPrefix(a, c, b);
    assert s[..|a|] == a;
    assert s[|a| + 1..] == b;
  }

  /** Three fields joined by two separators split back into those fields when
      the first two hold no separator; the third may hold any number. */
  lemma {:induction false} SplitNThree(a: string, b: string, c: string, sep: char)
    requires sep !in a && sep !in b
    ensures SplitN(a + [sep] + b + [sep] + c, sep, 3) == [a, b, c]
  {
    assert a + [sep] + b + [sep] + c == a + [sep] + (b + [sep] + c);
    SplitNAfterPrefix(a, sep, b + [sep] + c, 3);
    SplitNAfterPrefix(b, sep, c, 2);
  }

  /** When the middle field does hold a separator, the second part is the
      middle field cut at its first separator. */
  lemma {:induction false} SplitNThreeMiddle(a: string, b: string, c: string, sep: char)
    requires sep !in a && sep in b
    ensures |SplitN(a + [sep] + b + [sep] + c, sep, 3)| >= 2
    ensures SplitN(a + [sep] + b + [sep] + c, sep, 3)[1] == b[..IndexByte(b, sep)]
  {
    var tail := b + ([sep] + c);
    assert a + [sep] + b + [sep] + c == a + [sep] + tail;
    SplitNAfterPrefix(a, sep, tail, 3);
    SplitNFirstPart(b, [sep] + c, sep);
  }

  /** The first part of a two-way split of `b + rest` with a separator in `b`
      lies inside `b`. */
  lemma {:induction false} SplitNFirstPart(b: string, rest: string, sep: char)
    requires sep in b
    ensures SplitN(b + rest, sep, 2)[0] == b[..IndexByte(b, sep)]
  {
    IndexInPrefix(b, rest, sep);
    var m := IndexByte(b, sep);
    SplitNCut(b + rest, sep, 2);
    assert (b + rest)[..m] == b[..m];
  }

  /** The first part of a split is a prefix of the input that ends at a
      separator or at the end of the input. */
  lemma {:induction false} FirstPartIsPrefix(s: string, sep: char, n: nat)
    requires n >= 1
    ensures var p := SplitN(s, sep, n)[0];
      && |p| <= |s| && s[..|p|] == p && (|p| == |s| || s[|p|] == sep)
  {
    if n >= 2 && sep in s {
      SplitNCut(s, sep, n);
    }
  }

  /** The second part of a three-way split, after a separator-free first field,
      is a prefix of the remainder that ends at a separator or at its end. */
  lemma {:induction false} SecondPartIsPrefix(a: string, rest: string, sep: char)
    requires sep !in a
    ensures |SplitN(a + [sep] + rest, sep, 3)| >= 2
    ensures var p := SplitN(a + [sep] + rest, sep, 3)[1];
      && |p| <= |rest| && rest[..|p|] == p && (|p| == |rest| || rest[|p|] == sep)
  {
    SplitNAfterPrefix(a, sep, rest, 3);
    FirstPartIsPrefix(rest, sep, 2);
  }

  /** With `c` absent from `a`, the first `c` in `a + [c] + b` is the one just after `a`. */
  lemma {:induction false} IndexAfterPrefix(a: string, c: char, b: string)
    requires c !in a
    ensures IndexByte(a + [c] + b, c) == |a|
  {
    var s := a + [c] + b;
    assert s[|a|] == c;
    assert s[..|a|] == a;
  }

  /** A `c` inside `a` is found before anything that follows `a`. */
  lemma {:induction false} IndexInPrefix(a: string, b: string, c: char)
    requires c in a
    ensures IndexByte(a + b, c) == IndexByte(a, c)
  {
    var i := IndexByte(a, c);
    var j := IndexByte(a + b, c);
    assert (a + b)[i] == c;
    assert (a + b)[..i] == a[..i];
  }
}
