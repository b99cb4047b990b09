/** Python's `str.split(sep)` with a one-character separator, its inverse
    `sep.join(parts)`, and `split(sep)[-1]`, the piece after the last
    separator (used both for a file's extension and for `os.path.basename`). */
module Strings {

  /** `s.split(sep)`: the maximal separator-free pieces of `s`, in order.
      There is always at least one piece; the empty string gives `[""]`. */
  function Split(s: string, sep: char): (parts: seq<string>)
    ensures |parts| >= 1
    ensures forall p :: p in parts ==> sep !in p
    decreases |s|
  {
    if s == [] then [[]]
    else
      var rest := Split(s[1..], sep);
      if s[0] == sep then [[]] + rest
      else [[s[0]] + rest[0]] + rest[1..]
  }

  /** `sep.join(parts)`. */
  function Join(parts: seq<string>, sep: char): string
    requires |parts| >= 1
    decreases |parts|
  {
    if |parts| == 1 then parts[0] else parts[0] + [sep] + Join(parts[1..], sep)
  }

  /** Joining the pieces of a split gives back the original string. */
  lemma {:induction false} SplitThenJoin(s: string, sep: char)
    ensures Join(Split(s, sep), sep) == s
    decreases |s|
  {
    if s != [] {
      var rest := Split(s[1..], sep);
      SplitThenJoin(s[1..], sep);
      if s[0] == sep {
        assert ([[]] + rest)[1..] == rest;
      } else {
        var parts := [[s[0]] + rest[0]] + rest[1..];
        if |rest| > 1 {
          assert parts[1..] == rest[1..];
        }
      }
    }
  }

  /** Splitting a string whose first piece is `a` (separator-free). */
  lemma {:induction false} SplitAfterPrefix(a: string, t: string, sep: char)
    requires sep !in a
    ensures Split(a + t, sep) == [a + Split(t, sep)[0]] + Split(t, sep)[1..]
    decreases |a|
  {
    if a != [] {
      var st := Split(t, sep);
      assert (a + t)[0] == a[0];
      assert (a + t)[1..] == a[1..] + t;
      SplitAfterPrefix(a[1..], t, sep);
      var rest := Split(a[1..] + t, sep);
      assert rest[0] == a[1..] + st[0];
      assert rest[1..] == st[1..];
      assert [a[0]] + (a[1..] + st[0]) == a + st[0];
    } else {
      assert a + t == t;
      assert a + Split(t, sep)[0] == Split(t, sep)[0];
    }
  }

  /** Splitting separator-free pieces joined by the separator gives them back. */
  lemma {:induction false} JoinThenSplit(parts: seq<string>, sep: char)
    requires |parts| >= 1
    requires forall p :: p in parts ==> sep !in p
    ensures Split(Join(parts, sep), sep) == parts
    decreases |parts|
  {
    var a := parts[0];
    if |parts| == 1 {
      SplitAfterPrefix(a, [], sep);
      assert a + [] == a;
    } else {
      var j := Join(parts[1..], sep);
      JoinThenSplit(parts[1..], sep);
      assert a + [sep] + j == a + ([sep] + j);
      SplitAfterPrefix(a, [sep] + j, sep);
      assert ([sep] + j)[1..] == j;
      assert Split([sep] + j, sep) == [[]] + parts[1..];
      assert a + [] == a;
      assert [a] + parts[1..] == parts;
    }
  }

  /** The last piece of a join follows the last separator. */
  lemma {:induction false} JoinLast(parts: seq<string>, sep: char)
    requires |parts| >= 2
    ensures Join(parts, sep) == Join(parts[..|parts| - 1], sep) + [sep] + parts[|parts| - 1]
    decreases |parts|
  {
    if |parts| > 2 {
      JoinLast(parts[1..], sep);
      assert parts[..|parts| - 1][1..] == parts[1..][..|parts| - 2];
    }
  }

  /** `s.split(sep)[-1]`: the suffix of `s` after its last separator, or all
      of `s` when it has none. */
  function LastPart(s: string, sep: char): (r: string)
    ensures sep !in r
    ensures |r| <= |s| && s[|s| - |r|..] == r
    ensures |r| == |s| || s[|s| - |r| - 1] == sep
  {
    var parts := Split(s, sep);
    SplitThenJoin(s, sep);
    if |parts| >= 2 then JoinLast(parts, sep); parts[|parts| - 1]
    else parts[|parts| - 1]
  }

  /** The three properties in LastPart's contract determine it: no other
      suffix is separator-free and preceded by a separator (or whole). */
  lemma LastPartUnique(s: string, sep: char, t: string)
    requires sep !in t
    requires |t| <= |s| && s[|s| - |t|..] == t
    requires |t| == |s| || s[|s| - |t| - 1] == sep
    ensures t == LastPart(s, sep)
  {
  }

  /** Whatever precedes the last separator does not affect the last piece. */
  lemma LastPartAfterSeparator(a: string, b: string, sep: char)
    requires sep !in b
    ensures LastPart(a + [sep] + b, sep) == b
  {
    var s := a + [sep] + b;
    assert s[|s| - |b|..] == b;
    assert s[|s| - |b| - 1] == sep;
    LastPartUnique(s, sep, b);
  }

  /** A separator-free string is its own last piece. */
  lemma LastPartOfPiece(s: string, sep: char)
    requires sep !in s
    ensures LastPart(s, sep) == s
  {
    assert s[0..] == s;
    LastPartUnique(s, sep, s);
  }
}
