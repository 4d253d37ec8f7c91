/**
 * The string operations the resolver borrows from JavaScript:
 * `Array.prototype.join` and `String.prototype.split` with a one-character
 * separator, and the "last piece" of such a split.
 */
module Text {

  predicate IsDigit(c: char) { '0' <= c <= '9' }

  /** `parts.join(sep)`: the parts with `sep` between neighbours. */
  function Join(parts: seq<string>, sep: string): string
    decreases |parts|
  {
    if |parts| == 0 then ""
    else if |parts| == 1 then parts[0]
    else parts[0] + sep + Join(parts[1..], sep)
  }

  /** `s.split(c)`: the maximal runs of `s` between occurrences of `c`, always at least one. */
  function Split(s: string, c: char): (parts: seq<string>)
    ensures |parts| >= 1
    ensures forall i :: 0 <= i < |parts| ==> c !in parts[i]
    ensures Join(parts, [c]) == s
    decreases |s|
  {
    if s == [] then [[]]
    else
      var rest := Split(s[1..], c);
      if s[0] == c then
        assert [c] + Join(rest, [c]) == s;
        [[]] + rest
      else
        var parts := [[s[0]] + rest[0]] + rest[1..];
        assert Join(parts, [c]) == s by {
          if |rest| > 1 {
            assert parts[1..] == rest[1..];
            assert Join(rest, [c]) == rest[0] + [c] + Join(rest[1..], [c]);
          }
        }
        parts
  }

  /** `Join` with at least two parts ends with the separator and the last part. */
  lemma {:induction false} JoinLast(parts: seq<string>, sep: string)
    requires |parts| >= 2
    ensures Join(parts, sep) == Join(parts[..|parts| - 1], sep) + sep + parts[|parts| - 1]
    decreases |parts|
  {
    if |parts| > 2 {
      JoinLast(parts[1..], sep);
      assert parts[1..][..|parts| - 2] == parts[..|parts| - 1][1..];
    }
  }

  /** A run without separators splits into itself. */
  lemma {:induction false} SplitNoSeparator(x: string, c: char)
    requires c !in x
    ensures Split(x, c) == [x]
    decreases |x|
  {
    if x != [] {
      SplitNoSeparator(x[1..], c);
      assert [x[0]] + x[1..] == x;
    }
  }

  /** Splitting `x + c + y`, where `x` holds no `c`, gives `x` and then the pieces of `y`. */
  lemma {:induction false} SplitAfter(x: string, y: string, c: char)
    requires c !in x
    ensures Split(x + [c] + y, c) == [x] + Split(y, c)
    decreases |x|
  {
    var s := x + [c] + y;
    if x == [] {
      assert s[1..] == y;
    } else {
      assert s[1..] == x[1..] + [c] + y;
      SplitAfter(x[1..], y, c);
      assert [x[0]] + x[1..] == x;
    }
  }

  /** Split undoes Join when the parts are free of the separator. */
  lemma {:induction false} SplitOfJoin(parts: seq<string>, c: char)
    requires |parts| >= 1
    requires forall i :: 0 <= i < |parts| ==> c !in parts[i]
    ensures Split(Join(parts, [c]), c) == parts
    decreases |parts|
  {
    if |parts| == 1 {
      SplitNoSeparator(parts[0], c);
    } else {
      SplitOfJoin(parts[1..], c);
      SplitAfter(parts[0], Join(parts[1..], [c]), c);
      assert [parts[0]] + parts[1..] == parts;
    }
  }

  /** `s.split(c).pop()`: the text after the last `c` in `s`, or all of `s`. */
  function LastPiece(s: string, c: char): (r: string)
    ensures c !in r
    ensures |r| <= |s| && s[|s| - |r|..] == r
    ensures |r| < |s| ==> s[|s| - |r| - 1] == c
  {
    var parts := Split(s, c);
    var n := |parts|;
    if n >= 2 then JoinLast(parts, [c]); parts[n - 1] else parts[n - 1]
  }

  /** The piece after the last separator is determined by any split of `s` at a separator. */
  lemma LastPieceAfter(p: string, seg: string, c: char)
    requires c !in seg
    ensures LastPiece(p + [c] + seg, c) == seg
  {
    var s := p + [c] + seg;
    assert s[|s| - |seg| - 1] == c;
  }
}
